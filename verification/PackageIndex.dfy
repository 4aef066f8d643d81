/** The public package index: published versions are immutable, and a merge adds all of a batch or nothing. */
module PackageIndex {
  import opened Text

  datatype Entry = Entry(version: string, platform: string, sha256: string, digest: string, size: nat, url: string)

  type Index = map<string, seq<Entry>>

  /** A package to be merged, with the checksum and the size of the archive that came with it. */
  datatype Package = Package(name: string, entry: Entry, archiveSha256: string, archiveSize: nat)

  // ---------------------------------------------------------------- the rules

  predicate SameContent(published: Entry, candidate: Entry) {
    published.sha256 == candidate.sha256 || (published.digest != "" && published.digest == candidate.digest)
  }

  function Dashed(platform: string): string {
    if platform == "" then "" else [if platform[0] == '/' then '-' else platform[0]] + Dashed(platform[1..])
  }

  function ArchiveName(name: string, version: string, platform: string): string {
    name + "-" + version + (if platform == "" then "" else "-" + Dashed(platform)) + ".tar.gz"
  }

  /** `base` is the download address of the index release. */
  predicate UrlOk(base: string, name: string, e: Entry) {
    e.url == base + ArchiveName(name, e.version, e.platform)
  }

  ghost predicate UrlsOk(base: string, index: Index) {
    forall name, i :: name in index && 0 <= i < |index[name]| ==> UrlOk(base, name, index[name][i])
  }

  method CheckUrls(base: string, index: Index) returns (ok: bool)
    ensures ok <==> UrlsOk(base, index)
  {
    var todo := index.Keys;
    while todo != {}
      invariant todo <= index.Keys
      invariant forall name, i :: name in index && name !in todo && 0 <= i < |index[name]| ==>
                UrlOk(base, name, index[name][i])
      decreases todo
    {
      var name :| name in todo;
      for i := 0 to |index[name]|
        invariant forall k :: 0 <= k < i ==> UrlOk(base, name, index[name][k])
      {
        var e := index[name][i];
        if e.url != base + ArchiveName(name, e.version, e.platform) { return false; }
      }
      todo := todo - {name};
    }
    ok := true;
  }

  predicate IsAllowed(c: char) {
    'a' <= c <= 'z' || 'A' <= c <= 'Z' || '0' <= c <= '9' || c == '.' || c == '_' || c == '-'
  }

  predicate PlatformOk(platform: string) {
    platform == "" || platform == "linux/arm64" || platform == "linux/amd64"
  }

  predicate Verified(p: Package) {
    && p.archiveSha256 == p.entry.sha256 && p.archiveSize == p.entry.size
    && (forall i :: 0 <= i < |p.name| ==> IsAllowed(p.name[i]))
    && (forall i :: 0 <= i < |p.entry.version| ==> IsAllowed(p.entry.version[i]))
    && PlatformOk(p.entry.platform)
  }

  /** What a package must be like to be merged. */
  lemma VerifiedExactly(p: Package)
    ensures Verified(p) <==>
            && p.archiveSha256 == p.entry.sha256 && p.archiveSize == p.entry.size
            && (forall c :: c in p.name + p.entry.version ==> c in ALLOWED)
            && p.entry.platform in ["", "linux/arm64", "linux/amd64"]
  {
    forall c ensures c in ALLOWED <==> IsAllowed(c) {
      AllowedExactly(c);
    }
    assert forall c :: c in p.name + p.entry.version <==> c in p.name || c in p.entry.version;
  }

  const LOWER := "abcdefghijklmnopqrstuvwxyz"
  const UPPER := "ABCDEFGHIJKLMNOPQRSTUVWXYZ"
  const ALLOWED := LOWER + UPPER + "0123456789._-"

  lemma LowerExactly(c: char)
    ensures c in LOWER <==> 'a' <= c <= 'z'
  {
  }

  lemma UpperExactly(c: char)
    ensures c in UPPER <==> 'A' <= c <= 'Z'
  {
  }

  lemma AllowedExactly(c: char)
    ensures c in ALLOWED <==> IsAllowed(c)
  {
    LowerExactly(c);
    UpperExactly(c);
    assert c in "0123456789._-" <==> '0' <= c <= '9' || c == '.' || c == '_' || c == '-';
  }

  predicate SameKey(a: Entry, b: Entry) {
    a.version == b.version && a.platform == b.platform
  }

  /** The first published entry of the same version and platform. */
  function Existing(versions: seq<Entry>, e: Entry): (r: Option<Entry>)
    ensures r.Some? ==> r.value in versions && SameKey(r.value, e)
    ensures r.None? <==> forall i :: 0 <= i < |versions| ==> !SameKey(versions[i], e)
  {
    if versions == [] then None
    else if SameKey(versions[0], e) then Some(versions[0])
    else
      assert forall i :: 0 < i < |versions| ==> versions[i] == versions[1..][i - 1];
      Existing(versions[1..], e)
  }

  function Versions(index: Index, name: string): seq<Entry> {
    if name in index then index[name] else []
  }

  // ---------------------------------------------------------------- the merge

  /** What a file holds is represented by its checksum. */
  type Files = map<string, string>

  /** `files` are the archives in the destination directory. */
  datatype Progress = Progress(index: Index, added: seq<string>, conflicts: nat, files: Files)

  function Begin(index: Index, files: Files): Progress {
    Progress(index, [], 0, files)
  }

  function ArchiveOf(p: Package): string {
    ArchiveName(p.name, p.entry.version, p.entry.platform)
  }

  function Published(base: string, p: Package): Entry {
    p.entry.(url := base + ArchiveOf(p))
  }

  function Add(base: string, s: Progress, p: Package): Progress {
    match Existing(Versions(s.index, p.name), p.entry)
    case Some(e) => if SameContent(e, p.entry) then s else s.(conflicts := s.conflicts + 1)
    case None =>
      s.(index := s.index[p.name := Versions(s.index, p.name) + [Published(base, p)]],
         added := s.added + [ArchiveOf(p)], files := s.files[ArchiveOf(p) := p.archiveSha256])
  }

  function AddAll(base: string, s: Progress, batch: seq<Package>): Progress {
    if batch == [] then s else Add(base, AddAll(base, s, batch[..|batch| - 1]), batch[|batch| - 1])
  }

  lemma AddAllStep(base: string, s: Progress, batch: seq<Package>, i: nat)
    requires i < |batch|
    ensures AddAll(base, s, batch[..i + 1]) == Add(base, AddAll(base, s, batch[..i]), batch[i])
  {
    assert batch[..i + 1][..i] == batch[..i];
  }

  datatype Outcome = Written(index: Index, added: seq<string>) | BadIndex | NothingToMerge | BadPackage | Conflict

  ghost predicate AllVerified(batch: seq<Package>) {
    forall i :: 0 <= i < |batch| ==> Verified(batch[i])
  }

  /**
   Only Written writes the index; every other outcome leaves the published one as it is.
   Archives are copied as the batch is gone through, whatever comes of it.
   */
  method Merge(base: string, index: Index, files: Files, batch: seq<Package>) returns (r: Outcome, files': Files)
    ensures r.Written? <==> UrlsOk(base, index) && batch != [] && AllVerified(batch)
                            && AddAll(base, Begin(index, files), batch).conflicts == 0
    ensures r.Written? ==> var s := AddAll(base, Begin(index, files), batch); r.index == s.index && r.added == s.added
    ensures r.Written? || r.Conflict? ==> AllVerified(batch) && files' == AddAll(base, Begin(index, files), batch).files
    ensures r.BadPackage? ==> exists k :: 0 <= k < |batch| && AllVerified(batch[..k]) && !Verified(batch[k]) &&
                                          files' == AddAll(base, Begin(index, files), batch[..k]).files
    ensures r.BadIndex? || r.NothingToMerge? ==> files' == files
  {
    files' := files;
    var ok := CheckUrls(base, index);
    if !ok { return BadIndex, files'; }
    if batch == [] { return NothingToMerge, files'; }
    var k, s := AddVerified(base, Begin(index, files), batch);
    files' := s.files;
    if k < |batch| { return BadPackage, files'; }
    assert batch[..|batch|] == batch;
    if s.conflicts > 0 { return Conflict, files'; }
    r := Written(s.index, s.added);
  }

  /** Goes through the batch up to the first package that does not verify. */
  method AddVerified(base: string, begin: Progress, batch: seq<Package>) returns (k: nat, s: Progress)
    ensures k <= |batch| && AllVerified(batch[..k]) && (k < |batch| ==> !Verified(batch[k]))
    ensures s == AddAll(base, begin, batch[..k])
  {
    s := begin;
    for i := 0 to |batch|
      invariant s == AddAll(base, begin, batch[..i]) && AllVerified(batch[..i])
    {
      if !Verified(batch[i]) { return i, s; }
      AddAllStep(base, begin, batch, i);
      VerifiedStep(batch, i);
      s := Add(base, s, batch[i]);
    }
    k := |batch|;
  }

  lemma VerifiedStep(batch: seq<Package>, i: nat)
    requires i < |batch| && AllVerified(batch[..i]) && Verified(batch[i])
    ensures AllVerified(batch[..i + 1])
  {
    var done := batch[..i + 1];
    forall k | 0 <= k < |done| ensures Verified(done[k]) {
      assert k < i ==> done[k] == batch[..i][k];
    }
  }

  // ---------------------------------------------------------------- what a merge keeps

  ghost predicate UniqueKeys(index: Index) {
    forall name, i, j :: name in index && 0 <= i < j < |index[name]| ==> !SameKey(index[name][i], index[name][j])
  }

  /** Every published entry is still there, where it was. */
  ghost predicate Extends(index: Index, later: Index) {
    forall name :: name in index ==> name in later && index[name] <= later[name]
  }

  lemma AddKeeps(base: string, s: Progress, p: Package)
    ensures var t := Add(base, s, p);
            && Extends(s.index, t.index) && t.conflicts >= s.conflicts
            && (UniqueKeys(s.index) ==> UniqueKeys(t.index))
            && (UrlsOk(base, s.index) ==> UrlsOk(base, t.index))
  {
  }

  lemma {:induction false} MergeKeeps(base: string, s: Progress, batch: seq<Package>)
    ensures var t := AddAll(base, s, batch);
            && Extends(s.index, t.index) && t.conflicts >= s.conflicts
            && (UniqueKeys(s.index) ==> UniqueKeys(t.index))
            && (UrlsOk(base, s.index) ==> UrlsOk(base, t.index))
  {
    if batch != [] {
      MergeKeeps(base, s, batch[..|batch| - 1]);
      AddKeeps(base, AddAll(base, s, batch[..|batch| - 1]), batch[|batch| - 1]);
    }
  }

  /** The index has p, with the content it came with. */
  ghost predicate Has(index: Index, p: Package) {
    var e := Existing(Versions(index, p.name), p.entry);
    e.Some? && SameContent(e.value, p.entry)
  }

  lemma {:induction false} ExistingIsFirst(versions: seq<Entry>, more: seq<Entry>, e: Entry)
    ensures Existing(versions, e).Some? ==> Existing(versions + more, e) == Existing(versions, e)
    ensures Existing(versions, e).None? ==> Existing(versions + more, e) == Existing(more, e)
  {
    if versions == [] {
      assert versions + more == more;
    } else {
      assert (versions + more)[1..] == versions[1..] + more;
      ExistingIsFirst(versions[1..], more, e);
    }
  }

  lemma HasStays(index: Index, later: Index, p: Package)
    requires Has(index, p) && Extends(index, later)
    ensures Has(later, p)
  {
    var a, b := Versions(index, p.name), Versions(later, p.name);
    assert p.name in index;
    assert b == a + b[|a|..];
    ExistingIsFirst(a, b[|a|..], p.entry);
  }

  lemma AddedIsThere(base: string, s: Progress, p: Package)
    requires Add(base, s, p).conflicts == s.conflicts
    ensures Has(Add(base, s, p).index, p)
  {
    var versions := Versions(s.index, p.name);
    if Existing(versions, p.entry).None? {
      var e := Published(base, p);
      ExistingIsFirst(versions, [e], p.entry);
      assert Existing([e], p.entry) == Some(e);
    }
  }

  /** After a merge without conflicts the whole batch is in the index, every package with its content. */
  lemma {:induction false} BatchIsThere(base: string, s: Progress, batch: seq<Package>, i: nat)
    requires AddAll(base, s, batch).conflicts == s.conflicts && i < |batch|
    ensures Has(AddAll(base, s, batch).index, batch[i])
    decreases |batch|
  {
    var short, last := batch[..|batch| - 1], batch[|batch| - 1];
    var u := AddAll(base, s, short);
    MergeKeeps(base, s, short);
    AddKeeps(base, u, last);
    if i == |short| {
      AddedIsThere(base, u, last);
    } else {
      BatchIsThere(base, s, short, i);
      HasStays(u.index, Add(base, u, last).index, batch[i]);
    }
  }

  lemma {:induction false} NothingNew(base: string, s: Progress, batch: seq<Package>)
    requires forall i :: 0 <= i < |batch| ==> Has(s.index, batch[i])
    ensures AddAll(base, s, batch) == s
  {
    if batch != [] {
      NothingNew(base, s, batch[..|batch| - 1]);
      assert Has(s.index, batch[|batch| - 1]);
    }
  }

  /** Merging the same batch again adds nothing and changes nothing. */
  lemma MergeTwice(base: string, index: Index, files: Files, batch: seq<Package>)
    requires AddAll(base, Begin(index, files), batch).conflicts == 0
    ensures var s := AddAll(base, Begin(index, files), batch);
            AddAll(base, Begin(s.index, s.files), batch) == Begin(s.index, s.files)
  {
    var s := AddAll(base, Begin(index, files), batch);
    forall i | 0 <= i < |batch| ensures Has(s.index, batch[i]) {
      BatchIsThere(base, Begin(index, files), batch, i);
    }
    NothingNew(base, Begin(s.index, s.files), batch);
  }

  /** The index has another content under the key of p. */
  ghost predicate Clashes(index: Index, p: Package) {
    var e := Existing(Versions(index, p.name), p.entry);
    e.Some? && !SameContent(e.value, p.entry)
  }

  lemma ClashStays(index: Index, later: Index, p: Package)
    requires Clashes(index, p) && Extends(index, later)
    ensures Clashes(later, p)
  {
    var a, b := Versions(index, p.name), Versions(later, p.name);
    assert p.name in index;
    assert b == a + b[|a|..];
    ExistingIsFirst(a, b[|a|..], p.entry);
  }

  lemma {:induction false} ConflictClashes(base: string, s: Progress, batch: seq<Package>) returns (i: nat)
    requires AddAll(base, s, batch).conflicts > s.conflicts
    ensures i < |batch| && Clashes(AddAll(base, s, batch).index, batch[i])
    decreases |batch|
  {
    var short, last := batch[..|batch| - 1], batch[|batch| - 1];
    var u := AddAll(base, s, short);
    if u.conflicts > s.conflicts {
      i := ConflictClashes(base, s, short);
      AddKeeps(base, u, last);
      ClashStays(u.index, AddAll(base, s, batch).index, batch[i]);
    } else {
      MergeKeeps(base, s, short);
      i := |batch| - 1;
    }
  }

  /** A merge is free of conflicts exactly when afterwards the index has every package of the batch with its content. */
  lemma NoConflictIffAllThere(base: string, s: Progress, batch: seq<Package>)
    ensures var t := AddAll(base, s, batch);
            t.conflicts == s.conflicts <==> forall i :: 0 <= i < |batch| ==> Has(t.index, batch[i])
  {
    var t := AddAll(base, s, batch);
    MergeKeeps(base, s, batch);
    if t.conflicts == s.conflicts {
      forall i | 0 <= i < |batch| ensures Has(t.index, batch[i]) {
        BatchIsThere(base, s, batch, i);
      }
    } else {
      var i := ConflictClashes(base, s, batch);
      assert !Has(t.index, batch[i]);
    }
  }

  /** A published package with other content makes every merge that contains it a conflict. */
  lemma OtherContentIsRefused(base: string, s: Progress, batch: seq<Package>, i: nat)
    requires i < |batch| && Clashes(s.index, batch[i])
    ensures AddAll(base, s, batch).conflicts > s.conflicts
  {
    MergeKeeps(base, s, batch);
    ClashStays(s.index, AddAll(base, s, batch).index, batch[i]);
    NoConflictIffAllThere(base, s, batch);
  }

  /**
   Under one key, another checksum is a conflict unless both packages carry one content digest;
   the same checksum never is.
   */
  lemma ConflictsExactly(base: string, s: Progress, p: Package, e: Entry)
    requires p.name in s.index && s.index[p.name] == [e]
    requires e.version == p.entry.version && e.platform == p.entry.platform
    ensures var t := Add(base, s, p);
            && t.index == s.index && t.added == s.added && t.files == s.files
            && (e.sha256 == p.entry.sha256 ==> t.conflicts == s.conflicts)
            && (e.sha256 != p.entry.sha256 && e.digest == "" ==> t.conflicts == s.conflicts + 1)
            && (e.sha256 != p.entry.sha256 && e.digest != p.entry.digest ==> t.conflicts == s.conflicts + 1)
            && (e.digest != "" && e.digest == p.entry.digest ==> t.conflicts == s.conflicts)
  {
  }

  /** A package under a new key is added with everything it came with, and its archive copied. */
  lemma AddsAsItCame(base: string, s: Progress, p: Package)
    requires forall i :: 0 <= i < |Versions(s.index, p.name)| ==>
               Versions(s.index, p.name)[i].version != p.entry.version ||
               Versions(s.index, p.name)[i].platform != p.entry.platform
    ensures var t := Add(base, s, p);
            var file := ArchiveName(p.name, p.entry.version, p.entry.platform);
            && t.conflicts == s.conflicts && t.added == s.added + [file] && file in t.files
            && t.files[file] == p.archiveSha256
            && t.index == s.index[p.name := Versions(s.index, p.name) + [p.entry.(url := base + file)]]
  {
  }

  // ---------------------------------------------------------------- the archives

  /** The archive of every entry is in the directory, with the content of the entry. */
  ghost predicate Backed(index: Index, files: Files) {
    forall name, i :: name in index && 0 <= i < |index[name]| ==> HasArchive(files, name, index[name][i])
  }

  predicate HasArchive(files: Files, name: string, e: Entry) {
    var file := ArchiveName(name, e.version, e.platform);
    file in files && files[file] == e.sha256
  }

  /** Entries whose archives have one name have one content. */
  ghost predicate Coherent(index: Index) {
    forall name, i, other, j ::
      name in index && 0 <= i < |index[name]| && other in index && 0 <= j < |index[other]| ==>
        Agree(name, index[name][i], other, index[other][j])
  }

  predicate Agree(name: string, e: Entry, other: string, f: Entry) {
    ArchiveName(name, e.version, e.platform) == ArchiveName(other, f.version, f.platform) ==> e.sha256 == f.sha256
  }

  lemma BackedIsCoherent(index: Index, files: Files)
    requires Backed(index, files)
    ensures Coherent(index)
  {
    forall name, i, other, j | name in index && 0 <= i < |index[name]| && other in index && 0 <= j < |index[other]|
      ensures Agree(name, index[name][i], other, index[other][j])
    {
      assert HasArchive(files, name, index[name][i]) && HasArchive(files, other, index[other][j]);
    }
  }

  lemma CoherentBefore(index: Index, later: Index)
    requires Coherent(later) && Extends(index, later)
    ensures Coherent(index)
  {
    forall name, i, other, j | name in index && 0 <= i < |index[name]| && other in index && 0 <= j < |index[other]|
      ensures Agree(name, index[name][i], other, index[other][j])
    {
      assert later[name][i] == index[name][i] && later[other][j] == index[other][j];
    }
  }

  lemma AddKeepsBacked(base: string, s: Progress, p: Package)
    requires Backed(s.index, s.files) && Verified(p) && Coherent(Add(base, s, p).index)
    ensures Backed(Add(base, s, p).index, Add(base, s, p).files)
  {
    var t := Add(base, s, p);
    if Existing(Versions(s.index, p.name), p.entry).None? {
      var last := |t.index[p.name]| - 1;
      var added := t.index[p.name][last];
      assert added == Published(base, p) && added.sha256 == p.archiveSha256;
      forall name, i | name in t.index && 0 <= i < |t.index[name]| ensures HasArchive(t.files, name, t.index[name][i]) {
        var e := t.index[name][i];
        assert Agree(name, e, p.name, added);
        if name != p.name || i != last {
          assert name in s.index && i < |s.index[name]| && s.index[name][i] == e;
          assert HasArchive(s.files, name, e);
        }
      }
    }
  }

  /**
   Every archive, published before or now, keeps the content its entry promises exactly when
   entries that share an archive name share their content.
   */
  lemma {:induction false} ArchivesKeptIffCoherent(base: string, s: Progress, batch: seq<Package>)
    requires Backed(s.index, s.files) && AllVerified(batch)
    ensures var t := AddAll(base, s, batch); Backed(t.index, t.files) <==> Coherent(t.index)
    decreases |batch|
  {
    var t := AddAll(base, s, batch);
    if Backed(t.index, t.files) {
      BackedIsCoherent(t.index, t.files);
    }
    if batch != [] && Coherent(t.index) {
      var short, last := batch[..|batch| - 1], batch[|batch| - 1];
      var u := AddAll(base, s, short);
      AddKeeps(base, u, last);
      CoherentBefore(u.index, t.index);
      ArchivesKeptIffCoherent(base, s, short);
      AddKeepsBacked(base, u, last);
    }
  }

  lemma {:induction false} DashedAppend(a: string, b: string)
    ensures Dashed(a + b) == Dashed(a) + Dashed(b)
  {
    if a == "" {
      assert a + b == b;
    } else {
      DashedAppend(a[1..], b);
      assert (a + b)[1..] == a[1..] + b;
    }
  }

  lemma {:induction false} DashedPlain(a: string)
    requires '/' !in a
    ensures Dashed(a) == a
  {
    if a != "" {
      DashedPlain(a[1..]);
      assert [a[0]] + a[1..] == a;
    }
  }

  lemma DashedPlatform(system: string, machine: string)
    requires '/' !in system && '/' !in machine
    ensures Dashed(system + "/" + machine) == system + "-" + machine
  {
    DashedAppend(system + "/", machine);
    DashedAppend(system, "/");
    DashedPlain(system);
    DashedPlain(machine);
    assert Dashed("/") == "-";
  }

  /** Different keys may have one archive name. */
  lemma NamesMayCoincide(a: string, b: string, v: string, system: string, machine: string)
    requires '/' !in system && '/' !in machine
    ensures ArchiveName(a + "-" + b, v, "") == ArchiveName(a, b + "-" + v, "")
    ensures ArchiveName(a, v + "-" + (system + "-" + machine), "") == ArchiveName(a, v, system + "/" + machine)
  {
    DashedPlatform(system, machine);
    assert (a + "-" + b) + "-" + v + "" + ".tar.gz" == a + "-" + (b + "-" + v) + "" + ".tar.gz";
    var p := system + "-" + machine;
    assert a + "-" + (v + "-" + p) + "" + ".tar.gz" == a + "-" + v + ("-" + p) + ".tar.gz";
  }

  /** Then a merge without a conflict leaves another content where a published archive was. */
  lemma ArchiveReplaced(base: string, a: string, b: string, e: Entry, p: Package)
    requires e.platform == "" && p.name == a && p.entry.version == b + "-" + e.version && p.entry.platform == ""
    requires Verified(p) && p.entry.sha256 != e.sha256
    ensures var index := map[a + "-" + b := [e]];
            var files := map[ArchiveName(a + "-" + b, e.version, "") := e.sha256];
            var t := AddAll(base, Begin(index, files), [p]);
            && Backed(index, files) && t.conflicts == 0 && Extends(index, t.index)
            && !HasArchive(t.files, a + "-" + b, e)
  {
    var name := a + "-" + b;
    var index, files := map[name := [e]], map[ArchiveName(name, e.version, "") := e.sha256];
    assert |name| > |a|;
    assert [p][..0] == [];
    assert Versions(index, a) == [];
    NamesMayCoincide(a, b, e.version, "", "");
    assert ArchiveOf(p) == ArchiveName(name, e.version, "");
  }

  ghost predicate DashFree(index: Index) {
    forall name, i :: name in index && 0 <= i < |index[name]| ==>
      '-' !in name && '-' !in index[name][i].version && PlatformOk(index[name][i].platform)
  }

  lemma TwoPieces(a: string, b: string)
    requires '-' !in a && '-' !in b
    ensures Split(a + ['-'] + b, '-') == [a, b]
  {
    SplitFirst(a, '-', b);
    SplitFirst(b, '-', []);
  }

  lemma FourPieces(a: string, b: string, c: string, d: string)
    requires '-' !in a && '-' !in b && '-' !in c && '-' !in d
    ensures Split(a + ['-'] + (b + ['-'] + (c + ['-'] + d)), '-') == [a, b, c, d]
  {
    SplitFirst(a, '-', b + ['-'] + (c + ['-'] + d));
    SplitFirst(b, '-', c + ['-'] + d);
    TwoPieces(c, d);
  }

  lemma WithPlatform(name: string, version: string, system: string, machine: string)
    requires '/' !in system && '/' !in machine
    ensures ArchiveName(name, version, system + "/" + machine)
         == name + ['-'] + (version + ['-'] + (system + ['-'] + (machine + ".tar.gz")))
  {
    DashedPlatform(system, machine);
    var end := ".tar.gz";
    assert name + "-" + version + ("-" + (system + "-" + machine)) + end
        == name + ['-'] + (version + ['-'] + (system + ['-'] + (machine + end)));
  }

  function Machine(platform: string): string {
    if platform == "linux/arm64" then "arm64" else "amd64"
  }

  /** The pieces of an archive name tell its key, if name and version have no dash. */
  lemma ArchivePieces(name: string, version: string, platform: string)
    requires '-' !in name && '-' !in version && PlatformOk(platform)
    ensures Split(ArchiveName(name, version, platform), '-') ==
              if platform == "" then [name, version + ".tar.gz"]
              else [name, version, "linux", Machine(platform) + ".tar.gz"]
  {
    if platform == "" {
      assert ArchiveName(name, version, platform) == name + ['-'] + (version + ".tar.gz");
      TwoPieces(name, version + ".tar.gz");
    } else {
      assert platform == "linux" + "/" + Machine(platform);
      WithPlatform(name, version, "linux", Machine(platform));
      FourPieces(name, version, "linux", Machine(platform) + ".tar.gz");
    }
  }

  lemma SameArchiveSameKey(name: string, e: Entry, other: string, f: Entry)
    requires '-' !in name && '-' !in e.version && PlatformOk(e.platform)
    requires '-' !in other && '-' !in f.version && PlatformOk(f.platform)
    requires ArchiveName(name, e.version, e.platform) == ArchiveName(other, f.version, f.platform)
    ensures name == other && SameKey(e, f)
  {
    ArchivePieces(name, e.version, e.platform);
    ArchivePieces(other, f.version, f.platform);
    var end := ".tar.gz";
    if e.platform == "" {
      assert e.version + end == f.version + end;
      assert (e.version + end)[..|e.version|] == (f.version + end)[..|f.version|];
    } else {
      assert "arm64" + end != "amd64" + end by { assert ("arm64" + end)[1] != ("amd64" + end)[1]; }
    }
  }

  /** Names and versions without a dash never share an archive, so a merge of such keeps every archive. */
  lemma DashFreeIsCoherent(index: Index)
    requires UniqueKeys(index) && DashFree(index)
    ensures Coherent(index)
  {
    forall name, i, other, j | name in index && 0 <= i < |index[name]| && other in index && 0 <= j < |index[other]|
      ensures Agree(name, index[name][i], other, index[other][j])
    {
      var e, f := index[name][i], index[other][j];
      if ArchiveName(name, e.version, e.platform) == ArchiveName(other, f.version, f.platform) {
        SameArchiveSameKey(name, e, other, f);
        assert i == j;
      }
    }
  }

  // ---------------------------------------------------------------- the upload

  /** Some entry's archive is called `file`. */
  ghost predicate IsArchive(index: Index, file: string) {
    exists name, i :: name in index && 0 <= i < |index[name]| && IsNamed(name, index[name][i], file)
  }

  predicate IsNamed(name: string, e: Entry, file: string) {
    ArchiveName(name, e.version, e.platform) == file
  }

  /** No two entries have one archive name. */
  ghost predicate NamesDistinct(index: Index) {
    forall name, i, other, j, file ::
      (&& name in index && 0 <= i < |index[name]| && other in index && 0 <= j < |index[other]|
       && IsNamed(name, index[name][i], file) && IsNamed(other, index[other][j], file)) ==>
        name == other && i == j
  }

  /** Uploads that never replace anything all succeed: each name is new to the release, and none comes twice. */
  ghost predicate Uploadable(published: Index, added: seq<string>) {
    && (forall k :: 0 <= k < |added| ==> !IsArchive(published, added[k]))
    && (forall k, l :: 0 <= k < l < |added| ==> added[k] != added[l])
  }

  lemma UploadableStep(published: Index, added: seq<string>, file: string)
    ensures Uploadable(published, added + [file]) <==>
            Uploadable(published, added) && !IsArchive(published, file) && file !in added
  {
    var more := added + [file];
    assert forall k :: 0 <= k < |added| ==> more[k] == added[k];
    assert more[|added|] == file;
  }

  lemma NewEntry(base: string, s: Progress, p: Package, file: string)
    requires Existing(Versions(s.index, p.name), p.entry).None?
    ensures IsArchive(Add(base, s, p).index, file) <==> IsArchive(s.index, file) || file == ArchiveOf(p)
  {
    var t := Add(base, s, p);
    var last := |t.index[p.name]| - 1;
    assert t.index[p.name][last] == Published(base, p) && IsNamed(p.name, Published(base, p), ArchiveOf(p));
    if IsArchive(s.index, file) {
      var name, i :| name in s.index && 0 <= i < |s.index[name]| && IsNamed(name, s.index[name][i], file);
      assert t.index[name][i] == s.index[name][i];
    }
    if IsArchive(t.index, file) {
      var name, i :| name in t.index && 0 <= i < |t.index[name]| && IsNamed(name, t.index[name][i], file);
      if name != p.name || i != last {
        assert name in s.index && s.index[name][i] == t.index[name][i];
      }
    }
  }

  lemma NamesDistinctStep(base: string, s: Progress, p: Package)
    requires Existing(Versions(s.index, p.name), p.entry).None?
    ensures NamesDistinct(Add(base, s, p).index) <==> NamesDistinct(s.index) && !IsArchive(s.index, ArchiveOf(p))
  {
    var t := Add(base, s, p);
    var last := |t.index[p.name]| - 1;
    assert t.index[p.name][last] == Published(base, p);
    if NamesDistinct(t.index) {
      NewIsNew(base, s, p);
      OldStaysDistinct(s.index, t.index);
    }
    if NamesDistinct(s.index) && !IsArchive(s.index, ArchiveOf(p)) {
      forall name, i, other, j, file |
        name in t.index && 0 <= i < |t.index[name]| && other in t.index && 0 <= j < |t.index[other]| &&
        IsNamed(name, t.index[name][i], file) && IsNamed(other, t.index[other][j], file)
        ensures name == other && i == j
      {
        if name != p.name || i != last {
          assert name in s.index && s.index[name][i] == t.index[name][i];
        }
        if other != p.name || j != last {
          assert other in s.index && s.index[other][j] == t.index[other][j];
        }
      }
    }
  }

  lemma NewIsNew(base: string, s: Progress, p: Package)
    requires Existing(Versions(s.index, p.name), p.entry).None? && NamesDistinct(Add(base, s, p).index)
    ensures !IsArchive(s.index, ArchiveOf(p))
  {
    var t, file := Add(base, s, p), ArchiveOf(p);
    var last := |t.index[p.name]| - 1;
    assert IsNamed(p.name, t.index[p.name][last], file);
    forall name, i | name in s.index && 0 <= i < |s.index[name]| ensures !IsNamed(name, s.index[name][i], file) {
      assert t.index[name][i] == s.index[name][i] && (name != p.name || i < last);
    }
  }

  lemma OldStaysDistinct(index: Index, later: Index)
    requires NamesDistinct(later) && Extends(index, later)
    ensures NamesDistinct(index)
  {
    forall name, i, other, j, file |
      name in index && 0 <= i < |index[name]| && other in index && 0 <= j < |index[other]| &&
      IsNamed(name, index[name][i], file) && IsNamed(other, index[other][j], file)
      ensures name == other && i == j
    {
      assert later[name][i] == index[name][i] && later[other][j] == index[other][j];
    }
  }

  /** After a batch the archives are those published and those added. */
  lemma {:induction false} ArchivesAfter(base: string, index: Index, files: Files, batch: seq<Package>, file: string)
    ensures var t := AddAll(base, Begin(index, files), batch);
            IsArchive(t.index, file) <==> IsArchive(index, file) || file in t.added
    decreases |batch|
  {
    if batch != [] {
      var u, last := AddAll(base, Begin(index, files), batch[..|batch| - 1]), batch[|batch| - 1];
      ArchivesAfter(base, index, files, batch[..|batch| - 1], file);
      if Existing(Versions(u.index, last.name), last.entry).None? {
        NewEntry(base, u, last, file);
      }
    }
  }

  /**
   Into a release whose archives have distinct names, everything a merge adds can be uploaded
   without replacing anything exactly when the archive names of the new index are distinct.
   */
  lemma {:induction false} UploadableIffDistinct(base: string, index: Index, files: Files, batch: seq<Package>)
    requires NamesDistinct(index)
    ensures var t := AddAll(base, Begin(index, files), batch);
            Uploadable(index, t.added) <==> NamesDistinct(t.index)
    decreases |batch|
  {
    if batch != [] {
      var u, last := AddAll(base, Begin(index, files), batch[..|batch| - 1]), batch[|batch| - 1];
      UploadableIffDistinct(base, index, files, batch[..|batch| - 1]);
      if Existing(Versions(u.index, last.name), last.entry).None? {
        ArchivesAfter(base, index, files, batch[..|batch| - 1], ArchiveOf(last));
        UploadableStep(index, u.added, ArchiveOf(last));
        NamesDistinctStep(base, u, last);
      }
    }
  }

  lemma DashFreeIsDistinct(index: Index)
    requires UniqueKeys(index) && DashFree(index)
    ensures NamesDistinct(index)
  {
    forall name, i, other, j, file |
      name in index && 0 <= i < |index[name]| && other in index && 0 <= j < |index[other]| &&
      IsNamed(name, index[name][i], file) && IsNamed(other, index[other][j], file)
      ensures name == other && i == j
    {
      SameArchiveSameKey(name, index[name][i], other, index[other][j]);
    }
  }
}
