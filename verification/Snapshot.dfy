/**
 Validation and extraction of a source snapshot archive: which archives are accepted, and
 what the write loop leaves on disk.
 */
module Snapshot {
  import opened Text
  import opened Paths
  import opened Links

  datatype Kind =
    | Regular(content: string, executable: bool)
    | Directory
    | Symlink(target: PurePath, blank: bool)    // blank: the target is the empty text
    | Special

  /** An archive member, its name and link target already read as paths. */
  datatype Member = Member(name: PurePath, kind: Kind)

  // ---------------------------------------------------------------- what is accepted

  /** Lexical normalization: ".." cancels the name before it, without looking at links. */
  function Normalize(ps: seq<string>): seq<string> {
    if ps == [] then []
    else
      var done, part := Normalize(ps[..|ps| - 1]), ps[|ps| - 1];
      if part != ".." || done == [] || done[|done| - 1] == ".." then done + [part]
      else done[..|done| - 1]
  }

  predicate LexicallyEscapes(ps: seq<string>) {
    var n := Normalize(ps);
    n != [] && n[0] == ".."
  }

  /** How far below its start a path leads, a ".." being one up. */
  ghost function Depth(ps: seq<string>): int {
    if ps == [] then 0 else Depth(ps[..|ps| - 1]) + if ps[|ps| - 1] == ".." then -1 else 1
  }

  /** Some beginning of the path leads above its start. */
  ghost predicate GoesAbove(ps: seq<string>) {
    exists k :: 0 <= k <= |ps| && Depth(ps[..k]) < 0
  }

  /** The leading ".."s of a normalized path, before its names. */
  ghost predicate IsNormal(n: seq<string>, ups: nat) {
    ups <= |n| && (forall k :: 0 <= k < ups ==> n[k] == "..") && (forall k :: ups <= k < |n| ==> n[k] != "..")
  }

  lemma {:induction false} NormalizeShape(ps: seq<string>) returns (ups: nat)
    ensures IsNormal(Normalize(ps), ups)
    ensures Depth(ps) == |Normalize(ps)| - 2 * ups
    ensures ups > 0 <==> GoesAbove(ps)
  {
    if ps == [] {
      ups := 0;
      assert !GoesAbove(ps);
    } else {
      var short, part := ps[..|ps| - 1], ps[|ps| - 1];
      var before := NormalizeShape(short);
      var done := Normalize(short);
      ups := if part == ".." && |done| == before then before + 1 else before;
      GoesAboveStep(ps);
    }
  }

  lemma GoesAboveStep(ps: seq<string>)
    requires ps != []
    ensures GoesAbove(ps) <==> GoesAbove(ps[..|ps| - 1]) || Depth(ps) < 0
  {
    var short := ps[..|ps| - 1];
    assert ps[..|ps|] == ps;
    if GoesAbove(ps) {
      var k :| 0 <= k <= |ps| && Depth(ps[..k]) < 0;
      assert k < |ps| ==> short[..k] == ps[..k];
    }
    if GoesAbove(short) {
      var k :| 0 <= k <= |short| && Depth(short[..k]) < 0;
      assert short[..k] == ps[..k];
    }
  }

  /** The lexical check finds exactly the targets that go above the root on their way. */
  lemma LexicalCheckIsExact(ps: seq<string>)
    ensures LexicallyEscapes(ps) <==> GoesAbove(ps)
  {
    var ups := NormalizeShape(ps);
  }

  type Entries = map<Path, Kind>

  function PathOf(m: Member): Path {
    m.name.parts
  }

  function Parent(p: Path): Path
    requires p != []
  {
    p[..|p| - 1]
  }

  predicate NameOk(m: Member) {
    !m.name.absolute && ".." !in PathOf(m) && PathOf(m) != []
  }

  predicate RootOk(m: Member) {
    PathOf(m) != [] && (PathOf(m)[0] == "jerboa" || PathOf(m)[0] == "firecracker-macos")
  }

  predicate TargetOk(m: Member) {
    m.kind.Symlink? && PathOf(m) != [] ==>
      !m.kind.target.absolute && !LexicallyEscapes(Parent(PathOf(m)) + m.kind.target.parts)
  }

  predicate MemberOk(m: Member) {
    NameOk(m) && RootOk(m) && !m.kind.Special? && TargetOk(m)
  }

  /** What a member must be like on its own. */
  lemma MemberOkExactly(m: Member)
    ensures MemberOk(m) <==>
            && !m.name.absolute && m.name.parts != [] &&
              (forall k :: 0 <= k < |m.name.parts| ==> m.name.parts[k] != "..")
            && (m.name.parts[0] == "jerboa" || m.name.parts[0] == "firecracker-macos")
            && match m.kind
               case Regular(_, _) => true
               case Directory => true
               case Symlink(target, _) =>
                 !target.absolute && !GoesAbove(m.name.parts[..|m.name.parts| - 1] + target.parts)
               case Special => false
  {
    if m.name.parts != [] && m.kind.Symlink? {
      LexicalCheckIsExact(Parent(PathOf(m)) + m.kind.target.parts);
    }
  }

  ghost predicate AllOk(ms: seq<Member>) {
    forall i :: 0 <= i < |ms| ==> MemberOk(ms[i])
  }

  ghost predicate Distinct(ms: seq<Member>) {
    forall i, j :: 0 <= i < j < |ms| ==> PathOf(ms[i]) != PathOf(ms[j])
  }

  ghost function EntriesOf(ms: seq<Member>): Entries {
    if ms == [] then map[]
    else var m := ms[|ms| - 1]; EntriesOf(ms[..|ms| - 1])[PathOf(m) := m.kind]
  }

  function LinkGraph(e: Entries): Graph {
    map p | p in e && e[p].Symlink? :: e[p].target.parts
  }

  /** Every member above p is a directory, and p, if a link, leads somewhere inside the root. */
  ghost predicate EntryOk(e: Entries, p: Path)
    requires p in e
  {
    && AboveOk(e, p)
    && (e[p].Symlink? ==> Resolvable(LinkGraph(e), p))
  }

  ghost predicate AboveOk(e: Entries, p: Path) {
    forall k :: 0 < k < |p| && p[..k] in e ==> e[p[..k]].Directory?
  }

  ghost predicate Acceptable(ms: seq<Member>) {
    && AllOk(ms)
    && Distinct(ms)
    && (forall p :: p in EntriesOf(ms) ==> EntryOk(EntriesOf(ms), p))
  }

  lemma {:induction false} EntriesSound(ms: seq<Member>, p: Path) returns (i: nat)
    requires p in EntriesOf(ms)
    ensures i < |ms| && PathOf(ms[i]) == p && ms[i].kind == EntriesOf(ms)[p]
  {
    var last := ms[|ms| - 1];
    if PathOf(last) == p {
      i := |ms| - 1;
    } else {
      i := EntriesSound(ms[..|ms| - 1], p);
    }
  }

  lemma {:induction false} EntriesComplete(ms: seq<Member>, i: nat)
    requires Distinct(ms) && i < |ms|
    ensures PathOf(ms[i]) in EntriesOf(ms) && EntriesOf(ms)[PathOf(ms[i])] == ms[i].kind
  {
    if i < |ms| - 1 {
      EntriesComplete(ms[..|ms| - 1], i);
    }
  }

  datatype Verdict =
    | Accepted(entries: Entries)
    | UnsafeMember | UnexpectedRoot | UnsupportedType | DuplicateMember | UnsafeLink
    | UnsafeParent
    | UnsafeTarget(why: Resolution)

  /** A rejection gives a reason that holds. */
  ghost predicate Grounds(ms: seq<Member>, v: Verdict) {
    match v
    case Accepted(_) => true
    case UnsafeMember => exists i :: 0 <= i < |ms| && !NameOk(ms[i])
    case UnexpectedRoot => exists i :: 0 <= i < |ms| && !RootOk(ms[i])
    case UnsupportedType => exists i :: 0 <= i < |ms| && ms[i].kind.Special?
    case DuplicateMember => !Distinct(ms)
    case UnsafeLink => exists i :: 0 <= i < |ms| && !TargetOk(ms[i])
    case UnsafeParent => exists p :: p in EntriesOf(ms) && !AboveOk(EntriesOf(ms), p)
    case UnsafeTarget(why) =>
      !why.Resolved? &&
      exists p :: p in EntriesOf(ms) && EntriesOf(ms)[p].Symlink? && Sound(LinkGraph(EntriesOf(ms)), p, [], why)
  }

  /** First pass: every member on its own, and no two with the same path. */
  method CollectEntries(ms: seq<Member>) returns (v: Verdict)
    ensures v.Accepted? <==> AllOk(ms) && Distinct(ms)
    ensures v.Accepted? ==> v.entries == EntriesOf(ms)
    ensures Grounds(ms, v) && !v.UnsafeParent? && !v.UnsafeTarget?
  {
    var entries: Entries := map[];
    for i := 0 to |ms|
      invariant AllOk(ms[..i]) && Distinct(ms[..i])
      invariant entries == EntriesOf(ms[..i])
    {
      var m := ms[i];
      FirstPassStep(ms, i);
      if !NameOk(m) { return UnsafeMember; }
      if !RootOk(m) { return UnexpectedRoot; }
      if m.kind.Special? { return UnsupportedType; }
      if PathOf(m) in entries { return DuplicateMember; }
      entries := entries[PathOf(m) := m.kind];
      if !TargetOk(m) { return UnsafeLink; }
    }
    assert ms[..|ms|] == ms;
    v := Accepted(entries);
  }

  lemma FirstPassStep(ms: seq<Member>, i: nat)
    requires i < |ms| && AllOk(ms[..i]) && Distinct(ms[..i])
    ensures EntriesOf(ms[..i + 1]) == EntriesOf(ms[..i])[PathOf(ms[i]) := ms[i].kind]
    ensures AllOk(ms[..i + 1]) <==> MemberOk(ms[i])
    ensures AllOk(ms) ==> MemberOk(ms[i])
    ensures Distinct(ms[..i + 1]) <==> PathOf(ms[i]) !in EntriesOf(ms[..i])
    ensures Distinct(ms) ==> Distinct(ms[..i + 1])
  {
    var p := PathOf(ms[i]);
    assert ms[..i + 1][..i] == ms[..i];
    if p in EntriesOf(ms[..i]) {
      var j := EntriesSound(ms[..i], p);
      assert PathOf(ms[..i + 1][j]) == PathOf(ms[..i + 1][i]);
    } else {
      forall j | 0 <= j < i ensures PathOf(ms[j]) != p {
        EntriesComplete(ms[..i], j);
      }
    }
    assert forall j :: 0 <= j <= i ==> ms[..i + 1][j] == ms[j];
    assert AllOk(ms[..i + 1]) ==> MemberOk(ms[..i + 1][i]);
  }

  /** Second pass: the parents of every member, and the complete link graph. */
  method Validate(ms: seq<Member>) returns (v: Verdict)
    ensures v.Accepted? <==> Acceptable(ms)
    ensures v.Accepted? ==> v.entries == EntriesOf(ms)
    ensures Grounds(ms, v)
  {
    v := CollectEntries(ms);
    if !v.Accepted? { return; }
    var entries := v.entries;
    for i := 0 to |ms|
      invariant forall j :: 0 <= j < i ==> PathOf(ms[j]) in entries && EntryOk(entries, PathOf(ms[j]))
    {
      var p := PathOf(ms[i]);
      EntriesComplete(ms, i);
      assert MemberOk(ms[i]);
      for k := 1 to |p|
        invariant forall l :: 0 < l < k && p[..l] in entries ==> entries[p[..l]].Directory?
      {
        if p[..k] in entries && !entries[p[..k]].Directory? {
          assert !AboveOk(entries, p) && !EntryOk(entries, p);
          return UnsafeParent;
        }
      }
      if ms[i].kind.Symlink? {
        var r := ResolveLink(LinkGraph(entries), p, []);
        SoundDecides(LinkGraph(entries), p, r);
        if !r.Resolved? {
          assert !EntryOk(entries, p);
          return UnsafeTarget(r);
        }
      }
    }
    forall p | p in entries ensures EntryOk(entries, p) {
      var j := EntriesSound(ms, p);
    }
  }

  // ---------------------------------------------------------------- the write loop

  datatype Node =
    | DirNode
    | FileNode(content: string, executable: bool)
    | LinkNode(target: PurePath)

  /** What is below the target directory; a path is below a link only if a write went through it. */
  type Tree = map<Path, Node>

  /** Creates p and its parents; None if something that is not a directory is in the way. */
  function MakeDirs(t: Tree, p: Path): Option<Tree>
    decreases |p|
  {
    if p == [] then Some(t)
    else
      match MakeDirs(t, Parent(p))
      case None => None
      case Some(u) =>
        if p !in u then Some(u[p := DirNode])
        else if u[p].DirNode? then Some(u)
        else None
  }

  function NodeOf(k: Kind): Node {
    match k
    case Regular(content, executable) => FileNode(content, executable)
    case Symlink(target, _) => LinkNode(target)
    case _ => DirNode
  }

  /** Writes one member; None if its path exists, or its parents are not plain directories. */
  function WriteMember(t: Tree, p: Path, kind: Kind): Option<Tree>
    requires p != []
  {
    if kind.Directory? then MakeDirs(t, p)
    else
      match MakeDirs(t, Parent(p))
      case None => None
      case Some(u) => if p in u then None else Some(u[p := NodeOf(kind)])
  }

  ghost predicate IsPrefix(q: Path, p: Path) {
    0 < |q| <= |p| && q == p[..|q|]
  }

  /** q is a member, or a parent of one. */
  ghost predicate Implied(e: Entries, q: Path) {
    exists p :: p in e && IsPrefix(q, p)
  }

  /** The members and their implied parent directories, and nothing else. */
  ghost function Layout(e: Entries): (t: Tree)
    ensures forall q :: q in t <==> Implied(e, q)
    ensures forall q :: q in t ==> t[q] == if q in e then NodeOf(e[q]) else DirNode
  {
    var implied := set p, k | p in e && 0 < k <= |p| :: p[..k];
    assert forall q :: q in implied <==> Implied(e, q) by {
      forall q | Implied(e, q) ensures q in implied {
        var p :| p in e && IsPrefix(q, p);
        assert p[..|q|] == q;
      }
      forall q | q in implied ensures Implied(e, q) {
        var p, k :| p in e && 0 < k <= |p| && p[..k] == q;
        assert IsPrefix(q, p);
      }
    }
    map p | p in implied :: if p in e then NodeOf(e[p]) else DirNode
  }

  lemma PrefixSplit(p: Path)
    requires p != []
    ensures forall q :: IsPrefix(q, p) <==> IsPrefix(q, Parent(p)) || q == p
  {
    assert p[..|p|] == p;
    forall q | IsPrefix(q, p) ensures IsPrefix(q, Parent(p)) || q == p {
      assert |q| < |p| ==> Parent(p)[..|q|] == q;
    }
    forall q | IsPrefix(q, Parent(p)) ensures IsPrefix(q, p) {
      assert Parent(p)[..|q|] == p[..|q|];
    }
  }

  lemma {:induction false} MakeDirsAdds(t: Tree, p: Path)
    requires forall q :: IsPrefix(q, p) && q in t ==> t[q].DirNode?
    ensures MakeDirs(t, p).Some?
    ensures forall q :: q in MakeDirs(t, p).value <==> q in t || IsPrefix(q, p)
    ensures forall q :: q in MakeDirs(t, p).value ==> MakeDirs(t, p).value[q] == if q in t then t[q] else DirNode
    decreases |p|
  {
    if p != [] {
      PrefixSplit(p);
      MakeDirsAdds(t, Parent(p));
      assert IsPrefix(p, p);
    }
  }

  lemma ImpliedGrows(e: Entries, p: Path, kind: Kind)
    ensures forall q :: Implied(e[p := kind], q) <==> Implied(e, q) || IsPrefix(q, p)
  {
    var e' := e[p := kind];
    forall q | Implied(e, q) ensures Implied(e', q) {
      var r :| r in e && IsPrefix(q, r);
      assert r in e';
    }
    forall q | IsPrefix(q, p) ensures Implied(e', q) {
      assert p in e';
    }
    forall q | Implied(e', q) ensures Implied(e, q) || IsPrefix(q, p) {
      var r :| r in e' && IsPrefix(q, r);
      assert r == p || r in e;
    }
  }

  /** What one write leaves: the member, its parents, and everything that was there. */
  lemma WriteAdds(t: Tree, p: Path, kind: Kind)
    requires p != [] && !kind.Special?
    requires forall q :: IsPrefix(q, p) && q in t ==> t[q].DirNode?
    requires p in t ==> kind.Directory?
    ensures WriteMember(t, p, kind).Some?
    ensures var u := WriteMember(t, p, kind).value;
            && (forall q :: q in u <==> q in t || IsPrefix(q, p))
            && (forall q :: q in u ==> u[q] == if q == p then NodeOf(kind) else if q in t then t[q] else DirNode)
  {
    PrefixSplit(p);
    MakeDirsAdds(t, if kind.Directory? then p else Parent(p));
  }

  lemma LayoutOf(e: Entries, p: Path, kind: Kind, u: Tree)
    requires p != [] && p !in e
    requires forall q :: q in u <==> q in Layout(e) || IsPrefix(q, p)
    requires forall q :: q in u ==>
             u[q] == if q == p then NodeOf(kind) else if q in Layout(e) then Layout(e)[q] else DirNode
    ensures u == Layout(e[p := kind])
  {
    ImpliedGrows(e, p, kind);
    var t, t' := Layout(e), Layout(e[p := kind]);
    assert forall q :: q in u <==> q in t';
    forall q | q in u ensures u[q] == t'[q] {
      assert q in t <==> Implied(e, q);
    }
  }

  /** Writing a further member to a finished layout gives the layout with that member. */
  lemma WriteGrowsLayout(e: Entries, p: Path, kind: Kind)
    requires p != [] && p !in e && !kind.Special?
    requires forall q :: q in e && IsPrefix(q, p) ==> e[q].Directory?
    requires Implied(e, p) ==> kind.Directory?
    ensures WriteMember(Layout(e), p, kind) == Some(Layout(e[p := kind]))
  {
    WriteAdds(Layout(e), p, kind);
    LayoutOf(e, p, kind, WriteMember(Layout(e), p, kind).value);
  }

  /** LinkRefused: the file system does not make link k, and what was written before stays. */
  datatype Extraction = Extracted(tree: Tree) | Rejected(why: Verdict) | LinkRefused(tree: Tree, k: nat)

  predicate IsBlank(m: Member) {
    m.kind.Symlink? && m.kind.blank
  }

  /** `blankOk` says whether the file system makes a link whose target is empty. */
  method SafeExtract(ms: seq<Member>, blankOk: bool) returns (r: Extraction)
    ensures r.Rejected? <==> !Acceptable(ms)
    ensures r.Rejected? ==> !r.why.Accepted? && Grounds(ms, r.why)
    ensures r.Extracted? <==> Acceptable(ms) && (blankOk || forall i :: 0 <= i < |ms| ==> !IsBlank(ms[i]))
    ensures r.Extracted? ==> r.tree == Layout(EntriesOf(ms))
    ensures r.LinkRefused? ==> r.k < |ms| && IsBlank(ms[r.k]) && PathOf(ms[r.k]) != [] &&
                               MakeDirs(Layout(EntriesOf(ms[..r.k])), Parent(PathOf(ms[r.k]))) == Some(r.tree)
  {
    var v := Validate(ms);
    if !v.Accepted? { return Rejected(v); }
    var tree: Tree := map[];
    assert Layout(map[]) == map[];
    for i := 0 to |ms|
      invariant tree == Layout(EntriesOf(ms[..i]))
      invariant blankOk || forall k :: 0 <= k < i ==> !IsBlank(ms[k])
    {
      var m := ms[i];
      assert MemberOk(m);
      NextWriteFits(ms, i);
      if IsBlank(m) && !blankOk {
        return LinkRefused(MakeDirs(tree, Parent(PathOf(m))).value, i);
      }
      tree := WriteMember(tree, PathOf(m), m.kind).value;
    }
    assert ms[..|ms|] == ms;
    r := Extracted(tree);
  }

  /** In an acceptable archive no write meets an existing path or a parent that is not a directory. */
  lemma NextWriteFits(ms: seq<Member>, i: nat)
    requires Acceptable(ms) && i < |ms| && MemberOk(ms[i])
    ensures WriteMember(Layout(EntriesOf(ms[..i])), PathOf(ms[i]), ms[i].kind) == Some(Layout(EntriesOf(ms[..i + 1])))
  {
    var e, before, p, kind := EntriesOf(ms), EntriesOf(ms[..i]), PathOf(ms[i]), ms[i].kind;
    assert ms[..i + 1][..i] == ms[..i];
    EntriesComplete(ms, i);
    forall q | q in before
      ensures q in e && e[q] == before[q] && q != p
    {
      var j := EntriesSound(ms[..i], q);
      EntriesComplete(ms, j);
    }
    if Implied(before, p) {
      var q :| q in before && IsPrefix(p, q);
      assert EntryOk(e, q);
    }
    assert EntryOk(e, p);
    WriteGrowsLayout(before, p, kind);
  }

  // ---------------------------------------------------------------- what follows for the whole run

  /** The order of the members changes neither the verdict nor the tree. */
  lemma OrderDoesNotMatter(ms: seq<Member>, ns: seq<Member>)
    requires multiset(ms) == multiset(ns) && Acceptable(ms)
    ensures Acceptable(ns) && EntriesOf(ns) == EntriesOf(ms)
  {
    forall m ensures m in ms <==> m in ns {
      assert m in multiset(ms) <==> m in multiset(ns);
    }
    forall i | 0 <= i < |ns| ensures MemberOk(ns[i]) {
      assert ns[i] in ms;
    }
    forall i, j | 0 <= i < j < |ns| ensures PathOf(ns[i]) != PathOf(ns[j]) {
      assert ns[i] in ms && ns[j] in ms;
      if ns[i] == ns[j] {
        TwiceInSequence(ns, i, j);
        var k, l := TwoOccurrences(ms, ns[i]);
      }
    }
    var d, e := EntriesOf(ms), EntriesOf(ns);
    forall p ensures p in d <==> p in e
             ensures p in d ==> d[p] == e[p]
    {
      if p in d {
        var i := EntriesSound(ms, p);
        assert ms[i] in ns;
        var j :| 0 <= j < |ns| && ns[j] == ms[i];
        EntriesComplete(ns, j);
      }
      if p in e {
        var i := EntriesSound(ns, p);
        assert ns[i] in ms;
        var j :| 0 <= j < |ms| && ms[j] == ns[i];
        EntriesComplete(ms, j);
      }
    }
    assert d == e;
  }

  lemma TwiceInSequence<T>(s: seq<T>, i: nat, j: nat)
    requires i < j < |s| && s[i] == s[j]
    ensures multiset(s)[s[i]] >= 2
  {
    assert s == s[..j] + s[j..];
    assert s[..j][i] == s[i] && s[j..][0] == s[i];
  }

  lemma TwoOccurrences<T>(s: seq<T>, x: T) returns (i: nat, j: nat)
    requires multiset(s)[x] >= 2
    ensures i < j < |s| && s[i] == s[j] == x
  {
    i :| 0 <= i < |s| && s[i] == x;
    assert s == s[..i] + ([x] + s[i + 1..]);
    assert multiset(s) == multiset(s[..i]) + multiset{x} + multiset(s[i + 1..]);
    if x in s[..i] {
      j := i;
      i :| 0 <= i < j && s[..j][i] == x;
    } else {
      j :| 0 <= j < |s| - i - 1 && s[i + 1..][j] == x;
      j := i + 1 + j;
    }
  }

  function TreeLinks(t: Tree): Graph {
    map p | p in t && t[p].LinkNode? :: t[p].target.parts
  }

  lemma MemberIsImplied(e: Entries, q: Path)
    requires q in e && q != []
    ensures Implied(e, q)
  {
    assert IsPrefix(q, q);
  }

  /** The links on disk are the links that were validated. */
  lemma TreeLinksAreArchiveLinks(e: Entries)
    requires [] !in e
    ensures TreeLinks(Layout(e)) == LinkGraph(e)
  {
    var t, g := TreeLinks(Layout(e)), LinkGraph(e);
    forall q ensures q in t <==> q in g
             ensures q in t ==> t[q] == g[q]
    {
      if q in e {
        MemberIsImplied(e, q);
      }
    }
  }

  lemma NoEmptyPath(ms: seq<Member>)
    requires Acceptable(ms)
    ensures [] !in EntriesOf(ms)
  {
    if [] in EntriesOf(ms) {
      var i := EntriesSound(ms, []);
      assert false;
    }
  }

  lemma AboveIsDirectory(e: Entries, p: Path, q: Path)
    requires forall r :: r in e ==> AboveOk(e, r)
    requires p in Layout(e) && q in Layout(e) && IsPrefix(p, q) && p != q
    ensures Layout(e)[p].DirNode?
  {
    var r :| r in e && IsPrefix(q, r);
    assert p == r[..|p|];
    assert AboveOk(e, r);
  }

  /** On the extracted tree every link leads to a place inside it, and only directories contain anything. */
  lemma ExtractedTreeIsContained(ms: seq<Member>, t: Tree, p: Path)
    requires Acceptable(ms) && t == Layout(EntriesOf(ms)) && p in t
    ensures t[p].LinkNode? ==> Resolvable(TreeLinks(t), p)
    ensures forall q :: q in t && IsPrefix(p, q) && p != q ==> t[p].DirNode?
  {
    var e := EntriesOf(ms);
    forall r | r in e ensures AboveOk(e, r) {
      assert EntryOk(e, r);
    }
    forall q | q in t && IsPrefix(p, q) && p != q ensures t[p].DirNode? {
      AboveIsDirectory(e, p, q);
    }
    if t[p].LinkNode? {
      NoEmptyPath(ms);
      TreeLinksAreArchiveLinks(e);
      assert EntryOk(e, p);
    }
  }

  /** Every member is on disk as it was in the archive: a file's content and mode, a link's target, a directory. */
  lemma MembersAreExtracted(ms: seq<Member>, i: nat)
    requires Acceptable(ms) && i < |ms|
    ensures var t := Layout(EntriesOf(ms));
            && PathOf(ms[i]) in t
            && match ms[i].kind
               case Regular(content, executable) => t[PathOf(ms[i])] == FileNode(content, executable)
               case Directory => t[PathOf(ms[i])] == DirNode
               case Symlink(target, _) => t[PathOf(ms[i])] == LinkNode(target)
               case Special => false
  {
    EntriesComplete(ms, i);
    NoEmptyPath(ms);
    MemberIsImplied(EntriesOf(ms), PathOf(ms[i]));
    assert MemberOk(ms[i]);
  }

  /** And what is on disk without being a member is a directory above one. */
  lemma NothingElseIsExtracted(ms: seq<Member>, p: Path)
    requires Acceptable(ms) && p in Layout(EntriesOf(ms)) && forall i :: 0 <= i < |ms| ==> PathOf(ms[i]) != p
    ensures Layout(EntriesOf(ms))[p] == DirNode && exists i :: 0 <= i < |ms| && IsPrefix(p, PathOf(ms[i]))
  {
    var e := EntriesOf(ms);
    var q :| q in e && IsPrefix(p, q);
    var j := EntriesSound(ms, q);
    if p in e {
      var k := EntriesSound(ms, p);
    }
  }

  function TwoLinks(root: string, a: string, b: string): seq<Member> {
    [Member(PurePath(false, [root, a]), Symlink(PurePath(false, [".."]), false)),
     Member(PurePath(false, [root, b]), Symlink(PurePath(false, [a, ".."]), false))]
  }

  /** Each link on its own looks harmless to the lexical check; the second escapes through the first. */
  lemma LexicalCheckMisses(root: string, a: string, b: string)
    requires root == "jerboa" || root == "firecracker-macos"
    requires IsName(a) && IsName(b) && a != b
    ensures var ms := TwoLinks(root, a, b);
            AllOk(ms) && Distinct(ms) && !Acceptable(ms) && Escapes(LinkGraph(EntriesOf(ms)), Start([root, b]))
  {
    var ms := TwoLinks(root, a, b);
    var e := EntriesOf(ms);
    TwoLinksAreOk(root, a, b);
    TwoLinksEntries(root, a, b);
    assert LinkGraph(e) == map[[root, a] := [".."], [root, b] := [a, ".."]];
    TwoLinksEscape(root, a, b, LinkGraph(e));
    assert [root, b] in e && e[[root, b]].Symlink?;
    if EntryOk(e, [root, b]) {
      var p :| Arrives(LinkGraph(e), Start([root, b]), p, MAX_FRAMES);
      VerdictsExclude(LinkGraph(e), Start([root, b]), p, MAX_FRAMES);
    }
  }

  lemma NormalizeThrough(root: string, a: string)
    requires root != ".." && a != ".."
    ensures Normalize([root, ".."]) == [] && Normalize([root, a, ".."]) == [root]
  {
    assert [root][..0] == [] && [root, ".."][..1] == [root] && [root, a][..1] == [root] &&
      [root, a, ".."][..2] == [root, a];
    assert Normalize([root]) == [root];
    assert Normalize([root, a]) == [root, a];
    assert [root, a][..1] == [root];
  }

  lemma TwoLinksAreOk(root: string, a: string, b: string)
    requires root == "jerboa" || root == "firecracker-macos"
    requires IsName(a) && IsName(b) && a != b
    ensures AllOk(TwoLinks(root, a, b)) && Distinct(TwoLinks(root, a, b))
  {
    assert root != "..";
    NormalizeThrough(root, a);
    assert Parent([root, a]) == [root] == Parent([root, b]);
    assert [root] + [".."] == [root, ".."] && [root] + [a, ".."] == [root, a, ".."];
    assert [root, a][1] != [root, b][1];
  }

  lemma TwoLinksEntries(root: string, a: string, b: string)
    requires a != b
    ensures var ms := TwoLinks(root, a, b); EntriesOf(ms) == map[[root, a] := ms[0].kind, [root, b] := ms[1].kind]
  {
    var ms := TwoLinks(root, a, b);
    assert ms[..1] == [ms[0]] && ms[..1][..0] == [];
    assert EntriesOf(ms[..1]) == map[[root, a] := ms[0].kind];
  }

  /** One step of the walk, with the next part in front. */
  lemma NextPart(g: Graph, at: Path, part: string, rest: seq<string>, more: seq<seq<string>>)
    requires part == ".." ==> at != []
    ensures var w := Walk(at, [[part] + rest] + more);
            && CanStep(w)
            && (part == ".." ==> Next(g, w) == Walk(at[..|at| - 1], [rest] + more))
            && (IsName(part) && at + [part] !in g ==> Next(g, w) == Walk(at + [part], [rest] + more))
            && (IsName(part) && at + [part] in g ==> Next(g, w) == Walk(at, [g[at + [part]]] + ([rest] + more)))
  {
    var w := Walk(at, [[part] + rest] + more);
    assert w.todo[0] == [part] + rest && w.todo[0][1..] == rest && w.todo[1..] == more;
  }

  lemma TwoLinksEnter(root: string, a: string, b: string, g: Graph)
    requires IsName(root) && IsName(b) && [root] !in g && [root, b] in g && g[[root, b]] == [a, ".."]
    ensures var w0, w1 := Start([root, b]), Walk([root], [[b]]);
            && CanStep(w0) && Next(g, w0) == w1
            && CanStep(w1) && Next(g, w1) == Walk([root], [[a, ".."], []])
  {
    var none: seq<string> := [];
    assert [root] + [b] == [root, b] && [b] + none == [b] && [] + [root] == [root];
    NextPart(g, [], root, [b], []);
    assert [[root] + [b]] + [] == [[root, b]] && [[b]] + [] == [[b]];
    NextPart(g, [root], b, [], []);
    assert [[b] + none] + [] == [[b]];
  }

  lemma TwoLinksLeave(root: string, a: string, g: Graph)
    requires IsName(a) && [root, a] in g && g[[root, a]] == [".."]
    ensures var w2, w3 := Walk([root], [[a, ".."], []]), Walk([root], [[".."], [".."], []]);
            && CanStep(w2) && Next(g, w2) == w3
            && CanStep(w3) && Next(g, w3) == Walk([], [[], [".."], []])
  {
    var none: seq<string> := [];
    assert [a] + [".."] == [a, ".."] && [".."] + none == [".."] && [root] + [a] == [root, a] && [root][..0] == [];
    NextPart(g, [root], a, [".."], [[]]);
    assert [[a] + [".."]] + [[]] == [[a, ".."], []];
    NextPart(g, [root], "..", [], [[".."], []]);
    assert [[".."] + none] + [[".."], []] == [[".."], [".."], []];
  }

  lemma TwoLinksEscape(root: string, a: string, b: string, g: Graph)
    requires IsName(root) && IsName(a) && IsName(b) && a != b
    requires g == map[[root, a] := [".."], [root, b] := [a, ".."]]
    ensures Escapes(g, Start([root, b]))
  {
    assert [root, a][1] != [root, b][1] && g[[root, a]] == [".."];
    TwoLinksEnter(root, a, b, g);
    TwoLinksLeave(root, a, g);
    var w4, w5 := Walk([], [[], [".."], []]), Walk([], [[".."], []]);
    assert CanStep(w4) && Next(g, w4) == w5;
    FiveSteps(g, Start([root, b]), Walk([root], [[b]]), Walk([root], [[a, ".."], []]),
              Walk([root], [[".."], [".."], []]), w4, w5);
    assert Escaping(w5);
  }

  lemma FiveSteps(g: Graph, w0: Walk, w1: Walk, w2: Walk, w3: Walk, w4: Walk, w5: Walk)
    requires CanStep(w0) && Next(g, w0) == w1 && CanStep(w1) && Next(g, w1) == w2 && CanStep(w2) && Next(g, w2) == w3
    requires CanStep(w3) && Next(g, w3) == w4 && CanStep(w4) && Next(g, w4) == w5
    ensures Run(g, w0, 5) == Some(w5)
  {
    assert Run(g, w4, 1) == Some(w5);
    assert Run(g, w3, 2) == Some(w5);
    assert Run(g, w2, 3) == Some(w5);
    assert Run(g, w1, 4) == Some(w5);
  }
}
