/**
 Packaging an executable with the native libraries it needs: a worklist that copies each
 library once and rewrites every reference to it.
 */
module Packaging {
  import opened Text
  import Paths

  /** A file of the package: the executable, or a library under its file name. */
  datatype Binary = Executable | Library(name: string)

  /** Which dependencies belong to the system, which to the native build, and the last component of a path. */
  datatype Rules = Rules(isSystem: string -> bool, isNative: string -> bool, fileName: string -> string)

  const NATIVE_LIB := "/opt/jerboa-hvf-native/lib"

  function MacRules(): Rules {
    Rules(d => "/usr/lib/" <= d || "/System/Library/" <= d, d => NATIVE_LIB + "/" <= d, Paths.FileName)
  }

  /** What was built: the dependencies of the executable, and of every installed library. */
  datatype Build = Build(executable: seq<string>, installed: map<string, seq<string>>, rules: Rules) {
    predicate IsSystem(d: string) { rules.isSystem(d) }
    predicate IsNative(d: string) { rules.isNative(d) }
    predicate IsShipped(d: string) { IsNative(d) && !IsSystem(d) }
    function FileName(d: string): string { rules.fileName(d) }
  }

  lemma NativeIsNotSystem(d: string)
    requires MacRules().isNative(d)
    ensures !MacRules().isSystem(d)
  {
    assert d[1] == (NATIVE_LIB + "/")[1] == 'o';
  }

  /** Libraries under the system directories are left alone; those of the native build are shipped. */
  lemma MacRulesExactly(d: string)
    ensures MacRules().isSystem(d) <==>
            (exists r :: d == "/usr/lib/" + r) || (exists r :: d == "/System/Library/" + r)
    ensures MacRules().isNative(d) <==> exists r :: d == "/opt/jerboa-hvf-native/lib/" + r
  {
    var a, b, c := "/usr/lib/", "/System/Library/", "/opt/jerboa-hvf-native/lib/";
    assert NATIVE_LIB + "/" == c;
    PrefixIs(a, d);
    PrefixIs(b, d);
    PrefixIs(c, d);
  }

  lemma PrefixIs(prefix: string, d: string)
    ensures prefix <= d <==> exists r :: d == prefix + r
  {
    if prefix <= d {
      assert d == prefix + d[|prefix|..];
    }
  }

  // ---------------------------------------------------------------- what is to be packaged

  /** d is a dependency of the executable, of one of its dependencies, and so on n times. */
  ghost predicate ReachableIn(b: Build, d: string, n: nat)
    decreases n
  {
    && b.IsShipped(d)
    && if n == 0 then d in b.executable
       else exists e :: e in b.installed && d in b.installed[e] && ReachableIn(b, e, n - 1)
  }

  ghost predicate Reachable(b: Build, d: string) {
    exists n: nat :: ReachableIn(b, d, n)
  }

  /** No two reachable libraries have the same file name. */
  ghost predicate DistinctNames(b: Build) {
    forall d, e :: Reachable(b, d) && Reachable(b, e) && b.FileName(d) == b.FileName(e) ==> d == e
  }

  lemma ReachableFromExecutable(b: Build, d: string)
    requires d in b.executable && b.IsShipped(d)
    ensures Reachable(b, d)
  {
    assert ReachableIn(b, d, 0);
  }

  lemma ReachableFromLibrary(b: Build, e: string, d: string)
    requires Reachable(b, e) && e in b.installed && d in b.installed[e] && b.IsShipped(d)
    ensures Reachable(b, d)
  {
    var n: nat :| ReachableIn(b, e, n);
    assert ReachableIn(b, d, n + 1);
  }

  // ---------------------------------------------------------------- the package

  type Copies = map<string, string>               // file name under lib/ -> installed library
  type Renames = map<(Binary, string), Reference> // reference in a binary -> what it became

  /** A relocatable reference: @loader_path/../lib/name or @loader_path/name. */
  datatype Reference = InLibDirectory(name: string) | InSameDirectory(name: string)

  datatype Package = Package(binaries: seq<Binary>, copied: Copies, renamed: Renames)

  function Dependencies(b: Build, copied: Copies, x: Binary): seq<string> {
    match x
    case Executable => b.executable
    case Library(name) => if name in copied && copied[name] in b.installed then b.installed[copied[name]] else []
  }

  function Replacement(x: Binary, name: string): Reference {
    if x.Executable? then InLibDirectory(name) else InSameDirectory(name)
  }

  /** Every copy is one of a reachable library under its own file name. */
  ghost predicate CopiesOk(b: Build, copied: Copies) {
    forall name :: name in copied ==>
      copied[name] in b.installed && b.FileName(copied[name]) == name && Reachable(b, copied[name])
  }

  /** A reference of x to d has been dealt with. */
  ghost predicate Resolved(b: Build, copied: Copies, renamed: Renames, x: Binary, d: string) {
    || b.IsSystem(d)
    || (&& b.IsNative(d) && b.FileName(d) in copied
        && (x, d) in renamed && renamed[(x, d)] == Replacement(x, b.FileName(d)))
  }

  ghost predicate AllResolved(b: Build, copied: Copies, renamed: Renames, x: Binary) {
    forall d {:trigger Resolved(b, copied, renamed, x, d)} ::
      d in Dependencies(b, copied, x) ==> Resolved(b, copied, renamed, x, d)
  }

  predicate InPackage(copied: Copies, x: Binary) {
    x.Executable? || x.name in copied
  }

  /** The binaries in `done` are finished, those in `open` are not, and there are no others in the package. */
  ghost predicate InProgress(b: Build, done: set<Binary>, open: set<Binary>, copied: Copies, renamed: Renames) {
    && done !! open
    && (forall x :: x in done || x in open <==> InPackage(copied, x))
    && CopiesOk(b, copied)
    && forall x :: x in done ==> AllResolved(b, copied, renamed, x)
  }

  datatype Result = Packaged(package: Package) | UnexpectedDependency(x: Binary, d: string) | Missing(d: string)

  /** d is a dependency of the executable or of a reachable library. */
  ghost predicate Needed(b: Build, d: string) {
    d in b.executable || exists e :: Reachable(b, e) && e in b.installed && d in b.installed[e]
  }

  /** An error names a needed dependency that is neither a system nor a native one, or was never installed. */
  ghost predicate Justified(b: Build, r: Result) {
    match r
    case Packaged(_) => false
    case UnexpectedDependency(_, d) => Needed(b, d) && !b.IsSystem(d) && !b.IsNative(d)
    case Missing(d) => Reachable(b, d) && d !in b.installed
  }

  /** Everything needed is a system library or an installed native one. */
  ghost predicate AllAvailable(b: Build) {
    forall d :: Needed(b, d) ==> b.IsSystem(d) || (b.IsNative(d) && d in b.installed)
  }

  lemma JustifiedIsUnavailable(b: Build, r: Result)
    requires Justified(b, r)
    ensures !AllAvailable(b)
  {
    if r.Missing? {
      var n: nat :| ReachableIn(b, r.d, n);
      assert Needed(b, r.d) by {
        if n > 0 {
          var e :| e in b.installed && r.d in b.installed[e] && ReachableIn(b, e, n - 1);
          assert Reachable(b, e);
        }
      }
    }
  }

  ghost function Names(b: Build): set<string> {
    set d | d in b.installed :: b.FileName(d)
  }

  /** How many more libraries could be copied. */
  ghost function Uncopied(b: Build, copied: Copies): nat {
    |Names(b) - copied.Keys|
  }

  lemma CopyKeepsProgress(b: Build, done: set<Binary>, open: set<Binary>, copied: Copies, renamed: Renames, d: string)
    requires InProgress(b, done, open, copied, renamed)
    requires Reachable(b, d) && d in b.installed && b.FileName(d) !in copied
    ensures InProgress(b, done, open + {Library(b.FileName(d))}, copied[b.FileName(d) := d], renamed)
    ensures Library(b.FileName(d)) !in done + open
  {
    var name := b.FileName(d);
    var copied' := copied[name := d];
    assert !InPackage(copied, Library(name));
    forall x | x in done ensures AllResolved(b, copied', renamed, x) {
      assert InPackage(copied, x);
      CopyKeepsResolved(b, copied, renamed, x, d);
    }
  }

  lemma CopyKeepsResolved(b: Build, copied: Copies, renamed: Renames, x: Binary, d: string)
    requires AllResolved(b, copied, renamed, x) && b.FileName(d) !in copied && InPackage(copied, x)
    ensures AllResolved(b, copied[b.FileName(d) := d], renamed, x)
  {
    var copied' := copied[b.FileName(d) := d];
    assert Dependencies(b, copied', x) == Dependencies(b, copied, x);
    forall e | e in Dependencies(b, copied', x) ensures Resolved(b, copied', renamed, x, e) {
      assert Resolved(b, copied, renamed, x, e);
    }
  }

  lemma CopyShrinks(b: Build, copied: Copies, d: string)
    requires d in b.installed && b.FileName(d) !in copied
    ensures Uncopied(b, copied[b.FileName(d) := d]) < Uncopied(b, copied)
  {
    var name := b.FileName(d);
    assert Names(b) - copied[name := d].Keys == (Names(b) - copied.Keys) - {name};
    assert name in Names(b);
  }

  lemma RenameKeepsProgress(b: Build, done: set<Binary>, open: set<Binary>, copied: Copies, renamed: Renames,
                            x: Binary, d: string, to: Reference)
    requires InProgress(b, done, open, copied, renamed) && x in open
    ensures InProgress(b, done, open, copied, renamed[(x, d) := to])
  {
    var renamed' := renamed[(x, d) := to];
    forall y | y in done ensures AllResolved(b, copied, renamed', y) {
      assert AllResolved(b, copied, renamed, y) && x != y;
      forall e | e in Dependencies(b, copied, y) ensures Resolved(b, copied, renamed', y, e) {
        assert Resolved(b, copied, renamed, y, e);
      }
    }
  }

  lemma DependencyIsReachable(b: Build, copied: Copies, x: Binary, d: string)
    requires CopiesOk(b, copied) && d in Dependencies(b, copied, x) && b.IsShipped(d)
    ensures Reachable(b, d)
  {
    if x.Executable? {
      ReachableFromExecutable(b, d);
    } else {
      ReachableFromLibrary(b, copied[x.name], d);
    }
  }

  lemma DependencyIsNeeded(b: Build, copied: Copies, x: Binary, d: string)
    requires CopiesOk(b, copied) && d in Dependencies(b, copied, x)
    ensures Needed(b, d)
  {
    if x.Library? {
      assert Reachable(b, copied[x.name]);
    }
  }

  ghost function Elements(xs: seq<Binary>): set<Binary> {
    set x | x in xs
  }

  ghost predicate NoRepeats(xs: seq<Binary>) {
    |Elements(xs)| == |xs|
  }

  lemma AddElement(xs: seq<Binary>, x: Binary)
    requires x !in xs
    ensures Elements(xs + [x]) == Elements(xs) + {x}
    ensures NoRepeats(xs) ==> NoRepeats(xs + [x])
  {
  }

  lemma DropLast(xs: seq<Binary>)
    requires xs != [] && NoRepeats(xs)
    ensures var x, ys := xs[|xs| - 1], xs[..|xs| - 1]; x !in ys && NoRepeats(ys) && Elements(ys) == Elements(xs) - {x}
  {
    var x, ys := xs[|xs| - 1], xs[..|xs| - 1];
    assert xs == ys + [x];
    assert Elements(xs) == Elements(ys) + {x};
    ElementsBound(ys);
  }

  lemma {:induction false} ElementsBound(xs: seq<Binary>)
    ensures |Elements(xs)| <= |xs|
  {
    if xs == [] {
      assert Elements(xs) == {};
    } else {
      ElementsBound(xs[..|xs| - 1]);
      assert xs == xs[..|xs| - 1] + [xs[|xs| - 1]];
      assert Elements(xs) == Elements(xs[..|xs| - 1]) + {xs[|xs| - 1]};
    }
  }

  /** A stack of binaries that are yet to be looked at. */
  ghost predicate Pending(b: Build, done: set<Binary>, x: Binary, pending: seq<Binary>, copied: Copies,
                          renamed: Renames)
  {
    NoRepeats(pending) && x !in pending && InProgress(b, done, {x} + Elements(pending), copied, renamed)
  }

  /** Copies never change, and each one brings the end closer. */
  ghost predicate Grows(b: Build, copied: Copies, pending: seq<Binary>, copied': Copies, pending': seq<Binary>) {
    && (forall name :: name in copied ==> name in copied' && copied'[name] == copied[name])
    && ((pending' == pending && copied' == copied) || Uncopied(b, copied') < Uncopied(b, copied))
  }

  /** Copies the library d stands for, unless a file of that name is there already. */
  method CopyLibrary(b: Build, ghost done: set<Binary>, ghost x: Binary, d: string, pending: seq<Binary>,
                     copied: Copies, ghost renamed: Renames)
    returns (ok: bool, pending': seq<Binary>, copied': Copies)
    requires Pending(b, done, x, pending, copied, renamed) && Reachable(b, d)
    ensures ok ==> Pending(b, done, x, pending', copied', renamed) && Grows(b, copied, pending, copied', pending')
    ensures ok ==> b.FileName(d) in copied'
    ensures !ok ==> d !in b.installed
  {
    var name := b.FileName(d);
    if name in copied { return true, pending, copied; }
    if d !in b.installed { return false, pending, copied; }
    CopyKeepsPending(b, done, x, d, pending, copied, renamed);
    CopyShrinks(b, copied, d);
    ok, pending', copied' := true, pending + [Library(name)], copied[name := d];
  }

  lemma CopyKeepsPending(b: Build, done: set<Binary>, x: Binary, d: string, pending: seq<Binary>, copied: Copies,
                         renamed: Renames)
    requires Pending(b, done, x, pending, copied, renamed) && Reachable(b, d) && d in b.installed &&
             b.FileName(d) !in copied
    ensures Pending(b, done, x, pending + [Library(b.FileName(d))], copied[b.FileName(d) := d], renamed)
  {
    var y := Library(b.FileName(d));
    CopyKeepsProgress(b, done, {x} + Elements(pending), copied, renamed, d);
    assert y !in Elements(pending);
    AddElement(pending, y);
    assert {x} + Elements(pending) + {y} == {x} + Elements(pending + [y]);
  }

  ghost predicate ResolvedUpTo(b: Build, copied: Copies, renamed: Renames, x: Binary, deps: seq<string>, i: nat)
    requires i <= |deps|
  {
    forall k :: 0 <= k < i ==> Resolved(b, copied, renamed, x, deps[k])
  }

  lemma ResolvedStep(b: Build, copied: Copies, renamed: Renames, copied': Copies, x: Binary, deps: seq<string>, i: nat)
    requires i < |deps| && ResolvedUpTo(b, copied, renamed, x, deps, i)
    requires forall name :: name in copied ==> name in copied'
    requires b.IsNative(deps[i]) && b.FileName(deps[i]) in copied'
    ensures ResolvedUpTo(b, copied', renamed[(x, deps[i]) := Replacement(x, b.FileName(deps[i]))], x, deps, i + 1)
  {
    var renamed' := renamed[(x, deps[i]) := Replacement(x, b.FileName(deps[i]))];
    forall k | 0 <= k < i + 1 ensures Resolved(b, copied', renamed', x, deps[k]) {
      assert k < i ==> Resolved(b, copied, renamed, x, deps[k]);
    }
  }

  /** Deals with one dependency of x: copies its library and renames the reference. */
  method RelinkOne(b: Build, ghost done: set<Binary>, x: Binary, deps: seq<string>, i: nat, pending: seq<Binary>,
                   copied: Copies, renamed: Renames)
    returns (error: Option<Result>, pending': seq<Binary>, copied': Copies, renamed': Renames)
    requires Pending(b, done, x, pending, copied, renamed) && deps == Dependencies(b, copied, x)
    requires i < |deps| && ResolvedUpTo(b, copied, renamed, x, deps, i)
    ensures error.Some? ==> Justified(b, error.value)
    ensures error.None? ==> Pending(b, done, x, pending', copied', renamed')
    ensures error.None? ==> Grows(b, copied, pending, copied', pending')
    ensures error.None? ==> ResolvedUpTo(b, copied', renamed', x, deps, i + 1)
  {
    error, pending', copied', renamed' := None, pending, copied, renamed;
    var d := deps[i];
    if b.IsSystem(d) { return; }
    DependencyIsNeeded(b, copied, x, d);
    if !b.IsNative(d) { return Some(UnexpectedDependency(x, d)), pending, copied, renamed; }
    DependencyIsReachable(b, copied, x, d);
    var ok;
    ok, pending', copied' := CopyLibrary(b, done, x, d, pending, copied, renamed);
    if !ok { return Some(Missing(d)), pending, copied, renamed; }
    ResolvedStep(b, copied, renamed, copied', x, deps, i);
    RenameKeepsProgress(b, done, {x} + Elements(pending'), copied', renamed, x, d, Replacement(x, b.FileName(d)));
    renamed' := renamed[(x, d) := Replacement(x, b.FileName(d))];
  }

  /** Goes through the dependencies of x. */
  method Relink(b: Build, ghost done: set<Binary>, x: Binary, pending: seq<Binary>, copied: Copies, renamed: Renames)
    returns (error: Option<Result>, pending': seq<Binary>, copied': Copies, renamed': Renames)
    requires Pending(b, done, x, pending, copied, renamed)
    ensures error.Some? ==> Justified(b, error.value)
    ensures error.None? ==> Pending(b, done, x, pending', copied', renamed') && AllResolved(b, copied', renamed', x)
    ensures error.None? ==> Grows(b, copied, pending, copied', pending')
  {
    error, pending', copied', renamed' := None, pending, copied, renamed;
    var deps := Dependencies(b, copied, x);
    for i := 0 to |deps|
      invariant Pending(b, done, x, pending', copied', renamed') && Grows(b, copied, pending, copied', pending')
      invariant ResolvedUpTo(b, copied', renamed', x, deps, i) && deps == Dependencies(b, copied', x)
    {
      ghost var p, c, n := pending', copied', renamed';
      error, pending', copied', renamed' := RelinkOne(b, done, x, deps, i, pending', copied', renamed');
      if error.Some? { return; }
      GrowsTwice(b, copied, pending, c, p, copied', pending');
      SameDependencies(b, done, x, p, c, n, copied');
    }
    error := None;
    forall d | d in deps ensures Resolved(b, copied', renamed', x, d) {
      var k :| 0 <= k < |deps| && deps[k] == d;
    }
  }

  lemma GrowsTwice(b: Build, c0: Copies, p0: seq<Binary>, c1: Copies, p1: seq<Binary>, c2: Copies, p2: seq<Binary>)
    requires Grows(b, c0, p0, c1, p1) && Grows(b, c1, p1, c2, p2)
    ensures Grows(b, c0, p0, c2, p2)
  {
  }

  lemma SameDependencies(b: Build, done: set<Binary>, x: Binary, pending: seq<Binary>, copied: Copies,
                         renamed: Renames, copied': Copies)
    requires Pending(b, done, x, pending, copied, renamed)
    requires forall name :: name in copied ==> name in copied' && copied'[name] == copied[name]
    ensures Dependencies(b, copied', x) == Dependencies(b, copied, x)
  {
    assert InPackage(copied, x);
  }

  /** The package is finished: every binary is in it once, and every reference in it is resolved. */
  ghost predicate Complete(b: Build, p: Package) {
    NoRepeats(p.binaries) && InProgress(b, Elements(p.binaries), {}, p.copied, p.renamed)
  }

  lemma FinishBinary(b: Build, binaries: seq<Binary>, x: Binary, pending: seq<Binary>, copied: Copies, renamed: Renames)
    requires Pending(b, Elements(binaries), x, pending, copied, renamed) && AllResolved(b, copied, renamed, x) &&
             NoRepeats(binaries)
    ensures InProgress(b, Elements(binaries + [x]), Elements(pending), copied, renamed) && NoRepeats(binaries + [x])
  {
    assert x !in Elements(binaries);
    AddElement(binaries, x);
  }

  ghost predicate Worklist(b: Build, binaries: seq<Binary>, pending: seq<Binary>, copied: Copies, renamed: Renames) {
    NoRepeats(binaries) && NoRepeats(pending) && InProgress(b, Elements(binaries), Elements(pending), copied, renamed)
  }

  lemma TakeLast(b: Build, binaries: seq<Binary>, pending: seq<Binary>, copied: Copies, renamed: Renames)
    requires Worklist(b, binaries, pending, copied, renamed) && pending != []
    ensures Pending(b, Elements(binaries), pending[|pending| - 1], pending[..|pending| - 1], copied, renamed)
  {
    DropLast(pending);
    assert {pending[|pending| - 1]} + Elements(pending[..|pending| - 1]) == Elements(pending);
  }

  /** Takes the last binary off the worklist. */
  method NextBinary(b: Build, binaries: seq<Binary>, pending: seq<Binary>, copied: Copies, renamed: Renames)
    returns (error: Option<Result>, binaries': seq<Binary>, pending': seq<Binary>, copied': Copies, renamed': Renames)
    requires Worklist(b, binaries, pending, copied, renamed) && pending != []
    ensures error.Some? ==> Justified(b, error.value)
    ensures error.None? ==> Worklist(b, binaries', pending', copied', renamed')
    ensures binaries' == binaries + [pending[|pending| - 1]]
    ensures error.None? ==> Uncopied(b, copied') < Uncopied(b, copied) || (copied' == copied && |pending'| < |pending|)
  {
    var x := pending[|pending| - 1];
    TakeLast(b, binaries, pending, copied, renamed);
    binaries' := binaries + [x];
    error, pending', copied', renamed' := Relink(b, Elements(binaries), x, pending[..|pending| - 1], copied, renamed);
    if error.None? {
      FinishBinary(b, binaries, x, pending', copied', renamed');
    }
  }

  lemma StartOfWorklist(b: Build)
    ensures Worklist(b, [], [Executable], map[], map[])
  {
    assert Elements([Executable]) == {Executable} && Elements([]) == {};
  }

  /** The worklist ends on every dependency graph, cycles included, with a complete package or an error. */
  method PackageExecutable(b: Build) returns (r: Result)
    ensures if r.Packaged? then Complete(b, r.package) else Justified(b, r)
    ensures !r.Packaged? ==> !AllAvailable(b)
  {
    var pending, binaries := [Executable], [];
    var copied: Copies, renamed: Renames := map[], map[];
    StartOfWorklist(b);
    while pending != []
      invariant Worklist(b, binaries, pending, copied, renamed)
      decreases Uncopied(b, copied), |pending|
    {
      var error;
      error, binaries, pending, copied, renamed := NextBinary(b, binaries, pending, copied, renamed);
      if error.Some? {
        JustifiedIsUnavailable(b, error.value);
        return error.value;
      }
    }
    assert Elements(pending) == {};
    r := Packaged(Package(binaries, copied, renamed));
  }

  // ---------------------------------------------------------------- what a complete package contains

  /** Every reference leads to a copy of the library it meant. */
  ghost predicate RightLibraries(b: Build, p: Package) {
    forall x, d ::
      x in p.binaries && d in Dependencies(b, p.copied, x) && b.IsShipped(d) && b.FileName(d) in p.copied ==>
        p.copied[b.FileName(d)] == d
  }

  lemma ShippedIsCopied(b: Build, p: Package, x: Binary, d: string)
    requires Complete(b, p) && InPackage(p.copied, x) && d in Dependencies(b, p.copied, x) && b.IsShipped(d)
    ensures x in p.binaries && b.FileName(d) in p.copied
  {
    assert x in Elements(p.binaries);
    assert AllResolved(b, p.copied, p.renamed, x);
    assert Resolved(b, p.copied, p.renamed, x, d);
  }

  lemma {:induction false} ReachableIsCopied(b: Build, p: Package, d: string, n: nat)
    requires Complete(b, p) && RightLibraries(b, p) && ReachableIn(b, d, n)
    ensures b.FileName(d) in p.copied && p.copied[b.FileName(d)] == d
    decreases n
  {
    if n == 0 {
      ShippedIsCopied(b, p, Executable, d);
    } else {
      var e :| e in b.installed && d in b.installed[e] && ReachableIn(b, e, n - 1);
      ReachableIsCopied(b, p, e, n - 1);
      ShippedIsCopied(b, p, Library(b.FileName(e)), d);
    }
  }

  /**
   Of a complete package: every reference leads to the library it meant exactly when no two
   reachable libraries share a file name; and then the package holds exactly the reachable ones.
   */
  lemma PackageIsClosure(b: Build, p: Package)
    requires Complete(b, p)
    ensures RightLibraries(b, p) <==> DistinctNames(b)
    ensures DistinctNames(b) ==>
              forall d :: Reachable(b, d) <==> b.FileName(d) in p.copied && p.copied[b.FileName(d)] == d
  {
    if DistinctNames(b) {
      forall x, d | x in p.binaries && d in Dependencies(b, p.copied, x) && b.IsShipped(d) && b.FileName(d) in p.copied
        ensures p.copied[b.FileName(d)] == d
      {
        DependencyIsReachable(b, p.copied, x, d);
        assert Reachable(b, p.copied[b.FileName(d)]);
      }
    }
    if RightLibraries(b, p) {
      forall d | Reachable(b, d) ensures b.FileName(d) in p.copied && p.copied[b.FileName(d)] == d {
        var n: nat :| ReachableIn(b, d, n);
        ReachableIsCopied(b, p, d, n);
      }
    }
  }

  lemma NeededIsResolved(b: Build, p: Package, d: string)
    requires Complete(b, p) && RightLibraries(b, p) && Needed(b, d)
    ensures exists x :: x in p.binaries && Resolved(b, p.copied, p.renamed, x, d)
  {
    var x := Executable;
    if d !in b.executable {
      var e :| Reachable(b, e) && e in b.installed && d in b.installed[e];
      var n: nat :| ReachableIn(b, e, n);
      ReachableIsCopied(b, p, e, n);
      x := Library(b.FileName(e));
    }
    assert InPackage(p.copied, x) && d in Dependencies(b, p.copied, x);
    assert x in Elements(p.binaries);
    assert AllResolved(b, p.copied, p.renamed, x);
    assert Resolved(b, p.copied, p.renamed, x, d);
  }

  /**
   A complete package whose file names are distinct leaves nothing that is needed out, so there was no error to raise.
   */
  lemma PackageNeedsNothingElse(b: Build, p: Package)
    requires Complete(b, p) && DistinctNames(b)
    ensures AllAvailable(b)
  {
    PackageIsClosure(b, p);
    forall d | Needed(b, d) ensures b.IsSystem(d) || (b.IsNative(d) && d in b.installed) {
      NeededIsResolved(b, p, d);
      if b.IsShipped(d) {
        NeededIsReachable(b, d);
        assert p.copied[b.FileName(d)] in b.installed;
      }
    }
  }

  lemma NeededIsReachable(b: Build, d: string)
    requires Needed(b, d) && b.IsShipped(d)
    ensures Reachable(b, d)
  {
    if d in b.executable {
      ReachableFromExecutable(b, d);
    } else {
      var e :| Reachable(b, e) && e in b.installed && d in b.installed[e];
      ReachableFromLibrary(b, e, d);
    }
  }

  // ---------------------------------------------------------------- the layout of the native build

  /** d is NATIVE_LIB, a slash and a file name. */
  ghost predicate DirectlyUnder(d: string) {
    exists name :: Paths.IsFileName(name) && d == NATIVE_LIB + "/" + name
  }

  lemma DirectlyUnderIsName(d: string)
    requires DirectlyUnder(d)
    ensures d == NATIVE_LIB + "/" + Paths.FileName(d)
  {
    var name :| Paths.IsFileName(name) && d == NATIVE_LIB + "/" + name;
    Paths.FileNameAfterSlash(NATIVE_LIB, name);
  }

  /**
   When every reachable library lies directly in the native library directory, the package is exactly their closure.
   */
  lemma FlatLayoutIsClosed(b: Build, p: Package)
    requires b.rules == MacRules() && forall d :: Reachable(b, d) ==> DirectlyUnder(d)
    requires Complete(b, p)
    ensures DistinctNames(b) && RightLibraries(b, p)
    ensures forall d :: Reachable(b, d) <==> b.FileName(d) in p.copied && p.copied[b.FileName(d)] == d
  {
    forall d, e | Reachable(b, d) && Reachable(b, e) && b.FileName(d) == b.FileName(e) ensures d == e {
      DirectlyUnderIsName(d);
      DirectlyUnderIsName(e);
    }
    PackageIsClosure(b, p);
  }

  function Nested(directory: string, name: string): string {
    NATIVE_LIB + "/" + directory + "/" + name
  }

  /** An executable that needs two libraries of one file name, in two directories. */
  function TwinBuild(first: string, second: string, name: string): Build {
    var a, b := Nested(first, name), Nested(second, name);
    Build([a, b], map[a := [], b := []], MacRules())
  }

  function TwinPackage(first: string, second: string, name: string): Package {
    var a, b := Nested(first, name), Nested(second, name);
    Package([Executable, Library(name)], map[name := a],
            map[(Executable, a) := InLibDirectory(name), (Executable, b) := InLibDirectory(name)])
  }

  lemma NestedIs(directory: string, name: string)
    requires Paths.IsFileName(name)
    ensures MacRules().isNative(Nested(directory, name)) && !MacRules().isSystem(Nested(directory, name))
    ensures MacRules().fileName(Nested(directory, name)) == name
  {
    var d := Nested(directory, name);
    assert d == NATIVE_LIB + "/" + (directory + "/" + name);
    assert NATIVE_LIB + "/" <= d;
    NativeIsNotSystem(d);
    Paths.FileNameAfterSlash(NATIVE_LIB + "/" + directory, name);
  }

  lemma NestedDiffers(first: string, second: string, name: string)
    requires first != second
    ensures Nested(first, name) != Nested(second, name)
  {
    var a, b := Nested(first, name), Nested(second, name);
    var k := |NATIVE_LIB| + 1;
    assert a[k..|a| - |name| - 1] == first && b[k..|b| - |name| - 1] == second;
  }

  /** Their package is complete, and the second reference leads to the first library. */
  lemma TwinsShareOneCopy(first: string, second: string, name: string)
    requires first != second && Paths.IsFileName(name)
    ensures var b, p := TwinBuild(first, second, name), TwinPackage(first, second, name);
            && Complete(b, p) && AllAvailable(b)
            && !DistinctNames(b) && !RightLibraries(b, p)
  {
    var b, p := TwinBuild(first, second, name), TwinPackage(first, second, name);
    var d, e := Nested(first, name), Nested(second, name);
    NestedIs(first, name);
    NestedIs(second, name);
    NestedDiffers(first, second, name);
    ReachableFromExecutable(b, d);
    TwinsAreComplete(b, p, d, e, name);
    TwinsAreConfused(b, p, d, e);
  }

  lemma TwinsAreConfused(b: Build, p: Package, d: string, e: string)
    requires d != e && b.executable == [d, e] && b.installed == map[d := [], e := []]
    requires b.IsShipped(d) && b.IsShipped(e) && b.FileName(d) == b.FileName(e) && Complete(b, p)
    ensures AllAvailable(b) && !DistinctNames(b) && !RightLibraries(b, p)
  {
    ReachableFromExecutable(b, d);
    ReachableFromExecutable(b, e);
    PackageIsClosure(b, p);
  }

  lemma TwinsAreComplete(b: Build, p: Package, d: string, e: string, name: string)
    requires d != e && b.executable == [d, e] && b.installed == map[d := [], e := []]
    requires b.IsShipped(d) && b.IsShipped(e) && b.FileName(d) == b.FileName(e) == name && Reachable(b, d)
    requires p == Package([Executable, Library(name)], map[name := d],
                          map[(Executable, d) := InLibDirectory(name), (Executable, e) := InLibDirectory(name)])
    ensures Complete(b, p)
  {
    assert Elements(p.binaries) == {Executable, Library(name)};
    forall x | x in Elements(p.binaries) ensures AllResolved(b, p.copied, p.renamed, x) {
      if x == Executable {
        forall c | c in b.executable ensures Resolved(b, p.copied, p.renamed, x, c) {
          assert c == d || c == e;
        }
      }
    }
    forall x ensures x in Elements(p.binaries) <==> InPackage(p.copied, x) {
      assert x in Elements(p.binaries) <==> x == Executable || x == Library(name);
    }
  }

  // ---------------------------------------------------------------- where references lead

  /** The directory of the package that a binary is in. */
  function DirectoryOf(x: Binary): seq<string> {
    if x == Executable then ["bin"] else ["lib"]
  }

  /** Where the loader looks for a reference in x: "@loader_path" is the directory of x. */
  function Leads(x: Binary, r: Reference): seq<string> {
    match r
    case InLibDirectory(name) => DirectoryOf(x)[..|DirectoryOf(x)| - 1] + ["lib", name]
    case InSameDirectory(name) => DirectoryOf(x) + [name]
  }

  /** In a finished package every reference to a shipped library leads to the copy under its file name. */
  lemma ReferencesLeadToCopies(b: Build, p: Package, x: Binary, d: string)
    requires Complete(b, p) && x in p.binaries && d in Dependencies(b, p.copied, x) && b.IsShipped(d)
    ensures (x, d) in p.renamed && Leads(x, p.renamed[(x, d)]) == ["lib", b.FileName(d)] && b.FileName(d) in p.copied
  {
    assert x in Elements(p.binaries);
    assert AllResolved(b, p.copied, p.renamed, x);
    assert Resolved(b, p.copied, p.renamed, x, d);
  }
}
