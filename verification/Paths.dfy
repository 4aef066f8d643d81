/** Path texts and their components. */
module Paths {
  import opened Text

  datatype PurePath = PurePath(absolute: bool, parts: seq<string>)

  /** The components of a path text: empty and "." components disappear, ".." stays. */
  function Parts(s: string): seq<string> {
    KeepNames(Split(s, '/'))
  }

  function KeepName(p: string): seq<string> {
    if p == "" || p == "." then [] else [p]
  }

  function KeepNames(ps: seq<string>): seq<string> {
    if ps == [] then [] else KeepName(ps[0]) + KeepNames(ps[1..])
  }

  /** A path text as the extractor reads it. */
  function Pure(s: string): PurePath {
    PurePath(s != "" && s[0] == '/', Parts(s))
  }

  /** The text of a path determines its components, so a table keyed by the text is one keyed by the components. */
  lemma PartsOfJoin(ps: seq<string>)
    requires forall i :: 0 <= i < |ps| ==> ps[i] != "" && ps[i] != "." && '/' !in ps[i]
    ensures Pure(Join(ps, '/')) == PurePath(false, ps)
  {
    if ps == [] {
      assert Split<char>("", '/') == [""];
      assert KeepNames([""][1..]) == [];
    } else {
      SplitJoin(ps, '/');
      KeepNamesAll(ps);
    }
  }

  lemma {:induction false} KeepNamesAll(ps: seq<string>)
    requires forall i :: 0 <= i < |ps| ==> ps[i] != "" && ps[i] != "."
    ensures KeepNames(ps) == ps
  {
    if ps != [] {
      KeepNamesAll(ps[1..]);
      assert [ps[0]] + ps[1..] == ps;
    }
  }

  /** The last component of a path text, as pathlib names a file. */
  function FileName(s: string): string {
    var ps := Parts(s);
    if ps == [] then "" else ps[|ps| - 1]
  }

  predicate IsFileName(name: string) {
    name != "" && name != "." && '/' !in name
  }

  lemma Regroup(x: seq<string>, y: seq<string>, z: seq<string>)
    ensures (x + y) + z == x + (y + z)
  {
  }

  lemma {:induction false} KeepNamesAppend(a: seq<string>, b: seq<string>)
    ensures KeepNames(a + b) == KeepNames(a) + KeepNames(b)
  {
    if a == [] {
      assert a + b == b;
    } else {
      KeepNamesAppend(a[1..], b);
      assert (a + b)[1..] == a[1..] + b && (a + b)[0] == a[0];
      Regroup(KeepName(a[0]), KeepNames(a[1..]), KeepNames(b));
    }
  }

  /** What follows the last slash is the file name. */
  lemma FileNameAfterSlash(directory: string, name: string)
    requires IsFileName(name)
    ensures FileName(directory + "/" + name) == name
  {
    assert directory + "/" + name == directory + ['/'] + name;
    SplitMiddle(directory, '/', name);
    SplitFirst(name, '/', []);
    KeepNamesAppend(Split(directory, '/'), [name]);
    KeepNamesAll([name]);
  }
}
