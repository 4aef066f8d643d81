/**
 Symbolic-link resolution: the recursive resolver of the snapshot extractor, proved against
 the component-by-component walk of section 4.13 of POSIX.1-2017.
 */
module Links {
  import opened Text

  /** A location below the extraction root; the root itself is []. */
  type Path = seq<string>

  /** Every symbolic link of an archive, with the components of its target. */
  type Graph = map<Path, seq<string>>

  const MAX_NESTING := 40
  const MAX_FRAMES := 41

  // ---------------------------------------------------------------- the reference walk

  /**
   One moment of the walk: the directory reached so far, and what is still to be walked.
   todo[0] holds the remaining components of the innermost link being followed, and the
   last frame those of the original path, so |todo| - 1 links are being followed.
   */
  datatype Walk = Walk(at: Path, todo: seq<seq<string>>)

  ghost function Start(parts: seq<string>): Walk {
    Walk([], [parts])
  }

  ghost predicate Escaping(w: Walk) {
    w.todo != [] && w.todo[0] != [] && w.todo[0][0] == ".." && w.at == []
  }

  ghost predicate Finished(w: Walk) {
    w.todo == [] || w.todo == [[]]
  }

  ghost predicate CanStep(w: Walk) {
    !Escaping(w) && !Finished(w)
  }

  /** The component the walk looks at next names `link`. */
  ghost predicate Meeting(w: Walk, link: Path) {
    w.todo != [] && w.todo[0] != [] && IsName(w.todo[0][0]) && w.at + [w.todo[0][0]] == link
  }

  predicate IsName(part: string) {
    part != ".." && part != "."
  }

  ghost function Next(g: Graph, w: Walk): Walk
    requires CanStep(w)
  {
    if w.todo[0] == [] then Walk(w.at, w.todo[1..])
    else
      var part, rest := w.todo[0][0], [w.todo[0][1..]] + w.todo[1..];
      if part == ".." then Walk(w.at[..|w.at| - 1], rest)
      else if part == "." then Walk(w.at, rest)
      else if w.at + [part] in g then Walk(w.at, [g[w.at + [part]]] + rest)
      else Walk(w.at + [part], rest)
  }

  /** The walk after exactly n steps, or None if it stopped earlier. */
  ghost function Run(g: Graph, w: Walk, n: nat): Option<Walk>
    decreases n
  {
    if n == 0 then Some(w)
    else if CanStep(w) then Run(g, Next(g, w), n - 1)
    else None
  }

  ghost predicate ReachesAt(g: Graph, w: Walk, n: nat, v: Walk) {
    Run(g, w, n) == Some(v)
  }

  /** In its first n steps the walk never has more than `frames` frames open. */
  ghost predicate Within(g: Graph, w: Walk, n: nat, frames: nat) {
    forall k: nat :: k <= n && Run(g, w, k).Some? ==> |Run(g, w, k).value.todo| <= frames
  }

  ghost predicate ArrivesAt(g: Graph, w: Walk, n: nat, p: Path, frames: nat) {
    ReachesAt(g, w, n, Walk(p, [[]])) && Within(g, w, n, frames)
  }

  /** The walk ends at p, having followed fewer than `frames` links inside one another. */
  ghost predicate Arrives(g: Graph, w: Walk, p: Path, frames: nat) {
    exists n: nat :: ArrivesAt(g, w, n, p, frames)
  }

  /** The walk tries to leave the extraction root. */
  ghost predicate Escapes(g: Graph, w: Walk) {
    exists n: nat :: Run(g, w, n).Some? && Escaping(Run(g, w, n).value)
  }

  ghost predicate Meets(g: Graph, w: Walk, link: Path) {
    exists n: nat :: Run(g, w, n).Some? && Meeting(Run(g, w, n).value, link)
  }

  /** The walk never ends. */
  ghost predicate Diverges(g: Graph, w: Walk) {
    forall n: nat :: Run(g, w, n).Some?
  }

  /** The walk nests more than `frames` frames. */
  ghost predicate Deeper(g: Graph, w: Walk, frames: nat) {
    exists n: nat :: Run(g, w, n).Some? && |Run(g, w, n).value.todo| > frames
  }

  /** A path of plain names none of whose prefixes is a link. */
  ghost predicate Clean(g: Graph, p: Path) {
    forall k :: 0 <= k < |p| ==> IsName(p[k]) && p[..k + 1] !in g
  }

  // ---------------------------------------------------------------- facts about walks

  lemma {:induction false} RunAdd(g: Graph, w: Walk, n: nat, m: nat)
    requires Run(g, w, n).Some?
    ensures Run(g, w, n + m) == Run(g, Run(g, w, n).value, m)
    decreases n
  {
    if n != 0 {
      RunAdd(g, Next(g, w), n - 1, m);
    }
  }

  lemma {:induction false} RunPrefix(g: Graph, w: Walk, n: nat, m: nat)
    requires Run(g, w, m).Some? && n <= m
    ensures Run(g, w, n).Some?
    decreases n
  {
    if n != 0 {
      RunPrefix(g, Next(g, w), n - 1, m - 1);
    }
  }

  ghost function Framed(w: Walk, frames: seq<seq<string>>): Walk {
    Walk(w.at, w.todo + frames)
  }

  /** What is done inside a link does not depend on what follows the link. */
  lemma {:induction false} RunFrame(g: Graph, w: Walk, frames: seq<seq<string>>, n: nat)
    requires Run(g, w, n).Some?
    ensures Run(g, Framed(w, frames), n) == Some(Framed(Run(g, w, n).value, frames))
    decreases n
  {
    if n != 0 {
      assert w.todo == [w.todo[0]] + w.todo[1..];
      assert (w.todo + frames)[1..] == w.todo[1..] + frames;
      assert CanStep(Framed(w, frames));
      assert Next(g, Framed(w, frames)) == Framed(Next(g, w), frames) by {
        if w.todo[0] != [] {
          var rest := [w.todo[0][1..]] + w.todo[1..];
          assert rest + frames == [w.todo[0][1..]] + (w.todo[1..] + frames);
          var name := w.at + [w.todo[0][0]];
          if name in g {
            assert ([g[name]] + rest) + frames == [g[name]] + (rest + frames);
          }
        }
      }
      RunFrame(g, Next(g, w), frames, n - 1);
    }
  }

  /** A walk never has both a depth of d open frames at most and more than d, nor two outcomes. */
  lemma VerdictsExclude(g: Graph, w: Walk, p: Path, frames: nat)
    requires Arrives(g, w, p, frames)
    ensures !Escapes(g, w) && !Diverges(g, w) && !Deeper(g, w, frames)
    ensures forall q, d: nat :: Arrives(g, w, q, d) ==> q == p
  {
    var n: nat :| ArrivesAt(g, w, n, p, frames);
    forall m: nat | Run(g, w, m).Some?
      ensures m <= n
      ensures m < n ==> CanStep(Run(g, w, m).value)
    {
      if m > n {
        RunAdd(g, w, n, m - n);
      }
      if m < n {
        RunAdd(g, w, m, n - m);
      }
    }
    assert Run(g, w, n + 1).None?;
    forall q, d: nat | Arrives(g, w, q, d) ensures q == p {
      var m: nat :| ArrivesAt(g, w, m, q, d);
      assert Run(g, w, m).Some?;
    }
  }

  lemma CleanPop(g: Graph, p: Path)
    requires Clean(g, p) && p != []
    ensures Clean(g, p[..|p| - 1])
  {
    var q := p[..|p| - 1];
    forall k | 0 <= k < |q| ensures IsName(q[k]) && q[..k + 1] !in g {
      assert q[..k + 1] == p[..k + 1];
    }
  }

  lemma CleanPush(g: Graph, p: Path, part: string)
    requires Clean(g, p) && IsName(part) && p + [part] !in g
    ensures Clean(g, p + [part])
  {
    var q := p + [part];
    forall k | 0 <= k < |q| ensures IsName(q[k]) && q[..k + 1] !in g {
      assert q[..k + 1] == if k < |p| then p[..k + 1] else q;
    }
  }

  /** A clean path is walked straight through. */
  lemma {:induction false} CleanRun(g: Graph, p: Path, t: seq<string>, k: nat)
    requires Clean(g, p) && k <= |p|
    ensures Run(g, Start(p + t), k) == Some(Walk(p[..k], [p[k..] + t]))
  {
    if k == 0 {
      assert p[..0] == [] && p[0..] + t == p + t;
    } else {
      CleanRun(g, p, t, k - 1);
      var w := Walk(p[..k - 1], [p[k - 1..] + t]);
      RunAdd(g, Start(p + t), k - 1, 1);
      assert (p[k - 1..] + t)[0] == p[k - 1];
      assert (p[k - 1..] + t)[1..] == p[k..] + t;
      assert p[..k - 1] + [p[k - 1]] == p[..k];
      assert Next(g, w) == Walk(p[..k], [p[k..] + t]);
      assert Run(g, w, 1) == Run(g, Next(g, w), 0);
    }
  }

  /** Resolving a resolved path changes nothing. */
  lemma CleanResolvesToItself(g: Graph, p: Path)
    requires Clean(g, p)
    ensures Arrives(g, Start(p), p, 1)
  {
    assert p + [] == p;
    forall k: nat | k <= |p|
      ensures Run(g, Start(p), k) == Some(Walk(p[..k], [p[k..]]))
    {
      CleanRun(g, p, [], k);
      assert p[k..] + [] == p[k..];
    }
    assert p[..|p|] == p && p[|p|..] == [];
    assert ArrivesAt(g, Start(p), |p|, p, 1);
  }

  /** Everything a walk of p + t does beyond p, it does when started at p with t to go. */
  lemma SkipClean(g: Graph, p: Path, t: seq<string>, n: nat)
    requires Clean(g, p) && Run(g, Start(p + t), n).Some?
    ensures n >= |p| ==> Run(g, Start(p + t), n) == Run(g, Walk(p, [t]), n - |p|)
    ensures n < |p| ==> Run(g, Start(p + t), n) == Some(Walk(p[..n], [p[n..] + t]))
    ensures n < |p| ==> p[..n] + [p[n]] !in g && IsName(p[n])
  {
    if n >= |p| {
      CleanRun(g, p, t, |p|);
      assert p[..|p|] == p && p[|p|..] + t == t;
      RunAdd(g, Start(p + t), |p|, n - |p|);
    } else {
      CleanRun(g, p, t, n);
      assert p[..n] + [p[n]] == p[..n + 1];
    }
  }

  // ---------------------------------------------------------------- following one link

  /**
   The walk w0 has just entered a link found in directory p, whose target is t, with `rest`
   to be walked after it; the resolver walks p + t from the root instead. Step m of the
   latter is step n + m - |p| of the former.
   */
  lemma Inside(g: Graph, w0: Walk, n: nat, p: Path, t: seq<string>, rest: seq<string>, m: nat)
    requires Clean(g, p) && ReachesAt(g, w0, n, Walk(p, [t, rest]))
    requires Run(g, Start(p + t), m).Some? && m >= |p|
    ensures Run(g, w0, n + m - |p|) == Some(Framed(Run(g, Start(p + t), m).value, [rest]))
  {
    SkipClean(g, p, t, m);
    RunFrame(g, Walk(p, [t]), [rest], m - |p|);
    assert Framed(Walk(p, [t]), [rest]) == Walk(p, [t, rest]);
    RunAdd(g, w0, n, m - |p|);
  }

  lemma FollowArrives(g: Graph, w0: Walk, n: nat, p: Path, t: seq<string>, rest: seq<string>, q: Path, frames: nat)
    returns (k: nat)
    requires Clean(g, p) && ReachesAt(g, w0, n, Walk(p, [t, rest])) && Within(g, w0, n, frames + 1)
    requires Arrives(g, Start(p + t), q, frames)
    ensures ReachesAt(g, w0, k, Walk(q, [rest])) && Within(g, w0, k, frames + 1)
  {
    var m: nat :| ArrivesAt(g, Start(p + t), m, q, frames);
    SkipClean(g, p, t, m);
    assert m >= |p|;
    Inside(g, w0, n, p, t, rest, m);
    k := n + m - |p| + 1;
    assert Walk(q, [[]]).todo + [rest] == [[], rest];
    RunAdd(g, w0, k - 1, 1);
    assert Run(g, Walk(q, [[], rest]), 1) == Run(g, Walk(q, [rest]), 0);
    forall i: nat | i <= k && Run(g, w0, i).Some?
      ensures |Run(g, w0, i).value.todo| <= frames + 1
    {
      if n <= i < k {
        RunPrefix(g, Start(p + t), i - n + |p|, m);
        Inside(g, w0, n, p, t, rest, i - n + |p|);
      }
      if i == k {
        assert |Run(g, w0, n).value.todo| == 2;
      }
    }
  }

  lemma FollowEscapes(g: Graph, w0: Walk, n: nat, p: Path, t: seq<string>, rest: seq<string>)
    requires Clean(g, p) && ReachesAt(g, w0, n, Walk(p, [t, rest]))
    requires Escapes(g, Start(p + t))
    ensures Escapes(g, w0)
  {
    var m: nat :| Run(g, Start(p + t), m).Some? && Escaping(Run(g, Start(p + t), m).value);
    SkipClean(g, p, t, m);
    Inside(g, w0, n, p, t, rest, m);
    assert Escaping(Run(g, w0, n + m - |p|).value);
  }

  lemma FollowDeeper(g: Graph, w0: Walk, n: nat, p: Path, t: seq<string>, rest: seq<string>, frames: nat)
    requires Clean(g, p) && ReachesAt(g, w0, n, Walk(p, [t, rest]))
    requires frames >= 1 && Deeper(g, Start(p + t), frames)
    ensures Deeper(g, w0, frames + 1)
  {
    var m: nat :| Run(g, Start(p + t), m).Some? && |Run(g, Start(p + t), m).value.todo| > frames;
    SkipClean(g, p, t, m);
    Inside(g, w0, n, p, t, rest, m);
    assert |Run(g, w0, n + m - |p|).value.todo| > frames + 1;
  }

  lemma FollowDiverges(g: Graph, w0: Walk, n: nat, p: Path, t: seq<string>, rest: seq<string>)
    requires Clean(g, p) && ReachesAt(g, w0, n, Walk(p, [t, rest]))
    requires Diverges(g, Start(p + t))
    ensures Diverges(g, w0)
  {
    forall k: nat ensures Run(g, w0, k).Some? {
      Inside(g, w0, n, p, t, rest, k + |p|);
      RunPrefix(g, w0, k, n + k);
    }
  }

  lemma FollowMeets(g: Graph, w0: Walk, n: nat, p: Path, t: seq<string>, rest: seq<string>, link: Path)
    requires Clean(g, p) && ReachesAt(g, w0, n, Walk(p, [t, rest]))
    requires link in g && Meets(g, Start(p + t), link)
    ensures Meets(g, w0, link)
  {
    var m := MeetsBeyond(g, p, t, link);
    Inside(g, w0, n, p, t, rest, m);
    assert Meeting(Run(g, w0, n + m - |p|).value, link);
  }

  lemma MeetsBeyond(g: Graph, p: Path, t: seq<string>, link: Path) returns (m: nat)
    requires Clean(g, p) && link in g && Meets(g, Start(p + t), link)
    ensures m >= |p| && Run(g, Start(p + t), m).Some? && Meeting(Run(g, Start(p + t), m).value, link)
  {
    m :| Run(g, Start(p + t), m).Some? && Meeting(Run(g, Start(p + t), m).value, link);
    SkipClean(g, p, t, m);
  }

  /** A walk that comes back to where it was, with more to do, never ends. */
  lemma {:induction false} LoopRuns(g: Graph, w: Walk, period: nat, frames: seq<seq<string>>, n: nat)
    requires period > 0 && ReachesAt(g, w, period, Framed(w, frames))
    ensures Run(g, w, n).Some?
    decreases n
  {
    if n <= period {
      RunPrefix(g, w, n, period);
    } else {
      LoopRuns(g, w, period, frames, n - period);
      RunFrame(g, w, frames, n - period);
      RunAdd(g, w, period, n - period);
    }
  }

  /** Meeting a link again while following it is a cycle: the walk has no finite run. */
  lemma MeetingItselfDiverges(g: Graph, p: Path, part: string)
    requires IsName(part) && p + [part] in g && Clean(g, p)
    requires Meets(g, Start(p + g[p + [part]]), p + [part])
    ensures Diverges(g, Start(p + g[p + [part]]))
  {
    var link, t := p + [part], g[p + [part]];
    var w := Walk(p, [t]);
    var m := MeetsBeyond(g, p, t, link);
    SkipClean(g, p, t, m);
    var v := Run(g, w, m - |p|).value;
    assert v.at == link[..|link| - 1] == p && v.todo[0][0] == link[|link| - 1] == part;
    var frames := [v.todo[0][1..]] + v.todo[1..];
    RunAdd(g, w, m - |p|, 1);
    assert Run(g, v, 1) == Run(g, Next(g, v), 0);
    assert Next(g, v) == Framed(w, frames);
    forall n: nat ensures Run(g, Start(p + t), n).Some? {
      LoopRuns(g, w, m - |p| + 1, frames, n);
      CleanRun(g, p, t, |p|);
      assert p[..|p|] == p && p[|p|..] + t == t;
      RunAdd(g, Start(p + t), |p|, n);
      RunPrefix(g, Start(p + t), n, |p| + n);
    }
  }

  // ---------------------------------------------------------------- the resolver

  datatype Resolution =
    | Resolved(path: Path)
    | EscapesRoot
    | LinkCycle(link: Path)
    | TooDeep

  /** What a verdict of the resolver says about the walk of `parts`, with `stack` being followed. */
  ghost predicate Sound(g: Graph, parts: seq<string>, stack: seq<Path>, r: Resolution)
    requires |stack| <= MAX_NESTING
  {
    var frames := MAX_FRAMES - |stack|;
    match r
    case Resolved(p) => Clean(g, p) && Arrives(g, Start(parts), p, frames)
    case EscapesRoot => Escapes(g, Start(parts))
    case LinkCycle(link) => link in g &&
      if link in stack then Meets(g, Start(parts), link) else Diverges(g, Start(parts))
    case TooDeep => Deeper(g, Start(parts), frames)
  }

  /** One link followed: the verdict on its target is the verdict on the path, unless it resolves. */
  lemma FollowLink(g: Graph, parts: seq<string>, stack: seq<Path>, n: nat, p: Path, part: string, rest: seq<string>,
                   r: Resolution)
    requires |stack| < MAX_NESTING
    requires IsName(part) && Clean(g, p) && p + [part] in g && p + [part] !in stack
    requires ReachesAt(g, Start(parts), n, Walk(p, [g[p + [part]], rest]))
    requires Sound(g, p + g[p + [part]], stack + [p + [part]], r)
    ensures !r.Resolved? ==> Sound(g, parts, stack, r)
  {
    var link, t := p + [part], g[p + [part]];
    match r
    case Resolved(_) =>
    case EscapesRoot => FollowEscapes(g, Start(parts), n, p, t, rest);
    case TooDeep => FollowDeeper(g, Start(parts), n, p, t, rest, MAX_NESTING - |stack|);
    case LinkCycle(l) =>
      if l in stack {
        FollowMeets(g, Start(parts), n, p, t, rest, l);
      } else {
        if l == link {
          MeetingItselfDiverges(g, p, part);
        }
        FollowDiverges(g, Start(parts), n, p, t, rest);
      }
  }

  /** The walk of `parts` ends inside the root, following at most MAX_NESTING links inside one another. */
  ghost predicate Resolvable(g: Graph, parts: seq<string>) {
    exists p: Path :: Arrives(g, Start(parts), p, MAX_FRAMES)
  }

  /**
   A sound verdict with an empty stack accepts exactly the resolvable paths. Within the
   nesting bound it calls exactly the endless walks cycles and exactly the escaping ones escapes.
   */
  lemma SoundDecides(g: Graph, parts: seq<string>, r: Resolution)
    requires Sound(g, parts, [], r)
    ensures r.Resolved? <==> Resolvable(g, parts)
    ensures r.Resolved? ==> forall q, d: nat :: Arrives(g, Start(parts), q, d) ==> q == r.path
    ensures !Deeper(g, Start(parts), MAX_FRAMES) ==>
              && (r.LinkCycle? <==> Diverges(g, Start(parts)))
              && (r.EscapesRoot? <==> Escapes(g, Start(parts)))
  {
    if Escapes(g, Start(parts)) {
      var n: nat :| Run(g, Start(parts), n).Some? && Escaping(Run(g, Start(parts), n).value);
      RunAdd(g, Start(parts), n, 1);
      assert Run(g, Start(parts), n + 1).None?;
    }
    if Resolvable(g, parts) {
      var p: Path :| Arrives(g, Start(parts), p, MAX_FRAMES);
      VerdictsExclude(g, Start(parts), p, MAX_FRAMES);
    }
  }

  method ResolveLink(g: Graph, parts: seq<string>, stack: seq<Path>) returns (r: Resolution)
    requires |stack| <= MAX_NESTING
    ensures Sound(g, parts, stack, r)
    decreases MAX_NESTING - |stack|
  {
    var resolved: Path := [];
    ghost var n: nat := 0;
    ghost var frames := MAX_FRAMES - |stack|;
    assert parts[0..] == parts;
    for i := 0 to |parts|
      invariant ReachesAt(g, Start(parts), n, Walk(resolved, [parts[i..]]))
      invariant Within(g, Start(parts), n, frames)
      invariant Clean(g, resolved)
    {
      ghost var w := Walk(resolved, [parts[i..]]);
      var part := parts[i];
      assert parts[i..][1..] == parts[i + 1..];
      if part == ".." {
        if resolved == [] {
          r := EscapesRoot;
          assert Escaping(Run(g, Start(parts), n).value);
          return;
        }
      }
      StepOn(g, Start(parts), n, w, frames);
      if part == ".." {
        assert Next(g, w) == Walk(resolved[..|resolved| - 1], [parts[i + 1..]]);
        CleanPop(g, resolved);
        resolved := resolved[..|resolved| - 1];
        n := n + 1;
      } else if part != "." {
        var name := resolved + [part];
        if name in g {
          assert Next(g, w) == Walk(resolved, [g[name], parts[i + 1..]]);
          if name in stack {
            r := LinkCycle(name);
            assert Meeting(Run(g, Start(parts), n).value, name);
            return;
          }
          if |stack| >= MAX_NESTING {
            r := TooDeep;
            assert |Run(g, Start(parts), n + 1).value.todo| > frames;
            return;
          }
          r := ResolveLink(g, resolved + g[name], stack + [name]);
          FollowLink(g, parts, stack, n + 1, resolved, part, parts[i + 1..], r);
          if !r.Resolved? {
            return;
          }
          n := FollowArrives(g, Start(parts), n + 1, resolved, g[name], parts[i + 1..], r.path, frames - 1);
          resolved := r.path;
        } else {
          assert Next(g, w) == Walk(name, [parts[i + 1..]]);
          CleanPush(g, resolved, part);
          resolved := name;
          n := n + 1;
        }
      } else {
        assert Next(g, w) == Walk(resolved, [parts[i + 1..]]);
        n := n + 1;
      }
    }
    r := Resolved(resolved);
    assert ArrivesAt(g, Start(parts), n, resolved, frames);
  }

  /** One more step keeps the frame bound, when the step itself does. */
  lemma StepOn(g: Graph, w0: Walk, n: nat, w: Walk, frames: nat)
    requires ReachesAt(g, w0, n, w) && CanStep(w) && Within(g, w0, n, frames)
    ensures ReachesAt(g, w0, n + 1, Next(g, w))
    ensures |Next(g, w).todo| <= frames ==> Within(g, w0, n + 1, frames)
  {
    RunAdd(g, w0, n, 1);
    assert Run(g, w, 1) == Run(g, Next(g, w), 0);
  }
}
