/**
 The event poller: subscribers, the polling loops started and stopped for them, and what
 every interleaving of their critical sections keeps.
 */
module Poller {
  import opened Text
  import opened Diff

  const CAPACITY: nat := 16

  /**
   A subscriber's channel. `received` are the events taken out of it, `queue` those still
   in it, `lost` says that one did not fit. `base` is the state of the VMs when it was
   created, `known` that of the daemon, and `starter` whether creating it started the loop.
   */
  datatype Channel = Channel(base: View, known: Option<bool>, starter: bool, received: seq<Event>, queue: seq<Event>,
    lost: bool, closed: bool)

  /** A run loop: its context, and whether it is inside a List call. */
  datatype Loop = Loop(cancelled: bool, polling: bool)

  datatype State = State(
    channels: map<nat, Channel>,
    subs: set<nat>,
    running: bool,
    generation: nat,
    wasReachable: Option<bool>,
    prev: seq<VM>,
    loops: map<nat, Loop>)          // the run loops that have not returned, by generation

  const INITIAL := State(map[], {}, false, 0, None, [], map[])

  // ---------------------------------------------------------------- one critical section each

  function Send(c: Channel, e: Event): Channel {
    if |c.queue| < CAPACITY then c.(queue := c.queue + [e]) else c.(lost := true)
  }

  function Broadcast(channels: map<nat, Channel>, subs: set<nat>, e: Event): map<nat, Channel> {
    map c | c in channels :: if c in subs then Send(channels[c], e) else channels[c]
  }

  function BroadcastAll(channels: map<nat, Channel>, subs: set<nat>, es: seq<Event>): map<nat, Channel> {
    if es == [] then channels
    else Broadcast(BroadcastAll(channels, subs, es[..|es| - 1]), subs, es[|es| - 1])
  }

  function Started(s: State): State {
    if s.running then s
    else s.(running := true, generation := s.generation + 1,
            loops := s.loops[s.generation + 1 := Loop(false, true)])
  }

  ghost function Subscribed(s: State, c: nat): State {
    var channel := Channel(States(s.prev), s.wasReachable, !s.running, [], [], false, false);
    Started(s.(channels := s.channels[c := channel], subs := s.subs + {c}))
  }

  function Cancel(loops: map<nat, Loop>, g: nat): map<nat, Loop> {
    if g in loops then loops[g := loops[g].(cancelled := true)] else loops
  }

  function Left(s: State, c: nat): State
    requires c in s.channels
  {
    var t := s.(subs := s.subs - {c}, channels := s.channels[c := s.channels[c].(closed := true)]);
    if t.subs == {} && t.running then
      t.(running := false, loops := Cancel(t.loops, t.generation), wasReachable := None, prev := [])
    else t
  }

  function StatusEvents(was: Option<bool>, reachable: bool): seq<Event> {
    if was == Some(reachable) then [] else [DaemonStatus(reachable)]
  }

  function PollEvents(s: State, reachable: bool, cur: seq<VM>): seq<Event> {
    StatusEvents(s.wasReachable, reachable) + if reachable then Events(s.prev, cur) else []
  }

  /** The end of a poll by the loop of generation g, which found cur, or the daemon unreachable. */
  function Polled(s: State, g: nat, reachable: bool, cur: seq<VM>): State
    requires g in s.loops
  {
    var t := s.(loops := s.loops[g := s.loops[g].(polling := false)]);
    if g != t.generation then t
    else t.(wasReachable := Some(reachable),
            prev := if reachable then cur else [],
            channels := BroadcastAll(t.channels, t.subs, PollEvents(s, reachable, cur)))
  }

  // ---------------------------------------------------------------- the code

  class EventPoller {
    var channels: map<nat, Channel>
    var subs: set<nat>
    var running: bool
    var generation: nat
    var wasReachable: Option<bool>
    var prev: seq<VM>
    var loops: map<nat, Loop>

    constructor ()
      ensures View() == INITIAL
    {
      channels, subs, running, generation, wasReachable, prev, loops := map[], {}, false, 0, None, [], map[];
    }

    ghost function View(): State
      reads this
    {
      State(channels, subs, running, generation, wasReachable, prev, loops)
    }

    /** Registers a fresh channel, and starts a loop if none runs. */
    method Subscribe(c: nat)
      requires c !in channels
      modifies this
      ensures View() == Subscribed(old(View()), c)
    {
      var base := map id | id in ById(prev) :: ById(prev)[id].state;
      channels := channels[c := Channel(base, wasReachable, !running, [], [], false, false)];
      subs := subs + {c};
      if !running {
        running := true;
        generation := generation + 1;
        loops := loops[generation := Loop(false, true)];
      }
    }

    /** The subscriber's context is done: its channel is closed, and the last one stops the loop. */
    method Leave(c: nat)
      requires c in subs && c in channels
      modifies this
      ensures View() == Left(old(View()), c)
    {
      subs := subs - {c};
      channels := channels[c := channels[c].(closed := true)];
      if subs == {} && running {
        running := false;
        if generation in loops {
          loops := loops[generation := loops[generation].(cancelled := true)];
        }
        wasReachable := None;
        prev := [];
      }
    }

    /** Offers e to every subscriber, whatever the order, without blocking and never on a closed channel. */
    method BroadcastLocked(e: Event)
      requires subs <= channels.Keys && forall c :: c in subs ==> !channels[c].closed
      modifies this`channels
      ensures channels == Broadcast(old(channels), subs, e)
    {
      var todo := subs;
      ghost var was := channels;
      while todo != {}
        invariant todo <= subs && channels.Keys == was.Keys
        invariant forall c :: c in was ==> channels[c] == if c in subs - todo then Send(was[c], e) else was[c]
        decreases todo
      {
        var c :| c in todo;
        if |channels[c].queue| < CAPACITY {
          channels := channels[c := channels[c].(queue := channels[c].queue + [e])];
        } else {
          channels := channels[c := channels[c].(lost := true)];
        }
        todo := todo - {c};
      }
    }

    /** What a poll does under the lock once its List call has returned. */
    method Poll(g: nat, reachable: bool, cur: seq<VM>)
      requires g in loops && subs <= channels.Keys && forall c :: c in subs ==> !channels[c].closed
      modifies this
      ensures View() == Polled(old(View()), g, reachable, cur)
    {
      loops := loops[g := loops[g].(polling := false)];
      if g != generation { return; }
      var events := [];
      if wasReachable == None || wasReachable.value != reachable {
        wasReachable := Some(reachable);
        events := [DaemonStatus(reachable)];
      }
      if reachable {
        var changes := DiffVMEvents(prev, cur);
        events := events + changes;
        prev := cur;
      } else {
        prev := [];
        assert events + [] == events;
      }
      assert events == PollEvents(old(View()), reachable, cur);
      BroadcastEach(events);
    }

    method BroadcastEach(events: seq<Event>)
      requires subs <= channels.Keys && forall c :: c in subs ==> !channels[c].closed
      modifies this`channels
      ensures channels == BroadcastAll(old(channels), subs, events)
    {
      for i := 0 to |events|
        invariant channels == BroadcastAll(old(channels), subs, events[..i])
        invariant subs <= channels.Keys && forall c :: c in subs ==> !channels[c].closed
      {
        assert events[..i + 1][..i] == events[..i];
        BroadcastLocked(events[i]);
      }
      assert events[..|events|] == events;
    }
  }

  // ---------------------------------------------------------------- runs

  datatype Step =
    | Subscribe(c: nat)
    | Leave(c: nat)
    | StartPoll(g: nat)
    | FinishPoll(g: nat, reachable: bool, cur: seq<VM>)
    | Beat(g: nat)
    | Return(g: nat)
    | Receive(c: nat)

  /** A loop may go on polling and beating after it was cancelled, until it notices. */
  predicate Enabled(s: State, x: Step) {
    match x
    case Subscribe(c) => c !in s.channels
    case Leave(c) => c in s.subs && c in s.channels
    case StartPoll(g) => g in s.loops && !s.loops[g].polling
    case FinishPoll(g, _, _) => g in s.loops && s.loops[g].polling
    case Beat(g) => g in s.loops && !s.loops[g].polling
    case Return(g) => g in s.loops && !s.loops[g].polling && s.loops[g].cancelled
    case Receive(c) => c in s.channels && s.channels[c].queue != []
  }

  ghost function Do(s: State, x: Step): State
    requires Enabled(s, x)
  {
    match x
    case Subscribe(c) => Subscribed(s, c)
    case Leave(c) => Left(s, c)
    case StartPoll(g) => s.(loops := s.loops[g := s.loops[g].(polling := true)])
    case FinishPoll(g, reachable, cur) => Polled(s, g, reachable, cur)
    case Beat(g) => s.(channels := Broadcast(s.channels, s.subs, Heartbeat))
    case Return(g) => s.(loops := s.loops - {g})
    case Receive(c) =>
      var ch := s.channels[c];
      s.(channels := s.channels[c := ch.(received := ch.received + [ch.queue[0]], queue := ch.queue[1..])])
  }

  ghost predicate IsRun(s: State, xs: seq<Step>)
    decreases |xs|
  {
    xs == [] || (Enabled(s, xs[0]) && IsRun(Do(s, xs[0]), xs[1..]))
  }

  ghost function After(s: State, xs: seq<Step>): State
    requires IsRun(s, xs)
    decreases |xs|
  {
    if xs == [] then s else After(Do(s, xs[0]), xs[1..])
  }

  // ---------------------------------------------------------------- what every step keeps

  ghost predicate Inv(s: State) {
    && (s.running <==> s.subs != {})
    && s.subs <= s.channels.Keys
    && (forall c :: c in s.channels ==> (s.channels[c].closed <==> c !in s.subs))
    && (forall g :: g in s.loops ==> g <= s.generation)
    && (forall g :: g in s.loops && !s.loops[g].cancelled ==> s.running && g == s.generation)
    && (s.running ==> s.generation in s.loops && !s.loops[s.generation].cancelled)
    && (s.prev != [] ==> s.wasReachable == Some(true))
  }

  lemma {:induction false} BroadcastAllKeys(channels: map<nat, Channel>, subs: set<nat>, es: seq<Event>)
    ensures BroadcastAll(channels, subs, es).Keys == channels.Keys
    ensures forall c :: c in channels ==> BroadcastAll(channels, subs, es)[c].closed == channels[c].closed
  {
    if es != [] {
      BroadcastAllKeys(channels, subs, es[..|es| - 1]);
    }
  }

  lemma StepKeepsInv(s: State, x: Step)
    requires Inv(s) && Enabled(s, x)
    ensures Inv(Do(s, x))
  {
    if x.FinishPoll? {
      BroadcastAllKeys(s.channels, s.subs, PollEvents(s, x.reachable, x.cur));
    }
  }

  /** In every reachable state the poller runs exactly when someone listens, in one live loop. */
  lemma {:induction false} RunKeepsInv(s: State, xs: seq<Step>)
    requires Inv(s) && IsRun(s, xs)
    ensures Inv(After(s, xs))
    decreases |xs|
  {
    if xs != [] {
      StepKeepsInv(s, xs[0]);
      RunKeepsInv(Do(s, xs[0]), xs[1..]);
    }
  }

  // ---------------------------------------------------------------- superseded loops

  lemma {:induction false} GenerationGrows(s: State, xs: seq<Step>)
    requires IsRun(s, xs)
    ensures After(s, xs).generation >= s.generation
    decreases |xs|
  {
    if xs != [] {
      GenerationGrows(Do(s, xs[0]), xs[1..]);
    }
  }

  /**
   Once a replacement loop has started, a poll of an older loop changes nothing but its own
   loop, however much later it finishes.
   */
  lemma OlderPollIsInert(s: State, xs: seq<Step>, g: nat, reachable: bool, cur: seq<VM>)
    requires IsRun(s, xs) && g < s.generation && Enabled(After(s, xs), FinishPoll(g, reachable, cur))
    ensures var t := After(s, xs);
            Do(t, FinishPoll(g, reachable, cur)) == t.(loops := t.loops[g := t.loops[g].(polling := false)])
  {
    GenerationGrows(s, xs);
  }

  // ---------------------------------------------------------------- what a subscriber can rebuild

  ghost function History(c: Channel): seq<Event> {
    c.received + c.queue
  }

  /** Whoever lost nothing can rebuild the current states from those at its subscription and its events. */
  ghost predicate InSync(s: State) {
    forall c :: c in s.subs && c in s.channels && !s.channels[c].lost ==> Holds(s, c)
  }

  /** The lists that are taken over have no VM listed twice in a misleading way. */
  ghost predicate Faithful(s: State, x: Step) {
    x.FinishPoll? && x.g == s.generation && x.reachable ==> Readable(s.prev, x.cur)
  }

  lemma {:induction false} BroadcastAllDelivers(channels: map<nat, Channel>, subs: set<nat>, es: seq<Event>, c: nat)
    requires c in channels && c in subs
    ensures c in BroadcastAll(channels, subs, es)
    ensures var r := BroadcastAll(channels, subs, es)[c];
            && r.base == channels[c].base && r.starter == channels[c].starter && r.known == channels[c].known
            && (!r.lost ==> !channels[c].lost && History(r) == History(channels[c]) + es)
  {
    if es != [] {
      var short := es[..|es| - 1];
      BroadcastAllDelivers(channels, subs, short, c);
      assert History(channels[c]) + short + [es[|es| - 1]] == History(channels[c]) + es;
    }
  }

  lemma PollCarries(s: State, reachable: bool, cur: seq<VM>)
    requires s.prev != [] ==> s.wasReachable == Some(true)
    requires reachable ==> Readable(s.prev, cur)
    ensures ApplyAll(States(s.prev), PollEvents(s, reachable, cur)) == States(if reachable then cur else [])
  {
    var v, status := States(s.prev), StatusEvents(s.wasReachable, reachable);
    assert status != [] ==> status[..0] == [] && ApplyAll(v, status) == Apply(v, DaemonStatus(reachable));
    if reachable {
      ApplyAllAppend(v, status, Events(s.prev, cur));
      EventsCarryDifference(s.prev, cur);
    } else {
      assert PollEvents(s, reachable, cur) == status;
      assert States([]) == map[];
    }
  }

  ghost predicate Holds(s: State, c: nat)
    requires c in s.channels
  {
    ApplyAll(s.channels[c].base, History(s.channels[c])) == States(s.prev)
  }

  lemma PollKeepsSync(s: State, reachable: bool, cur: seq<VM>, c: nat)
    requires s.prev != [] ==> s.wasReachable == Some(true)
    requires reachable ==> Readable(s.prev, cur)
    requires c in s.channels && c in s.subs && (!s.channels[c].lost ==> Holds(s, c))
    ensures var es := PollEvents(s, reachable, cur);
            var ch := BroadcastAll(s.channels, s.subs, es);
            c in ch && (!ch[c].lost ==> ApplyAll(ch[c].base, History(ch[c])) == States(if reachable then cur else []))
  {
    var es := PollEvents(s, reachable, cur);
    BroadcastAllDelivers(s.channels, s.subs, es, c);
    PollCarries(s, reachable, cur);
    ApplyAllAppend(s.channels[c].base, History(s.channels[c]), es);
  }

  lemma BeatKeepsSync(s: State, c: nat)
    requires c in s.channels && c in s.subs && (!s.channels[c].lost ==> Holds(s, c))
    ensures var ch := Broadcast(s.channels, s.subs, Heartbeat)[c];
            !ch.lost ==> ApplyAll(ch.base, History(ch)) == States(s.prev)
  {
    var ch := Broadcast(s.channels, s.subs, Heartbeat)[c];
    if !ch.lost {
      assert History(ch) == History(s.channels[c]) + [Heartbeat];
      HeartbeatSaysNothing(s.channels[c].base, History(s.channels[c]));
    }
  }

  lemma ReceiveKeepsHistory(s: State, d: nat, c: nat)
    requires Enabled(s, Receive(d)) && c in s.channels
    ensures var t := Do(s, Receive(d));
            && t.channels[c].base == s.channels[c].base && t.channels[c].lost == s.channels[c].lost
            && t.channels[c].known == s.channels[c].known
            && History(t.channels[c]) == History(s.channels[c])
  {
  }

  lemma StepKeepsSync(s: State, x: Step)
    requires Inv(s) && InSync(s) && Enabled(s, x) && Faithful(s, x)
    ensures InSync(Do(s, x))
  {
    forall c | c in Do(s, x).subs && c in Do(s, x).channels && !Do(s, x).channels[c].lost ensures Holds(Do(s, x), c) {
      StepKeepsOneInSync(s, x, c);
    }
  }

  lemma StepKeepsOneInSync(s: State, x: Step, c: nat)
    requires Inv(s) && InSync(s) && Enabled(s, x) && Faithful(s, x)
    requires c in Do(s, x).subs && c in Do(s, x).channels && !Do(s, x).channels[c].lost
    ensures Holds(Do(s, x), c)
  {
    match x
    case Subscribe(d) =>
      if c == d {
        assert History(Do(s, x).channels[c]) == [];
      } else {
        assert Holds(s, c);
      }
    case FinishPoll(g, reachable, cur) =>
      if g == s.generation {
        assert !s.channels[c].lost ==> Holds(s, c);
        PollKeepsSync(s, reachable, cur, c);
      } else {
        assert Holds(s, c);
      }
    case Beat(g) =>
      assert !s.channels[c].lost ==> Holds(s, c);
      BeatKeepsSync(s, c);
    case Receive(d) =>
      ReceiveKeepsHistory(s, d, c);
      assert Holds(s, c);
    case _ =>
      assert Holds(s, c);
  }

  lemma HeartbeatSaysNothing(v: View, es: seq<Event>)
    ensures ApplyAll(v, es + [Heartbeat]) == ApplyAll(v, es)
  {
    assert (es + [Heartbeat])[..|es|] == es;
  }

  // ---------------------------------------------------------------- what a subscriber loses

  /** A subscriber loses something exactly when more is offered than its channel has room for, and else gets it all. */
  lemma {:induction false} LosesIffFull(channels: map<nat, Channel>, subs: set<nat>, es: seq<Event>, c: nat)
    requires c in channels && c in subs && |channels[c].queue| <= 16
    ensures c in BroadcastAll(channels, subs, es)
    ensures var r := BroadcastAll(channels, subs, es)[c];
            && (r.lost <==> channels[c].lost || |channels[c].queue| + |es| > 16)
            && r.received == channels[c].received && |r.queue| <= 16
            && (|channels[c].queue| + |es| <= 16 ==> r.queue == channels[c].queue + es)
            && (|channels[c].queue| + |es| > 16 ==> |r.queue| == 16)
  {
    if es != [] {
      var short := es[..|es| - 1];
      LosesIffFull(channels, subs, short, c);
      assert channels[c].queue + short + [es[|es| - 1]] == channels[c].queue + es;
    } else {
      assert channels[c].queue + es == channels[c].queue;
    }
  }

  // ---------------------------------------------------------------- what a subscriber knows of the daemon

  /** Whether the daemon is reachable, as the last status in es says, or `was` if there is none. */
  ghost function LastStatus(was: Option<bool>, es: seq<Event>): Option<bool> {
    if es == [] then was
    else if es[|es| - 1].DaemonStatus? then Some(es[|es| - 1].reachable)
    else LastStatus(was, es[..|es| - 1])
  }

  /** Every status in es says something new. */
  ghost predicate OnlyNews(was: Option<bool>, es: seq<Event>) {
    es == [] ||
    (&& OnlyNews(was, es[..|es| - 1])
     && (es[|es| - 1].DaemonStatus? ==> LastStatus(was, es[..|es| - 1]) != Some(es[|es| - 1].reachable)))
  }

  lemma {:induction false} StatusAppend(was: Option<bool>, a: seq<Event>, b: seq<Event>)
    ensures LastStatus(was, a + b) == LastStatus(LastStatus(was, a), b)
    ensures OnlyNews(was, a + b) <==> OnlyNews(was, a) && OnlyNews(LastStatus(was, a), b)
    decreases |b|
  {
    if b == [] {
      assert a + b == a;
    } else {
      assert (a + b)[..|a + b| - 1] == a + b[..|b| - 1];
      StatusAppend(was, a, b[..|b| - 1]);
    }
  }

  lemma {:induction false} NoStatus(was: Option<bool>, es: seq<Event>)
    requires forall i :: 0 <= i < |es| ==> !es[i].DaemonStatus?
    ensures LastStatus(was, es) == was && OnlyNews(was, es)
  {
    if es != [] {
      NoStatus(was, es[..|es| - 1]);
    }
  }

  /** A poll says of the daemon exactly what it found, once, and only if it is new. */
  lemma PollReportsStatus(s: State, reachable: bool, cur: seq<VM>)
    ensures var es := PollEvents(s, reachable, cur);
            LastStatus(s.wasReachable, es) == Some(reachable) && OnlyNews(s.wasReachable, es)
  {
    var status, changes := StatusEvents(s.wasReachable, reachable), if reachable then Events(s.prev, cur) else [];
    forall i | 0 <= i < |changes| ensures !changes[i].DaemonStatus? {
      EventsReport(s.prev, cur, changes[i]);
    }
    assert status != [] ==> status[..0] == [];
    StatusAppend(s.wasReachable, status, changes);
    NoStatus(LastStatus(s.wasReachable, status), changes);
  }

  ghost predicate KnowsStatus(s: State, c: nat)
    requires c in s.channels
  {
    var ch := s.channels[c];
    LastStatus(ch.known, History(ch)) == s.wasReachable && OnlyNews(ch.known, History(ch))
  }

  /** Whoever lost nothing knows whether the daemon is reachable, and was told so only when it changed. */
  ghost predicate StatusInSync(s: State) {
    forall c :: c in s.subs && c in s.channels && !s.channels[c].lost ==> KnowsStatus(s, c)
  }

  lemma StepKeepsStatusOf(s: State, x: Step, c: nat)
    requires Inv(s) && StatusInSync(s) && Enabled(s, x)
    requires c in Do(s, x).subs && c in Do(s, x).channels && !Do(s, x).channels[c].lost
    ensures KnowsStatus(Do(s, x), c)
  {
    match x
    case Subscribe(d) =>
      if c == d {
        assert History(Do(s, x).channels[c]) == [];
      } else {
        assert KnowsStatus(s, c);
      }
    case FinishPoll(g, reachable, cur) =>
      if g == s.generation {
        var ch, es := s.channels[c], PollEvents(s, reachable, cur);
        BroadcastAllDelivers(s.channels, s.subs, es, c);
        assert KnowsStatus(s, c);
        PollReportsStatus(s, reachable, cur);
        StatusAppend(ch.known, History(ch), es);
      } else {
        assert KnowsStatus(s, c);
      }
    case Beat(g) =>
      assert KnowsStatus(s, c);
      assert History(Do(s, x).channels[c]) == History(s.channels[c]) + [Heartbeat];
      StatusAppend(s.channels[c].known, History(s.channels[c]), [Heartbeat]);
      NoStatus(s.wasReachable, [Heartbeat]);
    case Receive(d) =>
      ReceiveKeepsHistory(s, d, c);
      assert KnowsStatus(s, c);
    case _ =>
      assert KnowsStatus(s, c);
  }

  /** Through every run, every subscriber that lost nothing knows whether the daemon is reachable. */
  lemma {:induction false} RunKeepsStatus(s: State, xs: seq<Step>)
    requires Inv(s) && StatusInSync(s) && IsRun(s, xs)
    ensures StatusInSync(After(s, xs))
    decreases |xs|
  {
    if xs != [] {
      var t := Do(s, xs[0]);
      StepKeepsInv(s, xs[0]);
      forall c | c in t.subs && c in t.channels && !t.channels[c].lost ensures KnowsStatus(t, c) {
        StepKeepsStatusOf(s, xs[0], c);
      }
      RunKeepsStatus(t, xs[1..]);
    }
  }

  // ---------------------------------------------------------------- a fresh start

  /** No poll of the current generation ends while nobody is subscribed. */
  ghost predicate Quiet(s: State, x: Step) {
    x.FinishPoll? && x.g == s.generation ==> s.running
  }

  ghost predicate Fresh(s: State) {
    && (!s.running ==> s.prev == [] && s.wasReachable == None)
    && (forall c :: c in s.channels && s.channels[c].starter ==> s.channels[c].base == map[])
  }

  lemma StepKeepsFresh(s: State, x: Step)
    requires Inv(s) && Fresh(s) && Enabled(s, x) && Quiet(s, x)
    ensures Fresh(Do(s, x))
  {
    assert States([]) == map[];
    var t := Do(s, x);
    if x.FinishPoll? && x.g == s.generation {
      BroadcastAllKeys(s.channels, s.subs, PollEvents(s, x.reachable, x.cur));
      forall c | c in t.channels && t.channels[c].starter ensures t.channels[c].base == map[] {
        BroadcastAllOrigin(s.channels, s.subs, PollEvents(s, x.reachable, x.cur), c);
      }
    }
  }

  lemma {:induction false} BroadcastAllOrigin(channels: map<nat, Channel>, subs: set<nat>, es: seq<Event>, c: nat)
    requires c in channels
    ensures c in BroadcastAll(channels, subs, es)
    ensures var r := BroadcastAll(channels, subs, es)[c]; r.base == channels[c].base && r.starter == channels[c].starter
  {
    if es != [] {
      BroadcastAllOrigin(channels, subs, es[..|es| - 1], c);
    }
  }

  ghost predicate FaithfulRun(s: State, xs: seq<Step>)
    requires IsRun(s, xs)
    decreases |xs|
  {
    xs == [] || (Faithful(s, xs[0]) && FaithfulRun(Do(s, xs[0]), xs[1..]))
  }

  ghost predicate QuietRun(s: State, xs: seq<Step>)
    requires IsRun(s, xs)
    decreases |xs|
  {
    xs == [] || (Quiet(s, xs[0]) && QuietRun(Do(s, xs[0]), xs[1..]))
  }

  /** Every subscriber that lost nothing stays in sync with the poller through every run. */
  lemma {:induction false} RunKeepsSync(s: State, xs: seq<Step>)
    requires Inv(s) && InSync(s) && IsRun(s, xs) && FaithfulRun(s, xs)
    ensures InSync(After(s, xs))
    decreases |xs|
  {
    if xs != [] {
      StepKeepsInv(s, xs[0]);
      StepKeepsSync(s, xs[0]);
      RunKeepsSync(Do(s, xs[0]), xs[1..]);
    }
  }

  lemma {:induction false} RunKeepsFresh(s: State, xs: seq<Step>)
    requires Inv(s) && Fresh(s) && IsRun(s, xs) && QuietRun(s, xs)
    ensures Fresh(After(s, xs))
    decreases |xs|
  {
    if xs != [] {
      StepKeepsInv(s, xs[0]);
      StepKeepsFresh(s, xs[0]);
      RunKeepsFresh(Do(s, xs[0]), xs[1..]);
    }
  }

  /** An event of es says what becomes of id. */
  ghost predicate Touched(es: seq<Event>, id: string) {
    exists i :: 0 <= i < |es| && Touches(es[i], id)
  }

  predicate Touches(e: Event, id: string) {
    match e
    case VmAdded(vm, _, _) => vm == id
    case VmStateChanged(vm, _, _, _) => vm == id
    case VmRemoved(vm, _, _) => vm == id
    case DaemonStatus(reachable) => !reachable
    case Heartbeat => false
  }

  lemma TouchedStep(es: seq<Event>, id: string)
    requires es != []
    ensures Touched(es, id) <==> Touched(es[..|es| - 1], id) || Touches(es[|es| - 1], id)
  {
    var short := es[..|es| - 1];
    if Touched(es, id) {
      var i :| 0 <= i < |es| && Touches(es[i], id);
      assert i < |short| ==> Touches(short[i], id);
    }
    if Touched(short, id) {
      var i :| 0 <= i < |short| && Touches(short[i], id);
      assert Touches(es[i], id);
    }
  }

  /** What a fold says of id is what the events say of it, or what it started from if they say nothing. */
  lemma {:induction false} FoldOne(v: View, es: seq<Event>, id: string)
    ensures var a, b := ApplyAll(v, es), ApplyAll(map[], es);
            if Touched(es, id) then (id in a <==> id in b) && (id in a ==> a[id] == b[id])
            else (id in a <==> id in v) && (id in a ==> a[id] == v[id]) && id !in b
    decreases |es|
  {
    if es != [] {
      FoldOne(v, es[..|es| - 1], id);
      TouchedStep(es, id);
    }
  }

  /** A starting point does not matter exactly when the events speak of every VM in it. */
  lemma FoldForgetsIffTouched(v: View, es: seq<Event>)
    ensures ApplyAll(v, es) == ApplyAll(map[], es) <==> forall id :: id in v ==> Touched(es, id)
  {
    var a, b := ApplyAll(v, es), ApplyAll(map[], es);
    if forall id :: id in v ==> Touched(es, id) {
      forall id ensures id in a <==> id in b ensures id in a ==> a[id] == b[id] {
        FoldOne(v, es, id);
      }
      assert a == b;
    } else {
      var id :| id in v && !Touched(es, id);
      FoldOne(v, es, id);
    }
  }

  /**
   In every faithful run a subscriber that lost nothing can rebuild the states from its events
   alone exactly when they speak of every VM there was at its subscription.
   */
  lemma RebuildsIffTouched(xs: seq<Step>, c: nat)
    requires IsRun(INITIAL, xs) && FaithfulRun(INITIAL, xs)
    requires var s := After(INITIAL, xs); c in s.subs && c in s.channels && !s.channels[c].lost
    ensures var s := After(INITIAL, xs);
            var ch := s.channels[c];
            ApplyAll(map[], History(ch)) == States(s.prev) <==> forall id :: id in ch.base ==> Touched(History(ch), id)
  {
    RunKeepsSync(INITIAL, xs);
    var s := After(INITIAL, xs);
    assert Holds(s, c);
    FoldForgetsIffTouched(s.channels[c].base, History(s.channels[c]));
  }

  /**
   What an idle poller knows after x, if it knew `list` before: what the last poll to end while it is idle has found.
   */
  ghost function LeftAfter(s: State, x: Step, list: seq<VM>): seq<VM> {
    match x
    case FinishPoll(g, reachable, cur) =>
      if g != s.generation || s.running then list else if reachable then cur else []
    case Leave(_) => []
    case _ => list
  }

  /** The list the last idle poll has left behind when c subscribes. */
  ghost function LeftFor(s: State, xs: seq<Step>, list: seq<VM>, c: nat): seq<VM>
    requires IsRun(s, xs)
    decreases |xs|
  {
    if xs == [] || xs[0] == Subscribe(c) then list
    else LeftFor(Do(s, xs[0]), xs[1..], LeftAfter(s, xs[0], list), c)
  }

  lemma LeftStep(s: State, x: Step, list: seq<VM>)
    requires Inv(s) && Enabled(s, x) && (!s.running ==> s.prev == list)
    ensures !Do(s, x).running ==> Do(s, x).prev == LeftAfter(s, x, list)
  {
  }

  lemma OriginStep(s: State, x: Step, c: nat)
    requires Enabled(s, x) && c in s.channels
    ensures var t := Do(s, x);
            && c in t.channels
            && t.channels[c].base == s.channels[c].base && t.channels[c].starter == s.channels[c].starter
  {
    if x.FinishPoll? {
      BroadcastAllOrigin(s.channels, s.subs, PollEvents(s, x.reachable, x.cur), c);
    }
  }

  lemma {:induction false} OriginStays(s: State, xs: seq<Step>, c: nat)
    requires IsRun(s, xs) && c in s.channels
    ensures var t := After(s, xs);
            && c in t.channels
            && t.channels[c].base == s.channels[c].base && t.channels[c].starter == s.channels[c].starter
    decreases |xs|
  {
    if xs != [] {
      OriginStep(s, xs[0], c);
      OriginStays(Do(s, xs[0]), xs[1..], c);
    }
  }

  lemma NoOtherChannel(s: State, x: Step, c: nat)
    requires Enabled(s, x) && x != Subscribe(c) && c !in s.channels
    ensures c !in Do(s, x).channels
  {
    if x.FinishPoll? {
      BroadcastAllKeys(s.channels, s.subs, PollEvents(s, x.reachable, x.cur));
    }
  }

  /** A subscriber that starts the loop starts from what was left behind, and from nothing else. */
  lemma {:induction false} StarterBase(s: State, xs: seq<Step>, list: seq<VM>, c: nat)
    requires Inv(s) && IsRun(s, xs) && (!s.running ==> s.prev == list) && c !in s.channels
    requires c in After(s, xs).channels && After(s, xs).channels[c].starter
    ensures After(s, xs).channels[c].base == States(LeftFor(s, xs, list, c))
    decreases |xs|
  {
    if xs != [] {
      var x := xs[0];
      if x == Subscribe(c) {
        OriginStays(Do(s, x), xs[1..], c);
      } else {
        StepKeepsInv(s, x);
        LeftStep(s, x, list);
        NoOtherChannel(s, x, c);
        StarterBase(Do(s, x), xs[1..], LeftAfter(s, x, list), c);
      }
    }
  }

  /**
   In every faithful run a subscriber that started the loop and lost nothing can rebuild the
   states from its events alone exactly when they speak of every VM that a poll ending while
   nobody was subscribed had left behind for it.
   */
  lemma StarterRebuildsIffTouched(xs: seq<Step>, c: nat)
    requires IsRun(INITIAL, xs) && FaithfulRun(INITIAL, xs)
    requires var s := After(INITIAL, xs);
             c in s.subs && c in s.channels && s.channels[c].starter && !s.channels[c].lost
    ensures var s := After(INITIAL, xs);
            var events := History(s.channels[c]);
            (ApplyAll(map[], events) == States(s.prev)) <==>
            (forall id :: id in States(LeftFor(INITIAL, xs, [], c)) ==> Touched(events, id))
  {
    RebuildsIffTouched(xs, c);
    StarterBase(INITIAL, xs, [], c);
  }

  lemma {:induction false} QuietLeavesNothing(s: State, xs: seq<Step>, c: nat)
    requires IsRun(s, xs) && QuietRun(s, xs)
    ensures LeftFor(s, xs, [], c) == []
    decreases |xs|
  {
    if xs != [] && xs[0] != Subscribe(c) {
      QuietLeavesNothing(Do(s, xs[0]), xs[1..], c);
    }
  }

  /** If no poll of the current generation ends while nobody is subscribed, the events alone always give the states. */
  lemma StarterRebuildsStates(xs: seq<Step>, c: nat)
    requires IsRun(INITIAL, xs) && FaithfulRun(INITIAL, xs) && QuietRun(INITIAL, xs)
    requires var s := After(INITIAL, xs);
             c in s.subs && c in s.channels && s.channels[c].starter && !s.channels[c].lost
    ensures var s := After(INITIAL, xs); ApplyAll(map[], History(s.channels[c])) == States(s.prev)
  {
    StarterRebuildsIffTouched(xs, c);
    QuietLeavesNothing(INITIAL, xs, c);
  }

  /** A poll that ends while nobody is subscribed, and then a subscriber. */
  function LateRun(vm: VM): seq<Step> {
    [Subscribe(0), Leave(0), FinishPoll(1, true, [vm]), Subscribe(1)]
  }

  lemma LateStates(vm: VM) returns (s1: State, s2: State, s3: State)
    ensures Enabled(INITIAL, Subscribe(0)) && s1 == Do(INITIAL, Subscribe(0))
    ensures Enabled(s1, Leave(0)) && s2 == Do(s1, Leave(0)) && s2.generation == 1 && !s2.running && s2.prev == []
    ensures Enabled(s2, FinishPoll(1, true, [vm])) && s3 == Do(s2, FinishPoll(1, true, [vm]))
    ensures Enabled(s3, Subscribe(1)) && !s3.running
  {
    s1 := Do(INITIAL, Subscribe(0));
    assert s1.subs == {0} && s1.generation == 1;
    s2 := Do(s1, Leave(0));
    assert s2.subs == {} && !s2.running && 1 in s2.loops && s2.loops[1] == Loop(true, true);
    s3 := Do(s2, FinishPoll(1, true, [vm]));
    BroadcastAllKeys(s2.channels, s2.subs, PollEvents(s2, true, [vm]));
  }

  lemma LateRunIs(vm: VM)
    ensures IsRun(INITIAL, LateRun(vm)) && FaithfulRun(INITIAL, LateRun(vm))
    ensures LeftFor(INITIAL, LateRun(vm), [], 1) == [vm]
    ensures var s := After(INITIAL, LateRun(vm));
            && 1 in s.subs && 1 in s.channels && s.channels[1].starter && !s.channels[1].lost
            && History(s.channels[1]) == []
  {
    var x0, x1, x2, x3 := Subscribe(0), Leave(0), FinishPoll(1, true, [vm]), Subscribe(1);
    var s1, s2, s3 := LateStates(vm);
    assert [x0] + [x1, x2, x3] == LateRun(vm);
    assert [x1] + [x2, x3] == [x1, x2, x3] && [x2] + [x3] == [x2, x3] && [x3] + [] == [x3];
    UniqueIsReadable([], [vm]);
    FirstStep(s3, x3, [], [vm], 1);
    FirstStep(s2, x2, [x3], [], 1);
    FirstStep(s1, x1, [x2, x3], [], 1);
    FirstStep(INITIAL, x0, [x1, x2, x3], [], 1);
  }

  /** In that run the new subscriber is never told of the VM that was left behind. */
  lemma LeftBehind(vm: VM)
    ensures IsRun(INITIAL, LateRun(vm))
    ensures var s := After(INITIAL, LateRun(vm));
            1 in s.channels && s.channels[1].starter && ApplyAll(map[], History(s.channels[1])) != States(s.prev)
  {
    LateRunIs(vm);
    StarterRebuildsIffTouched(LateRun(vm), 1);
    ByIdMeaning([vm], vm.id);
    assert vm.id in States([vm]) && !Touched([], vm.id);
  }

  lemma FirstStep(s: State, x: Step, xs: seq<Step>, list: seq<VM>, c: nat)
    requires Enabled(s, x) && IsRun(Do(s, x), xs)
    ensures IsRun(s, [x] + xs) && After(s, [x] + xs) == After(Do(s, x), xs)
    ensures FaithfulRun(s, [x] + xs) <==> Faithful(s, x) && FaithfulRun(Do(s, x), xs)
    ensures LeftFor(s, [x] + xs, list, c)
         == if x == Subscribe(c) then list else LeftFor(Do(s, x), xs, LeftAfter(s, x, list), c)
  {
    assert ([x] + xs)[1..] == xs;
  }
}
