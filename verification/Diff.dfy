/** The difference between two VM lists as events, and what a subscriber makes of the events. */
module Diff {

  datatype VM = VM(id: string, name: string, state: string)

  datatype Event =
    | VmAdded(id: string, name: string, state: string)
    | VmStateChanged(id: string, name: string, state: string, prevState: string)
    | VmRemoved(id: string, name: string, state: string)
    | DaemonStatus(reachable: bool)
    | Heartbeat

  // ---------------------------------------------------------------- the code

  function ById(vms: seq<VM>): map<string, VM> {
    if vms == [] then map[] else var vm := vms[|vms| - 1]; ById(vms[..|vms| - 1])[vm.id := vm]
  }

  function Change(before: map<string, VM>, vm: VM): seq<Event> {
    if vm.id !in before then [VmAdded(vm.id, vm.name, vm.state)]
    else if before[vm.id].state != vm.state then [VmStateChanged(vm.id, vm.name, vm.state, before[vm.id].state)]
    else []
  }

  function Changes(before: map<string, VM>, cur: seq<VM>): seq<Event> {
    if cur == [] then [] else Changes(before, cur[..|cur| - 1]) + Change(before, cur[|cur| - 1])
  }

  function Removals(after: map<string, VM>, prev: seq<VM>): seq<Event> {
    if prev == [] then []
    else
      var vm := prev[|prev| - 1];
      Removals(after, prev[..|prev| - 1]) + if vm.id in after then [] else [VmRemoved(vm.id, vm.name, vm.state)]
  }

  function Events(prev: seq<VM>, cur: seq<VM>): seq<Event> {
    Changes(ById(prev), cur) + Removals(ById(cur), prev)
  }

  /** The tables and event lists one entry further. */
  lemma Prefixes(table: map<string, VM>, vms: seq<VM>, i: nat)
    requires i < |vms|
    ensures ById(vms[..i + 1]) == ById(vms[..i])[vms[i].id := vms[i]]
    ensures Changes(table, vms[..i + 1]) == Changes(table, vms[..i]) + Change(table, vms[i])
    ensures Removals(table, vms[..i + 1])
         == Removals(table, vms[..i]) +
            if vms[i].id in table then [] else [VmRemoved(vms[i].id, vms[i].name, vms[i].state)]
  {
    assert vms[..i + 1][..i] == vms[..i];
  }

  method DiffVMEvents(prev: seq<VM>, cur: seq<VM>) returns (events: seq<Event>)
    ensures events == Events(prev, cur)
  {
    events := [];
    var prevById: map<string, VM>, curById: map<string, VM> := map[], map[];
    for i := 0 to |prev|
      invariant prevById == ById(prev[..i])
    {
      Prefixes(map[], prev, i);
      prevById := prevById[prev[i].id := prev[i]];
    }
    assert prev[..|prev|] == prev;
    for i := 0 to |cur|
      invariant curById == ById(cur[..i]) && events == Changes(prevById, cur[..i])
    {
      var vm := cur[i];
      Prefixes(prevById, cur, i);
      curById := curById[vm.id := vm];
      if vm.id !in prevById {
        events := events + [VmAdded(vm.id, vm.name, vm.state)];
      } else if prevById[vm.id].state != vm.state {
        events := events + [VmStateChanged(vm.id, vm.name, vm.state, prevById[vm.id].state)];
      }
    }
    assert cur[..|cur|] == cur;
    ghost var changes := events;
    for i := 0 to |prev|
      invariant events == changes + Removals(curById, prev[..i])
    {
      var vm := prev[i];
      Prefixes(curById, prev, i);
      if vm.id !in curById {
        events := events + [VmRemoved(vm.id, vm.name, vm.state)];
      }
    }
  }

  // ---------------------------------------------------------------- what a subscriber knows

  /** The state of every VM by id; the last entry wins, as in the code's tables. */
  type View = map<string, string>

  ghost function States(vms: seq<VM>): View {
    map id | id in ById(vms) :: ById(vms)[id].state
  }

  ghost function Apply(v: View, e: Event): View {
    match e
    case VmAdded(id, _, state) => v[id := state]
    case VmStateChanged(id, _, state, _) => v[id := state]
    case VmRemoved(id, _, _) => v - {id}
    case DaemonStatus(reachable) => if reachable then v else map[]
    case Heartbeat => v
  }

  ghost function ApplyAll(v: View, es: seq<Event>): View {
    if es == [] then v else Apply(ApplyAll(v, es[..|es| - 1]), es[|es| - 1])
  }

  lemma {:induction false} ApplyAllAppend(v: View, a: seq<Event>, b: seq<Event>)
    ensures ApplyAll(v, a + b) == ApplyAll(ApplyAll(v, a), b)
    decreases |b|
  {
    if b == [] {
      assert a + b == a;
    } else {
      assert (a + b)[..|a + b| - 1] == a + b[..|b| - 1];
      ApplyAllAppend(v, a, b[..|b| - 1]);
    }
  }

  // ---------------------------------------------------------------- the events carry the difference

  /** The last state of id in vms that differs from `was`, or `was` if there is none. */
  ghost function LastOther(vms: seq<VM>, id: string, was: string): string {
    if vms == [] then was
    else
      var vm := vms[|vms| - 1];
      if vm.id == id && vm.state != was then vm.state else LastOther(vms[..|vms| - 1], id, was)
  }

  lemma {:induction false} ByIdMeaning(vms: seq<VM>, id: string)
    ensures id in ById(vms) <==> exists i :: 0 <= i < |vms| && vms[i].id == id
    ensures id in ById(vms) ==> ById(vms)[id] in vms && ById(vms)[id].id == id
  {
    if vms != [] {
      var short := vms[..|vms| - 1];
      ByIdMeaning(short, id);
      assert forall i :: 0 <= i < |short| ==> short[i] == vms[i];
    }
  }

  lemma ApplyChange(v: View, before: map<string, VM>, vm: VM)
    ensures ApplyAll(v, Change(before, vm)) == if Change(before, vm) == [] then v else v[vm.id := vm.state]
  {
    var c := Change(before, vm);
    if c != [] {
      assert c[..0] == [] && ApplyAll(v, c) == Apply(v, c[0]);
    }
  }

  /** The state a subscriber has for id after the changes to cur. */
  ghost function Expected(prev: seq<VM>, cur: seq<VM>, id: string): string
    requires id in ById(cur)
  {
    if id in ById(prev) then LastOther(cur, id, States(prev)[id]) else ById(cur)[id].state
  }

  lemma ExpectedStep(prev: seq<VM>, cur: seq<VM>, id: string)
    requires cur != [] && id in ById(cur)
    ensures var short, vm := cur[..|cur| - 1], cur[|cur| - 1];
            Expected(prev, cur, id) ==
              if vm.id == id && Change(ById(prev), vm) != [] then vm.state
              else if id in ById(short) then Expected(prev, short, id)
              else States(prev)[id]
  {
    var short, vm := cur[..|cur| - 1], cur[|cur| - 1];
    if id !in ById(short) && id in ById(prev) {
      NoOther(short, id, States(prev)[id]);
    }
  }

  lemma {:induction false} AfterChanges(prev: seq<VM>, cur: seq<VM>, id: string)
    ensures var v := ApplyAll(States(prev), Changes(ById(prev), cur));
            && (id !in ById(cur) ==> (id in v <==> id in States(prev)) && (id in v ==> v[id] == States(prev)[id]))
            && (id in ById(cur) ==> id in v && v[id] == Expected(prev, cur, id))
    decreases |cur|
  {
    if cur != [] {
      var short, vm := cur[..|cur| - 1], cur[|cur| - 1];
      AfterChanges(prev, short, id);
      ApplyAllAppend(States(prev), Changes(ById(prev), short), Change(ById(prev), vm));
      ApplyChange(ApplyAll(States(prev), Changes(ById(prev), short)), ById(prev), vm);
      if id in ById(cur) {
        ExpectedStep(prev, cur, id);
      }
    }
  }

  lemma {:induction false} NoOther(vms: seq<VM>, id: string, was: string)
    requires id !in ById(vms)
    ensures LastOther(vms, id, was) == was
  {
    if vms != [] {
      NoOther(vms[..|vms| - 1], id, was);
    }
  }

  lemma {:induction false} AfterRemovals(v: View, after: map<string, VM>, prev: seq<VM>, id: string)
    ensures var w := ApplyAll(v, Removals(after, prev));
            && (id in w <==> id in v && (id in after || id !in ById(prev)))
            && (id in w ==> w[id] == v[id])
    decreases |prev|
  {
    if prev != [] {
      var short, vm := prev[..|prev| - 1], prev[|prev| - 1];
      AfterRemovals(v, after, short, id);
      if vm.id !in after {
        var e := VmRemoved(vm.id, vm.name, vm.state);
        ApplyAllAppend(v, Removals(after, short), [e]);
        assert [e][..0] == [];
        var w := ApplyAll(v, Removals(after, short));
        assert ApplyAll(w, [e]) == Apply(w, e);
      } else {
        assert Removals(after, prev) == Removals(after, short);
      }
    }
  }

  ghost predicate SameState(prev: seq<VM>, cur: seq<VM>, id: string) {
    id in States(prev) && id in States(cur) && States(cur)[id] == States(prev)[id]
  }

  /** No VM that keeps its state is listed with another state before. */
  ghost predicate Readable(prev: seq<VM>, cur: seq<VM>) {
    forall i :: 0 <= i < |cur| && SameState(prev, cur, cur[i].id) ==> cur[i].state == States(prev)[cur[i].id]
  }

  lemma {:induction false} LastOtherMeaning(vms: seq<VM>, id: string, was: string)
    requires id in ById(vms)
    ensures ById(vms)[id].state != was ==> LastOther(vms, id, was) == ById(vms)[id].state
    ensures LastOther(vms, id, was) == was <==> forall i :: 0 <= i < |vms| && vms[i].id == id ==> vms[i].state == was
  {
    var short, vm := vms[..|vms| - 1], vms[|vms| - 1];
    assert forall i :: 0 <= i < |short| ==> short[i] == vms[i];
    if id in ById(short) {
      LastOtherMeaning(short, id, was);
    } else {
      ByIdMeaning(short, id);
      NoOther(short, id, was);
    }
  }

  /**
   Folding the events over the view of the old list gives the view of the new list exactly
   when the new list is readable; a list with unique ids always is.
   */
  lemma EventsCarryDifference(prev: seq<VM>, cur: seq<VM>)
    ensures ApplyAll(States(prev), Events(prev, cur)) == States(cur) <==> Readable(prev, cur)
  {
    var v := ApplyAll(States(prev), Changes(ById(prev), cur));
    var w := ApplyAll(States(prev), Events(prev, cur));
    ApplyAllAppend(States(prev), Changes(ById(prev), cur), Removals(ById(cur), prev));
    forall id
      ensures id in w <==> id in States(cur)
      ensures id in w ==> w[id] == Expected(prev, cur, id)
    {
      AfterChanges(prev, cur, id);
      AfterRemovals(v, ById(cur), prev, id);
    }
    if Readable(prev, cur) {
      forall id | id in w ensures w[id] == States(cur)[id] {
        if id in ById(prev) {
          LastOtherMeaning(cur, id, States(prev)[id]);
        }
      }
      assert w == States(cur);
    } else {
      var i :| 0 <= i < |cur| && SameState(prev, cur, cur[i].id) && cur[i].state != States(prev)[cur[i].id];
      ByIdMeaning(cur, cur[i].id);
      LastOtherMeaning(cur, cur[i].id, States(prev)[cur[i].id]);
      assert w[cur[i].id] != States(cur)[cur[i].id];
    }
  }

  ghost predicate UniqueIds(vms: seq<VM>) {
    forall i, j :: 0 <= i < j < |vms| ==> vms[i].id != vms[j].id
  }

  lemma UniqueIsReadable(prev: seq<VM>, cur: seq<VM>)
    requires UniqueIds(cur)
    ensures Readable(prev, cur)
  {
    forall i | 0 <= i < |cur| && SameState(prev, cur, cur[i].id)
      ensures cur[i].state == States(prev)[cur[i].id]
    {
      ByIdMeaning(cur, cur[i].id);
    }
  }

  // ---------------------------------------------------------------- no event is spurious

  /** An event reports a real change between the two lists, with the old state where it has one. */
  ghost predicate Reports(prev: seq<VM>, cur: seq<VM>, e: Event) {
    match e
    case VmAdded(id, name, state) => id !in States(prev) && VM(id, name, state) in cur
    case VmStateChanged(id, name, state, prevState) =>
      id in States(prev) && States(prev)[id] == prevState && prevState != state && VM(id, name, state) in cur
    case VmRemoved(id, name, state) => id !in States(cur) && VM(id, name, state) in prev
    case _ => false
  }

  lemma {:induction false} ChangesReport(prev: seq<VM>, cur: seq<VM>, all: seq<VM>)
    requires forall vm :: vm in cur ==> vm in all
    ensures forall e :: e in Changes(ById(prev), cur) ==> Reports(prev, all, e)
  {
    if cur != [] {
      ChangesReport(prev, cur[..|cur| - 1], all);
      assert cur[|cur| - 1] in cur;
    }
  }

  lemma {:induction false} RemovalsReport(cur: seq<VM>, prev: seq<VM>, all: seq<VM>)
    requires forall vm :: vm in prev ==> vm in all
    ensures forall e :: e in Removals(ById(cur), prev) ==> Reports(all, cur, e)
  {
    if prev != [] {
      RemovalsReport(cur, prev[..|prev| - 1], all);
      assert prev[|prev| - 1] in prev;
    }
  }

  lemma EventsReport(prev: seq<VM>, cur: seq<VM>, e: Event)
    requires e in Events(prev, cur)
    ensures Reports(prev, cur, e)
  {
    ChangesReport(prev, cur, cur);
    RemovalsReport(cur, prev, prev);
  }

  // ---------------------------------------------------------------- and nothing else

  function IdOf(e: Event): string {
    match e
    case VmAdded(id, _, _) => id
    case VmStateChanged(id, _, _, _) => id
    case VmRemoved(id, _, _) => id
    case _ => ""
  }

  ghost predicate OncePerId(es: seq<Event>) {
    forall i, j :: 0 <= i < j < |es| ==> IdOf(es[i]) != IdOf(es[j])
  }

  lemma {:induction false} ChangesOnce(before: map<string, VM>, cur: seq<VM>)
    requires UniqueIds(cur)
    ensures OncePerId(Changes(before, cur))
    ensures forall e :: e in Changes(before, cur) ==> exists vm :: vm in cur && vm.id == IdOf(e)
  {
    if cur != [] {
      var short, vm := cur[..|cur| - 1], cur[|cur| - 1];
      ChangesOnce(before, short);
      forall e | e in Changes(before, short) ensures IdOf(e) != vm.id {
      }
      forall e | e in Changes(before, cur) ensures exists vm :: vm in cur && vm.id == IdOf(e) {
        assert vm in cur && (e in Changes(before, short) || IdOf(e) == vm.id);
      }
    }
  }

  lemma {:induction false} RemovalsOnce(after: map<string, VM>, prev: seq<VM>)
    requires UniqueIds(prev)
    ensures OncePerId(Removals(after, prev))
    ensures forall e :: e in Removals(after, prev) ==> IdOf(e) !in after && exists vm :: vm in prev && vm.id == IdOf(e)
  {
    if prev != [] {
      var short, vm := prev[..|prev| - 1], prev[|prev| - 1];
      RemovalsOnce(after, short);
      forall e | e in Removals(after, short) ensures IdOf(e) != vm.id {
      }
      forall e | e in Removals(after, prev) ensures exists vm :: vm in prev && vm.id == IdOf(e) {
        assert vm in prev && (e in Removals(after, short) || IdOf(e) == vm.id);
      }
    }
  }

  /** With unique ids every VM has at most one event. */
  lemma OneEventPerVm(prev: seq<VM>, cur: seq<VM>)
    requires UniqueIds(prev) && UniqueIds(cur)
    ensures OncePerId(Events(prev, cur))
  {
    ChangesOnce(ById(prev), cur);
    RemovalsOnce(ById(cur), prev);
    forall e | e in Changes(ById(prev), cur) ensures IdOf(e) in ById(cur) {
      ByIdMeaning(cur, IdOf(e));
    }
  }
}
