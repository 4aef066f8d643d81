/**
 compose up and compose down as a journaled saga: what the state file says about the
 daemon's resources when any call may fail, or the process may stop, at any point.
 */
module Saga {
  import opened Text

  datatype Resource = Volume(name: string) | Network(name: string) | Vm(id: nat)

  /** The state file: the VM of each service, and the volumes and networks that were created. */
  datatype Record = Record(services: map<string, nat>, volumes: seq<string>, networks: seq<string>)

  ghost function Recorded(r: Record): set<Resource> {
    (set name | name in r.services :: Vm(r.services[name]))
    + (set name | name in r.volumes :: Volume(name))
    + (set name | name in r.networks :: Network(name))
  }

  ghost function RecordedIn(file: Option<Record>): set<Resource> {
    if file.Some? then Recorded(file.value) else {}
  }

  // ---------------------------------------------------------------- the world outside the process

  /** How an action ends: it works, it is reported as failed, or the process stops during it. */
  datatype Answer = Works | Fails | Stops

  datatype Lookup = Found | NotFound | Trouble | Interrupted

  datatype Removal = Removed | AlreadyGone | StillRunning | RemovalFails | RemovalStops

  const ATTEMPTS: nat := 25

  /** How often `vm` has refused to go in a row, and whether any VM ever did so 25 times. */
  datatype Refusals = Refusals(vm: nat, row: nat, stubborn: bool)

  ghost function Refuse(f: Refusals, x: Resource, r: Removal): Refusals {
    if r.StillRunning? && x.Vm? then
      var row := if f.vm == x.id then f.row + 1 else 1;
      Refusals(x.id, row, f.stubborn || row >= 25)
    else Refusals(f.vm, 0, f.stubborn)
  }

  /** The daemon's resources and the state file. */
  class World {
    var resources: set<Resource>
    var nextId: nat
    var file: Option<Record>
    ghost var newest: set<Resource>    // the resource created last, if any
    ghost var troubled: bool           // some call did not end well
    ghost var refusals: Refusals       // how VMs that are still stopping have answered
    ghost var asked: nat               // how many removals have been asked for
    ghost var told: set<nat>           // the VMs that have been told to stop
    ghost var unsaved: bool            // some write of the state file did not end well

    /** Some call did not end well, or some VM did not stop in time. */
    ghost predicate Hindered()
      reads this
    {
      troubled || refusals.stubborn
    }

    ghost predicate Valid()
      reads this
    {
      (forall x :: x in resources && x.Vm? ==> x.id < nextId) && |newest| <= 1
    }

    /** One action whose effect is none of the model's business. */
    method Try() returns (a: Answer)
      modifies this`troubled
      ensures troubled == (old(troubled) || !a.Works?)
    {
      a := *;
      troubled := troubled || !a.Works?;
    }

    method Get(x: Resource) returns (l: Lookup)
      modifies this`troubled
      ensures l.Found? ==> x in resources
      ensures l.NotFound? ==> x !in resources
      ensures troubled == (old(troubled) || l.Trouble? || l.Interrupted?)
    {
      var a := Try();
      l := match a
           case Works => if x in resources then Found else NotFound
           case Fails => Trouble
           case Stops => Interrupted;
    }

    method Stop(id: nat) returns (a: Answer)
      modifies this`troubled, this`told
      ensures told == old(told) + {id} && troubled == (old(troubled) || !a.Works?)
    {
      told := told + {id};
      a := Try();
    }

    /** Creates x; on a reported failure, and when the process stops, x may exist all the same. */
    method Create(x: Resource) returns (a: Answer)
      requires Valid() && !x.Vm?
      modifies this`resources, this`newest, this`troubled
      ensures Valid() && troubled == (old(troubled) || !a.Works?)
      ensures (resources == old(resources) && newest == old(newest)) ||
              (resources == old(resources) + {x} && newest == {x})
      ensures a.Works? ==> x !in old(resources) && resources == old(resources) + {x}
    {
      var took: bool := *;
      a := *;
      if x in resources && a.Works? {
        a := Fails;
      }
      if x !in resources && (took || a.Works?) {
        resources, newest := resources + {x}, {x};
      }
      troubled := troubled || !a.Works?;
    }

    /** Runs a VM under a new id. */
    method RunVm() returns (a: Answer, id: nat)
      requires Valid()
      modifies this`resources, this`nextId, this`newest, this`troubled
      ensures Valid() && Vm(id) !in old(resources) && troubled == (old(troubled) || !a.Works?)
      ensures (resources == old(resources) && newest == old(newest)) ||
              (resources == old(resources) + {Vm(id)} && newest == {Vm(id)})
      ensures a.Works? ==> resources == old(resources) + {Vm(id)}
    {
      var took: bool := *;
      a, id, nextId := *, nextId, nextId + 1;
      if took || a.Works? {
        resources, newest := resources + {Vm(id)}, {Vm(id)};
      }
      troubled := troubled || !a.Works?;
    }

    /** Removes x; StillRunning is the refusal to remove a VM that has not stopped yet, and no trouble. */
    method Remove(x: Resource) returns (r: Removal)
      requires Valid()
      modifies this`resources, this`troubled, this`refusals, this`asked
      ensures asked == old(asked) + 1
      ensures Valid() && (resources == old(resources) || resources == old(resources) - {x})
      ensures r.Removed? || r.AlreadyGone? ==> x !in resources
      ensures r.AlreadyGone? ==> x !in old(resources)
      ensures r.StillRunning? && x.Vm? ==> resources == old(resources)
      ensures troubled == (old(troubled) || !(r.Removed? || r.AlreadyGone? || (r.StillRunning? && x.Vm?)))
      ensures refusals == Refuse(old(refusals), x, r)
    {
      var took: bool := *;
      r := *;
      if r.AlreadyGone? && x in resources {
        r := RemovalFails;
      }
      if (took && !(r.StillRunning? && x.Vm?)) || r.Removed? {
        resources := resources - {x};
      }
      troubled := troubled || !(r.Removed? || r.AlreadyGone? || (r.StillRunning? && x.Vm?));
      refusals, asked := Refuse(refusals, x, r), asked + 1;
    }

    /** Writes a temporary file and renames it: the state file is the old one or the new one, never half of one. */
    method WriteState(r: Record) returns (a: Answer)
      modifies this`file, this`troubled, this`unsaved
      ensures troubled == (old(troubled) || !a.Works?) && unsaved == (old(unsaved) || !a.Works?)
      ensures file == old(file) || file == Some(r)
      ensures a.Works? ==> file == Some(r)
      ensures a.Fails? ==> file == old(file)
    {
      a := Try();                     // create the temporary file
      if !a.Works? { unsaved := true; return; }
      a := Try();                     // write
      if !a.Works? { unsaved := true; return; }
      a := Try();                     // sync
      if !a.Works? { unsaved := true; return; }
      a := Try();                     // close
      if !a.Works? { unsaved := true; return; }
      a := Try();                     // rename
      var took: bool := *;
      if a.Works? || (a.Stops? && took) {
        file := Some(r);
      }
      unsaved := unsaved || !a.Works?;
    }

    method RemoveState() returns (a: Answer)
      modifies this`file, this`troubled
      ensures troubled == (old(troubled) || !a.Works?)
      ensures file == old(file) || file == None
      ensures a.Works? ==> file == None
      ensures a.Fails? ==> file == old(file)
    {
      a := Try();
      var took: bool := *;
      if a.Works? || (a.Stops? && took) {
        file := None;
      }
    }
  }

  // ---------------------------------------------------------------- up

  datatype VolumePlan = VolumePlan(name: string, external: bool, sizeOk: bool)
  datatype NetworkPlan = NetworkPlan(name: string, external: bool)
  datatype ServicePlan = ServicePlan(name: string, paramsOk: bool, network: Option<string>, addressOk: bool)

  /** Failed: with an error noted. Aborted: the command returns with its error at once. Stopped: the process is gone. */
  datatype Outcome = Succeeded | Failed | Aborted | Stopped

  /**
   Of the resources created since `before`, all but at most the newest are in the record,
   the record names no others, and what was there before is still there.
   */
  ghost predicate Covers(before: set<Resource>, now: set<Resource>, newest: set<Resource>, recorded: set<Resource>) {
    before <= now && recorded <= now - before && now - before - recorded <= newest
  }

  lemma RecordVolume(r: Record, name: string)
    ensures Recorded(r.(volumes := r.volumes + [name])) == Recorded(r) + {Volume(name)}
  {
  }

  lemma RecordNetwork(r: Record, name: string)
    ensures Recorded(r.(networks := r.networks + [name])) == Recorded(r) + {Network(name)}
  {
  }

  lemma RecordService(r: Record, name: string, id: nat)
    requires name !in r.services
    ensures Recorded(r.(services := r.services[name := id])) == Recorded(r) + {Vm(id)}
  {
    var s := r.(services := r.services[name := id]);
    forall x | x in Recorded(r) ensures x in Recorded(s) {
      if x.Vm? {
        var n :| n in r.services && x == Vm(r.services[n]);
        assert n in s.services && s.services[n] == r.services[n];
      }
    }
    assert name in s.services;
  }

  /** Between two steps of `up` the record, in memory and in the file, is exactly what was created. */
  ghost predicate Settled(w: World, before: set<Resource>, r: Record)
    reads w
  {
    w.Valid() && before <= w.resources && Recorded(r) == w.resources - before && w.file == Some(r)
  }

  /** When a step of `up` ends: the file covers what was created, and unless the process stopped so does memory. */
  ghost predicate Ended(w: World, before: set<Resource>, r: Record, o: Outcome)
    reads w
  {
    && w.Valid() && !o.Aborted? && Covers(before, w.resources, w.newest, RecordedIn(w.file))
    && (o.Succeeded? ==> Settled(w, before, r))
    && (o.Failed? ==> Covers(before, w.resources, w.newest, Recorded(r)))
  }

  /** Creates one volume or network and records it. */
  method CreateAndRecord(w: World, x: Resource, r: Record, ghost before: set<Resource>) returns (o: Outcome, s: Record)
    requires !x.Vm? && Settled(w, before, r)
    modifies w
    ensures Ended(w, before, s, o) && old(w.resources) <= w.resources && (old(w.troubled) ==> w.troubled)
    ensures w.resources == old(w.resources) || w.resources == old(w.resources) + {x}
    ensures o.Succeeded? ==> x in w.resources
    ensures o.Succeeded? || w.troubled
    ensures s.services == r.services
    ensures o.Succeeded? && w.unsaved ==> old(w.unsaved)
  {
    s := r;
    var a := w.Create(x);
    if a.Stops? { return Stopped, s; }
    if a.Fails? { return Failed, s; }
    match x {
      case Volume(name) => s := r.(volumes := r.volumes + [name]); RecordVolume(r, name);
      case Network(name) => s := r.(networks := r.networks + [name]); RecordNetwork(r, name);
    }
    a := w.WriteState(s);
    o := match a case Works => Succeeded case Fails => Failed case Stops => Stopped;
  }

  /** Every volume is there already, or may be created. */
  ghost predicate VolumesFit(have: set<Resource>, volumes: seq<VolumePlan>) {
    forall i :: 0 <= i < |volumes| ==> Volume(volumes[i].name) in have || (!volumes[i].external && volumes[i].sizeOk)
  }

  ghost predicate NetworksFit(have: set<Resource>, networks: seq<NetworkPlan>) {
    forall i :: 0 <= i < |networks| ==> Network(networks[i].name) in have || !networks[i].external
  }

  /** x is a volume that the plan says to create. */
  ghost predicate VolumePlanned(volumes: seq<VolumePlan>, x: Resource) {
    x.Volume? && exists i :: 0 <= i < |volumes| && volumes[i] == VolumePlan(x.name, false, true)
  }

  ghost predicate NetworkPlanned(networks: seq<NetworkPlan>, x: Resource) {
    x.Network? && exists i :: 0 <= i < |networks| && networks[i] == NetworkPlan(x.name, false)
  }

  /** Every service's parameters are good, its network is there, and its address lies in it. */
  ghost predicate ServicesFit(have: set<Resource>, services: seq<ServicePlan>) {
    forall i :: 0 <= i < |services| ==> ServiceFits(have, services[i])
  }

  predicate ServiceFits(have: set<Resource>, svc: ServicePlan) {
    svc.paramsOk && (svc.network.Some? ==> svc.addressOk && Network(svc.network.value) in have)
  }

  /** The volumes of the compose file, in whatever order its table is walked. */
  method CreateVolumes(w: World, volumes: seq<VolumePlan>, r: Record, ghost before: set<Resource>)
    returns (o: Outcome, s: Record)
    requires Settled(w, before, r)
    modifies w
    ensures Ended(w, before, s, o) && s.services == r.services && old(w.resources) <= w.resources
    ensures o.Succeeded? ==> forall i :: 0 <= i < |volumes| ==> Volume(volumes[i].name) in w.resources
    ensures forall x :: x in w.resources && x !in old(w.resources) ==> VolumePlanned(volumes, x)
    ensures (old(w.troubled) ==> w.troubled) && (VolumesFit(old(w.resources), volumes) ==> o.Succeeded? || w.troubled)
    ensures o.Succeeded? && w.unsaved ==> old(w.unsaved)
  {
    s, o := r, Succeeded;
    for i := 0 to |volumes|
      invariant w.unsaved ==> old(w.unsaved)
      invariant o.Succeeded? && Settled(w, before, s) && s.services == r.services && old(w.resources) <= w.resources
      invariant old(w.troubled) ==> w.troubled
      invariant forall k :: 0 <= k < i ==> Volume(volumes[k].name) in w.resources
      invariant forall x :: x in w.resources && x !in old(w.resources) ==> VolumePlanned(volumes, x)
    {
      var v := volumes[i];
      var l := w.Get(Volume(v.name));
      if l.Interrupted? { return Stopped, s; }
      if l.Trouble? || (v.external && l.NotFound?) { return Failed, s; }
      if l.NotFound? {
        if !v.sizeOk { return Failed, s; }
        assert v == VolumePlan(v.name, false, true) && VolumePlanned(volumes, Volume(v.name));
        o, s := CreateAndRecord(w, Volume(v.name), s, before);
        if !o.Succeeded? { return; }
      }
    }
  }

  method CreateNetworks(w: World, networks: seq<NetworkPlan>, r: Record, ghost before: set<Resource>)
    returns (o: Outcome, s: Record)
    requires Settled(w, before, r)
    modifies w
    ensures Ended(w, before, s, o) && s.services == r.services && old(w.resources) <= w.resources
    ensures o.Succeeded? ==> forall i :: 0 <= i < |networks| ==> Network(networks[i].name) in w.resources
    ensures forall x :: x in w.resources && x !in old(w.resources) ==> NetworkPlanned(networks, x)
    ensures (old(w.troubled) ==> w.troubled) && (NetworksFit(old(w.resources), networks) ==> o.Succeeded? || w.troubled)
    ensures o.Succeeded? && w.unsaved ==> old(w.unsaved)
  {
    s, o := r, Succeeded;
    for i := 0 to |networks|
      invariant w.unsaved ==> old(w.unsaved)
      invariant o.Succeeded? && Settled(w, before, s) && s.services == r.services && old(w.resources) <= w.resources
      invariant old(w.troubled) ==> w.troubled
      invariant forall k :: 0 <= k < i ==> Network(networks[k].name) in w.resources
      invariant forall x :: x in w.resources && x !in old(w.resources) ==> NetworkPlanned(networks, x)
    {
      var n := networks[i];
      var l := w.Get(Network(n.name));
      if l.Interrupted? { return Stopped, s; }
      if !l.Found? {
        if n.external { return Failed, s; }
        assert n == NetworkPlan(n.name, false) && NetworkPlanned(networks, Network(n.name));
        o, s := CreateAndRecord(w, Network(n.name), s, before);
        if !o.Succeeded? { return; }
      }
    }
  }

  /** Runs a VM and records it under a service's name. */
  method RunAndRecord(w: World, name: string, r: Record, ghost before: set<Resource>)
    returns (o: Outcome, s: Record)
    requires Settled(w, before, r) && name !in r.services
    modifies w
    ensures Ended(w, before, s, o) && old(w.resources) <= w.resources
    ensures o.Succeeded? ==> name in s.services && s.services == r.services[name := s.services[name]]
    ensures (old(w.troubled) ==> w.troubled) && (o.Succeeded? || w.troubled)
    ensures forall x :: x in w.resources && x !in old(w.resources) ==> x.Vm?
    ensures o.Succeeded? && w.unsaved ==> old(w.unsaved)
  {
    s := r;
    var a, id := w.RunVm();
    if a.Stops? { return Stopped, s; }
    if a.Fails? { return Failed, s; }
    s := r.(services := r.services[name := id]);
    RecordService(r, name, id);
    a := w.WriteState(s);
    o := match a case Works => Succeeded case Fails => Failed case Stops => Stopped;
  }

  /** Checks one service's plan, then runs its VM and records it. */
  method StartService(w: World, svc: ServicePlan, r: Record, ghost before: set<Resource>)
    returns (o: Outcome, s: Record)
    requires Settled(w, before, r) && svc.name !in r.services
    modifies w
    ensures Ended(w, before, s, o) && old(w.resources) <= w.resources
    ensures o.Succeeded? ==> svc.name in s.services && s.services == r.services[svc.name := s.services[svc.name]]
    ensures (old(w.troubled) ==> w.troubled) && (ServiceFits(old(w.resources), svc) ==> o.Succeeded? || w.troubled)
    ensures forall x :: x in w.resources && x !in old(w.resources) ==> x.Vm?
    ensures o.Succeeded? ==> ServiceFits(old(w.resources), svc)
    ensures o.Succeeded? && w.unsaved ==> old(w.unsaved)
  {
    if !svc.paramsOk { return Failed, r; }
    if svc.network.Some? {
      var l := w.Get(Network(svc.network.value));
      if l.Interrupted? { return Stopped, r; }
      if !l.Found? || !svc.addressOk { return Failed, r; }
    }
    o, s := RunAndRecord(w, svc.name, r, before);
  }

  ghost predicate DistinctNames(services: seq<ServicePlan>) {
    forall i, j :: 0 <= i < j < |services| ==> services[i].name != services[j].name
  }

  method StartServices(w: World, services: seq<ServicePlan>, r: Record, ghost before: set<Resource>)
    returns (o: Outcome, s: Record)
    requires Settled(w, before, r) && r.services == map[] && DistinctNames(services)
    modifies w
    ensures Ended(w, before, s, o) && old(w.resources) <= w.resources
    ensures o.Succeeded? ==> forall i :: 0 <= i < |services| ==> services[i].name in s.services
    ensures (old(w.troubled) ==> w.troubled) && (ServicesFit(old(w.resources), services) ==> o.Succeeded? || w.troubled)
    ensures forall x :: x in w.resources && x !in old(w.resources) ==> x.Vm?
    ensures o.Succeeded? ==> ServicesFit(old(w.resources), services)
    ensures o.Succeeded? && w.unsaved ==> old(w.unsaved)
  {
    s, o := r, Succeeded;
    for i := 0 to |services|
      invariant w.unsaved ==> old(w.unsaved)
      invariant o.Succeeded? && Settled(w, before, s) && old(w.resources) <= w.resources &&
                (old(w.troubled) ==> w.troubled)
      invariant forall k :: 0 <= k < i ==> services[k].name in s.services
      invariant forall k :: i <= k < |services| ==> services[k].name !in s.services
      invariant forall x :: x in w.resources && x !in old(w.resources) ==> x.Vm?
      invariant forall k :: 0 <= k < i ==> ServiceFits(old(w.resources), services[k])
    {
      o, s := StartService(w, services[i], s, before);
      if !o.Succeeded? { return; }
    }
  }

  const EMPTY := Record(map[], [], [])

  lemma EmptyRecord()
    ensures Recorded(EMPTY) == {} && RecordedIn(Some(EMPTY)) == {}
  {
  }

  method UpSteps(w: World, volumes: seq<VolumePlan>, networks: seq<NetworkPlan>, services: seq<ServicePlan>,
                 ghost before: set<Resource>)
    returns (o: Outcome, s: Record)
    requires Settled(w, before, EMPTY) && DistinctNames(services)
    modifies w
    ensures Ended(w, before, s, o)
    ensures o.Succeeded? ==> AllThere(w.resources, s, volumes, networks, services)
    ensures (old(w.troubled) ==> w.troubled) &&
            (PlanFits(old(w.resources), volumes, networks, services) ==> o.Succeeded? || w.troubled)
    ensures forall x :: x in w.resources && x !in old(w.resources) ==> Planned(volumes, networks, x)
    ensures o.Succeeded? ==> ServicesFit(w.resources, services)
    ensures o.Succeeded? && w.unsaved ==> old(w.unsaved)
  {
    o, s := CreateVolumes(w, volumes, EMPTY, before);
    if !o.Succeeded? { return; }
    o, s := CreateNetworks(w, networks, s, before);
    if !o.Succeeded? { return; }
    o, s := StartServices(w, services, s, before);
  }

  /** Nothing in the compose file itself stands in the way, given the resources that exist already. */
  ghost predicate PlanFits(have: set<Resource>, volumes: seq<VolumePlan>, networks: seq<NetworkPlan>,
                           services: seq<ServicePlan>)
  {
    && VolumesFit(have, volumes)
    && NetworksFit(have, networks)
    && ServicesFit(have + (set i | 0 <= i < |networks| :: Network(networks[i].name)), services)
  }

  /** What a run of `up` may create. */
  ghost predicate Planned(volumes: seq<VolumePlan>, networks: seq<NetworkPlan>, x: Resource) {
    x.Vm? || VolumePlanned(volumes, x) || NetworkPlanned(networks, x)
  }

  ghost predicate DistinctPlans(volumes: seq<VolumePlan>, networks: seq<NetworkPlan>) {
    && (forall i, j :: 0 <= i < j < |volumes| ==> volumes[i].name != volumes[j].name)
    && (forall i, j :: 0 <= i < j < |networks| ==> networks[i].name != networks[j].name)
  }

  /** If everything is there in the end and only what was planned has been created, the plan fitted. */
  lemma PlanFitted(have: set<Resource>, now: set<Resource>, volumes: seq<VolumePlan>, networks: seq<NetworkPlan>,
                   services: seq<ServicePlan>)
    requires DistinctPlans(volumes, networks)
    requires forall x :: x in now && x !in have ==> Planned(volumes, networks, x)
    requires forall i :: 0 <= i < |volumes| ==> Volume(volumes[i].name) in now
    requires forall i :: 0 <= i < |networks| ==> Network(networks[i].name) in now
    requires ServicesFit(now, services)
    ensures PlanFits(have, volumes, networks, services)
  {
  }

  ghost predicate AllThere(now: set<Resource>, r: Record, volumes: seq<VolumePlan>, networks: seq<NetworkPlan>,
                           services: seq<ServicePlan>)
  {
    && (forall i :: 0 <= i < |volumes| ==> Volume(volumes[i].name) in now)
    && (forall i :: 0 <= i < |networks| ==> Network(networks[i].name) in now)
    && (forall i :: 0 <= i < |services| ==> services[i].name in r.services)
  }

  /**
   Brings a project up. However it ends, the state file covers what this run created but
   for at most the newest resource; if it succeeds, all of it.
   */
  method Up(w: World, volumes: seq<VolumePlan>, networks: seq<NetworkPlan>, services: seq<ServicePlan>)
    returns (o: Outcome)
    requires w.Valid() && DistinctNames(services)
    modifies w
    ensures w.Valid()
    ensures old(w.file).Some? ==> w.file == old(w.file) && w.resources == old(w.resources) && !o.Succeeded?
    ensures old(w.file).None? ==> Covers(old(w.resources), w.resources, w.newest, RecordedIn(w.file))
    ensures o.Succeeded? ==> w.file.Some? && RecordedIn(w.file) == w.resources - old(w.resources)
    ensures o.Succeeded? ==> AllThere(w.resources, w.file.value, volumes, networks, services)
    ensures old(w.file).None? && PlanFits(old(w.resources), volumes, networks, services) ==> o.Succeeded? || w.troubled
    ensures forall x :: x in w.resources && x !in old(w.resources) ==> Planned(volumes, networks, x)
    ensures o.Succeeded? && DistinctPlans(volumes, networks) ==> PlanFits(old(w.resources), volumes, networks, services)
    ensures o.Succeeded? && w.unsaved ==> old(w.unsaved)
  {
    if w.file.Some? { return Failed; }
    var a := w.WriteState(EMPTY);
    EmptyRecord();
    if a.Stops? { return Stopped; }
    if a.Fails? { return Failed; }
    ghost var before := w.resources;
    var s;
    o, s := UpSteps(w, volumes, networks, services, before);
    if o.Succeeded? && DistinctPlans(volumes, networks) {
      PlanFitted(before, w.resources, volumes, networks, services);
    }
    if o.Stopped? { return; }
    if o.Succeeded? {
      a := w.WriteState(s);
      if a.Stops? { return Stopped; }
      if a.Fails? { o := Failed; }
    }
    a := w.WriteState(s);             // the deferred write
    if a.Stops? { return Stopped; }
    if a.Fails? { return Failed; }
  }

  // ---------------------------------------------------------------- down

  /**
   The world during `down` of a project whose file said `all`, with r in memory: nothing but
   recorded resources has been removed, and whatever of `all` still exists is in r.
   */
  ghost predicate KeepsTrack(all: set<Resource>, was: set<Resource>, now: set<Resource>, recorded: set<Resource>) {
    now <= was && was - now <= all && recorded <= all && all * now <= recorded
  }

  /** Removing one recorded resource, and then forgetting it, keeps track. */
  lemma TrackRemoval(all: set<Resource>, was: set<Resource>, now: set<Resource>, x: Resource, recorded: set<Resource>,
                     rest: set<Resource>)
    requires KeepsTrack(all, was, now, recorded) && x in all
    requires recorded - {x} <= rest <= recorded
    ensures KeepsTrack(all, was, now - {x}, recorded)
    ensures KeepsTrack(all, was, now - {x}, rest)
    ensures x !in now ==> KeepsTrack(all, was, now, rest)
  {
  }

  /** Removes a VM, retrying while it is still stopping: this fails only after ATTEMPTS refusals or on an error. */
  method RemoveWhenStopped(w: World, id: nat) returns (o: Outcome)
    requires w.Valid()
    modifies w`resources, w`troubled, w`refusals, w`asked
    ensures w.Valid() && (w.resources == old(w.resources) || w.resources == old(w.resources) - {Vm(id)})
    ensures !o.Aborted? && (o.Succeeded? ==> Vm(id) !in w.resources) && w.asked <= old(w.asked) + 25
    ensures (old(w.Hindered()) ==> w.Hindered()) && (Vm(id) in old(w.resources) ==> o.Succeeded? || w.Hindered())
  {
    for i := 0 to ATTEMPTS
      invariant w.Valid() && w.resources == old(w.resources) && (old(w.Hindered()) ==> w.Hindered())
      invariant (i == 0 || (w.refusals.vm == id && w.refusals.row >= i)) && w.asked == old(w.asked) + i
      invariant i == ATTEMPTS ==> w.refusals.stubborn
    {
      var r := w.Remove(Vm(id));
      match r
      case Removed => return Succeeded;
      case RemovalStops => return Stopped;
      case StillRunning =>
      case _ => return Failed;
    }
    o := Failed;
  }

  /** Gets rid of one service's VM, if it exists. */
  method StopService(w: World, id: nat) returns (o: Outcome)
    requires w.Valid()
    modifies w`resources, w`troubled, w`refusals, w`asked, w`told
    ensures w.Valid() && (w.resources == old(w.resources) || w.resources == old(w.resources) - {Vm(id)})
    ensures !o.Aborted? && (o.Succeeded? ==> Vm(id) !in w.resources)
    ensures (old(w.Hindered()) ==> w.Hindered()) && (o.Succeeded? || w.Hindered())
    ensures Vm(id) in old(w.resources) && Vm(id) !in w.resources ==> id in w.told
  {
    var l := w.Get(Vm(id));
    match l
    case Interrupted => return Stopped;
    case Trouble => return Failed;
    case NotFound => return Succeeded;
    case Found =>
      var a := w.Stop(id);
      if a.Stops? { return Stopped; }
      if a.Fails? { return Failed; }
      o := RemoveWhenStopped(w, id);
  }

  lemma ForgetService(r: Record, name: string)
    requires name in r.services
    ensures Recorded(r) - {Vm(r.services[name])} <= Recorded(r.(services := r.services - {name})) <= Recorded(r)
  {
    var s := r.(services := r.services - {name});
    forall x | x in Recorded(r) && x != Vm(r.services[name]) ensures x in Recorded(s) {
      if x.Vm? {
        var n :| n in r.services && x == Vm(r.services[n]);
        assert n in s.services && s.services[n] == r.services[n];
      }
    }
    forall x | x in Recorded(s) ensures x in Recorded(r) {
      if x.Vm? {
        var n :| n in s.services && x == Vm(s.services[n]);
        assert n in r.services && r.services[n] == s.services[n];
      }
    }
  }

  method StopServices(w: World, r: Record, ghost all: set<Resource>, ghost was: set<Resource>)
    returns (o: Outcome, s: Record)
    requires w.Valid() && w.file == Some(r) && Recorded(r) == all && w.resources == was
    modifies w
    ensures w.Valid() && w.file.Some? && KeepsTrack(all, was, w.resources, Recorded(w.file.value))
    ensures KeepsTrack(all, was, w.resources, Recorded(s))
    ensures s.volumes == r.volumes && s.networks == r.networks
    ensures o.Succeeded? ==> s.services == map[]
    ensures forall x :: x in was && !x.Vm? ==> x in w.resources
    ensures (old(w.Hindered()) ==> w.Hindered()) && (o.Succeeded? || w.Hindered())
    ensures o.Succeeded? && w.unsaved ==> old(w.unsaved)
  {
    s, o := r, Succeeded;
    var todo := s.services.Keys;
    while todo != {}
      invariant w.unsaved ==> old(w.unsaved)
      invariant w.Valid() && w.file.Some? && KeepsTrack(all, was, w.resources, Recorded(w.file.value))
      invariant KeepsTrack(all, was, w.resources, Recorded(s))
      invariant s.volumes == r.volumes && s.networks == r.networks
      invariant (old(w.Hindered()) ==> w.Hindered()) && (o.Succeeded? || w.Hindered())
      invariant todo <= s.services.Keys && (o.Succeeded? || o.Failed?) && (o.Succeeded? ==> todo == s.services.Keys)
      invariant forall x :: x in was && !x.Vm? ==> x in w.resources
      decreases todo
    {
      var name :| name in todo;
      todo := todo - {name};
      ghost var now, x := w.resources, Vm(s.services[name]);
      assert x in all;
      ForgetService(s, name);
      TrackRemoval(all, was, now, x, Recorded(s), Recorded(s.(services := s.services - {name})));
      TrackRemoval(all, was, now, x, Recorded(w.file.value), Recorded(w.file.value));
      var gone := StopService(w, s.services[name]);
      if gone.Stopped? { return Stopped, s; }
      if gone.Failed? {
        o := Failed;
        continue;
      }
      s := s.(services := s.services - {name});
      var a := w.WriteState(s);
      if a.Stops? { return Stopped, s; }
      if a.Fails? { return Aborted, s; }
    }
  }

  function Named(volumes: bool, name: string): Resource {
    if volumes then Volume(name) else Network(name)
  }

  ghost function NamedAll(volumes: bool, names: seq<string>): set<Resource> {
    set name | name in names :: Named(volumes, name)
  }

  /** Removes the named volumes, or networks; returns the names of those that are to stay recorded. */
  method RemoveListed(w: World, volumes: bool, names: seq<string>) returns (o: Outcome, remaining: seq<string>)
    requires w.Valid()
    modifies w`resources, w`troubled, w`refusals, w`asked
    ensures (old(w.Hindered()) ==> w.Hindered()) && (o.Succeeded? || w.Hindered())
    ensures w.Valid() && w.resources <= old(w.resources)
    ensures old(w.resources) - w.resources <= NamedAll(volumes, names)
    ensures forall name :: name in remaining ==> name in names
    ensures !o.Stopped? ==> forall name :: name in names && Named(volumes, name) in w.resources ==> name in remaining
    ensures o.Succeeded? ==> remaining == []
    ensures !o.Aborted?
  {
    o, remaining := Succeeded, [];
    for i := 0 to |names|
      invariant w.Valid() && w.resources <= old(w.resources) && (o.Succeeded? || o.Failed?)
      invariant (old(w.Hindered()) ==> w.Hindered()) && (o.Succeeded? || w.Hindered())
      invariant old(w.resources) - w.resources <= NamedAll(volumes, names)
      invariant forall name :: name in remaining ==> name in names
      invariant forall k :: 0 <= k < i && Named(volumes, names[k]) in w.resources ==> names[k] in remaining
      invariant o.Succeeded? ==> remaining == []
    {
      var name := names[i];
      assert Named(volumes, name) in NamedAll(volumes, names);
      var r := w.Remove(Named(volumes, name));
      match r
      case Removed =>
      case AlreadyGone =>
      case RemovalStops => return Stopped, remaining;
      case _ =>
        remaining := remaining + [name];
        o := Failed;
    }
  }

  lemma ForgetListed(r: Record, volumes: bool, remaining: seq<string>, now: set<Resource>)
    requires forall name :: name in remaining ==> name in (if volumes then r.volumes else r.networks)
    requires forall name :: name in (if volumes then r.volumes else r.networks) && Named(volumes, name) in now ==>
             name in remaining
    ensures var s := if volumes then r.(volumes := remaining) else r.(networks := remaining);
            Recorded(s) <= Recorded(r) && Recorded(r) * now <= Recorded(s)
  {
  }

  /** One of the two removal loops of `down`, with the record in memory kept up to date. */
  method RemoveKind(w: World, volumes: bool, r: Record, ghost all: set<Resource>, ghost was: set<Resource>)
    returns (o: Outcome, s: Record)
    requires w.Valid() && w.file.Some? && KeepsTrack(all, was, w.resources, Recorded(w.file.value))
    requires KeepsTrack(all, was, w.resources, Recorded(r))
    modifies w`resources, w`troubled, w`refusals, w`asked
    ensures (old(w.Hindered()) ==> w.Hindered()) && (o.Succeeded? || w.Hindered())
    ensures w.Valid() && KeepsTrack(all, was, w.resources, Recorded(w.file.value))
    ensures !o.Aborted? && (!o.Stopped? ==> KeepsTrack(all, was, w.resources, Recorded(s)))
    ensures s.services == r.services && (volumes ==> s.networks == r.networks) && (!volumes ==> s.volumes == r.volumes)
    ensures o.Succeeded? ==> (if volumes then s.volumes else s.networks) == []
    ensures forall x :: x in old(w.resources) && x.Volume? != volumes ==> x in w.resources
  {
    var remaining;
    var names := if volumes then r.volumes else r.networks;
    o, remaining := RemoveListed(w, volumes, names);
    s := r;
    assert NamedAll(volumes, names) <= Recorded(r);
    assert forall x :: x in NamedAll(volumes, names) ==> x.Volume? == volumes;
    if o.Stopped? { return; }
    ForgetListed(r, volumes, remaining, w.resources);
    s := if volumes then r.(volumes := remaining) else r.(networks := remaining);
  }

  /**
   Takes a project down. Until the state file is removed it names everything it named that
   still exists. It is removed only when no recorded VM or network is left, nor a recorded
   volume if volumes were to be removed; otherwise the volumes are as they were.
   */
  method Down(w: World, removeVolumes: bool) returns (o: Outcome)
    requires w.Valid()
    modifies w
    ensures w.Valid()
    ensures old(w.file).None? ==> w.resources == old(w.resources) && w.file.None?
    ensures w.file.Some? ==> KeepsTrack(RecordedIn(old(w.file)), old(w.resources), w.resources, RecordedIn(w.file))
    ensures w.resources <= old(w.resources) && old(w.resources) - w.resources <= RecordedIn(old(w.file))
    ensures w.file.None? ==> forall x :: x in RecordedIn(old(w.file)) ==>
              (x in w.resources <==> x.Volume? && !removeVolumes && x in old(w.resources))
    ensures !removeVolumes ==> forall x :: x in old(w.resources) && x.Volume? ==> x in w.resources
    ensures o.Succeeded? ==> w.file.None?
    ensures o.Succeeded? || w.Hindered()
    ensures o.Succeeded? && w.unsaved ==> old(w.unsaved)
  {
    if w.file.None? { return Succeeded; }
    var r := w.file.value;
    ghost var all, was := Recorded(r), w.resources;
    var s;
    o, s := StopServices(w, r, all, was);
    if o.Stopped? || o.Aborted? { return; }
    if removeVolumes {
      var p;
      p, s := RemoveKind(w, true, s, all, was);
      if p.Stopped? { return Stopped; }
      o := if o.Succeeded? then p else o;
    }
    var p;
    p, s := RemoveKind(w, false, s, all, was);
    if p.Stopped? { return Stopped; }
    o := if o.Succeeded? then p else o;
    var a := w.WriteState(s);
    if a.Stops? { return Stopped; }
    if a.Fails? { return Aborted; }
    if o.Failed? { return; }
    a := w.RemoveState();
    o := match a case Works => Succeeded case Fails => Failed case Stops => Stopped;
  }

  // ---------------------------------------------------------------- a project's whole life

  lemma {:induction false} SubsetSize(a: set<Resource>, b: set<Resource>)
    requires a <= b
    ensures |a| <= |b|
  {
    if a != {} {
      var x :| x in a;
      SubsetSize(a - {x}, b - {x});
    }
  }

  /**
   One `up` and then any number of `down --volumes`, each of them possibly failing or cut
   short: when one succeeds, of all that was created at most the newest resource is left,
   and nothing else was touched. The last one succeeds unless it was itself hindered.
   */
  method UpThenDown(w: World, volumes: seq<VolumePlan>, networks: seq<NetworkPlan>, services: seq<ServicePlan>,
                    tries: nat)
    returns (o: Outcome, ghost unrecorded: set<Resource>)
    requires w.Valid() && w.file.None? && DistinctNames(services)
    modifies w
    ensures w.Valid() && old(w.resources) <= w.resources
    ensures |unrecorded| <= 1 && w.resources - old(w.resources) - RecordedIn(w.file) <= unrecorded
    ensures o.Succeeded? ==> w.resources - old(w.resources) <= unrecorded
    ensures tries > 0 ==> o.Succeeded? || w.Hindered()
  {
    ghost var before := w.resources;
    var up := Up(w, volumes, networks, services);
    unrecorded := w.resources - before - RecordedIn(w.file);
    SubsetSize(unrecorded, w.newest);
    o := Failed;
    for i := 0 to tries
      invariant w.Valid() && before <= w.resources
      invariant RecordedIn(w.file) !! before && w.resources - before - RecordedIn(w.file) <= unrecorded
      invariant o.Succeeded? ==> w.file.None?
      invariant i > 0 ==> o.Succeeded? || w.Hindered()
    {
      w.troubled, w.refusals := false, Refusals(0, 0, false);    // a new command
      o := Down(w, true);
    }
  }
}
