/**
 Scoping the networks and volumes a compose file owns to its project: a renaming in place,
 in whatever order the tables are walked.
 */
module Scope {
  import opened Text

  /** A declared network or volume. */
  datatype Definition = Definition(external: bool, body: string)

  type Table = map<string, Definition>

  datatype Service = Service(networks: seq<string>, volumes: seq<string>)

  datatype File = File(networks: Table, volumes: Table, services: map<string, Service>)

  // ---------------------------------------------------------------- renaming one table

  predicate Owned(t: Table, name: string) {
    name in t && !t[name].external
  }

  function NewName(t: Table, prefix: string, name: string): string {
    if Owned(t, name) then prefix + name else name
  }

  /** Every owned name, once, in any order. */
  ghost predicate IsOrder(t: Table, order: seq<string>) {
    && (forall i, j :: 0 <= i < j < |order| ==> order[i] != order[j])
    && (forall name :: name in order <==> Owned(t, name))
  }

  /** The table after the names of `order` have been moved, one after the other. */
  ghost function Moved(t: Table, prefix: string, order: seq<string>): Table {
    if order == [] then t
    else
      var u, from := Moved(t, prefix, order[..|order| - 1]), order[|order| - 1];
      if from in u then u[prefix + from := u[from]] - {from} else u
  }

  method MoveAll(t: Table, prefix: string, order: seq<string>) returns (u: Table)
    requires prefix != "" && IsOrder(t, order)
    ensures u == Moved(t, prefix, order)
  {
    u := t;
    for i := 0 to |order|
      invariant u == Moved(t, prefix, order[..i])
    {
      assert order[..i + 1][..i] == order[..i];
      StillThere(t, prefix, order[..i], order[i]);
      u := u[prefix + order[i] := u[order[i]]];
      u := u - {order[i]};
    }
    assert order[..|order|] == order;
  }

  /** A name that has not been moved yet is still in the table, and what stands there is owned. */
  lemma {:induction false} StillThere(t: Table, prefix: string, order: seq<string>, name: string)
    requires Owned(t, name) && name !in order
    requires forall n :: n in order ==> Owned(t, n)
    requires forall i, j :: 0 <= i < j < |order| ==> order[i] != order[j]
    ensures name in Moved(t, prefix, order) && !Moved(t, prefix, order)[name].external
  {
    if order != [] {
      var short, from := order[..|order| - 1], order[|order| - 1];
      assert from in order && from !in short;
      StillThere(t, prefix, short, name);
      StillThere(t, prefix, short, from);
    }
  }

  // ---------------------------------------------------------------- when every reference keeps its meaning

  /** Under its new name every declaration is what it was. */
  ghost predicate Faithful(t: Table, prefix: string, u: Table) {
    forall name :: name in t ==> NewName(t, prefix, name) in u && u[NewName(t, prefix, name)] == t[name]
  }

  /** No declared name is the scoped form of an owned one. */
  ghost predicate NoClash(t: Table, prefix: string) {
    forall name :: Owned(t, name) ==> prefix + name !in t
  }

  lemma PrefixCancels(prefix: string, a: string, b: string)
    requires prefix + a == prefix + b
    ensures a == b
  {
    assert (prefix + a)[|prefix|..] == a && (prefix + b)[|prefix|..] == b;
  }

  /** Without a clash, part of the renaming moves exactly the names it has got to. */
  lemma {:induction false} MovedMeaning(t: Table, prefix: string, order: seq<string>, name: string)
    requires NoClash(t, prefix) && name in t
    requires forall n :: n in order ==> Owned(t, n)
    requires forall i, j :: 0 <= i < j < |order| ==> order[i] != order[j]
    ensures var u, now := Moved(t, prefix, order), if name in order then prefix + name else name;
            now in u && u[now] == t[name] && (name in order ==> name !in u)
  {
    if order != [] {
      var short, from := order[..|order| - 1], order[|order| - 1];
      assert from in order && from !in short;
      MovedMeaning(t, prefix, short, name);
      MovedMeaning(t, prefix, short, from);
      if name in short {
        assert name in order;
        if prefix + name == prefix + from {
          PrefixCancels(prefix, name, from);
        }
      }
    }
  }

  lemma {:induction false} MovedNothingElse(t: Table, prefix: string, order: seq<string>, key: string)
    requires key in Moved(t, prefix, order)
    ensures key in t || exists n :: n in order && key == prefix + n
  {
    if order != [] {
      var short, from := order[..|order| - 1], order[|order| - 1];
      if key in Moved(t, prefix, short) {
        MovedNothingElse(t, prefix, short, key);
        if exists n :: n in short && key == prefix + n {
          var n :| n in short && key == prefix + n;
          assert n in order;
        }
      } else {
        assert from in order;
      }
    }
  }

  /** Without a clash the result does not depend on the order, no two names meet, and nothing is added. */
  lemma OrderDoesNotMatter(t: Table, prefix: string, a: seq<string>, b: seq<string>)
    requires NoClash(t, prefix) && IsOrder(t, a) && IsOrder(t, b)
    ensures Moved(t, prefix, a) == Moved(t, prefix, b)
    ensures forall x, y :: x in t && y in t && NewName(t, prefix, x) == NewName(t, prefix, y) ==> x == y
  {
    var u, v := Moved(t, prefix, a), Moved(t, prefix, b);
    forall key ensures key in u <==> key in v
               ensures key in u ==> u[key] == v[key]
    {
      if key in u {
        SameIn(t, prefix, a, b, key);
      }
      if key in v {
        SameIn(t, prefix, b, a, key);
      }
    }
    forall x, y | x in t && y in t && NewName(t, prefix, x) == NewName(t, prefix, y) ensures x == y {
      if Owned(t, x) && Owned(t, y) {
        PrefixCancels(prefix, x, y);
      }
    }
  }

  lemma SameIn(t: Table, prefix: string, a: seq<string>, b: seq<string>, key: string)
    requires NoClash(t, prefix) && IsOrder(t, a) && IsOrder(t, b) && key in Moved(t, prefix, a)
    ensures key in Moved(t, prefix, b) && Moved(t, prefix, b)[key] == Moved(t, prefix, a)[key]
  {
    MovedNothingElse(t, prefix, a, key);
    if key in t {
      MovedMeaning(t, prefix, a, key);
      MovedMeaning(t, prefix, b, key);
    } else {
      var n :| n in a && key == prefix + n;
      MovedMeaning(t, prefix, a, n);
      MovedMeaning(t, prefix, b, n);
    }
  }

  // A clash always spoils some order.

  lemma {:induction false} ExternalOverwritten(t: Table, prefix: string, order: seq<string>, name: string)
    requires name in order && prefix + name in t && t[prefix + name].external
    requires forall n :: n in order ==> Owned(t, n)
    requires forall i, j :: 0 <= i < j < |order| ==> order[i] != order[j]
    ensures prefix + name in Moved(t, prefix, order) && !Moved(t, prefix, order)[prefix + name].external
  {
    var short, from := order[..|order| - 1], order[|order| - 1];
    assert from in order && from !in short;
    StillThere(t, prefix, short, from);
    if from != name {
      ExternalOverwritten(t, prefix, short, name);
      if prefix + from == prefix + name {
        PrefixCancels(prefix, from, name);
      }
    }
  }

  lemma {:induction false} OwnedLost(t: Table, prefix: string, order: seq<string>, name: string)
    requires prefix != "" && order != [] && order[0] == name && prefix + name in order[1..]
    requires forall n :: n in order ==> Owned(t, n)
    requires forall i, j :: 0 <= i < j < |order| ==> order[i] != order[j]
    ensures prefix + name !in Moved(t, prefix, order)
  {
    var short, from := order[..|order| - 1], order[|order| - 1];
    assert from in order && from !in short;
    StillThere(t, prefix, short, from);
    if from != prefix + name {
      var i :| 1 <= i < |order| && order[i] == prefix + name;
      assert short[1..][i - 1] == prefix + name;
      OwnedLost(t, prefix, short, name);
      if prefix + from == prefix + name {
        PrefixCancels(prefix, from, name);
      }
    }
  }

  lemma {:induction false} SomeOrder(names: set<string>) returns (order: seq<string>)
    ensures forall i, j :: 0 <= i < j < |order| ==> order[i] != order[j]
    ensures forall n :: n in order <==> n in names
  {
    if names == {} {
      order := [];
    } else {
      var n :| n in names;
      var rest := SomeOrder(names - {n});
      order := [n] + rest;
    }
  }

  /** Every order keeps the meaning of every reference exactly when no declared name is a scoped owned name. */
  lemma RenamingIsFaithfulIffNoClash(t: Table, prefix: string)
    requires prefix != ""
    ensures NoClash(t, prefix) <==> forall order :: IsOrder(t, order) ==> Faithful(t, prefix, Moved(t, prefix, order))
  {
    if NoClash(t, prefix) {
      forall order | IsOrder(t, order) ensures Faithful(t, prefix, Moved(t, prefix, order)) {
        forall name | name in t ensures NewName(t, prefix, name) in Moved(t, prefix, order)
                                ensures Moved(t, prefix, order)[NewName(t, prefix, name)] == t[name]
        {
          MovedMeaning(t, prefix, order, name);
        }
      }
    } else {
      var name :| Owned(t, name) && prefix + name in t;
      var order := SpoiledOrder(t, prefix, name);
    }
  }

  lemma SpoiledOrder(t: Table, prefix: string, name: string) returns (order: seq<string>)
    requires prefix != "" && Owned(t, name) && prefix + name in t
    ensures IsOrder(t, order) && !Faithful(t, prefix, Moved(t, prefix, order))
  {
    var scoped := prefix + name;
    var rest := SomeOrder((set n | n in t && Owned(t, n)) - {name});
    order := [name] + rest;
    assert IsOrder(t, order);
    if t[scoped].external {
      ExternalOverwritten(t, prefix, order, name);
      assert NewName(t, prefix, scoped) == scoped;
    } else {
      assert |scoped| > |name|;
      assert order[1..] == rest && scoped in rest;
      OwnedLost(t, prefix, order, name);
      assert NewName(t, prefix, name) == scoped;
    }
  }

  // ---------------------------------------------------------------- the whole file

  function ColonAt(spec: string): (k: nat)
    ensures k <= |spec| && ':' !in spec[..k] && (k < |spec| ==> spec[k] == ':')
  {
    if spec == "" || spec[0] == ':' then 0 else 1 + ColonAt(spec[1..])
  }

  /** The volume name of a mount spec: what is before the first colon. */
  function SpecName(spec: string): string {
    spec[..ColonAt(spec)]
  }

  function SpecRest(spec: string): string {
    if ColonAt(spec) < |spec| then spec[ColonAt(spec) + 1..] else ""
  }

  function NewSpec(t: Table, prefix: string, spec: string): string {
    if Owned(t, SpecName(spec)) then prefix + SpecName(spec) + ":" + SpecRest(spec) else spec
  }

  lemma {:induction false} ColonAfter(name: string, rest: string)
    requires ':' !in name
    ensures ColonAt(name + ":" + rest) == |name|
  {
    var s := name + ":" + rest;
    if name != "" {
      assert s[1..] == name[1..] + ":" + rest;
      ColonAfter(name[1..], rest);
    }
  }

  /** A renamed mount spec names the renamed volume and mounts it the same way. */
  lemma NewSpecMeaning(t: Table, prefix: string, spec: string)
    requires ':' !in prefix
    ensures SpecName(NewSpec(t, prefix, spec)) == NewName(t, prefix, SpecName(spec))
    ensures SpecRest(NewSpec(t, prefix, spec)) == SpecRest(spec)
  {
    if Owned(t, SpecName(spec)) {
      var name, rest := prefix + SpecName(spec), SpecRest(spec);
      ColonAfter(name, rest);
      var renamed := name + ":" + rest;
      assert renamed[..|name|] == name && renamed[|name| + 1..] == rest;
    }
  }

  function NewService(f: File, prefix: string, svc: Service): Service {
    Service(seq(|svc.networks|, i requires 0 <= i < |svc.networks| => NewName(f.networks, prefix, svc.networks[i])),
            seq(|svc.volumes|, i requires 0 <= i < |svc.volumes| => NewSpec(f.volumes, prefix, svc.volumes[i])))
  }

  method ScopeService(f: File, prefix: string, svc: Service) returns (r: Service)
    ensures r == NewService(f, prefix, svc)
  {
    var networks, volumes := svc.networks, svc.volumes;
    for i := 0 to |networks|
      invariant |networks| == |svc.networks|
      invariant forall k :: 0 <= k < |networks| ==>
                  networks[k] == if k < i then NewName(f.networks, prefix, svc.networks[k]) else svc.networks[k]
    {
      if Owned(f.networks, networks[i]) {
        networks := networks[i := prefix + networks[i]];
      }
    }
    for i := 0 to |volumes|
      invariant |volumes| == |svc.volumes|
      invariant forall k :: 0 <= k < |volumes| ==>
                  volumes[k] == if k < i then NewSpec(f.volumes, prefix, svc.volumes[k]) else svc.volumes[k]
    {
      var name, rest := SpecName(volumes[i]), SpecRest(volumes[i]);
      if Owned(f.volumes, name) {
        volumes := volumes[i := prefix + name + ":" + rest];
      }
    }
    r := Service(networks, volumes);
    assert networks == NewService(f, prefix, svc).networks;
    assert volumes == NewService(f, prefix, svc).volumes;
  }

  /** `valid` stands for the resource-name rules; the orders for how the tables happen to be walked. */
  method ScopeComposeResources(f: File, prefix: string, valid: string -> bool,
                               networkOrder: seq<string>, volumeOrder: seq<string>) returns (r: Option<File>)
    requires prefix != "" && IsOrder(f.networks, networkOrder) && IsOrder(f.volumes, volumeOrder)
    ensures r.Some? <==> forall name :: Owned(f.networks, name) || Owned(f.volumes, name) ==> valid(prefix + name)
    ensures r.Some? ==> r.value.networks == Moved(f.networks, prefix, networkOrder)
    ensures r.Some? ==> r.value.volumes == Moved(f.volumes, prefix, volumeOrder)
    ensures r.Some? ==> r.value.services == map s | s in f.services :: NewService(f, prefix, f.services[s])
  {
    var ok := AllValid(prefix, networkOrder, valid);
    if !ok { return None; }
    ok := AllValid(prefix, volumeOrder, valid);
    if !ok { return None; }
    var networks := MoveAll(f.networks, prefix, networkOrder);
    var volumes := MoveAll(f.volumes, prefix, volumeOrder);
    var services := f.services;
    var todo := f.services.Keys;
    while todo != {}
      invariant todo <= f.services.Keys && services.Keys == f.services.Keys
      invariant forall s :: s in services ==>
                  services[s] == if s in todo then f.services[s] else NewService(f, prefix, f.services[s])
      decreases todo
    {
      var s :| s in todo;
      var svc := ScopeService(f, prefix, f.services[s]);
      services := services[s := svc];
      todo := todo - {s};
    }
    r := Some(File(networks, volumes, services));
  }

  method AllValid(prefix: string, names: seq<string>, valid: string -> bool) returns (ok: bool)
    ensures ok <==> forall name :: name in names ==> valid(prefix + name)
  {
    for i := 0 to |names|
      invariant forall k :: 0 <= k < i ==> valid(prefix + names[k])
    {
      if !valid(prefix + names[i]) {
        assert names[i] in names;
        return false;
      }
    }
    ok := true;
  }

  /** After scoping, every network and volume a service names is the definition it named before. */
  lemma ServicesKeepTheirResources(f: File, prefix: string, networkOrder: seq<string>, volumeOrder: seq<string>,
                                   svc: Service)
    requires prefix != "" && ':' !in prefix && NoClash(f.networks, prefix) && NoClash(f.volumes, prefix)
    requires IsOrder(f.networks, networkOrder) && IsOrder(f.volumes, volumeOrder)
    ensures forall i :: 0 <= i < |svc.networks| && svc.networks[i] in f.networks ==>
              var n := NewService(f, prefix, svc).networks[i];
              n in Moved(f.networks, prefix, networkOrder) &&
              Moved(f.networks, prefix, networkOrder)[n] == f.networks[svc.networks[i]]
    ensures forall i :: 0 <= i < |svc.volumes| && SpecName(svc.volumes[i]) in f.volumes ==>
              var n := SpecName(NewService(f, prefix, svc).volumes[i]);
              n in Moved(f.volumes, prefix, volumeOrder) &&
              Moved(f.volumes, prefix, volumeOrder)[n] == f.volumes[SpecName(svc.volumes[i])]
  {
    RenamingIsFaithfulIffNoClash(f.networks, prefix);
    RenamingIsFaithfulIffNoClash(f.volumes, prefix);
    forall i | 0 <= i < |svc.volumes| && SpecName(svc.volumes[i]) in f.volumes
      ensures SpecName(NewService(f, prefix, svc).volumes[i]) == NewName(f.volumes, prefix, SpecName(svc.volumes[i]))
    {
      NewSpecMeaning(f.volumes, prefix, svc.volumes[i]);
    }
  }

  /**
   References to external and to undeclared resources, and host paths, stay as they are; owned ones get the prefix.
   */
  lemma ReferencesExactly(f: File, prefix: string, svc: Service)
    ensures var r := NewService(f, prefix, svc);
            && |r.networks| == |svc.networks| && |r.volumes| == |svc.volumes|
            && (forall i :: 0 <= i < |svc.networks| ==> var n := svc.networks[i];
                  r.networks[i] == if n in f.networks && !f.networks[n].external then prefix + n else n)
            && (forall i :: 0 <= i < |svc.volumes| ==> var v := svc.volumes[i];
                  SpecName(v) !in f.volumes || f.volumes[SpecName(v)].external ==> r.volumes[i] == v)
  {
  }

  /** What is before the first colon, and what is after it. */
  lemma SpecParts(name: string, rest: string)
    requires ':' !in name
    ensures SpecName(name + ":" + rest) == name && SpecRest(name + ":" + rest) == rest
    ensures SpecName(name) == name && SpecRest(name) == ""
  {
    ColonAfter(name, rest);
    var s := name + ":" + rest;
    assert s[..|name|] == name && s[|name| + 1..] == rest;
    assert ColonAt(name) == |name|;
    assert name[..|name|] == name;
  }
}
