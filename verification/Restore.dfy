/**
 Restoring a stopped VM in place: the checks that keep the live VMs of a network from
 sharing an address, a name or an alias, while other VMs come and go.
 */
module Restore {
  import opened Text

  datatype Life = Created | Starting | Running | Stopping | Stopped | Restoring

  /** An address that does not parse is None. */
  datatype Config = Config(network: string, ip: Option<nat>, mask: nat, gateway: string, name: string,
    aliases: seq<string>)

  datatype VM = VM(cfg: Config, life: Life)

  /** A registered network; a subnet that does not parse is None. */
  datatype Network = Network(subnet: Option<Subnet>, gateway: string, reserved: set<nat>)

  /** The network address of a subnet, and how many addresses it has. */
  datatype Subnet = Subnet(base: nat, bits: nat)

  function Size(bits: nat): nat
    requires bits <= 32
    ensures Size(bits) > 0
    decreases 32 - bits
  {
    if bits == 32 then 1 else 2 * Size(bits + 1)
  }

  function SubnetOf(ip: nat, bits: nat): Subnet
    requires bits <= 32
  {
    Subnet(if ip < Size(bits) then 0 else ip - ip % Size(bits), bits)
  }

  predicate Contains(s: Subnet, ip: nat) {
    s.bits <= 32 && s.base <= ip < s.base + Size(s.bits)
  }

  /** The first address of a subnet is the network's own and the last is its broadcast address. */
  predicate IsHost(s: Subnet, ip: nat) {
    Contains(s, ip) && ip != s.base && ip != s.base + Size(s.bits) - 1
  }

  predicate IsLive(life: Life) {
    life.Starting? || life.Running? || life.Stopping? || life.Restoring?
  }

  function NamesOf(c: Config): set<string> {
    (set a | a in c.aliases) + if c.name == "" then {} else {c.name}
  }

  /** Two VMs may be live at once. */
  predicate Compatible(c: Config, d: Config) {
    c.network != "" && c.network == d.network ==> c.ip != d.ip && NamesOf(c) !! NamesOf(d)
  }

  datatype State = State(vms: map<nat, VM>, networks: map<string, Network>, restoring: Option<nat>)

  /** The live VMs of every network have different addresses and no name or alias in common. */
  ghost predicate Unique(s: State) {
    forall i, j :: i in s.vms && j in s.vms && i != j && IsLive(s.vms[i].life) && IsLive(s.vms[j].life) ==>
      Compatible(s.vms[i].cfg, s.vms[j].cfg)
  }

  // ---------------------------------------------------------------- the checks

  /** The registered network still has the subnet and the gateway of the VM. */
  predicate SameNetwork(networks: map<string, Network>, c: Config) {
    && c.network != "" && c.network in networks
    && c.ip.Some? && c.mask <= 32
    && networks[c.network].subnet == Some(SubnetOf(c.ip.value, c.mask)) && networks[c.network].gateway == c.gateway
  }

  /** Another VM on the network stands in the way of c. */
  predicate Blocks(c: Config, o: VM) {
    && o.cfg.network == c.network
    && (o.cfg.ip == c.ip || (IsLive(o.life) && exists n :: n in NamesOf(c) && (o.cfg.name == n || n in o.cfg.aliases)))
  }

  ghost predicate Restorable(s: State, id: nat) {
    && id in s.vms && s.vms[id].life.Stopped?
    && SameNetwork(s.networks, s.vms[id].cfg)
    && (forall o :: o in s.vms && o != id ==> !Blocks(s.vms[id].cfg, s.vms[o]))
    && IsHost(s.networks[s.vms[id].cfg.network].subnet.value, s.vms[id].cfg.ip.value)
  }

  predicate IsReserved(s: State, c: Config) {
    c.network in s.networks && c.ip.Some? && c.ip.value in s.networks[c.network].reserved
  }

  function Reserve(networks: map<string, Network>, name: string, ip: nat): map<string, Network>
    requires name in networks
  {
    networks[name := networks[name].(reserved := networks[name].reserved + {ip})]
  }

  lemma {:induction false} SizeIsPower(bits: nat)
    requires bits <= 32
    ensures Size(bits) == PowerOfTwo(32 - bits)
    decreases 32 - bits
  {
    if bits < 32 {
      SizeIsPower(bits + 1);
    }
  }

  function PowerOfTwo(n: nat): nat {
    if n == 0 then 1 else 2 * PowerOfTwo(n - 1)
  }

  /**
   The VM of a restore is stopped; its network is registered with its gateway and the subnet of
   its address, a block of 2^(32 - mask) addresses that starts at a multiple of its length; and
   its address is neither the first nor the last of them.
   */
  lemma RestorableMeans(s: State, id: nat)
    requires Restorable(s, id)
    ensures s.vms[id].life == Stopped
    ensures var c := s.vms[id].cfg;
            && c.network != "" && c.network in s.networks && s.networks[c.network].gateway == c.gateway
            && c.ip.Some? && c.mask <= 32 && s.networks[c.network].subnet.Some?
            && var n, base := PowerOfTwo(32 - c.mask), s.networks[c.network].subnet.value.base;
               && s.networks[c.network].subnet.value.bits == c.mask
               && (exists k :: base == k * n) && base < c.ip.value < base + n - 1
  {
    var c := s.vms[id].cfg;
    SizeIsPower(c.mask);
    BlockStart(c.ip.value, c.mask);
  }

  lemma BlockStart(ip: nat, bits: nat)
    requires bits <= 32
    ensures exists k :: SubnetOf(ip, bits).base == k * Size(bits)
  {
    var n := Size(bits);
    if ip < n {
      assert 0 == 0 * n;
    } else {
      assert ip - ip % n == ip / n * n;
    }
  }

  lemma SubnetBounds(ip: nat, bits: nat)
    requires bits <= 32
    ensures SubnetOf(ip, bits).base <= ip < SubnetOf(ip, bits).base + Size(bits)
    ensures SubnetOf(ip, bits).base == ip / Size(bits) * Size(bits)
  {
    Block(ip, Size(bits));
  }

  lemma Block(x: nat, n: nat)
    requires n > 0
    ensures x == x / n * n + x % n && 0 <= x % n < n
    ensures x < n ==> x / n * n == 0 && x % n == x
  {
  }

  /** A subnet contains exactly the addresses that have it as theirs. */
  lemma ContainsExactly(a: nat, b: nat, bits: nat)
    requires bits <= 32
    ensures Contains(SubnetOf(a, bits), b) <==> SubnetOf(b, bits) == SubnetOf(a, bits)
  {
    SubnetBounds(a, bits);
    SubnetBounds(b, bits);
    SameBlock(a / Size(bits), b / Size(bits), Size(bits), b);
  }

  lemma SameBlock(k: nat, l: nat, n: nat, b: nat)
    requires n > 0 && l * n <= b < l * n + n
    ensures k * n <= b < k * n + n <==> k * n == l * n
  {
    if k < l {
      assert (k + 1) * n <= l * n;
      assert (k + 1) * n == k * n + n;
    } else if l < k {
      assert (l + 1) * n <= k * n;
      assert (l + 1) * n == l * n + n;
    }
  }

  /**
   A VM with the same address blocks a restore, stopped or not; one with a name or alias of it only while it lives.
   */
  lemma BlocksExactly(s: State, id: nat, o: nat)
    requires id in s.vms && o in s.vms && o != id && s.vms[o].cfg.network == s.vms[id].cfg.network
    ensures s.vms[o].cfg.ip == s.vms[id].cfg.ip ==> !Restorable(s, id)
    ensures s.vms[o].life in {Starting, Running, Stopping, Restoring} && ShareName(s.vms[id].cfg, s.vms[o].cfg) ==>
              !Restorable(s, id)
    ensures s.vms[o].life in {Created, Stopped} && s.vms[o].cfg.ip != s.vms[id].cfg.ip ==>
              !Blocks(s.vms[id].cfg, s.vms[o])
  {
    if ShareName(s.vms[id].cfg, s.vms[o].cfg) {
      var n :| IsNameOf(n, s.vms[id].cfg) && IsNameOf(n, s.vms[o].cfg);
      assert n in NamesOf(s.vms[id].cfg);
    }
  }

  predicate IsNameOf(n: string, c: Config) {
    n in c.aliases || (n == c.name && n != "")
  }

  ghost predicate ShareName(c: Config, d: Config) {
    exists n :: IsNameOf(n, c) && IsNameOf(n, d)
  }

  class Server {
    var vms: map<nat, VM>
    var networks: map<string, Network>
    var restoring: Option<nat>         // the restore that holds resourceMu

    ghost function View(): State
      reads this
    {
      State(vms, networks, restoring)
    }

    /** Nothing else on the network has the VM's address, and nothing live its name or an alias. */
    method NobodyBlocks(id: nat) returns (ok: bool)
      requires id in vms
      ensures ok <==> forall o :: o in vms && o != id ==> !Blocks(vms[id].cfg, vms[o])
    {
      var c := vms[id].cfg;
      var todo := vms.Keys;
      while todo != {}
        invariant todo <= vms.Keys && forall o :: o in vms && o !in todo && o != id ==> !Blocks(c, vms[o])
        decreases todo
      {
        var o :| o in todo;
        todo := todo - {o};
        if o == id || vms[o].cfg.network != c.network { continue; }
        if vms[o].cfg.ip == c.ip { return false; }
        if !IsLive(vms[o].life) { continue; }
        if exists n :: n in NamesOf(c) && (vms[o].cfg.name == n || n in vms[o].cfg.aliases) { return false; }
      }
      ok := true;
    }

    /**
     Takes the lock and checks; on success the address is reserved and the lock kept for the
     restore. `storeOk` says whether the network store can be written, if it has to be.
     */
    method BeginRestore(id: nat, storeOk: bool) returns (ok: bool)
      requires restoring.None?
      modifies this
      ensures ok <==> Restorable(old(View()), id) && (storeOk || IsReserved(old(View()), old(View()).vms[id].cfg))
      ensures !ok ==> View() == old(View())
      ensures ok ==> View() == Begun(old(View()), id)
    {
      if id !in vms || !vms[id].life.Stopped? { return false; }
      var c := vms[id].cfg;
      if !SameNetwork(networks, c) { return false; }
      ok := NobodyBlocks(id);
      if !ok { return; }
      if !IsHost(networks[c.network].subnet.value, c.ip.value) { return false; }
      if c.ip.value !in networks[c.network].reserved && !storeOk { return false; }
      networks := Reserve(networks, c.network, c.ip.value);
      restoring := Some(id);
    }
  }

  ghost function Begun(s: State, id: nat): State
    requires Restorable(s, id)
  {
    s.(networks := Reserve(s.networks, s.vms[id].cfg.network, s.vms[id].cfg.ip.value), restoring := Some(id))
  }

  // ---------------------------------------------------------------- runs

  datatype Step =
    | Begin(id: nat)                          // the checks of a restore pass
    | Enter                                   // the restore proper starts
    | Finish(ok: bool)                        // it ends, and the lock is given back
    | Run(id: nat, cfg: Config)               // VM.Run, under the lock
    | Start(id: nat)                          // VM.Start of a VM that never ran, under the lock
    | Replace(id: nat, next: nat, gone: bool) // VM.Start of a stopped VM, under the lock
    | FailedRun(id: nat, cfg: Config, life: Life)         // either, failing, and its cleanup failing, too:
    | FailedReplace(id: nat, next: nat, life: Life)       // a VM stays registered that never came to life
    | Remove(id: nat)                         // VM.Remove, under the lock
    | Change(id: nat, life: Life)             // a VM goes on by itself
    | AllocateIP(network: string, ip: nat)    // the network calls take no lock
    | ReleaseIP(network: string, ip: nat)
    | CreateNetwork(network: string, subnet: Option<Subnet>, gateway: string)
    | RemoveNetwork(network: string)

  /** What a VM's monitor does by itself: it brings no VM to life. */
  predicate GoesOn(from: Life, to: Life) {
    match from
    case Starting => to.Running? || to.Stopped?
    case Running => to.Stopping? || to.Stopped?
    case Stopping => to.Stopped?
    case _ => false
  }

  predicate IsFree(networks: map<string, Network>, network: string, ip: nat) {
    && network in networks && networks[network].subnet.Some? && Contains(networks[network].subnet.value, ip)
    && ip !in networks[network].reserved
  }

  /** What VM.Run checks: an address of the network that is free, and a name that no VM has. */
  ghost predicate Runnable(s: State, id: nat, c: Config) {
    && id !in s.vms
    && (c.network != "" ==> c.ip.Some? && IsFree(s.networks, c.network, c.ip.value))
    && (c.name != "" ==> forall o :: o in s.vms ==> s.vms[o].cfg.name != c.name)
  }

  ghost predicate Enabled(s: State, x: Step) {
    match x
    case Begin(id) => s.restoring.None? && Restorable(s, id)
    case Enter => s.restoring.Some? && s.restoring.value in s.vms && s.vms[s.restoring.value].life.Stopped?
    case Finish(_) => s.restoring.Some? && s.restoring.value in s.vms && !s.vms[s.restoring.value].life.Created?
    case Run(id, c) => s.restoring.None? && Runnable(s, id, c)
    case Start(id) => s.restoring.None? && id in s.vms && s.vms[id].life.Created?
    case Replace(id, next, _) => s.restoring.None? && id in s.vms && s.vms[id].life.Stopped? && next !in s.vms
    case FailedRun(id, c, life) => s.restoring.None? && Runnable(s, id, c) && !IsLive(life)
    case FailedReplace(id, next, life) =>
      s.restoring.None? && id in s.vms && s.vms[id].life.Stopped? && next !in s.vms && !IsLive(life)
    case Remove(id) => s.restoring.None? && id in s.vms && !IsLive(s.vms[id].life)
    case Change(id, life) => id in s.vms && GoesOn(s.vms[id].life, life)
    case AllocateIP(network, ip) => IsFree(s.networks, network, ip)
    case ReleaseIP(network, _) => network in s.networks
    case CreateNetwork(network, _, _) => network !in s.networks
    case RemoveNetwork(network) =>
      network in s.networks &&
      forall o :: o in s.vms && s.vms[o].cfg.network == network ==> !s.vms[o].life.Running? && !s.vms[o].life.Restoring?
  }

  function Release(networks: map<string, Network>, name: string, ip: nat): map<string, Network>
    requires name in networks
  {
    networks[name := networks[name].(reserved := networks[name].reserved - {ip})]
  }

  function ReserveFor(s: State, c: Config): map<string, Network>
    requires c.network != "" ==> c.ip.Some? && c.network in s.networks
  {
    if c.network == "" then s.networks else Reserve(s.networks, c.network, c.ip.value)
  }

  ghost function Do(s: State, x: Step): State
    requires Enabled(s, x)
  {
    match x
    case Begin(id) => Begun(s, id)
    case Enter => s.(vms := s.vms[s.restoring.value := s.vms[s.restoring.value].(life := Restoring)])
    case Finish(ok) =>
      var id := s.restoring.value;
      var vm := s.vms[id];
      var life := if !vm.life.Restoring? then vm.life else if ok then Running else Stopped;
      s.(restoring := None, vms := s.vms[id := vm.(life := life)])
    case Run(id, c) => s.(vms := s.vms[id := VM(c, Starting)], networks := ReserveFor(s, c))
    case Start(id) => s.(vms := s.vms[id := s.vms[id].(life := Starting)])
    case Replace(id, next, gone) =>
      s.(vms := (if gone then s.vms - {id} else s.vms)[next := VM(s.vms[id].cfg, Starting)])
    case FailedRun(id, c, life) => s.(vms := s.vms[id := VM(c, life)], networks := ReserveFor(s, c))
    case FailedReplace(id, next, life) => s.(vms := s.vms[next := VM(s.vms[id].cfg, life)])
    case Remove(id) =>
      var c := s.vms[id].cfg;
      s.(vms := s.vms - {id},
         networks := if Releases(s, id) then Release(s.networks, c.network, c.ip.value) else s.networks)
    case Change(id, life) => s.(vms := s.vms[id := s.vms[id].(life := life)])
    case AllocateIP(network, ip) => s.(networks := Reserve(s.networks, network, ip))
    case ReleaseIP(network, ip) => s.(networks := Release(s.networks, network, ip))
    case CreateNetwork(network, subnet, gateway) => s.(networks := s.networks[network := Network(subnet, gateway, {})])
    case RemoveNetwork(network) => s.(networks := s.networks - {network})
  }

  /** Removing a VM gives its address back unless another VM has it, too. */
  ghost predicate Releases(s: State, id: nat)
    requires id in s.vms
  {
    var c := s.vms[id].cfg;
    && c.network in s.networks && c.ip.Some?
    && forall o :: o in s.vms && o != id && s.vms[o].cfg.network == c.network ==> s.vms[o].cfg.ip != c.ip
  }

  /** A restore ends with its VM running, or stopped again, and the lock given back. */
  lemma RestoreEnds(s: State, ok: bool)
    requires Enabled(s, Finish(ok)) && s.vms[s.restoring.value].life.Restoring?
    ensures var t, id := Do(s, Finish(ok)), s.restoring.value;
            && t.restoring.None? && t.networks == s.networks
            && t.vms == s.vms[id := VM(s.vms[id].cfg, if ok then Running else Stopped)]
  {
  }

  // ---------------------------------------------------------------- live VMs stay apart

  /** c clashes with no live VM but possibly `id`. */
  ghost predicate FitsIn(s: State, id: nat, c: Config) {
    forall o :: o in s.vms && o != id && IsLive(s.vms[o].life) ==>
      Compatible(c, s.vms[o].cfg) && Compatible(s.vms[o].cfg, c)
  }

  /** A step that brings a VM to life brings one that clashes with nobody. */
  ghost predicate Fits(s: State, x: Step)
    requires Enabled(s, x)
  {
    match x
    case Run(id, c) => FitsIn(s, id, c)
    case Start(id) => FitsIn(s, id, s.vms[id].cfg)
    case Replace(id, _, _) => FitsIn(s, id, s.vms[id].cfg)
    case _ => true
  }

  /** While a restore holds the lock, its VM clashes with nobody. */
  ghost predicate Inv(s: State) {
    && Unique(s)
    && (s.restoring.Some? ==>
          s.restoring.value in s.vms && FitsIn(s, s.restoring.value, s.vms[s.restoring.value].cfg))
  }

  lemma RestorableFits(s: State, id: nat)
    requires Restorable(s, id)
    ensures FitsIn(s, id, s.vms[id].cfg)
  {
    var c := s.vms[id].cfg;
    forall o | o in s.vms && o != id && IsLive(s.vms[o].life)
      ensures Compatible(c, s.vms[o].cfg) && Compatible(s.vms[o].cfg, c)
    {
      assert !Blocks(c, s.vms[o]);
      if c.network == s.vms[o].cfg.network {
        forall n | n in NamesOf(c) ensures n !in NamesOf(s.vms[o].cfg) {
        }
      }
    }
  }

  /** Adding a live VM keeps the live VMs apart exactly when it fits in. */
  lemma AddedKeepsUniqueIff(s: State, id: nat, c: Config, t: State, next: nat)
    requires Unique(s) && (id in s.vms ==> !IsLive(s.vms[id].life)) && next in t.vms && t.vms[next] == VM(c, Starting)
    requires forall o :: o in t.vms && o != next ==> o in s.vms && t.vms[o] == s.vms[o]
    requires forall o :: o in s.vms && o != id ==> o in t.vms && o != next
    requires id != next ==> next !in s.vms
    ensures Unique(t) <==> FitsIn(s, id, c)
  {
    if Unique(t) {
      forall o | o in s.vms && o != id && IsLive(s.vms[o].life)
        ensures Compatible(c, s.vms[o].cfg) && Compatible(s.vms[o].cfg, c)
      {
        assert t.vms[o] == s.vms[o] && IsLive(t.vms[next].life);
      }
    }
    if FitsIn(s, id, c) {
      forall i, j | i in t.vms && j in t.vms && i != j && IsLive(t.vms[i].life) && IsLive(t.vms[j].life)
        ensures Compatible(t.vms[i].cfg, t.vms[j].cfg)
      {
      }
    }
  }

  /** A step that brings no VM to life leaves no more live VMs than there were, or only the restored one. */
  lemma OthersKeepInv(s: State, x: Step)
    requires Inv(s) && Enabled(s, x) && !x.Run? && !x.Start? && !x.Replace?
    ensures Inv(Do(s, x))
  {
    if x.Begin? {
      RestorableFits(s, x.id);
    }
  }

  /** Every step keeps the live VMs of every network apart exactly when what it brings to life fits in. */
  lemma StepKeepsUniqueIff(s: State, x: Step)
    requires Inv(s) && Enabled(s, x)
    ensures Unique(Do(s, x)) <==> Fits(s, x)
    ensures Fits(s, x) ==> Inv(Do(s, x))
  {
    match x
    case Run(id, c) => AddedKeepsUniqueIff(s, id, c, Do(s, x), id);
    case Start(id) => AddedKeepsUniqueIff(s, id, s.vms[id].cfg, Do(s, x), id);
    case Replace(id, next, _) => AddedKeepsUniqueIff(s, id, s.vms[id].cfg, Do(s, x), next);
    case _ => OthersKeepInv(s, x);
  }

  ghost predicate IsRun(s: State, xs: seq<Step>)
    decreases |xs|
  {
    xs == [] || (Enabled(s, xs[0]) && IsRun(Do(s, xs[0]), xs[1..]))
  }

  ghost function After(s: State, xs: seq<Step>): State
    requires IsRun(s, xs)
    decreases |xs|
  {
    if xs == [] then s else After(Do(s, xs[0]), xs[1..])
  }

  ghost predicate FitRun(s: State, xs: seq<Step>)
    requires IsRun(s, xs)
    decreases |xs|
  {
    xs == [] || (Fits(s, xs[0]) && FitRun(Do(s, xs[0]), xs[1..]))
  }

  /** The live VMs are apart after every step of the run. */
  ghost predicate UniqueThroughout(s: State, xs: seq<Step>)
    requires IsRun(s, xs)
    decreases |xs|
  {
    Unique(s) && (xs == [] || UniqueThroughout(Do(s, xs[0]), xs[1..]))
  }

  /** Restores interleaved with everything else keep the live VMs apart exactly when every run or started VM fits in. */
  lemma {:induction false} RunKeepsUniqueIff(s: State, xs: seq<Step>)
    requires Inv(s) && IsRun(s, xs)
    ensures UniqueThroughout(s, xs) <==> FitRun(s, xs)
    ensures FitRun(s, xs) ==> Inv(After(s, xs))
    decreases |xs|
  {
    if xs != [] {
      StepKeepsUniqueIff(s, xs[0]);
      if Fits(s, xs[0]) {
        RunKeepsUniqueIff(Do(s, xs[0]), xs[1..]);
      }
    }
  }

  // ---------------------------------------------------------------- what the calls make sure of themselves

  /** Every VM on a network has its address reserved there. */
  ghost predicate Held(s: State) {
    forall i :: i in s.vms && s.vms[i].cfg.network != "" ==> IsReserved(s, s.vms[i].cfg)
  }

  /** No two VMs, live or not, have one name, nor one address on one network. */
  ghost predicate Apart(s: State) {
    forall i, j :: i in s.vms && j in s.vms && i != j ==> ConfigsApart(s.vms[i].cfg, s.vms[j].cfg)
  }

  predicate ConfigsApart(c: Config, d: Config) {
    && (c.name != "" ==> d.name != c.name)
    && (c.network != "" && c.network == d.network ==> c.ip != d.ip)
  }

  /** No alias of c is a name or alias of d on its network, and its name is no alias of d. */
  predicate AliasesApart(c: Config, d: Config) {
    c.network != "" && c.network == d.network ==>
      (forall a :: a in c.aliases ==> a !in NamesOf(d)) && (c.name != "" ==> c.name !in d.aliases)
  }

  /** The aliases of c clash with no live VM but possibly `id`. */
  ghost predicate AliasesFit(s: State, id: nat, c: Config) {
    forall o :: o in s.vms && o != id && IsLive(s.vms[o].life) ==> AliasesApart(c, s.vms[o].cfg)
  }

  /** Configurations with different names and addresses are compatible exactly when their aliases do not clash. */
  lemma CompatibleIffAliasesApart(c: Config, d: Config)
    requires ConfigsApart(c, d)
    ensures Compatible(c, d) <==> AliasesApart(c, d)
    ensures Compatible(c, d) <==> Compatible(d, c)
  {
    if NamesOf(c) !! NamesOf(d) {
      forall a | a in c.aliases ensures a !in NamesOf(d) {
        assert a in NamesOf(c);
      }
      if c.name != "" {
        assert c.name in NamesOf(c);
      }
    }
  }

  lemma FitsIffAliasesFit(s: State, id: nat, c: Config)
    requires forall o :: o in s.vms && o != id && IsLive(s.vms[o].life) ==> ConfigsApart(c, s.vms[o].cfg)
    ensures FitsIn(s, id, c) <==> AliasesFit(s, id, c)
  {
    forall o | o in s.vms && o != id && IsLive(s.vms[o].life)
      ensures Compatible(c, s.vms[o].cfg) <==> AliasesApart(c, s.vms[o].cfg)
      ensures Compatible(c, s.vms[o].cfg) <==> Compatible(s.vms[o].cfg, c)
    {
      CompatibleIffAliasesApart(c, s.vms[o].cfg);
    }
  }

  /** With every address reserved, the checks of VM.Run leave only the aliases open. */
  lemma RunFitsIffAliasesFit(s: State, id: nat, c: Config)
    requires Held(s) && Enabled(s, Run(id, c))
    ensures Fits(s, Run(id, c)) <==> AliasesFit(s, id, c)
  {
    forall o | o in s.vms && o != id && IsLive(s.vms[o].life) ensures ConfigsApart(c, s.vms[o].cfg) {
      assert s.vms[o].cfg.network != "" ==> IsReserved(s, s.vms[o].cfg);
    }
    FitsIffAliasesFit(s, id, c);
  }

  /** With names and addresses apart, VM.Start of any VM leaves only the aliases open, too. */
  lemma StartFitsIffAliasesFit(s: State, id: nat)
    requires Apart(s) && id in s.vms
    ensures FitsIn(s, id, s.vms[id].cfg) <==> AliasesFit(s, id, s.vms[id].cfg)
  {
    FitsIffAliasesFit(s, id, s.vms[id].cfg);
  }

  /** The VM that x brings to life, if any, has no alias that clashes with a live VM. */
  ghost predicate AliasesOk(s: State, x: Step)
    requires Enabled(s, x)
  {
    match x
    case Run(id, c) => AliasesFit(s, id, c)
    case Start(id) => AliasesFit(s, id, s.vms[id].cfg)
    case Replace(id, _, _) => AliasesFit(s, id, s.vms[id].cfg)
    case _ => true
  }

  /** No address is released and no network removed from outside, and of a VM and its replacement one is gone. */
  predicate Tidy(x: Step) {
    !x.ReleaseIP? && !x.RemoveNetwork? && (x.Replace? ==> x.gone) && !x.FailedReplace?
  }

  lemma StepKeepsApart(s: State, x: Step)
    requires Held(s) && Apart(s) && Enabled(s, x) && Tidy(x)
    ensures Apart(Do(s, x))
  {
    var t := Do(s, x);
    forall i, j | i in t.vms && j in t.vms && i != j ensures ConfigsApart(t.vms[i].cfg, t.vms[j].cfg) {
      match x
      case Run(id, c) =>
        assert i != id && c.network != "" && s.vms[i].cfg.network == c.network ==> IsReserved(s, s.vms[i].cfg);
        assert j != id && c.network != "" && s.vms[j].cfg.network == c.network ==> IsReserved(s, s.vms[j].cfg);
      case FailedRun(id, c, _) =>
        assert i != id && c.network != "" && s.vms[i].cfg.network == c.network ==> IsReserved(s, s.vms[i].cfg);
        assert j != id && c.network != "" && s.vms[j].cfg.network == c.network ==> IsReserved(s, s.vms[j].cfg);
      case Replace(id, next, _) =>
        assert i != next ==> i in s.vms && i != id;
        assert j != next ==> j in s.vms && j != id;
      case _ =>
    }
  }

  ghost predicate AliasesOkRun(s: State, xs: seq<Step>)
    requires IsRun(s, xs)
    decreases |xs|
  {
    xs == [] || (AliasesOk(s, xs[0]) && AliasesOkRun(Do(s, xs[0]), xs[1..]))
  }

  lemma TidyFitsIffAliasesOk(s: State, x: Step)
    requires Held(s) && Apart(s) && Enabled(s, x)
    ensures Fits(s, x) <==> AliasesOk(s, x)
  {
    match x
    case Run(id, c) => RunFitsIffAliasesFit(s, id, c);
    case Start(id) => StartFitsIffAliasesFit(s, id);
    case Replace(id, _, _) => StartFitsIffAliasesFit(s, id);
    case _ =>
  }

  /**
   Through every tidy run of restores, runs, starts and everything else the live VMs stay apart
   exactly when no VM is brought to life whose aliases clash: all else the calls see to.
   */
  lemma {:induction false} TidyRunKeepsUniqueIff(s: State, xs: seq<Step>)
    requires Inv(s) && Held(s) && Apart(s) && IsRun(s, xs) && forall k :: 0 <= k < |xs| ==> Tidy(xs[k])
    ensures UniqueThroughout(s, xs) <==> AliasesOkRun(s, xs)
    ensures AliasesOkRun(s, xs) ==> Inv(After(s, xs))
    ensures Held(After(s, xs)) && Apart(After(s, xs))
    decreases |xs|
  {
    if xs != [] {
      var x := xs[0];
      StepKeepsUniqueIff(s, x);
      TidyFitsIffAliasesOk(s, x);
      StepKeepsHeld(s, x);
      StepKeepsApart(s, x);
      if Fits(s, x) {
        TidyRunKeepsUniqueIff(Do(s, x), xs[1..]);
      } else {
        TidyRunKeepsApart(Do(s, x), xs[1..]);
      }
    }
  }

  lemma {:induction false} TidyRunKeepsApart(s: State, xs: seq<Step>)
    requires Held(s) && Apart(s) && IsRun(s, xs) && forall k :: 0 <= k < |xs| ==> Tidy(xs[k])
    ensures Held(After(s, xs)) && Apart(After(s, xs))
    decreases |xs|
  {
    if xs != [] {
      StepKeepsHeld(s, xs[0]);
      StepKeepsApart(s, xs[0]);
      TidyRunKeepsApart(Do(s, xs[0]), xs[1..]);
    }
  }

  const EMPTY := State(map[], map[], None)

  /** In particular through every tidy run of a server that starts with nothing. */
  lemma TidyServerKeepsUniqueIff(xs: seq<Step>)
    requires IsRun(EMPTY, xs) && forall k :: 0 <= k < |xs| ==> Tidy(xs[k])
    ensures UniqueThroughout(EMPTY, xs) <==> AliasesOkRun(EMPTY, xs)
  {
    TidyRunKeepsUniqueIff(EMPTY, xs);
  }

  /** Addresses stay reserved unless one is released or a network removed from outside. */
  lemma StepKeepsHeld(s: State, x: Step)
    requires Held(s) && Enabled(s, x) && !x.ReleaseIP? && !x.RemoveNetwork?
    ensures Held(Do(s, x))
  {
  }

  lemma {:induction false} RunKeepsHeld(s: State, xs: seq<Step>)
    requires Held(s) && IsRun(s, xs) && forall k :: 0 <= k < |xs| ==> !xs[k].ReleaseIP? && !xs[k].RemoveNetwork?
    ensures Held(After(s, xs))
    decreases |xs|
  {
    if xs != [] {
      StepKeepsHeld(s, xs[0]);
      RunKeepsHeld(Do(s, xs[0]), xs[1..]);
    }
  }

  // ---------------------------------------------------------------- the address of a restored VM

  /** Whether an address is still reserved after x, if it was before. */
  predicate HeldNext(held: bool, x: Step, network: string, ip: nat) {
    if x == ReleaseIP(network, ip) || x == RemoveNetwork(network) then false
    else held || x == AllocateIP(network, ip)
  }

  /** Of the calls in xs that concern the address, the last one left it reserved. */
  predicate HeldAfter(held: bool, xs: seq<Step>, network: string, ip: nat)
    decreases |xs|
  {
    if xs == [] then held else HeldAfter(HeldNext(held, xs[0], network, ip), xs[1..], network, ip)
  }

  /** During a restore only the network calls touch the reservations. */
  lemma RestoreStep(s: State, x: Step, id: nat, c: Config)
    requires s.restoring == Some(id) && id in s.vms && s.vms[id].cfg == c && c.ip.Some?
    requires Enabled(s, x) && !x.Finish?
    ensures var t := Do(s, x);
            && t.restoring == Some(id) && id in t.vms && t.vms[id].cfg == c
            && (IsReserved(t, c) <==> HeldNext(IsReserved(s, c), x, c.network, c.ip.value))
            && (x != RemoveNetwork(c.network) && SameNetwork(s.networks, c) ==> SameNetwork(t.networks, c))
  {
  }

  lemma {:induction false} RestoreRun(s: State, xs: seq<Step>, id: nat, c: Config)
    requires s.restoring == Some(id) && id in s.vms && s.vms[id].cfg == c && c.ip.Some?
    requires IsRun(s, xs) && forall k :: 0 <= k < |xs| ==> !xs[k].Finish?
    ensures var t := After(s, xs);
            && t.restoring == Some(id) && id in t.vms && t.vms[id].cfg == c
            && (IsReserved(t, c) <==> HeldAfter(IsReserved(s, c), xs, c.network, c.ip.value))
            && (RemoveNetwork(c.network) !in xs && SameNetwork(s.networks, c) ==> SameNetwork(t.networks, c))
    decreases |xs|
  {
    if xs != [] {
      RestoreStep(s, xs[0], id, c);
      RestoreRun(Do(s, xs[0]), xs[1..], id, c);
    }
  }

  /**
   Until a restore gives the lock back, its VM's address is reserved exactly when it was not
   released, nor its network removed, in between (or was allocated again); and unless the
   network was removed it is a host address of the registered subnet.
   */
  lemma RestoredAddress(s: State, id: nat, xs: seq<Step>)
    requires Enabled(s, Begin(id)) && IsRun(Do(s, Begin(id)), xs) && forall k :: 0 <= k < |xs| ==> !xs[k].Finish?
    ensures var t, c := After(Do(s, Begin(id)), xs), s.vms[id].cfg;
            && t.restoring == Some(id) && id in t.vms && t.vms[id].cfg == c
            && (IsReserved(t, c) <==> HeldAfter(true, xs, c.network, c.ip.value))
            && (RemoveNetwork(c.network) !in xs ==>
                  SameNetwork(t.networks, c) && IsHost(t.networks[c.network].subnet.value, c.ip.value))
  {
    RestoreRun(Do(s, Begin(id)), xs, id, s.vms[id].cfg);
  }

  lemma {:induction false} UntouchedStaysHeld(xs: seq<Step>, network: string, ip: nat)
    requires ReleaseIP(network, ip) !in xs && RemoveNetwork(network) !in xs
    ensures HeldAfter(true, xs, network, ip)
    decreases |xs|
  {
    if xs != [] {
      UntouchedStaysHeld(xs[1..], network, ip);
    }
  }

  /** Unless its address is released or its network removed in between, the VM is restored with the address reserved. */
  lemma UntouchedAddressIsReserved(s: State, id: nat, xs: seq<Step>)
    requires Enabled(s, Begin(id)) && IsRun(Do(s, Begin(id)), xs) && forall k :: 0 <= k < |xs| ==> !xs[k].Finish?
    requires ReleaseIP(s.vms[id].cfg.network, s.vms[id].cfg.ip.value) !in xs
    requires RemoveNetwork(s.vms[id].cfg.network) !in xs
    ensures IsReserved(After(Do(s, Begin(id)), xs), s.vms[id].cfg)
  {
    RestoredAddress(s, id, xs);
    UntouchedStaysHeld(xs, s.vms[id].cfg.network, s.vms[id].cfg.ip.value);
  }

  // ---------------------------------------------------------------- runs in which something clashes

  lemma {:induction false} RunAppend(s: State, xs: seq<Step>, ys: seq<Step>)
    requires IsRun(s, xs) && IsRun(After(s, xs), ys)
    ensures IsRun(s, xs + ys) && After(s, xs + ys) == After(After(s, xs), ys)
    decreases |xs|
  {
    if xs == [] {
      assert xs + ys == ys;
    } else {
      RunAppend(Do(s, xs[0]), xs[1..], ys);
      assert (xs + ys)[1..] == xs[1..] + ys;
    }
  }

  lemma RunOne(s: State, x: Step)
    requires Enabled(s, x)
    ensures IsRun(s, [x]) && After(s, [x]) == Do(s, x)
  {
    assert [x][1..] == [];
  }

  lemma RunTwo(s: State, x: Step, y: Step)
    requires Enabled(s, x) && Enabled(Do(s, x), y)
    ensures IsRun(s, [x, y]) && After(s, [x, y]) == Do(Do(s, x), y)
  {
    RunOne(s, x);
    RunOne(Do(s, x), y);
    RunAppend(s, [x], [y]);
    assert [x] + [y] == [x, y];
  }

  lemma RunThree(s: State, x: Step, y: Step, z: Step)
    requires Enabled(s, x) && Enabled(Do(s, x), y) && Enabled(Do(Do(s, x), y), z)
    ensures IsRun(s, [x, y, z]) && After(s, [x, y, z]) == Do(Do(Do(s, x), y), z)
  {
    RunTwo(s, x, y);
    RunOne(Do(Do(s, x), y), z);
    RunAppend(s, [x, y], [z]);
    assert [x, y] + [z] == [x, y, z];
  }

  /** c can be run on a new network. */
  predicate OnNetwork(c: Config, subnet: Subnet) {
    c.network != "" && c.ip.Some? && Contains(subnet, c.ip.value)
  }

  /** Two VMs with one alias, on one network: nothing refuses the second. */
  lemma AliasesMayClash(c: Config, d: Config, subnet: Subnet, alias: string)
    requires OnNetwork(c, subnet) && OnNetwork(d, subnet) && ConfigsApart(c, d) && c.network == d.network
    requires alias in c.aliases && alias in d.aliases
    ensures var xs := [CreateNetwork(c.network, Some(subnet), c.gateway), Run(0, c), Run(1, d)];
            IsRun(EMPTY, xs) && !Unique(After(EMPTY, xs))
  {
    var x, y, z := CreateNetwork(c.network, Some(subnet), c.gateway), Run(0, c), Run(1, d);
    var t := Do(Do(EMPTY, x), y);
    assert t.vms == map[0 := VM(c, Starting)];
    assert Enabled(t, z);
    RunThree(EMPTY, x, y, z);
    var u := Do(t, z);
    assert u.vms[0].cfg == c && u.vms[1].cfg == d && IsLive(u.vms[0].life) && IsLive(u.vms[1].life);
    assert alias in NamesOf(c) && alias in NamesOf(d);
    assert !Compatible(c, d);
  }

  /** A server with one network and one VM on it, which has stopped. */
  function Opening(c: Config, subnet: Subnet): seq<Step> {
    [CreateNetwork(c.network, Some(subnet), c.gateway), Run(0, c), Change(0, Stopped)]
  }

  function Opened(c: Config, subnet: Subnet): State
    requires c.ip.Some?
  {
    State(map[0 := VM(c, Stopped)], map[c.network := Network(Some(subnet), c.gateway, {c.ip.value})], None)
  }

  lemma OpeningRuns(c: Config, subnet: Subnet)
    requires OnNetwork(c, subnet)
    ensures IsRun(EMPTY, Opening(c, subnet)) && After(EMPTY, Opening(c, subnet)) == Opened(c, subnet)
  {
    var x, y, z := CreateNetwork(c.network, Some(subnet), c.gateway), Run(0, c), Change(0, Stopped);
    RunThree(EMPTY, x, y, z);
    var t := Do(Do(Do(EMPTY, x), y), z);
    assert {} + {c.ip.value} == {c.ip.value};
    assert t.networks == map[c.network := Network(Some(subnet), c.gateway, {c.ip.value})];
    assert t.vms == map[0 := VM(c, Stopped)];
  }

  lemma TwoOfOneConfig(s: State, i: nat, j: nat)
    requires i in s.vms && j in s.vms && i != j && IsLive(s.vms[i].life) && IsLive(s.vms[j].life)
    requires s.vms[i].cfg.network != "" && s.vms[i].cfg.network == s.vms[j].cfg.network
    requires s.vms[i].cfg.ip == s.vms[j].cfg.ip
    ensures !Unique(s)
  {
    assert !Compatible(s.vms[i].cfg, s.vms[j].cfg);
  }

  /** A stopped VM whose removal failed can be started a second time, beside its replacement. */
  lemma StartedTwice(c: Config, subnet: Subnet)
    requires OnNetwork(c, subnet)
    ensures var xs := Opening(c, subnet) + [Replace(0, 1, false), Replace(0, 2, false)];
            IsRun(EMPTY, xs) && !Unique(After(EMPTY, xs))
  {
    var s, x, y := Opened(c, subnet), Replace(0, 1, false), Replace(0, 2, false);
    OpeningRuns(c, subnet);
    RunTwo(s, x, y);
    RunAppend(EMPTY, Opening(c, subnet), [x, y]);
    TwoOfOneConfig(Do(Do(s, x), y), 1, 2);
  }

  /** The released address of a stopped VM can go to another VM, and the stopped one be started all the same. */
  lemma ReleasedAddressIsShared(c: Config, d: Config, subnet: Subnet)
    requires OnNetwork(c, subnet) && d.network == c.network && d.ip == c.ip && (d.name != "" ==> d.name != c.name)
    ensures var xs := Opening(c, subnet) + [ReleaseIP(c.network, c.ip.value), Run(1, d), Replace(0, 2, true)];
            IsRun(EMPTY, xs) && !Unique(After(EMPTY, xs))
  {
    var s, x, y, z := Opened(c, subnet), ReleaseIP(c.network, c.ip.value), Run(1, d), Replace(0, 2, true);
    OpeningRuns(c, subnet);
    RunThree(s, x, y, z);
    RunAppend(EMPTY, Opening(c, subnet), [x, y, z]);
    TwoOfOneConfig(Do(Do(Do(s, x), y), z), 1, 2);
  }

  /** So can that of a VM whose network was removed and created again. */
  lemma RecreatedNetworkIsShared(c: Config, d: Config, subnet: Subnet)
    requires OnNetwork(c, subnet) && d.network == c.network && d.ip == c.ip && (d.name != "" ==> d.name != c.name)
    ensures var again := [RemoveNetwork(c.network), CreateNetwork(c.network, Some(subnet), c.gateway)];
            var xs := Opening(c, subnet) + (again + [Run(1, d), Replace(0, 2, true)]);
            IsRun(EMPTY, xs) && !Unique(After(EMPTY, xs))
  {
    var s, x, y := Opened(c, subnet), RemoveNetwork(c.network), CreateNetwork(c.network, Some(subnet), c.gateway);
    var z, w := Run(1, d), Replace(0, 2, true);
    OpeningRuns(c, subnet);
    RunTwo(s, x, y);
    var t := Do(Do(s, x), y);
    RunTwo(t, z, w);
    RunAppend(s, [x, y], [z, w]);
    RunAppend(EMPTY, Opening(c, subnet), [x, y] + [z, w]);
    TwoOfOneConfig(Do(Do(t, z), w), 1, 2);
  }

  /** The address of a VM can be released while it is being restored. */
  lemma ReleasedDuringRestore(c: Config)
    requires c.network != "" && c.ip.Some? && c.mask <= 32 && IsHost(SubnetOf(c.ip.value, c.mask), c.ip.value)
    ensures var xs := Opening(c, SubnetOf(c.ip.value, c.mask)) + [Begin(0), ReleaseIP(c.network, c.ip.value)];
            IsRun(EMPTY, xs) && After(EMPTY, xs).restoring == Some(0) && !IsReserved(After(EMPTY, xs), c)
  {
    var subnet := SubnetOf(c.ip.value, c.mask);
    var s, x, y := Opened(c, subnet), Begin(0), ReleaseIP(c.network, c.ip.value);
    OpeningRuns(c, subnet);
    assert Restorable(s, 0);
    RunTwo(s, x, y);
    RunAppend(EMPTY, Opening(c, subnet), [x, y]);
  }
}
