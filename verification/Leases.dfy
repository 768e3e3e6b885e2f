/**
 The lease table (internal/testutil/lease.go) and the allocation on top of it
 (internal/core/network/lease_controller.go, internal/lib/network/network.go).
 */
module Leases {
  import opened Options

  /** An IPv4 address as a number. */
  type Addr = nat

  datatype Lease = Lease(id: nat, networkID: string, ipv4: Addr, vmID: Option<string>)

  // ----- the table as a value -----

  datatype Table = Table(leases: seq<Lease>, nextID: nat)

  predicate At(l: Lease, networkID: string, ipv4: Addr) {
    l.networkID == networkID && l.ipv4 == ipv4
  }

  /** The first lease of an address, or the length. */
  function Find(ls: seq<Lease>, networkID: string, ipv4: Addr): (i: nat)
    ensures i <= |ls|
    ensures i < |ls| ==> At(ls[i], networkID, ipv4)
    ensures forall j | 0 <= j < i :: !At(ls[j], networkID, ipv4)
  {
    if ls == [] || At(ls[0], networkID, ipv4) then 0 else 1 + Find(ls[1..], networkID, ipv4)
  }

  predicate Held(t: Table, networkID: string, ipv4: Addr) {
    exists l <- t.leases :: At(l, networkID, ipv4)
  }

  function Acquired(t: Table, networkID: string, ipv4: Addr, vmID: Option<string>): Table {
    if Held(t, networkID, ipv4) then t
    else Table(t.leases + [Lease(t.nextID, networkID, ipv4, vmID)], t.nextID + 1)
  }

  function Released(t: Table, networkID: string, ipv4: Addr): Table {
    var i := Find(t.leases, networkID, ipv4);
    if i < |t.leases| then t.(leases := t.leases[..i] + t.leases[i + 1..]) else t
  }

  function KeptByOthers(ls: seq<Lease>, vmID: string): seq<Lease>
    decreases |ls|
  {
    if ls == [] then []
    else
      var n := |ls| - 1;
      KeptByOthers(ls[..n], vmID) + if ls[n].vmID == Some(vmID) then [] else [ls[n]]
  }

  function ReleasedByVM(t: Table, vmID: string): Table {
    t.(leases := KeptByOthers(t.leases, vmID))
  }

  /** One lease per (network, address), one id per lease, ids below the next one. */
  ghost predicate Valid(t: Table) {
    && (forall i, j | 0 <= i < j < |t.leases| ::
          t.leases[i].id != t.leases[j].id && !At(t.leases[i], t.leases[j].networkID, t.leases[j].ipv4))
    && (forall i | 0 <= i < |t.leases| :: t.leases[i].id < t.nextID)
  }

  // ----- every run of the operations -----

  datatype Op =
    | Acquire(networkID: string, ipv4: Addr, vmID: Option<string>)
    | Release(networkID: string, ipv4: Addr)
    | ReleaseByVM(owner: string)

  function Do(t: Table, op: Op): Table {
    match op
    case Acquire(n, ip, v) => Acquired(t, n, ip, v)
    case Release(n, ip) => Released(t, n, ip)
    case ReleaseByVM(v) => ReleasedByVM(t, v)
  }

  function Run(t: Table, ops: seq<Op>): Table
    decreases |ops|
  {
    if ops == [] then t else Run(Do(t, ops[0]), ops[1..])
  }

  /** What others hold is kept: a subsequence of the table. */
  lemma {:induction false} KeptIsSubsequence(ls: seq<Lease>, vmID: string) returns (at: seq<nat>)
    ensures |at| == |KeptByOthers(ls, vmID)|
    ensures forall i | 0 <= i < |at| :: at[i] < |ls| && KeptByOthers(ls, vmID)[i] == ls[at[i]]
    ensures forall i, j | 0 <= i < j < |at| :: at[i] < at[j]
    decreases |ls|
  {
    if ls == [] {
      at := [];
    } else {
      var n := |ls| - 1;
      at := KeptIsSubsequence(ls[..n], vmID);
      if ls[n].vmID != Some(vmID) { at := at + [n]; }
    }
  }

  /** Exactly the leases of the named VM go. */
  lemma {:induction false} KeptAreTheOthers(ls: seq<Lease>, vmID: string)
    ensures forall l :: l in KeptByOthers(ls, vmID) <==> l in ls && l.vmID != Some(vmID)
    decreases |ls|
  {
    if ls != [] {
      var n := |ls| - 1;
      KeptAreTheOthers(ls[..n], vmID);
      assert ls == ls[..n] + [ls[n]];
    }
  }

  lemma DoKeepsValid(t: Table, op: Op)
    requires Valid(t)
    ensures Valid(Do(t, op)) && t.nextID <= Do(t, op).nextID
  {
    match op
    case Acquire(n, ip, v) =>
    case Release(n, ip) => ReleaseKeepsValid(t, n, ip);
    case ReleaseByVM(v) => ReleaseByVMKeepsValid(t, v);
  }

  lemma ReleaseKeepsValid(t: Table, networkID: string, ipv4: Addr)
    requires Valid(t)
    ensures Valid(Released(t, networkID, ipv4))
  {
    var i := Find(t.leases, networkID, ipv4);
    hide Find;
    if i < |t.leases| {
      var ls := Released(t, networkID, ipv4).leases;
      assert forall j | 0 <= j < |ls| :: ls[j] == t.leases[if j < i then j else j + 1];
    }
  }

  lemma ReleaseByVMKeepsValid(t: Table, vmID: string)
    requires Valid(t)
    ensures Valid(ReleasedByVM(t, vmID))
  {
    hide KeptByOthers;
    var at := KeptIsSubsequence(t.leases, vmID);
  }

  /** From the empty table, every run keeps pairs and ids unique. */
  lemma {:induction false} RunKeepsValid(t: Table, ops: seq<Op>)
    requires Valid(t)
    ensures Valid(Run(t, ops))
    decreases |ops|
  {
    if ops != [] {
      DoKeepsValid(t, ops[0]);
      RunKeepsValid(Do(t, ops[0]), ops[1..]);
    }
  }

  /** Releasing undoes an acquire exactly when the address was free before, except for the used id. */
  lemma ReleaseUndoesExactlyFreshAcquire(t: Table, networkID: string, ipv4: Addr, vmID: Option<string>)
    requires Valid(t)
    ensures Released(Acquired(t, networkID, ipv4, vmID), networkID, ipv4).leases == t.leases
       <==> !Held(t, networkID, ipv4)
  {
    var t' := Acquired(t, networkID, ipv4, vmID);
    var i := Find(t'.leases, networkID, ipv4);
    if !Held(t, networkID, ipv4) {
      forall j | 0 <= j < |t.leases| ensures !At(t'.leases[j], networkID, ipv4) {
        assert t.leases[j] in t.leases;
      }
      assert t'.leases[|t.leases|] == Lease(t.nextID, networkID, ipv4, vmID);
      assert i == |t.leases|;
      assert t'.leases[..i] + t'.leases[i + 1..] == t.leases;
    }
  }

  /** The addresses leased in a network. */
  function LeasedAddrs(ls: seq<Lease>, networkID: string): set<Addr> {
    set l | l in ls && l.networkID == networkID :: l.ipv4
  }

  function CountIn(ls: seq<Lease>, networkID: string): nat {
    if ls == [] then 0
    else CountIn(ls[..|ls| - 1], networkID) + if ls[|ls| - 1].networkID == networkID then 1 else 0
  }

  lemma {:induction false} CountIsDistinctAddrs(t: Table, networkID: string)
    requires Valid(t)
    ensures CountIn(t.leases, networkID) == |LeasedAddrs(t.leases, networkID)|
    decreases |t.leases|
  {
    hide LeasedAddrs, Valid;
    var ls := t.leases;
    if ls == [] {
      NothingLeased(networkID);
    } else {
      LastIsNew(t, networkID);
      CountIsDistinctAddrs(t.(leases := ls[..|ls| - 1]), networkID);
    }
  }

  lemma NothingLeased(networkID: string)
    ensures LeasedAddrs([], networkID) == {}
  {
  }

  /** The last lease brings an address that the earlier ones do not have. */
  lemma LastIsNew(t: Table, networkID: string)
    requires Valid(t) && t.leases != []
    ensures var init, last := t.leases[..|t.leases| - 1], t.leases[|t.leases| - 1];
      && Valid(t.(leases := init))
      && (last.networkID == networkID ==>
            last.ipv4 !in LeasedAddrs(init, networkID)
            && LeasedAddrs(t.leases, networkID) == LeasedAddrs(init, networkID) + {last.ipv4})
      && (last.networkID != networkID ==> LeasedAddrs(t.leases, networkID) == LeasedAddrs(init, networkID))
  {
    var init, last := t.leases[..|t.leases| - 1], t.leases[|t.leases| - 1];
    assert t.leases == init + [last];
    assert forall l <- init :: !At(l, last.networkID, last.ipv4);
  }

  function Max0(x: int): int { if x < 0 then 0 else x }

  // ----- the repository object -----

  class LeaseRepo {
    var leases: seq<Lease>
    var nextID: nat
    var subnetTotalHosts: int
    var hasGateway: bool

    function Contents(): Table
      reads this
    {
      Table(leases, nextID)
    }

    constructor ()
      ensures Contents() == Table([], 1) && Valid(Contents())
      ensures subnetTotalHosts == 254 && hasGateway
    {
      leases, nextID, subnetTotalHosts, hasGateway := [], 1, 254, true;
    }

    method Acquire(networkID: string, ipv4: Addr, vmID: Option<string>) returns (lease: Lease)
      requires Valid(Contents())
      modifies this`leases, this`nextID
      ensures Contents() == Acquired(old(Contents()), networkID, ipv4, vmID)
      ensures Valid(Contents())
      ensures lease in leases && At(lease, networkID, ipv4)
      ensures !Held(old(Contents()), networkID, ipv4) ==> lease.vmID == vmID
      ensures Held(old(Contents()), networkID, ipv4) ==> lease in old(leases)
    {
      DoKeepsValid(Contents(), Op.Acquire(networkID, ipv4, vmID));
      for i := 0 to |leases|
        invariant forall j | 0 <= j < i :: !At(leases[j], networkID, ipv4)
        invariant Contents() == old(Contents())
      {
        if leases[i].networkID == networkID && leases[i].ipv4 == ipv4 {
          assert leases[i] in Contents().leases && Held(Contents(), networkID, ipv4);
          return leases[i];
        }
      }
      var id := nextID;
      nextID := nextID + 1;
      lease := Lease(id, networkID, ipv4, vmID);
      leases := leases + [lease];
    }

    method Release(networkID: string, ipv4: Addr)
      requires Valid(Contents())
      modifies this`leases
      ensures Contents() == Released(old(Contents()), networkID, ipv4)
      ensures Valid(Contents()) && !Held(Contents(), networkID, ipv4)
    {
      ReleaseKeepsValid(Contents(), networkID, ipv4);
      hide Valid;
      var i := 0;
      while i < |leases|
        invariant 0 <= i <= |leases|
        invariant forall j | 0 <= j < i :: !At(leases[j], networkID, ipv4)
        invariant Contents() == old(Contents())
      {
        if leases[i].networkID == networkID && leases[i].ipv4 == ipv4 {
          leases := leases[..i] + leases[i + 1..];
          return;
        }
        i := i + 1;
      }
    }

    method ReleaseByVM(vmID: string)
      requires Valid(Contents())
      modifies this`leases
      ensures Contents() == ReleasedByVM(old(Contents()), vmID)
      ensures Valid(Contents())
    {
      ReleaseByVMKeepsValid(Contents(), vmID);
      var kept := Kept(leases, vmID);
      leases := kept;
    }

    static method Kept(ls: seq<Lease>, vmID: string) returns (kept: seq<Lease>)
      ensures kept == KeptByOthers(ls, vmID)
    {
      kept := [];
      for i := 0 to |ls|
        invariant kept == KeptByOthers(ls[..i], vmID)
      {
        assert ls[..i + 1][..i] == ls[..i];
        if ls[i].vmID == None || ls[i].vmID.value != vmID {
          kept := kept + [ls[i]];
        }
      }
      assert ls[..|ls|] == ls;
    }

    method CountAvailable(networkID: string) returns (available: int)
      requires Valid(Contents())
      ensures available ==
        Max0(subnetTotalHosts - (if hasGateway then 1 else 0) - |LeasedAddrs(leases, networkID)|)
    {
      var leaseCount := 0;
      for i := 0 to |leases|
        invariant leaseCount == CountIn(leases[..i], networkID)
      {
        assert leases[..i + 1][..i] == leases[..i];
        if leases[i].networkID == networkID {
          leaseCount := leaseCount + 1;
        }
      }
      assert leases[..|leases|] == leases;
      CountIsDistinctAddrs(Contents(), networkID);
      var gatewayCount := if hasGateway then 1 else 0;
      available := subnetTotalHosts - gatewayCount - leaseCount;
      if available < 0 {
        available := 0;
      }
    }
  }

  // ----- allocation -----

  /** A network: its base address, its number of addresses, its gateway if it has one. */
  datatype Network = Network(id: string, base: Addr, total: nat, gateway: Option<Addr>)

  /** Network and broadcast addresses are left out, unless there is nothing else. */
  function FirstHost(net: Network): nat { if net.total <= 2 then 0 else 1 }
  function EndHost(net: Network): nat { if net.total <= 2 then net.total else net.total - 1 }

  /** An address the allocator may hand out. */
  predicate Assignable(net: Network, used: set<Addr>, ip: Addr) {
    && net.base + FirstHost(net) <= ip < net.base + EndHost(net)
    && net.gateway != Some(ip)
    && ip !in used
  }

  /** The lowest assignable address, if any. */
  method AllocateNextIP(used: set<Addr>, net: Network) returns (r: Option<Addr>)
    ensures r == NextIP(used, net)
  {
    var i := FirstHost(net);
    while i < EndHost(net)
      invariant FirstHost(net) <= i
      invariant NextIP(used, net) == NextFrom(used, net, i)
    {
      var candidate := net.base + i;
      if net.gateway != Some(candidate) && candidate !in used {
        return Some(candidate);
      }
      i := i + 1;
    }
    return None;
  }

  function NextFrom(used: set<Addr>, net: Network, i: nat): Option<Addr>
    decreases EndHost(net) - i
  {
    if i >= EndHost(net) then None
    else if net.gateway != Some(net.base + i) && net.base + i !in used then Some(net.base + i)
    else NextFrom(used, net, i + 1)
  }

  function NextIP(used: set<Addr>, net: Network): Option<Addr> {
    NextFrom(used, net, FirstHost(net))
  }

  lemma {:induction false} NextFromIsLowest(used: set<Addr>, net: Network, i: nat)
    requires i >= FirstHost(net)
    ensures NextFrom(used, net, i) == None ==>
      forall ip: Addr :: Assignable(net, used, ip) ==> ip < net.base + i
    ensures NextFrom(used, net, i).Some? ==> var low := NextFrom(used, net, i).value;
      Assignable(net, used, low) && forall ip: Addr :: Assignable(net, used, ip) ==> ip < net.base + i || low <= ip
    decreases EndHost(net) - i
  {
    if i < EndHost(net) && !(net.gateway != Some(net.base + i) && net.base + i !in used) {
      NextFromIsLowest(used, net, i + 1);
      assert !Assignable(net, used, net.base + i);
    }
  }

  /** The allocator finds the lowest assignable address, and fails exactly when there is none. */
  lemma NextIPIsLowest(used: set<Addr>, net: Network)
    ensures NextIP(used, net) == None <==> forall ip: Addr :: !Assignable(net, used, ip)
    ensures NextIP(used, net).Some? ==> var low := NextIP(used, net).value;
      Assignable(net, used, low) && forall ip: Addr :: Assignable(net, used, ip) ==> low <= ip
  {
    NextFromIsLowest(used, net, FirstHost(net));
  }

  /** The addresses below `top` that are free to assign. */
  function FreeBelow(net: Network, used: set<Addr>, top: Addr): set<Addr> {
    set ip | net.base <= ip < top && Assignable(net, used, ip)
  }

  /** How many addresses of the network can still be leased. */
  function AddressesLeft(ls: seq<Lease>, net: Network): nat {
    |FreeBelow(net, LeasedAddrs(ls, net.id), net.base + net.total)|
  }

  /** An allocation fails exactly when no address is left. */
  lemma NextIPIffLeft(ls: seq<Lease>, net: Network)
    ensures NextIP(LeasedAddrs(ls, net.id), net).Some? <==> AddressesLeft(ls, net) > 0
  {
    var used := LeasedAddrs(ls, net.id);
    NextIPIsLowest(used, net);
    var free := FreeBelow(net, used, net.base + net.total);
    if NextIP(used, net).Some? { assert NextIP(used, net).value in free; }
    if AddressesLeft(ls, net) > 0 { var ip :| ip in free; }
  }

  /** A lease of an assignable address leaves one less. */
  lemma OneLessLeft(ls: seq<Lease>, l: Lease, net: Network)
    requires l.networkID == net.id && Assignable(net, LeasedAddrs(ls, net.id), l.ipv4)
    ensures AddressesLeft(ls, net) == AddressesLeft(ls + [l], net) + 1
  {
    var used, top := LeasedAddrs(ls, net.id), net.base + net.total;
    assert LeasedAddrs(ls + [l], net.id) == used + {l.ipv4};
    assert l.ipv4 in FreeBelow(net, used, top);
    assert FreeBelow(net, used + {l.ipv4}, top) == FreeBelow(net, used, top) - {l.ipv4};
  }

  /** `LeaseController.Lease` on the in-memory table: the first attempt always succeeds. */
  method LeaseNext(repo: LeaseRepo, net: Network, vmID: string) returns (r: Option<Addr>)
    requires Valid(repo.Contents())
    modifies repo`leases, repo`nextID
    ensures Valid(repo.Contents())
    ensures r == NextIP(LeasedAddrs(old(repo.leases), net.id), net)
    ensures r == None ==> repo.Contents() == old(repo.Contents())
    ensures r.Some? ==> !Held(old(repo.Contents()), net.id, r.value)
    ensures r.Some? ==> repo.Contents() == Acquired(old(repo.Contents()), net.id, r.value, Some(vmID))
    ensures r.Some? <==> AddressesLeft(old(repo.leases), net) > 0
    ensures r.Some? ==> AddressesLeft(old(repo.leases), net) == AddressesLeft(repo.leases, net) + 1
  {
    var usedIPs := LeasedAddrs(repo.leases, net.id);
    r := AllocateNextIP(usedIPs, net);
    NextIPIffLeft(repo.leases, net);
    if r.Some? {
      NextIPIsLowest(usedIPs, net);
      assert !Held(repo.Contents(), net.id, r.value);
      OneLessLeft(repo.leases, Lease(repo.nextID, net.id, r.value, Some(vmID)), net);
      var lease := repo.Acquire(net.id, r.value, Some(vmID));
    }
  }
}
