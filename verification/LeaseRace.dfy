/**
 Concurrent calls of `LeaseController.Lease` and `LeaseSpecific`
 (internal/core/network/lease_controller.go:87-144) on one network. `Lease` reads the leases,
 picks a free address and acquires it; `LeaseSpecific` checks the address asked for and acquires
 it, without looking at what the acquire returned. Between the two other calls may run.

 The two repositories answer an acquire of a taken address differently: SQLite's
 `INSERT OR IGNORE` reports no lease (lease_sqlite.go:57-76), the in-memory one returns
 the lease that is already there (internal/testutil/lease.go:97-125).
 */
module LeaseRace {
  import opened Leases
  import opened Options

  type Vm = nat

  datatype Repo = InsertOrIgnore | ReturnExisting

  const MAX_RETRIES: nat := 10

  datatype Call =
    | Trying(attempts: nat)              // about to read the leases
    | Picked(ip: Addr, attempts: nat)    // about to acquire
    | Asking(ip: Addr)                   // `LeaseSpecific`, about to check
    | Checked(ip: Addr)                  // `LeaseSpecific`, about to acquire
    | Got(ip: Addr)
    | Failed

  /** Who holds each address of the network, and where each VM's call stands. */
  datatype State = State(table: map<Addr, Vm>, calls: map<Vm, Call>)

  datatype Action = ReadFree(vm: Vm) | Take(vm: Vm) | CheckFree(vm: Vm) | TakeAsked(vm: Vm) | Drop(vm: Vm)

  predicate Enabled(s: State, a: Action) {
    && a.vm in s.calls
    && match a
       case ReadFree(vm) => s.calls[vm].Trying?
       case Take(vm) => s.calls[vm].Picked?
       case CheckFree(vm) => s.calls[vm].Asking?
       case TakeAsked(vm) => s.calls[vm].Checked?
       case Drop(vm) => s.calls[vm].Got?
  }

  function Apply(repo: Repo, net: Network, s: State, a: Action): State
    requires Enabled(s, a)
  {
    match a
    case ReadFree(vm) =>
      var n := s.calls[vm].attempts;
      var next :=
        if n >= MAX_RETRIES then Failed
        else match NextIP(s.table.Keys, net)
          case Some(ip) => Picked(ip, n)
          case None => Failed;
      s.(calls := s.calls[vm := next])
    case Take(vm) =>
      var Picked(ip, n) := s.calls[vm];
      if ip !in s.table then State(s.table[ip := vm], s.calls[vm := Got(ip)])
      else if repo.ReturnExisting? then s.(calls := s.calls[vm := Got(ip)])
      else s.(calls := s.calls[vm := Trying(n + 1)])
    case CheckFree(vm) =>
      var ip := s.calls[vm].ip;
      s.(calls := s.calls[vm := if ip in s.table then Failed else Checked(ip)])
    case TakeAsked(vm) =>
      var ip := s.calls[vm].ip;
      State(if ip in s.table then s.table else s.table[ip := vm], s.calls[vm := Got(ip)])
    case Drop(vm) =>
      State(map ip | ip in s.table && s.table[ip] != vm :: s.table[ip], s.calls[vm := Failed])
  }

  /** The VMs call `Lease`, but for those in `asks`, which ask for an address of their own. */
  function Init(vms: set<Vm>, asks: map<Vm, Addr>): State {
    State(map[], map vm | vm in vms + asks.Keys :: if vm in asks then Asking(asks[vm]) else Trying(0))
  }

  function RunTo(repo: Repo, net: Network, s: State, acts: seq<Action>): State
    decreases |acts|
  {
    if acts == [] || !Enabled(s, acts[0]) then s
    else RunTo(repo, net, Apply(repo, net, s, acts[0]), acts[1..])
  }

  /** No address is handed to two VMs. */
  predicate NoSharedAddress(s: State) {
    forall v, w | v in s.calls && w in s.calls && s.calls[v].Got? && s.calls[w].Got? && v != w ::
      s.calls[v].ip != s.calls[w].ip
  }

  /** Every address handed out is recorded for its VM, and lies in the network. */
  predicate Recorded(net: Network, s: State) {
    && (forall v <- s.calls :: !s.calls[v].Asking? && !s.calls[v].Checked?)
    && (forall v <- s.calls :: s.calls[v].Got? ==> s.calls[v].ip in s.table && s.table[s.calls[v].ip] == v)
    && (forall v <- s.calls :: s.calls[v].Got? || s.calls[v].Picked? ==> Assignable(net, {}, s.calls[v].ip))
  }

  lemma StepKeepsRecorded(net: Network, s: State, a: Action)
    requires Recorded(net, s) && Enabled(s, a)
    ensures Recorded(net, Apply(InsertOrIgnore, net, s, a))
  {
    NextIPIsLowest(s.table.Keys, net);
  }

  /** Without asks, every address handed out stays recorded, so none is shared, from wherever the run starts. */
  lemma {:induction false} RunKeepsRecorded(net: Network, s: State, acts: seq<Action>)
    requires Recorded(net, s)
    ensures Recorded(net, RunTo(InsertOrIgnore, net, s, acts)) && NoSharedAddress(RunTo(InsertOrIgnore, net, s, acts))
    decreases |acts|
  {
    if acts != [] && Enabled(s, acts[0]) {
      StepKeepsRecorded(net, s, acts[0]);
      RunKeepsRecorded(net, Apply(InsertOrIgnore, net, s, acts[0]), acts[1..]);
    }
  }

  // ----- which calls are safe together -----

  /** The VMs that call `Lease`. */
  function Leasers(vms: set<Vm>, asks: map<Vm, Addr>): set<Vm> { vms - asks.Keys }

  /** The addresses below `ip` that `Lease` would pick first and nobody asks for. */
  function Before(net: Network, asks: map<Vm, Addr>, ip: Addr): set<Addr> {
    set x | net.base <= x < ip && Assignable(net, {}, x) && x !in asks.Values
  }

  /** There are enough callers of `Lease` for one of them to be given this address. */
  predicate WithinReach(net: Network, vms: set<Vm>, asks: map<Vm, Addr>, ip: Addr) {
    Assignable(net, {}, ip) && |Before(net, asks, ip)| < |Leasers(vms, asks)|
  }

  predicate DistinctAsks(asks: map<Vm, Addr>) {
    forall v, w | v in asks && w in asks && v != w :: asks[v] != asks[w]
  }

  /**
   Nobody asks for an address that another asks for or that `Lease` may give away; and if the
   repository hands out a taken address, at most one VM calls `Lease`, or there is no address at all.
   */
  predicate SafeTogether(repo: Repo, net: Network, vms: set<Vm>, asks: map<Vm, Addr>) {
    && DistinctAsks(asks)
    && (forall v <- asks :: !WithinReach(net, vms, asks, asks[v]))
    && (repo.InsertOrIgnore? || |Leasers(vms, asks)| <= 1 || NextIP({}, net) == None)
  }

  ghost predicate NeverShares(repo: Repo, net: Network, vms: set<Vm>, asks: map<Vm, Addr>) {
    forall acts :: NoSharedAddress(RunTo(repo, net, Init(vms, asks), acts))
  }

  /** While safe calls run, what `Lease` gives is recorded and asked for by nobody. */
  predicate Inv(net: Network, vms: set<Vm>, asks: map<Vm, Addr>, s: State) {
    && s.calls.Keys == vms + asks.Keys
    && (forall ip <- s.table :: s.table[ip] in s.calls && s.calls[s.table[ip]] == Got(ip))
    && (forall v <- s.calls :: Fits(net, asks, s.table, v, s.calls[v]))
  }

  predicate Fits(net: Network, asks: map<Vm, Addr>, table: map<Addr, Vm>, v: Vm, c: Call) {
    if v in asks then c == Asking(asks[v]) || c == Checked(asks[v]) || c == Got(asks[v]) || c == Failed
    else match c
      case Trying(_) => true
      case Picked(ip, _) => Assignable(net, {}, ip) && ip !in asks.Values
      case Got(ip) => ip !in asks.Values && ip in table && table[ip] == v
      case Failed => true
      case _ => false
  }

  lemma {:induction false} NoMoreThan(from: set<Addr>, holder: map<Addr, Vm>, to: set<Vm>)
    requires forall x <- from :: x in holder && holder[x] in to
    requires forall x, y | x in from && y in from && x != y :: holder[x] != holder[y]
    ensures |from| <= |to|
    decreases |from|
  {
    if from != {} {
      var x :| x in from;
      NoMoreThan(from - {x}, holder, to - {holder[x]});
    }
  }

  lemma CallFits(net: Network, vms: set<Vm>, asks: map<Vm, Addr>, s: State, v: Vm)
    requires Inv(net, vms, asks, s) && v in s.calls
    ensures Fits(net, asks, s.table, v, s.calls[v]) && (v in asks || v in Leasers(vms, asks))
  {
  }

  lemma AllBeforeAreHeld(net: Network, asks: map<Vm, Addr>, used: set<Addr>, ip: Addr)
    requires NextIP(used, net) == Some(ip)
    ensures Assignable(net, {}, ip) && Before(net, asks, ip) <= used
  {
    NextIPIsLowest(used, net);
    forall x | x in Before(net, asks, ip) ensures x in used { assert !Assignable(net, used, x); }
  }

  /** What `Lease` picks is within reach: all addresses before it are held, by other VMs. */
  lemma PickIsWithinReach(net: Network, vms: set<Vm>, asks: map<Vm, Addr>, s: State, v: Vm)
    requires Inv(net, vms, asks, s) && v in Leasers(vms, asks) && v in s.calls && s.calls[v].Trying?
    ensures NextIP(s.table.Keys, net).Some? ==> WithinReach(net, vms, asks, NextIP(s.table.Keys, net).value)
  {
    hide NextIP, Inv, Leasers, Assignable;
    if NextIP(s.table.Keys, net).Some? {
      var ip := NextIP(s.table.Keys, net).value;
      AllBeforeAreHeld(net, asks, s.table.Keys, ip);
      var before, others := Before(net, asks, ip), Leasers(vms, asks) - {v};
      forall x | x in before 
        ensures x in s.table && s.table[x] in others && s.table[x] in s.calls && s.calls[s.table[x]] == Got(x)
      {
        HolderLeases(net, vms, asks, s, x);
      }
      NoMoreThan(before, s.table, others);
    }
  }

  lemma HolderLeases(net: Network, vms: set<Vm>, asks: map<Vm, Addr>, s: State, ip: Addr)
    requires Inv(net, vms, asks, s) && ip in s.table && ip !in asks.Values
    ensures s.table[ip] in Leasers(vms, asks) && s.table[ip] in s.calls && s.calls[s.table[ip]] == Got(ip)
  {
    hide Assignable;
    var h := s.table[ip];
    assert Fits(net, asks, s.table, h, s.calls[h]);
    assert forall b <- asks :: asks[b] in asks.Values;
  }

  lemma OnlyLeaser(vms: set<Vm>, asks: map<Vm, Addr>, v: Vm, w: Vm)
    requires v in Leasers(vms, asks) && w in Leasers(vms, asks) && |Leasers(vms, asks)| <= 1
    ensures v == w
  {
    assert v != w ==> |Leasers(vms, asks) - {v} - {w}| == |Leasers(vms, asks)| - 2;
  }

  /** A call that holds nothing moves on, and the table stays. */
  lemma InvAfterCall(net: Network, vms: set<Vm>, asks: map<Vm, Addr>, s: State, v: Vm, c: Call)
    requires Inv(net, vms, asks, s) && v in s.calls && !s.calls[v].Got? && Fits(net, asks, s.table, v, c)
    ensures Inv(net, vms, asks, s.(calls := s.calls[v := c]))
  {
    hide Fits;
  }

  lemma FitsGrown(net: Network, asks: map<Vm, Addr>, table: map<Addr, Vm>, v: Vm, c: Call, ip: Addr, w: Vm)
    requires Fits(net, asks, table, v, c) && ip !in table
    ensures Fits(net, asks, table[ip := w], v, c)
  {
  }

  /** A call gets a free address, which the table records. */
  lemma InvAfterGet(net: Network, vms: set<Vm>, asks: map<Vm, Addr>, s: State, v: Vm, ip: Addr)
    requires Inv(net, vms, asks, s) && v in s.calls && !s.calls[v].Got? && ip !in s.table
    requires Fits(net, asks, s.table[ip := v], v, Got(ip))
    ensures Inv(net, vms, asks, State(s.table[ip := v], s.calls[v := Got(ip)]))
  {
    hide Fits;
    forall w | w in s.calls { FitsGrown(net, asks, s.table, w, s.calls[w], ip, v); }
  }

  lemma FitsShrunk(net: Network, asks: map<Vm, Addr>, table: map<Addr, Vm>, v: Vm, w: Vm, c: Call)
    requires Fits(net, asks, table, w, c) && w != v
    ensures Fits(net, asks, map ip | ip in table && table[ip] != v :: table[ip], w, c)
  {
  }

  lemma InvAfterDrop(repo: Repo, net: Network, vms: set<Vm>, asks: map<Vm, Addr>, s: State, v: Vm)
    requires Inv(net, vms, asks, s) && Enabled(s, Drop(v))
    ensures Inv(net, vms, asks, Apply(repo, net, s, Drop(v)))
  {
    var t := Apply(repo, net, s, Drop(v));
    assert Fits(net, asks, t.table, v, Failed);
    hide Fits;
    forall w | w in s.calls && w != v { FitsShrunk(net, asks, s.table, v, w, s.calls[w]); }
  }

  /** What a caller of `Lease` has picked is free when it comes to take it, unless the repository refuses. */
  lemma PickedIsFree(net: Network, vms: set<Vm>, asks: map<Vm, Addr>, s: State, v: Vm)
    requires SafeTogether(ReturnExisting, net, vms, asks) && Inv(net, vms, asks, s)
    requires v in s.calls && s.calls[v].Picked?
    ensures v in Leasers(vms, asks) && s.calls[v].ip !in s.table
  {
    var ip := s.calls[v].ip;
    assert Fits(net, asks, s.table, v, s.calls[v]);
    NextIPIsLowest({}, net);
    if ip in s.table {
      HolderLeases(net, vms, asks, s, ip);
      OnlyLeaser(vms, asks, v, s.table[ip]);
    }
  }

  lemma ReadKeepsInv(repo: Repo, net: Network, vms: set<Vm>, asks: map<Vm, Addr>, s: State, v: Vm)
    requires SafeTogether(repo, net, vms, asks) && Inv(net, vms, asks, s) && Enabled(s, ReadFree(v))
    ensures Inv(net, vms, asks, Apply(repo, net, s, ReadFree(v)))
  {
    hide NextIP, WithinReach, DistinctAsks, Assignable, Inv;
    CallFits(net, vms, asks, s, v);
    PickIsWithinReach(net, vms, asks, s, v);
    NextIPIsLowest(s.table.Keys, net);
    var next := Apply(repo, net, s, ReadFree(v)).calls[v];
    if next.Picked? {
      WithinReachIsAssignable(net, vms, asks, next.ip);
    }
    InvAfterCall(net, vms, asks, s, v, next);
  }

  lemma WithinReachIsAssignable(net: Network, vms: set<Vm>, asks: map<Vm, Addr>, ip: Addr)
    requires WithinReach(net, vms, asks, ip)
    ensures Assignable(net, {}, ip)
  {
  }

  lemma TakeKeepsInv(repo: Repo, net: Network, vms: set<Vm>, asks: map<Vm, Addr>, s: State, v: Vm)
    requires SafeTogether(repo, net, vms, asks) && Inv(net, vms, asks, s) && Enabled(s, Take(v))
    ensures Inv(net, vms, asks, Apply(repo, net, s, Take(v)))
  {
    hide NextIP, WithinReach, DistinctAsks, Assignable, Inv, SafeTogether;
    CallFits(net, vms, asks, s, v);
    var Picked(ip, n) := s.calls[v];
    if repo.ReturnExisting? { PickedIsFree(net, vms, asks, s, v); }
    if ip in s.table {
      InvAfterCall(net, vms, asks, s, v, Trying(n + 1));
    } else {
      InvAfterGet(net, vms, asks, s, v, ip);
    }
  }

  lemma AskKeepsInv(repo: Repo, net: Network, vms: set<Vm>, asks: map<Vm, Addr>, s: State, v: Vm)
    requires Inv(net, vms, asks, s)
    ensures Enabled(s, CheckFree(v)) ==> Inv(net, vms, asks, Apply(repo, net, s, CheckFree(v)))
    ensures Enabled(s, TakeAsked(v)) ==> Inv(net, vms, asks, Apply(repo, net, s, TakeAsked(v)))
  {
    hide Assignable, Inv;
    if v in s.calls && (s.calls[v].Asking? || s.calls[v].Checked?) {
      var ip := s.calls[v].ip;
      CallFits(net, vms, asks, s, v);
      if ip in s.table || s.calls[v].Asking? {
        var next := if s.calls[v].Checked? then Got(ip) else if ip in s.table then Failed else Checked(ip);
        InvAfterCall(net, vms, asks, s, v, next);
      } else {
        InvAfterGet(net, vms, asks, s, v, ip);
      }
    }
  }

  lemma {:induction false} RunKeepsInv(repo: Repo, net: Network, vms: set<Vm>, asks: map<Vm, Addr>, s: State, acts: seq<Action>)
    requires SafeTogether(repo, net, vms, asks) && Inv(net, vms, asks, s)
    ensures Inv(net, vms, asks, RunTo(repo, net, s, acts))
    decreases |acts|
  {
    hide Inv, SafeTogether, Apply;
    if acts != [] && Enabled(s, acts[0]) {
      match acts[0] {
        case ReadFree(v) => ReadKeepsInv(repo, net, vms, asks, s, v);
        case Take(v) => TakeKeepsInv(repo, net, vms, asks, s, v);
        case CheckFree(v) => AskKeepsInv(repo, net, vms, asks, s, v);
        case TakeAsked(v) => AskKeepsInv(repo, net, vms, asks, s, v);
        case Drop(v) => InvAfterDrop(repo, net, vms, asks, s, v);
      }
      RunKeepsInv(repo, net, vms, asks, Apply(repo, net, s, acts[0]), acts[1..]);
    }
  }

  lemma InvIsUnshared(net: Network, vms: set<Vm>, asks: map<Vm, Addr>, s: State)
    requires Inv(net, vms, asks, s) && DistinctAsks(asks)
    ensures NoSharedAddress(s)
  {
    hide Assignable;
    forall v, w | v in s.calls && w in s.calls && s.calls[v].Got? && s.calls[w].Got? && v != w
      ensures s.calls[v].ip != s.calls[w].ip
    {
      assert Fits(net, asks, s.table, v, s.calls[v]) && Fits(net, asks, s.table, w, s.calls[w]);
      assert v in asks ==> asks[v] in asks.Values;
      assert w in asks ==> asks[w] in asks.Values;
    }
  }

  lemma InitFits(net: Network, vms: set<Vm>, asks: map<Vm, Addr>)
    ensures Inv(net, vms, asks, Init(vms, asks))
  {
  }

  // ----- unsafe calls: a run that shares an address -----

  function Lent(s: State, v: Vm, ip: Addr): State { State(s.table[ip := v], s.calls[v := Got(ip)]) }

  lemma RunTwo(repo: Repo, net: Network, s: State, a: Action, b: Action, rest: seq<Action>)
    requires Enabled(s, a) && Enabled(Apply(repo, net, s, a), b)
    ensures RunTo(repo, net, s, [a, b] + rest) == RunTo(repo, net, Apply(repo, net, Apply(repo, net, s, a), b), rest)
  {
    assert ([a, b] + rest)[1..] == [b] + rest && ([b] + rest)[1..] == rest;
  }

  /** A call of `Lease` that nothing interrupts. */
  lemma LeaseAlone(repo: Repo, net: Network, s: State, v: Vm, ip: Addr, rest: seq<Action>)
    requires v in s.calls && s.calls[v] == Trying(0) && NextIP(s.table.Keys, net) == Some(ip)
    ensures ip !in s.table
    ensures RunTo(repo, net, s, [ReadFree(v), Take(v)] + rest) == RunTo(repo, net, Lent(s, v, ip), rest)
  {
    NextIPIsLowest(s.table.Keys, net);
    var s1 := Apply(repo, net, s, ReadFree(v));
    assert s1.calls[v] == Picked(ip, 0);
    assert Apply(repo, net, s1, Take(v)) == Lent(s, v, ip);
    RunTwo(repo, net, s, ReadFree(v), Take(v), rest);
  }

  /** A call of `LeaseSpecific` that nothing interrupts. */
  lemma AskAlone(repo: Repo, net: Network, s: State, v: Vm, ip: Addr, rest: seq<Action>)
    requires v in s.calls && s.calls[v] == Asking(ip) && ip !in s.table
    ensures RunTo(repo, net, s, [CheckFree(v), TakeAsked(v)] + rest) == RunTo(repo, net, Lent(s, v, ip), rest)
  {
    var s1 := Apply(repo, net, s, CheckFree(v));
    assert Apply(repo, net, s1, TakeAsked(v)) == Lent(s, v, ip);
    RunTwo(repo, net, s, CheckFree(v), TakeAsked(v), rest);
  }

  /** VM `a` has found its address free; the `idle` can take what nobody asks for below it. */
  predicate Filling(net: Network, asks: map<Vm, Addr>, s: State, a: Vm, idle: set<Vm>) {
    && a in asks && a in s.calls && s.calls[a] == Checked(asks[a])
    && Assignable(net, s.table.Keys, asks[a])
    && OthersWait(asks, s, a) && AllIdle(asks, s, idle)
    && |FreeBelow(net, s.table.Keys, asks[a]) - asks.Values| < |idle|
  }

  predicate OthersWait(asks: map<Vm, Addr>, s: State, a: Vm) {
    forall b <- asks :: b != a && asks[b] !in s.table ==> b in s.calls && s.calls[b] == Asking(asks[b])
  }

  predicate AllIdle(asks: map<Vm, Addr>, s: State, idle: set<Vm>) {
    forall v <- idle :: v !in asks && v in s.calls && s.calls[v] == Trying(0)
  }

  lemma StillWaiting(asks: map<Vm, Addr>, s: State, a: Vm, idle: set<Vm>, v: Vm, ip: Addr)
    requires OthersWait(asks, s, a) && AllIdle(asks, s, idle)
    requires v in asks ==> asks[v] == ip
    ensures OthersWait(asks, Lent(s, v, ip), a) && AllIdle(asks, Lent(s, v, ip), idle - {v})
  {
  }

  /** An address below is lent: it is free no more. */
  lemma FreeShrinks(net: Network, asks: map<Vm, Addr>, used: set<Addr>, ip: Addr, top: Addr)
    requires ip in FreeBelow(net, used, top)
    ensures Assignable(net, used, top) ==> Assignable(net, used + {ip}, top)
    ensures |FreeBelow(net, used + {ip}, top)| < |FreeBelow(net, used, top)|
    ensures var before, after := FreeBelow(net, used, top) - asks.Values, FreeBelow(net, used + {ip}, top) - asks.Values;
      |after| == if ip in asks.Values then |before| else |before| - 1
  {
    var before, after := FreeBelow(net, used, top), FreeBelow(net, used + {ip}, top);
    assert after == before - {ip};
    assert after - asks.Values == before - asks.Values - {ip};
  }

  /** The call that took it is done, and the others stand as before. */
  lemma FillingGoesOn(net: Network, asks: map<Vm, Addr>, s: State, a: Vm, idle: set<Vm>, v: Vm, ip: Addr)
    requires Filling(net, asks, s, a, idle) && DistinctAsks(asks) && ip in FreeBelow(net, s.table.Keys, asks[a])
    requires if ip in asks.Values then v in asks && asks[v] == ip else v in idle
    ensures Filling(net, asks, Lent(s, v, ip), a, if ip in asks.Values then idle else idle - {v})
    ensures |FreeBelow(net, Lent(s, v, ip).table.Keys, asks[a])| < |FreeBelow(net, s.table.Keys, asks[a])|
  {
    LentKeeps(net, asks, s, a, idle, v, ip);
    FreeShrinks(net, asks, s.table.Keys, ip, asks[a]);
    hide FreeBelow, Assignable, OthersWait, AllIdle, DistinctAsks, Lent;
    StillWaiting(asks, s, a, idle, v, ip);
    if ip in asks.Values {
      assert idle - {v} == idle;
    }
  }

  lemma LentKeeps(net: Network, asks: map<Vm, Addr>, s: State, a: Vm, idle: set<Vm>, v: Vm, ip: Addr)
    requires Filling(net, asks, s, a, idle) && ip in FreeBelow(net, s.table.Keys, asks[a])
    requires if ip in asks.Values then v in asks && asks[v] == ip else v in idle
    ensures v in asks ==> asks[v] == ip
    ensures ip in asks.Values ==> v !in idle
    ensures var t := Lent(s, v, ip); a in t.calls && t.calls[a] == Checked(asks[a]) && t.table.Keys == s.table.Keys + {ip}
  {
    hide Assignable;
  }

  /** The others take the addresses below; then `Lease` picks the one that VM `a` has found free. */
  lemma {:induction false} FillUp(repo: Repo, net: Network, asks: map<Vm, Addr>, s: State, a: Vm, idle: set<Vm>) returns (acts: seq<Action>)
    requires Filling(net, asks, s, a, idle) && DistinctAsks(asks)
    ensures !NoSharedAddress(RunTo(repo, net, s, acts))
    decreases |FreeBelow(net, s.table.Keys, asks[a])|
  {
    NextIPIsLowest(s.table.Keys, net);
    var ip := NextIP(s.table.Keys, net).value;
    if ip == asks[a] {
      var v :| v in idle;
      acts := [ReadFree(v), Take(v)] + [TakeAsked(a)];
      LeaseAlone(repo, net, s, v, ip, [TakeAsked(a)]);
      TakesToo(repo, net, Lent(s, v, ip), v, a, ip);
    } else if ip in asks.Values {
      var v :| v in asks && asks[v] == ip;
      FillingGoesOn(net, asks, s, a, idle, v, ip);
      var rest := FillUp(repo, net, asks, Lent(s, v, ip), a, idle);
      acts := [CheckFree(v), TakeAsked(v)] + rest;
      AskAlone(repo, net, s, v, ip, rest);
    } else {
      var v :| v in idle;
      FillingGoesOn(net, asks, s, a, idle, v, ip);
      var rest := FillUp(repo, net, asks, Lent(s, v, ip), a, idle - {v});
      acts := [ReadFree(v), Take(v)] + rest;
      LeaseAlone(repo, net, s, v, ip, rest);
    }
  }

  /** VM `a` takes an address that it found free and another has got since. */
  lemma TakesToo(repo: Repo, net: Network, s: State, v: Vm, a: Vm, ip: Addr)
    requires v != a && v in s.calls && s.calls[v] == Got(ip) && a in s.calls && s.calls[a] == Checked(ip)
    ensures !NoSharedAddress(RunTo(repo, net, s, [TakeAsked(a)]))
  {
    var t := Apply(repo, net, s, TakeAsked(a));
    assert RunTo(repo, net, t, []) == t && [TakeAsked(a)][1..] == [];
    assert t.calls[v] == Got(ip) && t.calls[a] == Got(ip);
  }

  /** An address asked for that `Lease` can reach is shared, whatever the repository answers. */
  lemma ReachedIsShared(repo: Repo, net: Network, vms: set<Vm>, asks: map<Vm, Addr>, a: Vm) returns (acts: seq<Action>)
    requires a in asks && DistinctAsks(asks) && WithinReach(net, vms, asks, asks[a])
    ensures !NoSharedAddress(RunTo(repo, net, Init(vms, asks), acts))
  {
    var s := Init(vms, asks);
    var s1 := Apply(repo, net, s, CheckFree(a));
    assert s1.table.Keys == {};
    assert FreeBelow(net, {}, asks[a]) - asks.Values == Before(net, asks, asks[a]);
    var rest := FillUp(repo, net, asks, s1, a, Leasers(vms, asks));
    acts := [CheckFree(a)] + rest;
    assert acts[1..] == rest;
  }

  /** Two callers of `Lease` race for the first free address of a repository that hands out a taken one. */
  lemma RaceSharesAddress(net: Network, vms: set<Vm>, asks: map<Vm, Addr>, v: Vm, w: Vm, ip: Addr)
    requires v != w && {v, w} <= Leasers(vms, asks) && NextIP({}, net) == Some(ip)
    ensures !NoSharedAddress(RunTo(ReturnExisting, net, Init(vms, asks), [ReadFree(v), ReadFree(w), Take(v), Take(w)]))
  {
    var r := ReturnExisting;
    var s := Init(vms, asks);
    assert s.table.Keys == {};
    var s1 := Apply(r, net, s, ReadFree(v));
    var s2 := Apply(r, net, s1, ReadFree(w));
    var s3 := Apply(r, net, s2, Take(v));
    var s4 := Apply(r, net, s3, Take(w));
    assert s4.calls[v] == Got(ip) && s4.calls[w] == Got(ip);
    RunTwo(r, net, s, ReadFree(v), ReadFree(w), [Take(v), Take(w)]);
    RunTwo(r, net, s2, Take(v), Take(w), []);
    assert [ReadFree(v), ReadFree(w)] + [Take(v), Take(w)] == [ReadFree(v), ReadFree(w), Take(v), Take(w)];
    assert [Take(v), Take(w)] + [] == [Take(v), Take(w)];
  }

  /** Two VMs that ask for one address both find it free, and both get it, whatever the repository answers. */
  lemma AskedTwice(repo: Repo, net: Network, vms: set<Vm>, asks: map<Vm, Addr>, v: Vm, w: Vm)
    requires v != w && v in asks && w in asks && asks[v] == asks[w]
    ensures !NoSharedAddress(RunTo(repo, net, Init(vms, asks), [CheckFree(v), CheckFree(w), TakeAsked(v), TakeAsked(w)]))
  {
    var ip := asks[v];
    var s := Init(vms, asks);
    var s1 := Apply(repo, net, s, CheckFree(v));
    var s2 := Apply(repo, net, s1, CheckFree(w));
    var s3 := Apply(repo, net, s2, TakeAsked(v));
    var s4 := Apply(repo, net, s3, TakeAsked(w));
    assert s4.calls[v] == Got(ip) && s4.calls[w] == Got(ip);
    RunTwo(repo, net, s, CheckFree(v), CheckFree(w), [TakeAsked(v), TakeAsked(w)]);
    RunTwo(repo, net, s2, TakeAsked(v), TakeAsked(w), []);
    assert [CheckFree(v), CheckFree(w)] + [TakeAsked(v), TakeAsked(w)] == [CheckFree(v), CheckFree(w), TakeAsked(v), TakeAsked(w)];
    assert [TakeAsked(v), TakeAsked(w)] + [] == [TakeAsked(v), TakeAsked(w)];
  }

  lemma TwoOf(vms: set<Vm>) returns (v: Vm, w: Vm)
    requires |vms| > 1
    ensures v != w && {v, w} <= vms
  {
    v :| v in vms;
    assert |vms - {v}| > 0;
    w :| w in vms - {v};
  }

  /** No interleaving of these calls shares an address exactly when they are safe together. */
  lemma NeverSharesExactlyWhenSafe(repo: Repo, net: Network, vms: set<Vm>, asks: map<Vm, Addr>)
    ensures NeverShares(repo, net, vms, asks) <==> SafeTogether(repo, net, vms, asks)
  {
    hide Init, RunTo, NoSharedAddress, Inv, WithinReach, Leasers;
    if SafeTogether(repo, net, vms, asks) {
      InitFits(net, vms, asks);
      forall acts ensures NoSharedAddress(RunTo(repo, net, Init(vms, asks), acts)) {
        RunKeepsInv(repo, net, vms, asks, Init(vms, asks), acts);
        InvIsUnshared(net, vms, asks, RunTo(repo, net, Init(vms, asks), acts));
      }
    } else if !DistinctAsks(asks) {
      var v, w :| v in asks && w in asks && v != w && asks[v] == asks[w];
      AskedTwice(repo, net, vms, asks, v, w);
    } else if a :| a in asks && WithinReach(net, vms, asks, asks[a]) {
      var acts := ReachedIsShared(repo, net, vms, asks, a);
    } else {
      var v, w := TwoOf(Leasers(vms, asks));
      RaceSharesAddress(net, vms, asks, v, w, NextIP({}, net).value);
    }
  }

  /** Where nobody calls `Lease`, the calls never share an address exactly when the addresses asked for differ. */
  lemma DistinctAsksSuffice(repo: Repo, net: Network, vms: set<Vm>, asks: map<Vm, Addr>)
    requires vms <= asks.Keys
    ensures NeverShares(repo, net, vms, asks) <==> DistinctAsks(asks)
  {
    NeverSharesExactlyWhenSafe(repo, net, vms, asks);
    assert Leasers(vms, asks) == {};
  }

  /** No run shares an address; `asking`: calls of `LeaseSpecific` occur. */
  ghost predicate NeverShared(repo: Repo, net: Network, asking: bool) {
    forall vms, asks :: asking || asks == map[] ==> NeverShares(repo, net, vms, asks)
  }

  /**
   On a network with a free address, whatever calls there are, they never share an address exactly
   when the repository refuses a taken one and nobody asks for a specific address.
   */
  lemma NeverSharedExactlyWhenRefusedAndUnasked(repo: Repo, net: Network, asking: bool)
    requires NextIP({}, net).Some?
    ensures NeverShared(repo, net, asking) <==> repo == InsertOrIgnore && !asking
  {
    hide NeverShares, NextIP, WithinReach;
    if asking {
      var asks := map[0 := 0, 1 := 0];
      NeverSharesExactlyWhenSafe(repo, net, {}, asks);
      assert 0 in asks && 1 in asks;
    } else if repo == ReturnExisting {
      NeverSharesExactlyWhenSafe(repo, net, {0, 1}, map[]);
      assert Leasers({0, 1}, map[]) == {0, 1};
    } else {
      forall vms, asks: map<Vm, Addr> | asks == map[] { NeverSharesExactlyWhenSafe(repo, net, vms, asks); }
    }
  }
}
