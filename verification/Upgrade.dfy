/**
 The agent upgrade lock of one VM: a row with a flag and a start time, written by any number of
 clients that run interleaved. A client reads the row, is refused or clears a stale lock, probes
 the agent, and on finding an older one sets the lock, upgrades and clears the lock. A failed
 write is only logged, and so is finding the lock already set.
 */
module Upgrade {
  import opened Options

  const STALE_AFTER := 60

  /** `owner` is who set the lock last: a fact about the run that the table does not store. */
  datatype Row = Row(upgrading: bool, startedAt: Option<nat>, owner: Option<nat>)

  const UNLOCKED := Row(false, None, None)


  datatype Phase =
    | Idle
    | HasRead(seen: Row)
    | SawStale
    | Refused
    | Ready
    | Starting            // upgrade decided, lock not yet asked for
    | Upgrading           // `upgradeInProgress`, also after the caller gave up waiting
    | Finishing           // upgrade over, lock not yet cleared
    | Crashed

  datatype Event = Set(client: nat) | Clear(client: nat)

  /** `log` is every successful set and clear so far. */
  datatype State = State(row: Row, clients: seq<Phase>, now: nat, log: seq<Event>)

  datatype Action =
    | Read
    | Check
    | ClearStale(written: bool)
    | FindOlderAgent
    | SetLock(written: bool)
    | FinishUpgrade
    | ClearLock(written: bool)
    | Crash
    | Wait(seconds: nat)

  /** A lock that keeps new clients out: held, and younger than a minute. */
  predicate KeepsOut(row: Row, now: nat) {
    row.upgrading && row.startedAt.Some? && now - row.startedAt.value < STALE_AFTER
  }

  /** Where the check of the row that was read leads: out, to clearing a stale lock, or on. */
  function Checked(seen: Row, now: nat): Phase {
    if KeepsOut(seen, now) then Refused else if seen.upgrading then SawStale else Ready
  }

  /** The set statement only matches an unlocked row. */
  function RowSet(row: Row, now: nat, client: nat): Row {
    if row.upgrading then row else Row(true, Some(now), Some(client))
  }

  function Cleared(s: State, i: nat, written: bool, phase: Phase): State
    requires i < |s.clients|
  {
    if written
    then State(UNLOCKED, s.clients[i := phase], s.now, s.log + [Clear(i)])
    else s.(clients := s.clients[i := phase])
  }

  function LockSet(s: State, i: nat, written: bool): State
    requires i < |s.clients|
  {
    if written && !s.row.upgrading
    then State(RowSet(s.row, s.now, i), s.clients[i := Upgrading], s.now, s.log + [Set(i)])
    else s.(clients := s.clients[i := Upgrading])
  }

  /** One step of client `i`; an action that is not its turn changes nothing. */
  function Next(s: State, i: nat, a: Action): State {
    if i >= |s.clients| then s
    else
      match (s.clients[i], a)
      case (Idle, Read) => s.(clients := s.clients[i := HasRead(s.row)])
      case (HasRead(seen), Check) =>
        s.(clients := s.clients[i := Checked(seen, s.now)])
      case (SawStale, ClearStale(written)) => Cleared(s, i, written, Ready)
      case (Ready, FindOlderAgent) => s.(clients := s.clients[i := Starting])
      case (Starting, SetLock(written)) => LockSet(s, i, written)
      case (Upgrading, FinishUpgrade) => s.(clients := s.clients[i := Finishing])
      case (Finishing, ClearLock(written)) => Cleared(s, i, written, Ready)
      case (_, Crash) => s.(clients := s.clients[i := Crashed])
      case (_, Wait(seconds)) => s.(now := s.now + seconds)
      case _ => s
  }

  function Run(s: State, steps: seq<(nat, Action)>): State
    decreases |steps|
  {
    if steps == [] then s else Run(Next(s, steps[0].0, steps[0].1), steps[1..])
  }

  function Start(n: nat, now: nat): State {
    State(UNLOCKED, seq(n, _ => Idle), now, [])
  }

  // --- the row ---

  /** The start time is recorded exactly while the lock is held. */
  predicate RowValid(row: Row) {
    && (row.upgrading <==> row.startedAt.Some?)
    && (row.upgrading <==> row.owner.Some?)
  }

  /** The lock is held iff the last event is a set, and no two sets follow each other. */
  predicate LogValid(s: State) {
    && (s.row.upgrading <==> s.log != [] && s.log[|s.log| - 1].Set?)
    && (forall k :: 0 <= k && k + 1 < |s.log| ==> !(s.log[k].Set? && s.log[k + 1].Set?))
  }

  lemma StepKeepsRow(s: State, i: nat, a: Action)
    requires RowValid(s.row) && LogValid(s)
    ensures RowValid(Next(s, i, a).row) && LogValid(Next(s, i, a))
  {
  }

  /** In every run, the start time is set exactly while the lock is held. */
  lemma {:induction false} RunKeepsRow(s: State, steps: seq<(nat, Action)>)
    requires RowValid(s.row) && LogValid(s)
    ensures RowValid(Run(s, steps).row) && LogValid(Run(s, steps))
    decreases |steps|
  {
    if steps != [] {
      StepKeepsRow(s, steps[0].0, steps[0].1);
      RunKeepsRow(Next(s, steps[0].0, steps[0].1), steps[1..]);
    }
  }

  /** In every run, two successful sets have a clear between them. */
  lemma ClearBetweenSets(n: nat, now: nat, steps: seq<(nat, Action)>, j: nat, k: nat)
    requires j < k < |Run(Start(n, now), steps).log|
    requires Run(Start(n, now), steps).log[j].Set? && Run(Start(n, now), steps).log[k].Set?
    ensures exists c :: j < c < k && Run(Start(n, now), steps).log[c].Clear?
  {
    RunKeepsRow(Start(n, now), steps);
    var log := Run(Start(n, now), steps).log;
    assert !(log[j].Set? && log[j + 1].Set?);
    assert log[j + 1].Clear?;
  }

  // --- who holds the lock ---

  predicate Active(p: Phase) { p.Upgrading? || p.Finishing? || p.Crashed? }

  /** A held lock belongs to a client whose upgrade is in flight, not yet cleared, or crashed. */
  predicate OwnerActive(s: State) {
    s.row.upgrading ==> s.row.owner.Some? && s.row.owner.value < |s.clients| && Active(s.clients[s.row.owner.value])
  }

  predicate ClearsWritten(steps: seq<(nat, Action)>) {
    forall k :: 0 <= k < |steps| && steps[k].1.ClearLock? ==> steps[k].1.written
  }

  lemma StepKeepsOwner(s: State, i: nat, a: Action)
    requires OwnerActive(s) && (a.ClearLock? ==> a.written)
    ensures OwnerActive(Next(s, i, a))
  {
  }

  lemma {:induction false} RunKeepsOwner(s: State, steps: seq<(nat, Action)>)
    requires OwnerActive(s) && ClearsWritten(steps)
    ensures OwnerActive(Run(s, steps))
    decreases |steps|
  {
    if steps != [] {
      assert steps[0].1.ClearLock? ==> steps[0].1.written;
      StepKeepsOwner(s, steps[0].0, steps[0].1);
      assert forall k :: 0 <= k < |steps| - 1 ==> steps[1..][k] == steps[k + 1];
      RunKeepsOwner(Next(s, steps[0].0, steps[0].1), steps[1..]);
    }
  }

  /** Every run of `n` clients keeps the owner active; `clearsFail`: a clear may be lost. */
  ghost predicate AlwaysOwned(n: nat, now: nat, clearsFail: bool) {
    forall steps :: clearsFail || ClearsWritten(steps) ==> OwnerActive(Run(Start(n, now), steps))
  }

  lemma RunStep(s: State, steps: seq<(nat, Action)>)
    requires steps != []
    ensures Run(s, steps) == Run(Next(s, steps[0].0, steps[0].1), steps[1..])
  {
  }

  lemma {:induction false} RunConcat(s: State, a: seq<(nat, Action)>, b: seq<(nat, Action)>)
    ensures Run(s, a + b) == Run(Run(s, a), b)
    decreases |a|
  {
    if a == [] {
      assert a + b == b;
    } else {
      assert (a + b)[1..] == a[1..] + b;
      RunConcat(Next(s, a[0].0, a[0].1), a[1..], b);
    }
  }

  /** One client takes the lock and is upgrading. */
  lemma TakesLock(s: State, i: nat)
    requires i < |s.clients| && s.clients[i].Idle? && s.row == UNLOCKED
    ensures Run(s, [(i, Read), (i, Check), (i, FindOlderAgent), (i, SetLock(true))])
         == State(Row(true, Some(s.now), Some(i)), s.clients[i := Upgrading], s.now, s.log + [Set(i)])
  {
    var s1 := s.(clients := s.clients[i := HasRead(UNLOCKED)]);
    var s2 := s.(clients := s.clients[i := Ready]);
    var s3 := s.(clients := s.clients[i := Starting]);
    assert Next(s, i, Read) == s1 && Next(s1, i, Check) == s2 && Next(s2, i, FindOlderAgent) == s3;
    var steps: seq<(nat, Action)> := [(i, Read), (i, Check), (i, FindOlderAgent), (i, SetLock(true))];
    RunStep(s, steps);
    RunStep(s1, steps[1..]);
    RunStep(s2, steps[2..]);
    RunStep(s3, steps[3..]);
  }

  /** A held lock belongs to a live or crashed upgrade in every run exactly if no clear can be lost. */
  lemma OwnedExactlyWhenClearsLast(n: nat, now: nat, clearsFail: bool)
    ensures AlwaysOwned(n, now, clearsFail) <==> !clearsFail || n == 0
  {
    if !clearsFail {
      forall steps | ClearsWritten(steps) ensures OwnerActive(Run(Start(n, now), steps)) {
        RunKeepsOwner(Start(n, now), steps);
      }
    } else if n == 0 {
      forall steps ensures OwnerActive(Run(Start(0, now), steps)) { NobodyActs(Start(0, now), steps); }
    } else {
      var s := Start(n, now);
      var take: seq<(nat, Action)> := [(0, Read), (0, Check), (0, FindOlderAgent), (0, SetLock(true))];
      var end: seq<(nat, Action)> := [(0, FinishUpgrade), (0, ClearLock(false))];
      TakesLock(s, 0);
      RunConcat(s, take, end);
      var held := Run(s, take);
      var finishing := held.(clients := held.clients[0 := Finishing]);
      assert Next(held, 0, FinishUpgrade) == finishing;
      RunStep(held, end);
      RunStep(finishing, end[1..]);
      assert Run(s, take + end).clients[0] == Ready;
      assert !OwnerActive(Run(s, take + end));
    }
  }

  lemma {:induction false} NobodyActs(s: State, steps: seq<(nat, Action)>)
    requires s.clients == []
    ensures Run(s, steps) == s
    decreases |steps|
  {
    if steps != [] { NobodyActs(s, steps[1..]); }
  }

  // --- exclusion of upgrades ---

  /** At most one client is upgrading the agent. */
  predicate Exclusive(s: State) {
    forall i, j :: 0 <= i < |s.clients| && 0 <= j < |s.clients| && s.clients[i].Upgrading? && s.clients[j].Upgrading? ==> i == j
  }

  ghost predicate AlwaysExclusive(n: nat, now: nat) {
    forall steps :: Exclusive(Run(Start(n, now), steps))
  }

  lemma {:induction false} RunKeepsClients(s: State, steps: seq<(nat, Action)>)
    ensures |Run(s, steps).clients| == |s.clients|
    decreases |steps|
  {
    if steps != [] { RunKeepsClients(Next(s, steps[0].0, steps[0].1), steps[1..]); }
  }

  /** The lock does not keep upgrades apart: only a lone client never upgrades beside another. */
  lemma ExclusiveExactlyWhenAlone(n: nat, now: nat)
    ensures AlwaysExclusive(n, now) <==> n <= 1
  {
    var s := Start(n, now);
    if n <= 1 {
      forall steps ensures Exclusive(Run(s, steps)) { RunKeepsClients(s, steps); }
    } else {
      // Both clients read the row before either sets it; the second finds the lock held and goes on.
      var first: seq<(nat, Action)> := [(1, Read), (1, Check)];
      var take: seq<(nat, Action)> := [(0, Read), (0, Check), (0, FindOlderAgent), (0, SetLock(true))];
      var second: seq<(nat, Action)> := [(1, FindOlderAgent), (1, SetLock(true))];
      var read := s.(clients := s.clients[1 := HasRead(UNLOCKED)]);
      var ready := s.(clients := s.clients[1 := Ready]);
      assert Next(s, 1, Read) == read && Next(read, 1, Check) == ready;
      RunStep(s, first);
      RunStep(read, first[1..]);
      TakesLock(ready, 0);
      var held := Run(ready, take);
      var starting := held.(clients := held.clients[1 := Starting]);
      assert Next(held, 1, FindOlderAgent) == starting;
      RunStep(held, second);
      RunStep(starting, second[1..]);
      RunConcat(s, first, take);
      RunConcat(s, first + take, second);
      var both := Run(s, first + take + second);
      assert both.clients[0].Upgrading? && both.clients[1].Upgrading?;
      assert !Exclusive(both);
    }
  }

  /** What a run would have to be like for the lock to work: sets are heeded, stale locks left alone. */
  predicate Heeded(s: State, i: nat, a: Action) {
    && (a.SetLock? && i < |s.clients| && s.clients[i].Starting? ==> a.written && !s.row.upgrading)
    && (a.ClearStale? ==> !a.written)
  }

  predicate HeededRun(s: State, steps: seq<(nat, Action)>)
    decreases |steps|
  {
    steps == [] || (Heeded(s, steps[0].0, steps[0].1) && HeededRun(Next(s, steps[0].0, steps[0].1), steps[1..]))
  }

  /** Whoever upgrades, or has not cleared yet, owns the lock. */
  predicate LockIsTheirs(s: State) {
    && RowValid(s.row)
    && forall i :: 0 <= i < |s.clients| && (s.clients[i].Upgrading? || s.clients[i].Finishing?) ==> s.row.owner == Some(i)
  }

  lemma {:induction false} HeededRunIsExclusive(s: State, steps: seq<(nat, Action)>)
    requires LockIsTheirs(s) && HeededRun(s, steps)
    ensures LockIsTheirs(Run(s, steps)) && Exclusive(Run(s, steps))
    decreases |steps|
  {
    if steps != [] {
      HeededRunIsExclusive(Next(s, steps[0].0, steps[0].1), steps[1..]);
    }
  }

  /** Some run of `n` clients gets there. */
  ghost predicate Reachable(n: nat, now: nat, s: State) {
    exists steps :: Run(Start(n, now), steps) == s
  }

  lemma ReachNext(n: nat, now: nat, s: State, i: nat, a: Action, next: State)
    requires Reachable(n, now, s) && Next(s, i, a) == next
    ensures Reachable(n, now, next)
  {
    var steps :| Run(Start(n, now), steps) == s;
    RunConcat(Start(n, now), steps, [(i, a)]);
    assert [(i, a)][1..] == [] && Run(s, [(i, a)]) == next;
    assert Run(Start(n, now), steps + [(i, a)]) == next;
  }

  // --- fresh locks ---

  /** Client `i`'s step clears the row, whatever stands in it. */
  predicate Clears(s: State, i: nat, a: Action) {
    i < |s.clients|
    && ((s.clients[i].SawStale? && a == ClearStale(true)) || (s.clients[i].Finishing? && a == ClearLock(true)))
  }

  /** The step takes away a lock that would still keep new clients out, and that another client set. */
  predicate TakesFresh(s: State, i: nat, a: Action) {
    Clears(s, i, a) && KeepsOut(s.row, s.now) && s.row.owner != Some(i)
  }

  /** In every run of `n` clients, no step takes another's fresh lock away. */
  ghost predicate AlwaysFair(n: nat, now: nat) {
    forall steps: seq<(nat, Action)>, i: nat, a: Action :: !TakesFresh(Run(Start(n, now), steps), i, a)
  }

  /** Locks are set by the clients there are. */
  predicate OwnerExists(s: State) { RowValid(s.row) && (s.row.owner.Some? ==> s.row.owner.value < |s.clients|) }

  lemma {:induction false} RunKeepsOwnerExists(s: State, steps: seq<(nat, Action)>)
    requires OwnerExists(s)
    ensures OwnerExists(Run(s, steps)) && |Run(s, steps).clients| == |s.clients|
    decreases |steps|
  {
    if steps != [] { RunKeepsOwnerExists(Next(s, steps[0].0, steps[0].1), steps[1..]); }
  }

  /** Client 0's lock is a minute old and client 1 has seen it; client 0 finishes meanwhile. */
  lemma StaleSeen(n: nat, now: nat)
    requires n >= 2
    ensures var c := Start(n, now).clients;
      Reachable(n, now, State(Row(true, Some(now), Some(0)), c[0 := Finishing][1 := SawStale], now + 60, [Set(0)]))
  {
    hide Run, Reachable;
    var s := Start(n, now);
    var c, row := s.clients, Row(true, Some(now), Some(0));
    TakesLock(s, 0);
    RunReaches(n, now, [(0, Read), (0, Check), (0, FindOlderAgent), (0, SetLock(true))]);
    var held := c[0 := Upgrading];
    var s1 := State(row, held, now, [Set(0)]);
    var s2 := s1.(now := now + 60);
    var s3 := s2.(clients := held[1 := HasRead(row)]);
    var s4 := s2.(clients := held[1 := SawStale]);
    var s5 := s2.(clients := c[0 := Finishing][1 := SawStale]);
    ReachNext(n, now, s1, 0, Wait(60), s2);
    ReachNext(n, now, s2, 1, Read, s3);
    assert held[1 := HasRead(row)][1 := SawStale] == held[1 := SawStale];
    ReachNext(n, now, s3, 1, Check, s4);
    assert held[1 := SawStale][0 := Finishing] == c[0 := Finishing][1 := SawStale];
    ReachNext(n, now, s4, 0, FinishUpgrade, s5);
  }

  lemma RunReaches(n: nat, now: nat, steps: seq<(nat, Action)>)
    ensures Reachable(n, now, Run(Start(n, now), steps))
  {
  }

  /** With two clients: the one that saw the stale lock may clear the next, fresh lock of the other. */
  lemma FreshLockClearedByStaleReader(n: nat, now: nat)
    requires n >= 2
    ensures exists s: State ::
      && Reachable(n, now, s) && TakesFresh(s, 1, ClearStale(true))
      && s.clients[0].Upgrading? && s.row == Row(true, Some(s.now), Some(0))
  {
    hide Run, Reachable;
    StaleSeen(n, now);
    var c, t := Start(n, now).clients, now + 60;
    var d := c[1 := SawStale];
    var s5 := State(Row(true, Some(now), Some(0)), c[0 := Finishing][1 := SawStale], t, [Set(0)]);
    var s6 := State(UNLOCKED, d[0 := Ready], t, [Set(0), Clear(0)]);
    var s7 := s6.(clients := d[0 := Starting]);
    var s8 := State(Row(true, Some(t), Some(0)), d[0 := Upgrading], t, [Set(0), Clear(0), Set(0)]);
    assert s5.clients[0 := Ready] == s6.clients && s6.clients[0 := Starting] == s7.clients && s7.clients[0 := Upgrading] == s8.clients;
    ReachNext(n, now, s5, 0, ClearLock(true), s6);
    ReachNext(n, now, s6, 0, FindOlderAgent, s7);
    ReachNext(n, now, s7, 0, SetLock(true), s8);
    assert TakesFresh(s8, 1, ClearStale(true));
  }

  /** No step ever takes another client's fresh lock away exactly when there is at most one client. */
  lemma FreshLocksSafeExactlyWhenAlone(n: nat, now: nat)
    ensures AlwaysFair(n, now) <==> n <= 1
  {
    var start := Start(n, now);
    if n <= 1 {
      forall steps: seq<(nat, Action)>, i: nat, a: Action ensures !TakesFresh(Run(start, steps), i, a) {
        RunKeepsOwnerExists(start, steps);
      }
    } else {
      FreshLockClearedByStaleReader(n, now);
      var s: State :| Reachable(n, now, s) && TakesFresh(s, 1, ClearStale(true));
      var steps :| Run(start, steps) == s;
    }
  }

  // --- the program, on the table ---

  /** Rows by VM id, as the repository keeps them. */
  class VsockRepo {
    var rows: map<string, Row>

    constructor ()
      ensures rows == map[]
    {
      rows := map[];
    }

    /** Fails on a missing row just as on a held lock. */
    method SetUpgradeLock(vmID: string, now: nat, client: nat) returns (ok: bool)
      modifies this
      ensures ok <==> vmID in old(rows) && !old(rows)[vmID].upgrading
      ensures rows == if vmID in old(rows) then old(rows)[vmID := RowSet(old(rows)[vmID], now, client)] else old(rows)
    {
      if vmID !in rows { return false; }
      if rows[vmID].upgrading {
        assert rows == rows[vmID := rows[vmID]];
        return false;
      }
      rows := rows[vmID := Row(true, Some(now), Some(client))];
      ok := true;
    }

    method ClearUpgradeLock(vmID: string)
      modifies this
      ensures rows == if vmID in old(rows) then old(rows)[vmID := UNLOCKED] else old(rows)
    {
      if vmID in rows {
        rows := rows[vmID := UNLOCKED];
      }
    }

    /** The check of the row that was read, and the clearing of a stale lock, whatever the row holds by now. */
    method NewVsockClient(vmID: string, cfg: Row, now: nat, written: bool) returns (refused: bool)
      modifies this
      ensures refused <==> Checked(cfg, now).Refused?
      ensures rows ==
        if Checked(cfg, now).SawStale? && written && vmID in old(rows) then old(rows)[vmID := UNLOCKED] else old(rows)
    {
      if cfg.upgrading {
        if cfg.startedAt.Some? && now - cfg.startedAt.value < STALE_AFTER { return true; }
        if written {
          ClearUpgradeLock(vmID);
        }
      }
      refused := false;
    }
  }

  /** The steps of a run write the row as those methods do, and nothing else writes it. */
  lemma StepsWriteTheRow(s: State, i: nat, a: Action)
    requires i < |s.clients|
    ensures Next(s, i, a).row ==
      if Clears(s, i, a) then UNLOCKED
      else if s.clients[i].Starting? && a == SetLock(true) then RowSet(s.row, s.now, i)
      else s.row
    ensures s.clients[i].HasRead? && a.Check? ==> Next(s, i, a).clients[i] == Checked(s.clients[i].seen, s.now)
  {
  }
}
