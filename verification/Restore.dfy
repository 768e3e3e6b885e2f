/**
 The per-VM loop of `SnapshotRestore` and `cleanupRestoredVM` (pkg/api/snapshot.go:332-621):
 what each way out leaves in the VM table and in the lease table.
 */
module Restore {
  import opened Leases
  import opened Options

  datatype Status = Stopped | Paused | Running | Errored

  datatype VMRow = VMRow(name: string, status: Status, networkID: string, ipv4: Addr)

  /** A VM as it is returned to the caller. */
  datatype Item = Item(id: string, name: string)

  /** The fallible steps for one VM, in the order they are taken. */
  datatype Step =
    | Mkdir | CopyRootfs | NewLeaseController | LeaseIP | EnsureTap | UpsertRecord
    | PersistVsock | Respawn | RemoveLink | CreateLink | LoadSnapshot | MarkErrored

  /**
   What the host answers: which steps fail for which VM, the snapshot's contents, and for which
   VM ids the cleanup's release and delete fail, which is not noticed.
   */
  datatype Env = Env(fails: set<(nat, Step)>, hasVsock: bool, hasState: set<nat>, resume: bool,
                     unreleased: set<string>, undeleted: set<string>) {
    predicate Fails(i: nat, s: Step) { (i, s) in fails }

    /** The step at which VM i's restore makes the whole call return, with `left` addresses to lease at its start. */
    function Exit(i: nat, left: nat): Option<Step> {
      if Fails(i, Mkdir) then Some(Mkdir)
      else if Fails(i, CopyRootfs) then Some(CopyRootfs)
      else if Fails(i, NewLeaseController) then Some(NewLeaseController)
      else if Fails(i, LeaseIP) || i >= left then Some(LeaseIP)
      else if Fails(i, EnsureTap) then Some(EnsureTap)
      else if Fails(i, UpsertRecord) then Some(UpsertRecord)
      else if hasVsock && Fails(i, PersistVsock) then Some(PersistVsock)
      else if Fails(i, Respawn) || i !in hasState then None
      else if Fails(i, RemoveLink) then Some(RemoveLink)
      else if Fails(i, CreateLink) then Some(CreateLink)
      else None
    }

    /** VM i's restore is counted as an error, and the loop goes on. */
    predicate MarksError(i: nat) {
      Fails(i, Respawn) || (i in hasState && Fails(i, LoadSnapshot))
    }

    /** The row shows the error: the status write is best effort. */
    predicate ShowsError(i: nat) { MarksError(i) && !Fails(i, MarkErrored) }
  }

  /** The exits on which the code cleans up the VMs created so far. */
  predicate RollsBack(s: Step) {
    s in {Mkdir, CopyRootfs, NewLeaseController, LeaseIP, EnsureTap, UpsertRecord}
  }

  /** The exits that come after VM i's lease was taken. */
  predicate HoldsLease(s: Step) { s !in {Mkdir, CopyRootfs, NewLeaseController, LeaseIP} }

  datatype Outcome = Aborted(at: Step, i: nat) | Completed(created: seq<Item>, errors: nat)

  predicate LeasesOf(ls: seq<Lease>, ids: seq<string>, networkID: string) {
    |ls| == |ids| && forall j | 0 <= j < |ls| :: ls[j].vmID == Some(ids[j]) && ls[j].networkID == networkID
  }

  /** VM ids are hashes of the name and the time: distinct, non-empty and not in use. */
  predicate FreshIDs(ids: seq<string>, vms: map<string, VMRow>, leases: seq<Lease>) {
    && (forall i | 0 <= i < |ids| :: ids[i] != "" && ids[i] !in vms)
    && (forall i, j | 0 <= i < j < |ids| :: ids[i] != ids[j])
    && (forall i, l | 0 <= i < |ids| && l in leases :: l.vmID != Some(ids[i]))
  }

  function CountErrors(env: Env, n: nat): nat {
    if n == 0 then 0 else CountErrors(env, n - 1) + if env.MarksError(n - 1) then 1 else 0
  }

  /** The rows of the first n VMs, as the table shows them. */
  predicate RowsAdded(before: map<string, VMRow>, after: map<string, VMRow>, ids: seq<string>, names: seq<string>)
    requires |ids| <= |names|
  {
    && after.Keys == before.Keys + (set id | id in ids)
    && (forall id <- before :: after[id] == before[id])
    && (forall j | 0 <= j < |ids| :: ids[j] in after && after[ids[j]].name == names[j])
  }

  lemma {:induction false} KeptConcat(a: seq<Lease>, b: seq<Lease>, vmID: string)
    ensures KeptByOthers(a + b, vmID) == KeptByOthers(a, vmID) + KeptByOthers(b, vmID)
    decreases |b|
  {
    if b == [] {
      assert a + b == a;
    } else {
      var n := |b| - 1;
      assert (a + b)[..|a| + n] == a + b[..n];
      KeptConcat(a, b[..n], vmID);
    }
  }

  lemma {:induction false} KeptAll(ls: seq<Lease>, vmID: string)
    requires forall l <- ls :: l.vmID != Some(vmID)
    ensures KeptByOthers(ls, vmID) == ls
    decreases |ls|
  {
    if ls != [] {
      var n := |ls| - 1;
      assert ls[n] in ls;
      KeptAll(ls[..n], vmID);
      assert ls == ls[..n] + [ls[n]];
    }
  }

  /** Releasing by VM removes exactly that VM's lease from the middle of the table. */
  lemma KeptAround(before: seq<Lease>, own: Lease, after: seq<Lease>, vmID: string)
    requires own.vmID == Some(vmID)
    requires (forall l <- before :: l.vmID != Some(vmID)) && (forall l <- after :: l.vmID != Some(vmID))
    ensures KeptByOthers(before + [own] + after, vmID) == before + after
  {
    hide KeptByOthers;
    KeptAll(before, vmID);
    KeptAll(after, vmID);
    KeptNone(own, vmID);
    KeptConcat(before, [own], vmID);
    assert KeptByOthers(before + [own], vmID) == before;
    KeptConcat(before + [own], after, vmID);
  }

  lemma KeptNone(own: Lease, vmID: string)
    requires own.vmID == Some(vmID)
    ensures KeptByOthers([own], vmID) == []
  {
    assert [own][..0] == [];
  }

  /** The lease table after one VM's cleanup. */
  function Cleaned(ls: seq<Lease>, id: string, unreleased: set<string>): seq<Lease> {
    if id in unreleased then ls else KeptByOthers(ls, id)
  }

  function CleanedAll(ls: seq<Lease>, ids: seq<string>, unreleased: set<string>): seq<Lease>
    decreases |ids|
  {
    if ids == [] then ls else CleanedAll(Cleaned(ls, ids[0], unreleased), ids[1..], unreleased)
  }

  /** The ids among which the cleanup fails, in order. */
  function Among(ids: seq<string>, bad: set<string>): seq<string> {
    if ids == [] then [] else (if ids[0] in bad then [ids[0]] else []) + Among(ids[1..], bad)
  }

  /** The leases of the VMs whose release fails. */
  function Stuck(added: seq<Lease>, ids: seq<string>, unreleased: set<string>): seq<Lease>
    requires |added| == |ids|
  {
    if ids == [] then []
    else (if ids[0] in unreleased then [added[0]] else []) + Stuck(added[1..], ids[1..], unreleased)
  }

  lemma {:induction false} StuckLeasesOf(added: seq<Lease>, ids: seq<string>, unreleased: set<string>, networkID: string)
    requires LeasesOf(added, ids, networkID)
    ensures LeasesOf(Stuck(added, ids, unreleased), Among(ids, unreleased), networkID)
  {
    if ids != [] {
      LeasesOfTail(added, ids, networkID);
      StuckLeasesOf(added[1..], ids[1..], unreleased, networkID);
    }
  }

  lemma LeasesOfTail(added: seq<Lease>, ids: seq<string>, networkID: string)
    requires LeasesOf(added, ids, networkID) && ids != []
    ensures added[0].vmID == Some(ids[0]) && added[0].networkID == networkID
    ensures LeasesOf(added[1..], ids[1..], networkID)
  {
    forall j | 0 <= j < |ids| - 1 ensures added[1..][j] == added[j + 1] && ids[1..][j] == ids[j + 1] {}
  }

  /** Nobody in `ls` holds a lease for one of these VMs. */
  predicate NotHeld(ls: seq<Lease>, ids: seq<string>) {
    forall l, id | l in ls && id in ids :: l.vmID != Some(id)
  }

  predicate DistinctIDs(ids: seq<string>) { forall i, j | 0 <= i < j < |ids| :: ids[i] != ids[j] }

  lemma NotHeldTail(before: seq<Lease>, added: seq<Lease>, own: seq<Lease>, ids: seq<string>, networkID: string)
    requires ids != [] && LeasesOf(added, ids, networkID) && DistinctIDs(ids)
    requires NotHeld(before, ids) && NotHeld(own, ids)
    ensures DistinctIDs(ids[1..]) && NotHeld(own, ids[1..])
    ensures NotHeld(before, ids[1..]) && NotHeld(before + [added[0]], ids[1..])
    ensures forall l <- before :: l.vmID != Some(ids[0])
    ensures forall l <- added[1..] + own :: l.vmID != Some(ids[0])
  {
    assert ids[0] in ids;
    forall id | id in ids[1..] ensures id in ids && id != ids[0] {
      var j :| 0 <= j < |ids| - 1 && ids[1..][j] == id;
      assert ids[j + 1] == id;
    }
    forall l | l in added[1..] ensures l.vmID != Some(ids[0]) {
      var j :| 0 <= j < |added| - 1 && added[1..][j] == l;
      assert added[j + 1] == l && ids[0] != ids[j + 1];
    }
  }

  lemma Regrouped(before: seq<Lease>, added: seq<Lease>, own: seq<Lease>)
    requires added != []
    ensures before + added + own == before + [added[0]] + (added[1..] + own)
    ensures before + added + own == before + [added[0]] + added[1..] + own
    ensures before + (added[1..] + own) == before + added[1..] + own
  {
  }

  lemma Placed(before: seq<Lease>, first: seq<Lease>, rest: seq<Lease>, own: seq<Lease>)
    ensures before + first + rest + own == before + (first + rest) + own
  {
  }

  /** Releasing every VM's lease, one by one, leaves what others hold and what could not be released. */
  lemma {:induction false} CleanedAllUndoes(before: seq<Lease>, added: seq<Lease>, own: seq<Lease>, ids: seq<string>,
                                            networkID: string, unreleased: set<string>)
    requires LeasesOf(added, ids, networkID) && DistinctIDs(ids) && NotHeld(before, ids) && NotHeld(own, ids)
    ensures CleanedAll(before + added + own, ids, unreleased) == before + Stuck(added, ids, unreleased) + own
    decreases |ids|
  {
    hide NotHeld, DistinctIDs, KeptByOthers, LeasesOf;
    AsManyLeases(added, ids, networkID);
    if ids == [] {
      assert before + added + own == before + [] + own;
      return;
    }
    NotHeldTail(before, added, own, ids, networkID);
    LeasesOfTail(added, ids, networkID);
    Regrouped(before, added, own);
    if ids[0] in unreleased {
      CleanedAllUndoes(before + [added[0]], added[1..], own, ids[1..], networkID, unreleased);
      Placed(before, [added[0]], Stuck(added[1..], ids[1..], unreleased), own);
    } else {
      KeptAround(before, added[0], added[1..] + own, ids[0]);
      CleanedAllUndoes(before, added[1..], own, ids[1..], networkID, unreleased);
      assert [] + Stuck(added[1..], ids[1..], unreleased) == Stuck(added[1..], ids[1..], unreleased);
    }
  }

  lemma AsManyLeases(added: seq<Lease>, ids: seq<string>, networkID: string)
    requires LeasesOf(added, ids, networkID)
    ensures |added| == |ids|
  {
  }

  /** The rows the cleanup deletes. */
  function Gone(ids: seq<string>, undeleted: set<string>): set<string> { set x | x in ids && x !in undeleted }

  /** Where the rollback starts, and where it ends. */
  lemma CleanedNone(ls: seq<Lease>, ids: seq<string>, vms: map<string, VMRow>, env: Env)
    ensures ids[0..] == ids && vms - Gone(ids[..0], env.undeleted) == vms
    ensures CleanedAll(ls, ids[|ids|..], env.unreleased) == ls && ids[..|ids|] == ids
  {
    assert Gone(ids[..0], env.undeleted) == {};
  }

  /** One turn of the rollback. */
  lemma CleanedNext(ls: seq<Lease>, ids: seq<string>, k: nat, vms: map<string, VMRow>, env: Env)
    requires k < |ids|
    ensures CleanedAll(ls, ids[k..], env.unreleased)
         == CleanedAll(Cleaned(ls, ids[k], env.unreleased), ids[k + 1..], env.unreleased)
    ensures vms - Gone(ids[..k + 1], env.undeleted)
         == if ids[k] in env.undeleted then vms - Gone(ids[..k], env.undeleted)
            else vms - Gone(ids[..k], env.undeleted) - {ids[k]}
  {
    hide Cleaned;
    assert ids[k..][1..] == ids[k + 1..] && ids[k..][0] == ids[k];
    assert ids[..k + 1] == ids[..k] + [ids[k]];
    assert Gone(ids[..k + 1], env.undeleted)
      == Gone(ids[..k], env.undeleted) + if ids[k] in env.undeleted then {} else {ids[k]};
  }

  /** The ledger while the first `|ids|` VMs exist, with `own` leased for the one under construction. */
  predicate Ledger(rows: map<string, VMRow>, before: seq<Lease>, vms: map<string, VMRow>, leases: seq<Lease>,
                   ids: seq<string>, names: seq<string>, networkID: string, own: seq<Lease>)
  {
    && |ids| <= |names| && RowsAdded(rows, vms, ids, names)
    && |before| + |ids| + |own| == |leases|
    && leases[..|before|] == before
    && LeasesOf(leases[|before|..|before| + |ids|], ids, networkID)
    && leases[|before| + |ids|..] == own
  }

  lemma LedgerStart(rows: map<string, VMRow>, before: seq<Lease>, names: seq<string>, networkID: string)
    ensures Ledger(rows, before, rows, before, [], names, networkID, [])
  {
  }

  /**
   After a rolled-back exit: the VM table as before the call, but for rows that could not be
   deleted, and the lease table too, but for leases that could not be released and the lease of
   the VM under construction when that was already taken.
   */
  predicate UndoneUpTo(rows: map<string, VMRow>, before: seq<Lease>, vms: map<string, VMRow>, leases: seq<Lease>,
                       at: Step, created: seq<string>, id: string, networkID: string, env: Env)
  {
    var stuck := Among(created, env.unreleased);
    var n := |before| + |stuck|;
    && vms.Keys == rows.Keys + (set x | x in created && x in env.undeleted)
    && (forall x <- rows :: vms[x] == rows[x])
    && |leases| == n + (if HoldsLease(at) then 1 else 0)
    && leases[..|before|] == before && LeasesOf(leases[|before|..n], stuck, networkID)
    && (HoldsLease(at) ==> leases[n].vmID == Some(id))
  }

  lemma FreshHere(ids: seq<string>, rows: map<string, VMRow>, before: seq<Lease>, i: nat)
    requires i < |ids| && FreshIDs(ids, rows, before)
    ensures ids[i] !in rows && ids[i] !in ids[..i]
    ensures forall j | 0 <= j < i :: ids[j] != ids[i]
  {
  }

  lemma LedgerShows(rows: map<string, VMRow>, before: seq<Lease>, vms: map<string, VMRow>, leases: seq<Lease>,
                    ids: seq<string>, names: seq<string>, networkID: string, i: nat)
    requires i < |ids| && Ledger(rows, before, vms, leases, ids[..i + 1], names, networkID, [])
    requires FreshIDs(ids, rows, before)
    ensures vms != rows
  {
    assert ids[..i + 1][i] in vms;
  }

  lemma {:induction false} AmongFinds(ids: seq<string>, bad: set<string>)
    ensures forall x :: x in Among(ids, bad) <==> x in ids && x in bad
  {
    if ids != [] {
      AmongFinds(ids[1..], bad);
      assert forall x :: x in ids <==> x == ids[0] || x in ids[1..];
    }
  }

  /** The tables are exactly as before iff every cleanup went through, and no lease was under construction. */
  lemma UndoneExactly(rows: map<string, VMRow>, before: seq<Lease>, vms: map<string, VMRow>, leases: seq<Lease>,
                      at: Step, created: seq<string>, id: string, networkID: string, env: Env)
    requires UndoneUpTo(rows, before, vms, leases, at, created, id, networkID, env)
    requires forall x <- created :: x !in rows
    ensures vms == rows <==> forall x <- created :: x !in env.undeleted
    ensures leases == before <==> !HoldsLease(at) && forall x <- created :: x !in env.unreleased
  {
    AmongFinds(created, env.unreleased);
    var stuck := Among(created, env.unreleased);
    if stuck != [] { assert stuck[0] in created; }
    if x :| x in created && x in env.undeleted { assert x in vms; }
  }

  lemma LedgerHasRows(rows: map<string, VMRow>, before: seq<Lease>, vms: map<string, VMRow>, leases: seq<Lease>,
                      ids: seq<string>, names: seq<string>, networkID: string)
    requires Ledger(rows, before, vms, leases, ids, names, networkID, [])
    ensures forall j | 0 <= j < |ids| :: ids[j] in vms
  {
  }

  /** Recording the VM under construction turns its lease into a ledger entry. */
  lemma LedgerGrows(rows: map<string, VMRow>, before: seq<Lease>, vms: map<string, VMRow>, leases: seq<Lease>,
                    ids: seq<string>, names: seq<string>, networkID: string, id: string, l: Lease, row: VMRow)
    requires Ledger(rows, before, vms, leases, ids, names, networkID, [])
    requires id !in rows && id !in ids && |ids| < |names| && row.name == names[|ids|]
    requires l.vmID == Some(id) && l.networkID == networkID
    ensures Ledger(rows, before, vms[id := row], leases + [l], ids + [id], names, networkID, [])
  {
    var leases', ids' := leases + [l], ids + [id];
    assert leases'[..|before|] == leases[..|before|];
    assert leases'[|before|..|before| + |ids'|] == leases[|before|..|before| + |ids|] + [l];
  }

  /** Changing the status of a recorded VM keeps the ledger. */
  lemma LedgerKeepsStatusChange(rows: map<string, VMRow>, before: seq<Lease>, vms: map<string, VMRow>, leases: seq<Lease>,
                                ids: seq<string>, names: seq<string>, networkID: string, id: string, s: Status)
    requires Ledger(rows, before, vms, leases, ids, names, networkID, []) && id in ids && id !in rows
    ensures Ledger(rows, before, vms[id := vms[id].(status := s)], leases, ids, names, networkID, [])
  {
  }

  /** The lease of the VM under construction, if it is already taken. */
  lemma OwnLease(at: Step, leases0: seq<Lease>, leases: seq<Lease>, id: string) returns (own: seq<Lease>)
    requires !HoldsLease(at) ==> leases == leases0
    requires HoldsLease(at) ==> exists l: Lease :: l.vmID == Some(id) && leases == leases0 + [l]
    ensures leases == leases0 + own
    ensures if HoldsLease(at) then |own| == 1 && own[0].vmID == Some(id) else own == []
  {
    if HoldsLease(at) {
      var l: Lease :| l.vmID == Some(id) && leases == leases0 + [l];
      own := [l];
    } else {
      own := [];
    }
  }

  lemma CreatedAreFresh(ids: seq<string>, rows: map<string, VMRow>, before: seq<Lease>, i: nat)
    requires i < |ids| && FreshIDs(ids, rows, before)
    ensures DistinctIDs(ids[..i]) && NotHeld(before, ids[..i])
    ensures forall x <- ids[..i] :: x != "" && x !in rows && x != ids[i]
  {
    forall x | x in ids[..i] ensures exists j :: 0 <= j < i && ids[j] == x {
      var j :| 0 <= j < i && ids[..i][j] == x;
      assert ids[j] == x;
    }
  }

  lemma LedgerParts(rows: map<string, VMRow>, before: seq<Lease>, vms: map<string, VMRow>, leases: seq<Lease>,
                    ids: seq<string>, names: seq<string>, networkID: string) returns (added: seq<Lease>)
    requires Ledger(rows, before, vms, leases, ids, names, networkID, [])
    ensures leases == before + added && LeasesOf(added, ids, networkID)
    ensures vms.Keys == rows.Keys + (set x | x in ids) && forall x <- rows :: vms[x] == rows[x]
  {
    added := leases[|before|..|before| + |ids|];
  }

  lemma RowsLeft(rows: map<string, VMRow>, vms0: map<string, VMRow>, created: seq<string>, undeleted: set<string>)
    requires vms0.Keys == rows.Keys + (set x | x in created) && forall x <- rows :: vms0[x] == rows[x]
    requires forall x <- created :: x !in rows
    ensures var vms := vms0 - Gone(created, undeleted);
      && vms.Keys == rows.Keys + (set x | x in created && x in undeleted)
      && forall x <- rows :: vms[x] == rows[x]
  {
  }

  lemma OwnNotHeld(own: seq<Lease>, id: string, created: seq<string>)
    requires own == [] || (|own| == 1 && own[0].vmID == Some(id))
    requires forall x <- created :: x != id
    ensures NotHeld(own, created)
  {
  }

  lemma Parts(before: seq<Lease>, stuck: seq<Lease>, own: seq<Lease>)
    ensures var leases := before + stuck + own; var n := |before| + |stuck|;
      && |leases| == n + |own| && leases[..|before|] == before && leases[|before|..n] == stuck && leases[n..] == own
  {
  }

  /** What the rollback of the first `i` VMs leaves. */
  lemma RolledBack(rows: map<string, VMRow>, before: seq<Lease>, vms0: map<string, VMRow>, leases0: seq<Lease>, own: seq<Lease>,
                   at: Step, ids: seq<string>, i: nat, names: seq<string>, networkID: string, env: Env)
    requires i < |ids| && FreshIDs(ids, rows, before)
    requires Ledger(rows, before, vms0, leases0, ids[..i], names, networkID, [])
    requires if HoldsLease(at) then |own| == 1 && own[0].vmID == Some(ids[i]) else own == []
    ensures UndoneUpTo(rows, before, vms0 - Gone(ids[..i], env.undeleted), CleanedAll(leases0 + own, ids[..i], env.unreleased),
                       at, ids[..i], ids[i], networkID, env)
  {
    hide Ledger, FreshIDs, CleanedAll, HoldsLease, LeasesOf, Gone, Stuck, Among, DistinctIDs, NotHeld;
    var created := ids[..i];
    var added := LedgerParts(rows, before, vms0, leases0, created, names, networkID);
    CreatedAreFresh(ids, rows, before, i);
    AsManyLeases(added, created, networkID);
    OwnNotHeld(own, ids[i], created);
    CleanedAllUndoes(before, added, own, created, networkID, env.unreleased);
    StuckLeasesOf(added, created, env.unreleased, networkID);
    var stuck := Stuck(added, created, env.unreleased);
    AsManyLeases(stuck, Among(created, env.unreleased), networkID);
    Parts(before, stuck, own);
    RowsLeft(rows, vms0, created, env.undeleted);
  }

  class Operation {
    var vms: map<string, VMRow>
    const leaseRepo: LeaseRepo

    constructor (leaseRepo: LeaseRepo)
      ensures this.leaseRepo == leaseRepo && vms == map[]
    {
      this.leaseRepo := leaseRepo;
      vms := map[];
    }

    method CleanupRestoredVM(id: string, env: Env)
      requires id != "" && Valid(leaseRepo.Contents())
      modifies this`vms, leaseRepo`leases
      ensures vms == if id in env.undeleted then old(vms) else old(vms) - {id}
      ensures leaseRepo.leases == Cleaned(old(leaseRepo.leases), id, env.unreleased) && Valid(leaseRepo.Contents())
    {
      if id !in env.unreleased {
        leaseRepo.ReleaseByVM(id);
      }
      if id !in env.undeleted {
        vms := vms - {id};
      }
    }

    /** Cleans up every VM created so far, in order; a cleanup that fails does not stop the rest. */
    method Rollback(created: seq<Item>, ghost ids: seq<string>, env: Env)
      requires Valid(leaseRepo.Contents())
      requires |created| == |ids| && forall j | 0 <= j < |ids| :: created[j].id == ids[j] && ids[j] != ""
      modifies this`vms, leaseRepo`leases
      ensures vms == old(vms) - Gone(ids, env.undeleted)
      ensures leaseRepo.leases == CleanedAll(old(leaseRepo.leases), ids, env.unreleased) && Valid(leaseRepo.Contents())
    {
      hide Cleaned, Valid, Gone, CleanedAll;
      CleanedNone(leaseRepo.leases, ids, vms, env);
      for k := 0 to |created|
        invariant Valid(leaseRepo.Contents())
        invariant CleanedAll(leaseRepo.leases, ids[k..], env.unreleased) == CleanedAll(old(leaseRepo.leases), ids, env.unreleased)
        invariant vms == old(vms) - Gone(ids[..k], env.undeleted)
      {
        CleanedNext(leaseRepo.leases, ids, k, old(vms), env);
        CleanupRestoredVM(created[k].id, env);
      }
      CleanedNone(leaseRepo.leases, ids, vms, env);
    }

    /** Lines 340-432 for one VM: directory, rootfs, lease, TAP, record. `None` is success. */
    method CreateRecord(i: nat, id: string, name: string, net: Network, env: Env) returns (failed: Option<Step>)
      requires Valid(leaseRepo.Contents())
      modifies this`vms, leaseRepo`leases, leaseRepo`nextID
      ensures Valid(leaseRepo.Contents())
      ensures failed.Some? ==> RollsBack(failed.value) && vms == old(vms)
      ensures failed.Some? ==> env.Exit(i, i + AddressesLeft(old(leaseRepo.leases), net)) == failed
      ensures failed.Some? && !HoldsLease(failed.value) ==> leaseRepo.leases == old(leaseRepo.leases)
      ensures failed == None || HoldsLease(failed.value) ==>
        |leaseRepo.leases| == |old(leaseRepo.leases)| + 1 && var l := leaseRepo.leases[|old(leaseRepo.leases)|];
        leaseRepo.leases == old(leaseRepo.leases) + [l] && l.vmID == Some(id) && l.networkID == net.id
        && (failed == None ==> vms == old(vms)[id := VMRow(name, Stopped, net.id, l.ipv4)])
      ensures failed == None ==>
        && AddressesLeft(old(leaseRepo.leases), net) == AddressesLeft(leaseRepo.leases, net) + 1
        && var exit := env.Exit(i, i + AddressesLeft(old(leaseRepo.leases), net)); exit == None || !RollsBack(exit.value)
    {
      if env.Fails(i, Mkdir) {
        return Some(Mkdir);
      }
      if env.Fails(i, CopyRootfs) {
        return Some(CopyRootfs);
      }
      if env.Fails(i, NewLeaseController) {
        return Some(NewLeaseController);
      }
      var guestIP := None;
      if !env.Fails(i, LeaseIP) {
        guestIP := LeaseNext(leaseRepo, net, id);
      }
      if guestIP == None {
        return Some(LeaseIP);
      }
      if env.Fails(i, EnsureTap) {
        return Some(EnsureTap);
      }
      if env.Fails(i, UpsertRecord) {
        return Some(UpsertRecord);
      }
      vms := vms[id := VMRow(name, Stopped, net.id, guestIP.value)];
      return None;
    }

    /** Lines 446-587 for one VM: vsock row, respawn, link, load. These failures are not rolled back. */
    method Boot(i: nat, id: string, ghost left: nat, env: Env) returns (failed: Option<Step>, marked: bool)
      requires id in vms && vms[id].status == Stopped
      requires env.Exit(i, left) == None || !RollsBack(env.Exit(i, left).value)
      modifies this`vms
      ensures failed == env.Exit(i, left)
      ensures exists s :: vms == old(vms)[id := old(vms[id]).(status := s)]
      ensures failed == None ==> marked == env.MarksError(i) && (vms[id].status == Errored <==> env.ShowsError(i))
    {
      ghost var before := vms;
      marked := false;
      if env.hasVsock && env.Fails(i, PersistVsock) {
        assert vms == before[id := before[id].(status := Stopped)];
        return Some(PersistVsock), marked;
      }
      var status := Paused;
      if env.Fails(i, Respawn) {
        status, marked := if env.Fails(i, MarkErrored) then Stopped else Errored, true;
      } else if i in env.hasState {
        if env.Fails(i, RemoveLink) || env.Fails(i, CreateLink) {
          vms := vms[id := vms[id].(status := status)];
          return Some(if env.Fails(i, RemoveLink) then RemoveLink else CreateLink), marked;
        }
        if env.Fails(i, LoadSnapshot) {
          status, marked := if env.Fails(i, MarkErrored) then Paused else Errored, true;
        } else if env.resume {
          status := Running;
        }
      }
      vms := vms[id := vms[id].(status := status)];
      return None, marked;
    }

    /** One turn of the loop, with the rollback of the earlier VMs when it fails before the record. */
    method RestoreOne(i: nat, created: seq<Item>, names: seq<string>, ids: seq<string>, net: Network, env: Env,
                      ghost rows: map<string, VMRow>, ghost before: seq<Lease>)
      returns (failed: Option<Step>, marked: bool)
      requires |ids| == |names| && i < |ids| && FreshIDs(ids, rows, before) && Valid(leaseRepo.Contents())
      requires |created| == i && forall j | 0 <= j < i :: created[j].id == ids[j]
      requires Ledger(rows, before, vms, leaseRepo.leases, ids[..i], names, net.id, [])
      requires AddressesLeft(before, net) == i + AddressesLeft(leaseRepo.leases, net)
      modifies this`vms, leaseRepo`leases, leaseRepo`nextID
      ensures failed.Some? ==> env.Exit(i, AddressesLeft(before, net)) == failed
      ensures failed.Some? && RollsBack(failed.value) ==>
        UndoneUpTo(rows, before, vms, leaseRepo.leases, failed.value, ids[..i], ids[i], net.id, env)
      ensures failed == None || !RollsBack(failed.value) ==>
        Valid(leaseRepo.Contents()) && Ledger(rows, before, vms, leaseRepo.leases, ids[..i + 1], names, net.id, [])
      ensures failed == None ==>
        && env.Exit(i, AddressesLeft(before, net)) == None && marked == env.MarksError(i)
        && AddressesLeft(before, net) == i + 1 + AddressesLeft(leaseRepo.leases, net)
        && ids[i] in vms && (vms[ids[i]].status == Errored <==> env.ShowsError(i))
        && (forall j | 0 <= j < i :: ids[j] in vms && ids[j] in old(vms) && vms[ids[j]] == old(vms[ids[j]]))
    {
      hide Ledger, FreshIDs, UndoneUpTo, RollsBack, HoldsLease, Env.Exit, Env.MarksError, Env.ShowsError, Valid, AddressesLeft;
      ghost var vms0, leases0 := vms, leaseRepo.leases;
      failed := CreateRecord(i, ids[i], names[i], net, env);
      if failed.Some? {
        Undo(i, created, failed.value, rows, before, leases0, ids, names, net.id, env);
        return failed, false;
      }
      ghost var l := leaseRepo.leases[|leases0|];
      FreshHere(ids, rows, before, i);
      LedgerGrows(rows, before, vms0, leases0, ids[..i], names, net.id, ids[i], l, vms[ids[i]]);
      assert ids[..i + 1] == ids[..i] + [ids[i]];
      ghost var vms1 := vms;
      failed, marked := Boot(i, ids[i], AddressesLeft(before, net), env);
      ghost var s :| vms == vms1[ids[i] := vms1[ids[i]].(status := s)];
      LedgerKeepsStatusChange(rows, before, vms1, leaseRepo.leases, ids[..i + 1], names, net.id, ids[i], s);
      LedgerHasRows(rows, before, vms0, leases0, ids[..i], names, net.id);
      forall j | 0 <= j < i ensures ids[j] in vms && ids[j] in vms0 && vms[ids[j]] == vms0[ids[j]] {
        assert ids[..i][j] == ids[j] != ids[i];
      }
    }

    /** The rollback branch of one turn. */
    method Undo(i: nat, created: seq<Item>, at: Step, ghost rows: map<string, VMRow>, ghost before: seq<Lease>,
                ghost leases0: seq<Lease>, ghost ids: seq<string>, ghost names: seq<string>, ghost networkID: string, env: Env)
      requires |ids| == |names| && i < |ids| && FreshIDs(ids, rows, before) && Valid(leaseRepo.Contents())
      requires |created| == i && forall j | 0 <= j < i :: created[j].id == ids[j]
      requires Ledger(rows, before, vms, leases0, ids[..i], names, networkID, [])
      requires !HoldsLease(at) ==> leaseRepo.leases == leases0
      requires HoldsLease(at) ==> exists l: Lease :: l.vmID == Some(ids[i]) && leaseRepo.leases == leases0 + [l]
      modifies this`vms, leaseRepo`leases
      ensures UndoneUpTo(rows, before, vms, leaseRepo.leases, at, ids[..i], ids[i], networkID, env)
    {
      hide Ledger, UndoneUpTo, CleanedAll, Valid, HoldsLease, Gone;
      ghost var own := OwnLease(at, leases0, leaseRepo.leases, ids[i]);
      CreatedAreFresh(ids, rows, before, i);
      ghost var vms0 := vms;
      Rollback(created, ids[..i], env);
      RolledBack(rows, before, vms0, leases0, own, at, ids, i, names, networkID, env);
    }

    method SnapshotRestore(names: seq<string>, ids: seq<string>, net: Network, env: Env) returns (r: Outcome)
      requires |ids| == |names| && FreshIDs(ids, vms, leaseRepo.leases) && Valid(leaseRepo.Contents())
      modifies this`vms, leaseRepo`leases, leaseRepo`nextID
      ensures var left := AddressesLeft(old(leaseRepo.leases), net);
        if r.Aborted? then
          r.i < |ids| && env.Exit(r.i, left) == Some(r.at) && forall j | 0 <= j < r.i :: env.Exit(j, left) == None
        else
          forall j | 0 <= j < |ids| :: env.Exit(j, left) == None
      ensures r.Aborted? && RollsBack(r.at) ==>
        UndoneUpTo(old(vms), old(leaseRepo.leases), vms, leaseRepo.leases, r.at, ids[..r.i], ids[r.i], net.id, env)
      ensures r.Aborted? ==> (vms == old(vms) <==> RollsBack(r.at) && forall x <- ids[..r.i] :: x !in env.undeleted)
      ensures r.Aborted? && RollsBack(r.at) ==>
        (leaseRepo.leases == old(leaseRepo.leases) <==> !HoldsLease(r.at) && forall x <- ids[..r.i] :: x !in env.unreleased)
      ensures r.Aborted? && !RollsBack(r.at) ==>
        Ledger(old(vms), old(leaseRepo.leases), vms, leaseRepo.leases, ids[..r.i + 1], names, net.id, [])
      ensures r.Completed? ==>
        && Ledger(old(vms), old(leaseRepo.leases), vms, leaseRepo.leases, ids, names, net.id, [])
        && |r.created| == |names|
        && (forall j | 0 <= j < |names| :: r.created[j] == Item(ids[j], names[j]))
        && (forall j | 0 <= j < |names| :: vms[ids[j]].status == Errored <==> env.ShowsError(j))
        && r.errors == CountErrors(env, |names|)
    {
      hide Ledger, FreshIDs, UndoneUpTo, HoldsLease, Env.Exit, Env.MarksError, Env.ShowsError, Valid, AddressesLeft;
      ghost var rows, before := vms, leaseRepo.leases;
      var created: seq<Item> := [];
      LedgerStart(rows, before, names, net.id);
      var errors := 0;
      for i := 0 to |names|
        invariant Valid(leaseRepo.Contents())
        invariant Ledger(rows, before, vms, leaseRepo.leases, ids[..i], names, net.id, [])
        invariant |created| == i && forall j | 0 <= j < i :: created[j] == Item(ids[j], names[j])
        invariant forall j | 0 <= j < i :: env.Exit(j, AddressesLeft(before, net)) == None
        invariant AddressesLeft(before, net) == i + AddressesLeft(leaseRepo.leases, net)
        invariant forall j | 0 <= j < i :: ids[j] in vms && (vms[ids[j]].status == Errored <==> env.ShowsError(j))
        invariant errors == CountErrors(env, i)
      {
        var failed, marked := RestoreOne(i, created, names, ids, net, env, rows, before);
        if failed.Some? {
          if !RollsBack(failed.value) {
            LedgerShows(rows, before, vms, leaseRepo.leases, ids, names, net.id, i);
          } else {
            CreatedAreFresh(ids, rows, before, i);
            UndoneExactly(rows, before, vms, leaseRepo.leases, failed.value, ids[..i], ids[i], net.id, env);
          }
          return Aborted(failed.value, i);
        }
        if marked {
          errors := errors + 1;
        }
        created := created + [Item(ids[i], names[i])];
        assert ids[..i + 1][i] == ids[i];
      }
      assert ids[..|names|] == ids;
      return Completed(created, errors);
    }
  }

  /** The error count is the number of VMs marked as errors. */
  lemma {:induction false} CountErrorsIsNumberMarked(env: Env, n: nat)
    ensures CountErrors(env, n) == |set j: nat | j < n && env.MarksError(j)|
  {
    if n > 0 {
      CountErrorsIsNumberMarked(env, n - 1);
      var before, now := (set j: nat | j < n - 1 && env.MarksError(j)), (set j: nat | j < n && env.MarksError(j));
      assert now == before + if env.MarksError(n - 1) then {n - 1} else {};
    }
  }
}
