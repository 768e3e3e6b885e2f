/**
 Laws of the join: enriching in steps is enriching at once, provided networks are resolved before
 their leases; so every order of the include list gives the same result after the sort. Batched
 volume resolution equals looking each id up exactly for NUL-free ids and agreeing VM rows.
 */
module RelationLaws {
  import opened Options
  import opened Strings
  import opened Tables
  import opened Relations

  // --- running the relations one after the other ---

  datatype Outcome = Done(state: State) | Failed(state: State)

  /** The relations one by one; the first hard failure stops the run and leaves what was done. */
  function Run(r: Repos, keys: seq<Keys>, s: State, paths: seq<Path>): Outcome
    requires |s.vms| == |keys|
    decreases |paths|
  {
    if paths == [] then Done(s)
    else if HardFails(r, keys, s, paths[0]) then Failed(s)
    else Run(r, keys, Enriched(r, keys, s, {paths[0]}), paths[1..])
  }

  function SetOf<T>(s: seq<T>): set<T> { set x | x in s }

  /** Networks are resolved before their leases. */
  predicate ParentsFirst(paths: seq<Path>) {
    forall i, j :: 0 <= i < j < |paths| ==> !(paths[i] == LeasesPath && paths[j] == NetworkPath)
  }

  lemma NothingIncluded(r: Repos, keys: seq<Keys>, s: State)
    requires |s.vms| == |keys|
    ensures Enriched(r, keys, s, {}) == s
  {
    assert EnrichedVMs(r, keys, s.vms, {}) == s.vms;
  }

  lemma EnrichedTwiceVMs(r: Repos, keys: seq<Keys>, vms: seq<Relation>, p: set<Path>, q: set<Path>)
    requires |vms| == |keys|
    ensures EnrichedVMs(r, keys, EnrichedVMs(r, keys, vms, p), q) == EnrichedVMs(r, keys, vms, p + q)
  {
    hide LookupEach, RecordedKey, LastWhere;
    var once := EnrichedVMs(r, keys, vms, p);
    forall i | 0 <= i < |vms|
      ensures EnrichedVM(r, keys, once[i], i, q) == EnrichedVM(r, keys, vms[i], i, p + q)
    {
    }
  }

  predicate SameNetworks(a: seq<Relation>, b: seq<Relation>) {
    && |a| == |b|
    && forall i :: 0 <= i < |a| ==> a[i].network == b[i].network
  }

  lemma SameNetworksSameLeases(r: Repos, a: seq<Relation>, b: seq<Relation>, leases: map<Network, seq<Lease>>)
    requires SameNetworks(a, b)
    ensures JoinedLeases(r, a, leases) == JoinedLeases(r, b, leases)
  {
    forall n ensures IsParent(a, n) <==> IsParent(b, n) {
      if IsParent(a, n) {
        var i :| 0 <= i < |a| && a[i].network == Some(n);
        assert b[i].network == Some(n);
      }
      if IsParent(b, n) {
        var i :| 0 <= i < |b| && b[i].network == Some(n);
        assert a[i].network == Some(n);
      }
    }
    SameParents(a, b);
    SameParents(b, a);
  }

  lemma SameParents(a: seq<Relation>, b: seq<Relation>)
    requires SameNetworks(a, b)
    ensures HasNamedParent(a) ==> HasNamedParent(b)
  {
    if HasNamedParent(a) {
      var i :| 0 <= i < |a| && NamedParentAt(a, i);
      assert NamedParentAt(b, i);
    }
  }

  lemma JoinedLeasesTwice(r: Repos, vms: seq<Relation>, leases: map<Network, seq<Lease>>)
    ensures JoinedLeases(r, vms, JoinedLeases(r, vms, leases)) == JoinedLeases(r, vms, leases)
  {
  }

  /** Two steps are one, unless networks are replaced after their leases were assigned. */
  lemma EnrichedTwice(r: Repos, keys: seq<Keys>, s: State, p: set<Path>, q: set<Path>)
    requires |s.vms| == |keys|
    requires !(LeasesPath in p && NetworkPath in q)
    ensures Enriched(r, keys, Enriched(r, keys, s, p), q) == Enriched(r, keys, s, p + q)
  {
    hide EnrichedVM, JoinedLeases;
    EnrichedTwiceVMs(r, keys, s.vms, p, q);
    if LeasesPath in p {
      var once := EnrichedVMs(r, keys, s.vms, p);
      var both := EnrichedVMs(r, keys, s.vms, p + q);
      KeepsNetworks(r, keys, once, q);
      SameNetworksSameLeases(r, once, both, s.leases);
      JoinedLeasesTwice(r, both, s.leases);
    }
  }

  lemma KeepsNetworks(r: Repos, keys: seq<Keys>, vms: seq<Relation>, q: set<Path>)
    requires |vms| == |keys| && NetworkPath !in q
    ensures SameNetworks(vms, EnrichedVMs(r, keys, vms, q))
  {
  }

  /** A relation's own failure is the same before and after the others ran, parents first. */
  lemma FailureIsStable(r: Repos, keys: seq<Keys>, s: State, p: Path, others: set<Path>)
    requires |s.vms| == |keys|
    requires !(p == LeasesPath && NetworkPath in others)
    ensures HardFails(r, keys, s, p) <==> HardFails(r, keys, Enriched(r, keys, s, others), p)
  {
    hide EnrichedVM, JoinedLeases, LookupFails;
    if p == LeasesPath {
      KeepsNetworks(r, keys, s.vms, others);
      var after := EnrichedVMs(r, keys, s.vms, others);
      SameParents(s.vms, after);
      SameParents(after, s.vms);
    }
  }

  lemma FailsNowOrLater(r: Repos, keys: seq<Keys>, s: State, p: Path, rest: set<Path>)
    requires |s.vms| == |keys|
    requires !(p == LeasesPath && NetworkPath in rest)
    ensures EnrichFails(r, keys, s, {p} + rest)
       <==> HardFails(r, keys, s, p) || EnrichFails(r, keys, Enriched(r, keys, s, {p}), rest)
  {
    hide EnrichedVM, JoinedLeases, LookupFails;
    var all := Enriched(r, keys, s, {p} + rest);
    EnrichedTwice(r, keys, s, {p}, rest);
    assert HardFails(r, keys, s, p) <==> HardFails(r, keys, all, p) by {
      hide HardFails, Enriched;
      FailureIsStable(r, keys, s, p, {p} + rest);
    }
    hide HardFails, Enriched;
    assert forall q :: q in {p} + rest <==> q == p || q in rest;
  }

  lemma SetOfSplit<T>(s: seq<T>)
    requires s != []
    ensures SetOf(s) == {s[0]} + SetOf(s[1..])
  {
    assert s == [s[0]] + s[1..];
  }

  lemma ParentsFirstTail(paths: seq<Path>)
    requires paths != [] && ParentsFirst(paths)
    ensures ParentsFirst(paths[1..])
    ensures !(paths[0] == LeasesPath && NetworkPath in SetOf(paths[1..]))
  {
    forall j | 0 <= j < |paths| - 1
      ensures !(paths[0] == LeasesPath && paths[1..][j] == NetworkPath)
    {
      assert paths[1..][j] == paths[j + 1];
    }
  }

  /**
   Running the relations one by one, parents first, is the join over their set: it fails exactly
   when some included relation's lookup fails hard, and then leaves a prefix of the list joined.
   */
  lemma {:induction false} RunIsJoin(r: Repos, keys: seq<Keys>, s: State, paths: seq<Path>) returns (k: nat)
    requires |s.vms| == |keys|
    requires ParentsFirst(paths)
    ensures k <= |paths|
    ensures Run(r, keys, s, paths)
         == if EnrichFails(r, keys, s, SetOf(paths)) then Failed(Enriched(r, keys, s, SetOf(paths[..k])))
            else Done(Enriched(r, keys, s, SetOf(paths)))
    decreases |paths|
  {
    hide Enriched, EnrichFails, HardFails;
    if paths == [] {
      NothingIncluded(r, keys, s);
      NothingFails(r, keys, s);
      assert SetOf(paths) == {};
      k := 0;
      return;
    }
    var p, rest := paths[0], paths[1..];
    SetOfSplit(paths);
    ParentsFirstTail(paths);
    FailsNowOrLater(r, keys, s, p, SetOf(rest));
    if HardFails(r, keys, s, p) {
      k := 0;
      NothingIncluded(r, keys, s);
      assert SetOf(paths[..0]) == {};
      return;
    }
    StepKeepsLength(r, keys, s, {p});
    var k' := RunIsJoin(r, keys, Enriched(r, keys, s, {p}), rest);
    EnrichedTwice(r, keys, s, {p}, SetOf(rest));
    k := k' + 1;
    assert paths[..k][1..] == rest[..k'];
    SetOfSplit(paths[..k]);
    assert forall q :: q in SetOf(rest[..k']) ==> q in SetOf(rest);
    EnrichedTwice(r, keys, s, {p}, SetOf(rest[..k']));
  }

  lemma StepKeepsLength(r: Repos, keys: seq<Keys>, s: State, p: set<Path>)
    requires |s.vms| == |keys|
    ensures |Enriched(r, keys, s, p).vms| == |s.vms|
  {
  }

  lemma NothingFails(r: Repos, keys: seq<Keys>, s: State)
    requires |s.vms| == |keys|
    ensures !EnrichFails(r, keys, s, {})
  {
  }

  /** Two include orders with the same relations, both parents first: the same verdict and heap. */
  lemma AnyOrderGivesTheSameHeap(r: Repos, keys: seq<Keys>, s: State, a: seq<Path>, b: seq<Path>)
    requires |s.vms| == |keys|
    requires SetOf(a) == SetOf(b) && ParentsFirst(a) && ParentsFirst(b)
    ensures Run(r, keys, s, a).Done? <==> Run(r, keys, s, b).Done?
    ensures Run(r, keys, s, a).Done? ==> Run(r, keys, s, a) == Run(r, keys, s, b)
  {
    hide Run, Enriched, EnrichFails;
    var i := RunIsJoin(r, keys, s, a);
    var j := RunIsJoin(r, keys, s, b);
  }

  // One VM on network "net", which has one lease.
  const LEASE := Lease(1, "net", "10.0.0.2")
  const KEYS := [Keys("vm", "", "", "", "net", [])]
  const BARE := Relation(None, None, None, None, [], None)

  function OneNetwork(n: Network): Repos {
    Repos(map[], map[], map[], map["net" := Found(n)], Rows([LEASE]), Rows([]), Rows([]))
  }

  function Linked(n: Network): Relation { BARE.(network := Some(n)) }

  lemma NetworkStep(n: Network)
    ensures Enriched(OneNetwork(n), KEYS, State([BARE], map[n := []]), {NetworkPath}) == State([Linked(n)], map[n := []])
  {
    assert EnrichedVMs(OneNetwork(n), KEYS, [BARE], {NetworkPath}) == [Linked(n)];
  }

  lemma LeasesStepTooEarly(n: Network)
    ensures Enriched(OneNetwork(n), KEYS, State([BARE], map[n := []]), {LeasesPath}) == State([BARE], map[n := []])
  {
    assert EnrichedVMs(OneNetwork(n), KEYS, [BARE], {LeasesPath}) == [BARE];
  }

  lemma LeasesStep(n: Network)
    requires n.id == "net"
    ensures Enriched(OneNetwork(n), KEYS, State([Linked(n)], map[n := []]), {LeasesPath}).leases == map[n := [LEASE]]
  {
    assert EnrichedVMs(OneNetwork(n), KEYS, [Linked(n)], {LeasesPath}) == [Linked(n)];
    assert [Linked(n)][0].network == Some(n) && NamedParentAt([Linked(n)], 0);
    assert Where([LEASE], LeaseKey, "net") == [LEASE];
    assert IsParent([Linked(n)], n) && HasNamedParent([Linked(n)]);
  }

  /**
   Without parents first it is false: leases assigned before their network is resolved go to no one.
   */
  lemma OrderMattersUnsorted(n: Network)
    requires n.id == "net"
    ensures exists r: Repos, keys: seq<Keys>, s: State ::
      && |s.vms| == |keys|
      && Run(r, keys, s, [NetworkPath, LeasesPath]).Done?
      && Run(r, keys, s, [LeasesPath, NetworkPath]).Done?
      && Run(r, keys, s, [NetworkPath, LeasesPath]) != Run(r, keys, s, [LeasesPath, NetworkPath])
  {
    hide Enriched, Run;
    var r, s := OneNetwork(n), State([BARE], map[n := []]);
    NetworkStep(n);
    LeasesStepTooEarly(n);
    LeasesStep(n);
    RunTwo(r, KEYS, s, NetworkPath, LeasesPath);
    RunTwo(r, KEYS, s, LeasesPath, NetworkPath);
    assert map[n := [LEASE]][n] != map[n := []][n];
  }

  lemma RunTwo(r: Repos, keys: seq<Keys>, s: State, p: Path, q: Path)
    requires |s.vms| == |keys|
    requires !HardFails(r, keys, s, p) && !HardFails(r, keys, Enriched(r, keys, s, {p}), q)
    ensures Run(r, keys, s, [p, q]) == Done(Enriched(r, keys, Enriched(r, keys, s, {p}), {q}))
  {
    hide Enriched, HardFails;
    assert [p, q][1..] == [q] && [q][1..] == [];
    StepKeepsLength(r, keys, s, {p});
    var once := Enriched(r, keys, s, {p});
    StepKeepsLength(r, keys, once, {q});
    assert Run(r, keys, once, [q]) == Run(r, keys, Enriched(r, keys, once, {q}), []);
  }

  lemma ParentsGrow(vms: seq<Relation>, i: nat)
    requires i < |vms|
    ensures forall n :: IsParent(vms[..i + 1], n) <==> IsParent(vms[..i], n) || vms[i].network == Some(n)
  {
    forall n ensures IsParent(vms[..i + 1], n) <==> IsParent(vms[..i], n) || vms[i].network == Some(n) {
      assert vms[..i + 1][i] == vms[i];
      assert forall j :: 0 <= j < i ==> vms[..i + 1][j] == vms[..i][j];
      if IsParent(vms[..i], n) {
        var j :| 0 <= j < i && vms[..i][j].network == Some(n);
        assert vms[..i + 1][j].network == Some(n);
      }
    }
  }

  /**
   After a successful run each VM's network, shared or not, has exactly its leases, in order; one
   without an id has none. If no VM's network has an id, no leases are asked for and none change.
   */
  lemma EveryNetworkHasItsLeases(r: Repos, keys: seq<Keys>, s: State, paths: set<Path>, i: nat)
    requires |s.vms| == |keys| && i < |keys|
    requires LeasesPath in paths && r.leases.Rows?
    requires Enriched(r, keys, s, paths).vms[i].network.Some?
    requires Enriched(r, keys, s, paths).vms[i].network.value in s.leases
    ensures var after := Enriched(r, keys, s, paths); var n := after.vms[i].network.value;
      if !HasNamedParent(after.vms) then after.leases == s.leases
      else
        && after.leases[n] == (if n.id == "" then [] else Where(r.leases.rows, LeaseKey, n.id))
        && forall l :: l in after.leases[n] <==> n.id != "" && l in r.leases.rows && l.networkID == n.id
    ensures Enriched(r, keys, s, paths).vms[i].network.value.id != "" ==> HasNamedParent(Enriched(r, keys, s, paths).vms)
  {
    hide EnrichedVM;
    var vms := Enriched(r, keys, s, paths).vms;
    var n := vms[i].network.value;
    assert vms[i].network == Some(n) && IsParent(vms, n);
    assert n.id != "" ==> NamedParentAt(vms, i);
    WhereFinds(r.leases.rows, LeaseKey, n.id);
  }

  // --- volumes: the joined keys against looking each id up ---

  predicate NulFree(ids: seq<string>) {
    forall id :: id in ids ==> NUL !in id
  }

  /** VMs with the same id list the same volumes, if they list any. */
  predicate SameIDSameVolumes(keys: seq<Keys>) {
    forall i, j :: 0 <= i < |keys| && 0 <= j < |keys|
      && keys[i].id == keys[j].id && keys[i].volumeIDs != [] && keys[j].volumeIDs != []
      ==> keys[i].volumeIDs == keys[j].volumeIDs
  }

  predicate UniqueIDs(rows: seq<Volume>) {
    forall i, j :: 0 <= i < j < |rows| ==> rows[i].id != rows[j].id
  }

  lemma RecordedKeyGrows(keys: seq<Keys>, i: nat, id: string)
    requires i < |keys|
    ensures RecordedKey(keys[..i + 1], id)
      == if keys[i].volumeIDs != [] && keys[i].id == id then Join(keys[i].volumeIDs, [NUL]) else RecordedKey(keys[..i], id)
  {
    assert keys[..i + 1][..i] == keys[..i];
  }

  /** The recorded key is the joined list of some VM with this id. */
  lemma {:induction false} RecordedKeyIsSomeones(keys: seq<Keys>, i: nat) returns (j: nat)
    requires i < |keys| && keys[i].volumeIDs != []
    ensures j < |keys| && keys[j].id == keys[i].id && keys[j].volumeIDs != []
    ensures RecordedKey(keys, keys[i].id) == Join(keys[j].volumeIDs, [NUL])
    decreases |keys|
  {
    var last := |keys| - 1;
    if keys[last].volumeIDs != [] && keys[last].id == keys[i].id {
      j := last;
    } else {
      j := RecordedKeyIsSomeones(keys[..last], i);
    }
  }

  /** The batched code resolves a VM's own list for every VM, exactly under the two conditions. */
  lemma BatchedIDsExact(keys: seq<Keys>)
    ensures (forall i :: 0 <= i < |keys| && keys[i].volumeIDs != [] ==> BatchedIDs(keys, i) == keys[i].volumeIDs)
      <==> SameIDSameVolumes(keys) && forall i :: 0 <= i < |keys| ==> NulFree(keys[i].volumeIDs)
  {
    hide RecordedKey, Join, Split;
    forall i | 0 <= i < |keys| && keys[i].volumeIDs != []
      ensures SameIDSameVolumes(keys) && NulFree(keys[i].volumeIDs) ==> BatchedIDs(keys, i) == keys[i].volumeIDs
      ensures BatchedIDs(keys, i) == keys[i].volumeIDs ==> NulFree(keys[i].volumeIDs)
    {
      var j := RecordedKeyIsSomeones(keys, i);
      SplitJoin(keys[j].volumeIDs, NUL);
      SplitIsFree(RecordedKey(keys, keys[i].id));
    }
  }

  lemma SplitIsFree(s: string)
    ensures NulFree(Split(s, NUL))
  {
    hide Split;
  }

  /** A table holding each of these ids once. */
  function TableFor(ids: seq<string>): seq<Volume>
    decreases |ids|
  {
    if ids == [] then []
    else
      var n := |ids| - 1;
      if ids[n] in ids[..n] then TableFor(ids[..n]) else TableFor(ids[..n]) + [Volume(ids[n])]
  }

  lemma LastOf(ids: seq<string>)
    requires ids != []
    ensures var n := |ids| - 1; forall id :: id in ids <==> id in ids[..n] || id == ids[n]
  {
    var n := |ids| - 1;
    assert ids == ids[..n] + [ids[n]];
  }

  lemma TableForLast(ids: seq<string>)
    requires ids != []
    ensures var n := |ids| - 1;
      TableFor(ids) == if ids[n] in ids[..n] then TableFor(ids[..n]) else TableFor(ids[..n]) + [Volume(ids[n])]
  {
  }

  lemma {:induction false} TableForHolds(ids: seq<string>)
    ensures forall v :: v in TableFor(ids) <==> v.id in ids
    ensures UniqueIDs(TableFor(ids))
    decreases |ids|
  {
    if ids != [] {
      var n := |ids| - 1;
      TableForHolds(ids[..n]);
      LastOf(ids);
      TableForLast(ids);
      hide TableFor;
      var before := TableFor(ids[..n]);
      forall i | 0 <= i < |before| && ids[n] !in ids[..n] ensures before[i].id != ids[n] { assert before[i] in before; }
    }
  }

  lemma {:induction false} TableForFinds(ids: seq<string>, id: string)
    requires id in ids
    ensures LastWhere(TableFor(ids), VolumeKey, id) == Some(Volume(id))
    decreases |ids|
  {
    var n := |ids| - 1;
    LastOf(ids);
    TableForLast(ids);
    hide TableFor, Where;
    if id in ids[..n] { TableForFinds(ids[..n], id); }
    if ids[n] !in ids[..n] {
      WhereAppend(TableFor(ids[..n]), VolumeKey, Volume(ids[n]), id);
    }
  }

  lemma {:induction false} LookupEachInFullTable(rows: seq<Volume>, ids: seq<string>)
    requires forall id :: id in ids ==> LastWhere(rows, VolumeKey, id) == Some(Volume(id))
    ensures |LookupEach(rows, ids)| == |ids|
    ensures forall i :: 0 <= i < |ids| ==> LookupEach(rows, ids)[i] == Volume(ids[i])
    decreases |ids|
  {
    if ids != [] {
      var n := |ids| - 1;
      assert ids == ids[..n] + [ids[n]];
      LookupEachInFullTable(rows, ids[..n]);
    }
  }

  /** Different id lists are told apart by some table. */
  lemma ListsToldApart(a: seq<string>, b: seq<string>)
    requires a != b
    ensures exists rows :: UniqueIDs(rows) && LookupEach(rows, a) != LookupEach(rows, b)
  {
    var rows := TableFor(a + b);
    TableForHolds(a + b);
    forall id | id in a + b { TableForFinds(a + b, id); }
    LookupEachInFullTable(rows, a);
    LookupEachInFullTable(rows, b);
    if LookupEach(rows, a) == LookupEach(rows, b) {
      assert |a| == |b|;
      forall i | 0 <= i < |a| ensures a[i] == b[i] {
        assert Volume(a[i]) == Volume(b[i]);
      }
    }
  }

  /** Batched volume resolution gives every VM what looking its own ids up one by one gives. */
  predicate BatchIsNaive(keys: seq<Keys>, rows: seq<Volume>) {
    forall i :: 0 <= i < |keys| && keys[i].volumeIDs != [] ==>
      LookupEach(rows, BatchedIDs(keys, i)) == LookupEach(rows, keys[i].volumeIDs)
  }

  /**
   Over all volume tables, the batched volumes are the naive ones exactly when no volume id holds
   a NUL and VMs sharing an id list the same volumes.
   */
  lemma BatchedVolumesAreNaive(keys: seq<Keys>)
    ensures (forall rows: seq<Volume> :: UniqueIDs(rows) ==> BatchIsNaive(keys, rows))
      <==> SameIDSameVolumes(keys) && forall i :: 0 <= i < |keys| ==> NulFree(keys[i].volumeIDs)
  {
    hide BatchedIDs, LookupEach, SameIDSameVolumes, NulFree, UniqueIDs;
    BatchedIDsExact(keys);
    if i :| 0 <= i < |keys| && keys[i].volumeIDs != [] && BatchedIDs(keys, i) != keys[i].volumeIDs {
      ListsToldApart(BatchedIDs(keys, i), keys[i].volumeIDs);
    }
  }
}
