/**
 Removing and pruning kernels and images. Whether an item is in use is read from the fields the
 enricher filled in; its errors are not looked at, so an unanswered query reads as "not in use".
 */
module InUse {
  import opened Options
  import opened Tables
  import opened Reverse

  /** A kernel or image row; ids are the table's primary key. */
  datatype Row = Row(id: string, isDefault: bool, deleted: bool)

  /** What one removal call meets: the two reverse queries, and the ids whose row cannot be deleted. */
  datatype Env = Env(vmAnswer: Answer, snapAnswer: Answer, undeletable: set<string>)

  datatype Removal = Removed(id: string) | InUseBy(vms: nat, snapshots: nat) | RemoveFailed(id: string)

  // --- the table after a removal ---

  function Deleted(rows: seq<Row>, id: string): seq<Row> {
    if rows == [] then []
    else (if rows[0].id == id then [] else [rows[0]]) + Deleted(rows[1..], id)
  }

  function SoftDeleted(rows: seq<Row>, id: string): seq<Row> {
    if rows == [] then []
    else [if rows[0].id == id then rows[0].(deleted := true) else rows[0]] + SoftDeleted(rows[1..], id)
  }

  /** One item of a removal call: its id and the references seen. */
  datatype Target = Target(id: string, vms: nat, snapshots: nat) {
    predicate InUse() { vms > 0 || snapshots > 0 }
  }

  function Outcome(t: Target, force: bool, undeletable: set<string>): Removal {
    if !force && t.InUse() then InUseBy(t.vms, t.snapshots)
    else if t.id in undeletable then RemoveFailed(t.id)
    else Removed(t.id)
  }

  function Outcomes(ts: seq<Target>, force: bool, undeletable: set<string>): seq<Removal> {
    seq(|ts|, i requires 0 <= i < |ts| => Outcome(ts[i], force, undeletable))
  }

  /** The table after the targets were handled in order. */
  function After(rows: seq<Row>, ts: seq<Target>, force: bool, undeletable: set<string>): seq<Row>
    decreases |ts|
  {
    if ts == [] then rows
    else
      var n := |ts| - 1;
      var before := After(rows, ts[..n], force, undeletable);
      if !Outcome(ts[n], force, undeletable).Removed? then before
      else if ts[n].InUse() then SoftDeleted(before, ts[n].id)
      else Deleted(before, ts[n].id)
  }

  lemma {:induction false} DeletedRows(rows: seq<Row>, id: string)
    ensures forall r :: r in Deleted(rows, id) <==> r in rows && r.id != id
  {
    if rows != [] {
      DeletedRows(rows[1..], id);
      assert rows == [rows[0]] + rows[1..];
    }
  }

  lemma {:induction false} SoftDeletedKeepsRow(rows: seq<Row>, r: Row)
    requires r in rows
    ensures r.(deleted := true) in SoftDeleted(rows, r.id)
    ensures |SoftDeleted(rows, r.id)| == |rows|
  {
    SoftDeletedLength(rows, r.id);
    if rows[0] != r {
      SoftDeletedKeepsRow(rows[1..], r);
    }
  }

  lemma {:induction false} SoftDeletedLength(rows: seq<Row>, id: string)
    ensures |SoftDeleted(rows, id)| == |rows|
    ensures forall i :: 0 <= i < |rows| ==>
      SoftDeleted(rows, id)[i] == if rows[i].id == id then rows[i].(deleted := true) else rows[i]
  {
    if rows != [] { SoftDeletedLength(rows[1..], id); }
  }

  /** Some target removes this id. */
  predicate Takes(ts: seq<Target>, force: bool, undeletable: set<string>, id: string) {
    exists i :: 0 <= i < |ts| && ts[i].id == id && Outcome(ts[i], force, undeletable).Removed?
  }

  /** A row stays exactly as it was if no target takes it; a row that a plain call takes is gone. */
  lemma {:induction false} PlainRemovalIsExact(rows: seq<Row>, ts: seq<Target>, undeletable: set<string>)
    ensures forall r ::
      r in After(rows, ts, false, undeletable) <==> r in rows && !Takes(ts, false, undeletable, r.id)
    decreases |ts|
  {
    hide Deleted, SoftDeleted;
    if ts != [] {
      var n := |ts| - 1;
      var init := ts[..n];
      PlainRemovalIsExact(rows, init, undeletable);
      forall id ensures Takes(ts, false, undeletable, id)
        <==> Takes(init, false, undeletable, id) || (ts[n].id == id && Outcome(ts[n], false, undeletable).Removed?)
      {
        TakesGrows(ts, false, undeletable, id);
      }
      DeletedRows(After(rows, init, false, undeletable), ts[n].id);
    }
  }

  lemma TakesGrows(ts: seq<Target>, force: bool, undeletable: set<string>, id: string)
    requires ts != []
    ensures var n := |ts| - 1;
      Takes(ts, force, undeletable, id)
      <==> Takes(ts[..n], force, undeletable, id) || (ts[n].id == id && Outcome(ts[n], force, undeletable).Removed?)
  {
    var n := |ts| - 1;
    if Takes(ts[..n], force, undeletable, id) {
      var i :| 0 <= i < n && ts[..n][i].id == id && Outcome(ts[..n][i], force, undeletable).Removed?;
      assert ts[i].id == id;
    }
    if Takes(ts, force, undeletable, id) {
      var i :| 0 <= i < |ts| && ts[i].id == id && Outcome(ts[i], force, undeletable).Removed?;
      assert i < n ==> ts[..n][i] == ts[i];
    }
  }

  /** A forced call keeps the row of every item seen in use, marked deleted, if it takes it once. */
  lemma ForcedRemovalKeepsReferencedRow(rows: seq<Row>, t: Target, undeletable: set<string>, r: Row)
    requires r in rows && r.id == t.id && t.InUse() && t.id !in undeletable
    ensures r.(deleted := true) in After(rows, [t], true, undeletable)
  {
    assert [t][..0] == [] && After(rows, [], true, undeletable) == rows;
    SoftDeletedKeepsRow(rows, r);
  }

  // --- references ---

  /** Some VM or snapshot names this kernel. */
  predicate KernelNamed(vms: seq<VM>, snapshots: seq<Snapshot>, id: string) {
    || (exists v :: v in vms && v.kernelID == id)
    || (exists s :: s in snapshots && s.kernelID == id)
  }

  predicate ImageNamed(vms: seq<VM>, id: string) { exists v :: v in vms && v.imageID == id }

  /** A reference to the kernel that this call gets to see. */
  predicate KernelVisiblyNamed(vms: seq<VM>, snapshots: seq<Snapshot>, env: Env, id: string) {
    || (env.vmAnswer.Answered? && exists v :: v in vms && v.kernelID == id)
    || (!env.vmAnswer.HardFail? && env.snapAnswer.Answered? && exists s :: s in snapshots && s.kernelID == id)
  }

  /** Every kernel row that somebody names is still there, untouched. */
  predicate KeepsNamedKernels(before: seq<Row>, after: seq<Row>, vms: seq<VM>, snapshots: seq<Snapshot>) {
    forall r :: r in before && KernelNamed(vms, snapshots, r.id) ==> r in after
  }

  predicate KeepsNamedImages(before: seq<Row>, after: seq<Row>, vms: seq<VM>) {
    forall r :: r in before && ImageNamed(vms, r.id) ==> r in after
  }

  /** One target of a call in which some id is asked for, with what the item held before. */
  function HeldTarget(vms: seq<VM>, snapshots: seq<Snapshot>, env: Env, asked: bool, id: string,
                      heldVMs: seq<VM>, heldSnapshots: seq<Snapshot>): Target
  {
    Target(id,
      |Seen(vms, KernelOf, env.vmAnswer, asked, id, heldVMs)|,
      |Seen(snapshots, SnapshotKernel, env.snapAnswer, asked && !env.vmAnswer.HardFail?, id, heldSnapshots)|)
  }

  /** The target for a freshly read item: only what this call sees. */
  function KernelTarget(vms: seq<VM>, snapshots: seq<Snapshot>, env: Env, id: string): Target {
    HeldTarget(vms, snapshots, env, id != "", id, [], [])
  }

  /** The targets of a call over these items, whatever they held before. */
  ghost function TargetsOf(items: seq<KernelItem>, vms: seq<VM>, snapshots: seq<Snapshot>, env: Env): (ts: seq<Target>)
    reads items
    ensures |ts| == |items|
  {
    seq(|items|, i requires 0 <= i < |items| reads items =>
      HeldTarget(vms, snapshots, env, Asked(KernelIDs(items)), items[i].id, items[i].vms, items[i].snapshots))
  }

  ghost function ImageTargetsOf(items: seq<ImageItem>, vms: seq<VM>, env: Env): (ts: seq<Target>)
    reads items
    ensures |ts| == |items|
  {
    seq(|items|, i requires 0 <= i < |items| reads items =>
      Target(items[i].id, |Seen(vms, ImageOf, env.vmAnswer, Asked(ImageIDs(items)), items[i].id, items[i].vms)|, 0))
  }

  /** Items read from the database come without relations. */
  lemma FreshItemsTargets(items: seq<KernelItem>, vms: seq<VM>, snapshots: seq<Snapshot>, env: Env)
    requires forall k :: k in items ==> k.vms == [] && k.snapshots == []
    ensures TargetsOf(items, vms, snapshots, env) == KernelTargets(vms, snapshots, env, KernelIDs(items))
  {
    hide Where;
    var ids := KernelIDs(items);
    forall i | 0 <= i < |ids| && ids[i] != "" ensures Asked(ids) { assert ids[i] in ids; }
  }

  lemma FreshImageItemsTargets(items: seq<ImageItem>, vms: seq<VM>, env: Env)
    requires forall k :: k in items ==> k.vms == []
    ensures ImageTargetsOf(items, vms, env) == ImageTargets(vms, env, ImageIDs(items))
  {
    hide Where;
    var ids := ImageIDs(items);
    forall i | 0 <= i < |ids| && ids[i] != "" ensures Asked(ids) { assert ids[i] in ids; }
  }

  lemma SeenMeansVisible(vms: seq<VM>, snapshots: seq<Snapshot>, env: Env, id: string)
    requires id != ""
    ensures KernelTarget(vms, snapshots, env, id).InUse() <==> KernelVisiblyNamed(vms, snapshots, env, id)
  {
    WhereFinds(vms, KernelOf, id);
    WhereFinds(snapshots, SnapshotKernel, id);
    var v, s := Where(vms, KernelOf, id), Where(snapshots, SnapshotKernel, id);
    if v != [] { assert v[0] in vms; }
    if s != [] { assert s[0] in snapshots; }
    if x :| x in vms && x.kernelID == id { assert x in v; }
    if x :| x in snapshots && x.kernelID == id { assert x in s; }
  }

  /** The targets of a call, one per item. */
  function KernelTargets(vms: seq<VM>, snapshots: seq<Snapshot>, env: Env, ids: seq<string>): seq<Target> {
    seq(|ids|, i requires 0 <= i < |ids| => KernelTarget(vms, snapshots, env, ids[i]))
  }

  /**
   A plain kernel removal leaves no VM or snapshot with a vanished kernel exactly when, for every
   resolved kernel that has a row, is named and can be deleted, this call sees some reference.
   */
  lemma PlainKernelRemovalIsSafe(rows: seq<Row>, vms: seq<VM>, snapshots: seq<Snapshot>, env: Env, ids: seq<string>)
    requires forall id :: id in ids ==> id != ""
    ensures KeepsNamedKernels(rows, After(rows, KernelTargets(vms, snapshots, env, ids), false, env.undeletable), vms, snapshots)
      <==> forall r :: r in rows && r.id in ids && KernelNamed(vms, snapshots, r.id) && r.id !in env.undeletable
             ==> KernelVisiblyNamed(vms, snapshots, env, r.id)
  {
    hide After, KernelNamed, KernelVisiblyNamed, Seen;
    var ts := KernelTargets(vms, snapshots, env, ids);
    PlainRemovalIsExact(rows, ts, env.undeletable);
    forall r | r in rows
      ensures Takes(ts, false, env.undeletable, r.id)
        <==> r.id in ids && r.id !in env.undeletable && !KernelVisiblyNamed(vms, snapshots, env, r.id)
    {
      if r.id in ids {
        var i :| 0 <= i < |ids| && ids[i] == r.id;
        SeenMeansVisible(vms, snapshots, env, r.id);
        assert ts[i] == KernelTarget(vms, snapshots, env, r.id);
      }
    }
  }

  /** With both queries answered, a plain removal never orphans a reference. */
  lemma AnsweredQueriesAreSafe(rows: seq<Row>, vms: seq<VM>, snapshots: seq<Snapshot>, env: Env, ids: seq<string>)
    requires forall id :: id in ids ==> id != ""
    requires env.vmAnswer.Answered? && env.snapAnswer.Answered?
    ensures KeepsNamedKernels(rows, After(rows, KernelTargets(vms, snapshots, env, ids), false, env.undeletable), vms, snapshots)
  {
    PlainKernelRemovalIsSafe(rows, vms, snapshots, env, ids);
  }

  /** A database error in the VM query: the kernel of a VM and of a snapshot is deleted without force. */
  lemma FailedQueryOrphansAVM()
    ensures exists rows, vms, snapshots, env: Env, ids: seq<string> ::
      && env.vmAnswer.HardFail? && env.snapAnswer.Answered?
      && !KeepsNamedKernels(rows, After(rows, KernelTargets(vms, snapshots, env, ids), false, env.undeletable), vms, snapshots)
  {
    var rows, vms, snapshots := [Row("k", false, false)], [VM("v", "k", "", [])], [Snapshot("s", "k", "i")];
    var env, ids := Env(HardFail, Answered, {}), ["k"];
    PlainKernelRemovalIsSafe(rows, vms, snapshots, env, ids);
    assert rows[0] in rows && rows[0].id in ids && vms[0] in vms;
    assert KernelNamed(vms, snapshots, "k") && !KernelVisiblyNamed(vms, snapshots, env, "k");
  }

  // --- images: VMs only ---

  function ImageTarget(vms: seq<VM>, env: Env, id: string): Target {
    Target(id, |Seen(vms, ImageOf, env.vmAnswer, id != "", id, [])|, 0)
  }

  function ImageTargets(vms: seq<VM>, env: Env, ids: seq<string>): seq<Target> {
    seq(|ids|, i requires 0 <= i < |ids| => ImageTarget(vms, env, ids[i]))
  }

  /** A plain image removal orphans no VM exactly when it sees the VMs or takes no named image. */
  lemma PlainImageRemovalIsSafe(rows: seq<Row>, vms: seq<VM>, env: Env, ids: seq<string>)
    requires forall id :: id in ids ==> id != ""
    ensures KeepsNamedImages(rows, After(rows, ImageTargets(vms, env, ids), false, env.undeletable), vms)
      <==> (env.vmAnswer.Answered?
            || forall r :: r in rows && r.id in ids && ImageNamed(vms, r.id) ==> r.id in env.undeletable)
  {
    hide After, Takes, ImageNamed;
    PlainRemovalIsExact(rows, ImageTargets(vms, env, ids), env.undeletable);
    ImagesTaken(vms, env, ids);
  }

  /** A plain call takes the images it can delete and sees no VM of. */
  lemma ImagesTaken(vms: seq<VM>, env: Env, ids: seq<string>)
    requires forall id :: id in ids ==> id != ""
    ensures forall id ::
      (Takes(ImageTargets(vms, env, ids), false, env.undeletable, id)
       <==> id in ids && id !in env.undeletable && !(env.vmAnswer.Answered? && ImageNamed(vms, id)))
  {
    hide Seen, ImageNamed;
    var ts := ImageTargets(vms, env, ids);
    forall id
      ensures Takes(ts, false, env.undeletable, id)
        <==> id in ids && id !in env.undeletable && !(env.vmAnswer.Answered? && ImageNamed(vms, id))
    {
      if id in ids {
        var i :| 0 <= i < |ids| && ids[i] == id;
        ImageSeen(vms, env, id);
        assert ts[i] == ImageTarget(vms, env, id);
      }
    }
  }

  /** Some snapshot names this image, which a restore of it starts from; no removal asks for snapshots. */
  predicate SnapshotNamesImage(snapshots: seq<Snapshot>, id: string) { exists s :: s in snapshots && s.imageID == id }

  predicate KeepsImagesOfSnapshots(before: seq<Row>, after: seq<Row>, snapshots: seq<Snapshot>) {
    forall r :: r in before && SnapshotNamesImage(snapshots, r.id) ==> r in after
  }

  /**
   A plain image removal leaves no snapshot with a vanished image exactly when every image asked
   for that a snapshot names cannot be deleted or has a VM that the call sees.
   */
  lemma PlainImageRemovalKeepsSnapshots(rows: seq<Row>, vms: seq<VM>, snapshots: seq<Snapshot>, env: Env, ids: seq<string>)
    requires forall id :: id in ids ==> id != ""
    ensures KeepsImagesOfSnapshots(rows, After(rows, ImageTargets(vms, env, ids), false, env.undeletable), snapshots)
      <==> forall r :: r in rows && r.id in ids && SnapshotNamesImage(snapshots, r.id) && r.id !in env.undeletable
             ==> env.vmAnswer.Answered? && ImageNamed(vms, r.id)
  {
    hide After, Takes, ImageNamed, SnapshotNamesImage;
    PlainRemovalIsExact(rows, ImageTargets(vms, env, ids), env.undeletable);
    ImagesTaken(vms, env, ids);
  }

  /** Every query answered, and still: the image of a snapshot whose VM is gone is removed without force. */
  lemma RemovalOrphansASnapshot(env: Env)
    requires "i" !in env.undeletable
    ensures exists rows, snapshots ::
      !KeepsImagesOfSnapshots(rows, After(rows, ImageTargets([], env, ["i"]), false, env.undeletable), snapshots)
  {
    var rows, snapshots := [Row("i", false, false)], [Snapshot("s", "k", "i")];
    PlainImageRemovalKeepsSnapshots(rows, [], snapshots, env, ["i"]);
    assert rows[0] in rows && snapshots[0] in snapshots;
    assert SnapshotNamesImage(snapshots, rows[0].id) && !ImageNamed([], rows[0].id);
  }

  lemma ImageSeen(vms: seq<VM>, env: Env, id: string)
    requires id != ""
    ensures ImageTarget(vms, env, id).InUse() <==> env.vmAnswer.Answered? && ImageNamed(vms, id)
  {
    WhereFinds(vms, ImageOf, id);
    var v := Where(vms, ImageOf, id);
    if v != [] { assert v[0] in vms; }
    if x :| x in vms && x.imageID == id { assert x in v; }
  }

  // --- pruning ---

  /** What a prune meets: whether its own queries answer, which ids resolve, and each removal call. */
  datatype PruneEnv = PruneEnv(listed: bool, defaultAnswered: bool, vmsAnswered: bool, resolves: set<string>, call: string -> Env)

  /** The default that is not deleted, or "" when there is none. */
  function DefaultID(rows: seq<Row>): string {
    if rows == [] then ""
    else if rows[0].isDefault && !rows[0].deleted then rows[0].id
    else DefaultID(rows[1..])
  }

  /** The ids a prune goes for, in table order. */
  function Candidates(rows: seq<Row>, includeAll: bool, kept: set<string>): seq<string>
    decreases |rows|
  {
    if rows == [] then []
    else
      var n := |rows| - 1;
      Candidates(rows[..n], includeAll, kept) + if includeAll || rows[n].id !in kept then [rows[n].id] else []
  }

  /** The ids without the ones that are not `ok`: a subsequence. */
  function Keep(ids: seq<string>, ok: set<string>): seq<string>
    decreases |ids|
  {
    if ids == [] then []
    else
      var n := |ids| - 1;
      Keep(ids[..n], ok) + if ids[n] in ok then [ids[n]] else []
  }

  lemma KeepOfLast(ids: seq<string>, ok: set<string>)
    requires ids != []
    ensures var n := |ids| - 1;
      Keep(ids, ok) == if ids[n] in ok then Keep(ids[..n], ok) + [ids[n]] else Keep(ids[..n], ok)
  {
  }

  lemma {:induction false} KeepIsSubsequence(ids: seq<string>, ok: set<string>) returns (at: seq<nat>)
    ensures |at| == |Keep(ids, ok)|
    ensures forall i :: 0 <= i < |at| ==> at[i] < |ids| && ids[at[i]] == Keep(ids, ok)[i]
    ensures forall i, j :: 0 <= i < j < |at| ==> at[i] < at[j]
    decreases |ids|
  {
    if ids == [] {
      at := [];
    } else {
      var n := |ids| - 1;
      var before := KeepIsSubsequence(ids[..n], ok);
      KeepOfLast(ids, ok);
      hide Keep;
      forall i | 0 <= i < |before| ensures before[i] < n && ids[before[i]] == Keep(ids[..n], ok)[i] {
        assert ids[..n][before[i]] == ids[before[i]];
      }
      at := if ids[n] in ok then before + [n] else before;
    }
  }

  lemma {:induction false} KeepFinds(ids: seq<string>, ok: set<string>)
    ensures forall id :: id in Keep(ids, ok) <==> id in ids && id in ok
    decreases |ids|
  {
    if ids != [] {
      var n := |ids| - 1;
      KeepFinds(ids[..n], ok);
      assert ids == ids[..n] + [ids[n]];
    }
  }

  lemma {:induction false} CandidatesFind(rows: seq<Row>, includeAll: bool, kept: set<string>)
    ensures forall id ::
      id in Candidates(rows, includeAll, kept) <==> (exists r :: r in rows && r.id == id) && (includeAll || id !in kept)
    decreases |rows|
  {
    if rows != [] {
      var n := |rows| - 1;
      CandidatesFind(rows[..n], includeAll, kept);
      assert rows == rows[..n] + [rows[n]];
    }
  }

  predicate NamedRows(rows: seq<Row>) { forall r :: r in rows ==> r.id != "" }

  /** The call for this kernel goes through: it resolves, is not refused as in use, and is deleted. */
  predicate KernelSucceeds(vms: seq<VM>, snapshots: seq<Snapshot>, includeAll: bool, env: PruneEnv, id: string) {
    id in env.resolves
    && Outcome(KernelTarget(vms, snapshots, env.call(id), id), includeAll, env.call(id).undeletable).Removed?
  }

  function KernelSuccesses(vms: seq<VM>, snapshots: seq<Snapshot>, includeAll: bool, env: PruneEnv, ids: seq<string>): set<string> {
    set id | id in ids && KernelSucceeds(vms, snapshots, includeAll, env, id)
  }

  predicate ImageSucceeds(vms: seq<VM>, includeAll: bool, env: PruneEnv, id: string) {
    id in env.resolves
    && Outcome(ImageTarget(vms, env.call(id), id), includeAll, env.call(id).undeletable).Removed?
  }

  function ImageSuccesses(vms: seq<VM>, includeAll: bool, env: PruneEnv, ids: seq<string>): set<string> {
    set id | id in ids && ImageSucceeds(vms, includeAll, env, id)
  }

  /** The ids a prune without `includeAll` leaves alone: the default and what the VM list names. */
  function Spared(rows: seq<Row>, env: PruneEnv, namedByVMs: set<string>): set<string> {
    {if env.defaultAnswered then DefaultID(rows) else ""} + if env.vmsAnswered then namedByVMs else {}
  }

  /** The kernel table after one removal call per id. */
  function KernelsPruned(rows: seq<Row>, vms: seq<VM>, snapshots: seq<Snapshot>, includeAll: bool, env: PruneEnv, ids: seq<string>): seq<Row>
    decreases |ids|
  {
    if ids == [] then rows
    else
      var n := |ids| - 1;
      var before := KernelsPruned(rows, vms, snapshots, includeAll, env, ids[..n]);
      if ids[n] !in env.resolves then before
      else After(before, [KernelTarget(vms, snapshots, env.call(ids[n]), ids[n])], includeAll, env.call(ids[n]).undeletable)
  }

  function ImagesPruned(rows: seq<Row>, vms: seq<VM>, includeAll: bool, env: PruneEnv, ids: seq<string>): seq<Row>
    decreases |ids|
  {
    if ids == [] then rows
    else
      var n := |ids| - 1;
      var before := ImagesPruned(rows, vms, includeAll, env, ids[..n]);
      if ids[n] !in env.resolves then before
      else After(before, [ImageTarget(vms, env.call(ids[n]), ids[n])], includeAll, env.call(ids[n]).undeletable)
  }

  lemma TakesOne(t: Target, force: bool, undeletable: set<string>, id: string)
    ensures Takes([t], force, undeletable, id) <==> t.id == id && Outcome(t, force, undeletable).Removed?
  {
    assert [t][0] == t;
  }

  /** A plain prune removes exactly the rows whose removal call succeeds. */
  lemma {:induction false} PlainPruneIsExact(rows: seq<Row>, vms: seq<VM>, snapshots: seq<Snapshot>, env: PruneEnv, ids: seq<string>)
    ensures forall r :: r in KernelsPruned(rows, vms, snapshots, false, env, ids)
                   <==> r in rows && r.id !in KernelSuccesses(vms, snapshots, false, env, ids)
    decreases |ids|
  {
    hide After, KernelTarget, Takes, Outcome;
    if ids != [] {
      var n := |ids| - 1;
      var id := ids[n];
      PlainPruneIsExact(rows, vms, snapshots, env, ids[..n]);
      assert ids == ids[..n] + [id];
      var before := KernelsPruned(rows, vms, snapshots, false, env, ids[..n]);
      var t := KernelTarget(vms, snapshots, env.call(id), id);
      KernelTargetID(vms, snapshots, env.call(id), id);
      PlainRemovalIsExact(before, [t], env.call(id).undeletable);
      forall other { TakesOne(t, false, env.call(id).undeletable, other); }
    }
  }

  lemma KernelTargetID(vms: seq<VM>, snapshots: seq<Snapshot>, env: Env, id: string)
    ensures KernelTarget(vms, snapshots, env, id).id == id
  {
  }

  lemma {:induction false} PlainImagePruneIsExact(rows: seq<Row>, vms: seq<VM>, env: PruneEnv, ids: seq<string>)
    ensures forall r :: r in ImagesPruned(rows, vms, false, env, ids)
                   <==> r in rows && r.id !in ImageSuccesses(vms, false, env, ids)
    decreases |ids|
  {
    hide After, Takes, Outcome, Seen;
    if ids != [] {
      var n := |ids| - 1;
      var id := ids[n];
      PlainImagePruneIsExact(rows, vms, env, ids[..n]);
      assert ids == ids[..n] + [id];
      var before := ImagesPruned(rows, vms, false, env, ids[..n]);
      var t := ImageTarget(vms, env.call(id), id);
      PlainRemovalIsExact(before, [t], env.call(id).undeletable);
      forall other { TakesOne(t, false, env.call(id).undeletable, other); }
    }
  }

  /** A plain prune orphans nothing exactly when each removal it completes could see a reference, if there is one. */
  lemma PlainPruneIsSafe(rows: seq<Row>, vms: seq<VM>, snapshots: seq<Snapshot>, env: PruneEnv, ids: seq<string>)
    requires NamedRows(rows)
    ensures KeepsNamedKernels(rows, KernelsPruned(rows, vms, snapshots, false, env, ids), vms, snapshots)
      <==> forall r :: r in rows && r.id in ids && KernelNamed(vms, snapshots, r.id)
             && r.id in env.resolves && r.id !in env.call(r.id).undeletable
             ==> KernelVisiblyNamed(vms, snapshots, env.call(r.id), r.id)
  {
    hide KernelsPruned, KernelNamed, KernelVisiblyNamed, Seen;
    PlainPruneIsExact(rows, vms, snapshots, env, ids);
    forall r | r in rows
      ensures r.id in KernelSuccesses(vms, snapshots, false, env, ids)
        <==> (r.id in ids && r.id in env.resolves && r.id !in env.call(r.id).undeletable
              && !KernelVisiblyNamed(vms, snapshots, env.call(r.id), r.id))
    {
      SeenMeansVisible(vms, snapshots, env.call(r.id), r.id);
    }
  }

  /** One more target of a call. */
  lemma OneMoreTarget(rows: seq<Row>, ts: seq<Target>, i: nat, force: bool, undeletable: set<string>)
    requires i < |ts|
    ensures Outcomes(ts[..i + 1], force, undeletable)
         == Outcomes(ts[..i], force, undeletable) + [Outcome(ts[i], force, undeletable)]
    ensures var before := After(rows, ts[..i], force, undeletable);
      After(rows, ts[..i + 1], force, undeletable)
      == if !Outcome(ts[i], force, undeletable).Removed? then before
         else if ts[i].InUse() then SoftDeleted(before, ts[i].id)
         else Deleted(before, ts[i].id)
  {
    hide Deleted, SoftDeleted, Outcome;
    assert ts[..i + 1][..i] == ts[..i] && ts[..i + 1][i] == ts[i];
  }

  lemma NoTargets(rows: seq<Row>, ts: seq<Target>, force: bool, undeletable: set<string>)
    ensures Outcomes(ts[..0], force, undeletable) == [] && After(rows, ts[..0], force, undeletable) == rows
    ensures ts[..|ts|] == ts
  {
    assert ts[..0] == [];
  }

  class Store {
    var kernels: seq<Row>
    var images: seq<Row>
    var vms: seq<VM>
    var snapshots: seq<Snapshot>

    constructor (kernels: seq<Row>, images: seq<Row>, vms: seq<VM>, snapshots: seq<Snapshot>)
      ensures this.kernels == kernels && this.images == images && this.vms == vms && this.snapshots == snapshots
    {
      this.kernels, this.images, this.vms, this.snapshots := kernels, images, vms, snapshots;
    }

    /** `kernel.Service.Remove`: soft for a referenced kernel, hard otherwise. */
    method ServiceRemoveKernel(kernel: KernelItem, force: bool, undeletable: set<string>) returns (ok: bool)
      modifies this`kernels
      ensures var t := Target(kernel.id, |kernel.vms|, |kernel.snapshots|);
        && ok == Outcome(t, force, undeletable).Removed?
        && kernels == if !ok then old(kernels)
                      else if t.InUse() then SoftDeleted(old(kernels), t.id) else Deleted(old(kernels), t.id)
    {
      var used := |kernel.vms| > 0 || |kernel.snapshots| > 0;
      if used && !force { return false; }
      if kernel.id in undeletable { return false; }
      kernels := if used then SoftDeleted(kernels, kernel.id) else Deleted(kernels, kernel.id);
      ok := true;
    }

    /** One enriched kernel after the other; a refused or failed one does not stop the rest. */
    method RemoveEachKernel(items: seq<KernelItem>, force: bool, undeletable: set<string>, ghost ts: seq<Target>)
      returns (results: seq<Removal>)
      requires |ts| == |items|
      requires forall i :: 0 <= i < |items| ==> ts[i] == Target(items[i].id, |items[i].vms|, |items[i].snapshots|)
      modifies this`kernels
      ensures results == Outcomes(ts, force, undeletable)
      ensures kernels == After(old(kernels), ts, force, undeletable)
    {
      hide Outcomes, After, Deleted, SoftDeleted;
      results := [];
      NoTargets(kernels, ts, force, undeletable);
      for i := 0 to |items|
        invariant results == Outcomes(ts[..i], force, undeletable)
        invariant kernels == After(old(kernels), ts[..i], force, undeletable)
      {
        OneMoreTarget(old(kernels), ts, i, force, undeletable);
        var kernel := items[i];
        if !force && (|kernel.vms| > 0 || |kernel.snapshots| > 0) {
          results := results + [InUseBy(|kernel.vms|, |kernel.snapshots|)];
          continue;
        }
        var ok := ServiceRemoveKernel(kernel, force, undeletable);
        results := results + [if ok then Removed(kernel.id) else RemoveFailed(kernel.id)];
      }
    }

    /** Removes the resolved kernels; enrichment errors are dropped, so a field not filled in counts as it is. */
    method KernelRemove(items: seq<KernelItem>, force: bool, env: Env) returns (results: seq<Removal>)
      modifies this`kernels, items`vms, items`snapshots
      ensures results == Outcomes(old(TargetsOf(items, vms, snapshots, env)), force, env.undeletable)
      ensures kernels == After(old(kernels), old(TargetsOf(items, vms, snapshots, env)), force, env.undeletable)
    {
      hide Seen, After, Outcomes;
      ghost var ts := TargetsOf(items, vms, snapshots, env);
      var _ := EnrichKernel(items, vms, snapshots, env.vmAnswer, env.snapAnswer);
      results := RemoveEachKernel(items, force, env.undeletable, ts);
    }

    /** The whole removal pipeline for one listed kernel. */
    method PruneOneKernel(id: string, includeAll: bool, env: PruneEnv) returns (ok: bool)
      modifies this`kernels
      ensures ok == KernelSucceeds(vms, snapshots, includeAll, env, id)
      ensures kernels == if id !in env.resolves then old(kernels)
        else After(old(kernels), [KernelTarget(vms, snapshots, env.call(id), id)], includeAll, env.call(id).undeletable)
    {
      hide KernelTarget, After;
      if id !in env.resolves { return false; }
      var item := new KernelItem(id);
      assert KernelIDs([item]) == [id];
      FreshItemsTargets([item], vms, snapshots, env.call(id));
      var results := KernelRemove([item], includeAll, env.call(id));
      assert KernelTargets(vms, snapshots, env.call(id), [id]) == [KernelTarget(vms, snapshots, env.call(id), id)];
      ok := results[0].Removed?;
    }

    /** Lists, spares the default and what VMs name unless `includeAll`, and removes one by one. */
    method KernelPrune(dryRun: bool, includeAll: bool, env: PruneEnv) returns (removed: Option<seq<string>>)
      modifies this`kernels
      ensures removed.None? <==> !env.listed
      ensures dryRun || removed.None? ==> kernels == old(kernels)
      ensures removed.Some? ==>
        var candidates := Candidates(old(kernels), includeAll, Spared(old(kernels), env, set v | v in vms && v.kernelID != "" :: v.kernelID));
        && (dryRun ==> removed.value == candidates)
        && (!dryRun ==>
              && removed.value == Keep(candidates, KernelSuccesses(vms, snapshots, includeAll, env, candidates))
              && kernels == KernelsPruned(old(kernels), vms, snapshots, includeAll, env, candidates))
    {
      hide Spared, DefaultID;
      if !env.listed { return None; }
      var rows := kernels;
      var referenced := set v | v in vms && v.kernelID != "" :: v.kernelID;
      var spared := Spared(rows, env, referenced);
      var gone: seq<string> := [];
      ghost var cs: seq<string> := [];
      for i := 0 to |rows|
        invariant cs == Candidates(rows[..i], includeAll, spared)
        invariant gone == if dryRun then cs else Keep(cs, KernelSuccesses(vms, snapshots, includeAll, env, cs))
        invariant kernels == if dryRun then rows else KernelsPruned(rows, vms, snapshots, includeAll, env, cs)
      {
        hide KernelTarget, After, Outcome, KernelSucceeds, Keep, KernelSuccesses, Candidates, KernelsPruned;
        var id := rows[i].id;
        CandidatesGrow(rows, i, includeAll, spared);
        if !includeAll && id in spared { continue; }
        KeepGrows(vms, snapshots, includeAll, env, cs, id);
        KernelsPrunedGrow(rows, vms, snapshots, includeAll, env, cs, id);
        cs := cs + [id];
        if !dryRun {
          var ok := PruneOneKernel(id, includeAll, env);
          if !ok { continue; }
        }
        gone := gone + [id];
      }
      assert rows[..|rows|] == rows;
      removed := Some(gone);
    }

    method ServiceRemoveImage(image: ImageItem, force: bool, undeletable: set<string>) returns (ok: bool)
      modifies this`images
      ensures var t := Target(image.id, |image.vms|, 0);
        && ok == Outcome(t, force, undeletable).Removed?
        && images == if !ok then old(images)
                     else if t.InUse() then SoftDeleted(old(images), t.id) else Deleted(old(images), t.id)
    {
      var used := |image.vms| > 0;
      if used && !force { return false; }
      if image.id in undeletable { return false; }
      images := if used then SoftDeleted(images, image.id) else Deleted(images, image.id);
      ok := true;
    }

    method RemoveEachImage(items: seq<ImageItem>, force: bool, undeletable: set<string>, ghost ts: seq<Target>)
      returns (results: seq<Removal>)
      requires |ts| == |items|
      requires forall i :: 0 <= i < |items| ==> ts[i] == Target(items[i].id, |items[i].vms|, 0)
      modifies this`images
      ensures results == Outcomes(ts, force, undeletable)
      ensures images == After(old(images), ts, force, undeletable)
    {
      hide Outcomes, After, Deleted, SoftDeleted;
      results := [];
      NoTargets(images, ts, force, undeletable);
      for i := 0 to |items|
        invariant results == Outcomes(ts[..i], force, undeletable)
        invariant images == After(old(images), ts[..i], force, undeletable)
      {
        OneMoreTarget(old(images), ts, i, force, undeletable);
        var image := items[i];
        if !force && |image.vms| > 0 {
          results := results + [InUseBy(|image.vms|, 0)];
          continue;
        }
        var ok := ServiceRemoveImage(image, force, undeletable);
        results := results + [if ok then Removed(image.id) else RemoveFailed(image.id)];
      }
    }

    /** Removes the resolved images; enrichment errors are dropped. */
    method ImageRemove(items: seq<ImageItem>, force: bool, env: Env) returns (results: seq<Removal>)
      modifies this`images, items`vms
      ensures results == Outcomes(old(ImageTargetsOf(items, vms, env)), force, env.undeletable)
      ensures images == After(old(images), old(ImageTargetsOf(items, vms, env)), force, env.undeletable)
    {
      hide Seen, After, Outcomes;
      ghost var ts := ImageTargetsOf(items, vms, env);
      var _ := EnrichImage(items, vms, env.vmAnswer);
      results := RemoveEachImage(items, force, env.undeletable, ts);
    }

    method PruneOneImage(id: string, includeAll: bool, env: PruneEnv) returns (ok: bool)
      modifies this`images
      ensures ok == ImageSucceeds(vms, includeAll, env, id)
      ensures images == if id !in env.resolves then old(images)
        else After(old(images), [ImageTarget(vms, env.call(id), id)], includeAll, env.call(id).undeletable)
    {
      hide ImageTarget, After;
      if id !in env.resolves { return false; }
      var item := new ImageItem(id);
      assert ImageIDs([item]) == [id];
      FreshImageItemsTargets([item], vms, env.call(id));
      var results := ImageRemove([item], includeAll, env.call(id));
      assert ImageTargets(vms, env.call(id), [id]) == [ImageTarget(vms, env.call(id), id)];
      ok := results[0].Removed?;
    }

    method ImagePrune(dryRun: bool, includeAll: bool, env: PruneEnv) returns (removed: Option<seq<string>>)
      modifies this`images
      ensures removed.None? <==> !env.listed
      ensures dryRun || removed.None? ==> images == old(images)
      ensures removed.Some? ==>
        var candidates := Candidates(old(images), includeAll, Spared(old(images), env, set v | v in vms && v.imageID != "" :: v.imageID));
        && (dryRun ==> removed.value == candidates)
        && (!dryRun ==>
              && removed.value == Keep(candidates, ImageSuccesses(vms, includeAll, env, candidates))
              && images == ImagesPruned(old(images), vms, includeAll, env, candidates))
    {
      hide Spared, DefaultID;
      if !env.listed { return None; }
      var rows := images;
      var referenced := set v | v in vms && v.imageID != "" :: v.imageID;
      var spared := Spared(rows, env, referenced);
      var gone: seq<string> := [];
      ghost var cs: seq<string> := [];
      for i := 0 to |rows|
        invariant cs == Candidates(rows[..i], includeAll, spared)
        invariant gone == if dryRun then cs else Keep(cs, ImageSuccesses(vms, includeAll, env, cs))
        invariant images == if dryRun then rows else ImagesPruned(rows, vms, includeAll, env, cs)
      {
        hide ImageTarget, After, Outcome, ImageSucceeds, Keep, ImageSuccesses, Candidates, ImagesPruned;
        var id := rows[i].id;
        CandidatesGrow(rows, i, includeAll, spared);
        if !includeAll && id in spared { continue; }
        ImagesPrunedGrow(rows, vms, includeAll, env, cs, id);
        cs := cs + [id];
        if !dryRun {
          var ok := PruneOneImage(id, includeAll, env);
          if !ok { continue; }
        }
        gone := gone + [id];
      }
      assert rows[..|rows|] == rows;
      removed := Some(gone);
    }
  }

  lemma CandidatesGrow(rows: seq<Row>, i: nat, includeAll: bool, kept: set<string>)
    requires i < |rows|
    ensures includeAll || rows[i].id !in kept ==>
      Candidates(rows[..i + 1], includeAll, kept) == Candidates(rows[..i], includeAll, kept) + [rows[i].id]
    ensures !includeAll && rows[i].id in kept ==>
      Candidates(rows[..i + 1], includeAll, kept) == Candidates(rows[..i], includeAll, kept)
  {
    assert rows[..i + 1][..i] == rows[..i];
  }

  lemma KernelsPrunedGrow(rows: seq<Row>, vms: seq<VM>, snapshots: seq<Snapshot>, includeAll: bool, env: PruneEnv, ids: seq<string>, id: string)
    ensures KernelsPruned(rows, vms, snapshots, includeAll, env, ids + [id])
         == var before := KernelsPruned(rows, vms, snapshots, includeAll, env, ids);
            if id !in env.resolves then before
            else After(before, [KernelTarget(vms, snapshots, env.call(id), id)], includeAll, env.call(id).undeletable)
  {
    hide After, KernelTarget;
    assert (ids + [id])[..|ids|] == ids;
  }

  lemma KeepGrows(vms: seq<VM>, snapshots: seq<Snapshot>, includeAll: bool, env: PruneEnv, ids: seq<string>, id: string)
    ensures var before := Keep(ids, KernelSuccesses(vms, snapshots, includeAll, env, ids));
      Keep(ids + [id], KernelSuccesses(vms, snapshots, includeAll, env, ids + [id]))
      == if KernelSucceeds(vms, snapshots, includeAll, env, id) then before + [id] else before
  {
    hide KernelSucceeds;
    assert (ids + [id])[..|ids|] == ids;
    KeepAgrees(ids, KernelSuccesses(vms, snapshots, includeAll, env, ids + [id]),
               KernelSuccesses(vms, snapshots, includeAll, env, ids));
  }

  lemma {:induction false} KeepAgrees(ids: seq<string>, a: set<string>, b: set<string>)
    requires forall id :: id in ids ==> (id in a <==> id in b)
    ensures Keep(ids, a) == Keep(ids, b)
    decreases |ids|
  {
    if ids != [] {
      assert ids == ids[..|ids| - 1] + [ids[|ids| - 1]];
      KeepAgrees(ids[..|ids| - 1], a, b);
    }
  }

  lemma ImagesPrunedGrow(rows: seq<Row>, vms: seq<VM>, includeAll: bool, env: PruneEnv, ids: seq<string>, id: string)
    ensures ImagesPruned(rows, vms, includeAll, env, ids + [id])
         == var before := ImagesPruned(rows, vms, includeAll, env, ids);
            if id !in env.resolves then before
            else After(before, [ImageTarget(vms, env.call(id), id)], includeAll, env.call(id).undeletable)
    ensures var before := Keep(ids, ImageSuccesses(vms, includeAll, env, ids));
      Keep(ids + [id], ImageSuccesses(vms, includeAll, env, ids + [id]))
      == if ImageSucceeds(vms, includeAll, env, id) then before + [id] else before
  {
    hide After, ImageTarget, ImageSucceeds;
    assert (ids + [id])[..|ids|] == ids;
    KeepAgrees(ids, ImageSuccesses(vms, includeAll, env, ids + [id]), ImageSuccesses(vms, includeAll, env, ids));
  }

  /** A plain image prune orphans no VM exactly when no completed removal was of a named image it could not see. */
  lemma PlainImagePruneIsSafe(rows: seq<Row>, vms: seq<VM>, env: PruneEnv, ids: seq<string>)
    requires NamedRows(rows)
    ensures KeepsNamedImages(rows, ImagesPruned(rows, vms, false, env, ids), vms)
      <==> forall r :: r in rows && r.id in ids && ImageNamed(vms, r.id)
             && r.id in env.resolves && r.id !in env.call(r.id).undeletable
             ==> env.call(r.id).vmAnswer.Answered?
  {
    hide ImagesPruned, ImageNamed, ImageSuccesses;
    PlainImagePruneIsExact(rows, vms, env, ids);
    ImagesThatGo(rows, vms, env, ids);
  }

  lemma ImagesThatGo(rows: seq<Row>, vms: seq<VM>, env: PruneEnv, ids: seq<string>)
    requires NamedRows(rows)
    ensures forall r :: r in rows ==>
      (r.id in ImageSuccesses(vms, false, env, ids)
       <==> r.id in ids && r.id in env.resolves && r.id !in env.call(r.id).undeletable
            && !(env.call(r.id).vmAnswer.Answered? && ImageNamed(vms, r.id)))
  {
    hide ImageNamed, Seen;
    forall r | r in rows
      ensures r.id in ImageSuccesses(vms, false, env, ids)
        <==> (r.id in ids && r.id in env.resolves && r.id !in env.call(r.id).undeletable
              && !(env.call(r.id).vmAnswer.Answered? && ImageNamed(vms, r.id)))
    {
      ImageSeen(vms, env.call(r.id), r.id);
    }
  }

  /** A plain image prune keeps the snapshots' images exactly when its calls see a VM of each or cannot delete it. */
  lemma PlainImagePruneKeepsSnapshots(rows: seq<Row>, vms: seq<VM>, snapshots: seq<Snapshot>, env: PruneEnv, ids: seq<string>)
    requires NamedRows(rows)
    ensures KeepsImagesOfSnapshots(rows, ImagesPruned(rows, vms, false, env, ids), snapshots)
      <==> forall r :: r in rows && r.id in ids && SnapshotNamesImage(snapshots, r.id)
             && r.id in env.resolves && r.id !in env.call(r.id).undeletable
             ==> env.call(r.id).vmAnswer.Answered? && ImageNamed(vms, r.id)
  {
    hide ImagesPruned, ImageNamed, ImageSuccesses, SnapshotNamesImage;
    PlainImagePruneIsExact(rows, vms, env, ids);
    ImagesThatGo(rows, vms, env, ids);
  }

  /** Without `includeAll`, the default and every kernel the VM list names stay, unless their query failed. */
  lemma PlainPruneSpares(rows: seq<Row>, vms: seq<VM>, snapshots: seq<Snapshot>, env: PruneEnv, namedByVMs: set<string>, r: Row)
    requires r in rows
    requires (env.defaultAnswered && r.id == DefaultID(rows)) || (env.vmsAnswered && r.id in namedByVMs)
    ensures r in KernelsPruned(rows, vms, snapshots, false, env, Candidates(rows, false, Spared(rows, env, namedByVMs)))
  {
    hide KernelsPruned, Candidates, DefaultID;
    CandidatesFind(rows, false, Spared(rows, env, namedByVMs));
    PlainPruneIsExact(rows, vms, snapshots, env, Candidates(rows, false, Spared(rows, env, namedByVMs)));
  }
}
