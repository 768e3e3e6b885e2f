/**
 Attaching, detaching and removing volumes. Two tables record the same fact: a volume row names
 its VM, and a VM row lists its volumes. They are written one after the other, failed writes are
 only logged, and detach does not ask who owns the volume; the laws say exactly when the tables
 still agree afterwards.
 */
module Volumes {
  import opened Options
  import opened Tables

  datatype Status = Available | Attached

  /** `shared`: a shareable read-only volume, whose attachments are not tracked in its row. */
  datatype Volume = Volume(status: Status, vmID: Option<string>, shared: bool)

  /** The volume rows, and the volume ids each VM row lists. */
  datatype Rows = Rows(volumes: map<string, Volume>, vms: map<string, seq<string>>)

  // --- agreement of the two tables ---

  predicate VolumeAgrees(t: Rows, v: string)
    requires v in t.volumes
  {
    var row := t.volumes[v];
    && (row.shared ==> row.vmID.None?)
    && (row.status.Attached? <==> row.vmID.Some?)
    && (row.vmID.Some? ==> row.vmID.value in t.vms && v in t.vms[row.vmID.value])
  }

  predicate VMAgrees(t: Rows, m: string)
    requires m in t.vms
  {
    && NoDuplicates(t.vms[m])
    && forall v :: v in t.vms[m] ==> v in t.volumes && (t.volumes[v].shared || t.volumes[v].vmID == Some(m))
  }

  predicate Consistent(t: Rows) {
    && (forall v :: v in t.volumes ==> VolumeAgrees(t, v))
    && (forall m :: m in t.vms ==> VMAgrees(t, m))
  }

  predicate Lists(t: Rows, m: string, v: string) { m in t.vms && v in t.vms[m] }

  /** What agreement means for an ordinary volume: attached iff some VM lists it iff exactly its VM does. */
  lemma AttachedMeansOneOwner(t: Rows, v: string)
    requires Consistent(t) && v in t.volumes && !t.volumes[v].shared
    ensures t.volumes[v].status.Attached? <==> exists m :: Lists(t, m, v)
    ensures t.volumes[v].status.Attached? ==>
      t.volumes[v].vmID.Some? && forall m :: Lists(t, m, v) <==> m == t.volumes[v].vmID.value
  {
    assert VolumeAgrees(t, v);
    forall m | Lists(t, m, v) ensures t.volumes[v].vmID == Some(m) { assert VMAgrees(t, m); }
    if t.volumes[v].vmID.Some? { assert Lists(t, t.volumes[v].vmID.value, v); }
  }

  /** No VM lists a volume that has no row. */
  lemma NoRemovedVolumeListed(t: Rows, m: string, v: string)
    requires Consistent(t) && Lists(t, m, v)
    ensures v in t.volumes
  {
    assert VMAgrees(t, m);
  }

  // --- the operations on values ---

  function Without(ids: seq<string>, v: string): seq<string> {
    if ids == [] then [] else (if ids[0] == v then [] else [ids[0]]) + Without(ids[1..], v)
  }

  function SetVolume(t: Rows, v: string, status: Status, vmID: Option<string>, written: bool): Rows
    requires v in t.volumes
  {
    if t.volumes[v].shared || !written then t
    else t.(volumes := t.volumes[v := t.volumes[v].(status := status, vmID := vmID)])
  }

  function SetList(t: Rows, m: string, ids: seq<string>, written: bool): Rows {
    if written then t.(vms := t.vms[m := ids]) else t
  }

  /** Which of the two table writes of an operation goes through. */
  datatype Writes = Writes(volume: bool, vm: bool)

  /** `hotplug`: the VM is not running, or the device could be plugged in. */
  predicate CanAttach(t: Rows, m: string, v: string, hotplug: bool) {
    m in t.vms && v in t.volumes && t.volumes[v].status.Available? && hotplug
  }

  function AfterAttach(t: Rows, m: string, v: string, hotplug: bool, w: Writes): Rows {
    if !CanAttach(t, m, v, hotplug) then t
    else
      var t' := SetVolume(t, v, Attached, Some(m), w.volume);
      SetList(t', m, if v in t.vms[m] then t.vms[m] else t.vms[m] + [v], w.vm)
  }

  function AfterDetach(t: Rows, m: string, v: string, gate: bool, w: Writes): Rows {
    if m !in t.vms || v !in t.volumes || !gate then t
    else SetList(SetVolume(t, v, Available, None, w.volume), m, Without(t.vms[m], v), w.vm)
  }

  /** The VM list the forced removal of an attached volume cleans, if its row can be read and written. */
  function Cleaned(t: Rows, v: string, row: Volume, force: bool, w: Writes): Rows {
    if row.status.Attached? && force && row.vmID.Some? && row.vmID.value in t.vms
    then SetList(t, row.vmID.value, Without(t.vms[row.vmID.value], v), w.vm)
    else t
  }

  predicate RemoveRefused(row: Volume, force: bool) {
    row.status.Attached? && !row.shared && !force
  }

  /** Removing one volume whose row was read as `row`. */
  function AfterRemove(t: Rows, v: string, row: Volume, force: bool, w: Writes): Rows {
    if RemoveRefused(row, force) then t
    else
      var t' := Cleaned(t, v, row, force, w);
      if w.volume then t'.(volumes := t'.volumes - {v}) else t'
  }

  lemma {:induction false} WithoutFinds(ids: seq<string>, v: string)
    ensures forall x :: x in Without(ids, v) <==> x in ids && x != v
    ensures NoDuplicates(ids) ==> NoDuplicates(Without(ids, v))
  {
    if ids != [] {
      WithoutFinds(ids[1..], v);
      assert ids == [ids[0]] + ids[1..];
      if NoDuplicates(ids) {
        assert forall i, j :: 0 <= i < j < |ids| - 1 ==> ids[1..][i] == ids[i + 1] && ids[1..][j] == ids[j + 1];
        assert ids[0] !in ids[1..];
      }
    }
  }

  // --- exactly when each operation keeps the tables in agreement ---

  /** Nobody lists an ordinary volume that is free, so attaching it is the only listing. */
  lemma FreeIsUnlisted(t: Rows, m: string, v: string)
    requires Consistent(t) && v in t.volumes && !t.volumes[v].shared && t.volumes[v].vmID != Some(m)
    ensures !Lists(t, m, v)
  {
    if m in t.vms { assert VMAgrees(t, m); }
  }

  /** Attach keeps agreement exactly when it is refused, untracked, or both writes share one fate. */
  lemma AttachKeepsAgreement(t: Rows, m: string, v: string, hotplug: bool, w: Writes)
    requires Consistent(t)
    ensures Consistent(AfterAttach(t, m, v, hotplug, w))
      <==> CarefulAttach(t, m, v, hotplug, w)
  {
    var t' := AfterAttach(t, m, v, hotplug, w);
    if CanAttach(t, m, v, hotplug) {
      assert VolumeAgrees(t, v) && VMAgrees(t, m);
      if t.volumes[v].shared || w.volume == w.vm {
        forall x | x in t'.volumes ensures VolumeAgrees(t', x) { assert VolumeAgrees(t, x); }
        forall x | x in t'.vms ensures VMAgrees(t', x) { assert VMAgrees(t, x); }
      } else if w.volume {
        assert !VolumeAgrees(t', v);
      } else {
        assert v in t'.vms[m] && !VMAgrees(t', m);
      }
    }
  }

  /**
   Detach keeps agreement exactly when it is refused, untracked, the volume is free, the VM named is
   its owner and both writes share one fate, or another VM is the owner and the volume row is not written.
   */
  lemma DetachKeepsAgreement(t: Rows, m: string, v: string, gate: bool, w: Writes)
    requires Consistent(t)
    ensures Consistent(AfterDetach(t, m, v, gate, w))
      <==> CarefulDetach(t, m, v, gate, w)
  {
    var t' := AfterDetach(t, m, v, gate, w);
    if m in t.vms && v in t.volumes && gate {
      assert VolumeAgrees(t, v) && VMAgrees(t, m);
      WithoutFinds(t.vms[m], v);
      var owner := t.volumes[v].vmID;
      if t.volumes[v].shared || owner.None? || (if owner == Some(m) then w.volume == w.vm else !w.volume) {
        forall x | x in t'.volumes ensures VolumeAgrees(t', x) { assert VolumeAgrees(t, x); }
        forall x | x in t'.vms ensures VMAgrees(t', x) { assert VMAgrees(t, x); }
      } else if owner != Some(m) || w.volume {
        assert v in t'.vms[owner.value] && !VMAgrees(t', owner.value);
      } else {
        assert !VolumeAgrees(t', v);
      }
    }
  }

  /**
   Removing a volume keeps agreement exactly when it is refused, the row stays with nothing cleaned,
   no VM lists it, or its one owner's list is cleaned and the row deleted together.
   */
  lemma RemoveKeepsAgreement(t: Rows, v: string, force: bool, w: Writes)
    requires Consistent(t) && v in t.volumes
    ensures Consistent(AfterRemove(t, v, t.volumes[v], force, w))
      <==> CarefulRemove(t, v, t.volumes[v], force, w)
  {
    var row := t.volumes[v];
    var t' := AfterRemove(t, v, row, force, w);
    assert VolumeAgrees(t, v);
    if !RemoveRefused(row, force) {
      if row.vmID.Some? { WithoutFinds(t.vms[row.vmID.value], v); }
      if row.shared {
        if w.volume && exists m :: Lists(t, m, v) {
          var m :| Lists(t, m, v);
          assert v in t'.vms[m] && !VMAgrees(t', m);
        } else {
          RemoveUnlisted(t, t', v, w);
        }
      } else if row.status.Available? {
        forall m ensures !Lists(t, m, v) { FreeIsUnlisted(t, m, v); }
        RemoveUnlisted(t, t', v, w);
      } else {
        RemoveAttached(t, t', v, w);
      }
    }
  }

  lemma RemoveUnlisted(t: Rows, t': Rows, v: string, w: Writes)
    requires Consistent(t) && v in t.volumes
    requires t'.vms == t.vms && t'.volumes == if w.volume then t.volumes - {v} else t.volumes
    requires w.volume ==> forall m :: !Lists(t, m, v)
    ensures Consistent(t')
  {
    forall x | x in t'.volumes ensures VolumeAgrees(t', x) { assert VolumeAgrees(t, x); }
    forall x | x in t'.vms ensures VMAgrees(t', x) {
      assert VMAgrees(t, x);
      assert w.volume ==> !Lists(t, x, v);
    }
  }

  lemma RemoveAttached(t: Rows, t': Rows, v: string, w: Writes)
    requires Consistent(t) && v in t.volumes && !t.volumes[v].shared && t.volumes[v].status.Attached?
    requires t' == AfterRemove(t, v, t.volumes[v], true, w)
    ensures Consistent(t') <==> w.volume == w.vm
  {
    assert VolumeAgrees(t, v);
    var owner := t.volumes[v].vmID.value;
    WithoutFinds(t.vms[owner], v);
    if w.volume == w.vm {
      forall x | x in t'.volumes ensures VolumeAgrees(t', x) { assert VolumeAgrees(t, x); }
      forall x | x in t'.vms ensures VMAgrees(t', x) { assert VMAgrees(t, x); }
    } else if w.volume {
      assert v in t'.vms[owner] && !VMAgrees(t', owner);
    } else {
      assert !VolumeAgrees(t', v);
    }
  }

  /** Detaching through a VM that does not own the volume: its owner goes on listing a free volume. */
  lemma DetachByAnotherVM()
    ensures exists t: Rows, m, v ::
      Consistent(t) && m in t.vms && !Consistent(AfterDetach(t, m, v, true, Writes(true, true)))
  {
    var t := Rows(map["v" := Volume(Attached, Some("a"), false)], map["a" := ["v"], "b" := []]);
    assert VolumeAgrees(t, "v") && VMAgrees(t, "a") && VMAgrees(t, "b");
    DetachKeepsAgreement(t, "b", "v", true, Writes(true, true));
  }

  /** A shareable read-only volume is removed, without force, from under the VMs that list it. */
  lemma RemoveSharedWhileListed()
    ensures exists t: Rows, m, v ::
      && Consistent(t) && v in t.volumes && Lists(t, m, v)
      && Lists(AfterRemove(t, v, t.volumes[v], false, Writes(true, true)), m, v)
      && v !in AfterRemove(t, v, t.volumes[v], false, Writes(true, true)).volumes
  {
    var t := Rows(map["v" := Volume(Available, None, true)], map["a" := ["v"]]);
    assert VolumeAgrees(t, "v") && VMAgrees(t, "a") && Lists(t, "a", "v");
    var t' := AfterRemove(t, "v", t.volumes["v"], false, Writes(true, true));
    assert Lists(t', "a", "v") && "v" !in t'.volumes;
  }

  // --- whole runs ---

  /** The operations, with the fate of the writes whose failure is only logged. */
  datatype Op =
    | Create(v: string, shared: bool)
    | CreateVM(m: string, ids: seq<string>, marked: set<string>, listed: bool)
    | Attach(m: string, v: string, hotplug: bool, w: Writes)
    | Detach(m: string, v: string, gate: bool, w: Writes)
    | Remove(v: string, force: bool, w: Writes)
    | RemoveVM(m: string, freed: set<string>, deleted: bool)

  /** The volumes asked for that have a row, each once, in the order asked. */
  function Resolved(volumes: map<string, Volume>, ids: seq<string>): seq<string>
    decreases |ids|
  {
    if ids == [] then []
    else
      var n := |ids| - 1;
      var before := Resolved(volumes, ids[..n]);
      if ids[n] in volumes && ids[n] !in before then before + [ids[n]] else before
  }

  /** The tracked volumes among `ids` whose row write goes through get this status and VM, if `only` holds of them. */
  function Restated(volumes: map<string, Volume>, ids: seq<string>, written: set<string>, onlyAttached: bool,
                    status: Status, vmID: Option<string>): map<string, Volume>
  {
    map v | v in volumes ::
      if v in ids && v in written && !volumes[v].shared && (onlyAttached ==> volumes[v].status.Attached?)
      then volumes[v].(status := status, vmID := vmID) else volumes[v]
  }

  /**
   Creating a VM with volumes takes the rows without looking at their status, then lists them.
   `marked`: the volumes whose row write goes through; `listed`: the list is written.
   */
  function AfterCreateVM(t: Rows, m: string, ids: seq<string>, marked: set<string>, listed: bool): Rows {
    if m in t.vms then t
    else
      var resolved := Resolved(t.volumes, ids);
      Rows(Restated(t.volumes, resolved, marked, false, Attached, Some(m)), t.vms[m := if listed then resolved else []])
  }

  /**
   Removing a VM frees the attached tracked volumes it lists and deletes its row. `freed`: the
   volumes whose row is read and written; `deleted`: the VM's row goes.
   */
  function AfterRemoveVM(t: Rows, m: string, freed: set<string>, deleted: bool): Rows {
    if m !in t.vms then t
    else Rows(Restated(t.volumes, t.vms[m], freed, true, Available, None), if deleted then t.vms - {m} else t.vms)
  }

  function Do(t: Rows, op: Op): Rows {
    match op
    case Create(v, shared) => if v in t.volumes then t else t.(volumes := t.volumes[v := Volume(Available, None, shared)])
    case CreateVM(m, ids, marked, listed) => AfterCreateVM(t, m, ids, marked, listed)
    case Attach(m, v, hotplug, w) => AfterAttach(t, m, v, hotplug, w)
    case Detach(m, v, gate, w) => AfterDetach(t, m, v, gate, w)
    case Remove(v, force, w) => if v in t.volumes then AfterRemove(t, v, t.volumes[v], force, w) else t
    case RemoveVM(m, freed, deleted) => AfterRemoveVM(t, m, freed, deleted)
  }

  predicate CarefulAttach(t: Rows, m: string, v: string, hotplug: bool, w: Writes) {
    !CanAttach(t, m, v, hotplug) || t.volumes[v].shared || w.volume == w.vm
  }

  /** Refused, untracked, free, through the owner with both writes sharing one fate, or the row not written. */
  predicate CarefulDetach(t: Rows, m: string, v: string, gate: bool, w: Writes) {
    m !in t.vms || v !in t.volumes || !gate || t.volumes[v].shared || t.volumes[v].vmID.None?
    || (if t.volumes[v].vmID == Some(m) then w.volume == w.vm else !w.volume)
  }

  /** Refused, free, listed by nobody if untracked, or cleaned and deleted together. */
  ghost predicate CarefulRemove(t: Rows, v: string, row: Volume, force: bool, w: Writes) {
    RemoveRefused(row, force)
    || (if row.shared then !w.volume || forall m :: !Lists(t, m, v) else row.status.Available? || w.volume == w.vm)
  }

  /** A free volume is marked and listed together or not at all; one that has an owner is left alone. */
  predicate CarefulCreateVM(t: Rows, m: string, ids: seq<string>, marked: set<string>, listed: bool) {
    m in t.vms
    || forall v :: v in Resolved(t.volumes, ids) && v in t.volumes && !t.volumes[v].shared ==>
         if t.volumes[v].vmID.None? then (v in marked) == listed else v !in marked && !listed
  }

  /** Each tracked volume of the VM is freed exactly if the VM's row goes. */
  predicate CarefulRemoveVM(t: Rows, m: string, freed: set<string>, deleted: bool) {
    m !in t.vms || forall v :: v in t.vms[m] && v in t.volumes && !t.volumes[v].shared ==> (v in freed) == deleted
  }

  /** What the caller would have to see to for the tables to go on agreeing. */
  ghost predicate Careful(t: Rows, op: Op) {
    match op
    case Attach(m, v, hotplug, w) => CarefulAttach(t, m, v, hotplug, w)
    case Detach(m, v, gate, w) => CarefulDetach(t, m, v, gate, w)
    case Remove(v, force, w) => v in t.volumes ==> CarefulRemove(t, v, t.volumes[v], force, w)
    case CreateVM(m, ids, marked, listed) => CarefulCreateVM(t, m, ids, marked, listed)
    case RemoveVM(m, freed, deleted) => CarefulRemoveVM(t, m, freed, deleted)
    case Create(_, _) => true
  }

  ghost predicate CarefulRun(t: Rows, ops: seq<Op>)
    decreases |ops|
  {
    ops == [] || (Careful(t, ops[0]) && CarefulRun(Do(t, ops[0]), ops[1..]))
  }

  /** The tables agree before, between and after the operations. */
  predicate AgreesThroughout(t: Rows, ops: seq<Op>)
    decreases |ops|
  {
    Consistent(t) && (ops == [] || AgreesThroughout(Do(t, ops[0]), ops[1..]))
  }

  lemma {:induction false} ResolvedIsExact(volumes: map<string, Volume>, ids: seq<string>)
    ensures forall v :: v in Resolved(volumes, ids) <==> v in ids && v in volumes
    ensures NoDuplicates(Resolved(volumes, ids))
    decreases |ids|
  {
    if ids != [] {
      var n := |ids| - 1;
      ResolvedIsExact(volumes, ids[..n]);
      assert ids == ids[..n] + [ids[n]];
    }
  }

  /** Creating a VM keeps agreement exactly if it is careful with every volume asked for. */
  lemma CreateVMKeepsAgreement(t: Rows, m: string, ids: seq<string>, marked: set<string>, listed: bool)
    requires Consistent(t)
    ensures Consistent(AfterCreateVM(t, m, ids, marked, listed)) <==> CarefulCreateVM(t, m, ids, marked, listed)
  {
    if m !in t.vms {
      ResolvedIsExact(t.volumes, ids);
      var t' := AfterCreateVM(t, m, ids, marked, listed);
      var resolved := Resolved(t.volumes, ids);
      hide Resolved;
      if CarefulCreateVM(t, m, ids, marked, listed) {
        forall v | v in t'.volumes ensures VolumeAgrees(t', v) { assert VolumeAgrees(t, v); }
        forall x | x in t'.vms ensures VMAgrees(t', x) { assert x in t.vms ==> VMAgrees(t, x); }
      } else {
        var v :| v in resolved && v in t.volumes && !t.volumes[v].shared
          && !(if t.volumes[v].vmID.None? then (v in marked) == listed else v !in marked && !listed);
        CarelessCreateBreaks(t, m, ids, marked, listed, v);
      }
    }
  }

  lemma CarelessCreateBreaks(t: Rows, m: string, ids: seq<string>, marked: set<string>, listed: bool, v: string)
    requires Consistent(t) && m !in t.vms && v in Resolved(t.volumes, ids) && v in t.volumes && !t.volumes[v].shared
    requires !(if t.volumes[v].vmID.None? then (v in marked) == listed else v !in marked && !listed)
    ensures !Consistent(AfterCreateVM(t, m, ids, marked, listed))
  {
    hide Resolved;
    var t' := AfterCreateVM(t, m, ids, marked, listed);
    assert VolumeAgrees(t, v);
    var owner := t.volumes[v].vmID;
    if v in marked && owner.Some? {
      assert v in t'.vms[owner.value] && !VMAgrees(t', owner.value);
    } else if v in marked {
      assert !VolumeAgrees(t', v);
    } else {
      assert v in t'.vms[m] && !VMAgrees(t', m);
    }
  }

  /** Removing a VM keeps agreement exactly if its tracked volumes are freed exactly when its row goes. */
  lemma RemoveVMKeepsAgreement(t: Rows, m: string, freed: set<string>, deleted: bool)
    requires Consistent(t)
    ensures Consistent(AfterRemoveVM(t, m, freed, deleted)) <==> CarefulRemoveVM(t, m, freed, deleted)
  {
    if m in t.vms {
      var t' := AfterRemoveVM(t, m, freed, deleted);
      assert VMAgrees(t, m);
      if CarefulRemoveVM(t, m, freed, deleted) {
        forall v | v in t'.volumes ensures VolumeAgrees(t', v) { assert VolumeAgrees(t, v); }
        forall x | x in t'.vms ensures VMAgrees(t', x) { assert VMAgrees(t, x); }
      } else {
        var v :| v in t.vms[m] && v in t.volumes && !t.volumes[v].shared && (v in freed) != deleted;
        assert VolumeAgrees(t, v);
        if deleted { assert !VolumeAgrees(t', v); } else { assert v in t'.vms[m] && !VMAgrees(t', m); }
      }
    }
  }

  /** A second VM created with an attached volume takes its row from under the first. */
  lemma CreateVMTakesAttachedVolume()
    ensures exists t: Rows, m, v ::
      && Consistent(t) && m !in t.vms && v in t.volumes && t.volumes[v].status.Attached?
      && !Consistent(AfterCreateVM(t, m, [v], {v}, true))
  {
    var t := Rows(map["v" := Volume(Attached, Some("a"), false)], map["a" := ["v"]]);
    assert VolumeAgrees(t, "v") && VMAgrees(t, "a");
    assert ["v"][..0] == [] && Resolved(t.volumes, []) == [] && Resolved(t.volumes, ["v"]) == ["v"];
    CarelessCreateBreaks(t, "b", ["v"], {"v"}, true, "v");
  }

  lemma CreateKeepsAgreement(t: Rows, v: string, shared: bool)
    requires Consistent(t) && v !in t.volumes
    ensures Consistent(t.(volumes := t.volumes[v := Volume(Available, None, shared)]))
  {
    var t' := t.(volumes := t.volumes[v := Volume(Available, None, shared)]);
    forall x | x in t'.volumes ensures VolumeAgrees(t', x) { assert x in t.volumes ==> VolumeAgrees(t, x); }
    forall x | x in t'.vms ensures VMAgrees(t', x) { assert VMAgrees(t, x); }
  }

  /** One operation keeps agreement exactly if it is careful. */
  lemma StepKeepsAgreementIffCareful(t: Rows, op: Op)
    requires Consistent(t)
    ensures Consistent(Do(t, op)) <==> Careful(t, op)
  {
    hide Consistent, AfterAttach, AfterDetach, AfterRemove, AfterCreateVM, AfterRemoveVM, CarefulCreateVM, CarefulRemoveVM;
    match op
    case Create(v, shared) => if v !in t.volumes { CreateKeepsAgreement(t, v, shared); }
    case CreateVM(m, ids, marked, listed) => CreateVMKeepsAgreement(t, m, ids, marked, listed);
    case Attach(m, v, hotplug, w) => AttachKeepsAgreement(t, m, v, hotplug, w);
    case Detach(m, v, gate, w) => DetachKeepsAgreement(t, m, v, gate, w);
    case Remove(v, force, w) => if v in t.volumes { RemoveKeepsAgreement(t, v, force, w); }
    case RemoveVM(m, freed, deleted) => RemoveVMKeepsAgreement(t, m, freed, deleted);
  }

  /** From agreeing tables, a run keeps them in agreement throughout exactly if every operation is careful. */
  lemma {:induction false} RunAgreesIffCareful(t: Rows, ops: seq<Op>)
    requires Consistent(t)
    ensures AgreesThroughout(t, ops) <==> CarefulRun(t, ops)
    decreases |ops|
  {
    hide Consistent, Do, Careful;
    if ops != [] {
      StepKeepsAgreementIffCareful(t, ops[0]);
      if Careful(t, ops[0]) {
        RunAgreesIffCareful(Do(t, ops[0]), ops[1..]);
      }
    }
  }

  // --- the program, on the two tables ---

  /** One turn of the filter. */
  lemma WithoutNext(ids: seq<string>, i: nat, v: string, kept: seq<string>)
    requires i < |ids|
    ensures kept + Without(ids[i..], v)
         == (if ids[i] != v then kept + [ids[i]] else kept) + Without(ids[i + 1..], v)
  {
    var rest := ids[i..];
    assert rest[1..] == ids[i + 1..] && rest[0] == ids[i];
    assert kept + ([ids[i]] + Without(rest[1..], v)) == kept + [ids[i]] + Without(rest[1..], v);
    assert [] + Without(rest[1..], v) == Without(rest[1..], v);
  }

  class Store {
    var volumes: map<string, Volume>
    var vms: map<string, seq<string>>

    constructor ()
      ensures Contents() == Rows(map[], map[])
    {
      volumes, vms := map[], map[];
    }

    function Contents(): Rows
      reads this
    {
      Rows(volumes, vms)
    }

    /** `volume.Controller.Attach` and `Detach`: a no-op for shareable read-only volumes. */
    method SetVolumeRow(v: string, status: Status, vmID: Option<string>, written: bool)
      requires v in volumes
      modifies this`volumes
      ensures Contents() == SetVolume(old(Contents()), v, status, vmID, written)
    {
      if volumes[v].shared { return; }
      if written {
        volumes := volumes[v := volumes[v].(status := status, vmID := vmID)];
      }
    }

    method VolumeAttach(m: string, v: string, hotplug: bool, w: Writes) returns (ok: bool)
      modifies this
      ensures ok <==> CanAttach(old(Contents()), m, v, hotplug)
      ensures Contents() == AfterAttach(old(Contents()), m, v, hotplug, w)
    {
      if m !in vms || v !in volumes { return false; }
      if volumes[v].status == Attached { return false; }
      if !hotplug { return false; }
      SetVolumeRow(v, Attached, Some(m), w.volume);
      var ids := vms[m];
      var found := false;
      for i := 0 to |ids|
        invariant !found && v !in ids[..i]
      {
        if ids[i] == v {
          found := true;
          break;
        }
      }
      if !found {
        ids := ids + [v];
      }
      if w.vm {
        vms := vms[m := ids];
      }
      ok := true;
    }

    /** The list without the volume, in order. */
    static method FilterOut(ids: seq<string>, v: string) returns (kept: seq<string>)
      ensures kept == Without(ids, v)
    {
      kept := [];
      assert ids[0..] == ids;
      for i := 0 to |ids|
        invariant kept + Without(ids[i..], v) == Without(ids, v)
      {
        hide Without;
        WithoutNext(ids, i, v, kept);
        if ids[i] != v {
          kept := kept + [ids[i]];
        }
      }
      assert ids[|ids|..] == [] && kept + [] == kept;
    }

    method VolumeDetach(m: string, v: string, gate: bool, w: Writes) returns (ok: bool)
      modifies this
      ensures ok <==> m in old(vms) && v in old(volumes) && gate
      ensures Contents() == AfterDetach(old(Contents()), m, v, gate, w)
    {
      if m !in vms || v !in volumes { return false; }
      if !gate { return false; }
      SetVolumeRow(v, Available, None, w.volume);
      var kept := FilterOut(vms[m], v);
      if w.vm {
        vms := vms[m := kept];
      }
      ok := true;
    }

    /** Unknown identifiers are dropped and repeated ones named once. */
    method ResolveMany(ids: seq<string>) returns (resolved: seq<string>)
      ensures resolved == Resolved(volumes, ids)
    {
      resolved := [];
      for i := 0 to |ids|
        invariant resolved == Resolved(volumes, ids[..i])
      {
        assert ids[..i + 1][..i] == ids[..i];
        if ids[i] in volumes && ids[i] !in resolved {
          resolved := resolved + [ids[i]];
        }
      }
      assert ids[..|ids|] == ids;
    }

    /** `SetVolumesState`: one row after the other, by their state as read before. */
    method SetVolumesState(ids: seq<string>, written: set<string>, status: Status, vmID: Option<string>)
      requires forall v :: v in ids ==> v in volumes
      modifies this`volumes
      ensures volumes == Restated(old(volumes), ids, written, status.Available?, status, vmID)
    {
      var rows := volumes;
      for i := 0 to |ids|
        invariant volumes == Restated(rows, ids[..i], written, status.Available?, status, vmID)
      {
        var v := ids[i];
        assert ids[..i + 1] == ids[..i] + [v];
        if status.Available? && rows[v].status != Attached { continue; }
        if rows[v].shared { continue; }
        if v in written {
          volumes := volumes[v := rows[v].(status := status, vmID := vmID)];
        }
      }
      assert ids[..|ids|] == ids;
    }

    /** The volumes of a new VM. */
    method VMCreate(m: string, ids: seq<string>, marked: set<string>, listed: bool)
      requires m !in vms
      modifies this
      ensures Contents() == AfterCreateVM(old(Contents()), m, ids, marked, listed)
    {
      var resolved := ResolveMany(ids);
      ResolvedIsExact(volumes, ids);
      vms := vms[m := []];
      if |resolved| > 0 {
        SetVolumesState(resolved, marked, Attached, Some(m));
        if listed {
          vms := vms[m := resolved];
        }
      } else {
        assert Restated(volumes, resolved, marked, false, Attached, Some(m)) == volumes;
      }
    }

    /** The volumes of a VM that is removed: those whose row is read and still attached are freed. */
    method VMRemove(m: string, freed: set<string>, deleted: bool)
      requires m in vms
      modifies this
      ensures Contents() == AfterRemoveVM(old(Contents()), m, freed, deleted)
    {
      var ids := vms[m];
      var found: seq<string> := [];
      for i := 0 to |ids|
        invariant forall v :: v in found <==> v in ids[..i] && v in volumes
      {
        assert ids[..i + 1] == ids[..i] + [ids[i]];
        if ids[i] in volumes {
          found := found + [ids[i]];
        }
      }
      assert ids[..|ids|] == ids;
      SetVolumesState(found, freed, Available, None);
      if deleted {
        vms := vms - {m};
      }
    }

    /** One resolved volume, with the row as it was read when the identifiers were resolved. */
    method RemoveOne(v: string, row: Volume, force: bool, w: Writes) returns (ok: bool)
      modifies this
      ensures ok <==> !RemoveRefused(row, force)
      ensures Contents() == AfterRemove(old(Contents()), v, row, force, w)
    {
      var effectivelyAttached := row.status == Attached && !row.shared;
      if effectivelyAttached && !force { return false; }
      if row.status == Attached && force && row.vmID.Some? {
        var m := row.vmID.value;
        if m in vms {
          var kept := FilterOut(vms[m], v);
          if w.vm {
            vms := vms[m := kept];
          }
        }
      }
      if w.volume {
        volumes := volumes - {v};
      }
      ok := true;
    }

    /** The resolved volumes one after the other; a refused one does not stop the rest. */
    method VolumeRemove(ids: seq<string>, force: bool, ws: seq<Writes>) returns (results: seq<bool>)
      requires |ws| == |ids| && forall v :: v in ids ==> v in volumes
      modifies this
      ensures |results| == |ids|
      ensures forall i :: 0 <= i < |ids| ==> (results[i] <==> !RemoveRefused(old(volumes)[ids[i]], force))
      ensures Contents() == AfterRemoveMany(old(Contents()), old(volumes), ids, force, ws)
    {
      var rows := volumes;
      results := [];
      for i := 0 to |ids|
        invariant |results| == i
        invariant forall j :: 0 <= j < i ==> (results[j] <==> !RemoveRefused(rows[ids[j]], force))
        invariant Contents() == AfterRemoveMany(old(Contents()), rows, ids[..i], force, ws[..i])
      {
        var ok := RemoveOne(ids[i], rows[ids[i]], force, ws[i]);
        results := results + [ok];
        assert ids[..i + 1][..i] == ids[..i] && ws[..i + 1][..i] == ws[..i];
      }
      assert ids[..|ids|] == ids && ws[..|ids|] == ws;
    }
  }

  function AfterRemoveMany(t: Rows, rows: map<string, Volume>, ids: seq<string>, force: bool, ws: seq<Writes>): Rows
    requires |ws| == |ids| && forall v :: v in ids ==> v in rows
    decreases |ids|
  {
    if ids == [] then t
    else
      var n := |ids| - 1;
      AfterRemove(AfterRemoveMany(t, rows, ids[..n], force, ws[..n]), ids[n], rows[ids[n]], force, ws[n])
  }

  /** A volume's row, and who lists it, are the same in both. */
  ghost predicate SameFor(t: Rows, u: Rows, v: string) {
    && (v in t.volumes <==> v in u.volumes) && (v in t.volumes ==> t.volumes[v] == u.volumes[v])
    && (forall m :: Lists(t, m, v) <==> Lists(u, m, v))
  }

  lemma RemoveLeavesOthers(t: Rows, v: string, row: Volume, force: bool, w: Writes, other: string)
    requires other != v
    ensures SameFor(t, AfterRemove(t, v, row, force, w), other)
    ensures AfterRemove(t, v, row, force, w).vms.Keys == t.vms.Keys
  {
    if row.vmID.Some? && row.vmID.value in t.vms { WithoutFinds(t.vms[row.vmID.value], v); }
  }

  lemma {:induction false} RemoveManyLeavesOthers(t: Rows, ids: seq<string>, force: bool, ws: seq<Writes>, other: string)
    requires |ws| == |ids| && (forall v :: v in ids ==> v in t.volumes) && other !in ids
    ensures SameFor(t, AfterRemoveMany(t, t.volumes, ids, force, ws), other)
    ensures AfterRemoveMany(t, t.volumes, ids, force, ws).vms.Keys == t.vms.Keys
    decreases |ids|
  {
    if ids != [] {
      var n := |ids| - 1;
      RemoveManyLeavesOthers(t, ids[..n], force, ws[..n], other);
      RemoveLeavesOthers(AfterRemoveMany(t, t.volumes, ids[..n], force, ws[..n]), ids[n], t.volumes[ids[n]], force, ws[n], other);
    }
  }

  /** One volume about which the tables disagree: listed without a row, or attached to a VM that does not list it. */
  ghost predicate Broken(t: Rows, v: string) {
    || (v !in t.volumes && exists m :: Lists(t, m, v))
    || (v in t.volumes && t.volumes[v].vmID.Some? && !Lists(t, t.volumes[v].vmID.value, v))
  }

  lemma AgreementIsNotBroken(t: Rows, v: string)
    requires Consistent(t)
    ensures !Broken(t, v)
  {
    forall m | Lists(t, m, v) ensures v in t.volumes { assert VMAgrees(t, m); }
    assert v in t.volumes ==> VolumeAgrees(t, v);
  }

  lemma BrokenDisagrees(t: Rows, v: string)
    ensures Broken(t, v) ==> !Consistent(t)
  {
    if Consistent(t) { AgreementIsNotBroken(t, v); }
  }

  /** A removal that is not careful breaks its own volume, whatever happened to others before. */
  lemma CarelessRemoveBreaks(t: Rows, u: Rows, v: string, force: bool, w: Writes)
    requires Consistent(t) && v in t.volumes && SameFor(t, u, v) && u.vms.Keys == t.vms.Keys
    requires !CarefulRemove(t, v, t.volumes[v], force, w)
    ensures Broken(AfterRemove(u, v, t.volumes[v], force, w), v)
  {
    var row := t.volumes[v];
    var u' := AfterRemove(u, v, row, force, w);
    assert VolumeAgrees(t, v);
    if row.shared {
      var m :| Lists(t, m, v);
      assert Lists(u', m, v);
    } else {
      var m := row.vmID.value;
      assert Lists(t, m, v);
      WithoutFinds(u.vms[m], v);
      assert w.volume ==> Lists(u', m, v);
    }
  }

  /**
   A call over distinct volumes keeps agreement exactly when the removal of each one, judged on the
   tables before the call, is careful.
   */
  lemma {:induction false} RemoveManyKeepsAgreement(t: Rows, ids: seq<string>, force: bool, ws: seq<Writes>)
    requires Consistent(t) && |ws| == |ids| && NoDuplicates(ids) && forall v :: v in ids ==> v in t.volumes
    ensures Consistent(AfterRemoveMany(t, t.volumes, ids, force, ws))
      <==> forall i :: 0 <= i < |ids| ==> CarefulRemove(t, ids[i], t.volumes[ids[i]], force, ws[i])
    ensures forall i :: 0 <= i < |ids| && !CarefulRemove(t, ids[i], t.volumes[ids[i]], force, ws[i]) ==>
      Broken(AfterRemoveMany(t, t.volumes, ids, force, ws), ids[i])
    decreases |ids|
  {
    hide Consistent, AfterRemove, CarefulRemove, SameFor, Broken, NoDuplicates;
    if ids != [] {
      var n := |ids| - 1;
      var v := ids[n];
      LastIsNew(ids);
      RemoveManyKeepsAgreement(t, ids[..n], force, ws[..n]);
      var before := AfterRemoveMany(t, t.volumes, ids[..n], force, ws[..n]);
      RemoveManyLeavesOthers(t, ids[..n], force, ws[..n], v);
      LastRemoval(t, before, v, force, ws[n]);
      forall i | 0 <= i < n && !CarefulRemove(t, ids[i], t.volumes[ids[i]], force, ws[i])
        ensures Broken(AfterRemove(before, v, t.volumes[v], force, ws[n]), ids[i])
      {
        assert Broken(before, ids[..n][i]) && ws[..n][i] == ws[i];
        BrokenStays(before, v, t.volumes[v], force, ws[n], ids[i]);
      }
      forall i | 0 <= i < |ids| && !CarefulRemove(t, ids[i], t.volumes[ids[i]], force, ws[i])
        ensures !Consistent(AfterRemoveMany(t, t.volumes, ids, force, ws))
      {
        BrokenDisagrees(AfterRemoveMany(t, t.volumes, ids, force, ws), ids[i]);
      }
    }
  }

  lemma LastIsNew(ids: seq<string>)
    requires ids != [] && NoDuplicates(ids)
    ensures var n := |ids| - 1;
      && NoDuplicates(ids[..n]) && ids[n] !in ids[..n] && (forall i :: 0 <= i < n ==> ids[i] != ids[n] && ids[..n][i] == ids[i])
  {
  }

  lemma BrokenStays(t: Rows, v: string, row: Volume, force: bool, w: Writes, other: string)
    requires Broken(t, other) && other != v
    ensures Broken(AfterRemove(t, v, row, force, w), other)
  {
    RemoveLeavesOthers(t, v, row, force, w, other);
  }

  /** The last removal of a call, after removals of other volumes. */
  lemma LastRemoval(t: Rows, before: Rows, v: string, force: bool, w: Writes)
    requires Consistent(t) && v in t.volumes && SameFor(t, before, v) && before.vms.Keys == t.vms.Keys
    ensures var after := AfterRemove(before, v, t.volumes[v], force, w);
      && (Consistent(before) && CarefulRemove(t, v, t.volumes[v], force, w) ==> Consistent(after))
      && (!CarefulRemove(t, v, t.volumes[v], force, w) ==> Broken(after, v))
  {
    hide Consistent, AfterRemove, Broken;
    if !CarefulRemove(t, v, t.volumes[v], force, w) {
      CarelessRemoveBreaks(t, before, v, force, w);
    } else if Consistent(before) {
      RemoveKeepsAgreement(before, v, force, w);
    }
  }

  // --- volumes named more than once in a call ---

  /**
   If all writes go through and no untracked volume of the call is listed, the tables agree after
   the call even when volumes are named more than once, and only what was asked for is gone.
   */
  lemma {:induction false} RepeatedRemovalsKeepAgreement(t: Rows, ids: seq<string>, force: bool, ws: seq<Writes>)
    requires Consistent(t) && |ws| == |ids| && forall v :: v in ids ==> v in t.volumes
    requires forall i :: 0 <= i < |ws| ==> ws[i] == Writes(true, true)
    requires forall v, m :: v in ids && t.volumes[v].shared ==> !Lists(t, m, v)
    ensures var t' := AfterRemoveMany(t, t.volumes, ids, force, ws);
      && Consistent(t')
      && (forall v :: v in t'.volumes ==> v in t.volumes && t'.volumes[v] == t.volumes[v])
      && (forall v :: v in t.volumes && v !in t'.volumes ==> v in ids)
      && (forall m, v :: Lists(t', m, v) ==> Lists(t, m, v))
      && (forall m :: m in t'.vms <==> m in t.vms)
    decreases |ids|
  {
    hide Consistent;
    if ids != [] {
      var n := |ids| - 1;
      RepeatedRemovalsKeepAgreement(t, ids[..n], force, ws[..n]);
      RemoveAgain(t, AfterRemoveMany(t, t.volumes, ids[..n], force, ws[..n]), ids[n], force);
    }
  }

  lemma RemoveAgain(t: Rows, before: Rows, v: string, force: bool)
    requires Consistent(t) && Consistent(before) && v in t.volumes
    requires v in before.volumes ==> before.volumes[v] == t.volumes[v]
    requires forall m :: m in before.vms <==> m in t.vms
    requires t.volumes[v].shared ==> forall m :: !Lists(before, m, v)
    ensures var t' := AfterRemove(before, v, t.volumes[v], force, Writes(true, true));
      && Consistent(t')
      && (forall x :: x in t'.volumes ==> x in before.volumes && t'.volumes[x] == before.volumes[x])
      && (forall x :: x in before.volumes && x !in t'.volumes ==> x == v)
      && (forall m, x :: Lists(t', m, x) ==> Lists(before, m, x))
      && (forall m :: m in t'.vms <==> m in t.vms)
  {
    var row := t.volumes[v];
    assert VolumeAgrees(t, v);
    if row.vmID.Some? && row.vmID.value in before.vms { WithoutFinds(before.vms[row.vmID.value], v); }
    if v in before.volumes {
      RemoveKeepsAgreement(before, v, force, Writes(true, true));
    } else if row.vmID.Some? {
      var m := row.vmID.value;
      assert VMAgrees(before, m) && v !in before.vms[m];
      WithoutAbsent(before.vms[m], v);
      assert Cleaned(before, v, row, force, Writes(true, true)) == before;
    }
  }

  lemma {:induction false} WithoutAbsent(ids: seq<string>, v: string)
    requires v !in ids
    ensures Without(ids, v) == ids
  {
    if ids != [] { WithoutAbsent(ids[1..], v); }
  }
}
