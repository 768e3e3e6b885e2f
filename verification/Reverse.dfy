/**
 Reverse relations: which VMs and snapshots name a kernel, an image or a volume. One batch query
 for all items, grouped by the foreign key, written into the items; the specification is a filter
 of the table.
 */
module Reverse {
  import opened Options
  import opened Tables

  datatype VM = VM(id: string, kernelID: string, imageID: string, volumeIDs: seq<string>)
  datatype Snapshot = Snapshot(id: string, kernelID: string, imageID: string)

  function KernelOf(vm: VM): string { vm.kernelID }
  function ImageOf(vm: VM): string { vm.imageID }
  function SnapshotKernel(s: Snapshot): string { s.kernelID }

  /** How the database answers one query: with the rows, a domain error, or any other error. */
  datatype Answer = Answered | SoftFail | HardFail

  class KernelItem {
    const id: string
    var vms: seq<VM>
    var snapshots: seq<Snapshot>

    constructor (id: string)
      ensures this.id == id && vms == [] && snapshots == []
    {
      this.id, vms, snapshots := id, [], [];
    }
  }

  class ImageItem {
    const id: string
    var vms: seq<VM>

    constructor (id: string)
      ensures this.id == id && vms == []
    {
      this.id, vms := id, [];
    }
  }

  class VolumeItem {
    const id: string
    var vms: seq<VM>

    constructor (id: string)
      ensures this.id == id && vms == []
    {
      this.id, vms := id, [];
    }
  }

  /** The rows that name `id`; the empty id is never asked for. */
  function Naming<T>(rows: seq<T>, key: T -> string, id: string): seq<T> {
    if id == "" then [] else Where(rows, key, id)
  }

  /**
   What an item's relation field holds afterwards: the rows naming it if the query was made and
   answered, else what it held before. `asked` says that some item has a non-empty id.
   */
  function Seen<T>(rows: seq<T>, key: T -> string, answer: Answer, asked: bool, id: string, was: seq<T>): seq<T> {
    if asked && answer.Answered? then Naming(rows, key, id) else was
  }

  /** Queries once for all ids together and groups the answer. */
  method GroupFor<T>(rows: seq<T>, key: T -> string, ids: seq<string>) returns (m: map<string, seq<T>>)
    ensures forall id :: id in ids && id != "" ==> Slice(m, id) == Where(rows, key, id)
    ensures Slice(m, "") == []
  {
    var wanted := set id | id in ids && id != "";
    m := Group(Selected(rows, key, wanted), key);
    forall id ensures Slice(m, id) == if id in wanted then Where(rows, key, id) else [] {
      WhereSelected(rows, key, wanted, id);
    }
  }

  predicate Asked(ids: seq<string>) { exists id :: id in ids && id != "" }

  // --- kernels ---

  /** The ids asked for; a nil item has none. */
  function KernelIDs(kernels: seq<KernelItem?>): seq<string> {
    seq(|kernels|, i requires 0 <= i < |kernels| => if kernels[i] == null then "" else kernels[i].id)
  }

  function ImageIDs(images: seq<ImageItem?>): seq<string> {
    seq(|images|, i requires 0 <= i < |images| => if images[i] == null then "" else images[i].id)
  }

  function VolumeIDs(volumes: seq<VolumeItem?>): seq<string> {
    seq(|volumes|, i requires 0 <= i < |volumes| => if volumes[i] == null then "" else volumes[i].id)
  }

  lemma IDIsListed(kernels: seq<KernelItem?>, k: KernelItem)
    requires k in kernels
    ensures k.id in KernelIDs(kernels)
  {
    var i :| 0 <= i < |kernels| && kernels[i] == k;
    assert KernelIDs(kernels)[i] == k.id;
  }

  method AssignKernelVMs(kernels: seq<KernelItem?>, groups: map<string, seq<VM>>)
    modifies (set k: KernelItem | k in kernels)`vms
    ensures forall k: KernelItem :: k in kernels ==> k.vms == Slice(groups, k.id)
  {
    for i := 0 to |kernels|
      invariant forall k: KernelItem :: k in kernels[..i] ==> k.vms == Slice(groups, k.id)
    {
      var k := kernels[i];
      assert kernels[..i + 1] == kernels[..i] + [k];
      if k == null { continue; }
      k.vms := Slice(groups, k.id);
    }
    assert kernels[..|kernels|] == kernels;
  }

  method EnrichKernelVMs(kernels: seq<KernelItem?>, rows: seq<VM>, answer: Answer) returns (hard: bool)
    modifies (set k: KernelItem | k in kernels)`vms
    ensures hard == (answer.HardFail? && Asked(KernelIDs(kernels)))
    ensures forall k: KernelItem :: k in kernels ==>
      k.vms == Seen(rows, KernelOf, answer, Asked(KernelIDs(kernels)), k.id, old(k.vms))
  {
    var ids := CollectUnique(KernelIDs(kernels));
    if ids == [] || !answer.Answered? {
      assert ids != [] ==> ids[0] in KernelIDs(kernels);
      return ids != [] && answer.HardFail?;
    }
    assert ids[0] in KernelIDs(kernels);
    var groups := GroupFor(rows, KernelOf, ids);
    forall k: KernelItem | k in kernels ensures Slice(groups, k.id) == Naming(rows, KernelOf, k.id) {
      IDIsListed(kernels, k);
    }
    AssignKernelVMs(kernels, groups);
    hard := false;
  }

  method AssignKernelSnapshots(kernels: seq<KernelItem?>, groups: map<string, seq<Snapshot>>)
    modifies (set k: KernelItem | k in kernels)`snapshots
    ensures forall k: KernelItem :: k in kernels ==> k.snapshots == Slice(groups, k.id)
  {
    for i := 0 to |kernels|
      invariant forall k: KernelItem :: k in kernels[..i] ==> k.snapshots == Slice(groups, k.id)
    {
      var k := kernels[i];
      assert kernels[..i + 1] == kernels[..i] + [k];
      if k == null { continue; }
      k.snapshots := Slice(groups, k.id);
    }
    assert kernels[..|kernels|] == kernels;
  }

  method EnrichKernelSnapshots(kernels: seq<KernelItem?>, rows: seq<Snapshot>, answer: Answer) returns (hard: bool)
    modifies (set k: KernelItem | k in kernels)`snapshots
    ensures hard == (answer.HardFail? && Asked(KernelIDs(kernels)))
    ensures forall k: KernelItem :: k in kernels ==>
      k.snapshots == Seen(rows, SnapshotKernel, answer, Asked(KernelIDs(kernels)), k.id, old(k.snapshots))
  {
    var ids := CollectUnique(KernelIDs(kernels));
    if ids == [] || !answer.Answered? {
      assert ids != [] ==> ids[0] in KernelIDs(kernels);
      return ids != [] && answer.HardFail?;
    }
    assert ids[0] in KernelIDs(kernels);
    var groups := GroupFor(rows, SnapshotKernel, ids);
    forall k: KernelItem | k in kernels ensures Slice(groups, k.id) == Naming(rows, SnapshotKernel, k.id) {
      IDIsListed(kernels, k);
    }
    AssignKernelSnapshots(kernels, groups);
    hard := false;
  }

  /** VMs first, then snapshots; a hard failure of the first keeps the second from being asked. */
  method EnrichKernel(kernels: seq<KernelItem?>, vms: seq<VM>, snapshots: seq<Snapshot>, vmAnswer: Answer, snapAnswer: Answer)
    returns (hard: bool)
    modifies (set k: KernelItem | k in kernels)`vms, (set k: KernelItem | k in kernels)`snapshots
    ensures hard == (Asked(KernelIDs(kernels)) && (vmAnswer.HardFail? || snapAnswer.HardFail?))
    ensures forall k: KernelItem :: k in kernels ==>
      && k.vms == Seen(vms, KernelOf, vmAnswer, Asked(KernelIDs(kernels)), k.id, old(k.vms))
      && k.snapshots == Seen(snapshots, SnapshotKernel, snapAnswer,
                             Asked(KernelIDs(kernels)) && !vmAnswer.HardFail?, k.id, old(k.snapshots))
  {
    hide Asked;
    if kernels == [] {
      NothingAsked();
      assert KernelIDs(kernels) == [];
      return false;
    }
    hard := EnrichKernelVMs(kernels, vms, vmAnswer);
    if hard { return; }
    hard := EnrichKernelSnapshots(kernels, snapshots, snapAnswer);
  }

  lemma NothingAsked()
    ensures !Asked([])
  {
  }

  // --- images ---

  method AssignImageVMs(images: seq<ImageItem?>, groups: map<string, seq<VM>>)
    modifies (set k: ImageItem | k in images)`vms
    ensures forall k: ImageItem :: k in images ==> k.vms == Slice(groups, k.id)
  {
    for i := 0 to |images|
      invariant forall k: ImageItem :: k in images[..i] ==> k.vms == Slice(groups, k.id)
    {
      var k := images[i];
      assert images[..i + 1] == images[..i] + [k];
      if k == null { continue; }
      k.vms := Slice(groups, k.id);
    }
    assert images[..|images|] == images;
  }

  method EnrichImage(images: seq<ImageItem?>, rows: seq<VM>, answer: Answer) returns (hard: bool)
    modifies (set k: ImageItem | k in images)`vms
    ensures hard == (answer.HardFail? && Asked(ImageIDs(images)))
    ensures forall k: ImageItem :: k in images ==>
      k.vms == Seen(rows, ImageOf, answer, Asked(ImageIDs(images)), k.id, old(k.vms))
  {
    var ids := CollectUnique(ImageIDs(images));
    if ids == [] || !answer.Answered? {
      assert ids != [] ==> ids[0] in ImageIDs(images);
      return ids != [] && answer.HardFail?;
    }
    assert ids[0] in ImageIDs(images);
    var groups := GroupFor(rows, ImageOf, ids);
    forall k: ImageItem | k in images ensures Slice(groups, k.id) == Naming(rows, ImageOf, k.id) {
      var i :| 0 <= i < |images| && images[i] == k;
      assert ImageIDs(images)[i] == k.id;
    }
    AssignImageVMs(images, groups);
    hard := false;
  }

  // --- volumes: one VM belongs to as many groups as it lists volumes ---

  /** What the inner loop appends to the group of `id` for one VM: the VM once per listed `id`. */
  function Copies(vm: VM, vids: seq<string>, id: string): seq<VM>
    decreases |vids|
  {
    if vids == [] then []
    else
      var n := |vids| - 1;
      Copies(vm, vids[..n], id) + if vids[n] == id then [vm] else []
  }

  /** What the grouping loop collects for `id`. */
  function Listings(rows: seq<VM>, id: string): seq<VM>
    decreases |rows|
  {
    if rows == [] then []
    else
      var n := |rows| - 1;
      Listings(rows[..n], id) + Copies(rows[n], rows[n].volumeIDs, id)
  }

  /** What is wanted: each VM listing the volume, once, in row order. */
  function Listing(rows: seq<VM>, id: string): seq<VM>
    decreases |rows|
  {
    if rows == [] then []
    else
      var n := |rows| - 1;
      Listing(rows[..n], id) + if id in rows[n].volumeIDs then [rows[n]] else []
  }

  predicate ListsAny(vm: VM, ids: set<string>) { exists id :: id in ids && id in vm.volumeIDs }

  /** What the batch query answers: the VMs listing any of the volumes. */
  function ListingAny(rows: seq<VM>, ids: set<string>): seq<VM>
    decreases |rows|
  {
    if rows == [] then []
    else
      var n := |rows| - 1;
      ListingAny(rows[..n], ids) + if ListsAny(rows[n], ids) then [rows[n]] else []
  }

  lemma {:induction false} CopiesOnlyOfListed(vm: VM, vids: seq<string>, id: string)
    ensures Copies(vm, vids, id) != [] <==> id in vids
    ensures |Copies(vm, vids, id)| == 1 ==> Copies(vm, vids, id) == [vm]
    decreases |vids|
  {
    if vids != [] {
      var n := |vids| - 1;
      CopiesOnlyOfListed(vm, vids[..n], id);
      assert vids == vids[..n] + [vids[n]];
    }
  }

  lemma {:induction false} CopiesWithoutDuplicates(vm: VM, vids: seq<string>, id: string)
    requires NoDuplicates(vids)
    ensures Copies(vm, vids, id) == if id in vids then [vm] else []
    decreases |vids|
  {
    if vids != [] {
      var n := |vids| - 1;
      LastIsElsewhereAbsent(vids);
      CopiesWithoutDuplicates(vm, vids[..n], id);
      CopiesGrow(vm, vids[..n], vids[n], id);
      hide Copies, NoDuplicates;
    }
  }

  lemma LastIsElsewhereAbsent(vids: seq<string>)
    requires NoDuplicates(vids) && vids != []
    ensures var n := |vids| - 1;
      && vids == vids[..n] + [vids[n]] && NoDuplicates(vids[..n]) && vids[n] !in vids[..n]
      && forall id :: id in vids <==> id in vids[..n] || id == vids[n]
  {
    var n := |vids| - 1;
    forall i | 0 <= i < n ensures vids[..n][i] != vids[n] { assert vids[..n][i] == vids[i]; }
  }

  lemma CopiesOfDuplicate(vm: VM, vids: seq<string>, i: nat, j: nat)
    requires i < j < |vids| && vids[i] == vids[j]
    ensures |Copies(vm, vids, vids[i])| > 1
    decreases |vids|
  {
    var n := |vids| - 1;
    if j < n {
      CopiesOfDuplicate(vm, vids[..n], i, j);
    } else {
      assert vids[..n][i] == vids[i];
      CopiesOnlyOfListed(vm, vids[..n], vids[i]);
    }
  }

  lemma CopiesGrow(vm: VM, vids: seq<string>, last: string, id: string)
    ensures last == id ==> Copies(vm, vids + [last], id) == Copies(vm, vids, id) + [vm]
    ensures last != id ==> Copies(vm, vids + [last], id) == Copies(vm, vids, id)
  {
    assert (vids + [last])[..|vids|] == vids;
    assert Copies(vm, vids, id) + [] == Copies(vm, vids, id);
  }

  lemma ListingsGrow(rows: seq<VM>, vm: VM, id: string)
    ensures Listings(rows + [vm], id) == Listings(rows, id) + Copies(vm, vm.volumeIDs, id)
  {
    assert (rows + [vm])[..|rows|] == rows;
  }

  lemma {:induction false} ListingsOfAnswer(rows: seq<VM>, ids: set<string>, id: string)
    requires id in ids
    ensures Listings(ListingAny(rows, ids), id) == Listings(rows, id)
    decreases |rows|
  {
    hide Copies;
    if rows != [] {
      var n := |rows| - 1;
      ListingsOfAnswer(rows[..n], ids, id);
      if ListsAny(rows[n], ids) {
        ListingsGrow(ListingAny(rows[..n], ids), rows[n], id);
      } else {
        CopiesOnlyOfListed(rows[n], rows[n].volumeIDs, id);
        assert ListingAny(rows, ids) == ListingAny(rows[..n], ids);
      }
    }
  }

  /** Groups the rows by every volume they list. */
  method GroupByVolume(rows: seq<VM>) returns (m: map<string, seq<VM>>)
    ensures forall id :: Slice(m, id) == Listings(rows, id)
  {
    m := map[];
    for i := 0 to |rows|
      invariant forall id :: Slice(m, id) == Listings(rows[..i], id)
    {
      hide Listings, Copies;
      ghost var before := m;
      m := AppendToGroups(m, rows[i]);
      assert rows[..i + 1] == rows[..i] + [rows[i]];
      forall id ensures Slice(m, id) == Listings(rows[..i + 1], id) {
        ListingsGrow(rows[..i], rows[i], id);
        assert Slice(before, id) == Listings(rows[..i], id);
      }
    }
    assert rows[..|rows|] == rows;
  }

  /** The group of `id` with the VM's copies appended. */
  function Extended(groups: map<string, seq<VM>>, vm: VM, vids: seq<string>, id: string): seq<VM> {
    Slice(groups, id) + Copies(vm, vids, id)
  }

  lemma ConcatAssociates<T>(a: seq<T>, b: seq<T>, c: seq<T>)
    ensures (a + b) + c == a + (b + c)
  {
  }

  lemma ExtendedGrows(groups: map<string, seq<VM>>, vm: VM, vids: seq<string>, last: string, id: string)
    ensures last == id ==> Extended(groups, vm, vids + [last], id) == Extended(groups, vm, vids, id) + [vm]
    ensures last != id ==> Extended(groups, vm, vids + [last], id) == Extended(groups, vm, vids, id)
  {
    hide Copies, Slice;
    CopiesGrow(vm, vids, last, id);
    if last == id {
      ConcatAssociates(Slice(groups, id), Copies(vm, vids, id), [vm]);
    }
  }

  lemma ExtendedByNothing(groups: map<string, seq<VM>>, vm: VM, vids: seq<string>)
    ensures forall id :: Extended(groups, vm, vids[..0], id) == Slice(groups, id)
  {
    assert vids[..0] == [];
    forall id ensures Extended(groups, vm, [], id) == Slice(groups, id) {
      assert Slice(groups, id) + [] == Slice(groups, id);
    }
  }

  /** Appending to one slice of a map. */
  lemma SliceAppended(m: map<string, seq<VM>>, vid: string, vm: VM)
    ensures var m' := m[vid := Slice(m, vid) + [vm]];
      && Slice(m', vid) == Slice(m, vid) + [vm]
      && forall id :: id != vid ==> Slice(m', id) == Slice(m, id)
  {
  }

  lemma TakeOneMore<T>(s: seq<T>, j: nat)
    requires j < |s|
    ensures s[..j + 1] == s[..j] + [s[j]]
  {
  }

  method AppendToGroups(groups: map<string, seq<VM>>, vm: VM) returns (m: map<string, seq<VM>>)
    ensures forall id :: Slice(m, id) == Extended(groups, vm, vm.volumeIDs, id)
  {
    hide Extended, Copies, Slice;
    m := groups;
    var vids := vm.volumeIDs;
    ExtendedByNothing(groups, vm, vids);
    for j := 0 to |vids|
      invariant forall id :: Slice(m, id) == Extended(groups, vm, vids[..j], id)
    {
      var vid := vids[j];
      SliceAppended(m, vid, vm);
      TakeOneMore(vids, j);
      forall id { ExtendedGrows(groups, vm, vids[..j], vid, id); }
      m := m[vid := Slice(m, vid) + [vm]];
    }
    assert vids[..|vids|] == vids;
  }

  method AssignVolumeVMs(volumes: seq<VolumeItem?>, groups: map<string, seq<VM>>)
    modifies (set k: VolumeItem | k in volumes)`vms
    ensures forall k: VolumeItem :: k in volumes ==> k.vms == Slice(groups, k.id)
  {
    for i := 0 to |volumes|
      invariant forall k: VolumeItem :: k in volumes[..i] ==> k.vms == Slice(groups, k.id)
    {
      var k := volumes[i];
      assert volumes[..i + 1] == volumes[..i] + [k];
      if k == null { continue; }
      k.vms := Slice(groups, k.id);
    }
    assert volumes[..|volumes|] == volumes;
  }

  method EnrichVolumeVMs(volumes: seq<VolumeItem?>, rows: seq<VM>, answer: Answer) returns (hard: bool)
    modifies (set v: VolumeItem | v in volumes)`vms
    ensures hard == (answer.HardFail? && Asked(VolumeIDs(volumes)))
    ensures !Asked(VolumeIDs(volumes)) || !answer.Answered? ==>
      forall v: VolumeItem :: v in volumes ==> v.vms == old(v.vms)
    ensures Asked(VolumeIDs(volumes)) && answer.Answered? ==>
      forall v: VolumeItem :: v in volumes ==>
        v.vms == if v.id != "" then Listings(rows, v.id)
                 else Listings(ListingAny(rows, set id | id in VolumeIDs(volumes) && id != ""), "")
  {
    hide Listings, ListingAny;
    var ids := CollectUnique(VolumeIDs(volumes));
    if ids == [] || !answer.Answered? {
      assert ids != [] ==> ids[0] in VolumeIDs(volumes);
      return ids != [] && answer.HardFail?;
    }
    assert ids[0] in VolumeIDs(volumes);
    var wanted := set id | id in ids;
    assert wanted == set id | id in VolumeIDs(volumes) && id != "";
    var groups := GroupByVolume(ListingAny(rows, wanted));
    forall v: VolumeItem | v in volumes && v.id != "" ensures Slice(groups, v.id) == Listings(rows, v.id) {
      var i :| 0 <= i < |volumes| && volumes[i] == v;
      assert VolumeIDs(volumes)[i] == v.id;
      ListingsOfAnswer(rows, wanted, v.id);
    }
    AssignVolumeVMs(volumes, groups);
    hard := false;
  }

  /** The grouping is the filter for every volume exactly when no VM lists a volume twice. */
  lemma {:induction false} ListingsAreExact(rows: seq<VM>)
    ensures (forall id :: Listings(rows, id) == Listing(rows, id))
      <==> forall i :: 0 <= i < |rows| ==> NoDuplicates(rows[i].volumeIDs)
  {
    hide Listings, Listing, Copies;
    if forall i :: 0 <= i < |rows| ==> NoDuplicates(rows[i].volumeIDs) {
      forall id ensures Listings(rows, id) == Listing(rows, id) { ListingsWithoutDuplicates(rows, id); }
    } else {
      var k :| 0 <= k < |rows| && !NoDuplicates(rows[k].volumeIDs);
      var vids := rows[k].volumeIDs;
      var i, j :| 0 <= i < j < |vids| && vids[i] == vids[j];
      CopiesOfDuplicate(rows[k], vids, i, j);
      ListingsLonger(rows, vids[i], k);
    }
  }

  lemma {:induction false} ListingsWithoutDuplicates(rows: seq<VM>, id: string)
    requires forall i :: 0 <= i < |rows| ==> NoDuplicates(rows[i].volumeIDs)
    ensures Listings(rows, id) == Listing(rows, id)
    decreases |rows|
  {
    if rows != [] {
      var n := |rows| - 1;
      ListingsWithoutDuplicates(rows[..n], id);
      CopiesWithoutDuplicates(rows[n], rows[n].volumeIDs, id);
    }
  }

  lemma {:induction false} ListingsLonger(rows: seq<VM>, id: string, i: nat)
    requires i < |rows| && |Copies(rows[i], rows[i].volumeIDs, id)| > 1
    ensures |Listings(rows, id)| > |Listing(rows, id)|
    decreases |rows|
  {
    var n := |rows| - 1;
    CopiesOnlyOfListed(rows[n], rows[n].volumeIDs, id);
    if i < n { ListingsLonger(rows[..n], id, i); } else { ListingsNotShorter(rows[..n], id); }
  }

  lemma {:induction false} ListingsNotShorter(rows: seq<VM>, id: string)
    ensures |Listings(rows, id)| >= |Listing(rows, id)|
    decreases |rows|
  {
    if rows != [] {
      var n := |rows| - 1;
      CopiesOnlyOfListed(rows[n], rows[n].volumeIDs, id);
      ListingsNotShorter(rows[..n], id);
    }
  }
}
