/**
 VM enrichment as the program does it: keys are collected once each, looked up in a batch, put in
 a map and written back into the heap objects of the caller's list. The list may hold one VM
 twice, and several VMs may share one network object.
 */
module Enricher {
  import opened Options
  import opened Strings
  import opened Tables
  import opened Relations
  import opened RelationLaws
  import opened Includes

  class VM {
    var id: string
    var kernelID: string
    var imageID: string
    var binaryID: string
    var networkID: string
    var volumeIDs: seq<string>

    var kernel: Option<Kernel>
    var image: Option<Image>
    var binary: Option<Binary>
    var network: Option<Network>
    var volumes: seq<Volume>
    var vsock: Option<Vsock>

    constructor (k: Keys)
      ensures KeysOf(this) == k
      ensures RelationOf(this) == Relation(None, None, None, None, [], None)
    {
      id, kernelID, imageID, binaryID, networkID, volumeIDs :=
        k.id, k.kernelID, k.imageID, k.binaryID, k.networkID, k.volumeIDs;
      kernel, image, binary, network, volumes, vsock := None, None, None, None, [], None;
    }
  }

  ghost function KeysOf(v: VM): Keys
    reads v
  {
    Keys(v.id, v.kernelID, v.imageID, v.binaryID, v.networkID, v.volumeIDs)
  }

  ghost function RelationOf(v: VM): Relation
    reads v
  {
    Relation(v.kernel, v.image, v.binary, v.network, v.volumes, v.vsock)
  }

  ghost function AllKeys(vms: seq<VM>): (r: seq<Keys>)
    reads vms
    ensures |r| == |vms|
  {
    seq(|vms|, i requires 0 <= i < |vms| reads vms => KeysOf(vms[i]))
  }

  ghost function AllRelations(vms: seq<VM>): (r: seq<Relation>)
    reads vms
    ensures |r| == |vms|
  {
    seq(|vms|, i requires 0 <= i < |vms| reads vms => RelationOf(vms[i]))
  }

  /** The abstract value of the heap: the listed VMs and the leases of the networks in play. */
  ghost function Heap(vms: seq<VM>, nets: set<Network>): (s: State)
    reads vms, nets`leases
    ensures |s.vms| == |vms|
  {
    State(AllRelations(vms), map n | n in nets :: n.leases)
  }

  /** `nets` holds every network a listed VM has or can be given. */
  ghost predicate Covers(repos: Repos, vms: seq<VM>, nets: set<Network>)
    reads vms`network
  {
    && (forall v :: v in vms && v.network.Some? ==> v.network.value in nets)
    && (forall id :: id in repos.networks && repos.networks[id].Found? ==> repos.networks[id].row in nets)
  }

  lemma FoundIsCovered(repos: Repos, vms: seq<VM>, nets: set<Network>, id: string)
    requires Covers(repos, vms, nets)
    ensures Row(repos.networks, id).Some? ==> Row(repos.networks, id).value in nets
  {
  }

  /** Looks up every collected key; a soft failure or a missing row just leaves the key out. */
  method LookupAll<T>(table: map<string, Lookup<T>>, fks: seq<string>) returns (found: map<string, T>, hard: bool)
    ensures hard <==> LookupFails(table, fks)
    ensures !hard ==> forall id :: id != "" && id in fks ==> Entry(found, id) == Row(table, id)
  {
    var ids := CollectUnique(fks);
    found, hard := map[], false;
    for i := 0 to |ids|
      invariant forall id :: id in ids[..i] ==> Entry(found, id) == Row(table, id)
      invariant forall id :: id in found ==> id in ids[..i]
      invariant forall id :: id in ids[..i] ==> !Get(table, id).HardFail?
    {
      var id := ids[i];
      assert ids[..i + 1] == ids[..i] + [id];
      assert id in fks && id != "";
      match Get(table, id)
      case Found(row) => found := found[id := row];
      case Missing =>
      case SoftFail =>
      case HardFail =>
        hard := true;
        return;
    }
    assert ids[..|ids|] == ids;
  }

  // --- one relation's writes, as a step of the abstract state ---

  /** From `before` to `after`, relation `p` ran: joined, or failed hard and nothing written. */
  ghost predicate Stepped(r: Repos, keys: seq<Keys>, before: State, after: State, p: Path, hard: bool)
    requires |before.vms| == |keys|
  {
    && hard == HardFails(r, keys, before, p)
    && after == if hard then before else Enriched(r, keys, before, {p})
  }

  lemma KernelWritten(r: Repos, keys: seq<Keys>, before: State, after: State, hard: bool)
    requires |before.vms| == |after.vms| == |keys| && after.leases == before.leases
    requires hard == LookupFails(r.kernels, KernelIDs(keys))
    requires forall i :: 0 <= i < |keys| ==>
      after.vms[i] == if hard then before.vms[i]
        else before.vms[i].(kernel := Joined(r.kernels, keys[i].kernelID, before.vms[i].kernel))
    ensures Stepped(r, keys, before, after, KernelPath, hard)
  {
    hide LookupFails, KernelIDs, Joined;
    assert after.vms == if hard then before.vms else EnrichedVMs(r, keys, before.vms, {KernelPath});
  }

  lemma ImageWritten(r: Repos, keys: seq<Keys>, before: State, after: State, hard: bool)
    requires |before.vms| == |after.vms| == |keys| && after.leases == before.leases
    requires hard == LookupFails(r.images, ImageIDs(keys))
    requires forall i :: 0 <= i < |keys| ==>
      after.vms[i] == if hard then before.vms[i]
        else before.vms[i].(image := Joined(r.images, keys[i].imageID, before.vms[i].image))
    ensures Stepped(r, keys, before, after, ImagePath, hard)
  {
    hide LookupFails, ImageIDs, Joined;
    assert after.vms == if hard then before.vms else EnrichedVMs(r, keys, before.vms, {ImagePath});
  }

  lemma BinaryWritten(r: Repos, keys: seq<Keys>, before: State, after: State, hard: bool)
    requires |before.vms| == |after.vms| == |keys| && after.leases == before.leases
    requires hard == LookupFails(r.binaries, BinaryIDs(keys))
    requires forall i :: 0 <= i < |keys| ==>
      after.vms[i] == if hard then before.vms[i]
        else before.vms[i].(binary := Joined(r.binaries, keys[i].binaryID, before.vms[i].binary))
    ensures Stepped(r, keys, before, after, BinaryPath, hard)
  {
    hide LookupFails, BinaryIDs, Joined;
    assert after.vms == if hard then before.vms else EnrichedVMs(r, keys, before.vms, {BinaryPath});
  }

  lemma NetworkWritten(r: Repos, keys: seq<Keys>, before: State, after: State, hard: bool)
    requires |before.vms| == |after.vms| == |keys| && after.leases == before.leases
    requires hard == LookupFails(r.networks, NetworkIDs(keys))
    requires forall i :: 0 <= i < |keys| ==>
      after.vms[i] == if hard then before.vms[i]
        else before.vms[i].(network := Joined(r.networks, keys[i].networkID, before.vms[i].network))
    ensures Stepped(r, keys, before, after, NetworkPath, hard)
  {
    hide LookupFails, NetworkIDs, Joined;
    assert after.vms == if hard then before.vms else EnrichedVMs(r, keys, before.vms, {NetworkPath});
  }

  lemma LeasesWritten(r: Repos, keys: seq<Keys>, before: State, after: State, hard: bool)
    requires |before.vms| == |after.vms| == |keys| && after.vms == before.vms
    requires hard == (r.leases.BatchHardFail? && HasNamedParent(before.vms))
    requires after.leases == if hard then before.leases else JoinedLeases(r, before.vms, before.leases)
    ensures Stepped(r, keys, before, after, LeasesPath, hard)
  {
    hide JoinedLeases;
    assert EnrichedVMs(r, keys, before.vms, {LeasesPath}) == before.vms;
  }

  lemma VolumesWritten(r: Repos, keys: seq<Keys>, before: State, after: State, hard: bool)
    requires |before.vms| == |after.vms| == |keys| && after.leases == before.leases
    requires hard == (r.volumes.BatchHardFail? && exists i :: 0 <= i < |keys| && keys[i].volumeIDs != [])
    requires forall i :: 0 <= i < |keys| ==>
      after.vms[i] == before.vms[i].(volumes := JoinedVolumes(r, keys, i, before.vms[i].volumes))
    ensures Stepped(r, keys, before, after, VolumesPath, hard)
  {
    hide LookupEach, BatchedIDs;
    assert after.vms == if hard then before.vms else EnrichedVMs(r, keys, before.vms, {VolumesPath});
  }

  lemma VsockWritten(r: Repos, keys: seq<Keys>, before: State, after: State, hard: bool)
    requires |before.vms| == |after.vms| == |keys| && after.leases == before.leases
    requires hard == (r.vsocks.BatchHardFail? && exists i :: 0 <= i < |keys| && keys[i].id != "")
    requires forall i :: 0 <= i < |keys| ==>
      after.vms[i] == before.vms[i].(vsock := JoinedVsock(r, keys[i].id, before.vms[i].vsock))
    ensures Stepped(r, keys, before, after, VsockPath, hard)
  {
    hide LastWhere;
    assert after.vms == if hard then before.vms else EnrichedVMs(r, keys, before.vms, {VsockPath});
  }

  datatype Verdict = Fine | BadInclude(why: Resolution) | HardError

  class Enricher {
    const repos: Repos

    constructor (repos: Repos)
      ensures this.repos == repos
    {
      this.repos := repos;
    }

    static method AssignKernels(vms: seq<VM>, kernels: map<string, Kernel>)
      modifies vms`kernel
      ensures forall v :: v in vms ==> v.kernel == if v.kernelID == "" then old(v.kernel) else Entry(kernels, v.kernelID)
    {
      for i := 0 to |vms|
        invariant forall v :: v in vms ==>
          v.kernel == if v in vms[..i] && v.kernelID != "" then Entry(kernels, v.kernelID) else old(v.kernel)
      {
        var vm := vms[i];
        assert vms[..i + 1] == vms[..i] + [vm];
        if vm.kernelID != "" {
          vm.kernel := Entry(kernels, vm.kernelID);
        }
      }
      assert vms[..|vms|] == vms;
    }

    method FillKernels(vms: seq<VM>) returns (hard: bool)
      modifies vms`kernel
      ensures hard == LookupFails(repos.kernels, KernelIDs(old(AllKeys(vms))))
      ensures forall v :: v in vms ==>
        v.kernel == if hard || v.kernelID == "" then old(v.kernel) else Row(repos.kernels, v.kernelID)
    {
      hide LookupFails, Row;
      var fks := seq(|vms|, i requires 0 <= i < |vms| reads vms => vms[i].kernelID);
      assert fks == KernelIDs(AllKeys(vms));
      assert forall v :: v in vms ==> v.kernelID in fks by {
        forall v | v in vms ensures v.kernelID in fks {
          var i :| 0 <= i < |vms| && vms[i] == v;
          assert fks[i] == v.kernelID;
        }
      }
      var kernels;
      kernels, hard := LookupAll(repos.kernels, fks);
      if !hard {
        AssignKernels(vms, kernels);
      }
    }

    method EnrichKernel(vms: seq<VM>, ghost nets: set<Network>) returns (hard: bool)
      requires Covers(repos, vms, nets)
      modifies vms`kernel
      ensures AllKeys(vms) == old(AllKeys(vms)) && Covers(repos, vms, nets)
      ensures Stepped(repos, AllKeys(vms), old(Heap(vms, nets)), Heap(vms, nets), KernelPath, hard)
    {
      hide LookupFails, Row, Enriched, HardFails, Stepped, Covers;
      ghost var keys := AllKeys(vms);
      hard := FillKernels(vms);
      assert AllKeys(vms) == keys;
      assert Covers(repos, vms, nets);
      KernelWritten(repos, AllKeys(vms), old(Heap(vms, nets)), Heap(vms, nets), hard);
    }

    static method AssignImages(vms: seq<VM>, images: map<string, Image>)
      modifies vms`image
      ensures forall v :: v in vms ==> v.image == if v.imageID == "" then old(v.image) else Entry(images, v.imageID)
    {
      for i := 0 to |vms|
        invariant forall v :: v in vms ==>
          v.image == if v in vms[..i] && v.imageID != "" then Entry(images, v.imageID) else old(v.image)
      {
        var vm := vms[i];
        assert vms[..i + 1] == vms[..i] + [vm];
        if vm.imageID != "" {
          vm.image := Entry(images, vm.imageID);
        }
      }
      assert vms[..|vms|] == vms;
    }

    method FillImages(vms: seq<VM>) returns (hard: bool)
      modifies vms`image
      ensures hard == LookupFails(repos.images, ImageIDs(old(AllKeys(vms))))
      ensures forall v :: v in vms ==>
        v.image == if hard || v.imageID == "" then old(v.image) else Row(repos.images, v.imageID)
    {
      hide LookupFails, Row;
      var fks := seq(|vms|, i requires 0 <= i < |vms| reads vms => vms[i].imageID);
      assert fks == ImageIDs(AllKeys(vms));
      assert forall v :: v in vms ==> v.imageID in fks by {
        forall v | v in vms ensures v.imageID in fks {
          var i :| 0 <= i < |vms| && vms[i] == v;
          assert fks[i] == v.imageID;
        }
      }
      var images;
      images, hard := LookupAll(repos.images, fks);
      if !hard {
        AssignImages(vms, images);
      }
    }

    method EnrichImage(vms: seq<VM>, ghost nets: set<Network>) returns (hard: bool)
      requires Covers(repos, vms, nets)
      modifies vms`image
      ensures AllKeys(vms) == old(AllKeys(vms)) && Covers(repos, vms, nets)
      ensures Stepped(repos, AllKeys(vms), old(Heap(vms, nets)), Heap(vms, nets), ImagePath, hard)
    {
      hide LookupFails, Row, Enriched, HardFails, Stepped, Covers;
      ghost var keys := AllKeys(vms);
      hard := FillImages(vms);
      assert AllKeys(vms) == keys;
      assert Covers(repos, vms, nets);
      ImageWritten(repos, AllKeys(vms), old(Heap(vms, nets)), Heap(vms, nets), hard);
    }

    static method AssignBinaries(vms: seq<VM>, binaries: map<string, Binary>)
      modifies vms`binary
      ensures forall v :: v in vms ==> v.binary == if v.binaryID == "" then old(v.binary) else Entry(binaries, v.binaryID)
    {
      for i := 0 to |vms|
        invariant forall v :: v in vms ==>
          v.binary == if v in vms[..i] && v.binaryID != "" then Entry(binaries, v.binaryID) else old(v.binary)
      {
        var vm := vms[i];
        assert vms[..i + 1] == vms[..i] + [vm];
        if vm.binaryID != "" {
          vm.binary := Entry(binaries, vm.binaryID);
        }
      }
      assert vms[..|vms|] == vms;
    }

    method FillBinaries(vms: seq<VM>) returns (hard: bool)
      modifies vms`binary
      ensures hard == LookupFails(repos.binaries, BinaryIDs(old(AllKeys(vms))))
      ensures forall v :: v in vms ==>
        v.binary == if hard || v.binaryID == "" then old(v.binary) else Row(repos.binaries, v.binaryID)
    {
      hide LookupFails, Row;
      var fks := seq(|vms|, i requires 0 <= i < |vms| reads vms => vms[i].binaryID);
      assert fks == BinaryIDs(AllKeys(vms));
      assert forall v :: v in vms ==> v.binaryID in fks by {
        forall v | v in vms ensures v.binaryID in fks {
          var i :| 0 <= i < |vms| && vms[i] == v;
          assert fks[i] == v.binaryID;
        }
      }
      var binaries;
      binaries, hard := LookupAll(repos.binaries, fks);
      if !hard {
        AssignBinaries(vms, binaries);
      }
    }

    method EnrichBinary(vms: seq<VM>, ghost nets: set<Network>) returns (hard: bool)
      requires Covers(repos, vms, nets)
      modifies vms`binary
      ensures AllKeys(vms) == old(AllKeys(vms)) && Covers(repos, vms, nets)
      ensures Stepped(repos, AllKeys(vms), old(Heap(vms, nets)), Heap(vms, nets), BinaryPath, hard)
    {
      hide LookupFails, Row, Enriched, HardFails, Stepped, Covers;
      ghost var keys := AllKeys(vms);
      hard := FillBinaries(vms);
      assert AllKeys(vms) == keys;
      assert Covers(repos, vms, nets);
      BinaryWritten(repos, AllKeys(vms), old(Heap(vms, nets)), Heap(vms, nets), hard);
    }

    static method AssignNetworks(vms: seq<VM>, networks: map<string, Network>)
      modifies vms`network
      ensures forall v :: v in vms ==> v.network == if v.networkID == "" then old(v.network) else Entry(networks, v.networkID)
    {
      for i := 0 to |vms|
        invariant forall v :: v in vms ==>
          v.network == if v in vms[..i] && v.networkID != "" then Entry(networks, v.networkID) else old(v.network)
      {
        var vm := vms[i];
        assert vms[..i + 1] == vms[..i] + [vm];
        if vm.networkID != "" {
          vm.network := Entry(networks, vm.networkID);
        }
      }
      assert vms[..|vms|] == vms;
    }

    method FillNetworks(vms: seq<VM>) returns (hard: bool)
      modifies vms`network
      ensures hard == LookupFails(repos.networks, NetworkIDs(old(AllKeys(vms))))
      ensures forall v :: v in vms ==>
        v.network == if hard || v.networkID == "" then old(v.network) else Row(repos.networks, v.networkID)
    {
      hide LookupFails, Row;
      var fks := seq(|vms|, i requires 0 <= i < |vms| reads vms => vms[i].networkID);
      assert fks == NetworkIDs(AllKeys(vms));
      assert forall v :: v in vms ==> v.networkID in fks by {
        forall v | v in vms ensures v.networkID in fks {
          var i :| 0 <= i < |vms| && vms[i] == v;
          assert fks[i] == v.networkID;
        }
      }
      var networks;
      networks, hard := LookupAll(repos.networks, fks);
      if !hard {
        AssignNetworks(vms, networks);
      }
    }

    method EnrichNetwork(vms: seq<VM>, ghost nets: set<Network>) returns (hard: bool)
      requires Covers(repos, vms, nets)
      modifies vms`network
      ensures AllKeys(vms) == old(AllKeys(vms)) && Covers(repos, vms, nets)
      ensures Stepped(repos, AllKeys(vms), old(Heap(vms, nets)), Heap(vms, nets), NetworkPath, hard)
    {
      hide LookupFails, Row, Enriched, HardFails, Stepped;
      ghost var keys := AllKeys(vms);
      forall v | v in vms { FoundIsCovered(repos, vms, nets, v.networkID); }
      hard := FillNetworks(vms);
      assert AllKeys(vms) == keys;
      NetworkWritten(repos, AllKeys(vms), old(Heap(vms, nets)), Heap(vms, nets), hard);
    }

    /** The ids of the networks the VMs have. */
    method ParentIDs(vms: seq<VM>) returns (ids: set<string>)
      ensures forall v :: v in vms && v.network.Some? && v.network.value.id != "" ==> v.network.value.id in ids
      ensures "" !in ids
      ensures ids != {} <==> HasNamedParent(AllRelations(vms))
    {
      ids := {};
      ghost var linked := AllRelations(vms);
      for i := 0 to |vms|
        invariant forall v :: v in vms[..i] && v.network.Some? && v.network.value.id != "" ==> v.network.value.id in ids
        invariant "" !in ids
        invariant ids != {} <==> exists j :: 0 <= j < i && NamedParentAt(linked, j)
      {
        assert vms[..i + 1] == vms[..i] + [vms[i]];
        assert linked[i].network == vms[i].network;
        if vms[i].network.Some? && vms[i].network.value.id != "" {
          ids := ids + {vms[i].network.value.id};
          assert NamedParentAt(linked, i);
        }
      }
      assert vms[..|vms|] == vms;
    }

    /** Writes each VM's network's leases: through whichever VM, and however often, it is the same. */
    method AssignLeases(vms: seq<VM>, leasesMap: map<string, seq<Lease>>, ghost nets: set<Network>)
      requires Covers(repos, vms, nets)
      modifies nets`leases
      ensures forall n :: n in nets ==>
        n.leases == if IsParent(AllRelations(vms), n) then Slice(leasesMap, n.id) else old(n.leases)
    {
      ghost var linked := AllRelations(vms);
      for i := 0 to |vms|
        invariant forall n :: n in nets ==>
          n.leases == if IsParent(linked[..i], n) then Slice(leasesMap, n.id) else old(n.leases)
      {
        ParentsGrow(linked, i);
        if vms[i].network.Some? {
          var parent := vms[i].network.value;
          parent.leases := Slice(leasesMap, parent.id);
        }
      }
      assert linked[..|vms|] == linked;
    }

    method EnrichNetworkLeases(vms: seq<VM>, ghost nets: set<Network>) returns (hard: bool)
      requires Covers(repos, vms, nets)
      modifies nets`leases
      ensures AllKeys(vms) == old(AllKeys(vms)) && Covers(repos, vms, nets)
      ensures Stepped(repos, AllKeys(vms), old(Heap(vms, nets)), Heap(vms, nets), LeasesPath, hard)
    {
      hard := FillLeases(vms, nets);
      LeasesWritten(repos, AllKeys(vms), old(Heap(vms, nets)), Heap(vms, nets), hard);
    }

    method FillLeases(vms: seq<VM>, ghost nets: set<Network>) returns (hard: bool)
      requires Covers(repos, vms, nets)
      modifies nets`leases
      ensures hard <==> repos.leases.BatchHardFail? && HasNamedParent(AllRelations(vms))
      ensures hard ==> forall n :: n in nets ==> n.leases == old(n.leases)
      ensures !hard ==> Heap(vms, nets).leases == JoinedLeases(repos, AllRelations(vms), old(Heap(vms, nets)).leases)
    {
      var netIDs := ParentIDs(vms);
      if netIDs == {} { return false; }
      if !repos.leases.Rows? { return repos.leases.BatchHardFail?; }
      var leasesMap := Group(Selected(repos.leases.rows, LeaseKey, netIDs), LeaseKey);
      forall n | IsParent(AllRelations(vms), n)
        ensures Slice(leasesMap, n.id) == LeasesOf(repos.leases.rows, n.id)
      {
        var i :| 0 <= i < |vms| && AllRelations(vms)[i].network == Some(n);
        assert vms[i].network == Some(n);
        WhereSelected(repos.leases.rows, LeaseKey, netIDs, n.id);
      }
      AssignLeases(vms, leasesMap, nets);
      hard := false;
    }

    /** Resolves the joined id lists: one query for all ids together, then each list from the index. */
    method ResolveByVMVolumeIDs(volKeys: seq<string>) returns (r: Batch<map<string, seq<Volume>>>)
      requires volKeys != []
      ensures r.BatchSoftFail? <==> repos.volumes.BatchSoftFail?
      ensures r.BatchHardFail? <==> repos.volumes.BatchHardFail?
      ensures r.Rows? ==> |r.rows| == 1
      ensures r.Rows? ==> forall key :: key in volKeys ==>
        Slice(r.rows[0], key) == LookupEach(repos.volumes.rows, Split(key, NUL))
    {
      var wanted: set<string> := {};
      for i := 0 to |volKeys|
        invariant forall key, id :: key in volKeys[..i] && id in Split(key, NUL) ==> id in wanted
      {
        var ids := Split(volKeys[i], NUL);
        assert volKeys[..i + 1] == volKeys[..i] + [volKeys[i]];
        wanted := wanted + set id | id in ids;
      }
      assert volKeys[..|volKeys|] == volKeys;
      match repos.volumes
      case BatchSoftFail => return BatchSoftFail;
      case BatchHardFail => return BatchHardFail;
      case Rows(table) =>
        var byID := Index(Selected(table, VolumeKey, wanted), VolumeKey);
        forall id | id in wanted ensures Entry(byID, id) == LastWhere(table, VolumeKey, id) {
          LastWhereSelected(table, VolumeKey, wanted, id);
        }
        var results: map<string, seq<Volume>> := map[];
        for i := 0 to |volKeys|
          invariant forall key :: key in volKeys[..i] ==> Slice(results, key) == LookupEach(table, Split(key, NUL))
        {
          assert volKeys[..i + 1] == volKeys[..i] + [volKeys[i]];
          var matched := MatchEach(byID, table, Split(volKeys[i], NUL));
          results := results[volKeys[i] := matched];
        }
        assert volKeys[..|volKeys|] == volKeys;
        return Rows([results]);
    }

    static method MatchEach(byID: map<string, Volume>, ghost table: seq<Volume>, ids: seq<string>) returns (matched: seq<Volume>)
      requires forall id :: id in ids ==> Entry(byID, id) == LastWhere(table, VolumeKey, id)
      ensures matched == LookupEach(table, ids)
    {
      matched := [];
      for i := 0 to |ids|
        invariant matched == LookupEach(table, ids[..i])
      {
        assert ids[..i + 1][..i] == ids[..i] && ids[..i + 1][i] == ids[i] && ids[i] in ids;
        if ids[i] in byID {
          matched := matched + [byID[ids[i]]];
        }
      }
      assert ids[..|ids|] == ids;
    }

    /** The joined volume list of every VM that lists any, once each. */
    static method VolumeKeys(vms: seq<VM>) returns (volKeys: seq<string>)
      ensures forall v :: v in vms && v.volumeIDs != [] ==> Join(v.volumeIDs, [NUL]) in volKeys
      ensures volKeys == [] <==> forall v :: v in vms ==> v.volumeIDs == []
      ensures NoDuplicates(volKeys)
    {
      volKeys := [];
      var seen: set<string> := {};
      for i := 0 to |vms|
        invariant forall key :: key in seen <==> key in volKeys
        invariant forall v :: v in vms[..i] && v.volumeIDs != [] ==> Join(v.volumeIDs, [NUL]) in seen
        invariant volKeys == [] <==> forall v :: v in vms[..i] ==> v.volumeIDs == []
        invariant NoDuplicates(volKeys)
      {
        assert vms[..i + 1] == vms[..i] + [vms[i]];
        if vms[i].volumeIDs != [] {
          var key := Join(vms[i].volumeIDs, [NUL]);
          if key !in seen {
            seen := seen + {key};
            volKeys := volKeys + [key];
          }
        }
      }
      assert vms[..|vms|] == vms;
    }

    /** Which list each VM id stands for: a later VM with the same id replaces an earlier one. */
    static method KeyByVM(vms: seq<VM>, ghost volKeys: seq<string>) returns (m: map<string, string>)
      requires forall v :: v in vms && v.volumeIDs != [] ==> Join(v.volumeIDs, [NUL]) in volKeys
      ensures forall v :: v in vms && v.volumeIDs != [] ==>
        v.id in m && m[v.id] == RecordedKey(AllKeys(vms), v.id) && m[v.id] in volKeys
    {
      m := map[];
      ghost var keys := AllKeys(vms);
      assert forall i :: 0 <= i < |vms| ==> keys[i] == KeysOf(vms[i]);
      for i := 0 to |vms|
        invariant forall id :: id in m ==> m[id] == RecordedKey(keys[..i], id) && m[id] in volKeys
        invariant forall id :: id !in m ==> RecordedKey(keys[..i], id) == ""
        invariant forall v :: v in vms[..i] && v.volumeIDs != [] ==> v.id in m
      {
        hide Join, RecordedKey, AllKeys;
        assert vms[..i + 1] == vms[..i] + [vms[i]];
        ghost var before := m;
        if vms[i].volumeIDs != [] {
          m := m[vms[i].id := Join(vms[i].volumeIDs, [NUL])];
        }
        forall id
          ensures id in m ==> m[id] == RecordedKey(keys[..i + 1], id)
          ensures id !in m ==> RecordedKey(keys[..i + 1], id) == ""
        {
          RecordedKeyGrows(keys, i, id);
          assert keys[i].volumeIDs == vms[i].volumeIDs && keys[i].id == vms[i].id;
          assert id in before ==> before[id] == RecordedKey(keys[..i], id);
        }
      }
      assert vms[..|vms|] == vms && keys[..|vms|] == keys;
    }

    static method AssignVolumes(vms: seq<VM>, vmToKey: map<string, string>, results: map<string, seq<Volume>>)
      requires forall v :: v in vms && v.volumeIDs != [] ==> v.id in vmToKey
      modifies vms`volumes
      ensures forall v :: v in vms ==>
        v.volumes == if v.volumeIDs == [] then old(v.volumes) else Slice(results, vmToKey[v.id])
    {
      for i := 0 to |vms|
        invariant forall v :: v in vms ==>
          v.volumes == if v in vms[..i] && v.volumeIDs != [] then Slice(results, vmToKey[v.id]) else old(v.volumes)
      {
        var vm := vms[i];
        assert vms[..i + 1] == vms[..i] + [vm];
        if vm.volumeIDs != [] {
          vm.volumes := Slice(results, vmToKey[vm.id]);
        }
      }
      assert vms[..|vms|] == vms;
    }

    method EnrichVolumes(vms: seq<VM>, ghost nets: set<Network>) returns (hard: bool)
      requires Covers(repos, vms, nets)
      modifies vms`volumes
      ensures AllKeys(vms) == old(AllKeys(vms)) && Covers(repos, vms, nets)
      ensures Stepped(repos, AllKeys(vms), old(Heap(vms, nets)), Heap(vms, nets), VolumesPath, hard)
    {
      hide LookupEach, RecordedKey, Split, Enriched, HardFails, Stepped;
      ghost var keys := AllKeys(vms);
      hard := FillVolumes(vms);
      assert AllKeys(vms) == keys && forall i :: 0 <= i < |vms| ==> keys[i].volumeIDs == vms[i].volumeIDs;
      forall i | 0 <= i < |vms|
        ensures Heap(vms, nets).vms[i] == old(Heap(vms, nets)).vms[i].(
          volumes := JoinedVolumes(repos, keys, i, old(Heap(vms, nets)).vms[i].volumes))
      {
        assert vms[i] in vms;
      }
      VolumesWritten(repos, AllKeys(vms), old(Heap(vms, nets)), Heap(vms, nets), hard);
    }

    method FillVolumes(vms: seq<VM>) returns (hard: bool)
      modifies vms`volumes
      ensures hard == (repos.volumes.BatchHardFail? && exists i :: 0 <= i < |vms| && vms[i].volumeIDs != [])
      ensures forall v :: v in vms ==>
        v.volumes == if v.volumeIDs == [] || !repos.volumes.Rows? then old(v.volumes)
                     else LookupEach(repos.volumes.rows, Split(RecordedKey(old(AllKeys(vms)), v.id), NUL))
    {
      hide LookupEach, RecordedKey, Join, Split;
      var volKeys := VolumeKeys(vms);
      if volKeys == [] { return false; }
      var results := ResolveByVMVolumeIDs(volKeys);
      if !results.Rows? { return results.BatchHardFail?; }
      var vmToKey := KeyByVM(vms, volKeys);
      AssignVolumes(vms, vmToKey, results.rows[0]);
      hard := false;
    }

    static method AssignVsocks(vms: seq<VM>, configs: map<string, Vsock>)
      modifies vms`vsock
      ensures forall v :: v in vms ==> v.vsock == if v.id in configs then Some(configs[v.id]) else old(v.vsock)
    {
      for i := 0 to |vms|
        invariant forall v :: v in vms ==>
          v.vsock == if v in vms[..i] && v.id in configs then Some(configs[v.id]) else old(v.vsock)
      {
        var vm := vms[i];
        assert vms[..i + 1] == vms[..i] + [vm];
        if vm.id in configs {
          vm.vsock := Some(configs[vm.id]);
        }
      }
      assert vms[..|vms|] == vms;
    }

    static method CollectIDs(vms: seq<VM>) returns (ids: seq<string>)
      ensures forall id :: id in ids <==> id != "" && exists v :: v in vms && v.id == id
    {
      var all := seq(|vms|, i requires 0 <= i < |vms| reads vms => vms[i].id);
      ids := CollectUnique(all);
      forall id ensures id in all <==> exists v :: v in vms && v.id == id {
        if id in all {
          var i :| 0 <= i < |all| && all[i] == id;
          assert vms[i].id == id;
        }
        if v :| v in vms && v.id == id {
          var i :| 0 <= i < |vms| && vms[i] == v;
          assert all[i] == id;
        }
      }
    }

    method EnrichVsock(vms: seq<VM>, ghost nets: set<Network>) returns (hard: bool)
      requires Covers(repos, vms, nets)
      modifies vms`vsock
      ensures AllKeys(vms) == old(AllKeys(vms)) && Covers(repos, vms, nets)
      ensures Stepped(repos, AllKeys(vms), old(Heap(vms, nets)), Heap(vms, nets), VsockPath, hard)
    {
      hide JoinedVsock, Enriched, HardFails, Stepped;
      ghost var keys := AllKeys(vms);
      hard := FillVsocks(vms);
      assert AllKeys(vms) == keys && forall i :: 0 <= i < |vms| ==> keys[i].id == vms[i].id;
      VsockWritten(repos, AllKeys(vms), old(Heap(vms, nets)), Heap(vms, nets), hard);
    }

    method FillVsocks(vms: seq<VM>) returns (hard: bool)
      modifies vms`vsock
      ensures hard == (repos.vsocks.BatchHardFail? && exists i :: 0 <= i < |vms| && vms[i].id != "")
      ensures forall v :: v in vms ==> v.vsock == JoinedVsock(repos, v.id, old(v.vsock))
    {
      hide Where, Selected, LastWhere;
      var ids := CollectIDs(vms);
      if ids == [] {
        assert forall v :: v in vms ==> v.id == "" by {
          forall v | v in vms ensures v.id == "" { assert v.id !in ids; }
        }
        return false;
      }
      assert exists i :: 0 <= i < |vms| && vms[i].id != "" by {
        assert ids[0] in ids;
      }
      if !repos.vsocks.Rows? { return repos.vsocks.BatchHardFail?; }
      var wanted := set id | id in ids;
      var configs := Index(Selected(repos.vsocks.rows, VsockKey, wanted), VsockKey);
      forall v | v in vms
        ensures Entry(configs, v.id) == if v.id != "" then LastWhere(repos.vsocks.rows, VsockKey, v.id) else None
      {
        LastWhereSelected(repos.vsocks.rows, VsockKey, wanted, v.id);
      }
      AssignVsocks(vms, configs);
      hard := false;
    }

    /** One relation: the heap afterwards is the join for this relation, or it failed hard and is unchanged. */
    method EnrichPath(vms: seq<VM>, ghost nets: set<Network>, p: Path) returns (hard: bool)
      requires Covers(repos, vms, nets)
      modifies vms`kernel, vms`image, vms`binary, vms`network, vms`volumes, vms`vsock, nets`leases
      ensures AllKeys(vms) == old(AllKeys(vms)) && Covers(repos, vms, nets)
      ensures Stepped(repos, AllKeys(vms), old(Heap(vms, nets)), Heap(vms, nets), p, hard)
    {
      match p
      case KernelPath => hard := EnrichKernel(vms, nets);
      case ImagePath => hard := EnrichImage(vms, nets);
      case BinaryPath => hard := EnrichBinary(vms, nets);
      case NetworkPath => hard := EnrichNetwork(vms, nets);
      case LeasesPath => hard := EnrichNetworkLeases(vms, nets);
      case VolumesPath => hard := EnrichVolumes(vms, nets);
      case VsockPath => hard := EnrichVsock(vms, nets);
    }

    /** The relations one after the other, as the program runs them. */
    method EnrichFromPaths(vms: seq<VM>, ghost nets: set<Network>, paths: seq<string>) returns (hard: bool)
      requires Covers(repos, vms, nets)
      modifies vms`kernel, vms`image, vms`binary, vms`network, vms`volumes, vms`vsock, nets`leases
      ensures AllKeys(vms) == old(AllKeys(vms))
      ensures Run(repos, AllKeys(vms), old(Heap(vms, nets)), PathsOf(paths))
           == if hard then Failed(Heap(vms, nets)) else Done(Heap(vms, nets))
    {
      hide Enriched, HardFails, AllKeys, Heap, Covers, PathOf;
      ghost var ps, keys, start := PathsOf(paths), AllKeys(vms), Heap(vms, nets);
      for i := 0 to |paths|
        invariant AllKeys(vms) == keys && Covers(repos, vms, nets)
        invariant Run(repos, keys, start, ps) == Run(repos, keys, Heap(vms, nets), ps[i..])
      {
        ghost var before := Heap(vms, nets);
        assert ps[i..][0] == ps[i] && ps[i..][1..] == ps[i + 1..];
        hard := EnrichPath(vms, nets, PathOf(paths[i]));
        if hard { return; }
      }
      assert ps[|paths|..] == [];
      hard := false;
    }

    /**
     Enriches the VMs. What is computed depends on the include list only as a set of relations:
     a failure is reported exactly when some included lookup fails hard, and otherwise the heap is
     the plain join; a failed run has joined a prefix of the sorted list, relation by relation.
     */
    method EnrichVM(vms: seq<VM>, include_: seq<string>, ghost nets: set<Network>) returns (v: Verdict)
      requires Covers(repos, vms, nets)
      modifies vms`kernel, vms`image, vms`binary, vms`network, vms`volumes, vms`vsock, nets`leases
      ensures AllKeys(vms) == old(AllKeys(vms))
      ensures vms == [] ==> v == Fine
      ensures vms != [] ==> (v.BadInclude? <==> include_ == [] || exists p :: p in include_ && p !in VM_RELATIONS)
      ensures vms == [] || v.BadInclude? ==> Heap(vms, nets) == old(Heap(vms, nets))
      ensures vms != [] && !v.BadInclude? ==>
        (v == HardError <==> EnrichFails(repos, AllKeys(vms), old(Heap(vms, nets)), SetOf(PathsOf(include_))))
      ensures vms != [] && v == Fine ==>
        Heap(vms, nets) == Enriched(repos, AllKeys(vms), old(Heap(vms, nets)), SetOf(PathsOf(include_)))
      ensures v == HardError ==> exists done: seq<Path> ::
        done <= PathsOf(SortByDotCount(include_))
        && Heap(vms, nets) == Enriched(repos, AllKeys(vms), old(Heap(vms, nets)), SetOf(done))
    {
      hide Enriched, EnrichFails, Run, Heap, AllKeys, Covers, PathOf, SortByDotCount;
      if vms == [] { return Fine; }
      var resolution := ResolveInclude(include_, VM_RELATIONS);
      if !resolution.Resolved? { return BadInclude(resolution); }
      SortPutsParentsFirst(include_);
      var hard := EnrichFromPaths(vms, nets, resolution.paths);
      ghost var ps := PathsOf(resolution.paths);
      ghost var k := RunIsJoin(repos, AllKeys(vms), old(Heap(vms, nets)), ps);
      assert ps[..k] <= ps;
      return if hard then HardError else Fine;
    }
  }
}
