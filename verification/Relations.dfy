/**
 What VM enrichment is meant to compute, as a plain join on values: for each VM and each included
 relation, look the key up. `Enriched` takes the *set* of included relations, so it cannot depend
 on their order; `Enricher` shows that the batched code computes it.
 */
module Relations {
  import opened Options
  import opened Strings
  import opened Tables

  // --- rows ---

  datatype Kernel = Kernel(id: string)
  datatype Image = Image(id: string)
  datatype Binary = Binary(id: string)
  datatype Lease = Lease(id: int, networkID: string, ipv4: string)
  datatype Volume = Volume(id: string)
  datatype Vsock = Vsock(vmID: string, cid: int)

  /** A network item: a shared heap object, whose leases are filled in through any VM that has it. */
  class Network {
    const id: string
    var leases: seq<Lease>

    constructor (id: string)
      ensures this.id == id && leases == []
    {
      this.id, leases := id, [];
    }
  }

  /** One key looked up: a row, no row and no error, a domain error, or any other error. */
  datatype Lookup<T> = Found(row: T) | Missing | SoftFail | HardFail

  /** One batch query: the table, a domain error, or any other error. */
  datatype Batch<T> = Rows(rows: seq<T>) | BatchSoftFail | BatchHardFail

  datatype Repos = Repos(
    kernels: map<string, Lookup<Kernel>>,
    images: map<string, Lookup<Image>>,
    binaries: map<string, Lookup<Binary>>,
    networks: map<string, Lookup<Network>>,
    leases: Batch<Lease>,
    volumes: Batch<Volume>,
    vsocks: Batch<Vsock>)

  /** An unknown key is the domain error "not found". */
  function Get<T>(table: map<string, Lookup<T>>, id: string): Lookup<T> {
    if id in table then table[id] else SoftFail
  }

  // --- the state enrichment works on ---

  /** The stored columns of a VM, which enrichment only reads. */
  datatype Keys = Keys(id: string, kernelID: string, imageID: string, binaryID: string,
                       networkID: string, volumeIDs: seq<string>)

  /** The relation columns of a VM, which enrichment fills in. */
  datatype Relation = Relation(kernel: Option<Kernel>, image: Option<Image>, binary: Option<Binary>,
                               network: Option<Network>, volumes: seq<Volume>, vsock: Option<Vsock>)

  /** One row per VM of the list, and the leases of every network object in play. */
  datatype State = State(vms: seq<Relation>, leases: map<Network, seq<Lease>>)

  datatype Path = KernelPath | ImagePath | BinaryPath | NetworkPath | LeasesPath | VolumesPath | VsockPath

  // --- the join ---

  /** The row a lookup finds, if it finds one. */
  function Row<T>(table: map<string, Lookup<T>>, id: string): Option<T> {
    if Get(table, id).Found? then Some(Get(table, id).row) else None
  }

  /** A forward relation: an empty key leaves the field alone, a key that finds nothing clears it. */
  function Joined<T>(table: map<string, Lookup<T>>, fk: string, was: Option<T>): Option<T> {
    if fk == "" then was else Row(table, fk)
  }

  /** The volumes with these ids, in this order, missing ones dropped. */
  function LookupEach(rows: seq<Volume>, ids: seq<string>): seq<Volume>
    decreases |ids|
  {
    if ids == [] then []
    else
      var before := LookupEach(rows, ids[..|ids| - 1]);
      match LastWhere(rows, VolumeKey, ids[|ids| - 1])
      case Some(v) => before + [v]
      case None => before
  }

  function VolumeKey(v: Volume): string { v.id }
  function LeaseKey(l: Lease): string { l.networkID }
  function VsockKey(v: Vsock): string { v.vmID }

  const NUL := '\0'

  /** The joined volume list recorded for a VM id: that of the last VM with this id which lists any. */
  function RecordedKey(keys: seq<Keys>, id: string): string
    decreases |keys|
  {
    if keys == [] then ""
    else
      var last := keys[|keys| - 1];
      if last.volumeIDs != [] && last.id == id then Join(last.volumeIDs, [NUL])
      else RecordedKey(keys[..|keys| - 1], id)
  }

  /** The volume ids the batched code resolves for VM `i`. */
  function BatchedIDs(keys: seq<Keys>, i: nat): seq<string>
    requires i < |keys|
  {
    Split(RecordedKey(keys, keys[i].id), NUL)
  }

  function JoinedVolumes(r: Repos, keys: seq<Keys>, i: nat, was: seq<Volume>): seq<Volume>
    requires i < |keys|
  {
    if keys[i].volumeIDs == [] || !r.volumes.Rows? then was
    else LookupEach(r.volumes.rows, BatchedIDs(keys, i))
  }

  function JoinedVsock(r: Repos, id: string, was: Option<Vsock>): Option<Vsock> {
    if id == "" || !r.vsocks.Rows? then was
    else
      var v := LastWhere(r.vsocks.rows, VsockKey, id);
      if v.Some? then v else was
  }

  function EnrichedVM(r: Repos, keys: seq<Keys>, v: Relation, i: nat, paths: set<Path>): Relation
    requires i < |keys|
  {
    var k := keys[i];
    Relation(
      if KernelPath in paths then Joined(r.kernels, k.kernelID, v.kernel) else v.kernel,
      if ImagePath in paths then Joined(r.images, k.imageID, v.image) else v.image,
      if BinaryPath in paths then Joined(r.binaries, k.binaryID, v.binary) else v.binary,
      if NetworkPath in paths then Joined(r.networks, k.networkID, v.network) else v.network,
      if VolumesPath in paths then JoinedVolumes(r, keys, i, v.volumes) else v.volumes,
      if VsockPath in paths then JoinedVsock(r, k.id, v.vsock) else v.vsock)
  }

  predicate IsParent(vms: seq<Relation>, n: Network) {
    exists i :: 0 <= i < |vms| && vms[i].network == Some(n)
  }

  predicate NamedParentAt(vms: seq<Relation>, i: nat)
    requires i < |vms|
  {
    vms[i].network.Some? && vms[i].network.value.id != ""
  }

  /** Some VM has a network with a non-empty id: without one the lease query is not made. */
  predicate HasNamedParent(vms: seq<Relation>) {
    exists i :: 0 <= i < |vms| && NamedParentAt(vms, i)
  }

  function LeasesOf(rows: seq<Lease>, id: string): seq<Lease> {
    if id == "" then [] else Where(rows, LeaseKey, id)
  }

  /** Every VM's network gets exactly the leases of its id, in repository order. */
  function JoinedLeases(r: Repos, vms: seq<Relation>, leases: map<Network, seq<Lease>>): map<Network, seq<Lease>> {
    if !HasNamedParent(vms) || !r.leases.Rows? then leases
    else map n | n in leases :: if IsParent(vms, n) then LeasesOf(r.leases.rows, n.id) else leases[n]
  }

  function EnrichedVMs(r: Repos, keys: seq<Keys>, vms: seq<Relation>, paths: set<Path>): (out: seq<Relation>)
    requires |vms| == |keys|
    ensures |out| == |vms|
  {
    seq(|vms|, i requires 0 <= i < |vms| => EnrichedVM(r, keys, vms[i], i, paths))
  }

  function Enriched(r: Repos, keys: seq<Keys>, s: State, paths: set<Path>): State
    requires |s.vms| == |keys|
  {
    var vms := EnrichedVMs(r, keys, s.vms, paths);
    State(vms, if LeasesPath in paths then JoinedLeases(r, vms, s.leases) else s.leases)
  }

  // --- hard failures ---

  predicate LookupFails<T>(table: map<string, Lookup<T>>, fks: seq<string>) {
    exists fk :: fk in fks && fk != "" && Get(table, fk).HardFail?
  }

  /** The stored keys make this relation's own lookup fail hard; leases depend on the parents in `s`. */
  predicate HardFails(r: Repos, keys: seq<Keys>, s: State, p: Path) {
    match p
    case KernelPath => LookupFails(r.kernels, KernelIDs(keys))
    case ImagePath => LookupFails(r.images, ImageIDs(keys))
    case BinaryPath => LookupFails(r.binaries, BinaryIDs(keys))
    case NetworkPath => LookupFails(r.networks, NetworkIDs(keys))
    case LeasesPath => r.leases.BatchHardFail? && HasNamedParent(s.vms)
    case VolumesPath => r.volumes.BatchHardFail? && exists i :: 0 <= i < |keys| && keys[i].volumeIDs != []
    case VsockPath => r.vsocks.BatchHardFail? && exists i :: 0 <= i < |keys| && keys[i].id != ""
  }

  function KernelIDs(keys: seq<Keys>): seq<string> {
    seq(|keys|, i requires 0 <= i < |keys| => keys[i].kernelID)
  }

  function ImageIDs(keys: seq<Keys>): seq<string> {
    seq(|keys|, i requires 0 <= i < |keys| => keys[i].imageID)
  }

  function BinaryIDs(keys: seq<Keys>): seq<string> {
    seq(|keys|, i requires 0 <= i < |keys| => keys[i].binaryID)
  }

  function NetworkIDs(keys: seq<Keys>): seq<string> {
    seq(|keys|, i requires 0 <= i < |keys| => keys[i].networkID)
  }

  /** Whether enriching with these relations fails: again a statement about the set, not the order. */
  predicate EnrichFails(r: Repos, keys: seq<Keys>, s: State, paths: set<Path>)
    requires |s.vms| == |keys|
  {
    exists p :: p in paths && HardFails(r, keys, Enriched(r, keys, s, paths), p)
  }
}
