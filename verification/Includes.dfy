/**
 Include lists: validation against a relation registry, and the stable sort by dot count that
 puts parents before children.
 */
module Includes {
  import opened Options
  import opened Relations
  import opened RelationLaws

  // --- the sort ---

  /** How many dots a relation path has. */
  function DotCount(path: string): nat {
    if path == "" then 0 else (if path[0] == '.' then 1 else 0) + DotCount(path[1..])
  }

  /** The paths with `k` dots, in list order. */
  function WithDots(paths: seq<string>, k: nat): seq<string> {
    if paths == [] then []
    else (if DotCount(paths[0]) == k then [paths[0]] else []) + WithDots(paths[1..], k)
  }

  predicate SortedByDots(paths: seq<string>) {
    forall i, j :: 0 <= i < j < |paths| ==> DotCount(paths[i]) <= DotCount(paths[j])
  }

  function Insert(path: string, sorted: seq<string>): seq<string> {
    if sorted == [] || DotCount(path) <= DotCount(sorted[0]) then [path] + sorted
    else [sorted[0]] + Insert(path, sorted[1..])
  }

  function SortByDotCount(paths: seq<string>): seq<string> {
    if paths == [] then [] else Insert(paths[0], SortByDotCount(paths[1..]))
  }

  lemma {:induction false} InsertSorts(path: string, sorted: seq<string>)
    requires SortedByDots(sorted)
    ensures SortedByDots(Insert(path, sorted))
    ensures forall p :: p in Insert(path, sorted) <==> p == path || p in sorted
  {
    if sorted != [] && DotCount(path) > DotCount(sorted[0]) {
      var rest := sorted[1..];
      InsertSorts(path, rest);
      assert forall p :: p in sorted <==> p == sorted[0] || p in rest;
      var out := Insert(path, sorted);
      forall j | 0 < j < |out| ensures DotCount(out[0]) <= DotCount(out[j]) {
        assert out[j] == Insert(path, rest)[j - 1];
        assert out[j] in Insert(path, rest);
      }
    }
  }

  lemma WithDotsOfCons(path: string, rest: seq<string>, k: nat)
    ensures DotCount(path) == k ==> WithDots([path] + rest, k) == [path] + WithDots(rest, k)
    ensures DotCount(path) != k ==> WithDots([path] + rest, k) == WithDots(rest, k)
  {
    assert ([path] + rest)[1..] == rest;
  }

  lemma InsertLater(path: string, sorted: seq<string>)
    requires sorted != [] && DotCount(path) > DotCount(sorted[0])
    ensures Insert(path, sorted) == [sorted[0]] + Insert(path, sorted[1..])
    ensures sorted == [sorted[0]] + sorted[1..]
  {
  }

  lemma {:induction false} InsertIsStable(path: string, sorted: seq<string>, k: nat)
    ensures WithDots(Insert(path, sorted), k) == WithDots([path] + sorted, k)
  {
    if sorted != [] && DotCount(path) > DotCount(sorted[0]) {
      var first, rest := sorted[0], sorted[1..];
      InsertIsStable(path, rest, k);
      InsertLater(path, sorted);
      hide WithDots, Insert, DotCount;
      WithDotsOfCons(first, Insert(path, rest), k);
      WithDotsOfCons(path, rest, k);
      WithDotsOfCons(path, sorted, k);
      WithDotsOfCons(first, rest, k);
    }
  }

  /** The result is sorted, has the same paths, and keeps the order of paths with equal dot count. */
  lemma {:induction false} SortIsStable(paths: seq<string>)
    ensures SortedByDots(SortByDotCount(paths))
    ensures forall p :: p in SortByDotCount(paths) <==> p in paths
    ensures forall k: nat :: WithDots(SortByDotCount(paths), k) == WithDots(paths, k)
  {
    if paths != [] {
      SortIsStable(paths[1..]);
      var tail := SortByDotCount(paths[1..]);
      InsertSorts(paths[0], tail);
      forall k: nat ensures WithDots(Insert(paths[0], tail), k) == WithDots(paths, k) {
        InsertIsStable(paths[0], tail, k);
        assert ([paths[0]] + tail)[1..] == tail;
      }
      assert forall p :: p in paths <==> p == paths[0] || p in paths[1..];
    }
  }

  /** Those properties leave one result only: every stable sort by dot count is this function. */
  lemma {:induction false} StableSortIsUnique(a: seq<string>, b: seq<string>)
    requires SortedByDots(a) && SortedByDots(b)
    requires forall k: nat :: WithDots(a, k) == WithDots(b, k)
    ensures a == b
    decreases |a|
  {
    NonEmptyToo(a, b);
    NonEmptyToo(b, a);
    if a != [] {
      var k := DotCount(a[0]);
      SmallestFirst(a, b);
      SmallestFirst(b, a);
      assert a[0] == WithDots(a, k)[0] && b[0] == WithDots(b, k)[0];
      forall j: nat ensures WithDots(a[1..], j) == WithDots(b[1..], j) {
        WithoutFirst(a, j);
        WithoutFirst(b, j);
      }
      StableSortIsUnique(a[1..], b[1..]);
    }
  }

  lemma WithoutFirst(a: seq<string>, j: nat)
    requires a != []
    ensures DotCount(a[0]) == j ==> WithDots(a, j) == [a[0]] + WithDots(a[1..], j)
    ensures DotCount(a[0]) == j ==> WithDots(a, j)[1..] == WithDots(a[1..], j)
    ensures DotCount(a[0]) != j ==> WithDots(a, j) == WithDots(a[1..], j)
  {
  }

  lemma NonEmptyToo(a: seq<string>, b: seq<string>)
    requires forall k: nat :: WithDots(a, k) == WithDots(b, k)
    ensures a != [] ==> b != []
  {
    if a != [] {
      assert WithDots(a, DotCount(a[0])) != [];
      assert WithDots([], DotCount(a[0])) == [];
    }
  }

  lemma SmallestFirst(a: seq<string>, b: seq<string>)
    requires a != [] && b != [] && SortedByDots(b)
    requires forall k: nat :: WithDots(a, k) == WithDots(b, k)
    ensures DotCount(b[0]) <= DotCount(a[0])
  {
    var k := DotCount(a[0]);
    assert WithDots(a, k) == WithDots(b, k) != [];
    var i := SomeWithDots(b, k);
    assert i > 0 ==> DotCount(b[0]) <= DotCount(b[i]);
  }

  lemma {:induction false} SomeWithDots(b: seq<string>, k: nat) returns (i: nat)
    requires WithDots(b, k) != []
    ensures i < |b| && DotCount(b[i]) == k
  {
    if DotCount(b[0]) == k {
      i := 0;
    } else {
      var j := SomeWithDots(b[1..], k);
      i := j + 1;
    }
  }

  // --- validation ---

  datatype Resolution = Resolved(paths: seq<string>) | EmptyInclude | UnknownRelation(path: string)

  /** Checks the include list and sorts it: the first unknown path is reported, an empty list refused. */
  method ResolveInclude(include_: seq<string>, registry: set<string>) returns (r: Resolution)
    ensures r.EmptyInclude? <==> include_ == []
    ensures r.UnknownRelation? <==> exists p :: p in include_ && p !in registry
    ensures r.UnknownRelation? ==>
      exists i :: 0 <= i < |include_| && include_[i] == r.path && r.path !in registry
                  && forall p :: p in include_[..i] ==> p in registry
    ensures r.Resolved? ==> r.paths == SortByDotCount(include_)
  {
    if include_ == [] {
      return EmptyInclude;
    }
    for i := 0 to |include_|
      invariant forall p :: p in include_[..i] ==> p in registry
    {
      if include_[i] !in registry {
        return UnknownRelation(include_[i]);
      }
      assert forall p :: p in include_[..i + 1] ==> p in include_[..i] || p == include_[i];
    }
    assert include_[..|include_|] == include_;
    return Resolved(SortByDotCount(include_));
  }

  // --- the VM registry ---

  const VM_RELATIONS := {"kernel", "image", "binary", "network", "network.leases", "volumes", "vsock"}

  /** The switch over relation paths of `enrichVMFromPaths`. */
  function PathOf(path: string): Path {
    if path == "kernel" then KernelPath
    else if path == "image" then ImagePath
    else if path == "binary" then BinaryPath
    else if path == "network" then NetworkPath
    else if path == "network.leases" then LeasesPath
    else if path == "volumes" then VolumesPath
    else VsockPath
  }

  function PathsOf(paths: seq<string>): (r: seq<Path>)
    ensures |r| == |paths|
  {
    seq(|paths|, i requires 0 <= i < |paths| => PathOf(paths[i]))
  }

  lemma {:induction false} DotsOfConcat(a: string, b: string)
    ensures DotCount(a + b) == DotCount(a) + DotCount(b)
  {
    if a == "" {
      assert a + b == b;
    } else {
      assert (a + b)[1..] == a[1..] + b;
      DotsOfConcat(a[1..], b);
    }
  }

  lemma {:induction false} NoDots(s: string)
    requires forall i :: 0 <= i < |s| ==> s[i] != '.'
    ensures DotCount(s) == 0
  {
    if s != "" { NoDots(s[1..]); }
  }

  lemma OneDot()
    ensures DotCount(".") == 1
  {
    assert "."[1..] == "";
  }

  lemma DotsOfRelations()
    ensures DotCount("network.leases") == 1 && DotCount("network") == 0
  {
    hide DotCount;
    NoDots("network");
    NoDots("leases");
    OneDot();
    DotsOfConcat("network", ".leases");
    DotsOfConcat(".", "leases");
    assert "." + "leases" == ".leases" && "network" + ".leases" == "network.leases";
  }

  /** The sort puts networks before their leases and changes nothing about which relations run. */
  lemma SortPutsParentsFirst(include_: seq<string>)
    requires forall p :: p in include_ ==> p in VM_RELATIONS
    ensures ParentsFirst(PathsOf(SortByDotCount(include_)))
    ensures SetOf(PathsOf(SortByDotCount(include_))) == SetOf(PathsOf(include_))
  {
    hide SortByDotCount, DotCount, PathOf;
    var sorted := SortByDotCount(include_);
    SortIsStable(include_);
    var ps := PathsOf(sorted);
    forall i, j | 0 <= i < j < |ps| ensures !(ps[i] == LeasesPath && ps[j] == NetworkPath) {
      assert sorted[i] in include_ && sorted[j] in include_;
      PathOfDots(sorted[i]);
      PathOfDots(sorted[j]);
    }
    SameNamesSamePaths(sorted, include_);
  }

  lemma PathOfDots(path: string)
    requires path in VM_RELATIONS
    ensures PathOf(path) == LeasesPath ==> DotCount(path) == 1
    ensures PathOf(path) == NetworkPath ==> DotCount(path) == 0
  {
    hide DotCount;
    DotsOfRelations();
  }

  lemma SameNamesSamePaths(a: seq<string>, b: seq<string>)
    requires forall p :: p in a <==> p in b
    ensures SetOf(PathsOf(a)) == SetOf(PathsOf(b))
  {
    PathsWithin(a, b);
    PathsWithin(b, a);
  }

  lemma PathsWithin(a: seq<string>, b: seq<string>)
    requires forall p :: p in a ==> p in b
    ensures SetOf(PathsOf(a)) <= SetOf(PathsOf(b))
  {
    hide PathOf;
    forall q | q in PathsOf(a) ensures q in PathsOf(b) {
      var i :| 0 <= i < |a| && PathsOf(a)[i] == q;
      assert a[i] in b;
      var j :| 0 <= j < |b| && b[j] == a[i];
      assert PathsOf(b)[j] == q;
    }
  }
}
