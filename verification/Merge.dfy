/**
 `DeepMergeDict` (internal/infra/constants.go): recursive merge of nested settings.
 */
module Merge {
  import opened Options

  /** A settings value: a nested map, or anything else. */
  datatype Val = Atom(id: int) | Obj(m: Dict)
  type Dict = map<string, Val>

  function MergeVal(x: Val, y: Val): Val
    decreases x, 1
  {
    if x.Obj? && y.Obj? then Obj(Merge(x.m, y.m)) else y
  }

  function Merge(base: Dict, override: Dict): Dict
    decreases Obj(base), 0
  {
    map k | k in base.Keys + override.Keys ::
      if k !in override then base[k]
      else if k !in base then override[k]
      else if base[k].Obj? && override[k].Obj? then Obj(Merge(base[k].m, override[k].m))
      else override[k]
  }

  method DeepMergeDict(base: Dict, override: Dict) returns (result: Dict)
    ensures result == Merge(base, override)
    decreases Obj(override)
  {
    result := base;
    var todo := override.Keys;
    while todo != {}
      invariant todo <= override.Keys
      invariant result.Keys == base.Keys + (override.Keys - todo)
      invariant forall k <- result ::
        result[k] == if k in override.Keys - todo then Merge(base, override)[k] else base[k]
    {
      var key :| key in todo;
      todo := todo - {key};
      var overrideVal := override[key];
      if key in result && result[key].Obj? && overrideVal.Obj? {
        var merged := DeepMergeDict(result[key].m, overrideVal.m);
        result := result[key := Obj(merged)];
      } else {
        result := result[key := overrideVal];
      }
    }
  }

  /** The empty map is an identity on both sides. */
  lemma MergeEmpty(d: Dict)
    ensures Merge(d, map[]) == d && Merge(map[], d) == d
  {
  }

  // ----- lookups along a path -----

  function Lookup(d: Dict, path: seq<string>): Option<Val>
    decreases |path|
  {
    if path == [] then Some(Obj(d))
    else if path[0] !in d then None
    else if |path| == 1 then Some(d[path[0]])
    else if d[path[0]].Obj? then Lookup(d[path[0]].m, path[1..])
    else None
  }

  /** A proper prefix of the path ends at something that is not a map. */
  predicate Blocks(d: Dict, path: seq<string>)
    decreases |path|
  {
    |path| > 1 && path[0] in d && (d[path[0]].Atom? || Blocks(d[path[0]].m, path[1..]))
  }

  /**
   The override decides every path, except that two maps are merged; where the override
   says nothing the base shows through, unless the override put a non-map in the way.
   */
  lemma {:induction false} MergeLookup(base: Dict, override: Dict, path: seq<string>)
    ensures Lookup(Merge(base, override), path) ==
      match Lookup(override, path)
      case Some(y) => (match Lookup(base, path) case Some(x) => Some(MergeVal(x, y)) case None => Some(y))
      case None => if Blocks(override, path) then None else Lookup(base, path)
    decreases |path|
  {
    if path != [] && path[0] in base && path[0] in override {
      var x, y := base[path[0]], override[path[0]];
      if x.Obj? && y.Obj? {
        MergeLookup(x.m, y.m, path[1..]);
      } else if x.Obj? && |path| > 1 {
        assert Blocks(override, path);
      } else if y.Obj? && |path| > 1 {
        NotBlocked(y.m, path[1..]);
      }
    } else if path != [] && |path| > 1 && path[0] in override && override[path[0]].Obj? {
      NotBlocked(override[path[0]].m, path[1..]);
    }
  }

  lemma NotBlocked(d: Dict, path: seq<string>)
    ensures Blocks(d, path) ==> Lookup(d, path) == None
    decreases |path|
  {
  }

  // ----- algebra -----

  /** Every key of `a` is overridden by `b`, at every depth. */
  predicate Covers(a: Dict, b: Dict)
    decreases Obj(a)
  {
    forall k <- a :: k in b && (a[k].Obj? && b[k].Obj? ==> Covers(a[k].m, b[k].m))
  }

  /** An override absorbs a base exactly when it covers it. */
  lemma {:induction false} AbsorbsExactlyWhenCovered(a: Dict, b: Dict)
    ensures Merge(a, b) == b <==> Covers(a, b)
    decreases Obj(a)
  {
    var ab := Merge(a, b);
    forall k | k in a && k in b && a[k].Obj? && b[k].Obj?
      ensures ab[k] == b[k] <==> Covers(a[k].m, b[k].m)
    {
      AbsorbsExactlyWhenCovered(a[k].m, b[k].m);
    }
    if ab == b {
      forall k <- a ensures k in b { assert k in ab; }
    }
    if Covers(a, b) {
      assert ab.Keys == b.Keys;
    }
  }

  lemma {:induction false} CoversSelf(a: Dict)
    ensures Covers(a, a)
    decreases Obj(a)
  {
    forall k | k in a && a[k].Obj? ensures Covers(a[k].m, a[k].m) { CoversSelf(a[k].m); }
  }

  lemma Idempotent(a: Dict)
    ensures Merge(a, a) == a
  {
    CoversSelf(a);
    AbsorbsExactlyWhenCovered(a, a);
  }

  /** Applying the same override twice changes nothing. */
  lemma {:induction false} RepeatedOverride(a: Dict, b: Dict)
    ensures Merge(Merge(a, b), b) == Merge(a, b)
    decreases Obj(b)
  {
    var ab := Merge(a, b);
    forall k | k in b && ab[k].Obj? && b[k].Obj?
      ensures Merge(ab[k].m, b[k].m) == ab[k].m
    {
      if k in a && a[k].Obj? {
        RepeatedOverride(a[k].m, b[k].m);
      } else {
        Idempotent(b[k].m);
      }
    }
    assert Merge(ab, b) == ab;
  }

  /**
   No clash: wherever the middle argument puts a non-map between two maps, the last map
   covers the first.
   */
  predicate NoClash(a: Dict, b: Dict, c: Dict)
    decreases Obj(a)
  {
    forall k | k in a && k in b && k in c && a[k].Obj? && c[k].Obj? ::
      if b[k].Obj? then NoClash(a[k].m, b[k].m, c[k].m) else Covers(a[k].m, c[k].m)
  }

  /** One key's value under the two groupings. */
  lemma MergeAtKey(a: Dict, b: Dict, c: Dict, k: string)
    requires k in a && k in b && k in c
    ensures Merge(Merge(a, b), c)[k] == MergeVal(MergeVal(a[k], b[k]), c[k])
    ensures Merge(a, Merge(b, c))[k] == MergeVal(a[k], MergeVal(b[k], c[k]))
  {
    assert k in Merge(a, b) && k in Merge(b, c);
  }

  lemma MergeElsewhere(a: Dict, b: Dict, c: Dict, k: string)
    requires k in a.Keys + b.Keys + c.Keys && !(k in a && k in b && k in c)
    ensures Merge(Merge(a, b), c)[k] == Merge(a, Merge(b, c))[k]
  {
    assert (k in Merge(a, b) <==> k in a || k in b) && (k in Merge(b, c) <==> k in b || k in c);
  }

  /** Merging is associative exactly when the three arguments do not clash. */
  lemma {:induction false} AssociativeExactlyWhenNoClash(a: Dict, b: Dict, c: Dict)
    ensures Merge(Merge(a, b), c) == Merge(a, Merge(b, c)) <==> NoClash(a, b, c)
    decreases Obj(a)
  {
    var left, right := Merge(Merge(a, b), c), Merge(a, Merge(b, c));
    assert left.Keys == right.Keys == a.Keys + b.Keys + c.Keys;
    forall k | k in left
      ensures left[k] == right[k] <==>
        (k in a && k in b && k in c && a[k].Obj? && c[k].Obj? ==>
          if b[k].Obj? then NoClash(a[k].m, b[k].m, c[k].m) else Covers(a[k].m, c[k].m))
    {
      if !(k in a && k in b && k in c) {
        MergeElsewhere(a, b, c, k);
      } else {
        MergeAtKey(a, b, c, k);
        if a[k].Obj? && c[k].Obj? && b[k].Obj? {
          AssociativeExactlyWhenNoClash(a[k].m, b[k].m, c[k].m);
        } else if a[k].Obj? && c[k].Obj? {
          AbsorbsExactlyWhenCovered(a[k].m, c[k].m);
        }
      }
    }
    hide Merge, Covers;
    assert left == right <==> forall k <- left :: left[k] == right[k];
  }

  /** In general it is not associative: a non-map between two maps drops the first one's keys. */
  lemma NotAssociative(x: string, k: string, v: int, w: int)
    ensures var a: Dict, b: Dict, c: Dict := map[k := Obj(map[x := Atom(v)])], map[k := Atom(w)], map[k := Obj(map[])];
      Merge(Merge(a, b), c) != Merge(a, Merge(b, c))
  {
    var a: Dict, b: Dict, c: Dict := map[k := Obj(map[x := Atom(v)])], map[k := Atom(w)], map[k := Obj(map[])];
    assert x in a[k].m && !Covers(a[k].m, c[k].m);
    assert k in a && !NoClash(a, b, c);
    AssociativeExactlyWhenNoClash(a, b, c);
  }
}
