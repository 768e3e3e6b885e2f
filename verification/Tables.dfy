/**
 Rows and the maps built over them. Every relation of the enricher groups the rows of a batch
 query by a key, or indexes them by a key, and then looks items up; the specification is a
 filter of the rows.
 */
module Tables {
  import opened Options

  /** The rows with key `id`, in row order. */
  function Where<T>(rows: seq<T>, key: T -> string, id: string): seq<T> {
    if rows == [] then []
    else
      var rest := Where(rows[1..], key, id);
      if key(rows[0]) == id then [rows[0]] + rest else rest
  }

  /** What a batch query for `ids` answers: the rows whose key is asked for, in row order. */
  function Selected<T>(rows: seq<T>, key: T -> string, ids: set<string>): seq<T> {
    if rows == [] then []
    else
      var rest := Selected(rows[1..], key, ids);
      if key(rows[0]) in ids then [rows[0]] + rest else rest
  }

  /** The last row with key `id`: what is left in a map after all rows were written to it. */
  function LastWhere<T>(rows: seq<T>, key: T -> string, id: string): Option<T> {
    var found := Where(rows, key, id);
    if found == [] then None else Some(found[|found| - 1])
  }

  /** Reading a Go map of slices: a missing key reads as the empty slice. */
  function Slice<T>(m: map<string, seq<T>>, id: string): seq<T> {
    if id in m then m[id] else []
  }

  /** Reading a Go map of pointers: a missing key reads as nil. */
  function Entry<T>(m: map<string, T>, id: string): Option<T> {
    if id in m then Some(m[id]) else None
  }

  lemma {:induction false} WhereAppend<T>(rows: seq<T>, key: T -> string, x: T, id: string)
    ensures Where(rows + [x], key, id)
         == Where(rows, key, id) + (if key(x) == id then [x] else [])
  {
    if rows != [] {
      WhereAppend(rows[1..], key, x, id);
      assert (rows + [x])[1..] == rows[1..] + [x];
    } else {
      assert rows + [x] == [x];
    }
  }

  /** Narrowing the query to the wanted keys loses none of their rows and adds no other row. */
  lemma {:induction false} WhereSelected<T>(rows: seq<T>, key: T -> string, ids: set<string>, id: string)
    ensures Where(Selected(rows, key, ids), key, id) == if id in ids then Where(rows, key, id) else []
  {
    if rows != [] {
      WhereSelected(rows[1..], key, ids, id);
      if key(rows[0]) in ids {
        var rest := Selected(rows[1..], key, ids);
        assert ([rows[0]] + rest)[1..] == rest;
      }
    }
  }

  lemma LastWhereSelected<T>(rows: seq<T>, key: T -> string, ids: set<string>, id: string)
    ensures LastWhere(Selected(rows, key, ids), key, id) == if id in ids then LastWhere(rows, key, id) else None
  {
    WhereSelected(rows, key, ids, id);
  }

  /** What `Where` finds: exactly the rows with that key. */
  lemma {:induction false} WhereFinds<T>(rows: seq<T>, key: T -> string, id: string)
    ensures forall x :: x in Where(rows, key, id) <==> x in rows && key(x) == id
  {
    if rows != [] {
      WhereFinds(rows[1..], key, id);
      assert forall x :: x in rows <==> x == rows[0] || x in rows[1..];
    }
  }

  /** Groups the rows by key, appending to one slice per key. */
  method Group<T>(rows: seq<T>, key: T -> string) returns (m: map<string, seq<T>>)
    ensures forall id :: Slice(m, id) == Where(rows, key, id)
  {
    m := map[];
    for i := 0 to |rows|
      invariant forall id :: Slice(m, id) == Where(rows[..i], key, id)
    {
      var before := m;
      var k := key(rows[i]);
      m := m[k := Slice(m, k) + [rows[i]]];
      assert rows[..i + 1] == rows[..i] + [rows[i]];
      forall id ensures Slice(m, id) == Where(rows[..i + 1], key, id) {
        WhereAppend(rows[..i], key, rows[i], id);
        assert Slice(before, id) == Where(rows[..i], key, id);
      }
    }
    assert rows[..|rows|] == rows;
  }

  /** Indexes the rows by key; a later row replaces an earlier one. */
  method Index<T>(rows: seq<T>, key: T -> string) returns (m: map<string, T>)
    ensures forall id :: Entry(m, id) == LastWhere(rows, key, id)
  {
    m := map[];
    for i := 0 to |rows|
      invariant forall id :: Entry(m, id) == LastWhere(rows[..i], key, id)
    {
      var before := m;
      m := m[key(rows[i]) := rows[i]];
      assert rows[..i + 1] == rows[..i] + [rows[i]];
      forall id ensures Entry(m, id) == LastWhere(rows[..i + 1], key, id) {
        WhereAppend(rows[..i], key, rows[i], id);
        assert Entry(before, id) == LastWhere(rows[..i], key, id);
      }
    }
    assert rows[..|rows|] == rows;
  }

  /** The non-empty values in order of first appearance. */
  function Distinct(vals: seq<string>): (r: seq<string>)
    decreases |vals|
  {
    if vals == [] then []
    else
      var before := Distinct(vals[..|vals| - 1]);
      var last := vals[|vals| - 1];
      if last == "" || last in before then before else before + [last]
  }

  lemma {:induction false} DistinctIsExact(vals: seq<string>)
    ensures forall x :: x in Distinct(vals) <==> x in vals && x != ""
    ensures NoDuplicates(Distinct(vals))
    decreases |vals|
  {
    if vals != [] {
      var init := vals[..|vals| - 1];
      DistinctIsExact(init);
      assert vals == init + [vals[|vals| - 1]];
      assert forall x :: x in vals <==> x in init || x == vals[|vals| - 1];
    }
  }

  predicate NoDuplicates<T(==)>(s: seq<T>) {
    forall i, j :: 0 <= i < j < |s| ==> s[i] != s[j]
  }

  /** Collects the unique non-empty values with a `seen` set. */
  method CollectUnique(vals: seq<string>) returns (ids: seq<string>)
    ensures ids == Distinct(vals)
    ensures forall x :: x in ids <==> x in vals && x != ""
    ensures NoDuplicates(ids)
  {
    ids := [];
    var seen: set<string> := {};
    for i := 0 to |vals|
      invariant ids == Distinct(vals[..i])
      invariant forall x :: x in seen <==> x in ids
    {
      assert vals[..i + 1][..i] == vals[..i];
      if vals[i] != "" && vals[i] !in seen {
        seen := seen + {vals[i]};
        ids := ids + [vals[i]];
      }
    }
    assert vals[..|vals|] == vals;
    DistinctIsExact(vals);
  }

  /** The number of rows found under each of a list of keys, added up. */
  function TotalWhere<T>(rows: seq<T>, key: T -> string, ids: seq<string>): nat {
    if ids == [] then 0 else |Where(rows, key, ids[0])| + TotalWhere(rows, key, ids[1..])
  }

  /** The groups of distinct keys partition the batch: their lengths add up to its length. */
  lemma {:induction false} GroupsPartition<T>(rows: seq<T>, key: T -> string, ids: seq<string>)
    requires NoDuplicates(ids)
    ensures TotalWhere(rows, key, ids) == |Selected(rows, key, set id | id in ids)|
  {
    if ids == [] {
      SelectedNone(rows, key);
      assert (set id | id in ids) == {};
    } else {
      var rest := set id | id in ids[1..];
      assert (set id | id in ids) == {ids[0]} + rest;
      assert ids[0] !in rest;
      GroupsPartition(rows, key, ids[1..]);
      SelectedOneMore(rows, key, ids[0], rest);
    }
  }

  lemma {:induction false} SelectedNone<T>(rows: seq<T>, key: T -> string)
    ensures Selected(rows, key, {}) == []
  {
    if rows != [] { SelectedNone(rows[1..], key); }
  }

  lemma {:induction false} SelectedOneMore<T>(rows: seq<T>, key: T -> string, id: string, ids: set<string>)
    requires id !in ids
    ensures |Selected(rows, key, {id} + ids)| == |Where(rows, key, id)| + |Selected(rows, key, ids)|
  {
    if rows != [] { SelectedOneMore(rows[1..], key, id, ids); }
  }
}
