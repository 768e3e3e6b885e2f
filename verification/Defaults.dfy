/**
 The image and binary tables: pulling a version replaces the live item of that version and hands
 the default over to it. At most one item of a version is live, and at most one undeleted item is
 the default (one per type for binaries).
 */
module Defaults {
  import opened Options

  datatype Item = Item(typ: string, version: string, isDefault: bool, present: bool, deleted: bool) {
    predicate Live() { present && !deleted }
  }

  type Table = map<string, Item>

  predicate SameVersion(a: Item, b: Item) { a.typ == b.typ && a.version == b.version }

  predicate OneLive(t: Table) {
    forall a, b :: a in t && b in t && t[a].Live() && t[b].Live() && SameVersion(t[a], t[b]) ==> a == b
  }

  /** The undeleted items marked default. */
  function DefaultIDs(t: Table): set<string> { set k | k in t && t[k].isDefault && !t[k].deleted }

  predicate OneDefault(t: Table) {
    forall a, b :: a in DefaultIDs(t) && b in DefaultIDs(t) ==> a == b
  }

  predicate OneDefaultPerType(t: Table) {
    forall a, b :: a in DefaultIDs(t) && b in DefaultIDs(t) && t[a].typ == t[b].typ ==> a == b
  }

  // --- the repositories' statements ---

  /** Clears every undeleted default and sets this one, if it is there and undeleted. */
  function WithDefault(t: Table, id: string): Table {
    map k | k in t :: if t[k].deleted then t[k] else t[k].(isDefault := k == id)
  }

  /** The item with its default taken away, if it is undeleted and `mine`. */
  function Unset(item: Item, mine: bool): Item {
    if item.deleted || !mine then item else item.(isDefault := false)
  }

  /** The binary form clears one type only, and sets the id whatever its type. */
  function WithTypeDefault(t: Table, typ: string, id: string): Table {
    map k | k in t ::
      if t[k].deleted then t[k]
      else if k == id then t[k].(isDefault := true)
      else if t[k].typ == typ then t[k].(isDefault := false)
      else t[k]
  }

  function WithDeleted(t: Table, id: string): Table {
    if id in t then t[id := t[id].(present := false, deleted := true)] else t
  }

  function WithPresence(t: Table, ids: set<string>, present: bool): Table {
    map k | k in t :: if k in ids then t[k].(present := present) else t[k]
  }

  // --- pulling and importing ---

  /** The item of this version found before the download, as it was then. */
  datatype Existing = Existing(id: string, isDefault: bool)

  predicate IsLookup(t: Table, typ: string, version: string, e: Option<Existing>) {
    match e
    case None => forall k :: k in t && t[k].Live() ==> t[k].typ != typ || t[k].version != version
    case Some(x) => x.id in t && t[x.id].Live() && t[x.id].typ == typ && t[x.id].version == version
                    && t[x.id].isDefault == x.isDefault
  }

  function NewItem(typ: string, version: string): Item { Item(typ, version, false, true, false) }

  /** Which of the final writes of a pull go through; a failed one is not noticed. */
  datatype Writes = Writes(upsert: bool, mark: bool, retire: bool)

  /** The default is to be set on the new item. */
  predicate WantsDefault(e: Option<Existing>, setDefault: bool) { setDefault || (e.Some? && e.value.isDefault) }

  /** The end of a pull or import: write the new item, hand over the default, retire the old item. */
  function AfterPull(t: Table, id: string, typ: string, version: string, e: Option<Existing>, setDefault: bool, hard: bool, w: Writes): Table {
    var t1 := if w.upsert then t[id := NewItem(typ, version)] else t;
    var t2 := if WantsDefault(e, setDefault) && w.mark then WithDefault(t1, id) else t1;
    if e.Some? && e.value.id != id && w.retire
    then (if hard then t2 - {e.value.id} else WithDeleted(t2, e.value.id))
    else t2
  }

  /** The pull retires this item. */
  predicate Retires(id: string, e: Option<Existing>, w: Writes, k: string) {
    w.retire && e.Some? && k == e.value.id && k != id
  }

  /** One row after the pull, if it is not the new item's. */
  lemma RowAfterPull(t: Table, id: string, typ: string, version: string, e: Option<Existing>, setDefault: bool, hard: bool, w: Writes, k: string)
    requires k != id || !w.upsert
    ensures var t' := AfterPull(t, id, typ, version, e, setDefault, hard, w);
      && ((k in t' && t'[k].Live()) <==> (k in t && t[k].Live() && !Retires(id, e, w, k)))
      && (k in t' ==> k in t && SameVersion(t'[k], t[k]))
  {
  }

  lemma NewRowAfterPull(t: Table, id: string, typ: string, version: string, e: Option<Existing>, setDefault: bool, hard: bool, w: Writes)
    requires w.upsert
    ensures var t' := AfterPull(t, id, typ, version, e, setDefault, hard, w);
      id in t' && t'[id].Live() && t'[id].typ == typ && t'[id].version == version
  {
  }

  /** After the pull the live items are the new one, if it was written, and those live before but not retired. */
  lemma LiveAfterPull(t: Table, id: string, typ: string, version: string, e: Option<Existing>, setDefault: bool, hard: bool, w: Writes)
    ensures var t' := AfterPull(t, id, typ, version, e, setDefault, hard, w);
      && (w.upsert ==> id in t' && t'[id].Live() && t'[id].typ == typ && t'[id].version == version)
      && (forall k :: k != id || !w.upsert ==>
            ((k in t' && t'[k].Live()) <==> (k in t && t[k].Live() && !Retires(id, e, w, k))))
      && (forall k :: (k != id || !w.upsert) && k in t' ==> k in t && SameVersion(t'[k], t[k]))
  {
    hide AfterPull, Retires, SameVersion;
    if w.upsert { NewRowAfterPull(t, id, typ, version, e, setDefault, hard, w); }
    forall k | k != id || !w.upsert { RowAfterPull(t, id, typ, version, e, setDefault, hard, w, k); }
  }

  /** No live item of the version would stand beside the new one at the end of the pull. */
  predicate PullUncontested(t: Table, id: string, typ: string, version: string, e: Option<Existing>, w: Writes) {
    !w.upsert
    || forall k :: k in t && t[k].Live() && t[k].typ == typ && t[k].version == version ==> k == id || Retires(id, e, w, k)
  }

  /**
   Whatever was found before the download and whichever writes fail, the pull leaves one live item
   per version exactly when the new item is not written, or every other live item of its version is
   the one found and its retirement goes through.
   */
  lemma PullKeepsOneLive(t: Table, id: string, typ: string, version: string, e: Option<Existing>, setDefault: bool, hard: bool, w: Writes)
    requires OneLive(t)
    ensures OneLive(AfterPull(t, id, typ, version, e, setDefault, hard, w)) <==> PullUncontested(t, id, typ, version, e, w)
  {
    hide AfterPull;
    var t' := AfterPull(t, id, typ, version, e, setDefault, hard, w);
    LiveAfterPull(t, id, typ, version, e, setDefault, hard, w);
    if k :| w.upsert && k in t && t[k].Live() && t[k].typ == typ && t[k].version == version && k != id && !Retires(id, e, w, k) {
      assert k in t' && t'[k].Live() && SameVersion(t'[k], t'[id]);
    }
  }

  /** The row of this item is replaced by the new one, or retired. */
  predicate Displaces(id: string, e: Option<Existing>, w: Writes, k: string) { (w.upsert && k == id) || Retires(id, e, w, k) }

  /**
   The defaults after a pull, whatever was found and whichever writes fail: only the new item, if
   it is to be marked, the mark goes through and there is an undeleted row to mark; otherwise those
   before whose rows are not displaced.
   */
  lemma PullMovesDefault(t: Table, id: string, typ: string, version: string, e: Option<Existing>, setDefault: bool, hard: bool, w: Writes)
    ensures DefaultIDs(AfterPull(t, id, typ, version, e, setDefault, hard, w))
         == if WantsDefault(e, setDefault) && w.mark then (if w.upsert || (id in t && !t[id].deleted) then {id} else {})
            else set k | k in DefaultIDs(t) && !Displaces(id, e, w, k)
  {
  }

  /**
   There is still a default after the pull exactly when the mark is made on an undeleted row, or
   none is made and the default's row is not displaced.
   */
  lemma DefaultSurvivesPull(t: Table, d: string, id: string, typ: string, version: string, e: Option<Existing>, setDefault: bool, hard: bool, w: Writes)
    requires DefaultIDs(t) == {d}
    ensures DefaultIDs(AfterPull(t, id, typ, version, e, setDefault, hard, w)) != {}
      <==> if WantsDefault(e, setDefault) && w.mark then w.upsert || (id in t && !t[id].deleted) else !Displaces(id, e, w, d)
  {
    PullMovesDefault(t, id, typ, version, e, setDefault, hard, w);
    var after := DefaultIDs(AfterPull(t, id, typ, version, e, setDefault, hard, w));
    hide AfterPull, Displaces, DefaultIDs;
    if !(WantsDefault(e, setDefault) && w.mark) {
      assert d in after <==> !Displaces(id, e, w, d);
      assert forall k :: k in after ==> k == d;
    } else {
      assert w.upsert || (id in t && !t[id].deleted) ==> id in after;
    }
  }

  /**
   With an up-to-date lookup and all writes done, the default goes to the new item if asked for or
   if the item found was the default; otherwise it stays where it was. There is still at most one.
   */
  lemma PullHandsDefaultOver(t: Table, id: string, typ: string, version: string, e: Option<Existing>, setDefault: bool, hard: bool)
    requires OneDefault(t) && IsLookup(t, typ, version, e) && FreshID(t, id, e)
    ensures DefaultIDs(AfterPull(t, id, typ, version, e, setDefault, hard, Writes(true, true, true)))
         == if WantsDefault(e, setDefault) then {id} else DefaultIDs(t)
  {
    PullMovesDefault(t, id, typ, version, e, setDefault, hard, Writes(true, true, true));
  }

  /** An item found not to be the default, and made the default during the download, is retired with its mark. */
  lemma DefaultMadeMeanwhileIsLost(t: Table, d: string, id: string, typ: string, version: string, hard: bool)
    requires DefaultIDs(t) == {d} && id !in t
    ensures DefaultIDs(AfterPull(t, id, typ, version, Some(Existing(d, false)), false, hard, Writes(true, true, true))) == {}
  {
    assert d in DefaultIDs(t);
    PullMovesDefault(t, id, typ, version, Some(Existing(d, false)), false, hard, Writes(true, true, true));
  }

  /** Ids are new; only a pull in the same second as the one it replaces reuses the replaced id. */
  predicate FreshID(t: Table, id: string, e: Option<Existing>) {
    id in t ==> e.Some? && e.value.id == id
  }

  /** Setting a default leaves that one only, and touches nobody's presence. */
  lemma SetDefaultIsExact(t: Table, id: string)
    ensures DefaultIDs(WithDefault(t, id)) == if id in t && !t[id].deleted then {id} else {}
    ensures OneDefault(WithDefault(t, id))
    ensures OneLive(t) ==> OneLive(WithDefault(t, id))
  {
  }

  /** For binaries: one default per type is kept exactly if the type passed is the item's own, or it has no rival. */
  lemma TypeDefaultIsSafe(t: Table, typ: string, id: string)
    requires OneDefaultPerType(t)
    ensures OneDefaultPerType(WithTypeDefault(t, typ, id))
      <==> id !in t || t[id].deleted || t[id].typ == typ
           || forall k :: k in DefaultIDs(t) && t[k].typ == t[id].typ ==> k == id
  {
    var t' := WithTypeDefault(t, typ, id);
    if id in t && !t[id].deleted && t[id].typ != typ {
      if k :| k in DefaultIDs(t) && t[k].typ == t[id].typ && k != id {
        assert k in DefaultIDs(t') && id in DefaultIDs(t') && t'[k].typ == t'[id].typ;
      }
    }
  }

  lemma TypeDefaultSets(t: Table, id: string)
    requires id in t && !t[id].deleted && OneDefaultPerType(t)
    ensures OneDefaultPerType(WithTypeDefault(t, t[id].typ, id))
    ensures forall k ::
      k in DefaultIDs(WithTypeDefault(t, t[id].typ, id)) <==> k == id || (k in DefaultIDs(t) && t[k].typ != t[id].typ)
  {
    TypeDefaultIsSafe(t, t[id].typ, id);
  }

  // --- runs ---

  /** Whole pulls, and the single statements they and the other operations consist of. */
  datatype Op =
    | Pull(id: string, typ: string, version: string, found: Option<Existing>, setDefault: bool, hard: bool, w: Writes)
    | Insert(id: string, typ: string, version: string)
    | SetDefault(id: string)
    | SoftDelete(id: string)
    | Delete(id: string)
    | MarkAbsent(ids: set<string>)

  function Do(t: Table, op: Op): Table {
    match op
    case Pull(id, typ, version, found, setDefault, hard, w) => AfterPull(t, id, typ, version, found, setDefault, hard, w)
    case Insert(id, typ, version) => t[id := NewItem(typ, version)]
    case SetDefault(id) => WithDefault(t, id)
    case SoftDelete(id) => WithDeleted(t, id)
    case Delete(id) => t - {id}
    case MarkAbsent(ids) => WithPresence(t, ids, false)
  }

  function Run(t: Table, ops: seq<Op>): Table
    decreases |ops|
  {
    if ops == [] then t else Run(Do(t, ops[0]), ops[1..])
  }

  /** The statements a pull consists of, between which other operations may run. */
  function PullStatements(id: string, typ: string, version: string, e: Option<Existing>, setDefault: bool, hard: bool, w: Writes): seq<Op> {
    (if w.upsert then [Insert(id, typ, version)] else [])
    + ((if WantsDefault(e, setDefault) && w.mark then [SetDefault(id)] else [])
    + (if e.Some? && e.value.id != id && w.retire then [if hard then Delete(e.value.id) else SoftDelete(e.value.id)] else []))
  }

  lemma RunOne(t: Table, op: Op, rest: seq<Op>)
    ensures Run(t, [op] + rest) == Run(Do(t, op), rest)
  {
    assert ([op] + rest)[1..] == rest;
  }

  /** At most one statement, then the rest. */
  lemma RunMaybe(t: Table, does: bool, op: Op, rest: seq<Op>)
    ensures Run(t, (if does then [op] else []) + rest) == Run(if does then Do(t, op) else t, rest)
  {
    if does { RunOne(t, op, rest); } else { assert [] + rest == rest; }
  }

  /** A pull that is not overtaken is its statements one after the other. */
  lemma PullIsItsStatements(t: Table, id: string, typ: string, version: string, e: Option<Existing>, setDefault: bool, hard: bool, w: Writes)
    ensures Run(t, PullStatements(id, typ, version, e, setDefault, hard, w))
         == AfterPull(t, id, typ, version, e, setDefault, hard, w)
  {
    hide Run;
    var retires := e.Some? && e.value.id != id && w.retire;
    var retire := if !e.Some? then SetDefault(id) else if hard then Delete(e.value.id) else SoftDelete(e.value.id);
    var mark := WantsDefault(e, setDefault) && w.mark;
    var last := if retires then [retire] else [];
    RunMaybe(t, w.upsert, Insert(id, typ, version), (if mark then [SetDefault(id)] else []) + last);
    var t1 := if w.upsert then t[id := NewItem(typ, version)] else t;
    RunMaybe(t1, mark, SetDefault(id), last);
    var t2 := if mark then WithDefault(t1, id) else t1;
    RunMaybe(t2, retires, retire, []);
    RunNothing(if retires then Do(t2, retire) else t2);
    assert last + [] == last;
  }

  lemma RunNothing(t: Table)
    ensures Run(t, []) == t
  {
  }

  /** The operation puts no live item beside another of its version. */
  predicate Uncontested(t: Table, op: Op) {
    match op
    case Pull(id, typ, version, found, _, _, w) => PullUncontested(t, id, typ, version, found, w)
    case Insert(id, typ, version) =>
      forall k :: k in t && t[k].Live() && t[k].typ == typ && t[k].version == version ==> k == id
    case _ => true
  }

  predicate UncontestedRun(t: Table, ops: seq<Op>)
    decreases |ops|
  {
    ops == [] || (Uncontested(t, ops[0]) && UncontestedRun(Do(t, ops[0]), ops[1..]))
  }

  /** One live item per version before, between and after the operations. */
  predicate OneLiveThroughout(t: Table, ops: seq<Op>)
    decreases |ops|
  {
    OneLive(t) && (ops == [] || OneLiveThroughout(Do(t, ops[0]), ops[1..]))
  }

  lemma PullKeepsOneDefault(t: Table, id: string, typ: string, version: string, e: Option<Existing>, setDefault: bool, hard: bool, w: Writes)
    requires OneDefault(t)
    ensures OneDefault(AfterPull(t, id, typ, version, e, setDefault, hard, w))
  {
    PullMovesDefault(t, id, typ, version, e, setDefault, hard, w);
    hide AfterPull, DefaultIDs, Displaces;
  }

  lemma StepKeepsOneDefault(t: Table, op: Op)
    requires OneDefault(t)
    ensures OneDefault(Do(t, op))
  {
    hide AfterPull;
    match op
    case Pull(id, typ, version, found, setDefault, hard, w) =>
      PullKeepsOneDefault(t, id, typ, version, found, setDefault, hard, w);
    case Insert(id, typ, version) => assert DefaultIDs(Do(t, op)) <= DefaultIDs(t);
    case SetDefault(id) => SetDefaultIsExact(t, id);
    case SoftDelete(id) => assert DefaultIDs(WithDeleted(t, id)) <= DefaultIDs(t);
    case Delete(id) => assert DefaultIDs(t - {id}) <= DefaultIDs(t);
    case MarkAbsent(ids) => assert DefaultIDs(WithPresence(t, ids, false)) == DefaultIDs(t);
  }

  /** Over every run whatever, with the statements of pulls in any order and any of them lost: at most one default. */
  lemma {:induction false} RunKeepsOneDefault(t: Table, ops: seq<Op>)
    requires OneDefault(t)
    ensures OneDefault(Run(t, ops))
    decreases |ops|
  {
    if ops != [] {
      StepKeepsOneDefault(t, ops[0]);
      RunKeepsOneDefault(Do(t, ops[0]), ops[1..]);
    }
  }

  lemma InsertKeepsOneLive(t: Table, id: string, typ: string, version: string)
    requires OneLive(t)
    ensures OneLive(t[id := NewItem(typ, version)]) <==> Uncontested(t, Insert(id, typ, version))
  {
    var t' := t[id := NewItem(typ, version)];
    if k :| k in t && t[k].Live() && t[k].typ == typ && t[k].version == version && k != id {
      assert t'[k].Live() && t'[id].Live() && SameVersion(t'[k], t'[id]);
    }
  }

  /** One operation keeps one live item per version exactly if it is uncontested. */
  lemma StepKeepsOneLiveIffUncontested(t: Table, op: Op)
    requires OneLive(t)
    ensures OneLive(Do(t, op)) <==> Uncontested(t, op)
  {
    hide AfterPull, PullUncontested;
    match op
    case Pull(id, typ, version, found, setDefault, hard, w) =>
      PullKeepsOneLive(t, id, typ, version, found, setDefault, hard, w);
    case Insert(id, typ, version) => InsertKeepsOneLive(t, id, typ, version);
    case SetDefault(id) => SetDefaultIsExact(t, id);
    case SoftDelete(id) =>
    case Delete(id) =>
    case MarkAbsent(ids) =>
  }

  /** A run keeps one live item per version throughout exactly if every operation in it is uncontested. */
  lemma {:induction false} RunKeepsOneLiveIffUncontested(t: Table, ops: seq<Op>)
    requires OneLive(t)
    ensures OneLiveThroughout(t, ops) <==> UncontestedRun(t, ops)
    decreases |ops|
  {
    hide OneLive, Do, Uncontested;
    if ops != [] {
      StepKeepsOneLiveIffUncontested(t, ops[0]);
      if Uncontested(t, ops[0]) {
        RunKeepsOneLiveIffUncontested(Do(t, ops[0]), ops[1..]);
      }
    }
  }

  /** A pull that finds what is there, is not overtaken, and retires it; the single statements of pulls left out. */
  predicate Undisturbed(t: Table, op: Op) {
    && !op.Insert?
    && (op.Pull? ==> IsLookup(t, op.typ, op.version, op.found) && op.w.retire)
  }

  predicate UndisturbedRun(t: Table, ops: seq<Op>)
    decreases |ops|
  {
    ops == [] || (Undisturbed(t, ops[0]) && UndisturbedRun(Do(t, ops[0]), ops[1..]))
  }

  /** Such a pull is uncontested: with one live item per version, the lookup found the only one. */
  lemma UndisturbedIsUncontested(t: Table, op: Op)
    requires OneLive(t) && Undisturbed(t, op)
    ensures Uncontested(t, op)
  {
  }

  /** Pulls one after the other, their retirements going through, keep one live item per version. */
  lemma {:induction false} UndisturbedRunKeepsOneLive(t: Table, ops: seq<Op>)
    requires OneLive(t) && UndisturbedRun(t, ops)
    ensures OneLiveThroughout(t, ops)
    decreases |ops|
  {
    hide OneLive, Do, Uncontested, Undisturbed;
    if ops != [] {
      UndisturbedIsUncontested(t, ops[0]);
      StepKeepsOneLiveIffUncontested(t, ops[0]);
      UndisturbedRunKeepsOneLive(Do(t, ops[0]), ops[1..]);
    }
  }

  /** A lost retirement alone leaves two live items, in a pull that nobody disturbs. */
  lemma LostRetirementLeavesTwo(t: Table, old_: string, id: string, typ: string, version: string, hard: bool)
    requires OneLive(t) && old_ in t && t[old_].Live() && t[old_].typ == typ && t[old_].version == version && id !in t
    ensures IsLookup(t, typ, version, Some(Existing(old_, t[old_].isDefault)))
    ensures !OneLive(AfterPull(t, id, typ, version, Some(Existing(old_, t[old_].isDefault)), false, hard, Writes(true, true, false)))
  {
    PullKeepsOneLive(t, id, typ, version, Some(Existing(old_, t[old_].isDefault)), false, hard, Writes(true, true, false));
  }

  // --- runs over the binary table ---

  datatype BinaryOp =
    | Add(id: string, typ: string, version: string)
    | SetOwnDefault(id: string)
    | SoftDeleteBinary(id: string)
    | DeleteBinary(id: string)
    | MarkBinariesAbsent(ids: set<string>)

  /** The callers resolve a binary and pass its own type. */
  function DoBinary(t: Table, op: BinaryOp): Table {
    match op
    case Add(id, typ, version) => t[id := NewItem(typ, version)]
    case SetOwnDefault(id) => if id in t then WithTypeDefault(t, t[id].typ, id) else t
    case SoftDeleteBinary(id) => WithDeleted(t, id)
    case DeleteBinary(id) => t - {id}
    case MarkBinariesAbsent(ids) => WithPresence(t, ids, false)
  }

  function RunBinary(t: Table, ops: seq<BinaryOp>): Table
    decreases |ops|
  {
    if ops == [] then t else RunBinary(DoBinary(t, ops[0]), ops[1..])
  }

  /** Fewer defaults, of unchanged types, are still one per type. */
  lemma FewerDefaults(t: Table, t': Table)
    requires OneDefaultPerType(t) && DefaultIDs(t') <= DefaultIDs(t)
    requires forall k :: k in DefaultIDs(t') ==> t'[k].typ == t[k].typ
    ensures OneDefaultPerType(t')
  {
  }

  lemma StepKeepsDefaultPerType(t: Table, op: BinaryOp)
    requires OneDefaultPerType(t)
    ensures OneDefaultPerType(DoBinary(t, op))
  {
    hide OneDefaultPerType;
    match op
    case SetOwnDefault(id) => if id in t { TypeDefaultIsSafe(t, t[id].typ, id); }
    case _ => FewerDefaults(t, DoBinary(t, op));
  }

  /** Over every run on the binary table: at most one default per type. */
  lemma {:induction false} RunKeepsDefaultPerType(t: Table, ops: seq<BinaryOp>)
    requires OneDefaultPerType(t)
    ensures OneDefaultPerType(RunBinary(t, ops))
    decreases |ops|
  {
    if ops != [] {
      StepKeepsDefaultPerType(t, ops[0]);
      RunKeepsDefaultPerType(DoBinary(t, ops[0]), ops[1..]);
    }
  }

  // --- what the interfaces would allow ---

  /** Two pulls of one version that both looked before either wrote leave two live items. */
  lemma OverlappingPullsCollide(a: string, b: string, typ: string, version: string)
    requires a != b
    ensures var w := Writes(true, true, true);
      && IsLookup(map[], typ, version, None)
      && !OneLive(AfterPull(AfterPull(map[], a, typ, version, None, false, false, w), b, typ, version, None, false, false, w))
  {
    var w := Writes(true, true, true);
    var t := AfterPull(map[], a, typ, version, None, false, false, w);
    assert t == map[a := NewItem(typ, version)];
    PullKeepsOneLive(t, b, typ, version, None, false, false, w);
    assert a in t && t[a].Live();
  }

  /**
   The repository could mark items present again, though no caller does. That would keep one live
   item per version exactly when no undeleted marked item shares its version with another undeleted
   one that is present or marked too.
   */
  lemma PresenceKeepsOneLive(t: Table, ids: set<string>)
    requires OneLive(t)
    ensures OneLive(WithPresence(t, ids, true))
      <==> forall a, b :: a in ids && a in t && b in t && a != b && !t[a].deleted && !t[b].deleted && SameVersion(t[a], t[b])
             ==> !t[b].present && b !in ids
  {
    var t' := WithPresence(t, ids, true);
    if a, b :| a in ids && a in t && b in t && a != b && !t[a].deleted && !t[b].deleted && SameVersion(t[a], t[b])
               && (t[b].present || b in ids) {
      assert t'[a].Live() && t'[b].Live() && SameVersion(t'[a], t'[b]);
    }
  }

  // --- the program, on the tables ---

  class ImageRepo {
    var images: Table

    constructor ()
      ensures images == map[]
    {
      images := map[];
    }

    method Upsert(id: string, item: Item)
      modifies this
      ensures images == old(images)[id := item]
    {
      images := images[id := item];
    }

    /** First clears the default of every undeleted image, then sets the one asked for. */
    method SetDefault(id: string)
      modifies this
      ensures images == WithDefault(old(images), id)
    {
      var todo := images.Keys;
      while todo != {}
        invariant images.Keys == old(images).Keys && todo <= images.Keys
        invariant forall k :: k in images ==>
          images[k] == if k in todo then old(images)[k] else Unset(old(images)[k], true)
        decreases |todo|
      {
        var k :| k in todo;
        todo := todo - {k};
        if !images[k].deleted {
          images := images[k := images[k].(isDefault := false)];
        }
      }
      if id in images && !images[id].deleted {
        images := images[id := images[id].(isDefault := true)];
      }
    }

    method SoftDelete(id: string)
      modifies this
      ensures images == WithDeleted(old(images), id)
    {
      if id in images {
        images := images[id := images[id].(present := false, deleted := true)];
      }
    }

    method Delete(id: string)
      modifies this
      ensures images == old(images) - {id}
    {
      images := images - {id};
    }

    /** Some live image of this version, in whatever order the table is walked. */
    method GetByVersionAndType(version: string, typ: string) returns (e: Option<Existing>)
      ensures IsLookup(images, typ, version, e)
    {
      var todo := images.Keys;
      while todo != {}
        invariant todo <= images.Keys
        invariant forall k :: k in images && k !in todo && images[k].Live() ==> images[k].typ != typ || images[k].version != version
        decreases |todo|
      {
        var k :| k in todo;
        if images[k].typ == typ && images[k].version == version && images[k].Live() {
          return Some(Existing(k, images[k].isDefault));
        }
        todo := todo - {k};
      }
      e := None;
    }

    /** `SetDefault` with its error discarded. */
    method MarkDefault(id: string, w: Writes)
      modifies this
      ensures images == if w.mark then WithDefault(old(images), id) else old(images)
    {
      if w.mark {
        SetDefault(id);
      }
    }

    /**
     `looked`: the lookup answered, its error being discarded; `fileThere`: the found image has a path
     and the file exists; `built`: download, extraction and optimization succeed.
     */
    method ImagePull(id: string, typ: string, version: string, force: bool, setDefault: bool,
                     looked: bool, fileThere: bool, built: bool, w: Writes)
      returns (pulled: Option<string>, ghost e: Option<Existing>)
      modifies this
      ensures if looked then IsLookup(old(images), typ, version, e) else e == None
      ensures !force && e.Some? && fileThere ==>
        pulled == Some(e.value.id) && images == if setDefault && w.mark then WithDefault(old(images), e.value.id) else old(images)
      ensures !(!force && e.Some? && fileThere) && !built ==> pulled == None && images == old(images)
      ensures !(!force && e.Some? && fileThere) && built ==>
        pulled == Some(id) && images == AfterPull(old(images), id, typ, version, e, setDefault, false, w)
    {
      var existing := None;
      if looked {
        existing := GetByVersionAndType(version, typ);
      }
      e := existing;
      if !force && existing.Some? && fileThere {
        if setDefault {
          MarkDefault(existing.value.id, w);
        }
        return Some(existing.value.id), e;
      }
      if !built { return None, e; }
      Finish(id, typ, version, existing, setDefault, false, w);
      pulled := Some(id);
    }

    /** Like a pull, but an old image that no VM names (`unreferenced`) is deleted for good. */
    method ImageImport(id: string, typ: string, version: string, force: bool, setDefault: bool,
                       looked: bool, fileThere: bool, built: bool, unreferenced: bool, w: Writes)
      returns (imported: Option<string>, ghost e: Option<Existing>)
      modifies this
      ensures if looked then IsLookup(old(images), typ, version, e) else e == None
      ensures !force && e.Some? && fileThere ==>
        imported == Some(e.value.id) && images == if setDefault && w.mark then WithDefault(old(images), e.value.id) else old(images)
      ensures !(!force && e.Some? && fileThere) && !built ==> imported == None && images == old(images)
      ensures !(!force && e.Some? && fileThere) && built ==>
        imported == Some(id) && images == AfterPull(old(images), id, typ, version, e, setDefault, unreferenced, w)
    {
      var existing := None;
      if looked {
        existing := GetByVersionAndType(version, typ);
      }
      e := existing;
      if !force && existing.Some? && fileThere {
        if setDefault {
          MarkDefault(existing.value.id, w);
        }
        return Some(existing.value.id), e;
      }
      if !built { return None, e; }
      Finish(id, typ, version, existing, setDefault, unreferenced, w);
      imported := Some(id);
    }

    method Finish(id: string, typ: string, version: string, existing: Option<Existing>, setDefault: bool, hard: bool, w: Writes)
      modifies this
      ensures images == AfterPull(old(images), id, typ, version, existing, setDefault, hard, w)
    {
      if w.upsert {
        Upsert(id, NewItem(typ, version));
      }
      if setDefault {
        MarkDefault(id, w);
      } else if existing.Some? && existing.value.isDefault {
        MarkDefault(id, w);
      }
      if existing.Some? && existing.value.id != id && w.retire {
        if hard {
          Delete(existing.value.id);
        } else {
          SoftDelete(existing.value.id);
        }
      }
    }
  }

  class BinaryRepo {
    var binaries: Table

    constructor ()
      ensures binaries == map[]
    {
      binaries := map[];
    }

    /** Clears the default of this type's undeleted binaries, then sets the one asked for. */
    method SetDefault(typ: string, id: string)
      modifies this
      ensures binaries == WithTypeDefault(old(binaries), typ, id)
    {
      var todo := binaries.Keys;
      while todo != {}
        invariant binaries.Keys == old(binaries).Keys && todo <= binaries.Keys
        invariant forall k :: k in binaries ==>
          binaries[k] == if k in todo then old(binaries)[k] else Unset(old(binaries)[k], old(binaries)[k].typ == typ)
        decreases |todo|
      {
        var k :| k in todo;
        todo := todo - {k};
        if binaries[k].typ == typ && !binaries[k].deleted {
          binaries := binaries[k := binaries[k].(isDefault := false)];
        }
      }
      if id in binaries && !binaries[id].deleted {
        binaries := binaries[id := binaries[id].(isDefault := true)];
      }
    }

    /** The controller of a resolved binary passes the binary's own type, so one default per type is kept. */
    method SetOwnDefault(id: string)
      requires id in binaries && !binaries[id].deleted && OneDefaultPerType(binaries)
      modifies this
      ensures binaries == WithTypeDefault(old(binaries), old(binaries)[id].typ, id)
      ensures OneDefaultPerType(binaries) && id in DefaultIDs(binaries)
    {
      TypeDefaultSets(binaries, id);
      SetDefault(binaries[id].typ, id);
    }
  }
}
