/** The key-value store of level2db, backed by an ordered map or by the skip list. */
module Databases {
  import opened Options
  import opened SkipListShape
  import opened SkipLists
  import opened Lexicographic

  type ByteString = string

  lemma LexIsStrictTotalOrder()
    ensures StrictTotalOrder(LexLess)
  {
    forall a ensures !LexLess(a, a) { LexTotal(a, a); }
    forall a, b ensures LexLess(a, b) || a == b || LexLess(b, a) { LexTotal(a, b); }
    forall a, b, c | LexLess(a, b) && LexLess(b, c) ensures LexLess(a, c) { LexTransitive(a, b, c); }
  }

  datatype Op =
    | Get(key: ByteString)
    | Has(key: ByteString)
    | Put(key: ByteString, value: ByteString)
    | Delete(key: ByteString)

  /** `Undefined` stands for erasing the end iterator, which has no defined effect. */
  datatype Answer = Value(value: ByteString) | KeyNotFound | Found(found: bool) | Done | Undefined

  type Entries = seq<Entry<ByteString, ByteString>>

  /** One operation in map mode. */
  function MapStep(m: map<ByteString, ByteString>, op: Op): (map<ByteString, ByteString>, Answer) {
    match op
    case Get(k) => (m, if k in m then Value(m[k]) else KeyNotFound)
    case Has(k) => (m, Found(k in m))
    case Put(k, v) => (m[k := v], Done)
    case Delete(k) => (m - {k}, if k in m then Done else KeyNotFound)
  }

  /** One operation in skip-list mode; `level` is the height an inserted node draws. */
  ghost function ListStep(es: Entries, op: Op, level: nat): (Entries, Answer) {
    match op
    case Get(k) =>
      (es, match FindEntry(es, k, LexLess) case Some(v) => Value(v) case None => KeyNotFound)
    case Has(k) => (es, Found(FindEntry(es, k, LexLess).Some?))
    case Put(k, v) => (InsertEntry(es, Entry(k, v, level), LexLess), Done)
    case Delete(k) => (RemoveEntry(es, k, LexLess), if HasKey(es, k) then Done else Undefined)
  }

  class Database {
    const useSkipList: bool
    var keyValueStore: map<ByteString, ByteString>
    const skipListKVStore: SkipList<ByteString, ByteString>

    ghost predicate Valid()
      reads this, skipListKVStore, skipListKVStore.Repr
    {
      && skipListKVStore.Valid() && skipListKVStore.less == LexLess
      && this !in skipListKVStore.Repr
    }

    ghost function Entries(): Entries
      requires Valid()
      reads this, skipListKVStore, skipListKVStore.Repr
    {
      skipListKVStore.Entries()
    }

    /** `answer` and the new state are what the chosen backend's step gives for `op`. */
    twostate predicate Stepped(op: Op, level: nat, answer: Answer)
      requires old(Valid()) && Valid()
      reads this, skipListKVStore, skipListKVStore.Repr
    {
      if useSkipList then
        (Entries(), answer) == ListStep(old(Entries()), op, level) && keyValueStore == old(keyValueStore)
      else
        (keyValueStore, answer) == MapStep(old(keyValueStore), op) && Entries() == old(Entries())
    }

    constructor (useSkipList: bool)
      ensures Valid() && this.useSkipList == useSkipList && fresh(skipListKVStore.Repr)
      ensures keyValueStore == map[] && Entries() == []
    {
      LexIsStrictTotalOrder();
      this.useSkipList := useSkipList;
      keyValueStore := map[];
      skipListKVStore := new SkipList(LexLess, "", "", null);
    }

    method Get(key: ByteString) returns (answer: Answer)
      requires Valid()
      ensures Stepped(Op.Get(key), 0, answer)
    {
      if useSkipList {
        var targetValue, _ := skipListKVStore.Find(key);
        return match targetValue case None => KeyNotFound case Some(v) => Value(v);
      }
      if key !in keyValueStore {
        return KeyNotFound;
      }
      return Value(keyValueStore[key]);
    }

    method Has(key: ByteString) returns (answer: bool)
      requires Valid()
      ensures Stepped(Op.Has(key), 0, Found(answer))
    {
      if useSkipList {
        var targetValue, _ := skipListKVStore.Find(key);
        return targetValue != None;
      }
      return key in keyValueStore;
    }

    method Put(key: ByteString, value: ByteString) returns (answer: Answer, ghost level: nat)
      requires Valid()
      modifies this, skipListKVStore.Repr
      ensures Valid() && fresh(skipListKVStore.Repr - old(skipListKVStore.Repr))
      ensures Stepped(Op.Put(key, value), level, answer)
    {
      level := 0;
      if useSkipList {
        level := skipListKVStore.Insert(key, value);
        return Done, level;
      }
      keyValueStore := keyValueStore[key := value];
      return Done, level;
    }

    method Delete(key: ByteString) returns (answer: Answer)
      requires Valid()
      modifies this, skipListKVStore.Repr
      ensures Valid() && skipListKVStore.Repr == old(skipListKVStore.Repr)
      ensures Stepped(Op.Delete(key), 0, answer)
    {
      hide RemoveEntry, FindEntry, InsertEntry, HasKey, LexLess;
      if useSkipList {
        var removed := skipListKVStore.Remove(key);
        return if removed then Done else Undefined;
      }
      var keysErased := if key in keyValueStore then 1 else 0;
      keyValueStore := keyValueStore - {key};
      if keysErased == 0 {
        return KeyNotFound;
      }
      return Done;
    }
  }

  /** One operation on a database, by name. */
  method Perform(db: Database, op: Op) returns (answer: Answer, ghost level: nat)
    requires db.Valid()
    modifies db, db.skipListKVStore.Repr
    ensures db.Valid() && fresh(db.skipListKVStore.Repr - old(db.skipListKVStore.Repr))
    ensures db.Stepped(op, level, answer)
  {
    hide ListStep, MapStep;
    level := 0;
    match op {
      case Get(key) =>
        answer := db.Get(key);
      case Has(key) =>
        var found := db.Has(key);
        answer := Found(found);
      case Put(key, value) =>
        answer, level := db.Put(key, value);
      case Delete(key) =>
        answer := db.Delete(key);
    }
  }

  // ---------------------------------------------------------------- both backends on whole runs

  /** Put only absent keys, delete only present ones. */
  predicate Disciplined(m: map<ByteString, ByteString>, op: Op) {
    match op
    case Put(k, _) => k !in m
    case Delete(k) => k in m
    case _ => true
  }

  predicate DisciplinedRun(m: map<ByteString, ByteString>, ops: seq<Op>)
    decreases |ops|
  {
    ops == [] || (Disciplined(m, ops[0]) && DisciplinedRun(MapStep(m, ops[0]).0, ops[1..]))
  }

  function MapRun(m: map<ByteString, ByteString>, ops: seq<Op>): seq<Answer>
    decreases |ops|
  {
    if ops == [] then [] else
    var (now, answer) := MapStep(m, ops[0]);
    [answer] + MapRun(now, ops[1..])
  }

  ghost function ListRun(es: Entries, ops: seq<Op>, levels: seq<nat>): seq<Answer>
    requires |levels| == |ops|
    decreases |ops|
  {
    if ops == [] then [] else
    var (now, answer) := ListStep(es, ops[0], levels[0]);
    [answer] + ListRun(now, ops[1..], levels[1..])
  }

  /** The answers of a database to a run of operations are those of its backend. */
  method PerformAll(db: Database, ops: seq<Op>) returns (answers: seq<Answer>, ghost levels: seq<nat>)
    requires db.Valid()
    modifies db, db.skipListKVStore.Repr
    ensures db.Valid() && fresh(db.skipListKVStore.Repr - old(db.skipListKVStore.Repr))
    ensures |levels| == |ops|
    ensures answers == if db.useSkipList then ListRun(old(db.Entries()), ops, levels)
                       else MapRun(old(db.keyValueStore), ops)
    decreases |ops|
  {
    if ops == [] {
      return [], [];
    }
    ghost var es, m := db.Entries(), db.keyValueStore;
    var answer, rest;
    ghost var level, later;
    answer, level := Perform(db, ops[0]);
    rest, later := PerformAll(db, ops[1..]);
    answers, levels := [answer] + rest, [level] + later;
    assert levels[1..] == later;
    hide ListStep, MapStep;
  }

  // ---------------------------------------------------------------- answers from the history

  predicate Touches(op: Op, k: ByteString) {
    (op.Put? || op.Delete?) && op.key == k
  }

  ghost predicate NoneTouches(ops: seq<Op>, start: nat, end: nat, k: ByteString)
    requires end <= |ops|
  {
    forall j :: start <= j < end ==> !Touches(ops[j], k)
  }

  /** In front of operation `i`, the latest put or delete of `k` was a put of `v`, or there was none and `v` was bound
      to it at the start. */
  ghost predicate LastPut(m: map<ByteString, ByteString>, ops: seq<Op>, i: nat, k: ByteString, v: ByteString)
    requires i <= |ops|
  {
    || (NoneTouches(ops, 0, i, k) && k in m && m[k] == v)
    || (exists j :: 0 <= j < i && ops[j] == Put(k, v) && NoneTouches(ops, j + 1, i, k))
  }

  /** The map in front of operation `i`. */
  function MapAfter(m: map<ByteString, ByteString>, ops: seq<Op>, i: nat): map<ByteString, ByteString>
    requires i <= |ops|
  {
    if i == 0 then m else MapStep(MapAfter(m, ops, i - 1), ops[i - 1]).0
  }

  lemma {:induction false} MapHolds(m: map<ByteString, ByteString>, ops: seq<Op>, i: nat, k: ByteString, v: ByteString)
    requires i <= |ops|
    ensures LastPut(m, ops, i, k, v) <==> k in MapAfter(m, ops, i) && MapAfter(m, ops, i)[k] == v
  {
    if i > 0 {
      MapHolds(m, ops, i - 1, k, v);
      if !Touches(ops[i - 1], k) {
        assert forall j :: 0 <= j < i ==> (NoneTouches(ops, j, i, k) <==> NoneTouches(ops, j, i - 1, k));
      } else if ops[i - 1] == Put(k, v) {
        assert NoneTouches(ops, i, i, k);
      }
    }
  }

  lemma {:induction false} MapAfterFirst(m: map<ByteString, ByteString>, ops: seq<Op>, i: nat)
    requires 0 < i <= |ops|
    ensures MapAfter(m, ops, i) == MapAfter(MapStep(m, ops[0]).0, ops[1..], i - 1)
  {
    hide MapStep;
    if i > 1 {
      MapAfterFirst(m, ops, i - 1);
    }
  }

  lemma {:induction false} MapRunAt(m: map<ByteString, ByteString>, ops: seq<Op>, i: nat)
    requires i < |ops|
    ensures |MapRun(m, ops)| == |ops| && MapRun(m, ops)[i] == MapStep(MapAfter(m, ops, i), ops[i]).1
    decreases |ops|
  {
    hide MapStep;
    if i > 0 {
      MapAfterFirst(m, ops, i);
      MapRunAt(MapStep(m, ops[0]).0, ops[1..], i - 1);
    } else if |ops| > 1 {
      MapRunAt(MapStep(m, ops[0]).0, ops[1..], 0);
    }
  }

  /** What a client of the map sees, on every run: a get answers the value last put, unless it was deleted since; a
      delete is done exactly when there is such a value. */
  lemma MapAnswersHistory(m: map<ByteString, ByteString>, ops: seq<Op>, i: nat, v: ByteString)
    requires i < |ops|
    ensures |MapRun(m, ops)| == |ops|
    ensures var k, answer := ops[i].key, MapRun(m, ops)[i];
            match ops[i]
            case Put(_, _) => answer == Done
            case Get(_) =>
              (answer == Value(v) <==> LastPut(m, ops, i, k, v)) && (answer.Value? || answer == KeyNotFound)
            case Has(_) => answer == Found(exists w :: LastPut(m, ops, i, k, w))
            case Delete(_) => answer == if exists w :: LastPut(m, ops, i, k, w) then Done else KeyNotFound
  {
    MapRunAt(m, ops, i);
    var k, now := ops[i].key, MapAfter(m, ops, i);
    forall w ensures LastPut(m, ops, i, k, w) <==> k in now && now[k] == w {
      MapHolds(m, ops, i, k, w);
    }
    hide LastPut, MapRun, MapAfter;
    assert k in now ==> LastPut(m, ops, i, k, now[k]);
  }

  // ---------------------------------------------------------------- where both backends agree

  ghost predicate Wellformed(es: Entries) {
    Sorted(es, LexLess) && DistinctKeys(es)
  }

  lemma {:induction false} StepAgreement(es: Entries, op: Op, level: nat)
    requires Wellformed(es) && Disciplined(ToMap(es), op)
    ensures Wellformed(ListStep(es, op, level).0)
    ensures (ToMap(ListStep(es, op, level).0), ListStep(es, op, level).1) == MapStep(ToMap(es), op)
  {
    LexIsStrictTotalOrder();
    var k := op.key;
    FindRefinesMap(es, k, LexLess);
    ToMapBinds(es, k);
    match op {
      case Get(_) =>
      case Has(_) =>
      case Put(_, v) =>
        InsertKeepsSorted(es, Entry(k, v, level), LexLess);
        InsertRefinesMap(es, Entry(k, v, level), LexLess);
      case Delete(_) =>
        RemoveRefinesMap(es, k, LexLess);
        RemoveKeepsSorted(es, LowerBound(es, k, LexLess), LexLess);
    }
  }

  /** On every disciplined run, and however tall the nodes turn out, both backends give the same answers. */
  lemma {:induction false} BackendAgreement(es: Entries, ops: seq<Op>, levels: seq<nat>)
    requires |levels| == |ops|
    requires Wellformed(es) && DisciplinedRun(ToMap(es), ops)
    ensures ListRun(es, ops, levels) == MapRun(ToMap(es), ops)
    decreases |ops|
  {
    if ops != [] {
      StepAgreement(es, ops[0], levels[0]);
      BackendAgreement(ListStep(es, ops[0], levels[0]).0, ops[1..], levels[1..]);
    }
  }

  /** Two databases, one in each mode, that hold the same bindings: every disciplined run gets the same answers. */
  method BothAnswerAlike(list: Database, tree: Database, ops: seq<Op>) returns (a: seq<Answer>, b: seq<Answer>)
    requires list.Valid() && tree.Valid() && list.useSkipList && !tree.useSkipList
    requires list != tree && list.skipListKVStore.Repr !! tree.skipListKVStore.Repr
    requires list !in tree.skipListKVStore.Repr && tree !in list.skipListKVStore.Repr
    requires Wellformed(list.Entries()) && ToMap(list.Entries()) == tree.keyValueStore
    requires DisciplinedRun(tree.keyValueStore, ops)
    modifies list, tree, list.skipListKVStore.Repr, tree.skipListKVStore.Repr
    ensures a == b
  {
    hide Wellformed, DisciplinedRun, ToMap;
    ghost var es := list.Entries();
    ghost var levels, unused;
    a, levels := PerformAll(list, ops);
    b, unused := PerformAll(tree, ops);
    BackendAgreement(es, ops, levels);
  }

  /** Without the discipline: a put and a get of the same key agree exactly when the key was absent, or the
      new node is no shorter than the old one, or the value did not change. */
  lemma {:induction false} PutThenGetAgreesIff(es: Entries, k: ByteString, v: ByteString, level: nat)
    requires Wellformed(es)
    ensures ListRun(es, [Put(k, v), Get(k)], [level, 0]) == MapRun(ToMap(es), [Put(k, v), Get(k)]) <==>
            forall i :: 0 <= i < |es| && es[i].key == k ==> es[i].level <= level || es[i].value == v
  {
    LexIsStrictTotalOrder();
    var e := Entry(k, v, level);
    var now := InsertEntry(es, e, LexLess);
    TwoSteps(es, ToMap(es), Put(k, v), Get(k), level);
    if HasKey(es, k) {
      var i :| 0 <= i < |es| && es[i].key == k;
      FindAfterSecondInsert(es, e, LexLess, i);
    } else {
      InsertKeepsSorted(es, e, LexLess);
      InsertRefinesMap(es, e, LexLess);
      FindRefinesMap(now, k, LexLess);
    }
  }

  /** Without the discipline: deleting agrees exactly on the keys that are there. */
  lemma {:induction false} DeleteAgreesIff(es: Entries, k: ByteString)
    requires Wellformed(es)
    ensures ListStep(es, Delete(k), 0).1 == MapStep(ToMap(es), Delete(k)).1 <==> k in ToMap(es)
  {
    ToMapBinds(es, k);
  }

  /** A second put followed by a delete brings the first value back in skip-list mode, whatever the levels. */
  lemma DeleteRevivesOverwrittenValue(es: Entries, k: ByteString, v: ByteString, level: nat)
    requires Wellformed(es) && k in ToMap(es)
    ensures ListStep(ListStep(ListStep(es, Put(k, v), level).0, Delete(k), 0).0, Get(k), 0).1 == Value(ToMap(es)[k])
    ensures MapStep(MapStep(MapStep(ToMap(es), Put(k, v)).0, Delete(k)).0, Get(k)).1 == KeyNotFound
  {
    hide ToMap, LexLess, InsertEntry, RemoveEntry, FindEntry;
    LexIsStrictTotalOrder();
    RemoveUndoesInsert(es, Entry(k, v, level), LexLess);
    FindRefinesMap(es, k, LexLess);
  }

  lemma TwoSteps(es: Entries, m: map<ByteString, ByteString>, a: Op, b: Op, level: nat)
    ensures ListRun(es, [a, b], [level, 0]) == [ListStep(es, a, level).1, ListStep(ListStep(es, a, level).0, b, 0).1]
    ensures MapRun(m, [a, b]) == [MapStep(m, a).1, MapStep(MapStep(m, a).0, b).1]
  {
    assert [a, b][1..] == [b] && [level, 0][1..] == [0];
    var es1, m1 := ListStep(es, a, level).0, MapStep(m, a).0;
    assert ListRun(es1, [b], [0]) == [ListStep(es1, b, 0).1];
    assert MapRun(m1, [b]) == [MapStep(m1, b).1];
  }
}
