/** The pull-based operators: what repeated calls of `next` answer, and the iterator objects that do so. */
module QueryOperators {
  import opened Options
  import opened Relations

  /** One answer of `next`: a tuple, the empty optional, or an exception. */
  datatype Reply = Row(tuple: Tuple) | End | Throw

  type Replies = seq<Reply>

  /** The state of a tree of operators. `Ordered` is a sort operator once it has filled and sorted its tuples. */
  datatype Plan =
    | Scan(rows: seq<Tuple>)
    | Limit(count: nat, child: Plan)
    | Selection(criteria: Criteria, child: Plan)
    | Projection(fieldNames: seq<string>, child: Plan)
    | Sort(column: string, order: SortOrder, child: Plan)
    | Ordered(rows: seq<Tuple>)

  // ---------------------------------------------------------------- all the answers, in order

  function Rows(rows: seq<Tuple>): (r: Replies)
    ensures |r| == |rows| && forall i :: 0 <= i < |rows| ==> r[i] == Row(rows[i])
  {
    seq(|rows|, i requires 0 <= i < |rows| => Row(rows[i]))
  }

  function SelectReplies(rs: Replies, c: Criteria): Replies
    decreases |rs|
  {
    if rs == [] then []
    else (if rs[0].Row? && !Matches(rs[0].tuple, c) then [] else [rs[0]]) + SelectReplies(rs[1..], c)
  }

  /** A tuple that projects to nothing is reported as the end. */
  function ProjectReply(r: Reply, names: seq<string>): Reply {
    if !r.Row? then r
    else if ProjectTuple(r.tuple, names) == [] then End
    else Row(ProjectTuple(r.tuple, names))
  }

  function ProjectReplies(rs: Replies, names: seq<string>): (r: Replies)
    ensures |r| == |rs| && forall i :: 0 <= i < |rs| ==> r[i] == ProjectReply(rs[i], names)
  {
    seq(|rs|, i requires 0 <= i < |rs| => ProjectReply(rs[i], names))
  }

  /** The tuples up to the first answer that is not one. */
  function Batch(rs: Replies): (rows: seq<Tuple>)
    ensures |rows| <= |rs| && forall i :: 0 <= i < |rows| ==> rs[i] == Row(rows[i])
    ensures |rows| < |rs| ==> !rs[|rows|].Row?
    decreases |rs|
  {
    if rs == [] || !rs[0].Row? then [] else [rs[0].tuple] + Batch(rs[1..])
  }

  lemma BatchOfCons(x: Tuple, rs: Replies)
    ensures Batch([Row(x)] + rs) == [x] + Batch(rs)
  {
    assert ([Row(x)] + rs)[1..] == rs;
  }

  lemma RowsFrom(rows: seq<Tuple>, i: nat)
    requires i < |rows|
    ensures Rows(rows[i..]) == [Row(rows[i])] + Rows(rows[i + 1..])
    ensures Rows(rows[i..]) != [] && Rows(rows[i..])[0] == Row(rows[i]) && Rows(rows[i..])[1..] == Rows(rows[i + 1..])
  {
  }

  lemma RowsOfCons(x: Tuple, ys: seq<Tuple>, rs: Replies)
    ensures Rows([x] + ys) + rs == [Row(x)] + (Rows(ys) + rs)
  {
  }

  lemma {:induction false} BatchBehind(rows: seq<Tuple>, rs: Replies)
    ensures Batch(Rows(rows) + rs) == rows + Batch(rs)
    decreases |rows|
  {
    hide Batch, Rows;
    if rows == [] {
      assert Rows(rows) + rs == rs && rows + Batch(rs) == Batch(rs);
    } else {
      var x, ys := rows[0], rows[1..];
      RowsOfCons(x, ys, rs);
      BatchOfCons(x, Rows(ys) + rs);
      BatchBehind(ys, rs);
      assert [x] + ys == rows;
      assert [x] + (ys + Batch(rs)) == rows + Batch(rs);
    }
  }

  lemma OneRowMore(rows: seq<Tuple>, rs: Replies)
    requires rs != [] && rs[0].Row?
    ensures Rows(rows) + rs == Rows(rows + [rs[0].tuple]) + rs[1..]
  {
  }

  lemma KeyIsMissing(rows: seq<Tuple>, rs: Replies, column: string)
    requires rs != [] && rs[0].Row? && !HasKey(rs[0].tuple, column)
    ensures !AllHaveKey(rows + Batch(rs), column)
  {
    assert (rows + Batch(rs))[|rows|] == rs[0].tuple;
  }

  lemma KeyIsThere(rows: seq<Tuple>, t: Tuple, column: string)
    requires AllHaveKey(rows, column) && HasKey(t, column)
    ensures AllHaveKey(rows + [t], column)
  {
  }

  lemma NoKeysNeeded(column: string)
    ensures AllHaveKey([], column)
  {
  }

  lemma BatchEnds(rows: seq<Tuple>, rs: Replies)
    requires rs == [] || !rs[0].Row?
    ensures rows + Batch(rs) == rows
    ensures rs != [] ==> (Rows(rows) + rs)[|rows|] == rs[0] && (Rows(rows) + rs)[|rows| + 1..] == rs[1..]
  {
  }

  /** A sort operator takes one batch, sorts it, and never asks its child again, unless the batch was empty. */
  function SortReplies(rs: Replies, column: string, order: SortOrder, sorter: Sorter): Replies
    decreases |rs|
  {
    var rows := Batch(rs);
    if !AllHaveKey(rows, column) || (|rows| < |rs| && rs[|rows|] == Throw) then [Throw]
    else if rows != [] then Rows(sorter(rows, column, order))
    else if rs == [] then []
    else [End] + SortReplies(rs[1..], column, order, sorter)
  }

  /** Every answer there will ever be; after the last one, and without an exception, only the end follows. */
  function Answers(p: Plan, sorter: Sorter): Replies {
    match p
    case Scan(rows) => Rows(rows)
    case Ordered(rows) => Rows(rows)
    case Limit(n, q) => var rs := Answers(q, sorter); if n < |rs| then rs[..n] else rs
    case Selection(c, q) => SelectReplies(Answers(q, sorter), c)
    case Projection(names, q) => ProjectReplies(Answers(q, sorter), names)
    case Sort(column, order, q) => SortReplies(Answers(q, sorter), column, order, sorter)
  }

  // ---------------------------------------------------------------- the relational meaning

  function Denote(p: Plan, sorter: Sorter): seq<Tuple> {
    match p
    case Scan(rows) => rows
    case Ordered(rows) => rows
    case Limit(n, q) => var rows := Denote(q, sorter); if n < |rows| then rows[..n] else rows
    case Selection(c, q) => Select(Denote(q, sorter), c)
    case Projection(names, q) => Project(Denote(q, sorter), names)
    case Sort(column, order, q) => sorter(Denote(q, sorter), column, order)
  }

  predicate NoneEmpty(rows: seq<Tuple>, names: seq<string>) {
    forall i :: 0 <= i < |rows| ==> ProjectTuple(rows[i], names) != []
  }

  /** Sort keys exist and no projected tuple is empty, everywhere in the tree. */
  predicate Proper(p: Plan, sorter: Sorter) {
    match p
    case Scan(_) => true
    case Ordered(_) => true
    case Limit(_, q) => Proper(q, sorter)
    case Selection(_, q) => Proper(q, sorter)
    case Projection(names, q) => Proper(q, sorter) && NoneEmpty(Denote(q, sorter), names)
    case Sort(column, _, q) => Proper(q, sorter) && AllHaveKey(Denote(q, sorter), column)
  }

  lemma {:induction false} BatchOfRows(rows: seq<Tuple>)
    ensures Batch(Rows(rows)) == rows
    decreases |rows|
  {
    if rows != [] {
      assert Rows(rows)[1..] == Rows(rows[1..]);
      BatchOfRows(rows[1..]);
    }
  }

  lemma {:induction false} SelectOfRows(rows: seq<Tuple>, c: Criteria)
    ensures SelectReplies(Rows(rows), c) == Rows(Select(rows, c))
    decreases |rows|
  {
    if rows != [] {
      assert Rows(rows)[1..] == Rows(rows[1..]);
      SelectOfRows(rows[1..], c);
      var more := Select(rows[1..], c);
      assert Rows([rows[0]] + more) == [Row(rows[0])] + Rows(more);
      assert [] + more == more && [] + Rows(more) == Rows(more);
    }
  }

  /** A sort answers with the sorted tuples exactly when every tuple has the key, and else throws at once. */
  lemma SortOfRows(rows: seq<Tuple>, column: string, order: SortOrder, sorter: Sorter)
    requires sorter([], column, order) == []
    ensures SortReplies(Rows(rows), column, order, sorter) ==
            if AllHaveKey(rows, column) then Rows(sorter(rows, column, order)) else [Throw]
  {
    BatchOfRows(rows);
  }

  /** A projection answers with the projected tuples exactly when none of them is empty. */
  lemma ProjectOfRows(rows: seq<Tuple>, names: seq<string>)
    ensures ProjectReplies(Rows(rows), names) == Rows(Project(rows, names)) <==> NoneEmpty(rows, names)
  {
    var got, want := ProjectReplies(Rows(rows), names), Rows(Project(rows, names));
    if !NoneEmpty(rows, names) {
      var i :| 0 <= i < |rows| && ProjectTuple(rows[i], names) == [];
      assert got[i] == End && want[i].Row?;
    }
  }

  lemma SorterKeepsLength(sorter: Sorter, rows: seq<Tuple>, column: string, order: SortOrder)
    requires IsSorter(sorter) && AllHaveKey(rows, column)
    ensures |sorter(rows, column, order)| == |rows|
  {
    var s := sorter(rows, column, order);
    assert |s| == |multiset(s)| == |multiset(rows)| == |rows|;
  }

  lemma SorterKeepsEmpty(sorter: Sorter, column: string, order: SortOrder)
    requires IsSorter(sorter)
    ensures sorter([], column, order) == []
  {
    assert AllHaveKey([], column);
    SorterKeepsLength(sorter, [], column, order);
  }

  /** Any proper tree of operators answers exactly its relational meaning. */
  lemma {:induction false} AnswersAreDenotation(p: Plan, sorter: Sorter)
    requires IsSorter(sorter) && Proper(p, sorter)
    ensures Answers(p, sorter) == Rows(Denote(p, sorter))
  {
    match p {
      case Scan(_) =>
      case Ordered(_) =>
      case Limit(n, q) =>
        AnswersAreDenotation(q, sorter);
      case Selection(c, q) =>
        AnswersAreDenotation(q, sorter);
        SelectOfRows(Denote(q, sorter), c);
      case Projection(names, q) =>
        AnswersAreDenotation(q, sorter);
        ProjectOfRows(Denote(q, sorter), names);
      case Sort(column, order, q) =>
        AnswersAreDenotation(q, sorter);
        SorterKeepsEmpty(sorter, column, order);
        SortOfRows(Denote(q, sorter), column, order, sorter);
    }
  }

  /** Both tuples have the column, and their keys, which are the last fields of that name, are equal or in the order
      asked for. */
  ghost predicate InKeyOrder(t: Tuple, u: Tuple, column: string, order: SortOrder) {
    exists i: nat, j: nat :: LastNamed(t, column, i) && LastNamed(u, column, j) &&
      (|| t[i].data == u[j].data
       || (order == Ascending && Precedes(t[i].data, u[j].data))
       || (order == Descending && Precedes(u[j].data, t[i].data)))
  }

  lemma NotBeforeIsInOrder(t: Tuple, u: Tuple, column: string, order: SortOrder)
    requires HasKey(t, column) && HasKey(u, column) && !Before(u, t, column, order)
    ensures InKeyOrder(t, u, column, order)
  {
    var x, y := Key(t, column).value, Key(u, column).value;
    KeyIff(t, column, x);
    KeyIff(u, column, y);
    ValueOrder(x, y, x);
    ValueLessMeans(x, y);
    ValueLessMeans(y, x);
    hide ValueLess, Precedes, Key, LastNamed;
    var i: nat :| LastNamed(t, column, i) && t[i].data == x;
    var j: nat :| LastNamed(u, column, j) && u[j].data == y;
  }

  /** A sort answers with the tuples of its child, each as often as it was there, and their keys never decrease in an
      ascending sort and never increase in a descending one: integers by size, then doubles by size, then texts. */
  lemma SortAnswersInOrder(q: Plan, column: string, order: SortOrder, sorter: Sorter)
    requires IsSorter(sorter) && Proper(Sort(column, order, q), sorter)
    ensures var rs := Answers(Sort(column, order, q), sorter);
            && (forall i :: 0 <= i < |rs| ==> rs[i].Row?)
            && multiset(Batch(rs)) == multiset(Denote(q, sorter))
            && forall i, j :: 0 <= i < j < |rs| ==> InKeyOrder(rs[i].tuple, rs[j].tuple, column, order)
  {
    AnswersAreDenotation(Sort(column, order, q), sorter);
    var sorted := sorter(Denote(q, sorter), column, order);
    assert SortedPermutation(Denote(q, sorter), sorted, column, order);
    BatchOfRows(sorted);
    hide IsSorter, Answers, Batch, Before, InKeyOrder;
    forall i, j | 0 <= i < j < |sorted| ensures InKeyOrder(sorted[i], sorted[j], column, order) {
      NotBeforeIsInOrder(sorted[i], sorted[j], column, order);
    }
  }

  // ---------------------------------------------------------------- the loops over the fields of one tuple

  method SelectionMatches(t: Tuple, c: Criteria) returns (matches: bool)
    ensures matches == Matches(t, c)
  {
    for i := 0 to |t|
      invariant Matches(t, c) == Matches(t[i..], c)
    {
      if t[i].name == c.fieldName {
        return Compares(t[i].data, c);
      }
      assert t[i..][1..] == t[i + 1..];
    }
    return false;
  }

  /** Later fields of the name take over from earlier ones. */
  method SortKey(t: Tuple, column: string) returns (field: Option<Value>)
    ensures field == Key(t, column) && (field.Some? <==> HasKey(t, column))
  {
    field := None;
    for i := 0 to |t|
      invariant Key(t, column) == if Key(t[i..], column).Some? then Key(t[i..], column) else field
    {
      assert t[i..][1..] == t[i + 1..];
      if t[i].name == column {
        field := Some(t[i].data);
      }
    }
  }

  // ---------------------------------------------------------------- the iterator objects

  datatype Kind =
    | KScan
    | KLimit
    | KSelection(criteria: Criteria)
    | KProjection(fieldNames: seq<string>)
    | KSort(column: string, order: SortOrder)

  /** One class for the five iterators: `kind` says which, and `Next` dispatches on it as the virtual call does. */
  class Iterator {
    const kind: Kind
    const child: Iterator?
    const sorter: Sorter
    var tuples: seq<Tuple>      // d_tuples of scan and sort
    var current: nat            // d_currentTuple of scan, d_currentRecord of sort
    var limit: nat              // d_limit
    ghost var Repr: set<Iterator>

    ghost predicate Valid()
      reads this, Repr
      decreases Repr
    {
      && this in Repr && current <= |tuples| && IsSorter(sorter)
      && (kind.KScan? <==> child == null)
      && (child != null ==>
            child in Repr && child.Repr < Repr && this !in child.Repr && child.Valid() && child.sorter == sorter)
    }

    ghost function State(): Plan
      requires Valid()
      reads this, Repr
      decreases Repr
    {
      match kind
      case KScan => Plan.Scan(tuples[current..])
      case KLimit => Limit(limit, child.State())
      case KSelection(c) => Selection(c, child.State())
      case KProjection(names) => Projection(names, child.State())
      case KSort(column, order) =>
        if tuples == [] then Sort(column, order, child.State()) else Ordered(tuples[current..])
    }

    ghost function Pending(): Replies
      requires Valid()
      reads this, Repr
    {
      Answers(State(), sorter)
    }

    constructor OfTuples(tuples: seq<Tuple>, sorter: Sorter)
      requires IsSorter(sorter)
      ensures Valid() && fresh(Repr) && State() == Plan.Scan(tuples) && this.sorter == sorter
    {
      kind, child, this.sorter := KScan, null, sorter;
      this.tuples, current, limit := tuples, 0, 0;
      Repr := {this};
    }

    constructor Over(kind: Kind, limit: nat, child: Iterator)
      requires child.Valid() && !kind.KScan?
      ensures Valid() && fresh(Repr - child.Repr) && sorter == child.sorter
      ensures State() == match kind
                         case KScan => Plan.Scan([])
                         case KLimit => Limit(limit, child.State())
                         case KSelection(c) => Selection(c, child.State())
                         case KProjection(names) => Projection(names, child.State())
                         case KSort(column, order) => Sort(column, order, child.State())
    {
      this.kind, this.child, sorter := kind, child, child.sorter;
      tuples, current, this.limit := [], 0, limit;
      Repr := {this} + child.Repr;
    }

    /** `r` is the first of the answers that were pending, and the others still are; nothing more is said after
        an exception. */
    ghost predicate Owes(pending: Replies, r: Reply)
      reads this, Repr
    {
      if pending == [] then r == End && Valid() && Pending() == []
      else r == pending[0] && (r != Throw ==> Valid() && Pending() == pending[1..])
    }

    method Next() returns (r: Reply)
      requires Valid()
      modifies Repr
      ensures Repr == old(Repr) && Owes(old(Pending()), r)
      decreases Repr, 3
    {
      match kind {
        case KScan => r := ScanNext();
        case KLimit => r := LimitNext();
        case KSelection(_) => r := SelectionNext();
        case KProjection(_) => r := ProjectionNext();
        case KSort(_, _) => r := SortNext();
      }
    }

    method ScanNext() returns (r: Reply)
      requires Valid() && kind.KScan?
      modifies Repr
      ensures Repr == old(Repr) && Owes(old(Pending()), r)
    {
      if current == |tuples| {
        return End;
      }
      r := Row(tuples[current]);
      current := current + 1;
      assert old(tuples[current..])[1..] == tuples[current..];
      assert Rows(old(tuples[current..]))[1..] == Rows(tuples[current..]);
    }

    method LimitNext() returns (r: Reply)
      requires Valid() && kind.KLimit?
      modifies Repr
      ensures Repr == old(Repr) && Owes(old(Pending()), r)
      decreases Repr, 0
    {
      if limit > 0 {
        limit := limit - 1;
        r := child.Next();
        return;
      }
      return End;
    }

    method SelectionNext() returns (r: Reply)
      requires Valid() && kind.KSelection?
      modifies Repr
      ensures Repr == old(Repr) && Owes(old(Pending()), r)
      decreases Repr, 0
    {
      ghost var pending, before := Pending(), child.Pending();
      r := child.Next();
      while r.Row?
        invariant unchanged(this) && child.Repr == old(child.Repr) && child.Owes(before, r)
        invariant pending == SelectReplies(before, kind.criteria)
        decreases |before|
      {
        var matches := SelectionMatches(r.tuple, kind.criteria);
        if matches {
          return;
        }
        before := child.Pending();
        r := child.Next();
      }
    }

    method ProjectionNext() returns (r: Reply)
      requires Valid() && kind.KProjection?
      modifies Repr
      ensures Repr == old(Repr) && Owes(old(Pending()), r)
      decreases Repr, 0
    {
      hide IsSorter, Matches, Key, Batch;
      ghost var before := child.Pending();
      var nextTuple := child.Next();
      assert before != [] ==>
        ProjectReplies(before, kind.fieldNames)[1..] == ProjectReplies(before[1..], kind.fieldNames);
      if nextTuple.Row? {
        var projectedFields := [];
        for i := 0 to |kind.fieldNames|
          invariant projectedFields + ProjectTuple(nextTuple.tuple, kind.fieldNames[i..]) ==
                    ProjectTuple(nextTuple.tuple, kind.fieldNames)
        {
          assert kind.fieldNames[i..][1..] == kind.fieldNames[i + 1..];
          projectedFields := projectedFields + Named(nextTuple.tuple, kind.fieldNames[i]);
        }
        return if projectedFields != [] then Row(projectedFields) else End;
      }
      return nextTuple;
    }

    /** The first half of sort's `next`: one batch of tuples from the child, each with its sort key. */
    method Fill() returns (r: Reply)
      requires Valid() && kind.KSort? && tuples == []
      modifies Repr
      ensures Repr == old(Repr)
      ensures var pending, rows := old(child.Pending()), Batch(old(child.Pending()));
              if AllHaveKey(rows, kind.column) && (|rows| < |pending| ==> pending[|rows|] != Throw) then
                r == End && Valid() && tuples == rows
                && child.Pending() == if |rows| < |pending| then pending[|rows| + 1..] else []
              else r == Throw
      decreases Repr, 0
    {
      hide IsSorter, Answers, Iterator.State, Iterator.Pending, Key, HasKey, AllHaveKey, Batch, Rows;
      NoKeysNeeded(kind.column);
      ghost var pending, before := child.Pending(), child.Pending();
      var reply := child.Next();
      while reply.Row?
        invariant current == old(current) && Repr == old(Repr) && child.Repr == old(child.Repr)
        invariant child.Owes(before, reply)
        invariant pending == Rows(tuples) + before && AllHaveKey(tuples, kind.column)
        decreases |before|
      {
        var sortKey := SortKey(reply.tuple, kind.column);
        if sortKey.None? {
          BatchBehind(tuples, before);
          KeyIsMissing(tuples, before, kind.column);
          return Throw;
        }
        OneRowMore(tuples, before);
        KeyIsThere(tuples, reply.tuple, kind.column);
        tuples := tuples + [reply.tuple];
        before := child.Pending();
        reply := child.Next();
      }
      BatchBehind(tuples, before);
      BatchEnds(tuples, before);
      return reply;
    }

    /** The first half of sort's `next`: fill and sort, which leaves the pending answers as they are; an exception
        or an empty batch is the answer at once. */
    method FillAndSort() returns (r: Option<Reply>)
      requires Valid() && kind.KSort? && tuples == []
      modifies Repr
      ensures Repr == old(Repr)
      ensures match r
              case Some(reply) => Owes(old(Pending()), reply)
              case None => Valid() && tuples != [] && Pending() == old(Pending())
      decreases Repr, 1
    {
      hide IsSorter, Key, HasKey, Batch, Rows;
      ghost var pending := child.Pending();
      var filled := Fill();
      if filled == Throw {
        return Some(Throw);
      }
      if |tuples| == 0 {
        return Some(End);
      }
      SorterKeepsLength(sorter, tuples, kind.column, kind.order);
      tuples := sorter(tuples, kind.column, kind.order);
      current := 0;
      assert tuples[current..] == tuples;
      return None;
    }

    /** The second half: the tuples that are left, one by one. */
    method NextSorted() returns (r: Reply)
      requires Valid() && kind.KSort? && tuples != []
      modifies Repr
      ensures Repr == old(Repr) && Owes(old(Pending()), r)
    {
      hide IsSorter, Rows;
      if current != |tuples| {
        r := Row(tuples[current]);
        RowsFrom(tuples, current);
        current := current + 1;
        return;
      }
      return End;
    }

    method SortNext() returns (r: Reply)
      requires Valid() && kind.KSort?
      modifies Repr
      ensures Repr == old(Repr) && Owes(old(Pending()), r)
      decreases Repr, 2
    {
      hide IsSorter, Iterator.State, Iterator.Pending;
      if |tuples| == 0 {
        var answer := FillAndSort();
        if answer.Some? {
          return answer.value;
        }
      }
      r := NextSorted();
    }
  }

  /** Pulling until the first answer that is not a tuple: for a proper tree that is the whole relation, and
      nothing comes after it, however often `next` is called again. */
  method Drain(it: Iterator) returns (rows: seq<Tuple>, last: Reply)
    requires it.Valid()
    modifies it.Repr
    ensures rows == Batch(old(it.Pending()))
    ensures last == Throw <==> |rows| < |old(it.Pending())| && old(it.Pending())[|rows|] == Throw
    ensures old(Proper(it.State(), it.sorter)) ==>
              rows == old(Denote(it.State(), it.sorter)) && last == End && it.Valid() && it.Pending() == []
  {
    ghost var pending, before := it.Pending(), it.Pending();
    if Proper(it.State(), it.sorter) {
      AnswersAreDenotation(it.State(), it.sorter);
      BatchOfRows(Denote(it.State(), it.sorter));
    }
    hide Answers, Batch, Rows, Iterator.Pending, Iterator.State, IsSorter, Denote, Proper;
    rows := [];
    last := it.Next();
    assert Rows([]) + before == before;
    while last.Row?
      invariant it.Repr == old(it.Repr) && it.Owes(before, last)
      invariant pending == Rows(rows) + before
      decreases |before|
    {
      OneRowMore(rows, before);
      rows := rows + [last.tuple];
      before := it.Pending();
      last := it.Next();
    }
    BatchBehind(rows, before);
    BatchEnds(rows, before);
  }
}
