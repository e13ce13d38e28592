/** Rewrites of operator trees, judged by the answers the iterators give. */
module PlanRewrites {
  import opened Relations
  import opened QueryOperators
  import opened QueryRewrites

  // ---------------------------------------------------------------- selection and projection

  /** The answers of a selection over a projection over a child with the answers `rs`. */
  function ProjectFirst(rs: Replies, names: seq<string>, c: Criteria): Replies {
    SelectReplies(ProjectReplies(rs, names), c)
  }

  /** The answers of a projection over a selection over the same child. */
  function SelectFirst(rs: Replies, names: seq<string>, c: Criteria): Replies {
    ProjectReplies(SelectReplies(rs, c), names)
  }

  /** The two orders treat the tuple alike: with the tested field kept, it must not project to nothing; with the
      field dropped, it must project to nothing exactly when it is selected. */
  predicate Indifferent(t: Tuple, names: seq<string>, c: Criteria) {
    if c.fieldName in names then ProjectTuple(t, names) != []
    else Matches(t, c) <==> ProjectTuple(t, names) == []
  }

  ghost predicate AllIndifferent(rs: Replies, names: seq<string>, c: Criteria) {
    forall i :: 0 <= i < |rs| && rs[i].Row? ==> Indifferent(rs[i].tuple, names, c)
  }

  ghost predicate NoRows(rs: Replies) {
    forall i :: 0 <= i < |rs| ==> !rs[i].Row?
  }

  lemma FirstReply(rs: Replies, names: seq<string>, c: Criteria)
    requires rs != []
    ensures ProjectFirst(rs, names, c) == ProjectFirst([rs[0]], names, c) + ProjectFirst(rs[1..], names, c)
    ensures SelectFirst(rs, names, c) == SelectFirst([rs[0]], names, c) + SelectFirst(rs[1..], names, c)
  {
    hide ProjectReply, Matches;
    var r, p := [rs[0]], ProjectReplies([rs[0]], names);
    assert r[1..] == [] && p[1..] == [];
    assert ProjectReplies(rs, names)[1..] == ProjectReplies(rs[1..], names);
    var kept, more := SelectReplies(r, c), SelectReplies(rs[1..], c);
    assert SelectReplies([], c) == [];
    assert kept == if rs[0].Row? && !Matches(rs[0].tuple, c) then [] else [rs[0]];
    assert SelectReplies(rs, c) == kept + more;
    assert ProjectReplies(kept + more, names) == ProjectReplies(kept, names) + ProjectReplies(more, names);
  }

  /** What becomes of one tuple in each order. */
  lemma OneTuple(t: Tuple, names: seq<string>, c: Criteria)
    ensures var p := ProjectTuple(t, names);
            && ProjectFirst([Row(t)], names, c) ==
               (if p == [] then [End] else if c.fieldName in names && Matches(t, c) then [Row(p)] else [])
            && SelectFirst([Row(t)], names, c) ==
               (if !Matches(t, c) then [] else if p == [] then [End] else [Row(p)])
    ensures ProjectTuple(t, names) == [] && c.fieldName in names ==> !Matches(t, c)
  {
    MatchesProjected(t, names, c);
    var r, p := [Row(t)], ProjectReplies([Row(t)], names);
    assert r[1..] == [] && p[1..] == [];
    hide ProjectTuple;
    assert SelectReplies([], c) == [];
    assert ProjectReplies([], names) == [];
  }

  lemma OneOther(r: Reply, names: seq<string>, c: Criteria)
    requires !r.Row?
    ensures ProjectFirst([r], names, c) == SelectFirst([r], names, c) == [r]
  {
    var s, p := [r], ProjectReplies([r], names);
    assert s[1..] == [] && p[1..] == [];
    assert SelectReplies([], c) == [];
  }

  lemma AllIndifferentCons(rs: Replies, names: seq<string>, c: Criteria)
    requires rs != []
    ensures AllIndifferent(rs, names, c) <==>
            (rs[0].Row? ==> Indifferent(rs[0].tuple, names, c)) && AllIndifferent(rs[1..], names, c)
  {
    hide Indifferent;
    var rest := rs[1..];
    assert forall i :: 0 <= i < |rest| ==> rest[i] == rs[i + 1];
    assert forall i :: 0 < i < |rs| ==> rs[i] == rest[i - 1];
  }

  /** With the field kept, projecting first can only answer more: an end for every tuple that is not indifferent. */
  lemma {:induction false} KeptField(rs: Replies, names: seq<string>, c: Criteria)
    requires c.fieldName in names
    ensures if AllIndifferent(rs, names, c) then ProjectFirst(rs, names, c) == SelectFirst(rs, names, c)
            else |ProjectFirst(rs, names, c)| > |SelectFirst(rs, names, c)|
    decreases |rs|
  {
    hide Matches, ProjectTuple, ProjectFirst, SelectFirst, AllIndifferent;
    if rs == [] {
      NoReplies(names, c);
    } else {
      FirstReply(rs, names, c);
      AllIndifferentCons(rs, names, c);
      KeptField(rs[1..], names, c);
      if rs[0].Row? {
        OneTuple(rs[0].tuple, names, c);
      } else {
        OneOther(rs[0], names, c);
      }
    }
  }

  lemma NoReplies(names: seq<string>, c: Criteria)
    ensures ProjectFirst([], names, c) == SelectFirst([], names, c) == [] && AllIndifferent([], names, c)
  {
  }

  /** With the field dropped, projecting first never answers a tuple, and the two orders answer equally often only
      when every tuple is indifferent. */
  lemma {:induction false} DroppedField(rs: Replies, names: seq<string>, c: Criteria)
    requires c.fieldName !in names
    ensures NoRows(ProjectFirst(rs, names, c))
    ensures AllIndifferent(rs, names, c) ==> ProjectFirst(rs, names, c) == SelectFirst(rs, names, c)
    ensures NoRows(SelectFirst(rs, names, c)) && !AllIndifferent(rs, names, c) ==>
              |ProjectFirst(rs, names, c)| > |SelectFirst(rs, names, c)|
    decreases |rs|
  {
    hide Matches, ProjectTuple, ProjectFirst, SelectFirst, AllIndifferent, NoRows;
    if rs == [] {
      NoReplies(names, c);
      NoRowsOf([], []);
    } else {
      FirstReply(rs, names, c);
      AllIndifferentCons(rs, names, c);
      DroppedField(rs[1..], names, c);
      if rs[0].Row? {
        OneTuple(rs[0].tuple, names, c);
      } else {
        OneOther(rs[0], names, c);
      }
      NoRowsOf(ProjectFirst([rs[0]], names, c), ProjectFirst(rs[1..], names, c));
      NoRowsOf(SelectFirst([rs[0]], names, c), SelectFirst(rs[1..], names, c));
    }
  }

  lemma NoRowsOf(a: Replies, b: Replies)
    ensures NoRows(a + b) <==> NoRows(a) && NoRows(b)
    ensures NoRows([]) && NoRows([End]) && NoRows([Throw])
    ensures |a| == 1 ==> (NoRows(a) <==> !a[0].Row?)
  {
    assert forall i :: 0 <= i < |a| ==> (a + b)[i] == a[i];
    assert forall i :: 0 <= i < |b| ==> (a + b)[|a| + i] == b[i];
  }

  /** Over any child whatever, a selection and a projection commute exactly when every tuple of the child is
      indifferent to their order. */
  lemma SelectionCommutesWithProjection(q: Plan, names: seq<string>, c: Criteria, sorter: Sorter)
    ensures var early := Answers(Selection(c, Projection(names, q)), sorter);
            var late := Answers(Projection(names, Selection(c, q)), sorter);
            early == late <==> AllIndifferent(Answers(q, sorter), names, c)
  {
    var rs := Answers(q, sorter);
    hide AllIndifferent, SelectReplies, ProjectReplies;
    if c.fieldName in names {
      KeptField(rs, names, c);
    } else {
      DroppedField(rs, names, c);
    }
  }

  /** Over a proper child, and with the tested field kept, that means that no tuple projects to nothing. */
  lemma SelectionCommutesWithKeptField(q: Plan, names: seq<string>, c: Criteria, sorter: Sorter)
    requires IsSorter(sorter) && Proper(q, sorter) && c.fieldName in names
    ensures var early := Answers(Selection(c, Projection(names, q)), sorter);
            var late := Answers(Projection(names, Selection(c, q)), sorter);
            early == late <==> NoneEmpty(Denote(q, sorter), names)
  {
    SelectionCommutesWithProjection(q, names, c, sorter);
    AnswersAreDenotation(q, sorter);
    hide IsSorter, Proper, Answers;
    var rows := Denote(q, sorter);
    assert forall i :: 0 <= i < |rows| ==> Rows(rows)[i] == Row(rows[i]);
  }

  /** An input on which they do not: the tuple without the field that is kept ends the projection, and what is
      pulled until the end is nothing, although the second tuple is selected. */
  lemma ProjectionHidesSelected(sorter: Sorter)
    ensures var rows := [[Field("b", Int(1))], [Field("a", Int(1))]];
            var c := Criteria("a", Int(1), Equals);
            var early := Answers(Selection(c, Projection(["a"], Plan.Scan(rows))), sorter);
            var late := Answers(Projection(["a"], Selection(c, Plan.Scan(rows))), sorter);
            && early == [End, Row(rows[1])] && late == [Row(rows[1])]
            && Batch(early) == [] && Batch(late) == [rows[1]]
  {
    var without: Tuple, with: Tuple := [Field("b", Int(1))], [Field("a", Int(1))];
    var c := Criteria("a", Int(1), Equals);
    OnlyA(without, with, c);
    hide Matches, ProjectTuple, Rows, Batch, SelectReplies, ProjectReplies;
    HiddenBehind(without, with, ["a"], c);
  }

  lemma HiddenBehind(without: Tuple, with: Tuple, names: seq<string>, c: Criteria)
    requires c.fieldName in names && ProjectTuple(without, names) == []
    requires Matches(with, c) && ProjectTuple(with, names) == with != []
    ensures var rs := Rows([without, with]);
            var early, late := ProjectFirst(rs, names, c), SelectFirst(rs, names, c);
            && early == [End, Row(with)] && late == [Row(with)] && Batch(early) == [] && Batch(late) == [with]
  {
    hide Matches, ProjectTuple, ProjectFirst, SelectFirst;
    var rs := Rows([without, with]);
    FirstReply(rs, names, c);
    OneTuple(without, names, c);
    OneTuple(with, names, c);
    assert rs[1..] == [Row(with)] == Rows([with]);
    assert [End] + [Row(with)] == [End, Row(with)];
    BatchOfRows([with]);
    EndStops([Row(with)]);
  }

  lemma OnlyA(without: Tuple, with: Tuple, c: Criteria)
    requires without == [Field("b", Int(1))] && with == [Field("a", Int(1))] && c == Criteria("a", Int(1), Equals)
    ensures ProjectTuple(without, ["a"]) == [] && ProjectTuple(with, ["a"]) == with
    ensures !Matches(without, c) && Matches(with, c)
  {
    assert without[1..] == [] && with[1..] == [] && ["a"][1..] == [];
    assert Named(without, "a") == [] && Named(with, "a") == with;
  }

  /** The number of leading tuples that do not project to nothing. */
  function BeforeEmpty(rows: seq<Tuple>, names: seq<string>): (n: nat)
    ensures n <= |rows| && NoneEmpty(rows[..n], names)
    ensures n < |rows| ==> ProjectTuple(rows[n], names) == []
    decreases |rows|
  {
    if rows == [] || ProjectTuple(rows[0], names) == [] then 0 else
    var n := 1 + BeforeEmpty(rows[1..], names);
    assert forall i :: 0 < i < n ==> rows[..n][i] == rows[1..][..n - 1][i - 1];
    n
  }

  /** What is pulled until the end when projecting first. */
  function Pulled(rows: seq<Tuple>, names: seq<string>, c: Criteria): seq<Tuple> {
    Batch(ProjectFirst(Rows(rows), names, c))
  }

  /** The selected tuples in front of the first one that projects to nothing. */
  function InFront(rows: seq<Tuple>, names: seq<string>, c: Criteria): seq<Tuple> {
    Project(Select(rows[..BeforeEmpty(rows, names)], c), names)
  }

  lemma PulledCons(rows: seq<Tuple>, names: seq<string>, c: Criteria)
    requires c.fieldName in names && rows != []
    ensures Pulled(rows, names, c) ==
            if ProjectTuple(rows[0], names) == [] then []
            else if Matches(rows[0], c) then [ProjectTuple(rows[0], names)] + Pulled(rows[1..], names, c)
            else Pulled(rows[1..], names, c)
  {
    hide Matches, ProjectTuple, ProjectFirst, SelectFirst, Batch, Rows;
    RowsFrom(rows, 0);
    assert rows[0..] == rows;
    FirstReply(Rows(rows), names, c);
    OneTuple(rows[0], names, c);
    var rest := ProjectFirst(Rows(rows[1..]), names, c);
    if ProjectTuple(rows[0], names) == [] {
      EndStops(rest);
    } else if Matches(rows[0], c) {
      BatchOfCons(ProjectTuple(rows[0], names), rest);
    } else {
      assert [] + rest == rest;
    }
  }

  lemma InFrontCons(rows: seq<Tuple>, names: seq<string>, c: Criteria)
    requires rows != []
    ensures InFront(rows, names, c) ==
            if ProjectTuple(rows[0], names) == [] then []
            else if Matches(rows[0], c) then [ProjectTuple(rows[0], names)] + InFront(rows[1..], names, c)
            else InFront(rows[1..], names, c)
  {
    hide Matches, ProjectTuple, Select;
    if ProjectTuple(rows[0], names) == [] {
      NothingPulled(names, c);
      assert rows[..0] == [];
    } else {
      SelectedInFront(rows, BeforeEmpty(rows, names), names, c);
    }
  }

  lemma {:induction false} PulledIsInFront(rows: seq<Tuple>, names: seq<string>, c: Criteria)
    requires c.fieldName in names
    ensures Pulled(rows, names, c) == InFront(rows, names, c)
    decreases |rows|
  {
    if rows == [] {
      NoReplies(names, c);
      NothingPulled(names, c);
      assert Rows(rows) == [] && rows[..BeforeEmpty(rows, names)] == [];
    } else {
      hide Matches, ProjectTuple, Pulled, InFront;
      PulledCons(rows, names, c);
      InFrontCons(rows, names, c);
      PulledIsInFront(rows[1..], names, c);
    }
  }

  lemma NothingPulled(names: seq<string>, c: Criteria)
    ensures Batch([]) == [] && Project(Select([], c), names) == []
  {
  }

  lemma EndStops(rest: Replies)
    ensures Batch([End] + rest) == []
  {
    assert ([End] + rest)[0] == End;
  }

  lemma SelectedInFront(rows: seq<Tuple>, n: nat, names: seq<string>, c: Criteria)
    requires 0 < n <= |rows|
    ensures var more := Project(Select(rows[1..][..n - 1], c), names);
            Project(Select(rows[..n], c), names) ==
            if Matches(rows[0], c) then [ProjectTuple(rows[0], names)] + more else more
  {
    hide Matches, ProjectTuple;
    var front := rows[..n];
    assert front[0] == rows[0] && front[1..] == rows[1..][..n - 1];
  }

  lemma PulledOfSelectFirst(rows: seq<Tuple>, names: seq<string>, c: Criteria)
    requires c.fieldName in names
    ensures Batch(SelectFirst(Rows(rows), names, c)) == Project(Select(rows, c), names)
  {
    SelectOfRows(rows, c);
    SelectedProjects(rows, names, c);
    ProjectOfRows(Select(rows, c), names);
    BatchOfRows(Project(Select(rows, c), names));
  }

  lemma {:induction false} SelectedProjects(rows: seq<Tuple>, names: seq<string>, c: Criteria)
    requires c.fieldName in names
    ensures NoneEmpty(Select(rows, c), names)
    decreases |rows|
  {
    if rows != [] {
      SelectedProjects(rows[1..], names, c);
      OneTuple(rows[0], names, c);
    }
  }

  lemma {:induction false} SelectConcat(a: seq<Tuple>, b: seq<Tuple>, c: Criteria)
    ensures Select(a + b, c) == Select(a, c) + Select(b, c)
    decreases |a|
  {
    if a == [] {
      assert a + b == b;
    } else {
      assert (a + b)[1..] == a[1..] + b;
      SelectConcat(a[1..], b, c);
    }
  }

  lemma PulledRowsAlikeIff(rows: seq<Tuple>, names: seq<string>, c: Criteria)
    requires c.fieldName in names
    ensures Batch(ProjectFirst(Rows(rows), names, c)) == Batch(SelectFirst(Rows(rows), names, c)) <==>
            Select(rows[BeforeEmpty(rows, names)..], c) == []
  {
    hide BeforeEmpty, Select, Batch, ProjectFirst, SelectFirst, ProjectTuple;
    var n := BeforeEmpty(rows, names);
    PulledIsInFront(rows, names, c);
    PulledOfSelectFirst(rows, names, c);
    SelectConcat(rows[..n], rows[n..], c);
    assert rows == rows[..n] + rows[n..];
    var front, back := Select(rows[..n], c), Select(rows[n..], c);
    if back == [] {
      assert front + back == front;
    }
  }

  /** To a caller who pulls until the end, the two orders over a proper child look the same exactly when no
      selected tuple comes behind one that projects to nothing. */
  lemma PulledAlikeIff(q: Plan, names: seq<string>, c: Criteria, sorter: Sorter)
    requires IsSorter(sorter) && Proper(q, sorter) && c.fieldName in names
    ensures var rows := Denote(q, sorter);
            Batch(Answers(Selection(c, Projection(names, q)), sorter)) ==
            Batch(Answers(Projection(names, Selection(c, q)), sorter)) <==>
            Select(rows[BeforeEmpty(rows, names)..], c) == []
  {
    hide BeforeEmpty, Select, Batch, IsSorter, Proper, Denote, Rows, SelectReplies, ProjectReplies;
    AnswersAreDenotation(q, sorter);
    PulledRowsAlikeIff(Denote(q, sorter), names, c);
  }

  // ---------------------------------------------------------------- selection, limit and sort

  /** The answers are the tuples of `rows`, each as often, in sort order. */
  ghost predicate AnswersSorted(rs: Replies, rows: seq<Tuple>, column: string, order: SortOrder) {
    rs == Rows(Batch(rs)) && SortedPermutation(rows, Batch(rs), column, order)
  }

  lemma SortAnswersSorted(rows: seq<Tuple>, column: string, order: SortOrder, sorter: Sorter)
    requires IsSorter(sorter)
    ensures var rs := SortReplies(Rows(rows), column, order, sorter);
            if AllHaveKey(rows, column) then AnswersSorted(rs, rows, column, order) else rs == [Throw]
  {
    SorterKeepsEmpty(sorter, column, order);
    SortOfRows(rows, column, order, sorter);
    BatchOfRows(sorter(rows, column, order));
    hide AllHaveKey, SortReplies, SortedPermutation, Batch;
  }

  lemma SelectAnswersSorted(rows: seq<Tuple>, c: Criteria, column: string, order: SortOrder, sorter: Sorter)
    requires IsSorter(sorter)
    ensures var rs := SelectReplies(SortReplies(Rows(rows), column, order, sorter), c);
            if AllHaveKey(rows, column) then
              AnswersSorted(rs, Select(rows, c), column, order) && AllHaveKey(Select(rows, c), column)
            else rs == [Throw]
  {
    hide Matches, Key, SortReplies, Batch, Select, SelectReplies;
    SorterKeepsEmpty(sorter, column, order);
    SortOfRows(rows, column, order, sorter);
    var sorted := sorter(rows, column, order);
    SelectOfRows(sorted, c);
    BatchOfRows(Select(sorted, c));
    if AllHaveKey(rows, column) {
      SelectionOfSorted(rows, c, column, order, sorter);
      PermutationKeepsKeys(Select(sorted, c), Select(rows, c), column);
    } else {
      ThrowIsKept(c);
    }
  }

  /** Selecting above or below a sort: when every tuple has the key, both give the selected tuples in sort order.
      Otherwise the selection above the sort throws, and the one below it throws exactly when it lets a tuple
      without the key through. */
  lemma SelectionAndSort(q: Plan, c: Criteria, column: string, order: SortOrder, sorter: Sorter)
    requires IsSorter(sorter) && Proper(q, sorter)
    ensures var rows := Denote(q, sorter);
            var above := Answers(Selection(c, Sort(column, order, q)), sorter);
            var below := Answers(Sort(column, order, Selection(c, q)), sorter);
            && (if AllHaveKey(rows, column) then AnswersSorted(above, Select(rows, c), column, order)
                else above == [Throw])
            && (if AllHaveKey(Select(rows, c), column) then AnswersSorted(below, Select(rows, c), column, order)
                else below == [Throw])
            && (AllHaveKey(rows, column) ==> AllHaveKey(Select(rows, c), column))
  {
    hide IsSorter, Proper, Denote, Rows, SelectReplies, SortReplies, Select, AnswersSorted, AllHaveKey;
    var rows := Denote(q, sorter);
    AnswersAreDenotation(q, sorter);
    SelectOfRows(rows, c);
    SelectAnswersSorted(rows, c, column, order, sorter);
    SortAnswersSorted(Select(rows, c), column, order, sorter);
  }

  lemma ThrowIsKept(c: Criteria)
    ensures SelectReplies([Throw], c) == [Throw]
  {
    assert [Throw][1..] == [];
  }

  /** So the two agree, in tuples or in the exception, exactly when every tuple has the key or some selected one
      has not. */
  lemma SelectionAndSortAgreeIff(q: Plan, c: Criteria, column: string, order: SortOrder, sorter: Sorter)
    requires IsSorter(sorter) && Proper(q, sorter)
    ensures var rows := Denote(q, sorter);
            var above := Answers(Selection(c, Sort(column, order, q)), sorter);
            var below := Answers(Sort(column, order, Selection(c, q)), sorter);
            var selected := Select(rows, c);
            (AnswersSorted(above, selected, column, order) && AnswersSorted(below, selected, column, order))
            || above == below == [Throw] <==>
            AllHaveKey(rows, column) || !AllHaveKey(selected, column)
  {
    SelectionAndSort(q, c, column, order, sorter);
  }

  /** An input on which they do not: the tuple without the key is not selected. */
  lemma SelectingBelowAvoidsThrow(sorter: Sorter)
    requires IsSorter(sorter)
    ensures var q := Plan.Scan([[Field("b", Int(1))]]);
            var c := Criteria("a", Int(1), Equals);
            && Answers(Selection(c, Sort("a", Ascending, q)), sorter) == [Throw]
            && Answers(Sort("a", Ascending, Selection(c, q)), sorter) == []
  {
    var t: Tuple := [Field("b", Int(1))];
    var rows: seq<Tuple> := [t];
    var c := Criteria("a", Int(1), Equals);
    assert t[1..] == [] && rows[1..] == [];
    assert !Matches(t, c) && !HasKey(t, "a");
    assert Select(rows, c) == [] && !HasKey(rows[0], "a");
    assert AllHaveKey([], "a");
    SelectionAndSort(Plan.Scan(rows), c, "a", Ascending, sorter);
    hide Matches, HasKey, Key, IsSorter, Select;
    BelowIsEmpty(Answers(Sort("a", Ascending, Selection(c, Plan.Scan(rows))), sorter));
  }

  lemma BelowIsEmpty(rs: Replies)
    requires AnswersSorted(rs, [], "a", Ascending)
    ensures rs == []
  {
    assert |multiset(Batch(rs))| == |Batch(rs)|;
  }

  /** A limit over a sort answers with the first tuples in sort order, and none of them orders after one that is
      cut off; without the key it throws, unless it never pulls. */
  lemma LimitOfSort(q: Plan, k: nat, column: string, order: SortOrder, sorter: Sorter)
    requires IsSorter(sorter) && Proper(q, sorter)
    ensures var rows, top := Denote(q, sorter), Answers(Limit(k, Sort(column, order, q)), sorter);
            if AllHaveKey(rows, column) then
              var n, sorted := if k < |rows| then k else |rows|, sorter(rows, column, order);
              |sorted| == |rows| && top == Rows(sorted[..n]) && TopOf(rows, sorted, n, column, order)
            else top == if k == 0 then [] else [Throw]
  {
    hide IsSorter, Proper, Denote, SortReplies, Key, HasKey, TopOf;
    var rows := Denote(q, sorter);
    AnswersAreDenotation(q, sorter);
    SorterKeepsEmpty(sorter, column, order);
    SortOfRows(rows, column, order, sorter);
    if AllHaveKey(rows, column) {
      SortedFirst(rows, if k < |rows| then k else |rows|, column, order, sorter);
    } else if k == 0 {
      assert [Throw][..0] == [];
    }
  }
}
