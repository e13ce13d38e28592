/** Rewrites of a query that keep its meaning, and a sort that the operators can be given. */
module QueryRewrites {
  import opened Relations

  // ---------------------------------------------------------------- selection and projection

  lemma {:induction false} MatchesNamed(t: Tuple, c: Criteria)
    ensures Matches(Named(t, c.fieldName), c) == Matches(t, c)
    ensures Named(t, c.fieldName) == [] ==> !Matches(t, c)
  {
    if t != [] {
      MatchesNamed(t[1..], c);
      if t[0].name == c.fieldName {
        assert Named(t, c.fieldName)[0] == t[0];
      } else {
        assert Named(t, c.fieldName) == Named(t[1..], c.fieldName);
      }
    }
  }

  lemma {:induction false} MatchesOther(t: Tuple, name: string, more: Tuple, c: Criteria)
    requires name != c.fieldName
    ensures Matches(Named(t, name) + more, c) == Matches(more, c)
  {
    if t == [] {
      assert Named(t, name) + more == more;
    } else {
      MatchesOther(t[1..], name, more, c);
      if t[0].name == name {
        assert (Named(t, name) + more)[1..] == Named(t[1..], name) + more;
      } else {
        assert Named(t, name) == Named(t[1..], name);
      }
    }
  }

  lemma {:induction false} MatchesFront(front: Tuple, more: Tuple, c: Criteria)
    requires front != [] && front[0].name == c.fieldName
    ensures Matches(front + more, c) == Matches(front, c)
  {
    assert (front + more)[0] == front[0];
  }

  lemma {:induction false} NamedHasName(t: Tuple, name: string)
    ensures Named(t, name) != [] ==> Named(t, name)[0].name == name
  {
    if t != [] {
      NamedHasName(t[1..], name);
    }
  }

  lemma {:induction false} NoneNamed(t: Tuple, names: seq<string>, c: Criteria)
    requires Named(t, c.fieldName) == []
    ensures !Matches(ProjectTuple(t, names), c)
    decreases |names|
  {
    if names != [] {
      NoneNamed(t, names[1..], c);
      if names[0] == c.fieldName {
        assert ProjectTuple(t, names) == ProjectTuple(t, names[1..]);
      } else {
        MatchesOther(t, names[0], ProjectTuple(t, names[1..]), c);
      }
    }
  }

  /** The field that decides comes first among its namesakes before and after the projection reorders them. */
  lemma {:induction false} MatchesProjected(t: Tuple, names: seq<string>, c: Criteria)
    ensures Matches(ProjectTuple(t, names), c) <==> c.fieldName in names && Matches(t, c)
    decreases |names|
  {
    if names != [] {
      var more := ProjectTuple(t, names[1..]);
      MatchesProjected(t, names[1..], c);
      MatchesNamed(t, c);
      if names[0] != c.fieldName {
        MatchesOther(t, names[0], more, c);
      } else if Named(t, c.fieldName) == [] {
        NoneNamed(t, names, c);
      } else {
        NamedHasName(t, c.fieldName);
        MatchesFront(Named(t, c.fieldName), more, c);
      }
    }
  }

  lemma {:induction false} SelectNone(rows: seq<Tuple>, names: seq<string>, c: Criteria)
    requires c.fieldName !in names
    ensures Select(Project(rows, names), c) == []
    decreases |rows|
  {
    if rows != [] {
      MatchesProjected(rows[0], names, c);
      assert Project(rows, names)[1..] == Project(rows[1..], names);
      SelectNone(rows[1..], names, c);
    }
  }

  lemma {:induction false} SelectSome(rows: seq<Tuple>, names: seq<string>, c: Criteria)
    requires c.fieldName in names
    ensures Select(Project(rows, names), c) == Project(Select(rows, c), names)
    decreases |rows|
  {
    hide Matches, ProjectTuple;
    if rows != [] {
      MatchesProjected(rows[0], names, c);
      assert Project(rows, names)[1..] == Project(rows[1..], names);
      SelectSome(rows[1..], names, c);
      var kept := if Matches(rows[0], c) then [rows[0]] else [];
      assert Project(kept + Select(rows[1..], c), names) == Project(kept, names) + Project(Select(rows[1..], c), names);
    }
  }

  /** Selection commutes with projection exactly when the tested field is kept, or nothing is selected anyway. */
  lemma SelectCommutesWithProject(rows: seq<Tuple>, names: seq<string>, c: Criteria)
    ensures Select(Project(rows, names), c) == Project(Select(rows, c), names) <==>
            c.fieldName in names || Select(rows, c) == []
  {
    if c.fieldName in names {
      SelectSome(rows, names, c);
    } else {
      SelectNone(rows, names, c);
    }
  }

  // ---------------------------------------------------------------- selection and sorting

  lemma {:induction false} SelectMembers(rows: seq<Tuple>, c: Criteria, t: Tuple)
    ensures multiset(Select(rows, c))[t] == if Matches(t, c) then multiset(rows)[t] else 0
    decreases |rows|
  {
    if rows != [] {
      SelectMembers(rows[1..], c, t);
      assert rows == [rows[0]] + rows[1..];
    }
  }

  lemma SelectPermutes(a: seq<Tuple>, b: seq<Tuple>, c: Criteria)
    requires multiset(a) == multiset(b)
    ensures multiset(Select(a, c)) == multiset(Select(b, c))
  {
    forall t ensures multiset(Select(a, c))[t] == multiset(Select(b, c))[t] {
      SelectMembers(a, c, t);
      SelectMembers(b, c, t);
    }
  }

  lemma {:induction false} SelectKeepsSorted(rows: seq<Tuple>, c: Criteria, column: string, order: SortOrder)
    requires AllHaveKey(rows, column) && SortedBy(rows, column, order)
    ensures forall t :: t in Select(rows, c) ==> t in rows
    ensures AllHaveKey(Select(rows, c), column) && SortedBy(Select(rows, c), column, order)
    decreases |rows|
  {
    if rows != [] {
      var rest := rows[1..];
      SelectKeepsSorted(rest, c, column, order);
      var s := Select(rest, c);
      forall j | 0 <= j < |s| ensures !Before(s[j], rows[0], column, order) {
        assert s[j] in rest;
        var k :| 0 <= k < |rest| && rest[k] == s[j];
        assert rows[k + 1] == s[j];
      }
    }
  }

  lemma PermutationKeepsKeys(a: seq<Tuple>, b: seq<Tuple>, column: string)
    requires multiset(a) == multiset(b) && AllHaveKey(a, column)
    ensures AllHaveKey(b, column)
  {
    forall i | 0 <= i < |b| ensures HasKey(b[i], column) {
      assert b[i] in multiset(a);
    }
  }

  /** Selecting before or after the sort: both ways give the same tuples, in sort order. */
  lemma SelectionOfSorted(rows: seq<Tuple>, c: Criteria, column: string, order: SortOrder, sorter: Sorter)
    requires IsSorter(sorter) && AllHaveKey(rows, column)
    ensures var first, last := sorter(Select(rows, c), column, order), Select(sorter(rows, column, order), c);
            && SortedPermutation(Select(rows, c), first, column, order)
            && SortedPermutation(Select(rows, c), last, column, order)
  {
    var sorted := sorter(rows, column, order);
    assert SortedPermutation(rows, sorted, column, order);
    SelectPermutes(sorted, rows, c);
    SelectKeepsSorted(sorted, c, column, order);
    PermutationKeepsKeys(Select(sorted, c), Select(rows, c), column);
    assert SortedPermutation(Select(rows, c), sorter(Select(rows, c), column, order), column, order);
  }

  /** The first `n` of the sorted tuples are the top ones: sorted, none of them comes after one behind them, and
      with those behind them they are all the tuples. */
  ghost predicate TopOf(rows: seq<Tuple>, sorted: seq<Tuple>, n: nat, column: string, order: SortOrder) {
    && n <= |sorted| && AllHaveKey(sorted, column) && SortedBy(sorted, column, order)
    && multiset(sorted[..n]) + multiset(sorted[n..]) == multiset(rows)
    && forall i, j :: 0 <= i < n <= j < |sorted| ==> !Before(sorted[j], sorted[i], column, order)
  }

  lemma SortedFirst(rows: seq<Tuple>, n: nat, column: string, order: SortOrder, sorter: Sorter)
    requires IsSorter(sorter) && AllHaveKey(rows, column) && n <= |rows|
    ensures |sorter(rows, column, order)| == |rows| && TopOf(rows, sorter(rows, column, order), n, column, order)
  {
    hide Key, Before;
    var sorted := sorter(rows, column, order);
    assert SortedPermutation(rows, sorted, column, order);
    assert |sorted| == |multiset(sorted)| == |rows|;
    assert sorted == sorted[..n] + sorted[n..];
  }

  // ---------------------------------------------------------------- a sort

  function InsertTuple(t: Tuple, sorted: seq<Tuple>, column: string, order: SortOrder): seq<Tuple>
    requires HasKey(t, column) && AllHaveKey(sorted, column)
    decreases |sorted|
  {
    if sorted == [] || !Before(sorted[0], t, column, order) then [t] + sorted
    else [sorted[0]] + InsertTuple(t, sorted[1..], column, order)
  }

  /** Insertion sort; lists without the key are none of its business. */
  function InsertionSort(rows: seq<Tuple>, column: string, order: SortOrder): (r: seq<Tuple>)
    ensures AllHaveKey(rows, column) ==> AllHaveKey(r, column)
    decreases |rows|
  {
    if rows == [] then []
    else
      var rest := InsertionSort(rows[1..], column, order);
      if HasKey(rows[0], column) && AllHaveKey(rest, column) then
        InsertKeeps(rows[0], rest, column, order);
        InsertTuple(rows[0], rest, column, order)
      else rows
  }

  lemma {:induction false} InsertKeeps(t: Tuple, sorted: seq<Tuple>, column: string, order: SortOrder)
    requires HasKey(t, column) && AllHaveKey(sorted, column)
    ensures var r := InsertTuple(t, sorted, column, order);
            AllHaveKey(r, column) && multiset(r) == multiset(sorted) + multiset{t}
    decreases |sorted|
  {
    hide Key, HasKey, Before;
    if sorted != [] && Before(sorted[0], t, column, order) {
      InsertKeeps(t, sorted[1..], column, order);
      assert sorted == [sorted[0]] + sorted[1..];
    }
  }

  /** What does not come before a tuple does not come before those behind it either. */
  lemma NotBeforeTail(t: Tuple, sorted: seq<Tuple>, column: string, order: SortOrder)
    requires HasKey(t, column) && AllHaveKey(sorted, column) && SortedBy(sorted, column, order)
    requires sorted != [] && !Before(sorted[0], t, column, order)
    ensures SortedBy([t] + sorted, column, order)
  {
    forall j | 0 <= j < |sorted| ensures !Before(sorted[j], t, column, order) {
      ComparatorIsStrictWeakOrder(sorted[j], sorted[0], t, column, order);
    }
  }

  /** What comes before `t` and before everything in `rest` comes before `t` put in among them. */
  lemma HeadStaysFirst(head: Tuple, t: Tuple, rest: seq<Tuple>, more: seq<Tuple>, column: string, order: SortOrder)
    requires HasKey(head, column) && HasKey(t, column) && AllHaveKey([head] + rest, column) && AllHaveKey(more, column)
    requires SortedBy([head] + rest, column, order) && SortedBy(more, column, order) && Before(head, t, column, order)
    requires multiset(more) == multiset(rest) + multiset{t}
    ensures AllHaveKey([head] + more, column) && SortedBy([head] + more, column, order)
  {
    var all := [head] + rest;
    assert all[0] == head;
    ComparatorIsStrictWeakOrder(head, t, head, column, order);
    hide Before, Key;
    forall j | 0 <= j < |more| ensures !Before(more[j], head, column, order) {
      assert more[j] in multiset(more);
      if more[j] != t {
        assert more[j] in rest;
        var k :| 0 <= k < |rest| && rest[k] == more[j];
        assert all[k + 1] == more[j];
      }
    }
  }

  lemma {:induction false} InsertKeepsSorted(t: Tuple, sorted: seq<Tuple>, column: string, order: SortOrder)
    requires HasKey(t, column) && AllHaveKey(sorted, column) && SortedBy(sorted, column, order)
    ensures AllHaveKey(InsertTuple(t, sorted, column, order), column)
    ensures SortedBy(InsertTuple(t, sorted, column, order), column, order)
    decreases |sorted|
  {
    hide Before, Key;
    InsertKeeps(t, sorted, column, order);
    if sorted == [] {
    } else if !Before(sorted[0], t, column, order) {
      NotBeforeTail(t, sorted, column, order);
    } else {
      var rest := sorted[1..];
      assert [sorted[0]] + rest == sorted;
      InsertKeepsSorted(t, rest, column, order);
      InsertKeeps(t, rest, column, order);
      hide SortedBy;
      HeadStaysFirst(sorted[0], t, rest, InsertTuple(t, rest, column, order), column, order);
    }
  }

  lemma InsertSorts(t: Tuple, rest: seq<Tuple>, sorted: seq<Tuple>, column: string, order: SortOrder)
    requires HasKey(t, column) && SortedPermutation(rest, sorted, column, order)
    ensures SortedPermutation([t] + rest, InsertTuple(t, sorted, column, order), column, order)
  {
    hide Key, HasKey, Before, SortedBy, InsertTuple;
    InsertKeeps(t, sorted, column, order);
    InsertKeepsSorted(t, sorted, column, order);
  }

  lemma {:induction false} InsertionSorts(rows: seq<Tuple>, column: string, order: SortOrder)
    requires AllHaveKey(rows, column)
    ensures SortedPermutation(rows, InsertionSort(rows, column, order), column, order)
    decreases |rows|
  {
    hide Key, HasKey, Before, InsertTuple;
    if rows != [] {
      InsertionSorts(rows[1..], column, order);
      InsertSorts(rows[0], rows[1..], InsertionSort(rows[1..], column, order), column, order);
      hide SortedPermutation;
      assert rows == [rows[0]] + rows[1..];
    }
  }

  /** There is something to instantiate the operators' sort with. */
  lemma InsertionSortIsASorter()
    ensures IsSorter(InsertionSort)
  {
    forall rows, column, order | AllHaveKey(rows, column)
      ensures SortedPermutation(rows, InsertionSort(rows, column, order), column, order)
    {
      InsertionSorts(rows, column, order);
    }
  }
}
