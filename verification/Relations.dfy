/** Tuples, predicates and the relational operators on lists of tuples. */
module Relations {
  import opened Options
  import opened Lexicographic

  /** `std::variant<int, double, std::string>`, doubles as reals. */
  datatype Value = Int(i: int) | Double(d: real) | Text(s: string)

  datatype Field = Field(name: string, data: Value)

  type Tuple = seq<Field>

  function Index(v: Value): nat {
    match v case Int(_) => 0 case Double(_) => 1 case Text(_) => 2
  }

  /** The variant's `<`: the alternative decides first, then the value. */
  predicate ValueLess(a: Value, b: Value) {
    match (a, b)
    case (Int(x), Int(y)) => x < y
    case (Double(x), Double(y)) => x < y
    case (Text(x), Text(y)) => LexLess(x, y)
    case _ => Index(a) < Index(b)
  }

  lemma ValueOrder(a: Value, b: Value, c: Value)
    ensures !ValueLess(a, a)
    ensures ValueLess(a, b) || a == b || ValueLess(b, a)
    ensures ValueLess(a, b) && ValueLess(b, c) ==> ValueLess(a, c)
  {
    if a.Text? {
      LexTotal(a.s, if b.Text? then b.s else a.s);
      if b.Text? && c.Text? && LexLess(a.s, b.s) && LexLess(b.s, c.s) {
        LexTransitive(a.s, b.s, c.s);
      }
    }
  }

  /** The order spelled out: integers by size and in front of all doubles, doubles by size and in front of all texts,
      and texts by their first difference. */
  ghost predicate Precedes(x: Value, y: Value) {
    match x
    case Int(a) => if y.Int? then a < y.i else true
    case Double(a) => if y.Double? then a < y.d else y.Text?
    case Text(a) => y.Text? && exists n: nat :: SmallerAt(a, y.s, n)
  }

  lemma ValueLessMeans(x: Value, y: Value)
    ensures ValueLess(x, y) <==> Precedes(x, y)
  {
    if x.Text? && y.Text? {
      LexMeans(x.s, y.s);
    }
  }

  // ---------------------------------------------------------------- selection

  datatype Comparison = Equals | NotEqual | GreaterThan | LessThan

  datatype Criteria = Criteria(fieldName: string, fieldValue: Value, comparison: Comparison)

  predicate Compares(v: Value, c: Criteria) {
    match c.comparison
    case Equals => v == c.fieldValue
    case NotEqual => v != c.fieldValue
    case GreaterThan => ValueLess(c.fieldValue, v)
    case LessThan => ValueLess(v, c.fieldValue)
  }

  /** The first field of the name decides; a tuple without one is not selected. */
  predicate Matches(t: Tuple, c: Criteria) {
    t != [] && if t[0].name == c.fieldName then Compares(t[0].data, c) else Matches(t[1..], c)
  }

  /** The field at `i` has the name, and no field in front of it has. */
  predicate FirstNamed(t: Tuple, name: string, i: nat) {
    i < |t| && t[i].name == name && forall j :: 0 <= j < i ==> t[j].name != name
  }

  ghost predicate Satisfies(v: Value, comparison: Comparison, wanted: Value) {
    match comparison
    case Equals => v == wanted
    case NotEqual => v != wanted
    case GreaterThan => Precedes(wanted, v)
    case LessThan => Precedes(v, wanted)
  }

  /** A tuple is selected exactly when the first field of the name compares as asked, by size for numbers and by the
      first difference for texts. */
  lemma {:induction false} MatchesIff(t: Tuple, c: Criteria)
    ensures Matches(t, c) <==>
            exists i: nat :: FirstNamed(t, c.fieldName, i) && Satisfies(t[i].data, c.comparison, c.fieldValue)
  {
    hide ValueLess, Precedes;
    if t != [] {
      ValueLessMeans(t[0].data, c.fieldValue);
      ValueLessMeans(c.fieldValue, t[0].data);
      if t[0].name == c.fieldName {
        assert FirstNamed(t, c.fieldName, 0);
      } else {
        MatchesIff(t[1..], c);
        forall i: nat | FirstNamed(t[1..], c.fieldName, i) ensures FirstNamed(t, c.fieldName, i + 1) {
          assert forall j :: 0 < j <= i ==> t[j] == t[1..][j - 1];
        }
        forall i: nat | FirstNamed(t, c.fieldName, i) ensures i > 0 && FirstNamed(t[1..], c.fieldName, i - 1) {
        }
      }
    }
  }

  function Select(rows: seq<Tuple>, c: Criteria): seq<Tuple>
    decreases |rows|
  {
    if rows == [] then [] else (if Matches(rows[0], c) then [rows[0]] else []) + Select(rows[1..], c)
  }

  // ---------------------------------------------------------------- projection

  /** The fields of one name, in order. */
  function Named(t: Tuple, name: string): Tuple {
    if t == [] then [] else (if t[0].name == name then [t[0]] else []) + Named(t[1..], name)
  }

  /** Fields in the order of the names asked for. */
  function ProjectTuple(t: Tuple, names: seq<string>): Tuple
    decreases |names|
  {
    if names == [] then [] else Named(t, names[0]) + ProjectTuple(t, names[1..])
  }

  /** One name picks every field of that name, as often as the tuple has it, and nothing else. */
  lemma ProjectKeepsExactly(t: Tuple, name: string, f: Field)
    ensures multiset(ProjectTuple(t, [name]))[f] == if f.name == name then multiset(t)[f] else 0
  {
    NamedKeepsExactly(t, name, f);
    assert [name][1..] == [] && ProjectTuple(t, [name]) == Named(t, name) + [];
  }

  lemma {:induction false} NamedKeepsExactly(t: Tuple, name: string, f: Field)
    ensures multiset(Named(t, name))[f] == if f.name == name then multiset(t)[f] else 0
  {
    if t != [] {
      NamedKeepsExactly(t[1..], name, f);
      assert t == [t[0]] + t[1..];
    }
  }

  /** Several names pick one after the other, and fields of one name come in the order of the tuple. */
  lemma {:induction false} ProjectInOrder(t: Tuple, u: Tuple, names: seq<string>, more: seq<string>, name: string)
    ensures ProjectTuple(t, names + more) == ProjectTuple(t, names) + ProjectTuple(t, more)
    ensures ProjectTuple(t + u, [name]) == ProjectTuple(t, [name]) + ProjectTuple(u, [name])
    decreases |names|
  {
    if names == [] {
      assert names + more == more;
      NamedOfBoth(t, u, name);
      assert [name][1..] == [];
      assert forall x: Tuple :: ProjectTuple(x, [name]) == Named(x, name) + [] == Named(x, name);
    } else {
      assert (names + more)[1..] == names[1..] + more;
      ProjectInOrder(t, u, names[1..], more, name);
    }
  }

  lemma {:induction false} NamedOfBoth(t: Tuple, u: Tuple, name: string)
    ensures Named(t + u, name) == Named(t, name) + Named(u, name)
  {
    if t == [] {
      assert t + u == u;
    } else {
      assert (t + u)[0] == t[0] && (t + u)[1..] == t[1..] + u;
      NamedOfBoth(t[1..], u, name);
      var one := if t[0].name == name then [t[0]] else [];
      assert Named(t, name) == one + Named(t[1..], name) && Named(t + u, name) == one + Named(t[1..] + u, name);
      hide Named;
      assert one + (Named(t[1..], name) + Named(u, name)) == one + Named(t[1..], name) + Named(u, name);
    }
  }

  function Project(rows: seq<Tuple>, names: seq<string>): (r: seq<Tuple>)
    ensures |r| == |rows| && forall i :: 0 <= i < |rows| ==> r[i] == ProjectTuple(rows[i], names)
  {
    seq(|rows|, i requires 0 <= i < |rows| => ProjectTuple(rows[i], names))
  }

  // ---------------------------------------------------------------- sorting

  datatype SortOrder = Ascending | Descending

  /** The last field of the name is the sort key. */
  function Key(t: Tuple, column: string): Option<Value> {
    if t == [] then None
    else match Key(t[1..], column)
      case Some(v) => Some(v)
      case None => if t[0].name == column then Some(t[0].data) else None
  }

  /** The field at `i` has the name, and no field behind it has. */
  predicate LastNamed(t: Tuple, name: string, i: nat) {
    i < |t| && t[i].name == name && forall j :: i < j < |t| ==> t[j].name != name
  }

  lemma {:induction false} KeyIff(t: Tuple, column: string, v: Value)
    ensures Key(t, column) == Some(v) <==> exists i: nat :: LastNamed(t, column, i) && t[i].data == v
    ensures Key(t, column) == None <==> forall i :: 0 <= i < |t| ==> t[i].name != column
  {
    if t != [] {
      KeyIff(t[1..], column, v);
      forall i: nat | LastNamed(t[1..], column, i) ensures LastNamed(t, column, i + 1) {
        assert forall j :: i + 1 < j < |t| ==> t[j] == t[1..][j - 1];
      }
      forall i: nat | LastNamed(t, column, i) && i > 0 ensures LastNamed(t[1..], column, i - 1) {
      }
    }
  }

  predicate HasKey(t: Tuple, column: string) {
    Key(t, column).Some?
  }

  predicate AllHaveKey(rows: seq<Tuple>, column: string) {
    forall i :: 0 <= i < |rows| ==> HasKey(rows[i], column)
  }

  /** The comparator handed to `std::sort`. */
  predicate Before(a: Tuple, b: Tuple, column: string, order: SortOrder)
    requires HasKey(a, column) && HasKey(b, column)
  {
    var x, y := Key(a, column).value, Key(b, column).value;
    if order == Ascending then ValueLess(x, y) else ValueLess(y, x)
  }

  ghost predicate SortedBy(rows: seq<Tuple>, column: string, order: SortOrder)
    requires AllHaveKey(rows, column)
  {
    forall i, j :: 0 <= i < j < |rows| ==> !Before(rows[j], rows[i], column, order)
  }

  ghost predicate SortedPermutation(rows: seq<Tuple>, sorted: seq<Tuple>, column: string, order: SortOrder) {
    && multiset(sorted) == multiset(rows)
    && AllHaveKey(sorted, column) && SortedBy(sorted, column, order)
  }

  type Sorter = (seq<Tuple>, string, SortOrder) -> seq<Tuple>

  /** Any implementation of `std::sort`: a sorted permutation, ties in whatever order it likes. */
  ghost predicate IsSorter(sorter: Sorter) {
    forall rows, column, order :: AllHaveKey(rows, column) ==>
      SortedPermutation(rows, sorter(rows, column, order), column, order)
  }

  /** The comparator is a strict weak order, as `std::sort` demands. */
  lemma ComparatorIsStrictWeakOrder(a: Tuple, b: Tuple, c: Tuple, column: string, order: SortOrder)
    requires HasKey(a, column) && HasKey(b, column) && HasKey(c, column)
    ensures !Before(a, a, column, order)
    ensures Before(a, b, column, order) && Before(b, c, column, order) ==> Before(a, c, column, order)
    ensures !Before(a, b, column, order) && !Before(b, c, column, order) ==> !Before(a, c, column, order)
  {
    var x, y, z := Key(a, column).value, Key(b, column).value, Key(c, column).value;
    ValueOrder(x, y, z);
    ValueOrder(z, y, x);
    ValueOrder(x, z, y);
    ValueOrder(y, z, x);
    ValueOrder(z, x, y);
    ValueOrder(y, x, z);
    hide ValueLess, Key;
  }
}
