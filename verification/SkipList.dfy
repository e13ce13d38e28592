/** The pointer structure of the skip list, with the descents and the splices done in place. */
module SkipLists {
  import opened Options
  import opened SkipListShape

  const MAX_LEVEL: nat := 16

  /** Cycles through 1, 2, ..., maxLevel. */
  class LevelGenerator {
    var level: nat
    const maxLevel: nat

    ghost predicate Valid()
      reads this
    {
      1 <= maxLevel && level <= maxLevel
    }

    constructor (maxLevel: nat)
      requires 1 <= maxLevel
      ensures Valid() && level == 0 && this.maxLevel == maxLevel
    {
      this.level, this.maxLevel := 0, maxLevel;
    }

    method ComputeLevel() returns (r: nat)
      requires Valid()
      modifies this
      ensures Valid() && r == level
      ensures r == (if old(level) == maxLevel then 1 else old(level) + 1)
    {
      if level < maxLevel {
        assert level % maxLevel == level;
      }
      level := level % maxLevel;
      level := level + 1;
      r := level;
    }
  }

  class Node<K, V> {
    const key: K
    const value: V
    const level: nat
    const next: array<Node?<K, V>>

    constructor (key: K, value: V, level: nat)
      ensures this.key == key && this.value == value && this.level == level
      ensures fresh(next) && next.Length == MAX_LEVEL
      ensures forall l :: 0 <= l < MAX_LEVEL ==> next[l] == null
    {
      this.key, this.value, this.level := key, value, level;
      next := new Node?<K, V>[MAX_LEVEL](_ => null);
    }
  }

  // ---------------------------------------------------------------- where pointers must lead

  /** The index of the first node after `i` that reaches above level index `l`; `|chain|` when none does. */
  ghost function NextAt<K, V>(chain: seq<Node<K, V>>, i: nat, l: nat): (j: nat)
    requires i < |chain|
    ensures i < j <= |chain|
    ensures j < |chain| ==> chain[j].level > l
    ensures forall m :: i < m < j ==> chain[m].level <= l
    decreases |chain| - i
  {
    if i + 1 == |chain| || chain[i + 1].level > l then i + 1 else NextAt(chain, i + 1, l)
  }

  /** What slot `l` of `chain[i].d_nextNode` must hold. */
  ghost function Target<K, V>(chain: seq<Node<K, V>>, i: nat, l: nat): Node?<K, V>
    requires i < |chain|
  {
    var j := NextAt(chain, i, l);
    if l < chain[i].level && j < |chain| then chain[j] else null
  }

  /** `i` is the last node before position `p` that reaches above level index `l`. */
  ghost predicate LastBefore<K, V>(chain: seq<Node<K, V>>, p: nat, l: nat, i: nat) {
    && i < p <= |chain| && l < chain[i].level
    && forall m :: i < m < p ==> chain[m].level <= l
  }

  ghost predicate PreviousAt<K, V>(chain: seq<Node<K, V>>, p: nat, idx: seq<nat>) {
    |idx| == MAX_LEVEL && p <= |chain| && forall l :: 0 <= l < MAX_LEVEL ==> LastBefore(chain, p, l, idx[l])
  }

  lemma NextAtIs<K, V>(chain: seq<Node<K, V>>, i: nat, l: nat, j: nat)
    requires i < j <= |chain|
    requires j < |chain| ==> chain[j].level > l
    requires forall m :: i < m < j ==> chain[m].level <= l
    ensures NextAt(chain, i, l) == j
  {
  }

  /** On the lowest level the last node before position `p` is its neighbour, and points to it. */
  lemma BottomIsLast<K, V>(chain: seq<Node<K, V>>, owner: map<array<Node?<K, V>>, nat>, p: nat, i: nat)
    requires Towers(chain, owner) && LastBefore(chain, p, 0, i)
    ensures i == p - 1 && NextAt(chain, i, 0) == p
  {
    NextAtIs(chain, i, 0, i + 1);
  }

  /** Slots in front of position `p`: only the last tall enough node sees the new one. */
  lemma TargetBeforeInsert<K, V>(chain: seq<Node<K, V>>, p: nat, x: Node<K, V>, l: nat, last: nat, i: nat)
    requires i < p && LastBefore(chain, p, l, last)
    ensures Target(InsertAt(chain, p, x), i, l) ==
            if l < x.level && i == last then x else Target(chain, i, l)
  {
    var now := InsertAt(chain, p, x);
    var k := NextAt(chain, i, l);
    hide InsertAt, NextAt;
    if i < last && l < chain[i].level {
      assert k <= last;
      NextAtIs(now, i, l, k);
    } else if i == last {
      NextAtIs(now, i, l, if l < x.level then p else k + 1);
    }
  }

  /** Slots behind position `p` point where they did. */
  lemma TargetAfterInsert<K, V>(chain: seq<Node<K, V>>, p: nat, x: Node<K, V>, l: nat, i: nat)
    requires p <= i < |chain|
    ensures Target(InsertAt(chain, p, x), i + 1, l) == Target(chain, i, l)
  {
    NextAtIs(InsertAt(chain, p, x), i + 1, l, NextAt(chain, i, l) + 1);
  }

  /** The new node points where the last tall enough node before it used to point. */
  lemma TargetOfInserted<K, V>(chain: seq<Node<K, V>>, p: nat, x: Node<K, V>, l: nat, last: nat)
    requires LastBefore(chain, p, l, last)
    ensures Target(InsertAt(chain, p, x), p, l) == if l < x.level then Target(chain, last, l) else null
  {
    var j := NextAt(chain, last, l);
    assert j >= p;
    NextAtIs(InsertAt(chain, p, x), p, l, j + 1);
  }

  // ---------------------------------------------------------------- the heap shape

  /** Slot arrays have the right size, and `owner` shows that no two nodes share one. */
  ghost predicate Towers<K, V>(chain: seq<Node<K, V>>, owner: map<array<Node?<K, V>>, nat>) {
    forall i :: 0 <= i < |chain| ==>
      && 1 <= chain[i].level <= MAX_LEVEL && chain[i].next.Length == MAX_LEVEL
      && chain[i].next in owner && owner[chain[i].next] == i
  }

  /** Every slot of every node points to the next tower tall enough, or is null. */
  ghost predicate Linked<K, V>(chain: seq<Node<K, V>>, owner: map<array<Node?<K, V>>, nat>)
    requires Towers(chain, owner)
    reads owner.Keys
  {
    forall i, l :: 0 <= i < |chain| && 0 <= l < MAX_LEVEL ==> chain[i].next[l] == Target(chain, i, l)
  }

  ghost function OwnerAfterInsert<K, V>(owner: map<array<Node?<K, V>>, nat>, p: nat, cell: array<Node?<K, V>>)
    : map<array<Node?<K, V>>, nat>
  {
    map a | a in owner.Keys + {cell} :: if a == cell then p else if owner[a] < p then owner[a] else owner[a] + 1
  }

  lemma TowersAfterInsert<K, V>(chain: seq<Node<K, V>>, owner: map<array<Node?<K, V>>, nat>, p: nat, x: Node<K, V>)
    requires Towers(chain, owner) && p <= |chain|
    requires 1 <= x.level <= MAX_LEVEL && x.next.Length == MAX_LEVEL && x.next !in owner
    ensures Towers(InsertAt(chain, p, x), OwnerAfterInsert(owner, p, x.next))
    ensures OwnerAfterInsert(owner, p, x.next).Keys == owner.Keys + {x.next}
  {
  }

  /** The slots as the splice loop leaves them. */
  ghost predicate Spliced<K, V>(chain: seq<Node<K, V>>, owner: map<array<Node?<K, V>>, nat>,
                                x: Node<K, V>, from: nat, idx: seq<nat>)
    requires Towers(chain, owner) && x.next.Length == MAX_LEVEL
    requires |idx| == MAX_LEVEL && forall l :: 0 <= l < MAX_LEVEL ==> idx[l] < |chain|
    reads owner.Keys, x.next
  {
    && (forall i, l :: 0 <= i < |chain| && 0 <= l < MAX_LEVEL ==>
          chain[i].next[l] == if from <= l < x.level && i == idx[l] then x else Target(chain, i, l))
    && (forall l :: 0 <= l < MAX_LEVEL ==>
          x.next[l] == if from <= l < x.level then Target(chain, idx[l], l) else null)
  }

  lemma SlotAfterInsert<K, V>(chain: seq<Node<K, V>>, p: nat, x: Node<K, V>, l: nat, last: nat, i: nat)
    requires i <= |chain| && p <= |chain| && LastBefore(chain, p, l, last)
    ensures Target(InsertAt(chain, p, x), i, l) ==
            if i < p then (if l < x.level && i == last then x else Target(chain, i, l))
            else if i > p then Target(chain, i - 1, l)
            else if l < x.level then Target(chain, last, l) else null
  {
    if i < p {
      TargetBeforeInsert(chain, p, x, l, last, i);
    } else if i == p {
      TargetOfInserted(chain, p, x, l, last);
    } else {
      TargetAfterInsert(chain, p, x, l, i - 1);
    }
  }

  lemma LinkedAfterInsert<K, V>(chain: seq<Node<K, V>>, owner: map<array<Node?<K, V>>, nat>,
                                p: nat, x: Node<K, V>, idx: seq<nat>)
    requires Towers(chain, owner) && x.next.Length == MAX_LEVEL && PreviousAt(chain, p, idx)
    requires Spliced(chain, owner, x, 0, idx)
    requires Towers(InsertAt(chain, p, x), OwnerAfterInsert(owner, p, x.next))
    ensures Linked(InsertAt(chain, p, x), OwnerAfterInsert(owner, p, x.next))
  {
    var now := InsertAt(chain, p, x);
    forall i, l | 0 <= i < |now| && 0 <= l < MAX_LEVEL
      ensures now[i].next[l] == Target(now, i, l)
    {
      SlotAfterInsert(chain, p, x, l, idx[l], i);
    }
  }

  ghost function OwnerAfterRemove<K, V>(owner: map<array<Node?<K, V>>, nat>, p: nat, cell: array<Node?<K, V>>)
    : map<array<Node?<K, V>>, nat>
  {
    map a | a in owner.Keys - {cell} :: if owner[a] <= p then owner[a] else owner[a] - 1
  }

  lemma TowersAfterRemove<K, V>(chain: seq<Node<K, V>>, owner: map<array<Node?<K, V>>, nat>, p: nat)
    requires Towers(chain, owner) && p < |chain|
    ensures Towers(RemoveAt(chain, p), OwnerAfterRemove(owner, p, chain[p].next))
    ensures OwnerAfterRemove(owner, p, chain[p].next).Keys <= owner.Keys
  {
  }

  /** The slots as the walk-up of `remove` leaves them after visiting the level indices below `to`. */
  ghost predicate Bypassed<K, V>(chain: seq<Node<K, V>>, owner: map<array<Node?<K, V>>, nat>,
                                 p: nat, to: nat, idx: seq<nat>)
    requires Towers(chain, owner) && p < |chain|
    requires |idx| == MAX_LEVEL
    reads owner.Keys
  {
    forall i, l :: 0 <= i < |chain| && 0 <= l < MAX_LEVEL ==>
      chain[i].next[l] ==
      if l < to && i == idx[l] && Target(chain, i, l) == chain[p] then Target(chain, p, l) else Target(chain, i, l)
  }

  lemma SlotAfterRemove<K, V>(chain: seq<Node<K, V>>, p: nat, l: nat, last: nat, i: nat)
    requires i < |chain| && i != p && p < |chain| && LastBefore(chain, p, l, last)
    requires forall a, b :: 0 <= a < b < |chain| ==> chain[a] != chain[b]
    ensures Target(RemoveAt(chain, p), if i < p then i else i - 1, l) ==
            if i == last && Target(chain, i, l) == chain[p] then Target(chain, p, l) else Target(chain, i, l)
  {
    var now := RemoveAt(chain, p);
    var x := chain[p];
    assert InsertAt(now, p, x) == chain;
    assert LastBefore(now, p, l, last);
    SlotAfterInsert(now, p, x, l, last, i);
    SlotAfterInsert(now, p, x, l, last, p);
  }

  lemma TowersAreDistinct<K, V>(chain: seq<Node<K, V>>, owner: map<array<Node?<K, V>>, nat>)
    requires Towers(chain, owner)
    ensures forall a, b :: 0 <= a < b < |chain| ==> chain[a] != chain[b]
  {
  }

  lemma LinkedAfterRemove<K, V>(chain: seq<Node<K, V>>, owner: map<array<Node?<K, V>>, nat>, p: nat, idx: seq<nat>)
    requires Towers(chain, owner) && p < |chain| && PreviousAt(chain, p, idx)
    requires Bypassed(chain, owner, p, MAX_LEVEL, idx)
    requires Towers(RemoveAt(chain, p), OwnerAfterRemove(owner, p, chain[p].next))
    ensures Linked(RemoveAt(chain, p), OwnerAfterRemove(owner, p, chain[p].next))
  {
    var now := RemoveAt(chain, p);
    TowersAreDistinct(chain, owner);
    forall i, l | 0 <= i < |now| && 0 <= l < MAX_LEVEL
      ensures now[i].next[l] == Target(now, i, l)
    {
      var was := if i < p then i else i + 1;
      SlotAfterRemove(chain, p, l, idx[l], was);
    }
  }

  const SIZE_T: nat := 0x1_0000_0000_0000_0000

  /** The array indices the walk-up of `remove` uses when it starts at `level`, in `size_t` arithmetic. */
  ghost function WalkUpIndices(level: nat): seq<nat>
    decreases MAX_LEVEL + 1 - level
  {
    if level > MAX_LEVEL then [] else [(level - 1) % SIZE_T] + WalkUpIndices(level + 1)
  }

  ghost predicate AllSlots(indices: seq<nat>) {
    forall i :: 0 <= i < |indices| ==> indices[i] < 16
  }

  /** The descent leaves `level` at 0, not at 1 as the comment in `remove` has it; from there the first
      index wraps around. Every index is a slot exactly when the walk-up starts above 0. */
  lemma {:induction false} WalkUpStaysInBounds(level: nat)
    requires level <= MAX_LEVEL + 1
    ensures AllSlots(WalkUpIndices(level)) <==> level >= 1
    ensures level == 0 ==> WalkUpIndices(level)[0] == 0xFFFF_FFFF_FFFF_FFFF
    decreases MAX_LEVEL + 1 - level
  {
    if level <= MAX_LEVEL {
      WalkUpStaysInBounds(level + 1);
      assert (level - 1) % SIZE_T == if level == 0 then SIZE_T - 1 else level - 1;
      var all, rest := WalkUpIndices(level), WalkUpIndices(level + 1);
      assert all[0] == (level - 1) % SIZE_T;
      assert forall i :: 0 <= i < |rest| ==> rest[i] == all[i + 1];
    }
  }

  // ---------------------------------------------------------------- walking one level

  /** The subsequence of nodes that reach above level index `l`. */
  ghost function Taller<K, V>(chain: seq<Node<K, V>>, l: nat): seq<Node<K, V>> {
    if chain == [] then []
    else (if chain[0].level > l then [chain[0]] else []) + Taller(chain[1..], l)
  }

  /** `walk` is what following slot `l` from `node` visits until a null pointer ends it. */
  ghost predicate IsWalk<K, V>(walk: seq<Node<K, V>>, node: Node<K, V>, l: nat)
    reads set n | n in walk :: n.next
  {
    && walk != [] && walk[0] == node && l < node.next.Length
    && if |walk| == 1 then node.next[l] == null
       else node.next[l] == walk[1] && IsWalk(walk[1..], walk[1], l)
  }

  lemma {:induction false} TallerFrom<K, V>(chain: seq<Node<K, V>>, i: nat, j: nat, l: nat)
    requires i <= j <= |chain| && forall m :: i <= m < j ==> chain[m].level <= l
    ensures Taller(chain[i..], l) == Taller(chain[j..], l)
    decreases j - i
  {
    if i < j {
      assert chain[i..][1..] == chain[i + 1..];
      TallerFrom(chain, i + 1, j, l);
    }
  }

  lemma {:induction false} WalkFromIs<K, V>(chain: seq<Node<K, V>>, owner: map<array<Node?<K, V>>, nat>,
                                            i: nat, l: nat, walk: seq<Node<K, V>>)
    requires Towers(chain, owner) && Linked(chain, owner)
    requires i < |chain| && l < MAX_LEVEL && chain[i].level > l
    ensures IsWalk(walk, chain[i], l) <==> walk == Taller(chain[i..], l)
    decreases |chain| - i
  {
    var j := NextAt(chain, i, l);
    assert chain[i].next[l] == Target(chain, i, l);
    assert chain[i..][1..] == chain[i + 1..];
    TallerFrom(chain, i + 1, j, l);
    assert Taller(chain[i..], l) == [chain[i]] + Taller(chain[j..], l);
    if j < |chain| {
      assert Taller(chain[j..], l)[0] == chain[j];
      if |walk| > 1 {
        WalkFromIs(chain, owner, j, l, walk[1..]);
        assert walk == [walk[0]] + walk[1..];
      }
    } else {
      assert Taller(chain[i..], l) == [chain[i]];
    }
  }

  lemma {:induction false} TallerMembers<K, V>(chain: seq<Node<K, V>>, l: nat, n: Node<K, V>)
    ensures n in Taller(chain, l) <==> n in chain && n.level > l
  {
    if chain != [] {
      TallerMembers(chain[1..], l, n);
    }
  }

  /** A subsequence of distinct nodes in key order is again distinct and in key order. */
  lemma {:induction false} TallerKeepsOrder<K, V>(chain: seq<Node<K, V>>, l: nat, less: (K, K) -> bool)
    requires forall i, j :: 0 <= i < j < |chain| ==> chain[i] != chain[j] && !less(chain[j].key, chain[i].key)
    ensures var t := Taller(chain, l);
            forall i, j :: 0 <= i < j < |t| ==> t[i] != t[j] && !less(t[j].key, t[i].key)
  {
    if chain != [] {
      var rest := chain[1..];
      TallerKeepsOrder(rest, l, less);
      var t := Taller(rest, l);
      forall j | 0 <= j < |t| ensures t[j] != chain[0] && !less(t[j].key, chain[0].key) {
        TallerMembers(rest, l, t[j]);
        var m :| 0 <= m < |rest| && rest[m] == t[j];
        assert chain[m + 1] == t[j];
      }
    }
  }

  lemma {:induction false} DistinctMeansOnce<K, V>(chain: seq<Node<K, V>>, owner: map<array<Node?<K, V>>, nat>,
                                                   n: Node<K, V>)
    requires Towers(chain, owner)
    ensures multiset(chain)[n] <= 1
  {
    if chain != [] {
      var front, last := chain[..|chain| - 1], chain[|chain| - 1];
      assert chain == front + [last];
      DistinctMeansOnce(front, owner, n);
      if last == n {
        assert n !in front;
      }
    }
  }

  // ---------------------------------------------------------------- the entries

  /** The entries held behind the header, in level-0 order. */
  ghost function EntriesOf<K, V>(chain: seq<Node<K, V>>): (es: seq<Entry<K, V>>)
    requires |chain| >= 1
    ensures |es| == |chain| - 1
  {
    seq(|chain| - 1, i requires 0 <= i < |chain| - 1 =>
      Entry(chain[i + 1].key, chain[i + 1].value, chain[i + 1].level))
  }

  lemma EntriesAfterInsert<K(!new), V>(chain: seq<Node<K, V>>, p: nat, x: Node<K, V>, less: (K, K) -> bool)
    requires |chain| >= 1 && StrictTotalOrder(less) && Sorted(EntriesOf(chain), less)
    requires p == LowerBound(EntriesOf(chain), x.key, less) + 1
    ensures EntriesOf(InsertAt(chain, p, x)) == InsertEntry(EntriesOf(chain), Entry(x.key, x.value, x.level), less)
    ensures Sorted(EntriesOf(InsertAt(chain, p, x)), less)
  {
    InsertKeepsSorted(EntriesOf(chain), Entry(x.key, x.value, x.level), less);
  }

  lemma EntriesAfterRemove<K(!new), V>(chain: seq<Node<K, V>>, p: nat, less: (K, K) -> bool)
    requires 1 <= p < |chain| && Sorted(EntriesOf(chain), less)
    ensures EntriesOf(RemoveAt(chain, p)) == RemoveAt(EntriesOf(chain), p - 1)
    ensures Sorted(EntriesOf(RemoveAt(chain, p)), less)
  {
    var now := EntriesOf(RemoveAt(chain, p));
    var want := RemoveAt(EntriesOf(chain), p - 1);
    assert forall i :: 0 <= i < |now| ==> now[i] == want[i];
    assert now == want;
    RemoveKeepsSorted(EntriesOf(chain), p - 1, less);
  }

  class SkipList<K(!new, ==), V> {
    const less: (K, K) -> bool
    var nodes: seq<Node<K, V>>
    var levelGenerator: LevelGenerator?

    ghost var chain: seq<Node<K, V>>     // the header, then the level-0 nodes in order
    ghost var owner: map<array<Node?<K, V>>, nat>    // the chain index of each slot array
    ghost var Repr: set<object>

    ghost predicate Owned()
      reads this
    {
      && Towers(chain, owner) && this in Repr && owner.Keys <= Repr
      && |chain| >= 1 && nodes != [] && nodes[0] == chain[0] && chain[0].level == MAX_LEVEL
      && multiset(nodes) == multiset(chain)
      && (levelGenerator != null ==>
            levelGenerator in Repr && levelGenerator.maxLevel <= MAX_LEVEL)
    }

    ghost predicate Ordered()
      requires |chain| >= 1
      reads this
    {
      StrictTotalOrder(less) && Sorted(EntriesOf(chain), less)
    }

    ghost predicate Valid()
      reads this, Repr
    {
      && Owned() && Linked(chain, owner) && Ordered()
      && (levelGenerator != null ==> levelGenerator.Valid())
    }

    ghost function Entries(): seq<Entry<K, V>>
      requires |chain| >= 1
      reads this
    {
      EntriesOf(chain)
    }

    constructor (less: (K, K) -> bool, emptyKey: K, emptyValue: V, levelGenerator: LevelGenerator?)
      requires StrictTotalOrder(less)
      requires levelGenerator != null ==> levelGenerator.Valid() && levelGenerator.maxLevel <= MAX_LEVEL
      ensures Valid() && Entries() == [] && this.less == less && this.levelGenerator == levelGenerator
      ensures fresh(Repr - (if levelGenerator == null then {} else {levelGenerator}))
    {
      var header := new Node(emptyKey, emptyValue, MAX_LEVEL);
      this.less := less;
      this.levelGenerator := levelGenerator;
      nodes, chain, owner := [header], [header], map[header.next := 0];
      Repr := {this, header.next};
      new;
      if levelGenerator != null {
        Repr := Repr + {levelGenerator};
      }
    }

    /** In every reachable list and on every level, the walk from the header ends in null and is exactly the
        subsequence of tall enough nodes of the level-0 walk. */
    lemma LevelWalk(l: nat, walk: seq<Node<K, V>>)
      requires Valid() && l < MAX_LEVEL
      ensures IsWalk(walk, nodes[0], l) <==> walk == Taller(chain, l)
      ensures l == 0 ==> Taller(chain, l) == chain
    {
      assert chain[0..] == chain;
      WalkFromIs(chain, owner, 0, l, walk);
      TallerIsAll(chain);
    }

    /** The walks visit no node twice and keep key order; the header, walked first, has no place in it. */
    lemma LevelOrder(l: nat)
      requires Valid() && l < MAX_LEVEL
      ensures var t := Taller(chain, l);
              && t != [] && t[0] == nodes[0] && nodes[0] !in t[1..]
              && forall i, j :: 1 <= i < j < |t| ==> t[i] != t[j] && !less(t[j].key, t[i].key)
    {
      TowersAreDistinct(chain, owner);
      var rest := chain[1..];
      forall i, j | 0 <= i < j < |rest|
        ensures rest[i] != rest[j] && !less(rest[j].key, rest[i].key)
      {
        assert rest[i].key == Entries()[i].key && rest[j].key == Entries()[j].key;
      }
      TallerKeepsOrder(rest, l, less);
      TallerMembers(rest, l, chain[0]);
      assert Taller(chain, l) == [chain[0]] + Taller(rest, l);
    }

    /** The level-0 walk visits the nodes owned by `d_nodes`, each once, and unused slots are null. */
    lemma NodesAreTheChain(n: Node<K, V>, l: nat)
      requires Valid() && l < MAX_LEVEL
      ensures n in nodes <==> exists i :: 0 <= i < |chain| && chain[i] == n
      ensures |nodes| == |chain| && multiset(nodes)[n] <= 1
      ensures n in nodes && n.level <= l ==> n.next.Length == MAX_LEVEL && n.next[l] == null
    {
      assert |nodes| == |multiset(nodes)| == |multiset(chain)| == |chain|;
      assert n in nodes <==> n in multiset(nodes);
      assert n in chain <==> n in multiset(chain);
      DistinctMeansOnce(chain, owner, n);
      if n in nodes {
        var i :| 0 <= i < |chain| && chain[i] == n;
        assert chain[i].next[l] == Target(chain, i, l);
      }
    }

    lemma {:induction false} TallerIsAll(c: seq<Node<K, V>>)
      requires forall i :: 0 <= i < |c| ==> c[i].level >= 1
      ensures Taller(c, 0) == c
    {
      if c != [] {
        TallerIsAll(c[1..]);
      }
    }

    /** Where the run of nodes bound to `key` lies in the chain: nothing before `p` or from `q` on has that key. */
    lemma RunOf(key: K) returns (p: nat, q: nat)
      requires |chain| >= 1 && Ordered()
      ensures p == LowerBound(Entries(), key, less) + 1
      ensures 1 <= p <= q <= |chain|
      ensures forall i :: 1 <= i < |chain| ==> (less(chain[i].key, key) <==> i < p)
      ensures forall i :: 1 <= i < |chain| ==> (chain[i].key == key <==> p <= i < q)
    {
      var es := Entries();
      LowerBoundSplits(es, key, less);
      p := LowerBound(es, key, less) + 1;
      q := p;
      while q < |chain| && chain[q].key == key
        invariant p <= q <= |chain|
        invariant forall i :: p <= i < q ==> chain[i].key == key
      {
        q := q + 1;
      }
      forall i | 1 <= i < |chain|
        ensures less(chain[i].key, key) <==> i < p
        ensures chain[i].key == key <==> p <= i < q
      {
        assert es[i - 1].key == chain[i].key;
        if q < |chain| {
          assert es[q - 1].key == chain[q].key;
        }
      }
    }

    method Find(key: K) returns (r: Option<V>, ghost steps: nat)
      requires Valid()
      ensures r == FindEntry(Entries(), key, less)
      ensures steps <= |Entries()| + 16
    {
      ghost var p, q := RunOf(key);
      hide StrictTotalOrder, Sorted, LowerBound;
      ghost var pos := 0;
      var currentNode := nodes[0];
      var level: nat := currentNode.level;
      steps := 0;
      while level > 0
        invariant 0 <= pos < p && currentNode == chain[pos]
        invariant level <= currentNode.level
        invariant forall m :: pos < m < q ==> chain[m].level <= level
        invariant steps + level <= MAX_LEVEL + pos
        decreases |chain| - pos, level
      {
        var levelIndex := level - 1;
        ghost var j := NextAt(chain, pos, levelIndex);
        var nextNode := currentNode.next[levelIndex];
        assert nextNode == Target(chain, pos, levelIndex);
        steps := steps + 1;
        if nextNode != null && nextNode.key == key {
          TallestIs(key, p, q, j);
          return Some(nextNode.value), steps;
        }
        if nextNode != null && less(nextNode.key, key) {
          currentNode := nextNode;
          pos := j;
          level := currentNode.level;
        } else {
          level := level - 1;
        }
      }
      r := None;
    }

    /** One step of a descent on level index `l`, from a node in front of position `p`: either on to a node that is
        still in front of it, or down, and then this is the last node of the level in front of it. */
    lemma Follow(key: K, p: nat, pos: nat, l: nat) returns (j: nat)
      requires Towers(chain, owner) && Linked(chain, owner)
      requires pos < p <= |chain| && l < MAX_LEVEL && l < chain[pos].level
      requires forall i :: 1 <= i < |chain| ==> (less(chain[i].key, key) <==> i < p)
      ensures chain[pos].next.Length == MAX_LEVEL
      ensures var n := chain[pos].next[l];
              if n != null && less(n.key, key) then pos < j < p && chain[j] == n && l < n.level
              else LastBefore(chain, p, l, pos)
    {
      j := NextAt(chain, pos, l);
      assert chain[pos].next[l] == Target(chain, pos, l);
    }

    /** The first half of `insert`. Slot `l` of the result is the last node above level index `l` whose key
        is smaller, so it is never null and `insert` never falls back to the header. */
    method DescendToInsert(key: K) returns (previousNodes: array<Node?<K, V>>, ghost idx: seq<nat>)
      requires Valid()
      ensures fresh(previousNodes) && previousNodes.Length == MAX_LEVEL
      ensures PreviousAt(chain, LowerBound(Entries(), key, less) + 1, idx)
      ensures forall l :: 0 <= l < MAX_LEVEL ==> previousNodes[l] == chain[idx[l]]
    {
      hide StrictTotalOrder, Sorted, LowerBound, EntriesOf, Linked, LastBefore;
      ghost var p, q := RunOf(key);
      ghost var pos := 0;
      var node := nodes[0];
      var level: nat := MAX_LEVEL;
      previousNodes := new Node?<K, V>[MAX_LEVEL](_ => null);
      idx := seq(MAX_LEVEL, _ => 0);
      while level > 0
        invariant 0 <= pos < p && node == chain[pos] && level <= MAX_LEVEL
        invariant level <= node.level && |idx| == MAX_LEVEL
        invariant forall l :: level <= l < MAX_LEVEL ==> idx[l] < p && LastBefore(chain, p, l, idx[l])
        invariant forall l :: level <= l < MAX_LEVEL ==> previousNodes[l] == chain[idx[l]]
        decreases |chain| - pos, level
      {
        var levelIndex := level - 1;
        previousNodes[levelIndex] := node;
        idx := idx[levelIndex := pos];
        ghost var j := Follow(key, p, pos, levelIndex);
        var nextNode := node.next[levelIndex];
        if nextNode != null && less(nextNode.key, key) {
          node := nextNode;
          pos := j;
        } else {
          level := level - 1;
        }
      }
    }

    /** The second half of `insert`: hooks `newNode` in behind the previous node of each of its levels. */
    method Splice(newNode: Node<K, V>, previousNodes: array<Node?<K, V>>, ghost p: nat, ghost idx: seq<nat>)
      requires Towers(chain, owner) && Linked(chain, owner) && PreviousAt(chain, p, idx)
      requires previousNodes.Length == MAX_LEVEL && previousNodes !in owner && previousNodes != newNode.next
      requires newNode.next !in owner && newNode.next.Length == MAX_LEVEL && newNode.level <= MAX_LEVEL
      requires forall l :: 0 <= l < MAX_LEVEL ==> previousNodes[l] == chain[idx[l]] && newNode.next[l] == null
      modifies owner.Keys, newNode.next
      ensures Spliced(chain, owner, newNode, 0, idx)
    {
      var level: nat := newNode.level;
      while level > 0
        invariant level <= newNode.level
        invariant Spliced(chain, owner, newNode, level, idx)
        invariant forall l :: 0 <= l < MAX_LEVEL ==> previousNodes[l] == chain[idx[l]]
      {
        var levelIndex := level - 1;
        var previousNodeAtLevel := previousNodes[levelIndex];
        assert previousNodeAtLevel == chain[idx[levelIndex]];
        label Before:
        if previousNodeAtLevel != null {
          newNode.next[levelIndex] := previousNodeAtLevel.next[levelIndex];
          previousNodeAtLevel.next[levelIndex] := newNode;
        } else {
          assert false;
        }
        assert forall i, l :: 0 <= i < |chain| && 0 <= l < MAX_LEVEL ==>
          chain[i].next[l] == if l == levelIndex && i == idx[levelIndex] then newNode else old@Before(chain[i].next[l]);
        level := level - 1;
      }
    }

    /** The configured generator's answer, or one more for each flip that comes up heads. */
    method ComputeLevel() returns (level: nat, ghost flips: seq<bool>)
      requires levelGenerator != null ==> levelGenerator.Valid() && levelGenerator.maxLevel <= MAX_LEVEL
      modifies levelGenerator
      ensures levelGenerator != null ==> levelGenerator.Valid() && level == levelGenerator.level
      ensures 1 <= level <= 16
      ensures levelGenerator == null ==>
                |flips| == level && (forall i :: 0 <= i < level - 1 ==> flips[i]) && (level < 16 ==> !flips[level - 1])
    {
      if levelGenerator != null {
        level := levelGenerator.ComputeLevel();
        flips := [];
        return;
      }
      level := 1;
      var heads: bool := *;
      flips := [heads];
      while heads && level < MAX_LEVEL
        invariant 1 <= level <= MAX_LEVEL && |flips| == level && flips[level - 1] == heads
        invariant forall i :: 0 <= i < level - 1 ==> flips[i]
      {
        level := level + 1;
        heads := *;
        flips := flips + [heads];
      }
    }

    method Insert(key: K, value: V) returns (ghost level: nat)
      requires Valid()
      modifies Repr
      ensures Valid() && fresh(Repr - old(Repr))
      ensures levelGenerator == old(levelGenerator)
      ensures levelGenerator != null ==> level == levelGenerator.level
      ensures 1 <= level <= MAX_LEVEL
      ensures Entries() == InsertEntry(old(Entries()), Entry(key, value, level), less)
      ensures |nodes| == |old(nodes)| + 1 && nodes[..|old(nodes)|] == old(nodes)
    {
      ghost var p := LowerBound(Entries(), key, less) + 1;
      var previousNodes;
      ghost var idx;
      previousNodes, idx := DescendToInsert(key);
      var newLevel;
      ghost var flips;
      newLevel, flips := ComputeLevel();
      level := newLevel;
      var newNode := new Node(key, value, newLevel);
      EntriesAfterInsert(chain, p, newNode, less);
      Attach(newNode, previousNodes, p, idx);
    }

    /** Once spliced in, `x` can take its place in the ghost state. */
    lemma ReadyToAdopt(x: Node<K, V>, p: nat, idx: seq<nat>)
      requires Owned() && 1 <= p && PreviousAt(chain, p, idx)
      requires x.next !in owner && x.next.Length == MAX_LEVEL && 1 <= x.level <= MAX_LEVEL
      requires Spliced(chain, owner, x, 0, idx)
      ensures var now, nowOwner := InsertAt(chain, p, x), OwnerAfterInsert(owner, p, x.next);
              && Towers(now, nowOwner) && Linked(now, nowOwner) && nowOwner.Keys == owner.Keys + {x.next}
              && multiset(now) == multiset(nodes + [x]) && now[0] == chain[0]
    {
      TowersAfterInsert(chain, owner, p, x);
      LinkedAfterInsert(chain, owner, p, x, idx);
      InsertAtMultiset(chain, p, x);
    }

    /** Splices the node in and hands it to the `d_nodes` vector. */
    method Attach(newNode: Node<K, V>, previousNodes: array<Node?<K, V>>, ghost p: nat, ghost idx: seq<nat>)
      requires Owned() && Linked(chain, owner) && 1 <= p && PreviousAt(chain, p, idx)
      requires previousNodes.Length == MAX_LEVEL && previousNodes !in owner && previousNodes != newNode.next
      requires newNode.next !in Repr && newNode.next.Length == MAX_LEVEL && 1 <= newNode.level <= MAX_LEVEL
      requires forall l :: 0 <= l < MAX_LEVEL ==> previousNodes[l] == chain[idx[l]] && newNode.next[l] == null
      modifies this, owner.Keys, newNode.next
      ensures Owned() && Linked(chain, owner)
      ensures chain == InsertAt(old(chain), p, newNode) && nodes == old(nodes) + [newNode]
      ensures Repr == old(Repr) + {newNode.next} && levelGenerator == old(levelGenerator)
    {
      ghost var now, nowOwner := InsertAt(chain, p, newNode), OwnerAfterInsert(owner, p, newNode.next);
      hide Linked, Spliced, Towers, LastBefore, PreviousAt, OwnerAfterInsert, InsertAt;
      Splice(newNode, previousNodes, p, idx);
      ReadyToAdopt(newNode, p, idx);
      nodes := nodes + [newNode];
      Repr := Repr + {newNode.next};
      Rechain(now, nowOwner);
    }

    /** The ghost state follows the pointers and the vector. */
    ghost method Rechain(now: seq<Node<K, V>>, nowOwner: map<array<Node?<K, V>>, nat>)
      requires Towers(now, nowOwner) && Linked(now, nowOwner) && this in Repr && nowOwner.Keys <= Repr
      requires now != [] && nodes != [] && nodes[0] == now[0] && now[0].level == MAX_LEVEL
      requires multiset(nodes) == multiset(now)
      requires levelGenerator != null ==> levelGenerator in Repr && levelGenerator.maxLevel <= MAX_LEVEL
      modifies `chain, `owner
      ensures chain == now && owner == nowOwner && Owned() && Linked(chain, owner)
    {
      hide Linked, Towers;
      chain, owner := now, nowOwner;
    }

    /** The first half of `remove`: the last node with a smaller key, overall and on each level. */
    method DescendToRemove(key: K) returns (node: Node<K, V>, previousNodes: array<Node?<K, V>>, ghost idx: seq<nat>)
      requires Valid()
      ensures fresh(previousNodes) && previousNodes.Length == MAX_LEVEL
      ensures PreviousAt(chain, LowerBound(Entries(), key, less) + 1, idx)
      ensures forall l :: 0 <= l < MAX_LEVEL ==> previousNodes[l] == chain[idx[l]]
      ensures node == chain[idx[0]]
    {
      hide StrictTotalOrder, Sorted, LowerBound, EntriesOf, Linked, LastBefore;
      ghost var p, q := RunOf(key);
      ghost var pos := 0;
      node := nodes[0];
      var level: nat := MAX_LEVEL;
      previousNodes := new Node?<K, V>[MAX_LEVEL](_ => null);
      idx := seq(MAX_LEVEL, _ => 0);
      while level > 0
        invariant 0 <= pos < p && node == chain[pos] && level <= MAX_LEVEL
        invariant level <= node.level && |idx| == MAX_LEVEL
        invariant level == 0 ==> idx[0] == pos
        invariant forall l :: level <= l < MAX_LEVEL ==> idx[l] < p && LastBefore(chain, p, l, idx[l])
        invariant forall l :: level <= l < MAX_LEVEL ==> previousNodes[l] == chain[idx[l]]
        decreases |chain| - pos, level
      {
        var levelIndex := level - 1;
        ghost var j := Follow(key, p, pos, levelIndex);
        var nextNode := node.next[levelIndex];
        if nextNode != null && less(nextNode.key, key) {
          node := nextNode;
          pos := j;
        } else {
          previousNodes[levelIndex] := node;
          idx := idx[levelIndex := pos];
          level := level - 1;
        }
      }
    }

    /** The walk-up of `remove`, started at level 1: every pointer to `nodeToRemove` is made to skip it. */
    method Bypass(nodeToRemove: Node<K, V>, previousNodes: array<Node?<K, V>>, ghost p: nat, ghost idx: seq<nat>)
      requires Towers(chain, owner) && Linked(chain, owner) && p < |chain| && PreviousAt(chain, p, idx)
      requires nodeToRemove == chain[p]
      requires previousNodes.Length == MAX_LEVEL && previousNodes !in owner
      requires forall l :: 0 <= l < MAX_LEVEL ==> previousNodes[l] == chain[idx[l]]
      modifies owner.Keys
      ensures Bypassed(chain, owner, p, MAX_LEVEL, idx)
    {
      var level: nat := 1;
      while level <= MAX_LEVEL
        invariant 1 <= level <= MAX_LEVEL + 1
        invariant Bypassed(chain, owner, p, level - 1, idx)
        invariant forall l :: 0 <= l < MAX_LEVEL ==> previousNodes[l] == chain[idx[l]]
      {
        var levelIndex := level - 1;
        var previousNode := previousNodes[levelIndex];
        assert LastBefore(chain, p, levelIndex, idx[levelIndex]);
        label Before:
        if previousNode.next[levelIndex] == nodeToRemove {
          previousNode.next[levelIndex] := nodeToRemove.next[levelIndex];
        }
        assert forall i, l :: 0 <= i < |chain| && 0 <= l < MAX_LEVEL ==>
          chain[i].next[l] ==
          if l == levelIndex && i == idx[levelIndex] && Target(chain, i, l) == chain[p] then Target(chain, p, l)
          else old@Before(chain[i].next[l]);
        level := level + 1;
      }
    }

    /** Once bypassed, the node at position `p` can leave the ghost state. */
    lemma ReadyToForget(p: nat, idx: seq<nat>)
      requires Owned() && 1 <= p < |chain| && PreviousAt(chain, p, idx)
      requires Bypassed(chain, owner, p, MAX_LEVEL, idx)
      ensures chain[p] in nodes && chain[p] != nodes[0]
      ensures var now, nowOwner := RemoveAt(chain, p), OwnerAfterRemove(owner, p, chain[p].next);
              && Towers(now, nowOwner) && Linked(now, nowOwner) && nowOwner.Keys <= owner.Keys
              && multiset(now) == multiset(nodes) - multiset{chain[p]} && now[0] == chain[0]
    {
      TowersAfterRemove(chain, owner, p);
      LinkedAfterRemove(chain, owner, p, idx);
      RemoveAtMultiset(chain, p);
      assert chain[p] in multiset(chain);
      assert owner[chain[0].next] != owner[chain[p].next];
    }

    /** Bypasses the node at position `p` and erases it from the `d_nodes` vector. */
    method Detach(nodeToRemove: Node<K, V>, previousNodes: array<Node?<K, V>>, ghost p: nat, ghost idx: seq<nat>)
      requires Owned() && Linked(chain, owner) && 1 <= p < |chain| && PreviousAt(chain, p, idx)
      requires nodeToRemove == chain[p]
      requires previousNodes.Length == MAX_LEVEL && previousNodes !in owner
      requires forall l :: 0 <= l < MAX_LEVEL ==> previousNodes[l] == chain[idx[l]]
      modifies this, owner.Keys
      ensures Owned() && Linked(chain, owner)
      ensures chain == RemoveAt(old(chain), p) && multiset(nodes) == multiset(old(nodes)) - multiset{nodeToRemove}
      ensures Repr == old(Repr) && levelGenerator == old(levelGenerator)
    {
      hide Linked, Bypassed, Towers, LastBefore, PreviousAt, OwnerAfterRemove;
      ghost var now, nowOwner := RemoveAt(chain, p), OwnerAfterRemove(owner, p, nodeToRemove.next);
      hide RemoveAt;
      Bypass(nodeToRemove, previousNodes, p, idx);
      ReadyToForget(p, idx);
      EraseNode(nodeToRemove);
      Rechain(now, nowOwner);
    }

    /** `std::find_if` and `erase` on the vector of owned nodes. */
    method EraseNode(nodeToRemove: Node<K, V>)
      requires nodes != [] && nodeToRemove in nodes && nodeToRemove != nodes[0]
      modifies `nodes
      ensures multiset(nodes) == multiset(old(nodes)) - multiset{nodeToRemove}
      ensures nodes != [] && nodes[0] == old(nodes[0])
    {
      var k := 0;
      while nodes[k] != nodeToRemove
        invariant 0 <= k < |nodes| && nodeToRemove !in nodes[..k]
        decreases |nodes| - k
      {
        k := k + 1;
      }
      RemoveAtMultiset(nodes, k);
      nodes := nodes[..k] + nodes[k + 1..];
    }

    /** Answers whether `key` was there. When it was not, the list is as it was, and the source goes on to
        erase the end iterator, which has no defined effect. */
    method Remove(key: K) returns (removed: bool)
      requires Valid()
      modifies Repr
      ensures Valid() && Repr == old(Repr) && levelGenerator == old(levelGenerator)
      ensures removed <==> HasKey(old(Entries()), key)
      ensures Entries() == RemoveEntry(old(Entries()), key, less)
      ensures !removed ==> nodes == old(nodes) && chain == old(chain)
      ensures removed ==> |nodes| == |old(nodes)| - 1
    {
      ghost var p := LowerBound(Entries(), key, less) + 1;
      var node, previousNodes;
      ghost var idx;
      LowerBoundSplits(Entries(), key, less);
      node, previousNodes, idx := DescendToRemove(key);
      var nextNode := node.next[0];
      BottomIsLast(chain, owner, p, idx[0]);
      assert nextNode == Target(chain, p - 1, 0);
      if nextNode != null && nextNode.key == key {
        EntriesAfterRemove(chain, p, less);
        Detach(nextNode, previousNodes, p, idx);
        return true;
      }
      return false;
    }

    /** The first of the tallest nodes in the run bound to `key` is the one `find` must answer with. */
    lemma TallestIs(key: K, p: nat, q: nat, b: nat)
      requires |chain| >= 1
      requires p == LowerBound(Entries(), key, less) + 1
      requires p <= b < q <= |chain|
      requires forall i :: p <= i < |chain| ==> (chain[i].key == key <==> i < q)
      requires forall m :: p <= m < b ==> chain[m].level < chain[b].level
      requires forall m :: p <= m < q ==> chain[m].level <= chain[b].level
      ensures FindEntry(Entries(), key, less) == Some(chain[b].value)
    {
      hide TallestInRun, LowerBound, NextAt, Target;
      var es := Entries();
      var t := TallestInRun(es, key, p - 1);
      assert es[b - 1].level == chain[b].level && es[t].level == chain[t + 1].level;
      TallestBounds(es, key, p - 1, b - 1);
    }

    lemma {:induction false} TallestBounds(es: seq<Entry<K, V>>, key: K, i: nat, m: nat)
      requires i <= m < |es|
      requires forall n :: i <= n <= m ==> es[n].key == key
      ensures es[m].level <= es[TallestInRun(es, key, i)].level
      decreases m - i
    {
      if i < m {
        TallestBounds(es, key, i + 1, m);
      }
    }
  }
}
