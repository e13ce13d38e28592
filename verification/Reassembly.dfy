/** Putting the body of an HTTP response together again from captured TCP payloads. */
module Reassembly {
  import opened Options
  import opened Bytes
  import opened Splitting

  /** A captured payload; the data are followed by a zero byte in memory. */
  datatype Payload = Payload(sequenceNumber: uint32, data: seq<byte>)

  const DELIMITER: seq<byte> := [13, 10, 13, 10]

  /** `strstr` for the delimiter: the first place it begins, unless a zero byte ends the string before. */
  function StrStr(data: seq<byte>): Option<nat>
    decreases |data|
  {
    if DELIMITER <= data then Some(0)
    else if data == [] || data[0] == 0 then None
    else match StrStr(data[1..]) case Some(i) => Some(i + 1) case None => None
  }

  /** It is the first place, and nothing before it is zero. */
  lemma StrStrFindsFirst(data: seq<byte>)
    ensures match StrStr(data)
            case Some(i) =>
              && i + 4 <= |data| && data[i..i + 4] == [13, 10, 13, 10] && 0 !in data[..i]
              && forall j :: 0 <= j < i ==> !([13, 10, 13, 10] <= data[j..])
            case None => forall j :: 0 <= j <= |data| && 0 !in data[..j] ==> !([13, 10, 13, 10] <= data[j..])
  {
    DelimiterIsFirst(data);
    hide StrStr;
  }

  ghost predicate FoundAt(data: seq<byte>, i: nat) {
    && i + 4 <= |data| && data[i..i + 4] == DELIMITER && 0 !in data[..i]
    && forall j :: 0 <= j < i ==> !(DELIMITER <= data[j..])
  }

  ghost predicate FoundNowhere(data: seq<byte>) {
    forall j :: 0 <= j <= |data| && 0 !in data[..j] ==> !(DELIMITER <= data[j..])
  }

  lemma {:induction false} DelimiterIsFirst(data: seq<byte>)
    ensures match StrStr(data) case Some(i) => FoundAt(data, i) case None => FoundNowhere(data)
    decreases |data|
  {
    hide FoundAt, FoundNowhere;
    if DELIMITER <= data {
      FoundInFront(data);
    } else if data == [] || data[0] == 0 {
      NothingInFront(data);
    } else {
      DelimiterIsFirst(data[1..]);
      match StrStr(data[1..]) {
        case Some(i) => FoundBehind(data, i);
        case None => NothingBehind(data);
      }
    }
  }

  lemma FoundInFront(data: seq<byte>)
    requires DELIMITER <= data
    ensures FoundAt(data, 0)
  {
  }

  lemma NothingInFront(data: seq<byte>)
    requires !(DELIMITER <= data) && (data == [] || data[0] == 0)
    ensures FoundNowhere(data)
  {
    assert data[0..] == data;
    assert forall j :: 0 < j <= |data| ==> data[..j][0] == data[0];
  }

  /** The places behind the first one. */
  lemma Shifted(data: seq<byte>, j: nat)
    requires 0 < j <= |data|
    ensures data[j..] == data[1..][j - 1..] && data[..j] == [data[0]] + data[1..][..j - 1]
  {
  }

  lemma FoundBehind(data: seq<byte>, i: nat)
    requires !(DELIMITER <= data) && data != [] && data[0] != 0 && FoundAt(data[1..], i)
    ensures FoundAt(data, i + 1)
  {
    Shifted(data, i + 1);
    assert data[i + 1..i + 5] == data[1..][i..i + 4];
    forall j | 0 <= j < i + 1 ensures !(DELIMITER <= data[j..]) {
      if j > 0 {
        Shifted(data, j);
      } else {
        assert data[0..] == data;
      }
    }
  }

  lemma NothingBehind(data: seq<byte>)
    requires !(DELIMITER <= data) && data != [] && data[0] != 0 && FoundNowhere(data[1..])
    ensures FoundNowhere(data)
  {
    forall j | 0 <= j <= |data| && 0 !in data[..j] ensures !(DELIMITER <= data[j..]) {
      if j > 0 {
        Shifted(data, j);
      } else {
        assert data[0..] == data;
      }
    }
  }

  // ---------------------------------------------------------------- the list of captured payloads

  class PayloadNode {
    const payload: Payload
    var next: PayloadNode?

    constructor (payload: Payload)
      ensures this.payload == payload && next == null
    {
      this.payload, next := payload, null;
    }
  }

  /** `nodes` are the nodes from `head` on, each pointing to the one behind it. */
  ghost predicate Linked(head: PayloadNode?, nodes: seq<PayloadNode>)
    reads nodes
  {
    && (head == if nodes == [] then null else nodes[0])
    && forall i :: 0 <= i < |nodes| ==> nodes[i].next == if i + 1 < |nodes| then nodes[i + 1] else null
  }

  ghost predicate Carry(nodes: seq<PayloadNode>, payloads: seq<Payload>) {
    |nodes| == |payloads| && forall i :: 0 <= i < |nodes| ==> nodes[i].payload == payloads[i]
  }

  /** List building as the capture is read: append behind `prev`. */
  method Collect(captured: seq<Payload>)
    returns (head: PayloadNode?, numPayloadNodes: nat, ghost nodes: seq<PayloadNode>)
    ensures Linked(head, nodes) && Carry(nodes, captured) && numPayloadNodes == |captured|
  {
    head, numPayloadNodes, nodes := null, 0, [];
    var prev: PayloadNode? := null;
    for k := 0 to |captured|
      invariant Linked(head, nodes) && Carry(nodes, captured[..k]) && numPayloadNodes == k && fresh(nodes)
      invariant prev == if nodes == [] then null else nodes[|nodes| - 1]
      invariant forall i, j :: 0 <= i < j < |nodes| ==> nodes[i] != nodes[j]
    {
      var payloadNode := new PayloadNode(captured[k]);
      if head == null {
        head := payloadNode;
      }
      if prev != null {
        prev.next := payloadNode;
      }
      prev := payloadNode;
      numPayloadNodes := numPayloadNodes + 1;
      nodes := nodes + [payloadNode];
    }
  }

  /** The list's payloads, moved into an array. */
  method Gather(list: PayloadNode?, numPayloadNodes: nat, ghost nodes: seq<PayloadNode>, ghost captured: seq<Payload>)
    returns (sortedPayloads: array<Payload>)
    requires Linked(list, nodes) && Carry(nodes, captured) && numPayloadNodes == |captured|
    ensures fresh(sortedPayloads) && sortedPayloads[..] == captured
  {
    sortedPayloads := new Payload[numPayloadNodes](_ => Payload(0, []));
    var payloadIndex: nat, head := 0, list;
    while head != null
      invariant payloadIndex <= |nodes| && head == if payloadIndex < |nodes| then nodes[payloadIndex] else null
      invariant Linked(list, nodes)
      invariant forall i :: 0 <= i < payloadIndex ==> sortedPayloads[i] == captured[i]
      decreases |nodes| - payloadIndex
    {
      sortedPayloads[payloadIndex] := head.payload;
      assert nodes[payloadIndex].next == if payloadIndex + 1 < |nodes| then nodes[payloadIndex + 1] else null;
      payloadIndex := payloadIndex + 1;
      head := head.next;
    }
  }

  // ---------------------------------------------------------------- sorting

  function CompareSequenceNumbers(lhs: Payload, rhs: Payload): int {
    if lhs.sequenceNumber < rhs.sequenceNumber then -1
    else if lhs.sequenceNumber > rhs.sequenceNumber then 1
    else 0
  }

  /** What `qsort` demands: the sign turns with the arguments and agrees with the order of the numbers, so that equal
      numbers, and only they, compare as equal. */
  lemma ComparisonIsConsistent(lhs: Payload, rhs: Payload)
    ensures CompareSequenceNumbers(lhs, rhs) == -CompareSequenceNumbers(rhs, lhs)
    ensures CompareSequenceNumbers(lhs, rhs) <= 0 <==> lhs.sequenceNumber <= rhs.sequenceNumber
    ensures CompareSequenceNumbers(lhs, rhs) in {-1, 0, 1}
  {
  }

  ghost predicate SortedBySequence(s: seq<Payload>) {
    forall i, j :: 0 <= i < j < |s| ==> s[i].sequenceNumber <= s[j].sequenceNumber
  }

  /** Stands for `qsort`: in place, by the comparison function. */
  method Sort(a: array<Payload>)
    modifies a
    ensures multiset(a[..]) == multiset(old(a[..])) && SortedBySequence(a[..])
  {
    for i := 0 to a.Length
      invariant multiset(a[..]) == multiset(old(a[..]))
      invariant SortedUpTo(a, i)
    {
      SinkIn(a, i);
    }
  }

  ghost predicate SortedUpTo(a: array<Payload>, n: nat)
    reads a
  {
    n <= a.Length && forall p, q :: 0 <= p < q < n ==> a[p].sequenceNumber <= a[q].sequenceNumber
  }

  method SinkIn(a: array<Payload>, i: nat)
    requires i < a.Length && SortedUpTo(a, i)
    modifies a
    ensures multiset(a[..]) == multiset(old(a[..])) && SortedUpTo(a, i + 1)
  {
    var j: nat := i;
    while j > 0 && CompareSequenceNumbers(a[j - 1], a[j]) > 0
      invariant j <= i && multiset(a[..]) == multiset(old(a[..]))
      invariant forall p, q :: 0 <= p < q <= i && q != j ==> a[p].sequenceNumber <= a[q].sequenceNumber
    {
      Swap(a, j);
      j := j - 1;
    }
  }

  method Swap(a: array<Payload>, j: nat)
    requires 0 < j < a.Length
    modifies a
    ensures a[j] == old(a[j - 1]) && a[j - 1] == old(a[j])
    ensures forall p :: 0 <= p < a.Length && p != j && p != j - 1 ==> a[p] == old(a[p])
    ensures multiset(a[..]) == multiset(old(a[..]))
  {
    a[j - 1], a[j] := a[j], a[j - 1];
  }

  // ---------------------------------------------------------------- writing the body out

  /** What is written for the payloads from position `i` on; `None` where the delimiter is missing and the source
      computes with a null pointer. */
  function Written(s: seq<Payload>, i: nat, prevSequenceNumber: uint32): Option<seq<byte>>
    requires i <= |s|
    decreases |s| - i
  {
    if i == |s| then Some([])
    else if s[i].sequenceNumber == prevSequenceNumber then Written(s, i + 1, prevSequenceNumber)
    else if i == 0 then
      match StrStr(s[0].data)
      case None => None
      case Some(k) => Prepend(s[0].data[StrStrEnd(s[0].data)..], Written(s, 1, s[0].sequenceNumber))
    else Prepend(s[i].data, Written(s, i + 1, s[i].sequenceNumber))
  }

  function StrStrEnd(data: seq<byte>): (e: nat)
    requires StrStr(data).Some?
    ensures e == StrStr(data).value + 4 <= |data|
  {
    StrStrFindsFirst(data);
    StrStr(data).value + 4
  }

  method WriteImage(sortedPayloads: array<Payload>) returns (image: Option<seq<byte>>)
    ensures image == Written(sortedPayloads[..], 0, 0)
  {
    ghost var s := sortedPayloads[..];
    var written: seq<byte>, prevSequenceNumber: uint32, i: nat := [], 0, 0;
    PrependTwice([], [], Written(s, 0, 0));
    while i < sortedPayloads.Length
      invariant i <= |s| && Written(s, 0, 0) == Prepend(written, Written(s, i, prevSequenceNumber))
    {
      hide Prepend, StrStr;
      var payload := sortedPayloads[i];
      if prevSequenceNumber == payload.sequenceNumber {
        i := i + 1;
        continue;
      }
      prevSequenceNumber := payload.sequenceNumber;
      var imagePayload := payload.data;
      if i == 0 {
        var found := StrStr(payload.data);
        if found == None {
          PrependEnds(written);
          return None;
        }
        imagePayload := payload.data[StrStrEnd(payload.data)..];
      }
      PrependTwice(written, imagePayload, Written(s, i + 1, prevSequenceNumber));
      written := written + imagePayload;
      i := i + 1;
    }
    assert written + [] == written;
    return Some(written);
  }

  // ---------------------------------------------------------------- what a capture is

  /** The sequence number of segment `k`: that of the first one and all the bytes before it. */
  function SequenceNumber(segments: seq<seq<byte>>, first: nat, k: nat): nat
    requires k <= |segments|
  {
    first + |Concat(segments[..k])|
  }

  /** Every captured payload is a segment, and every segment was captured, in any order, any number of times. */
  ghost predicate IsCapture(captured: seq<Payload>, segments: seq<seq<byte>>, first: nat) {
    && (forall p :: p in captured ==> IsSegment(p, segments, first, 0))
    && (forall k :: 0 <= k < |segments| ==> Holds(captured, segments, first, k))
  }

  ghost predicate IsSegment(p: Payload, segments: seq<seq<byte>>, first: nat, from: nat) {
    exists k :: from <= k < |segments| &&
      p.sequenceNumber == SequenceNumber(segments, first, k) && p.data == segments[k]
  }

  ghost predicate Holds(captured: seq<Payload>, segments: seq<seq<byte>>, first: nat, k: nat)
    requires k < |segments|
  {
    exists p :: p in captured && p.sequenceNumber == SequenceNumber(segments, first, k) && p.data == segments[k]
  }

  /** Segments captured in whatever order, as long as each of them comes up, are a capture. */
  lemma AnyOrderIsACapture(captured: seq<Payload>, segments: seq<seq<byte>>, first: nat, order: seq<nat>)
    requires |captured| == |order| && forall i :: 0 <= i < |order| ==> order[i] < |segments|
    requires forall k :: 0 <= k < |segments| ==> k in order
    requires forall i :: 0 <= i < |order| ==>
               && captured[i].sequenceNumber == first + |Concat(segments[..order[i]])|
               && captured[i].data == segments[order[i]]
    ensures IsCapture(captured, segments, first)
  {
    hide Concat;
    forall p | p in captured ensures IsSegment(p, segments, first, 0) {
      var i :| 0 <= i < |captured| && captured[i] == p;
      assert p.data == segments[order[i]];
    }
    forall k | 0 <= k < |segments| ensures Holds(captured, segments, first, k) {
      assert k in order;
      var i :| 0 <= i < |order| && order[i] == k;
      assert captured[i] in captured;
    }
  }

  lemma {:induction false} NumbersGrow(segments: seq<seq<byte>>, first: nat, j: nat, k: nat)
    requires forall i :: 0 <= i < |segments| ==> segments[i] != []
    requires j < k <= |segments|
    ensures SequenceNumber(segments, first, j) < SequenceNumber(segments, first, k)
    ensures SequenceNumber(segments, first, j + 1) == SequenceNumber(segments, first, j) + |segments[j]|
    decreases k - j
  {
    ConcatOneMore(segments, j);
    if j + 1 < k {
      NumbersGrow(segments, first, j + 1, k);
    }
  }

  lemma {:induction false} ConcatOneMore(segments: seq<seq<byte>>, k: nat)
    requires k < |segments|
    ensures Concat(segments[..k + 1]) == Concat(segments[..k]) + segments[k]
    decreases k
  {
    if k == 0 {
      assert segments[..1] == [segments[0]] && segments[..0] == [];
      assert Concat([segments[0]]) == segments[0] + Concat([]);
    } else {
      var rest := segments[1..];
      ConcatOneMore(rest, k - 1);
      assert segments[..k + 1][1..] == rest[..k] && segments[..k][1..] == rest[..k - 1];
      assert segments[0] + (Concat(rest[..k - 1]) + rest[k - 1]) == segments[0] + Concat(rest[..k - 1]) + rest[k - 1];
    }
  }

  /** Equal sequence numbers mean the same segment. */
  lemma SameNumberSameSegment(segments: seq<seq<byte>>, first: nat, j: nat, k: nat)
    requires forall i :: 0 <= i < |segments| ==> segments[i] != []
    requires j < |segments| && k < |segments|
    ensures SequenceNumber(segments, first, j) <= SequenceNumber(segments, first, k) <==> j <= k
  {
    if j < k {
      NumbersGrow(segments, first, j, k);
    } else if k < j {
      NumbersGrow(segments, first, k, j);
    }
  }

  /** The sorted payloads from position `i` on hold the segments from `k` on, and perhaps some of the one before. */
  ghost predicate Remaining(s: seq<Payload>, i: nat, segments: seq<seq<byte>>, first: nat, k: nat)
    requires i <= |s| && k <= |segments|
  {
    && (forall m :: i <= m < |s| ==> IsSegment(s[m], segments, first, if k > 0 then k - 1 else 0))
    && (forall j :: k <= j < |segments| ==> HoldsFrom(s, i, segments, first, j))
  }

  ghost predicate HoldsFrom(s: seq<Payload>, i: nat, segments: seq<seq<byte>>, first: nat, j: nat)
    requires j < |segments|
  {
    exists m :: i <= m < |s| && s[m].sequenceNumber == SequenceNumber(segments, first, j) && s[m].data == segments[j]
  }

  /** The payload at position `i` is a copy of segment `k - 1`, or segment `k`. */
  lemma NextIsHere(s: seq<Payload>, i: nat, segments: seq<seq<byte>>, first: nat, k: nat)
    requires SortedBySequence(s) && i < |s| && k <= |segments|
    requires forall j :: 0 <= j < |segments| ==> segments[j] != []
    requires Remaining(s, i, segments, first, k)
    ensures if k > 0 && s[i].sequenceNumber == SequenceNumber(segments, first, k - 1) then
              Remaining(s, i + 1, segments, first, k)
            else
              && k < |segments| && s[i].sequenceNumber == SequenceNumber(segments, first, k) && s[i].data == segments[k]
              && Remaining(s, i + 1, segments, first, k + 1)
  {
    hide SequenceNumber;
    var low := if k > 0 then k - 1 else 0;
    assert IsSegment(s[i], segments, first, low);
    var j :| low <= j < |segments| &&
      s[i].sequenceNumber == SequenceNumber(segments, first, j) && s[i].data == segments[j];
    if k < |segments| {
      assert HoldsFrom(s, i, segments, first, k);
      var m :| i <= m < |s| && s[m].sequenceNumber == SequenceNumber(segments, first, k) && s[m].data == segments[k];
      SameNumberSameSegment(segments, first, j, k);
    }
    if k > 0 {
      SameNumberSameSegment(segments, first, j, k - 1);
    }
    var next := i + 1;
    forall n | k <= n < |segments| && n != j ensures HoldsFrom(s, next, segments, first, n) {
      assert HoldsFrom(s, i, segments, first, n);
      var m :| i <= m < |s| && s[m].sequenceNumber == SequenceNumber(segments, first, n) && s[m].data == segments[n];
      SameNumberSameSegment(segments, first, j, n);
      SameNumberSameSegment(segments, first, n, j);
    }
    if !(k > 0 && s[i].sequenceNumber == SequenceNumber(segments, first, k - 1)) {
      assert j == k;
      forall m | i + 1 <= m < |s| ensures IsSegment(s[m], segments, first, k) {
        assert IsSegment(s[m], segments, first, low);
        var n :| low <= n < |segments| &&
          s[m].sequenceNumber == SequenceNumber(segments, first, n) && s[m].data == segments[n];
        SameNumberSameSegment(segments, first, k, n);
      }
    }
  }

  /** Behind the first segment: each remaining segment is written once, in order. */
  lemma {:induction false} RestIsWritten(s: seq<Payload>, i: nat, segments: seq<seq<byte>>, first: nat, k: nat,
                                         prev: uint32)
    requires SortedBySequence(s) && 0 < i <= |s| && 0 < k <= |segments|
    requires forall j :: 0 <= j < |segments| ==> segments[j] != []
    requires Remaining(s, i, segments, first, k) && prev == SequenceNumber(segments, first, k - 1)
    ensures Written(s, i, prev) == Some(Concat(segments[k..]))
    decreases |s| - i
  {
    hide Remaining, SequenceNumber;
    if i == |s| {
      NothingRemains(s, i, segments, first, k);
      assert segments[k..] == [];
    } else {
      NextIsHere(s, i, segments, first, k);
      if s[i].sequenceNumber == prev {
        RestIsWritten(s, i + 1, segments, first, k, prev);
      } else {
        RestIsWritten(s, i + 1, segments, first, k + 1, s[i].sequenceNumber);
        assert segments[k..][1..] == segments[k + 1..];
      }
    }
  }

  lemma NothingRemains(s: seq<Payload>, i: nat, segments: seq<seq<byte>>, first: nat, k: nat)
    requires i == |s| && k <= |segments| && Remaining(s, i, segments, first, k)
    ensures k == |segments|
  {
    assert k < |segments| ==> HoldsFrom(s, i, segments, first, k);
  }

  lemma SortedCaptureRemains(captured: seq<Payload>, s: seq<Payload>, segments: seq<seq<byte>>, first: nat)
    requires IsCapture(captured, segments, first) && multiset(s) == multiset(captured)
    ensures Remaining(s, 0, segments, first, 0)
  {
    forall m | 0 <= m < |s| ensures IsSegment(s[m], segments, first, 0) {
      assert s[m] in multiset(s);
      assert s[m] in captured;
    }
    forall j | 0 <= j < |segments| ensures HoldsFrom(s, 0, segments, first, j) {
      assert Holds(captured, segments, first, j);
      var p :| p in captured && p.sequenceNumber == SequenceNumber(segments, first, j) && p.data == segments[j];
      assert p in multiset(s);
      var m :| 0 <= m < |s| && s[m] == p;
    }
  }

  /** What must come out: the stream behind the first delimiter, which has to lie in the first segment. A first
      sequence number of 0 spoils it, because that is also what `prevSequenceNumber` starts from: the first
      segment is then dropped, header and all. */
  function Expected(segments: seq<seq<byte>>, first: nat): Option<seq<byte>>
    requires segments != []
  {
    if first == 0 then Some(Concat(segments[1..]))
    else match StrStr(segments[0])
      case None => None
      case Some(_) => Some(Concat(segments)[StrStrEnd(segments[0])..])
  }

  ghost predicate IsStream(segments: seq<seq<byte>>) {
    segments != [] && forall j :: 0 <= j < |segments| ==> segments[j] != []
  }

  /** The first of the sorted payloads is the first segment. */
  lemma FirstIsHere(s: seq<Payload>, segments: seq<seq<byte>>, first: nat)
    requires IsStream(segments) && SortedBySequence(s) && Remaining(s, 0, segments, first, 0)
    ensures s != [] && s[0].sequenceNumber == first && s[0].data == segments[0]
    ensures Remaining(s, 1, segments, first, 1) && SequenceNumber(segments, first, 0) == first
  {
    assert HoldsFrom(s, 0, segments, first, 0);
    NextIsHere(s, 0, segments, first, 0);
    assert segments[..0] == [];
  }

  lemma DropHeader(segments: seq<seq<byte>>, e: nat)
    requires segments != [] && e <= |segments[0]|
    ensures e <= |Concat(segments)| && segments[0][e..] + Concat(segments[1..]) == Concat(segments)[e..]
  {
  }

  /** For every capture of a contiguous segmentation, in any order and with any repetitions, what is written of
      the sorted payloads is what must come out. */
  lemma ReassemblyIsStream(captured: seq<Payload>, s: seq<Payload>, segments: seq<seq<byte>>, first: nat)
    requires IsStream(segments) && IsCapture(captured, segments, first)
    requires multiset(s) == multiset(captured) && SortedBySequence(s)
    ensures Written(s, 0, 0) == Expected(segments, first)
  {
    hide IsCapture, Remaining, SequenceNumber, StrStr, Concat, SortedBySequence;
    SortedCaptureRemains(captured, s, segments, first);
    FirstIsHere(s, segments, first);
    RestIsWritten(s, 1, segments, first, 1, s[0].sequenceNumber);
    if first != 0 && StrStr(segments[0]).Some? {
      DropHeader(segments, StrStrEnd(segments[0]));
    }
  }

  /** The reassembly half of `main`: on any capture of any segmentation it gives what must come out. */
  method Reassemble(captured: seq<Payload>) returns (image: Option<seq<byte>>)
    ensures exists s :: multiset(s) == multiset(captured) && SortedBySequence(s) && image == Written(s, 0, 0)
    ensures forall segments, first :: IsStream(segments) && IsCapture(captured, segments, first) ==>
              image == Expected(segments, first)
  {
    hide IsCapture, Expected, SortedBySequence;
    var head, numPayloadNodes;
    ghost var nodes;
    head, numPayloadNodes, nodes := Collect(captured);
    var sortedPayloads := Gather(head, numPayloadNodes, nodes, captured);
    Sort(sortedPayloads);
    ghost var s := sortedPayloads[..];
    image := WriteImage(sortedPayloads);
    forall segments, first | IsStream(segments) && IsCapture(captured, segments, first)
      ensures image == Expected(segments, first)
    {
      ReassemblyIsStream(captured, s, segments, first);
    }
  }

  /** The output that must come out is the stream behind the header exactly when the first sequence number is not
      0, or the header ends where the first segment does. */
  lemma ReassemblyIsRightIff(segments: seq<seq<byte>>, first: nat)
    requires IsStream(segments) && StrStr(segments[0]).Some?
    ensures Expected(segments, first) == Some(Concat(segments)[StrStrEnd(segments[0])..]) <==>
            first != 0 || StrStrEnd(segments[0]) == |segments[0]|
  {
    var e := StrStrEnd(segments[0]);
    assert Concat(segments)[|segments[0]|..] == Concat(segments[1..]);
    assert |Concat(segments)[e..]| == |segments[0]| - e + |Concat(segments[1..])|;
  }

  /** The delimiter found in the first segment is the first one of the whole stream. */
  lemma HeaderEndIsFirst(segments: seq<seq<byte>>, j: nat)
    requires segments != [] && StrStr(segments[0]).Some? && j + 4 < StrStrEnd(segments[0])
    ensures !(DELIMITER <= Concat(segments)[j..])
  {
    StrStrFindsFirst(segments[0]);
    var all, one := Concat(segments), segments[0];
    assert all[j..][..4] == one[j..][..4];
  }
}
