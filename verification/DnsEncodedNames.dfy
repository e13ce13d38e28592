/** Names as the encoder writes them, read by the decoder of compressed names. */
module DnsEncodedNames {
  import opened Bytes
  import opened Splitting
  import opened DnsQuestions
  import opened DnsNames

  lemma ZeroIsDenoted(b: seq<byte>, start: nat, pos: nat)
    requires start <= pos < |b| && b[pos] == 0
    ensures Denoted(b, start, pos) == Name([], pos + 1, true)
  {
  }

  lemma LabelIsDenoted(b: seq<byte>, start: nat, pos: nat, octets: seq<byte>)
    requires start <= pos && 0 < |octets| < 64 && pos + 1 + |octets| <= |b|
    requires b[pos] == |octets| && b[pos + 1..pos + 1 + |octets|] == octets
    requires Denoted(b, start, pos + 1 + |octets|).Name?
    ensures var w := Denoted(b, start, pos + 1 + |octets|);
            Denoted(b, start, pos) == Name([octets] + w.labels, w.end, w.shortOffsets)
  {
  }

  lemma RegroupLabel(head: seq<byte>, l: seq<byte>, more: seq<byte>, rest: seq<byte>, n: byte)
    ensures var b := head + ([n] + l + more) + [0] + rest;
            && b == (head + [n] + l) + more + [0] + rest
            && b[|head|] == n && b[|head| + 1..|head| + 1 + |l|] == l
  {
  }

  lemma FirstLabelIsEncoded(labels: Labels)
    requires labels != [] && |labels[0]| < 64
    ensures EncodeLabels(labels) == [|labels[0]|] + labels[0] + EncodeLabels(labels[1..])
  {
  }

  /** Section 3.1 of RFC 1035: labels of 1 to 63 octets. */
  ghost predicate WellSized(labels: Labels) {
    forall i :: 0 <= i < |labels| ==> 0 < |labels[i]| < 64
  }

  /** A name written label by label is laid down as section 3.1 of RFC 1035 has it. */
  lemma {:induction false} EncodedNameIsDenoted(head: seq<byte>, start: nat, labels: Labels, rest: seq<byte>)
    requires start <= |head|
    requires WellSized(labels)
    ensures Denoted(head + EncodeLabels(labels) + [0] + rest, start, |head|) ==
            Name(labels, |head| + |EncodeLabels(labels)| + 1, true)
    decreases |labels|
  {
    hide Denoted;
    if labels == [] {
      ZeroIsDenoted(head + EncodeLabels(labels) + [0] + rest, start, |head|);
    } else {
      FirstLabelIsEncoded(labels);
      hide EncodeLabels;
      var l, more := labels[0], EncodeLabels(labels[1..]);
      var b := head + EncodeLabels(labels) + [0] + rest;
      RegroupLabel(head, l, more, rest, |l|);
      EncodedNameIsDenoted(head + [|l|] + l, start, labels[1..], rest);
      LabelIsDenoted(b, start, |head|, l);
      assert [l] + labels[1..] == labels;
    }
  }

  /** A pointer to a name that lies wholly before it denotes the same labels in two octets. */
  lemma PointerIsDenoted(b: seq<byte>, target: nat, pos: nat)
    requires target < 0x100 && pos + 2 <= |b| && b[pos] == 192 && b[pos + 1] == target
    requires Readable(b, target) && Denoted(b, target, target).end <= pos
    ensures Readable(b, pos) && Text(b, pos) == Text(b, target) && Denoted(b, pos, pos).end == pos + 2
  {
    hide ZeroFree, MeetsMask80;
  }

  lemma FirstOctet(head: seq<byte>, labels: Labels, tail: seq<byte>)
    requires labels != [] && WellSized(labels)
    ensures (head + EncodeLabels(labels) + [0] + tail)[|head|] == |labels[0]|
  {
    FirstLabelIsEncoded(labels);
    hide EncodeLabels;
    var e := EncodeLabels(labels);
    assert e[0] == |labels[0]|;
  }

  // ---------------------------------------------------------------- which encoded names are read back

  /** The text and the exact length. */
  ghost predicate EncodedIsRead(head: seq<byte>, labels: Labels, tail: seq<byte>)
    requires labels != []
  {
    NameAt(head + EncodeLabels(labels) + [0] + tail, |head|) == Decoded(Join(labels, DOT), |EncodeLabels(labels)| + 1)
  }

  /** With the first length clear of the mask: in whatever surroundings, exactly the names without zero octets. */
  lemma ClearIsReadIff(head: seq<byte>, labels: Labels, tail: seq<byte>)
    requires labels != [] && WellSized(labels) && !MeetsMask80(|labels[0]|)
    ensures EncodedIsRead(head, labels, tail) <==> ZeroFree(labels)
  {
    hide NameAt, MeetsMask80, Denoted, EncodeLabels, ZeroFree, Join;
    var b: seq<byte> := head + EncodeLabels(labels) + [0] + tail;
    EncodedNameIsDenoted(head, |head|, labels, tail);
    FirstOctet(head, labels, tail);
    assert 0 < |labels[0]| < 64;
    ClearNameIsReadIff(b, |head|);
  }

  /** With the first length meeting the mask, there are surroundings in which the name is not read. */
  lemma MaskedBehindZeros(labels: Labels, tail: seq<byte>)
    requires labels != [] && WellSized(labels) && MeetsMask80(|labels[0]|)
    ensures !EncodedIsRead(seq(257, _ => 0), labels, tail)
  {
    hide MeetsMask80, Denoted, EncodeLabels, Join;
    var head: seq<byte> := seq(257, _ => 0);
    var b: seq<byte> := head + EncodeLabels(labels) + [0] + tail;
    EncodedNameIsDenoted(head, |head|, labels, tail);
    FirstOctet(head, labels, tail);
    FirstLabelIsThere(b, 257);
    assert b[..257] == head;
    ZerosAreRead(head, b, 258);
    MisreadBefore(b, 257);
  }

  lemma ZerosAreRead(zeros: seq<byte>, b: seq<byte>, i: nat)
    requires |zeros| == 257 && (forall k :: 0 <= k < |zeros| ==> zeros[k] == 0) && i < |b|
    ensures NameAt(zeros, b[i]) == Decoded([], 1)
  {
    assert !MeetsMask80(0);
  }

  /** The question's name, and its exact length. */
  ghost predicate ReadBack(head: seq<byte>, q: Question, rest: seq<byte>) {
    |EncodeQuestion(q)| >= 4 &&
    NameAt(head + EncodeQuestion(q) + rest, |head|) == Decoded(q.domainName, |EncodeQuestion(q)| - 4)
  }

  /** A question written by the encoder, with labels of 1 to 63 octets: the other decoder reads its name back
      wherever it stands, if and only if no label holds a zero octet and the length of the first one is clear of
      the mask. */
  lemma QuestionIsReadEverywhereIff(q: Question)
    requires WellSized(Split(q.domainName, DOT))
    ensures (forall head, rest :: ReadBack(head, q, rest)) <==>
            ZeroFree(Split(q.domainName, DOT)) && !MeetsMask80(|Split(q.domainName, DOT)[0]|)
  {
    hide ReadBack, MeetsMask80, ZeroFree, Split;
    var labels := Split(q.domainName, DOT);
    if MeetsMask80(|labels[0]|) {
      MaskedQuestion(q);
      assert !ReadBack(seq(257, _ => 0), q, []);
    } else {
      forall head, rest ensures ReadBack(head, q, rest) <==> ZeroFree(labels) {
        ClearQuestionIsReadIff(head, q, rest);
      }
      assert ReadBack([], q, []) <==> ZeroFree(labels);
    }
  }

  lemma ClearQuestionIsReadIff(head: seq<byte>, q: Question, rest: seq<byte>)
    requires WellSized(Split(q.domainName, DOT)) && !MeetsMask80(|Split(q.domainName, DOT)[0]|)
    ensures ReadBack(head, q, rest) <==> ZeroFree(Split(q.domainName, DOT))
  {
    hide NameAt, MeetsMask80, Join, EncodeQuestion, EncodeLabels, WellSized, ZeroFree, Split;
    QuestionOctets(head, q, rest);
    JoinOfSplit(q.domainName, DOT);
    ClearIsReadIff(head, Split(q.domainName, DOT), BigEndian16(q.questionType) + BigEndian16(q.classType) + rest);
  }

  lemma MaskedQuestion(q: Question)
    requires WellSized(Split(q.domainName, DOT)) && MeetsMask80(|Split(q.domainName, DOT)[0]|)
    ensures !ReadBack(seq(257, _ => 0), q, [])
  {
    hide NameAt, MeetsMask80, Join, EncodeQuestion, EncodeLabels, WellSized, Split;
    QuestionOctets(seq(257, _ => 0), q, []);
    JoinOfSplit(q.domainName, DOT);
    MaskedBehindZeros(Split(q.domainName, DOT), BigEndian16(q.questionType) + BigEndian16(q.classType) + []);
  }

  lemma QuestionOctets(head: seq<byte>, q: Question, rest: seq<byte>)
    ensures var e := EncodeLabels(Split(q.domainName, DOT));
            && |EncodeQuestion(q)| == |e| + 5
            && head + EncodeQuestion(q) + rest ==
               head + e + [0] + (BigEndian16(q.questionType) + BigEndian16(q.classType) + rest)
  {
    hide EncodeLabels, Split, BigEndian16;
  }

  // ---------------------------------------------------------------- a name that is read by way of its surroundings

  const LETTER_V: byte := 118

  /** Sixteen octets, the first of which is taken for a pointer. */
  function First(): seq<byte> {
    [LETTER_V] + seq(15, _ => 97)
  }

  function Second(): seq<byte> {
    [34] + First()
  }

  function Third(): seq<byte> {
    Second() + [200, 10] + seq(27, _ => 99)
  }

  const COM: seq<byte> := [99, 111, 109]

  function Detour(): (labels: Labels)
    ensures |labels| == 4
  {
    [First(), Second(), Third(), COM]
  }

  /** The octets in front of the name that the reading comes by. */
  ghost predicate LeadsOn(head: seq<byte>) {
    |head| == 100 && head[10] == 46 && head[11..57] == Third() && head[57] == 200 && head[58] == 182
  }

  /** `part` begins at `i`. */
  ghost predicate Stands(b: seq<byte>, i: nat, part: seq<byte>) {
    i + |part| <= |b| && b[i..i + |part|] == part
  }

  lemma StandsNext(b: seq<byte>, i: nat, part: seq<byte>, rest: seq<byte>)
    requires Stands(b, i, part + rest)
    ensures Stands(b, i, part) && Stands(b, i + |part|, rest)
  {
    var all := part + rest;
    assert all[..|part|] == part && all[|part|..] == rest;
    assert b[i..i + |part|] == b[i..i + |all|][..|part|];
    assert b[i + |part|..i + |part| + |rest|] == b[i..i + |all|][|part|..];
  }

  lemma PartStands(b: seq<byte>, i: nat, whole: seq<byte>, j: nat, k: nat)
    requires Stands(b, i, whole) && j <= k <= |whole|
    ensures Stands(b, i + j, whole[j..k])
  {
    var part, piece := whole[j..k], b[i + j..i + k];
    forall m | 0 <= m < |part| ensures piece[m] == part[m] {
      assert b[i..i + |whole|][j + m] == whole[j + m];
    }
    assert piece == part;
  }

  lemma StandsTwice(b: seq<byte>, i: nat, x: seq<byte>, y: seq<byte>)
    requires Stands(b, i, x) && Stands(b, i + |x|, y)
    ensures Stands(b, i, x + y)
  {
    assert b[i..i + |x + y|] == b[i..i + |x|] + b[i + |x|..i + |x| + |y|];
  }

  lemma OctetStands(b: seq<byte>, i: nat, part: seq<byte>, j: nat)
    requires Stands(b, i, part) && j < |part|
    ensures b[i + j] == part[j]
  {
    assert b[i + j] == b[i..i + |part|][j];
  }

  /** The first label, behind its length, and the other labels. */
  lemma LabelStands(b: seq<byte>, i: nat, labels: Labels)
    requires labels != [] && |labels[0]| < 64 && Stands(b, i, EncodeLabels(labels))
    ensures i < |b| && b[i] == |labels[0]| && Stands(b, i + 1, labels[0])
    ensures Stands(b, i + 1 + |labels[0]|, EncodeLabels(labels[1..]))
  {
    FirstLabelIsEncoded(labels);
    hide EncodeLabels, Stands;
    var n: byte, l, rest := |labels[0]|, labels[0], EncodeLabels(labels[1..]);
    assert EncodeLabels(labels) == [n] + (l + rest);
    StandsNext(b, i, [n], l + rest);
    StandsNext(b, i + 1, l, rest);
    OctetAt(b, i, n);
  }

  lemma OctetAt(b: seq<byte>, i: nat, octet: byte)
    requires Stands(b, i, [octet])
    ensures i < |b| && b[i] == octet
  {
    assert b[i] == b[i..i + 1][0];
  }

  lemma WholeStands(head: seq<byte>, middle: seq<byte>, tail: seq<byte>)
    ensures var b := head + middle + [0] + tail;
            Stands(b, |head|, middle) && b[|head| + |middle|] == 0
  {
    var b := head + middle + [0] + tail;
    assert b[|head|..|head| + |middle|] == middle;
  }

  lemma DetourLabelsStand(b: seq<byte>)
    requires Stands(b, 100, EncodeLabels(Detour()))
    ensures |b| >= 186 && b[100] == 16 && Stands(b, 101, First()) && Stands(b, 118, Second())
    ensures b[135] == 46 && Stands(b, 136, Third()) && b[182] == 3 && Stands(b, 183, COM)
  {
    var labels := Detour();
    var l1, l2, l3 := labels[1..], labels[1..][1..], labels[1..][1..][1..];
    assert labels[0] == First() && l1[0] == Second() && l2[0] == Third() && l3[0] == COM;
    assert |First()| == 16 && |Second()| == 17 && |Third()| == 46;
    hide First, Second, Third, Stands, EncodeLabels, Detour;
    LabelStands(b, 100, labels);
    LabelStands(b, 117, l1);
    LabelStands(b, 135, l2);
    LabelStands(b, 182, l3);
    ComEnds(b);
  }

  lemma ComEnds(b: seq<byte>)
    requires Stands(b, 183, COM)
    ensures |b| >= 186
  {
  }

  /** Where everything is. */
  lemma DetourStands(b: seq<byte>)
    requires Stands(b, 100, EncodeLabels(Detour()))
    ensures |b| >= 186 && b[100] == 16 && b[101] == LETTER_V && b[118] == 34
    ensures Stands(b, 119, First()) && b[135] == 46 && Stands(b, 136, Second()) && b[153] == 200 && b[154] == 10
    ensures b[182] == 3 && Stands(b, 183, COM)
  {
    var f, s, u := First(), Second(), Third();
    assert f[0] == LETTER_V && s[0] == 34 && u[17] == 200 && u[18] == 10;
    assert s[1..17] == f && u[0..17] == s;
    hide First, Second, Third, Stands;
    DetourLabelsStand(b);
    OctetStands(b, 101, f, 0);
    OctetStands(b, 118, s, 0);
    PartStands(b, 118, s, 1, 17);
    PartStands(b, 136, u, 0, 17);
    OctetStands(b, 136, u, 17);
    OctetStands(b, 136, u, 18);
  }

  lemma DetourIsLong()
    ensures |EncodeLabels(Detour())| == 86
    ensures Suffix(Detour()[1..]) == [DOT] + Second() + ([DOT] + Third() + ([DOT] + COM))
  {
    var l: Labels := Detour();
    var l1, l2, l3 := l[1..], l[1..][1..], l[1..][1..][1..];
    assert l1 == [Second(), Third(), COM] && l2 == [Third(), COM] && l3 == [COM];
    FirstLabelIsEncoded(l);
    FirstLabelIsEncoded(l1);
    FirstLabelIsEncoded(l2);
    FirstLabelIsEncoded(l3);
    assert EncodeLabels(l3[1..]) == [] && Suffix(l3[1..]) == [];
    assert [DOT] + COM + [] == [DOT] + COM;
  }

  lemma DotAndLabel(b: seq<byte>, pos: nat, octets: seq<byte>, room: nat, maxPos: nat, fuel: nat)
    requires pos < |b| && b[pos] == |octets| && 0 < |octets| < 64 && Stands(b, pos + 1, octets) && 0 !in octets
    requires pos + 1 + |octets| < |b| && room > |octets| && fuel > |octets|
    ensures var next := pos + 1 + |octets|;
            Copy(b, pos, 0, room, maxPos, fuel) ==
            InFrontOf([DOT] + octets,
                      Copy(b, next, 0, room - 1 - |octets|, Max(maxPos, next), fuel - 1 - |octets|))
  {
    hide InFrontOf;
    var n: nat, next := |octets|, pos + 1 + |octets|;
    var r := Copy(b, next, 0, room - 1 - n, Max(maxPos, next), fuel - 1 - n);
    CopyWrites(b, pos, 0, room, maxPos, fuel);
    LabelIsCopied(b, pos + 1, n, room - 1, Max(maxPos, pos + 1), fuel - 1);
    MaxTwice(maxPos, pos + 1, next);
    assert Copy(b, pos + 1, n, room - 1, Max(maxPos, pos + 1), fuel - 1) == InFrontOf(octets, r);
    InFrontTwice([DOT], octets, r);
  }

  /** From the octet in front of the name that points behind its third label. */
  lemma LastLabel(b: seq<byte>, room: nat, maxPos: nat, fuel: nat)
    requires |b| > 186 && b[57] == 200 && b[58] == 182 && b[182] == 3 && Stands(b, 183, COM) && b[186] == 0
    requires room > 3 && fuel > 4 && maxPos == 154
    ensures Copy(b, 57, 0, room, maxPos, fuel) == Decoded([DOT] + COM, 186)
  {
    hide Copy;
    CopyJumps(b, 57, room, maxPos, fuel);
    DotAndLabel(b, 182, COM, room, maxPos, fuel - 1);
    CopyStops(b, 186, 0, room - 4, Max(Max(maxPos, 58), 186), fuel - 5);
    assert Max(maxPos, 58) == 154;
    assert [DOT] + COM + [] == [DOT] + COM;
  }

  /** From the two octets inside the third label that point in front of the name. */
  lemma ThirdLabel(b: seq<byte>, room: nat, maxPos: nat, fuel: nat)
    requires |b| > 186 && b[57] == 200 && b[58] == 182 && b[182] == 3 && Stands(b, 183, COM) && b[186] == 0
    requires b[153] == 200 && b[154] == 10 && b[10] == 46 && Stands(b, 11, Third())
    requires room > 50 && fuel > 52 && maxPos == 153
    ensures Copy(b, 153, 0, room, maxPos, fuel) == Decoded([DOT] + Third() + ([DOT] + COM), 186)
  {
    assert |Third()| == 46 && 0 !in Third();
    hide Copy, Third;
    CopyJumps(b, 153, room, maxPos, fuel);
    DotAndLabel(b, 10, Third(), room, 154, fuel - 1);
    LastLabel(b, room - 47, 154, fuel - 48);
  }

  /** A name whose first length meets the mask, and which is read right all the same: the octet taken for a pointer
      leads into its own labels, from there in front of it, and back behind its third label. */
  lemma DetourIsRead(head: seq<byte>, tail: seq<byte>)
    requires LeadsOn(head)
    ensures MeetsMask80(|Detour()[0]|) && WellSized(Detour()) && ZeroFree(Detour())
    ensures EncodedIsRead(head, Detour(), tail)
  {
    hide EncodeLabels, NameAt, Stands, LeadsOn, Detour, Join, MeetsMask80, First, Second, Third, WellSized, ZeroFree;
    var e := EncodeLabels(Detour());
    var b: seq<byte> := head + e + [0] + tail;
    WholeStands(head, e, tail);
    DetourLeads(b, head);
    DetourStands(b);
    DetourIsLong();
    MasksOnDetour();
    FirstLabels(b);
    SkipToSecond(b);
    ReadAfterSkip(b, 100, 118, 101);
    DetourJoined();
  }

  lemma SkipToSecond(b: seq<byte>)
    requires |b| > 118 && b[100] == 16 && b[101] == LETTER_V && b[118] == 34
    ensures Skip(b, 100, 100, Enough(b)) == Decoded(118, 101)
  {
    MasksOnDetour();
    hide MeetsMask80, Skip;
    SkipOnce(b, 100, 100, Enough(b));
    SkipStops(b, 118, 101, Enough(b) - 1);
  }

  lemma ReadAfterSkip(b: seq<byte>, pos: nat, first: nat, counted: nat)
    requires pos <= counted && first < |b| && Skip(b, pos, pos, Enough(b)) == Decoded(first, counted)
    requires Copy(b, first + 1, b[first], |b|, counted, Enough(b)).Decoded?
    ensures var r := Copy(b, first + 1, b[first], |b|, counted, Enough(b));
            pos <= r.bytes && NameAt(b, pos) == Decoded(r.value, r.bytes - pos + 1)
  {
    hide Copy, Skip;
  }

  lemma SkipStops(b: seq<byte>, pos: nat, maxPos: nat, fuel: nat)
    requires pos < |b| && !MeetsMask80(b[pos])
    ensures Skip(b, pos, maxPos, fuel) == Decoded(pos, maxPos)
  {
  }

  lemma MasksOnDetour()
    ensures MeetsMask80(16) && !MeetsMask80(34)
    ensures MeetsMask80(|Detour()[0]|) && WellSized(Detour()) && ZeroFree(Detour())
  {
  }

  lemma DetourLeads(b: seq<byte>, head: seq<byte>)
    requires LeadsOn(head) && head <= b
    ensures |b| >= 100 && b[..100] == head && b[10] == 46 && Stands(b, 11, Third()) && b[57] == 200 && b[58] == 182
  {
    assert b[11..57] == head[11..57];
    assert |Third()| == 46;
    assert b[10] == head[10] && b[57] == head[57] && b[58] == head[58];
  }

  lemma FirstLabels(b: seq<byte>)
    requires |b| > 186 && b[57] == 200 && b[58] == 182 && b[182] == 3 && Stands(b, 183, COM) && b[186] == 0
    requires b[153] == 200 && b[154] == 10 && b[10] == 46 && Stands(b, 11, Third())
    requires Stands(b, 119, First()) && b[135] == 46 && Stands(b, 136, Second())
    ensures Copy(b, 119, 34, |b|, 101, Enough(b)) ==
            Decoded(First() + ([DOT] + Second()) + ([DOT] + Third() + ([DOT] + COM)), 186)
  {
    var x := First() + ([DOT] + Second());
    assert |x| == 34 && 0 !in x && |First()| == 16 && |Second()| == 17;
    hide First, Second, Third, Copy;
    assert Stands(b, 135, [DOT]) by { assert b[135..136] == [DOT]; }
    StandsTwice(b, 135, [DOT], Second());
    StandsTwice(b, 119, First(), [DOT] + Second());
    LabelIsCopied(b, 119, 34, |b|, 101, Enough(b));
    ThirdLabel(b, |b| - 34, 153, Enough(b) - 34);
  }

  lemma DetourJoined()
    ensures Join(Detour(), DOT) == First() + ([DOT] + Second()) + ([DOT] + Third() + ([DOT] + COM))
  {
    hide First, Second, Third;
    JoinIsSuffix(Detour());
    DetourIsLong();
    var f, s, r := First(), [DOT] + Second(), [DOT] + Third() + ([DOT] + COM);
    assert f + (s + r) == f + s + r;
  }
}
