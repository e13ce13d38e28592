/** The question section of a DNS message: how a question is written and how it is read back. */
module DnsQuestions {
  import opened Bytes
  import opened Splitting

  const DOT: byte := 46

  function BigEndian16(x: uint16): (b: seq<byte>)
    ensures |b| == 2
  {
    [x / 0x100, x % 0x100]
  }

  /** Reading past the end of the buffer stops the program; callers check for it first. */
  function Read16(b: seq<byte>, i: nat): uint16
    requires i + 2 <= |b|
  {
    b[i] as int * 0x100 + b[i + 1]
  }

  function Read32(b: seq<byte>, i: nat): uint32
    requires i + 4 <= |b|
  {
    Read16(b, i) as int * 0x1_0000 + Read16(b, i + 2)
  }

  /** What a decoder found and the bytes it took, or that a buffer ended first, which stops the program, or that
      it goes on and on. */
  datatype Decoding<+T> = OffTheEnd | Endless | Decoded(value: T, bytes: nat)

  /** What was found already, in front of what is found next. */
  function InFrontOf<T>(found: seq<T>, next: Decoding<seq<T>>): Decoding<seq<T>> {
    if next.Decoded? then Decoded(found + next.value, next.bytes) else next
  }

  lemma InFrontTwice<T>(a: seq<T>, b: seq<T>, next: Decoding<seq<T>>)
    ensures InFrontOf([], next) == next && InFrontOf(a, InFrontOf(b, next)) == InFrontOf(a + b, next)
  {
    if next.Decoded? {
      assert [] + next.value == next.value && a + (b + next.value) == a + b + next.value;
    }
  }

  datatype Question = Question(domainName: seq<byte>, questionType: uint16, classType: uint16)

  // ---------------------------------------------------------------- encoding

  /** Each label behind its length, which is cut to one byte. */
  function EncodeLabels(labels: seq<seq<byte>>): seq<byte>
    decreases |labels|
  {
    if labels == [] then [] else [|labels[0]| % 0x100] + labels[0] + EncodeLabels(labels[1..])
  }

  function EncodeQuestion(q: Question): seq<byte> {
    EncodeLabels(Split(q.domainName, DOT)) + [0] + BigEndian16(q.questionType) + BigEndian16(q.classType)
  }

  method EncodeDNSQuestion(question: Question) returns (questionBuffer: seq<byte>)
    ensures questionBuffer == EncodeQuestion(question)
  {
    questionBuffer := [];
    var domainLabels := Split(question.domainName, DOT);
    for i := 0 to |domainLabels|
      invariant questionBuffer + EncodeLabels(domainLabels[i..]) == EncodeLabels(domainLabels)
    {
      var v := domainLabels[i];
      assert domainLabels[i..][1..] == domainLabels[i + 1..];
      questionBuffer := questionBuffer + [|v| % 0x100];
      questionBuffer := questionBuffer + v;
    }
    questionBuffer := questionBuffer + [0];
    questionBuffer := questionBuffer + BigEndian16(question.questionType);
    questionBuffer := questionBuffer + BigEndian16(question.classType);
  }

  // ---------------------------------------------------------------- decoding

  /** The position of the first zero byte, or the length when there is none. */
  function ZeroIndex(b: seq<byte>): (i: nat)
    ensures i <= |b| && 0 !in b[..i]
    ensures i < |b| ==> b[i] == 0
    decreases |b|
  {
    if b == [] || b[0] == 0 then 0 else
    var i := 1 + ZeroIndex(b[1..]);
    assert b[..i] == [b[0]] + b[1..][..i - 1];
    i
  }

  function DotIfSmall(v: byte): byte {
    if v < 64 then DOT else v
  }

  function Dotted(b: seq<byte>): (r: seq<byte>)
    ensures |r| == |b| && forall i :: 0 <= i < |b| ==> r[i] == DotIfSmall(b[i])
  {
    seq(|b|, i requires 0 <= i < |b| => DotIfSmall(b[i]))
  }

  /** Everything between the skipped first byte and the first zero, small bytes turned into dots. */
  function DecodedName(b: seq<byte>): seq<byte> {
    var i := ZeroIndex(b);
    if 0 < i < |b| then Dotted(b[1..i]) else []
  }

  /** What `decodeDNSQuestion` makes of a buffer, and how far it reads; unless the buffer ends first. */
  function DecodedQuestion(b: seq<byte>): (r: Decoding<Question>)
    ensures r.Decoded? ==> r.bytes <= |b|
    ensures r != Endless
  {
    var typeIndex := |DecodedName(b)| + 2;
    if typeIndex + 4 <= |b| then
      Decoded(Question(DecodedName(b), Read16(b, typeIndex), Read16(b, typeIndex + 2)), typeIndex + 4)
    else OffTheEnd
  }

  method DecodeDomainName(buffer: seq<byte>) returns (name: seq<byte>)
    ensures name == DecodedName(buffer)
  {
    var index := ZeroIndex(buffer);
    if 0 < index < |buffer| {
      var start, sliceLen := 1, index - 1;
      var sliceWithDomainName := new byte[sliceLen](i requires 0 <= i < sliceLen => buffer[start + i]);
      for i := 0 to sliceLen
        invariant forall k :: 0 <= k < sliceLen ==>
                    sliceWithDomainName[k] == if k < i then DotIfSmall(buffer[1 + k]) else buffer[1 + k]
      {
        if sliceWithDomainName[i] < 64 {
          sliceWithDomainName[i] := DOT;
        }
      }
      return sliceWithDomainName[..];
    }
    return [];
  }

  method DecodeDNSQuestion(questionBuffer: seq<byte>) returns (r: Decoding<Question>)
    ensures r == DecodedQuestion(questionBuffer)
  {
    var domainName := DecodeDomainName(questionBuffer);
    var typeIndex := |domainName| + 2;
    if |questionBuffer| < typeIndex + 4 {
      return OffTheEnd;
    }
    var questionType := Read16(questionBuffer, typeIndex);
    var classType := Read16(questionBuffer, typeIndex + 2);
    return Decoded(Question(domainName, questionType, classType), typeIndex + 4);
  }

  /** The question loop of `queryDomainNameService`, with the questions read so far. */
  function DecodedQuestions(reply: seq<byte>, position: nat, count: nat, read: seq<Question>): Decoding<seq<Question>>
    requires position <= |reply|
    decreases count
  {
    if count == 0 then Decoded(read, position) else
    match DecodedQuestion(reply[position..])
    case Decoded(q, n) => DecodedQuestions(reply, position + n, count - 1, read + [q])
    case _ => OffTheEnd
  }

  method DecodeQuestions(reply: seq<byte>, start: nat, count: nat) returns (r: Decoding<seq<Question>>)
    requires start <= |reply|
    ensures r == DecodedQuestions(reply, start, count, [])
  {
    hide DecodedQuestion;
    var position: nat, questions: seq<Question>, i: nat := start, [], 0;
    while i < count
      invariant i <= count && position <= |reply|
      invariant DecodedQuestions(reply, start, count, []) == DecodedQuestions(reply, position, count - i, questions)
    {
      var d := DecodeDNSQuestion(reply[position..]);
      if d.OffTheEnd? {
        return OffTheEnd;
      }
      questions := questions + [d.value];
      position := position + d.bytes;
      i := i + 1;
    }
    return Decoded(questions, position);
  }

  // ---------------------------------------------------------------- the round trip

  /** The names whose question survives the trip: the empty one, and those whose labels hold no byte below 64
      and have lengths that, cut to a byte, are not 0 and, behind the first label, below 64. */
  ghost predicate Survives(labels: seq<seq<byte>>)
    requires |labels| >= 1
  {
    labels == [[]] ||
    (|labels[0]| % 0x100 != 0 && Plain(labels[0]) && TailSurvives(labels[1..]))
  }

  ghost predicate TailSurvives(labels: seq<seq<byte>>) {
    forall i :: 0 <= i < |labels| ==> 0 < |labels[i]| % 0x100 < 64 && Plain(labels[i])
  }

  ghost predicate Plain(octets: seq<byte>) {
    forall i :: 0 <= i < |octets| ==> octets[i] >= 64
  }

  /** Labels as they follow the first one in a name. */
  ghost function Suffix(labels: seq<seq<byte>>): seq<byte>
    decreases |labels|
  {
    if labels == [] then [] else [DOT] + labels[0] + Suffix(labels[1..])
  }

  lemma {:induction false} JoinIsSuffix(labels: seq<seq<byte>>)
    requires |labels| >= 1
    ensures Join(labels, DOT) == labels[0] + Suffix(labels[1..])
    ensures |EncodeLabels(labels)| == |Join(labels, DOT)| + 1
    decreases |labels|
  {
    if |labels| > 1 {
      JoinIsSuffix(labels[1..]);
    } else {
      assert EncodeLabels(labels[1..]) == [] && Suffix(labels[1..]) == [];
    }
  }

  lemma PlainIff(octets: seq<byte>)
    requires DOT !in octets
    ensures Dotted(octets) == octets <==> Plain(octets)
    ensures Plain(octets) ==> 0 !in octets
  {
    if Dotted(octets) == octets {
      forall i | 0 <= i < |octets| ensures octets[i] >= 64 {
        assert Dotted(octets)[i] == octets[i];
      }
    }
  }

  lemma DottedConcat(a: seq<byte>, b: seq<byte>)
    ensures Dotted(a + b) == Dotted(a) + Dotted(b)
  {
  }

  lemma ConcatEq(a: seq<byte>, b: seq<byte>, c: seq<byte>, d: seq<byte>)
    requires |a| == |c|
    ensures a + b == c + d <==> a == c && b == d
  {
    if a + b == c + d {
      assert a == (a + b)[..|a|] && b == (a + b)[|a|..];
      assert c == (c + d)[..|c|] && d == (c + d)[|c|..];
    }
  }

  lemma {:induction false} TailIff(labels: seq<seq<byte>>)
    requires Separable(labels, DOT)
    ensures |EncodeLabels(labels)| == |Suffix(labels)|
    ensures TailSurvives(labels) <==>
            0 !in EncodeLabels(labels) && Dotted(EncodeLabels(labels)) == Suffix(labels)
    decreases |labels|
  {
    if labels != [] {
      var l, rest := labels[0], labels[1..];
      TailIff(rest);
      PlainIff(l);
      var n: byte := |l| % 0x100;
      assert labels == [l] + rest;
      assert TailSurvives(labels) <==> 0 < n < 64 && Plain(l) && TailSurvives(rest);
      DottedConcat([n] + l, EncodeLabels(rest));
      DottedConcat([n], l);
      ConcatEq(Dotted([n] + l), Dotted(EncodeLabels(rest)), [DOT] + l, Suffix(rest));
      ConcatEq(Dotted([n]), Dotted(l), [DOT], l);
      assert Dotted([n]) == [DotIfSmall(n)];
    }
  }

  lemma {:induction false} ZeroIndexIs(b: seq<byte>, i: nat)
    requires i < |b| && b[i] == 0 && 0 !in b[..i]
    ensures ZeroIndex(b) == i
  {
    if i > 0 {
      assert b[0] == b[..i][0] && b[1..][..i - 1] == b[..i][1..];
      ZeroIndexIs(b[1..], i - 1);
    }
  }

  /** What the name decoder sees of encoded labels that a zero byte ends. */
  lemma NameOfEncoded(e: seq<byte>, more: seq<byte>)
    requires e != []
    ensures var name := DecodedName(e + [0] + more);
            if 0 in e then |name| + 2 <= |e| || name == [] else name == Dotted(e[1..])
  {
    hide Dotted;
    var b := e + [0] + more;
    if 0 in e {
      var i := ZeroIndex(e);
      assert b[..i] == e[..i];
      ZeroIndexIs(b, i);
    } else {
      assert b[..|e|] == e;
      ZeroIndexIs(b, |e|);
      assert b[1..|e|] == e[1..];
    }
  }

  /** The name read back from an encoded question is the name written exactly when it survives. */
  lemma NameRoundTrip(q: Question, rest: seq<byte>)
    ensures var labels := Split(q.domainName, DOT);
            && |DecodedName(EncodeQuestion(q) + rest)| <= |q.domainName|
            && (DecodedName(EncodeQuestion(q) + rest) == q.domainName <==> Survives(labels))
  {
    var labels := Split(q.domainName, DOT);
    var l, tail := labels[0], labels[1..];
    var e := EncodeLabels(labels);
    JoinOfSplit(q.domainName, DOT);
    JoinIsSuffix(labels);
    PlainIff(l);
    TailIff(tail);
    assert e == [|l| % 0x100] + (l + EncodeLabels(tail));
    var more := BigEndian16(q.questionType) + BigEndian16(q.classType) + rest;
    assert EncodeQuestion(q) + rest == e + [0] + more;
    NameOfEncoded(e, more);
    assert e[1..] == l + EncodeLabels(tail);
    hide DecodedName, EncodeQuestion, Split, Join, EncodeLabels, Dotted, Suffix, Plain, TailSurvives;
    DottedConcat(l, EncodeLabels(tail));
    ConcatEq(Dotted(l), Dotted(EncodeLabels(tail)), l, Suffix(tail));
    if labels == [[]] {
      assert q.domainName == [];
    }
    if q.domainName == [] {
      assert labels == [[]];
    }
  }

  /** Decoding an encoded question, whatever follows it, gives the question and its exact length if and only
      if its name survives; nothing read lies behind the encoding. */
  lemma QuestionRoundTrip(q: Question, rest: seq<byte>)
    ensures var r := DecodedQuestion(EncodeQuestion(q) + rest);
            && r.Decoded? && r.bytes <= |EncodeQuestion(q)|
            && (r == Decoded(q, |EncodeQuestion(q)|) <==> Survives(Split(q.domainName, DOT)))
  {
    var labels := Split(q.domainName, DOT);
    var e := EncodeQuestion(q);
    var b := e + rest;
    NameRoundTrip(q, rest);
    JoinOfSplit(q.domainName, DOT);
    JoinIsSuffix(labels);
    assert |e| == |q.domainName| + 6;
    if DecodedName(b) == q.domainName {
      var t := |q.domainName| + 2;
      assert b[t..t + 2] == BigEndian16(q.questionType);
      assert b[t + 2..t + 4] == BigEndian16(q.classType);
      assert b[t] == b[t..t + 2][0] && b[t + 1] == b[t..t + 2][1];
      assert b[t + 2] == b[t + 2..t + 4][0] && b[t + 3] == b[t + 2..t + 4][1];
    }
  }

  function EncodeQuestions(qs: seq<Question>): seq<byte>
    decreases |qs|
  {
    if qs == [] then [] else EncodeQuestion(qs[0]) + EncodeQuestions(qs[1..])
  }

  lemma Regroup<T>(head: seq<T>, e: seq<T>, more: seq<T>, rest: seq<T>)
    ensures (head + (e + more) + rest)[|head|..] == e + (more + rest)
    ensures head + (e + more) + rest == (head + e) + more + rest
  {
  }

  /** The question loop reads back any list of surviving questions, each from where the last one ended. */
  lemma {:induction false} QuestionStreamRoundTrip(head: seq<byte>, qs: seq<Question>, rest: seq<byte>,
                                                   read: seq<Question>)
    requires forall i :: 0 <= i < |qs| ==> Survives(Split(qs[i].domainName, DOT))
    ensures DecodedQuestions(head + EncodeQuestions(qs) + rest, |head|, |qs|, read) ==
            Decoded(read + qs, |head| + |EncodeQuestions(qs)|)
    decreases |qs|
  {
    hide DecodedQuestion, EncodeQuestion, Survives;
    if qs == [] {
      assert read + qs == read;
    } else {
      var e, more := EncodeQuestion(qs[0]), EncodeQuestions(qs[1..]);
      Regroup(head, e, more, rest);
      QuestionRoundTrip(qs[0], more + rest);
      QuestionStreamRoundTrip(head + e, qs[1..], rest, read + [qs[0]]);
      assert read + [qs[0]] + qs[1..] == read + qs;
    }
  }
}
