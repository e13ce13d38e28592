/** The answer section of a DNS message: resource records with compressed owner and target names. */
module DnsAnswers {
  import opened Decimal
  import opened Bytes
  import opened Splitting
  import opened DnsQuestions
  import opened DnsNames
  import opened DnsEncodedNames

  const TYPE_A: uint16 := 1
  const TYPE_CNAME: uint16 := 5
  const CLASS_IN: uint16 := 1

  datatype ResourceRecord = ResourceRecord(
    domainName: seq<byte>, recordType: uint16, recordClass: uint16, ttl: uint32, dataLength: uint16, data: seq<byte>)

  /** A number in decimal, as ASCII octets. */
  function Ascii(n: nat): (r: seq<byte>)
    ensures |r| == |Itoa(n)| && forall i :: 0 <= i < |r| ==> r[i] == 48 + DigitValue(Itoa(n)[i])
  {
    var s := Itoa(n);
    seq(|s|, i requires 0 <= i < |s| => 48 + DigitValue(s[i]))
  }

  function DottedQuad(octets: seq<byte>): seq<byte>
    requires |octets| == 4
  {
    Join([Ascii(octets[0]), Ascii(octets[1]), Ascii(octets[2]), Ascii(octets[3])], DOT)
  }

  lemma AsciiIsInjective(m: nat, n: nat)
    ensures DOT !in Ascii(m)
    ensures Ascii(m) == Ascii(n) ==> m == n
  {
    if Ascii(m) == Ascii(n) {
      forall i | 0 <= i < |Itoa(m)| ensures Itoa(m)[i] == Itoa(n)[i] {
        assert Ascii(m)[i] == Ascii(n)[i];
      }
      assert Itoa(m) == Itoa(n);
      ValueOfItoa(m);
      ValueOfItoa(n);
    }
  }

  /** The printed address tells the four octets apart from any other four. */
  lemma DottedQuadIsInjective(a: seq<byte>, b: seq<byte>)
    requires |a| == |b| == 4 && DottedQuad(a) == DottedQuad(b)
    ensures a == b
  {
    var pa, pb := seq(4, i requires 0 <= i < 4 => Ascii(a[i])), seq(4, i requires 0 <= i < 4 => Ascii(b[i]));
    forall i | 0 <= i < 4 ensures DOT !in pa[i] && DOT !in pb[i] {
      AsciiIsInjective(a[i], b[i]);
    }
    assert pa == [Ascii(a[0]), Ascii(a[1]), Ascii(a[2]), Ascii(a[3])];
    assert pb == [Ascii(b[0]), Ascii(b[1]), Ascii(b[2]), Ascii(b[3])];
    SplitOfJoin(pa, DOT);
    SplitOfJoin(pb, DOT);
    forall i | 0 <= i < 4 ensures a[i] == b[i] {
      assert pa[i] == pb[i];
      AsciiIsInjective(a[i], b[i]);
    }
  }

  /** The octets of a text of ASCII characters. */
  function Octets(text: string): (r: seq<byte>)
    ensures |r| == |text| && forall i :: 0 <= i < |text| ==> r[i] == text[i] as int % 0x100
  {
    seq(|text|, i requires 0 <= i < |text| => text[i] as int % 0x100)
  }

  lemma OctetsConcat(a: string, b: string)
    ensures Octets(a + b) == Octets(a) + Octets(b)
  {
  }

  /** The printed address in letters: the four decimal numerals in the order of the octets, with dots between. */
  lemma AddressInLetters(a: seq<byte>)
    requires |a| == 4
    ensures DottedQuad(a) == Octets(Itoa(a[0]) + "." + Itoa(a[1]) + "." + Itoa(a[2]) + "." + Itoa(a[3]))
  {
    forall n: nat ensures Octets(Itoa(n)) == Ascii(n) {
      DigitsInAscii(n);
    }
    assert Octets(".") == [DOT];
    hide Ascii, Itoa, Octets;
    JoinFour(Ascii(a[0]), Ascii(a[1]), Ascii(a[2]), Ascii(a[3]));
    var text := Itoa(a[0]);
    OctetsConcat(text, ".");
    OctetsConcat(text + ".", Itoa(a[1]));
    text := text + "." + Itoa(a[1]);
    OctetsConcat(text, ".");
    OctetsConcat(text + ".", Itoa(a[2]));
    text := text + "." + Itoa(a[2]);
    OctetsConcat(text, ".");
    OctetsConcat(text + ".", Itoa(a[3]));
  }

  lemma DigitsInAscii(n: nat)
    ensures Octets(Itoa(n)) == Ascii(n)
  {
    forall i | 0 <= i < |Itoa(n)| ensures Octets(Itoa(n))[i] == Ascii(n)[i] {
      assert IsDigit(Itoa(n)[i]);
    }
  }

  // ---------------------------------------------------------------- one record

  /** What `decodeResourceRecord` makes of the bytes at `pos`. */
  function RecordAt(b: seq<byte>, pos: nat): (r: Decoding<ResourceRecord>)
    ensures r.Decoded? ==> 0 < r.bytes && pos + r.bytes <= |b|
  {
    var name := NameAt(b, pos);
    if name.OffTheEnd? then OffTheEnd
    else if name.Endless? then Endless
    else RecordBehind(b, pos, name.value, name.bytes)
  }

  /** The fields behind the name, and the data of the two types that are known. */
  function RecordBehind(b: seq<byte>, pos: nat, name: seq<byte>, n: nat): (r: Decoding<ResourceRecord>)
    ensures r.Decoded? ==> n < r.bytes && pos + r.bytes <= |b|
  {
    var e := pos + n;
    if e + 10 > |b| then OffTheEnd
    else if Read16(b, e) == TYPE_A && Read16(b, e + 2) == CLASS_IN then
      if e + 14 > |b| then OffTheEnd else Decoded(Fields(b, e, name, DottedQuad(b[e + 10..e + 14])), n + 14)
    else if Read16(b, e) == TYPE_CNAME then
      var target := NameAt(b, e + 10);
      if target.OffTheEnd? then OffTheEnd
      else if target.Endless? then Endless
      else Decoded(Fields(b, e, name, target.value), n + 10 + target.bytes)
    else Decoded(Fields(b, e, name, []), n + 10)
  }

  function Fields(b: seq<byte>, e: nat, name: seq<byte>, data: seq<byte>): ResourceRecord
    requires e + 10 <= |b|
  {
    ResourceRecord(name, Read16(b, e), Read16(b, e + 2), Read32(b, e + 4), Read16(b, e + 8), data)
  }

  /** `resourceRecordBuffer` is the reply from the record on, as the answer loop passes it. */
  method DecodeResourceRecord(responseBuffer: seq<byte>, resourceRecordBuffer: seq<byte>, positionInReply: nat)
    returns (r: Decoding<ResourceRecord>)
    requires positionInReply <= |responseBuffer| && resourceRecordBuffer == responseBuffer[positionInReply..]
    ensures r == RecordAt(responseBuffer, positionInReply)
  {
    hide ReadName, Read16, Read32, DottedQuad;
    var name := DecodeDomain(responseBuffer, positionInReply, Enough(responseBuffer));
    match name {
      case OffTheEnd => return OffTheEnd;
      case Endless => return Endless;
      case Decoded(domainName, typeIndex) =>
        r := DecodeFields(responseBuffer, resourceRecordBuffer, positionInReply, domainName, typeIndex);
    }
  }

  /** What follows the name. */
  method DecodeFields(responseBuffer: seq<byte>, resourceRecordBuffer: seq<byte>, positionInReply: nat,
                      domainName: seq<byte>, typeIndex: nat) returns (r: Decoding<ResourceRecord>)
    requires positionInReply + typeIndex <= |responseBuffer|
    requires resourceRecordBuffer == responseBuffer[positionInReply..]
    ensures r == RecordBehind(responseBuffer, positionInReply, domainName, typeIndex)
  {
    hide ReadName, Read16, Read32, DottedQuad;
    if typeIndex + 10 > |resourceRecordBuffer| {
      return OffTheEnd;
    }
    FixedFields(responseBuffer, positionInReply, typeIndex);
    var recordType := Read16(resourceRecordBuffer, typeIndex);
    var recordClass := Read16(resourceRecordBuffer, typeIndex + 2);
    var ttl := Read32(resourceRecordBuffer, typeIndex + 4);
    var dataLength := Read16(resourceRecordBuffer, typeIndex + 8);
    var bytesDecoded := typeIndex + 10;
    var data: seq<byte> := [];
    if recordType == TYPE_A && recordClass == CLASS_IN {
      if typeIndex + 14 > |resourceRecordBuffer| {
        return OffTheEnd;
      }
      data := PrintAddress(resourceRecordBuffer[typeIndex + 10..typeIndex + 14]);
      ghost var e := positionInReply + typeIndex;
      assert resourceRecordBuffer[typeIndex + 10..typeIndex + 14] == responseBuffer[e + 10..e + 14];
      bytesDecoded := bytesDecoded + 4;
    } else if recordType == TYPE_CNAME {
      var target := DecodeDomain(responseBuffer, positionInReply + typeIndex + 10, Enough(responseBuffer));
      match target {
        case OffTheEnd => return OffTheEnd;
        case Endless => return Endless;
        case Decoded(resourceData, domainBytesDecoded) =>
          data := resourceData;
          bytesDecoded := bytesDecoded + domainBytesDecoded;
      }
    }
    return Decoded(ResourceRecord(domainName, recordType, recordClass, ttl, dataLength, data), bytesDecoded);
  }

  /** The ten octets behind the name, read through the buffer that begins at the record. */
  lemma FixedFields(b: seq<byte>, pos: nat, i: nat)
    requires pos + i + 10 <= |b|
    ensures var s, e := b[pos..], pos + i;
            && Read16(s, i) == Read16(b, e) && Read16(s, i + 2) == Read16(b, e + 2)
            && Read32(s, i + 4) == Read32(b, e + 4) && Read16(s, i + 8) == Read16(b, e + 8)
  {
  }

  method PrintAddress(octets: seq<byte>) returns (rdData: seq<byte>)
    requires |octets| == 4
    ensures rdData == DottedQuad(octets)
  {
    JoinFour(Ascii(octets[0]), Ascii(octets[1]), Ascii(octets[2]), Ascii(octets[3]));
    rdData := Ascii(octets[0]);
    rdData := rdData + [DOT];
    rdData := rdData + Ascii(octets[1]);
    rdData := rdData + [DOT];
    rdData := rdData + Ascii(octets[2]);
    rdData := rdData + [DOT];
    rdData := rdData + Ascii(octets[3]);
  }

  lemma JoinFour(a: seq<byte>, b: seq<byte>, c: seq<byte>, d: seq<byte>)
    ensures Join([a, b, c, d], DOT) == a + [DOT] + b + [DOT] + c + [DOT] + d
  {
    assert [a, b, c, d][1..] == [b, c, d] && [b, c, d][1..] == [c, d] && [c, d][1..] == [d];
    assert Join([c, d], DOT) == c + [DOT] + d;
    assert Join([b, c, d], DOT) == b + [DOT] + (c + [DOT] + d);
  }

  // ---------------------------------------------------------------- the section

  /** What the answer loop makes of the bytes from `pos` on; the position it ends at counts as `bytes`. */
  function AnswersAt(b: seq<byte>, pos: nat, count: nat): (r: Decoding<seq<ResourceRecord>>)
    ensures r.Decoded? ==> |r.value| == count
    decreases count
  {
    if count == 0 then Decoded([], pos) else
    var first := RecordAt(b, pos);
    if first.OffTheEnd? then OffTheEnd
    else if first.Endless? then Endless
    else InFrontOf([first.value], AnswersAt(b, pos + first.bytes, count - 1))
  }

  /** The answer loop of `queryDomainNameService`. */
  method DecodeAnswers(reply: seq<byte>, start: nat, count: nat) returns (r: Decoding<seq<ResourceRecord>>)
    requires start <= |reply|
    ensures r == AnswersAt(reply, start, count)
  {
    hide RecordAt;
    var records: seq<ResourceRecord>, position: nat, i: nat := [], start, 0;
    InFrontTwice([], [], AnswersAt(reply, start, count));
    while i < count
      invariant i <= count && position <= |reply|
      invariant AnswersAt(reply, start, count) == InFrontOf(records, AnswersAt(reply, position, count - i))
    {
      Failures(records);
      hide InFrontOf;
      var d := DecodeResourceRecord(reply, reply[position..], position);
      match d {
        case OffTheEnd => return OffTheEnd;
        case Endless => return Endless;
        case Decoded(record, bytesDecoded) =>
          InFrontTwice(records, [record], AnswersAt(reply, position + bytesDecoded, count - i - 1));
          records := records + [record];
          position := position + bytesDecoded;
          i := i + 1;
      }
    }
    assert records + [] == records;
    return Decoded(records, position);
  }

  // ---------------------------------------------------------------- sections laid out by the standard

  /** Addresses and aliases are what the decoder knows; `Other` is any other type, or class, with its data. */
  datatype Data = Address(octets: seq<byte>) | Alias(target: Labels) | Other(recordType: uint16, octets: seq<byte>)

  /** An answer as a server means it. */
  datatype Answer = Answer(owner: Labels, classType: uint16, ttl: uint32, data: Data) {
    function RecordType(): uint16 {
      match data case Address(_) => 1 case Alias(_) => 5 case Other(t, _) => t
    }

    predicate Proper() {
      match data
      case Address(_) => classType == 1
      case Alias(_) => true
      case Other(t, _) => t != 5 && !(t == 1 && classType == 1)
    }
  }

  /** The first octet behind the name at `pos`, by the standard. */
  ghost function NameEnd(b: seq<byte>, pos: nat): nat
    requires Readable(b, pos)
  {
    Denoted(b, pos, pos).end
  }

  ghost predicate NameLaidOut(b: seq<byte>, pos: nat, labels: Labels, next: nat) {
    Readable(b, pos) && Denoted(b, pos, pos).labels == labels && NameEnd(b, pos) == next
  }

  // Numbers in the octets at `i`, the most significant octet first.

  ghost predicate TwoOctets(b: seq<byte>, i: nat, v: int)
    requires i + 2 <= |b|
  {
    v == 0x100 * b[i] as int + b[i + 1] as int
  }

  ghost predicate FourOctets(b: seq<byte>, i: nat, v: int)
    requires i + 4 <= |b|
  {
    v == 0x100_0000 * b[i] as int + 0x1_0000 * b[i + 1] as int + 0x100 * b[i + 2] as int + b[i + 3] as int
  }

  /** The octets from `pos` to `next` are the answer in the layout of section 4.1.3 of RFC 1035, with readable
      names and a data length that is the truth. */
  ghost predicate LaidOut(b: seq<byte>, pos: nat, a: Answer, next: nat) {
    Readable(b, pos) && Denoted(b, pos, pos).labels == a.owner && a.Proper() &&
    var e := NameEnd(b, pos);
    && e + 10 <= next <= |b|
    && TwoOctets(b, e, a.RecordType()) && TwoOctets(b, e + 2, a.classType)
    && FourOctets(b, e + 4, a.ttl) && TwoOctets(b, e + 8, next - e - 10)
    && match a.data
       case Address(octets) => next == e + 14 && b[e + 10..next] == octets
       case Alias(target) => NameLaidOut(b, e + 10, target, next)
       case Other(_, octets) => b[e + 10..next] == octets
  }

  // Answers as a server writes them, with names written out or as pointers.

  /** A name that is read back wherever it stands: `DnsEncodedNames.QuestionIsReadEverywhereIff`. */
  ghost predicate Clear(labels: Labels) {
    labels != [] && WellSized(labels) && ZeroFree(labels) && !MeetsMask80(|labels[0]|)
  }

  function DataOctets(data: Data): seq<byte> {
    match data
    case Address(octets) => octets
    case Alias(target) => EncodeLabels(target) + [0]
    case Other(_, octets) => octets
  }

  /** Type, class, time to live and data length. */
  function FixedOctets(recordType: uint16, classType: uint16, ttl: uint32, length: uint16): (r: seq<byte>)
    ensures |r| == 10
  {
    [recordType / 0x100, recordType % 0x100, classType / 0x100, classType % 0x100,
     ttl / 0x100_0000, ttl / 0x1_0000 % 0x100, ttl / 0x100 % 0x100, ttl % 0x100, length / 0x100, length % 0x100]
  }

  ghost predicate Sendable(a: Answer) {
    && a.Proper() && |DataOctets(a.data)| < 0x1_0000
    && match a.data
       case Address(octets) => |octets| == 4
       case Alias(target) => Clear(target)
       case Other(_, _) => true
  }

  /** With the owner written out. */
  ghost function Written(a: Answer): seq<byte>
    requires Sendable(a)
  {
    var data := DataOctets(a.data);
    EncodeLabels(a.owner) + [0] + FixedOctets(a.RecordType(), a.classType, a.ttl, |data|) + data
  }

  lemma OctetsOf(x: uint32)
    ensures x == 0x100_0000 * (x / 0x100_0000) + 0x1_0000 * (x / 0x1_0000 % 0x100)
                 + 0x100 * (x / 0x100 % 0x100) + x % 0x100
  {
    var y: int, z: int := x / 0x100, x / 0x1_0000;
    assert x == 0x100 * y + x % 0x100;
    assert y == 0x100 * z + y % 0x100;
    assert z == 0x100 * (x / 0x100_0000) + z % 0x100;
  }

  lemma FixedOctetsAreRead(b: seq<byte>, e: nat, recordType: uint16, classType: uint16, ttl: uint32, length: uint16)
    requires e + 10 <= |b| && b[e..e + 10] == FixedOctets(recordType, classType, ttl, length)
    ensures TwoOctets(b, e, recordType) && TwoOctets(b, e + 2, classType) && FourOctets(b, e + 4, ttl)
    ensures TwoOctets(b, e + 8, length)
  {
    OctetsOf(ttl);
    var f := b[e..e + 10];
    assert b[e] == f[0] && b[e + 1] == f[1] && b[e + 2] == f[2] && b[e + 3] == f[3] && b[e + 4] == f[4];
    assert b[e + 5] == f[5] && b[e + 6] == f[6] && b[e + 7] == f[7] && b[e + 8] == f[8] && b[e + 9] == f[9];
  }

  lemma WrittenNameIsLaidOut(b: seq<byte>, pos: nat, labels: Labels)
    requires Clear(labels) && pos + |EncodeLabels(labels) + [0]| <= |b|
    requires b[pos..pos + |EncodeLabels(labels) + [0]|] == EncodeLabels(labels) + [0]
    ensures NameLaidOut(b, pos, labels, pos + |EncodeLabels(labels)| + 1)
  {
    hide Denoted, EncodeLabels, ZeroFree, MeetsMask80;
    var next := pos + |EncodeLabels(labels) + [0]|;
    EncodedNameIsDenoted(b[..pos], pos, labels, b[next..]);
    assert b == b[..pos] + (EncodeLabels(labels) + [0]) + b[next..];
    assert b == b[..pos] + EncodeLabels(labels) + [0] + b[next..];
  }

  /** Behind a name that is laid out, the fields and the data make it an answer that is laid out. */
  lemma FieldsAreLaidOut(b: seq<byte>, pos: nat, a: Answer, e: nat)
    requires Sendable(a) && NameLaidOut(b, pos, a.owner, e)
    requires var data := DataOctets(a.data);
             && e + 10 + |data| <= |b|
             && b[e..e + 10] == FixedOctets(a.RecordType(), a.classType, a.ttl, |data|)
             && b[e + 10..e + 10 + |data|] == data
    ensures LaidOut(b, pos, a, e + 10 + |DataOctets(a.data)|)
  {
    FixedOctetsAreRead(b, e, a.RecordType(), a.classType, a.ttl, |DataOctets(a.data)|);
    hide Denoted, FixedOctets, EncodeLabels, Clear, Readable;
    if a.data.Alias? {
      WrittenNameIsLaidOut(b, e + 10, a.data.target);
    }
  }

  /** Whatever surrounds it, an answer whose owner is written out is laid out. */
  lemma WrittenAnswerIsLaidOut(head: seq<byte>, a: Answer, tail: seq<byte>)
    requires Sendable(a) && Clear(a.owner)
    ensures LaidOut(head + Written(a) + tail, |head|, a, |head| + |Written(a)|)
  {
    hide Denoted, FixedOctets, EncodeLabels, Clear, Readable, DataOctets, LaidOut, NameLaidOut;
    var name, data := EncodeLabels(a.owner) + [0], DataOctets(a.data);
    Surrounded(head, name, FixedOctets(a.RecordType(), a.classType, a.ttl, |data|), data, tail);
    var b := head + (name + FixedOctets(a.RecordType(), a.classType, a.ttl, |data|) + data) + tail;
    WrittenNameIsLaidOut(b, |head|, a.owner);
    FieldsAreLaidOut(b, |head|, a, |head| + |name|);
  }

  /** So is one whose owner is a pointer to a name in front of it, in the first 256 octets. */
  lemma PointedAnswerIsLaidOut(head: seq<byte>, target: byte, a: Answer, tail: seq<byte>)
    requires Sendable(a)
    requires var data := DataOctets(a.data);
             var octets := [192, target] + FixedOctets(a.RecordType(), a.classType, a.ttl, |data|) + data;
             var b := head + octets + tail;
             Readable(b, target) && Denoted(b, target, target).labels == a.owner && NameEnd(b, target) <= |head|
    ensures var data := DataOctets(a.data);
            var octets := [192, target] + FixedOctets(a.RecordType(), a.classType, a.ttl, |data|) + data;
            LaidOut(head + octets + tail, |head|, a, |head| + |octets|)
  {
    var data := DataOctets(a.data);
    var b := head + ([192, target] + FixedOctets(a.RecordType(), a.classType, a.ttl, |data|) + data) + tail;
    hide Denoted, FixedOctets, EncodeLabels, Clear, Readable, DataOctets, LaidOut;
    Surrounded(head, [192, target], FixedOctets(a.RecordType(), a.classType, a.ttl, |data|), data, tail);
    PointerNamesTarget(b, target, |head|, a.owner);
    FieldsAreLaidOut(b, |head|, a, |head| + 2);
  }

  lemma PointerNamesTarget(b: seq<byte>, target: byte, pos: nat, labels: Labels)
    requires pos + 2 <= |b| && b[pos] == 192 && b[pos + 1] == target
    requires Readable(b, target) && Denoted(b, target, target).labels == labels && NameEnd(b, target) <= pos
    ensures NameLaidOut(b, pos, labels, pos + 2)
  {
    hide ZeroFree, MeetsMask80;
  }

  lemma Surrounded(head: seq<byte>, name: seq<byte>, fixed: seq<byte>, data: seq<byte>, tail: seq<byte>)
    ensures var b, i, j := head + (name + fixed + data) + tail, |head| + |name|, |head| + |name| + |fixed|;
            && j + |data| <= |b|
            && b[|head|..i] == name && b[i..j] == fixed && b[j..j + |data|] == data
            && forall k :: 0 <= k < |name| ==> b[|head| + k] == name[k]
  {
  }

  ghost predicate AllLaidOut(b: seq<byte>, pos: nat, answers: seq<Answer>, end: nat)
    decreases |answers|
  {
    if answers == [] then pos == end
    else exists next :: LaidOut(b, pos, answers[0], next) && AllLaidOut(b, next, answers[1..], end)
  }

  ghost function WrittenAll(answers: seq<Answer>): seq<byte>
    requires forall a :: a in answers ==> Sendable(a)
    decreases |answers|
  {
    if answers == [] then [] else Written(answers[0]) + WrittenAll(answers[1..])
  }

  /** Answers written one after the other are a section that is laid out. */
  lemma {:induction false} WrittenSectionIsLaidOut(head: seq<byte>, answers: seq<Answer>, tail: seq<byte>)
    requires forall a :: a in answers ==> Sendable(a) && Clear(a.owner)
    ensures AllLaidOut(head + WrittenAll(answers) + tail, |head|, answers, |head| + |WrittenAll(answers)|)
    decreases |answers|
  {
    hide LaidOut, Written, Clear;
    if answers != [] {
      var one, more := Written(answers[0]), WrittenAll(answers[1..]);
      WrittenAnswerIsLaidOut(head, answers[0], more + tail);
      WrittenSectionIsLaidOut(head + one, answers[1..], tail);
      assert head + (one + more) + tail == head + one + (more + tail) == head + one + more + tail;
    }
  }

  /** What the program reports for an answer; nothing of the data of other types. */
  ghost predicate Reports(r: ResourceRecord, a: Answer) {
    && a.owner != [] && r.domainName == Join(a.owner, DOT) && r.recordType == a.RecordType()
    && r.recordClass == a.classType && r.ttl == a.ttl
    && match a.data
       case Address(octets) => r.dataLength == 4 == |octets| && r.data == DottedQuad(octets)
       case Alias(target) => target != [] && r.data == Join(target, DOT)
       case Other(_, octets) => r.dataLength == |octets| && r.data == []
  }

  /** The number of data octets that the decoder leaves behind. */
  function Unread(a: Answer): nat {
    match a.data case Other(_, octets) => |octets| case _ => 0
  }

  predicate Skipped(a: Answer) {
    Unread(a) == 0
  }

  /** Every answer laid out by the standard is read as it is meant, whatever its type; the decoder moves on to the
      next one exactly when the answer is an address or an alias or has no data, and otherwise to its data. */
  lemma OneAnswer(b: seq<byte>, pos: nat, a: Answer, next: nat)
    requires LaidOut(b, pos, a, next)
    ensures var r := RecordAt(b, pos);
            && r.Decoded? && Reports(r.value, a) && pos + r.bytes + Unread(a) == next
            && (pos + r.bytes == next <==> (a.data.Other? ==> a.data.octets == []))
  {
    hide Denoted, NameAt, DottedQuad;
    ReadableIsRead(b, pos);
    if a.data.Alias? {
      ReadableIsRead(b, NameEnd(b, pos) + 10);
    }
  }

  /** The position of the first answer whose data are not skipped, or the number of answers. */
  function FirstUnskipped(answers: seq<Answer>): (k: nat)
    ensures k <= |answers| && forall i :: 0 <= i < k ==> Skipped(answers[i])
    ensures k < |answers| ==> !Skipped(answers[k])
    decreases |answers|
  {
    if answers == [] || !Skipped(answers[0]) then 0 else 1 + FirstUnskipped(answers[1..])
  }

  /** The answers the loop reads as they are meant: all of them, or those up to the first unskipped one. */
  function Meant(answers: seq<Answer>): (n: nat)
    ensures n <= |answers|
  {
    var k := FirstUnskipped(answers);
    if k < |answers| then k + 1 else k
  }

  ghost predicate AllReported(rs: seq<ResourceRecord>, answers: seq<Answer>) {
    |rs| <= |answers| && forall i :: 0 <= i < |rs| ==> Reports(rs[i], answers[i])
  }

  lemma ReportedCons(r: ResourceRecord, rs: seq<ResourceRecord>, answers: seq<Answer>)
    requires answers != [] && Reports(r, answers[0]) && AllReported(rs, answers[1..])
    ensures AllReported([r] + rs, answers)
  {
    hide Reports;
    forall i | 0 <= i < |rs| + 1 ensures Reports(([r] + rs)[i], answers[i]) {
      if i > 0 {
        assert ([r] + rs)[i] == rs[i - 1] && answers[i] == answers[1..][i - 1];
      }
    }
  }

  function UnreadOfLast(answers: seq<Answer>): nat {
    var k := FirstUnskipped(answers);
    if k < |answers| then Unread(answers[k]) else 0
  }

  /** The rest of the section begins as many octets behind `pos` as the last answer has left unread. */
  ghost predicate Resumes(b: seq<byte>, pos: nat, answers: seq<Answer>, end: nat) {
    AllLaidOut(b, pos + UnreadOfLast(answers), answers[Meant(answers)..], end)
  }

  /** The loop reads the answers as they are meant up to and including the first one whose data it does not skip.
      It ends where the section ends if there is none; otherwise it goes on at the data of that one. */
  ghost predicate Walked(b: seq<byte>, pos: nat, answers: seq<Answer>, end: nat) {
    var r := AnswersAt(b, pos, Meant(answers));
    r.Decoded? && AllReported(r.value, answers) && Resumes(b, r.bytes, answers, end)
  }

  lemma MeantCons(answers: seq<Answer>)
    requires answers != [] && Skipped(answers[0])
    ensures Meant(answers) == Meant(answers[1..]) + 1 && UnreadOfLast(answers) == UnreadOfLast(answers[1..])
    ensures answers[Meant(answers)..] == answers[1..][Meant(answers[1..])..]
  {
    hide Skipped, Unread;
    var rest := answers[1..];
    assert forall i :: 0 <= i < |rest| ==> rest[i] == answers[i + 1];
  }

  lemma WalkOver(b: seq<byte>, pos: nat, answers: seq<Answer>, end: nat, next: nat)
    requires answers != [] && LaidOut(b, pos, answers[0], next) && Skipped(answers[0])
    requires Walked(b, next, answers[1..], end)
    ensures Walked(b, pos, answers, end)
  {
    hide LaidOut, RecordAt, Reports, AllReported, AllLaidOut, AnswersAt, Meant, UnreadOfLast, FirstUnskipped;
    OneAnswer(b, pos, answers[0], next);
    MeantCons(answers);
    OneMoreAnswer(b, pos, Meant(answers[1..]));
    ReportedCons(RecordAt(b, pos).value, AnswersAt(b, next, Meant(answers[1..])).value, answers);
  }

  lemma OneMoreAnswer(b: seq<byte>, pos: nat, n: nat)
    requires RecordAt(b, pos).Decoded?
    ensures var r := RecordAt(b, pos);
            AnswersAt(b, pos, n + 1) == InFrontOf([r.value], AnswersAt(b, pos + r.bytes, n))
  {
    hide RecordAt;
  }

  lemma WalkInto(b: seq<byte>, pos: nat, answers: seq<Answer>, end: nat, next: nat)
    requires answers != [] && LaidOut(b, pos, answers[0], next) && !Skipped(answers[0])
    requires AllLaidOut(b, next, answers[1..], end)
    ensures Walked(b, pos, answers, end)
  {
    hide LaidOut, RecordAt, Reports, AllReported, AllLaidOut, Unread;
    OneAnswer(b, pos, answers[0], next);
    assert Meant(answers) == 1 && UnreadOfLast(answers) == Unread(answers[0]);
    OneMoreAnswer(b, pos, 0);
    NoneReported(answers[1..]);
    ReportedCons(RecordAt(b, pos).value, [], answers);
  }

  /** For every section laid out by the standard, of records of any types: the loop recovers every name, type,
      class, time to live and data string, as far as it skips data. */
  lemma {:induction false} AnswerWalk(b: seq<byte>, pos: nat, answers: seq<Answer>, end: nat)
    requires AllLaidOut(b, pos, answers, end)
    ensures Walked(b, pos, answers, end)
    decreases |answers|
  {
    hide LaidOut, RecordAt, Reports, AllReported, Skipped, Unread;
    if answers == [] {
      NoneReported(answers);
    } else {
      hide Walked;
      var next :| LaidOut(b, pos, answers[0], next) && AllLaidOut(b, next, answers[1..], end);
      if Skipped(answers[0]) {
        AnswerWalk(b, next, answers[1..], end);
        WalkOver(b, pos, answers, end, next);
      } else {
        WalkInto(b, pos, answers, end, next);
      }
    }
  }

  /** So a section of addresses, of aliases and of records without data is read as a whole, up to its end. */
  lemma WholeSectionIsRead(b: seq<byte>, pos: nat, answers: seq<Answer>, end: nat)
    requires AllLaidOut(b, pos, answers, end) && forall i :: 0 <= i < |answers| ==> Skipped(answers[i])
    ensures var r := AnswersAt(b, pos, |answers|);
            r.Decoded? && r.bytes == end && |r.value| == |answers| && AllReported(r.value, answers)
  {
    hide LaidOut, RecordAt, Reports, AllReported;
    AnswerWalk(b, pos, answers, end);
    assert FirstUnskipped(answers) == |answers| && answers[|answers|..] == [];
  }

  lemma NoneReported(answers: seq<Answer>)
    ensures AllReported([], answers)
  {
  }

  /** The loop over more records than that is the loop over those, and then over what is found at its end. */
  lemma {:induction false} WalkSplits(b: seq<byte>, pos: nat, n: nat, more: nat)
    ensures var r := AnswersAt(b, pos, n);
            AnswersAt(b, pos, n + more) == if r.Decoded? then InFrontOf(r.value, AnswersAt(b, r.bytes, more)) else r
    decreases n
  {
    hide RecordAt;
    if n == 0 {
      InFrontTwice([], [], AnswersAt(b, pos, more));
    } else {
      var first := RecordAt(b, pos);
      if first.Decoded? {
        OneMoreAnswer(b, pos, n - 1);
        OneMoreAnswer(b, pos, n - 1 + more);
        hide AnswersAt;
        WalkSplits(b, pos + first.bytes, n - 1, more);
        var r := AnswersAt(b, pos + first.bytes, n - 1);
        if r.Decoded? {
          InFrontTwice([first.value], r.value, AnswersAt(b, r.bytes, more));
        }
      }
    }
  }

  /** A name server record is such a record: its data are one name. In front of an answer whose owner is a pointer,
      the loop takes that name for an owner and the pointer for a type, which is none that exists. */
  lemma TargetIsTakenForOwner(b: seq<byte>, pos: nat, a: Answer, d: nat, next: nat, target: Labels)
    requires LaidOut(b, pos, a, next) && a.data.Other? && d + |a.data.octets| == next
    requires NameLaidOut(b, d, target, next) && next + 10 <= |b| && b[next] >= 192
    ensures !Skipped(a) && RecordAt(b, pos).Decoded? && pos + RecordAt(b, pos).bytes == d
    ensures var r := RecordAt(b, d);
            r.Decoded? && r.value.domainName == Join(target, DOT) && r.value.recordType >= 0xC000 && r.value.data == []
  {
    hide Denoted, NameAt, Read16, Read32, Reports, LaidOut, Readable, RecordAt;
    OneAnswer(b, pos, a, next);
    NameIsRead(b, d, target, next);
    OtherRecord(b, d);
  }

  lemma NameIsRead(b: seq<byte>, pos: nat, labels: Labels, next: nat)
    requires NameLaidOut(b, pos, labels, next)
    ensures labels != [] && pos < next && NameAt(b, pos) == Decoded(Join(labels, DOT), next - pos)
  {
    hide Denoted, NameAt;
    ReadableIsRead(b, pos);
  }

  /** Behind a name, two octets of at least 192 and anything are the type of a record without data. */
  lemma OtherRecord(b: seq<byte>, pos: nat)
    requires NameAt(b, pos).Decoded?
    requires var e := pos + NameAt(b, pos).bytes; e + 10 <= |b| && b[e] >= 192
    ensures var r := RecordAt(b, pos);
            && r.Decoded? && r.value.domainName == NameAt(b, pos).value
            && r.value.recordType >= 0xC000 && r.value.data == []
  {
    hide NameAt, Read32;
  }
}
