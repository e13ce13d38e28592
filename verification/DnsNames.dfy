/** Compressed domain names: what bytes denote by the standard, and what the decoder makes of any bytes. */
module DnsNames {
  import opened Bytes
  import opened Splitting
  import opened DnsQuestions
  import opened Options
  import opened Pigeonholes

  type Labels = seq<seq<byte>>

  /** What the bytes from some position on denote: the labels, the end of the bytes that were laid down there,
      and whether every pointer followed has an offset of one byte. */
  datatype Wire = Malformed | Name(labels: Labels, end: nat, shortOffsets: bool)

  /** Section 4.1.4 of RFC 1035: labels, ended by a zero octet or by a pointer. `start` is where the segment that
      holds `pos` begins; a pointer must lead to a segment that lies wholly before it. */
  ghost function Denoted(b: seq<byte>, start: nat, pos: nat): (w: Wire)
    requires start <= pos
    ensures w.Name? ==> pos < w.end <= |b|
    decreases start, |b| - pos
  {
    if pos >= |b| then Malformed
    else if b[pos] == 0 then Name([], pos + 1, true)
    else if b[pos] < 64 then
      var next := pos + 1 + b[pos];
      if next > |b| then Malformed else
      match Denoted(b, start, next)
      case Malformed => Malformed
      case Name(labels, end, short) => Name([b[pos + 1..next]] + labels, end, short)
    else if b[pos] >= 192 && pos + 1 < |b| then
      var target := (b[pos] as int - 192) * 0x100 + b[pos + 1];
      if target >= start then Malformed else
      match Denoted(b, target, target)
      case Malformed => Malformed
      case Name(labels, end, short) =>
        if end <= start then Name(labels, pos + 2, short && b[pos] == 192) else Malformed
    else Malformed
  }

  // ---------------------------------------------------------------- what the decoder makes of any bytes

  /** The octet has a bit in common with decimal 80, that is, with 64 or with 16. */
  predicate MeetsMask80(octet: byte) {
    octet / 64 % 2 == 1 || octet / 16 % 2 == 1
  }

  /** In binary, it is the second bit or the fourth one from the top that counts. */
  lemma MaskInBits(a: bv8, octet: byte)
    requires a as int == octet
    ensures MeetsMask80(octet) <==> a & 80 != 0
    ensures octet >= 128 <==> a & 0x80 != 0
  {
  }

  function Max(a: nat, b: nat): nat {
    if a > b then a else b
  }

  /** The first loop, from `pos` on and for at most `fuel` rounds: where the first label begins, and the furthest
      position counted. Only the low octet of a pointer's offset is looked at. */
  function Skip(b: seq<byte>, pos: nat, maxPos: nat, fuel: nat): (r: Decoding<nat>)
    ensures r.Decoded? ==> r.value < |b| && maxPos <= r.bytes && (maxPos < |b| ==> r.bytes < |b|)
    decreases fuel
  {
    if pos >= |b| then OffTheEnd
    else if !MeetsMask80(b[pos]) then Decoded(pos, maxPos)
    else if fuel == 0 then Endless
    else if pos + 1 >= |b| then OffTheEnd
    else Skip(b, b[pos + 1], Max(maxPos, pos + 1), fuel - 1)
  }

  /** The second loop, with `numOctets` octets of the current label to go and `room` octets left in the buffer for
      the text: the text still to be written, and the furthest position counted. */
  function Copy(b: seq<byte>, pos: nat, numOctets: nat, room: nat, maxPos: nat, fuel: nat): (r: Decoding<seq<byte>>)
    ensures r.Decoded? ==> maxPos <= r.bytes && |r.value| <= room && (maxPos < |b| ==> r.bytes < |b|)
    decreases fuel
  {
    if pos >= |b| then OffTheEnd
    else if b[pos] == 0 then Decoded([], maxPos)
    else if fuel == 0 then Endless
    else if numOctets == 0 && b[pos] >= 128 then
      if pos + 1 >= |b| then OffTheEnd else Copy(b, b[pos + 1], 0, room, Max(maxPos, pos + 1), fuel - 1)
    else if room == 0 then OffTheEnd
    else if numOctets > 0 then
      InFrontOf([b[pos]], Copy(b, pos + 1, numOctets - 1, room - 1, Max(maxPos, pos + 1), fuel - 1))
    else
      InFrontOf([DOT], Copy(b, pos + 1, b[pos], room - 1, Max(maxPos, pos + 1), fuel - 1))
  }

  /** Both loops, for at most `fuel` rounds each, and the bytes counted. */
  function ReadName(b: seq<byte>, startPos: nat, fuel: nat): (r: Decoding<seq<byte>>)
    ensures r.Decoded? ==> 0 < r.bytes && startPos + r.bytes <= |b|
  {
    var skipped := Skip(b, startPos, startPos, fuel);
    if skipped.OffTheEnd? then OffTheEnd
    else if skipped.Endless? then Endless
    else
      var copied := Copy(b, skipped.value + 1, b[skipped.value], |b|, skipped.bytes, fuel);
      if copied.Decoded? then Decoded(copied.value, copied.bytes - startPos + 1) else copied
  }

  /** More rounds than any decoding takes that ends at all. */
  function Enough(b: seq<byte>): nat {
    257 * (|b| + 1)
  }

  /** What `decodeDomain` makes of the bytes at `pos`. */
  function NameAt(b: seq<byte>, pos: nat): (r: Decoding<seq<byte>>)
    ensures r.Decoded? ==> 0 < r.bytes && pos + r.bytes <= |b|
  {
    ReadName(b, pos, Enough(b))
  }

  // ---------------------------------------------------------------- the decoder

  /** The first loop of `decodeDomain`: pointers in front of the first label. */
  method FollowPointers(responseBuffer: seq<byte>, startPos: nat, fuel: nat) returns (r: Decoding<nat>)
    ensures r == Skip(responseBuffer, startPos, startPos, fuel)
  {
    hide MeetsMask80;
    var currentPos: nat, maxPos: nat, left: nat := startPos, startPos, fuel;
    while currentPos < |responseBuffer| && MeetsMask80(responseBuffer[currentPos])
      invariant Skip(responseBuffer, startPos, startPos, fuel) == Skip(responseBuffer, currentPos, maxPos, left)
      decreases left
    {
      if left == 0 {
        return Endless;
      }
      left := left - 1;
      currentPos := currentPos + 1;
      maxPos := Max(maxPos, currentPos);
      if currentPos >= |responseBuffer| {
        return OffTheEnd;
      }
      currentPos := responseBuffer[currentPos];
    }
    if currentPos >= |responseBuffer| {
      return OffTheEnd;
    }
    return Decoded(currentPos, maxPos);
  }

  /** The second loop of `decodeDomain`: labels and the pointers between them, written with dots. */
  method CopyLabels(responseBuffer: seq<byte>, first: nat, maxBefore: nat, domainBuffer: array<byte>, fuel: nat)
    returns (r: Decoding<nat>)
    requires first < |responseBuffer|
    modifies domainBuffer
    ensures match Copy(responseBuffer, first + 1, responseBuffer[first], domainBuffer.Length, maxBefore, fuel)
            case OffTheEnd => r == OffTheEnd
            case Endless => r == Endless
            case Decoded(text, maxPos) => r == Decoded(|text|, maxPos) && domainBuffer[..|text|] == text
  {
    ghost var b := responseBuffer;
    var numOctets: nat, currentPos: nat := responseBuffer[first], first + 1;
    var destPos: nat, maxPos: nat, left: nat := 0, maxBefore, fuel;
    ghost var whole := Copy(b, currentPos, numOctets, domainBuffer.Length, maxPos, fuel);
    InFrontTwice([], [], whole);
    assert domainBuffer[..0] == [];
    while currentPos < |responseBuffer| && responseBuffer[currentPos] != 0
      invariant destPos <= domainBuffer.Length
      invariant whole == InFrontOf(domainBuffer[..destPos],
                                   Copy(b, currentPos, numOctets, domainBuffer.Length - destPos, maxPos, left))
      decreases left
    {
      hide InFrontOf;
      Failures(domainBuffer[..destPos]);
      if left == 0 {
        return Endless;
      }
      left := left - 1;
      if numOctets == 0 && responseBuffer[currentPos] >= 128 {
        currentPos := currentPos + 1;
        maxPos := Max(maxPos, currentPos);
        if currentPos >= |responseBuffer| {
          return OffTheEnd;
        }
        currentPos := responseBuffer[currentPos];
        continue;
      }
      if destPos >= domainBuffer.Length {
        return OffTheEnd;
      }
      ghost var written := domainBuffer[..destPos];
      if numOctets > 0 {
        domainBuffer[destPos] := responseBuffer[currentPos];
        numOctets := numOctets - 1;
      } else {
        numOctets := responseBuffer[currentPos];
        domainBuffer[destPos] := DOT;
      }
      destPos := destPos + 1;
      currentPos := currentPos + 1;
      maxPos := Max(maxPos, currentPos);
      assert domainBuffer[..destPos] == written + [domainBuffer[destPos - 1]];
      InFrontTwice(written, [domainBuffer[destPos - 1]],
        Copy(b, currentPos, numOctets, domainBuffer.Length - destPos, maxPos, left));
    }
    if currentPos >= |responseBuffer| {
      return OffTheEnd;
    }
    assert domainBuffer[..destPos] + [] == domainBuffer[..destPos];
    return Decoded(destPos, maxPos);
  }

  lemma Failures<T>(found: seq<T>)
    ensures InFrontOf(found, OffTheEnd) == OffTheEnd && InFrontOf(found, Endless) == Endless
  {
  }

  /** On any bytes whatever. */
  method DecodeDomain(responseBuffer: seq<byte>, startPos: nat, fuel: nat) returns (r: Decoding<seq<byte>>)
    ensures r == ReadName(responseBuffer, startPos, fuel)
  {
    hide Skip, Copy;
    var domainBuffer := new byte[|responseBuffer|](_ => 0);
    var skipped := FollowPointers(responseBuffer, startPos, fuel);
    match skipped {
      case OffTheEnd => return OffTheEnd;
      case Endless => return Endless;
      case Decoded(currentPos, counted) =>
        var copied := CopyLabels(responseBuffer, currentPos, counted, domainBuffer, fuel);
        match copied {
          case OffTheEnd => return OffTheEnd;
          case Endless => return Endless;
          case Decoded(destPos, maxPos) => return Decoded(domainBuffer[..destPos], maxPos - startPos + 1);
        }
    }
  }

  // ---------------------------------------------------------------- decodings that end, and those that do not

  /** A loop follows this octet as a pointer: the first one by the mask, the second one by the top bit. */
  predicate IsPointer(octet: byte, front: bool) {
    if front then MeetsMask80(octet) else octet >= 128
  }

  /** Where `k` pointers in a row lead. */
  ghost function After(b: seq<byte>, pos: nat, front: bool, k: nat): (p: Option<nat>)
    decreases k
  {
    if k == 0 then Some(pos)
    else if pos + 1 < |b| && IsPointer(b[pos], front) then After(b, b[pos + 1], front, k - 1)
    else None
  }

  lemma {:induction false} AfterAdds(b: seq<byte>, pos: nat, front: bool, i: nat, j: nat)
    ensures After(b, pos, front, i + j) ==
            if After(b, pos, front, i).Some? then After(b, After(b, pos, front, i).value, front, j) else None
    decreases i
  {
    hide IsPointer;
    if i > 0 && pos + 1 < |b| && IsPointer(b[pos], front) {
      AfterAdds(b, b[pos + 1], front, i - 1, j);
    }
  }

  lemma {:induction false} CycleHasNoEnd(b: seq<byte>, pos: nat, front: bool, i: nat, j: nat, k: nat)
    requires i < j && After(b, pos, front, j).Some? && After(b, pos, front, i) == After(b, pos, front, j)
    ensures After(b, pos, front, k).Some?
    decreases k
  {
    hide After;
    if k <= j {
      AfterAdds(b, pos, front, k, j - k);
    } else {
      AfterAdds(b, pos, front, i, k - j);
      AfterAdds(b, pos, front, j, k - j);
      CycleHasNoEnd(b, pos, front, i, j, i + k - j);
    }
  }

  lemma HopIsSmall(b: seq<byte>, pos: nat, front: bool, k: nat)
    requires k > 0 && After(b, pos, front, k).Some?
    ensures After(b, pos, front, k).value < 0x100
  {
    AfterAdds(b, pos, front, k - 1, 1);
    var p := After(b, pos, front, k - 1).value;
    assert After(b, p, front, 1) == After(b, b[p + 1], front, 0);
  }

  /** Only the first 256 positions can be pointed at, so 257 pointers in a row go round for ever. */
  lemma ManyPointersHaveNoEnd(b: seq<byte>, pos: nat, front: bool, k: nat)
    requires After(b, pos, front, 257).Some?
    ensures After(b, pos, front, k).Some?
  {
    hide After;
    forall i | 1 <= i <= 257 ensures After(b, pos, front, i).Some? && After(b, pos, front, i).value < 0x100 {
      AfterAdds(b, pos, front, i, 257 - i);
      HopIsSmall(b, pos, front, i);
    }
    var places := seq(257, i requires 0 <= i < 257 => After(b, pos, front, i + 1).value);
    Pigeonhole(places, 0x100);
    var i, j :| 0 <= i < j < |places| && places[i] == places[j];
    CycleHasNoEnd(b, pos, front, i + 1, j + 1, k);
  }

  lemma {:induction false} SkipHops(b: seq<byte>, pos: nat, maxPos: nat, fuel: nat)
    ensures Skip(b, pos, maxPos, fuel) == Endless ==> After(b, pos, true, fuel).Some?
    ensures After(b, pos, true, fuel + 1).Some? ==> Skip(b, pos, maxPos, fuel) == Endless
    decreases fuel
  {
    hide MeetsMask80;
    if fuel > 0 && pos + 1 < |b| && MeetsMask80(b[pos]) {
      SkipHops(b, b[pos + 1], Max(maxPos, pos + 1), fuel - 1);
    }
  }

  lemma {:induction false} CopyHops(b: seq<byte>, pos: nat, room: nat, maxPos: nat, fuel: nat)
    requires After(b, pos, false, fuel + 1).Some?
    ensures Copy(b, pos, 0, room, maxPos, fuel) == Endless
    decreases fuel
  {
    if fuel > 0 {
      CopyHops(b, b[pos + 1], room, Max(maxPos, pos + 1), fuel - 1);
    }
  }

  /** The second loop, with fewer than `hops` pointers in a row ahead. */
  lemma {:induction false} CopyGoesOn(b: seq<byte>, pos: nat, n: nat, room: nat, maxPos: nat, f: nat, g: nat, hops: nat)
    requires Copy(b, pos, n, room, maxPos, f) == Endless && f >= 257 * room + hops && 1 <= hops
    requires n == 0 ==> After(b, pos, false, hops) == None
    ensures Copy(b, pos, n, room, maxPos, g) == Endless
    decreases room, hops
  {
    if g == 0 {
    } else if n == 0 && b[pos] >= 128 {
      CopyGoesOn(b, b[pos + 1], 0, room, Max(maxPos, pos + 1), f - 1, g - 1, hops - 1);
    } else {
      CopyEndless(b, pos + 1, if n > 0 then n - 1 else b[pos], room - 1, Max(maxPos, pos + 1), f - 1, g - 1);
    }
  }

  lemma {:induction false} CopyEndless(b: seq<byte>, pos: nat, n: nat, room: nat, maxPos: nat, f: nat, g: nat)
    requires Copy(b, pos, n, room, maxPos, f) == Endless && f >= 257 * (room + 1)
    ensures Copy(b, pos, n, room, maxPos, g) == Endless
    decreases room, 258
  {
    if n == 0 && After(b, pos, false, 257).Some? {
      ManyPointersHaveNoEnd(b, pos, false, g + 1);
      CopyHops(b, pos, room, maxPos, g);
    } else {
      CopyGoesOn(b, pos, n, room, maxPos, f, g, 257);
    }
  }

  lemma {:induction false} SkipMoreFuel(b: seq<byte>, pos: nat, maxPos: nat, f: nat, g: nat)
    requires f <= g && Skip(b, pos, maxPos, f) != Endless
    ensures Skip(b, pos, maxPos, g) == Skip(b, pos, maxPos, f)
    decreases f
  {
    hide MeetsMask80;
    if f > 0 && pos + 1 < |b| && MeetsMask80(b[pos]) {
      SkipMoreFuel(b, b[pos + 1], Max(maxPos, pos + 1), f - 1, g - 1);
    }
  }

  lemma {:induction false} CopyMoreFuel(b: seq<byte>, pos: nat, n: nat, room: nat, maxPos: nat, f: nat, g: nat)
    requires f <= g && Copy(b, pos, n, room, maxPos, f) != Endless
    ensures Copy(b, pos, n, room, maxPos, g) == Copy(b, pos, n, room, maxPos, f)
    decreases f
  {
    if f > 0 && pos < |b| && b[pos] != 0 {
      if n == 0 && b[pos] >= 128 {
        if pos + 1 < |b| {
          CopyMoreFuel(b, b[pos + 1], 0, room, Max(maxPos, pos + 1), f - 1, g - 1);
        }
      } else if room > 0 {
        CopyMoreFuel(b, pos + 1, if n > 0 then n - 1 else b[pos], room - 1, Max(maxPos, pos + 1), f - 1, g - 1);
      }
    }
  }

  /** However many rounds the loops are given beyond that number, the outcome stays the same: what is endless by
      then never ends. */
  lemma EnoughDecides(b: seq<byte>, pos: nat, fuel: nat)
    requires fuel >= Enough(b)
    ensures ReadName(b, pos, fuel) == NameAt(b, pos)
  {
    hide Skip, Copy;
    var e := Enough(b);
    var skipped := Skip(b, pos, pos, e);
    if skipped == Endless {
      SkipHops(b, pos, pos, e);
      AfterAdds(b, pos, true, 257, e - 257);
      ManyPointersHaveNoEnd(b, pos, true, fuel + 1);
      SkipHops(b, pos, pos, fuel);
    } else {
      SkipMoreFuel(b, pos, pos, e, fuel);
      if skipped.Decoded? {
        var first, counted := skipped.value, skipped.bytes;
        if Copy(b, first + 1, b[first], |b|, counted, e) == Endless {
          CopyEndless(b, first + 1, b[first], |b|, counted, e, fuel);
        } else {
          CopyMoreFuel(b, first + 1, b[first], |b|, counted, e, fuel);
        }
      }
    }
  }

  /** A decoding that ends in fewer rounds is the decoding. */
  lemma EndedEarly(b: seq<byte>, pos: nat, fuel: nat)
    requires ReadName(b, pos, fuel) != Endless
    ensures NameAt(b, pos) == ReadName(b, pos, fuel)
  {
    hide Skip, Copy;
    var more := if fuel > Enough(b) then fuel else Enough(b);
    SkipMoreFuel(b, pos, pos, fuel, more);
    var skipped := Skip(b, pos, pos, fuel);
    if skipped.Decoded? {
      CopyMoreFuel(b, skipped.value + 1, b[skipped.value], |b|, skipped.bytes, fuel, more);
    }
    EnoughDecides(b, pos, more);
  }

  // ---------------------------------------------------------------- names by the standard

  ghost predicate ZeroFree(labels: Labels) {
    forall i :: 0 <= i < |labels| ==> 0 !in labels[i]
  }

  /** The names `decodeDomain` reads as the standard has them: at least one label, pointers within the first 256
      bytes, no zero octet inside a label, and a first label whose length octet is clear of the mask. */
  ghost predicate Readable(b: seq<byte>, pos: nat) {
    var w := Denoted(b, pos, pos);
    && w.Name? && w.labels != [] && w.shortOffsets && ZeroFree(w.labels)
    && |w.labels[0]| < 64 && !MeetsMask80(|w.labels[0]|)
  }

  /** The whole name as text. */
  ghost function Text(b: seq<byte>, startPos: nat): seq<byte>
    requires Readable(b, startPos)
  {
    Join(Denoted(b, startPos, startPos).labels, DOT)
  }

  lemma ZeroFreeCons(octets: seq<byte>, labels: Labels)
    ensures ZeroFree([octets] + labels) <==> 0 !in octets && ZeroFree(labels)
  {
    var all := [octets] + labels;
    assert all[0] == octets;
    assert forall i :: 0 <= i < |labels| ==> all[i + 1] == labels[i];
  }

  /** The octet at a boundary between labels, and what the name still owes from there. */
  lemma Boundary(b: seq<byte>, start: nat, pos: nat)
    requires start <= pos && Denoted(b, start, pos).Name? && Denoted(b, start, pos).shortOffsets
    ensures var w := Denoted(b, start, pos);
            && (b[pos] == 0 ==> w.labels == [] && w.end == pos + 1)
            && (0 < b[pos] < 64 ==>
                  var next := pos + 1 + b[pos];
                  var v := Denoted(b, start, next);
                  && next < |b| && v.Name? && v.shortOffsets && v.end == w.end
                  && w.labels == [b[pos + 1..next]] + v.labels
                  && (ZeroFree(w.labels) <==> 0 !in b[pos + 1..next] && ZeroFree(v.labels)))
            && (b[pos] >= 64 ==>
                  && b[pos] == 192 && pos + 1 < |b| && b[pos + 1] < start
                  && var v := Denoted(b, b[pos + 1], b[pos + 1]);
                  && v.Name? && v.shortOffsets && v.labels == w.labels && v.end <= start && w.end == pos + 2)
  {
    if 0 < b[pos] < 64 {
      var next := pos + 1 + b[pos];
      ZeroFreeCons(b[pos + 1..next], Denoted(b, start, next).labels);
    }
  }

  /** No name is longer than the bytes that spell it, so it fits a buffer of the size of the reply. */
  lemma {:induction false} TextFits(b: seq<byte>, start: nat, pos: nat)
    requires start <= pos && Denoted(b, start, pos).Name?
    ensures |Suffix(Denoted(b, start, pos).labels)| < Denoted(b, start, pos).end - pos + start
    decreases start, |b| - pos
  {
    if b[pos] != 0 && b[pos] < 64 {
      var next := pos + 1 + b[pos];
      TextFits(b, start, next);
      var rest := Denoted(b, start, next).labels;
      assert ([b[pos + 1..next]] + rest)[1..] == rest;
    } else if b[pos] >= 192 {
      var target := (b[pos] as int - 192) * 0x100 + b[pos + 1];
      TextFits(b, target, target);
    }
  }

  lemma SuffixOfCons(octets: seq<byte>, labels: Labels)
    ensures Suffix([octets] + labels) == [DOT] + (octets + Suffix(labels))
  {
    assert ([octets] + labels)[1..] == labels;
  }

  /** One round of the second loop that writes. */
  lemma CopyWrites(b: seq<byte>, pos: nat, n: nat, room: nat, maxPos: nat, fuel: nat)
    requires pos < |b| && b[pos] != 0 && fuel > 0 && room > 0 && (n > 0 || b[pos] < 128)
    ensures Copy(b, pos, n, room, maxPos, fuel) ==
            InFrontOf([if n > 0 then b[pos] else DOT],
                      Copy(b, pos + 1, if n > 0 then n - 1 else b[pos], room - 1, Max(maxPos, pos + 1), fuel - 1))
  {
  }

  /** One round that follows a pointer. */
  lemma CopyJumps(b: seq<byte>, pos: nat, room: nat, maxPos: nat, fuel: nat)
    requires pos + 1 < |b| && b[pos] >= 128 && fuel > 0
    ensures Copy(b, pos, 0, room, maxPos, fuel) == Copy(b, b[pos + 1], 0, room, Max(maxPos, pos + 1), fuel - 1)
  {
  }

  lemma CopyStops(b: seq<byte>, pos: nat, n: nat, room: nat, maxPos: nat, fuel: nat)
    requires pos < |b| && b[pos] == 0
    ensures Copy(b, pos, n, room, maxPos, fuel) == Decoded([], maxPos)
  {
  }

  lemma NothingCopied(b: seq<byte>, pos: nat, r: Decoding<seq<byte>>)
    requires pos <= |b|
    ensures InFrontOf(b[pos..pos + 0], r) == r
  {
    assert b[pos..pos + 0] == [];
    InFrontTwice([], [], r);
  }

  lemma MaxTwice(m: nat, a: nat, b: nat)
    requires a <= b
    ensures Max(Max(m, a), b) == Max(m, b)
  {
  }

  /** The octets of a label are copied one by one. */
  lemma {:induction false} LabelIsCopied(b: seq<byte>, pos: nat, n: nat, room: nat, maxPos: nat, fuel: nat)
    requires pos + n < |b| && 0 !in b[pos..pos + n] && n <= room && n <= fuel
    ensures Copy(b, pos, n, room, maxPos, fuel) ==
            InFrontOf(b[pos..pos + n],
                      Copy(b, pos + n, 0, room - n, if n == 0 then maxPos else Max(maxPos, pos + n), fuel - n))
    decreases n
  {
    hide InFrontOf, Max;
    if n == 0 {
      NothingCopied(b, pos, Copy(b, pos, 0, room, maxPos, fuel));
    } else {
      hide Copy;
      var octets, rest := b[pos..pos + n], b[pos + 1..pos + n];
      assert octets == [b[pos]] + rest && octets[0] == b[pos];
      CopyWrites(b, pos, n, room, maxPos, fuel);
      LabelIsCopied(b, pos + 1, n - 1, room - 1, Max(maxPos, pos + 1), fuel - 1);
      MaxTwice(maxPos, pos + 1, pos + n);
      InFrontTwice([b[pos]], rest, Copy(b, pos + n, 0, room - n, Max(maxPos, pos + n), fuel - n));
    }
  }

  /** Behind the first label: dots and labels, through pointers, up to the end of the wire bytes. */
  lemma {:induction false} RestIsCopied(b: seq<byte>, start: nat, pos: nat, room: nat, maxPos: nat, fuel: nat)
    requires start <= pos && Denoted(b, start, pos).Name? && Denoted(b, start, pos).shortOffsets
    requires ZeroFree(Denoted(b, start, pos).labels) && room >= |Suffix(Denoted(b, start, pos).labels)|
    requires fuel >= Denoted(b, start, pos).end - pos + start && maxPos >= pos
    ensures var w := Denoted(b, start, pos);
            Copy(b, pos, 0, room, maxPos, fuel) == Decoded(Suffix(w.labels), Max(maxPos, w.end - 1))
    decreases start, |b| - pos
  {
    hide Denoted, ZeroFree, Copy;
    Boundary(b, start, pos);
    var w := Denoted(b, start, pos);
    if b[pos] == 0 {
      CopyStops(b, pos, 0, room, maxPos, fuel);
    } else if b[pos] < 64 {
      var n: nat, next := b[pos], pos + 1 + b[pos];
      var v := Denoted(b, start, next);
      SuffixOfCons(b[pos + 1..next], v.labels);
      hide Suffix;
      CopyWrites(b, pos, 0, room, maxPos, fuel);
      LabelIsCopied(b, pos + 1, n, room - 1, Max(maxPos, pos + 1), fuel - 1);
      RestIsCopied(b, start, next, room - 1 - n, Max(maxPos, next), fuel - 1 - n);
    } else {
      CopyJumps(b, pos, room, maxPos, fuel);
      RestIsCopied(b, b[pos + 1], b[pos + 1], room, Max(maxPos, pos + 1), fuel - 1);
    }
  }

  /** In front of the first label, the mask picks out exactly the pointers. */
  lemma MaskFindsPointers(b: seq<byte>, pos: nat)
    requires Readable(b, pos)
    ensures pos < |b| && b[pos] != 0 && (MeetsMask80(b[pos]) <==> b[pos] >= 64)
  {
    hide ZeroFree;
    if 0 < b[pos] < 64 {
      var next := pos + 1 + b[pos];
      assert Denoted(b, pos, pos).labels[0] == b[pos + 1..next];
    }
  }

  /** A first label and what follows it. */
  lemma FirstLabelIsCopied(b: seq<byte>, first: nat, counted: nat)
    requires Readable(b, first) && b[first] < 64 && counted >= first
    ensures Copy(b, first + 1, b[first], |b|, counted, Enough(b)) ==
            Decoded(Text(b, first), Max(counted, Denoted(b, first, first).end - 1))
  {
    hide Denoted, ZeroFree, MeetsMask80, Copy, Suffix, Join;
    MaskFindsPointers(b, first);
    var w := Denoted(b, first, first);
    Boundary(b, first, first);
    var n: nat, next := b[first], first + 1 + b[first];
    var v := Denoted(b, first, next);
    TextFits(b, first, next);
    LabelIsCopied(b, first + 1, n, |b|, counted, Enough(b));
    RestIsCopied(b, first, next, |b| - n, Max(counted, next), Enough(b) - n);
    JoinIsSuffix(w.labels);
    assert w.labels[0] == b[first + 1..next] && w.labels[1..] == v.labels;
  }

  /** A pointer in front of the first label leads to a readable name. */
  lemma PointerIsReadable(b: seq<byte>, pos: nat)
    requires Readable(b, pos) && b[pos] >= 64
    ensures b[pos] == 192 && pos + 1 < |b| && b[pos + 1] < pos && Readable(b, b[pos + 1])
    ensures Text(b, b[pos + 1]) == Text(b, pos)
    ensures Denoted(b, b[pos + 1], b[pos + 1]).end <= pos && Denoted(b, pos, pos).end == pos + 2
  {
    Boundary(b, pos, pos);
    hide Denoted, ZeroFree;
  }

  /** The pointers in front of the first label, if any, lead back to it. */
  lemma {:induction false} PointersAreSkipped(b: seq<byte>, pos: nat, maxPos: nat, fuel: nat)
    requires Readable(b, pos) && fuel >= pos && maxPos >= pos
    ensures var r := Skip(b, pos, maxPos, fuel);
            && r.Decoded? && r.value <= pos && Readable(b, r.value) && b[r.value] < 64
            && Text(b, r.value) == Text(b, pos)
            && if r.value == pos then r.bytes == maxPos
               else r.bytes == Max(maxPos, pos + 1) && Denoted(b, pos, pos).end == pos + 2
                    && Denoted(b, r.value, r.value).end <= pos
    decreases pos
  {
    hide Readable, Denoted, Text, MeetsMask80;
    MaskFindsPointers(b, pos);
    if b[pos] >= 64 {
      PointerIsReadable(b, pos);
      PointersAreSkipped(b, b[pos + 1], Max(maxPos, pos + 1), fuel - 1);
    }
  }

  lemma NameHasEnd(b: seq<byte>, pos: nat)
    requires Readable(b, pos)
    ensures pos < Denoted(b, pos, pos).end <= |b|
  {
  }

  /** Readable names are read as section 4.1.4 of RFC 1035 has them: the labels joined by dots, and exactly the
      wire bytes of the first segment. */
  lemma ReadableIsRead(b: seq<byte>, pos: nat)
    requires Readable(b, pos)
    ensures pos < Denoted(b, pos, pos).end && NameAt(b, pos) == Decoded(Text(b, pos), Denoted(b, pos, pos).end - pos)
  {
    hide Denoted, Text, MeetsMask80, Copy, Skip, Readable;
    MaskFindsPointers(b, pos);
    NameHasEnd(b, pos);
    PointersAreSkipped(b, pos, pos, Enough(b));
    var skipped := Skip(b, pos, pos, Enough(b));
    FirstLabelIsCopied(b, skipped.value, skipped.bytes);
  }

  // ---------------------------------------------------------------- names the decoder gets wrong

  /** What is read of a label with `n` octets to go, and of what follows it, is no longer than that, and shorter if
      a zero octet stands in the way. */
  ghost predicate Short(r: Decoding<seq<byte>>, n: nat, labels: Labels, zeroFree: bool) {
    r.Decoded? ==> |r.value| <= n + |Suffix(labels)| && (!zeroFree ==> |r.value| < n + |Suffix(labels)|)
  }

  lemma {:induction false} LabelIsShort(b: seq<byte>, start: nat, pos: nat, n: nat, room: nat, maxPos: nat, fuel: nat)
    requires start <= pos && pos + n < |b|
    requires Denoted(b, start, pos + n).Name? && Denoted(b, start, pos + n).shortOffsets
    ensures var w := Denoted(b, start, pos + n);
            Short(Copy(b, pos, n, room, maxPos, fuel), n, w.labels, 0 !in b[pos..pos + n] && ZeroFree(w.labels))
    decreases start, |b| - pos, 1
  {
    hide Denoted, ZeroFree, Suffix;
    if n == 0 {
      assert b[pos..pos + n] == [];
      RestIsShort(b, start, pos, room, maxPos, fuel);
    } else {
      assert b[pos..pos + n] == [b[pos]] + b[pos + 1..pos + n];
      if fuel > 0 && room > 0 {
        LabelIsShort(b, start, pos + 1, n - 1, room - 1, Max(maxPos, pos + 1), fuel - 1);
      }
    }
  }

  lemma {:induction false} RestIsShort(b: seq<byte>, start: nat, pos: nat, room: nat, maxPos: nat, fuel: nat)
    requires start <= pos && Denoted(b, start, pos).Name? && Denoted(b, start, pos).shortOffsets
    ensures var w := Denoted(b, start, pos);
            Short(Copy(b, pos, 0, room, maxPos, fuel), 0, w.labels, ZeroFree(w.labels))
    decreases start, |b| - pos, 0
  {
    hide Denoted, ZeroFree;
    Boundary(b, start, pos);
    var w := Denoted(b, start, pos);
    if b[pos] == 0 {
      NoLabelsAreZeroFree();
    } else if b[pos] < 64 {
      var n: nat, next := b[pos], pos + 1 + b[pos];
      SuffixOfCons(b[pos + 1..next], Denoted(b, start, next).labels);
      if fuel > 0 && room > 0 {
        LabelIsShort(b, start, pos + 1, n, room - 1, Max(maxPos, pos + 1), fuel - 1);
      }
    } else if fuel > 0 {
      RestIsShort(b, b[pos + 1], b[pos + 1], room, Max(maxPos, pos + 1), fuel - 1);
    }
  }

  lemma NoLabelsAreZeroFree()
    ensures ZeroFree([])
  {
  }

  /** The text of the labels, and exactly the wire bytes: how a name ought to be read. */
  ghost predicate ReadRight(b: seq<byte>, pos: nat) {
    var w := Denoted(b, pos, pos);
    w.Name? && NameAt(b, pos) == Decoded(if w.labels == [] then [] else Join(w.labels, DOT), w.end - pos)
  }

  lemma ZeroCutsShort(b: seq<byte>, pos: nat)
    requires pos < |b| && 0 < b[pos] < 64 && !MeetsMask80(b[pos])
    requires Denoted(b, pos, pos).Name? && Denoted(b, pos, pos).shortOffsets && !ZeroFree(Denoted(b, pos, pos).labels)
    ensures Denoted(b, pos, pos).labels != []
    ensures var r := NameAt(b, pos); r.Decoded? ==> |r.value| < |Join(Denoted(b, pos, pos).labels, DOT)|
  {
    hide Denoted, ZeroFree, MeetsMask80, Copy, Suffix, Join;
    Boundary(b, pos, pos);
    var w, n: nat, next := Denoted(b, pos, pos), b[pos], pos + 1 + b[pos];
    assert w.labels[0] == b[pos + 1..next] && w.labels[1..] == Denoted(b, pos, next).labels;
    LabelIsShort(b, pos, pos + 1, n, |b|, pos, Enough(b));
    JoinIsSuffix(w.labels);
  }

  lemma ClearIsReadable(b: seq<byte>, pos: nat)
    requires pos < |b| && 0 < b[pos] < 64 && !MeetsMask80(b[pos])
    requires Denoted(b, pos, pos).Name? && Denoted(b, pos, pos).shortOffsets && ZeroFree(Denoted(b, pos, pos).labels)
    ensures Readable(b, pos)
  {
    hide Denoted, ZeroFree, MeetsMask80;
    Boundary(b, pos, pos);
    assert Denoted(b, pos, pos).labels[0] == b[pos + 1..pos + 1 + b[pos]];
  }

  /** A name whose first length octet is clear of the mask is read right if and only if no label holds a zero
      octet: at the first one, the decoder stops. */
  lemma ClearNameIsReadIff(b: seq<byte>, pos: nat)
    requires pos < |b| && 0 < b[pos] < 64 && !MeetsMask80(b[pos])
    requires Denoted(b, pos, pos).Name? && Denoted(b, pos, pos).shortOffsets
    ensures ReadRight(b, pos) <==> ZeroFree(Denoted(b, pos, pos).labels)
  {
    hide Denoted, ZeroFree, MeetsMask80, NameAt, Join;
    if ZeroFree(Denoted(b, pos, pos).labels) {
      ClearIsReadable(b, pos);
      ReadableIsRead(b, pos);
    } else {
      ZeroCutsShort(b, pos);
    }
  }

  /** A first length octet that meets the mask is taken for a pointer. If that leads to the last octet of the name or
      behind it, and the decoding ends at all, the text is empty or too many bytes are counted. */
  lemma MisreadAhead(b: seq<byte>, pos: nat)
    requires Denoted(b, pos, pos).Name? && 0 < b[pos] < 64 && MeetsMask80(b[pos]) && pos + 1 < |b|
    requires b[pos + 1] >= Denoted(b, pos, pos).end - 1
    ensures var r := NameAt(b, pos); r.Decoded? ==> r.value == [] || pos + r.bytes > Denoted(b, pos, pos).end
    ensures !ReadRight(b, pos)
  {
    hide Denoted, MeetsMask80, Join;
    var w, t := Denoted(b, pos, pos), b[pos + 1];
    FirstLabelIsThere(b, pos);
    JoinIsSuffix(w.labels);
    assert Skip(b, pos, pos, Enough(b)) == Skip(b, t, Max(pos, pos + 1), Enough(b) - 1);
  }

  lemma FirstLabelIsThere(b: seq<byte>, pos: nat)
    requires Denoted(b, pos, pos).Name? && 0 < b[pos] < 64
    ensures var w := Denoted(b, pos, pos);
            w.labels != [] && |w.labels[0]| == b[pos] && pos + 1 + b[pos] < w.end <= |b|
  {
    var next := pos + 1 + b[pos];
    assert Denoted(b, pos, next).Name?;
  }

  lemma SkipOnce(b: seq<byte>, pos: nat, maxPos: nat, fuel: nat)
    requires pos + 1 < |b| && MeetsMask80(b[pos]) && fuel > 0
    ensures Skip(b, pos, maxPos, fuel) == Skip(b, b[pos + 1], Max(maxPos, pos + 1), fuel - 1)
  {
  }

  // What a decoding reads of the first `k` bytes alone, it reads of all of them.

  lemma {:induction false} SkipWithin(b: seq<byte>, k: nat, pos: nat, maxPos: nat, more: nat, fuel: nat)
    requires k <= |b| && more >= k && Skip(b[..k], pos, maxPos, fuel).Decoded?
    ensures Skip(b, pos, more, fuel) == Decoded(Skip(b[..k], pos, maxPos, fuel).value, more)
    decreases fuel
  {
    hide MeetsMask80;
    if MeetsMask80(b[pos]) {
      SkipWithin(b, k, b[pos + 1], Max(maxPos, pos + 1), more, fuel - 1);
    }
  }

  lemma {:induction false} CopyWithin(b: seq<byte>, k: nat, pos: nat, n: nat, room: nat, space: nat, maxPos: nat,
                                      more: nat, fuel: nat)
    requires k <= |b| && more >= k && space >= room && Copy(b[..k], pos, n, room, maxPos, fuel).Decoded?
    ensures Copy(b, pos, n, space, more, fuel) == Decoded(Copy(b[..k], pos, n, room, maxPos, fuel).value, more)
    decreases fuel
  {
    if b[pos] == 0 {
    } else if n == 0 && b[pos] >= 128 {
      CopyWithin(b, k, b[pos + 1], 0, room, space, Max(maxPos, pos + 1), more, fuel - 1);
    } else {
      CopyWithin(b, k, pos + 1, if n > 0 then n - 1 else b[pos], room - 1, space - 1, Max(maxPos, pos + 1), more,
        fuel - 1);
    }
  }

  /** If what is taken for a pointer, rightly or not, leads to a name that is read wholly before it, that name is
      read, and two bytes are counted. */
  lemma ReadBefore(b: seq<byte>, pos: nat)
    requires pos + 1 < |b| && MeetsMask80(b[pos]) && NameAt(b[..pos], b[pos + 1]).Decoded?
    ensures NameAt(b, pos) == Decoded(NameAt(b[..pos], b[pos + 1]).value, 2)
  {
    hide MeetsMask80, Copy;
    var before, t, f := b[..pos], b[pos + 1], Enough(b[..pos]);
    var skipped := Skip(before, t, t, f);
    SkipWithin(b, pos, t, t, pos + 1, f);
    var first := skipped.value;
    CopyWithin(b, pos, first + 1, b[first], |before|, |b|, skipped.bytes, pos + 1, f);
    assert Skip(b, pos, pos, f + 1) == Skip(b, t, pos + 1, f);
    CopyMoreFuel(b, first + 1, b[first], |b|, pos + 1, f, f + 1);
    EndedEarly(b, pos, f + 1);
  }

  /** So a first label whose length octet meets the mask, one of 16 to 31 or of 48 to 63 octets, is never read right
      when it leads to such a name. */
  lemma MisreadBefore(b: seq<byte>, pos: nat)
    requires Denoted(b, pos, pos).Name? && 0 < b[pos] < 64 && MeetsMask80(b[pos])
    requires NameAt(b[..pos], b[pos + 1]).Decoded?
    ensures 16 <= b[pos] < 32 || 48 <= b[pos] < 64
    ensures NameAt(b, pos) == Decoded(NameAt(b[..pos], b[pos + 1]).value, 2) && !ReadRight(b, pos)
  {
    MaskOnLength(b[pos]);
    hide Denoted, MeetsMask80;
    FirstLabelIsThere(b, pos);
    ReadBefore(b, pos);
  }

  lemma MaskOnLength(octet: byte)
    requires octet < 64
    ensures MeetsMask80(octet) <==> 16 <= octet < 32 || 48 <= octet < 64
  {
  }

  /** A pointer with an offset of 256 or more is followed to its low octet. When a readable name stands there, wholly
      before the pointer, the pointer is read right if and only if that name has the same text. */
  lemma LongOffsetIsReadIff(b: seq<byte>, pos: nat)
    requires pos + 1 < |b| && b[pos] >= 192 && Denoted(b, pos, pos).Name? && Denoted(b, pos, pos).labels != []
    requires Readable(b, b[pos + 1]) && Denoted(b, b[pos + 1], b[pos + 1]).end <= pos
    ensures ReadRight(b, pos) <==> Text(b, b[pos + 1]) == Join(Denoted(b, pos, pos).labels, DOT)
  {
    hide MeetsMask80, Copy, Skip, Readable, Text, Denoted;
    MaskOnPointer(b[pos]);
    PointerEnds(b, pos);
    SkipOnce(b, pos, pos, Enough(b));
    NameHasEnd(b, b[pos + 1]);
    PointersAreSkipped(b, b[pos + 1], pos + 1, Enough(b) - 1);
    var skipped := Skip(b, b[pos + 1], pos + 1, Enough(b) - 1);
    FirstLabelIsCopied(b, skipped.value, skipped.bytes);
  }

  /** An input on which it is not: the name "b" at 256 is pointed at, and the name "a" at 0 is read. */
  lemma LongOffsetIsMisread()
    ensures var b := [1, 97, 0] + seq(253, _ => 0) + [1, 98, 0] + [193, 0];
            Denoted(b, 259, 259) == Name([[98]], 261, false) && NameAt(b, 259) == Decoded([97], 2)
  {
    hide MeetsMask80, Copy, Skip, NameAt;
    var b: seq<byte> := [1, 97, 0] + seq(253, _ => 0) + [1, 98, 0] + [193, 0];
    assert b[0] == 1 && b[1..2] == [97] && b[2] == 0;
    assert b[256] == 1 && b[257..258] == [98] && b[258] == 0 && b[259] == 193 && b[260] == 0;
    OneLetter(b, 0, 97);
    OneLetter(b, 256, 98);
    assert |b[..259]| == 259 && b[..259][0] == 1 && b[..259][1..2] == [97] && b[..259][2] == 0;
    OneLetter(b[..259], 0, 97);
    MaskOnPointer(193);
    ReadBefore(b, 259);
  }

  lemma OneLetter(b: seq<byte>, pos: nat, letter: byte)
    requires pos + 2 < |b| && b[pos] == 1 && b[pos + 1..pos + 2] == [letter] && b[pos + 2] == 0 && letter != 0
    ensures Denoted(b, pos, pos) == Name([[letter]], pos + 3, true)
    ensures Readable(b, pos) && NameAt(b, pos) == Decoded([letter], 3)
  {
    hide Copy, Skip, NameAt;
    assert Denoted(b, pos, pos + 2) == Name([], pos + 3, true);
    assert [[letter]] + [] == [[letter]];
    assert !MeetsMask80(1);
    ReadableIsRead(b, pos);
    assert Text(b, pos) == [letter];
  }

  lemma MaskOnPointer(octet: byte)
    requires octet >= 192
    ensures MeetsMask80(octet)
  {
  }

  lemma PointerEnds(b: seq<byte>, pos: nat)
    requires pos < |b| && b[pos] >= 192 && Denoted(b, pos, pos).Name?
    ensures Denoted(b, pos, pos).end == pos + 2
  {
  }

  /** The root name, a single zero octet, is read right exactly when another zero octet follows it, as it does in
      front of a type below 256. */
  lemma RootIsReadIff(b: seq<byte>, pos: nat)
    requires pos < |b| && b[pos] == 0
    ensures ReadRight(b, pos) <==> pos + 1 < |b| && b[pos + 1] == 0
  {
    assert Denoted(b, pos, pos) == Name([], pos + 1, true);
  }
}
