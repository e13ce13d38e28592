/** Incremental framing of one HTTP message: packets of any size go in, and the parser keeps track of the
    current line, the declared and received body lengths, and whether the null line has gone by. */
module HttpFraming {
  import opened Decimal
  import opened Splitting

  const CRLF: string := "\r\n"
  const CONTENT_LENGTH: string := "Content-Length: "

  /** The state the proxy loop carries from packet to packet. */
  datatype Framing = Framing(line: string, contentLength: nat, received: nat, nullLine: bool) {
    predicate InBody() {
      nullLine && contentLength != 0 && received < contentLength
    }

    predicate Done() {
      nullLine && received == contentLength
    }
  }

  const START: Framing := Framing("", 0, 0, false)

  predicate CRLFAt(s: string, i: int) {
    0 <= i && i + 1 < |s| && s[i] == '\r' && s[i + 1] == '\n'
  }

  predicate EndsWithCRLF(s: string) {
    CRLFAt(s, |s| - 2)
  }

  predicate EndsWithCR(s: string) {
    |s| >= 1 && s[|s| - 1] == '\r'
  }

  /** The number after the header name; 0 for every other line. */
  function ParseContentLength(header: string): nat {
    if CONTENT_LENGTH <= header then
      var rest := header[|CONTENT_LENGTH|..];
      DigitsValue(rest[..DigitCount(rest)])
    else 0
  }

  lemma ContentLengthReadsBack(n: nat)
    ensures ParseContentLength(CONTENT_LENGTH + Itoa(n) + CRLF) == n
    ensures ParseContentLength(CRLF) == 0
  {
    var header := CONTENT_LENGTH + Itoa(n) + CRLF;
    assert header[|CONTENT_LENGTH|..] == Itoa(n) + CRLF;
    ItoaReadsBack(n, CRLF);
    assert !(CONTENT_LENGTH <= CRLF) by {
      assert |CONTENT_LENGTH| > |CRLF|;
    }
  }

  function ProcessCompleteHTTPLine(line: string, contentLength: nat): (nat, bool) {
    (if contentLength == 0 then ParseContentLength(line) else contentLength, line == CRLF)
  }

  /** All that is left of the packet counts as body, even past the declared length. */
  function StreamInHTTPContent(packet: string, contentLength: nat, received: nat): (Framing, bool) {
    (Framing(packet, contentLength, received + |packet|, true), contentLength == received + |packet|)
  }

  /** The position just after the first CRLF at or after `from`, or the whole length when there is none. */
  function CopyEndPos(packet: string, from: nat): (n: nat)
    requires from <= |packet|
    ensures from <= n <= |packet| && (from < |packet| ==> from < n)
    ensures forall i :: from <= i < n - 2 ==> !CRLFAt(packet, i)
    ensures n < |packet| ==> CRLFAt(packet, n - 2)
    decreases |packet| - from
  {
    if from + 1 >= |packet| then |packet|
    else if CRLFAt(packet, from) then from + 2
    else CopyEndPos(packet, from + 1)
  }

  // ---------------------------------------------------------------- the parser, one byte at a time

  /** The parser between two bytes of one packet; `absorbing` once the rest of the packet is body. */
  datatype Parser = Parser(f: Framing, absorbing: bool)

  function LineByte(f: Framing, b: char): Framing {
    var line := f.line + [b];
    if EndsWithCRLF(line) then
      var (contentLength, nullLine) := ProcessCompleteHTTPLine(line, f.contentLength);
      Framing("", contentLength, f.received, nullLine)
    else f.(line := line)
  }

  function AfterLineByte(f: Framing, b: char): Parser {
    Parser(LineByte(f, b), LineByte(f, b).InBody())
  }

  /** One byte; `first` says that it opens a packet. A line feed that opens a packet and completes a line is
      where the shadowed variables lose what the line said, unless the body starts right there. */
  function Step(p: Parser, b: char, first: bool): Parser {
    if first && p.f.InBody() then
      Parser(p.f.(line := [b], received := p.f.received + 1), true)
    else if first && EndsWithCR(p.f.line) && b == '\n' then
      var (contentLength, nullLine) := ProcessCompleteHTTPLine(p.f.line + [b], p.f.contentLength);
      var f := Framing("", contentLength, p.f.received, nullLine);
      if f.InBody() then Parser(f, true) else Parser(p.f.(line := ""), false)
    else if !first && p.absorbing then
      Parser(p.f.(line := p.f.line + [b], received := p.f.received + 1), true)
    else
      AfterLineByte(p.f, b)
  }

  /** The bytes of one packet, or of the rest of it. */
  function Run(p: Parser, bytes: string, first: bool): Parser
    decreases |bytes|
  {
    if bytes == "" then p else Run(Step(p, bytes[0], first), bytes[1..], false)
  }

  lemma {:induction false} AbsorbAll(p: Parser, bytes: string)
    requires p.absorbing
    ensures Run(p, bytes, false) ==
            Parser(p.f.(line := p.f.line + bytes, received := p.f.received + |bytes|), true)
    decreases |bytes|
  {
    if bytes == "" {
      assert p.f.line + bytes == p.f.line;
    } else {
      AbsorbAll(Step(p, bytes[0], false), bytes[1..]);
      assert p.f.line + [bytes[0]] + bytes[1..] == p.f.line + bytes;
    }
  }

  /** The parser after the round of the loop that has put `line` together. */
  function AfterChunk(f: Framing, line: string): Parser {
    if EndsWithCRLF(line) then
      var (contentLength, nullLine) := ProcessCompleteHTTPLine(line, f.contentLength);
      var g := Framing("", contentLength, f.received, nullLine);
      Parser(g, g.InBody())
    else Parser(f.(line := line), false)
  }

  lemma RunOneByte(f: Framing, bytes: string, k: nat)
    requires !f.InBody() && k < |bytes|
    ensures Run(Parser(f, false), bytes[k..], false) == Run(AfterChunk(f, f.line + [bytes[k]]), bytes[k + 1..], false)
  {
    assert bytes[k..][1..] == bytes[k + 1..];
  }

  /** As long as no line ends, bytes pile up in the current line. */
  lemma {:induction false} PileUp(f: Framing, bytes: string, n: nat)
    requires !f.InBody() && n <= |bytes|
    requires forall i :: 0 <= i < n - 1 ==> !CRLFAt(bytes, i)
    requires n > 0 && EndsWithCR(f.line) ==> bytes[0] != '\n'
    ensures Run(Parser(f, false), bytes, false) ==
            Run(Parser(f.(line := f.line + bytes[..n]), false), bytes[n..], false)
    decreases n
  {
    hide ParseContentLength, Step, Run;
    if n == 0 {
      assert f.line + bytes[..0] == f.line;
    } else {
      PileUp(f, bytes, n - 1);
      var g := f.(line := f.line + bytes[..n - 1]);
      RunOneByte(g, bytes, n - 1);
      var line := f.line + bytes[..n];
      assert g.line + [bytes[n - 1]] == line;
      assert !EndsWithCRLF(line) by {
        if n > 1 {
          assert !CRLFAt(bytes, n - 2);
          assert line[|line| - 2] == bytes[n - 2];
        }
      }
    }
  }

  /** What one round of the loop does with the bytes up to and including the first CRLF. */
  lemma RunChunk(f: Framing, bytes: string)
    requires !f.InBody() && bytes != ""
    requires EndsWithCR(f.line) ==> bytes[0] != '\n'
    ensures var n := CopyEndPos(bytes, 0);
            Run(Parser(f, false), bytes, false) == Run(AfterChunk(f, f.line + bytes[..n]), bytes[n..], false)
  {
    hide Step, Run;
    var n := CopyEndPos(bytes, 0);
    PileUp(f, bytes, n - 1);
    var g := f.(line := f.line + bytes[..n - 1]);
    RunOneByte(g, bytes, n - 1);
    assert g.line + [bytes[n - 1]] == f.line + bytes[..n];
  }

  /** A packet that opens, or reaches, the body is body from there on. */
  lemma RunFirst(f: Framing, packet: string)
    requires packet != ""
    ensures f.InBody() ==>
              Run(Parser(f, false), packet, true).f == StreamInHTTPContent(packet, f.contentLength, f.received).0
    ensures !f.InBody() && EndsWithCR(f.line) && packet[0] == '\n' ==>
              var (length, nullLine) := ProcessCompleteHTTPLine(f.line + [packet[0]], f.contentLength);
              if nullLine && length != 0 && f.received < length then
                Run(Parser(f, false), packet, true).f == StreamInHTTPContent(packet[1..], length, f.received).0
              else
                Run(Parser(f, false), packet, true) == Run(Parser(f.(line := ""), false), packet[1..], false)
    ensures !f.InBody() && !(EndsWithCR(f.line) && packet[0] == '\n') ==>
              Run(Parser(f, false), packet, true) == Run(Parser(f, false), packet, false)
  {
    var p := Step(Parser(f, false), packet[0], true);
    if p.absorbing {
      AbsorbAll(p, packet[1..]);
      assert [packet[0]] + packet[1..] == packet && "" + packet[1..] == packet[1..];
    }
  }

  /** The code's own loop, proved to be the byte-at-a-time parser. */
  method StreamInHTTPMessage(packet: string, httpLine: string, nullLine: bool, length: nat, received: nat)
    returns (currentHttpLine: string, contentLength: nat, receivedContentLength: nat, receivedNullLine: bool,
             done: bool)
    requires packet != ""
    ensures Framing(currentHttpLine, contentLength, receivedContentLength, receivedNullLine) ==
            Run(Parser(Framing(httpLine, length, received, nullLine), false), packet, true).f
    ensures done == Framing(currentHttpLine, contentLength, receivedContentLength, receivedNullLine).Done()
  {
    hide ParseContentLength, Step, Run, CopyEndPos;
    ghost var s := Framing(httpLine, length, received, nullLine);
    ghost var end := Run(Parser(s, false), packet, true).f;
    currentHttpLine, contentLength, receivedContentLength, receivedNullLine := httpLine, length, received, nullLine;
    var rest := packet;
    RunFirst(s, packet);
    if receivedNullLine && contentLength != 0 && receivedContentLength < contentLength {
      var (f, d) := StreamInHTTPContent(rest, contentLength, receivedContentLength);
      return f.line, f.contentLength, f.received, f.nullLine, d;
    }
    if EndsWithCR(currentHttpLine) && rest[0] == '\n' {
      currentHttpLine := currentHttpLine + [rest[0]];
      var (shadowLength, shadowNullLine) := ProcessCompleteHTTPLine(currentHttpLine, contentLength);
      currentHttpLine := "";
      rest := rest[1..];
      if shadowNullLine && shadowLength != 0 && receivedContentLength < shadowLength {
        var (f, d) := StreamInHTTPContent(rest, shadowLength, receivedContentLength);
        return f.line, f.contentLength, f.received, f.nullLine, d;
      }
    }
    while rest != ""
      invariant !Framing(currentHttpLine, contentLength, receivedContentLength, receivedNullLine).InBody()
      invariant rest != "" && EndsWithCR(currentHttpLine) ==> rest[0] != '\n'
      invariant Run(Parser(Framing(currentHttpLine, contentLength, receivedContentLength, receivedNullLine), false),
                    rest, false).f == end
      decreases |rest|
    {
      RunChunk(Framing(currentHttpLine, contentLength, receivedContentLength, receivedNullLine), rest);
      var copyEndPos := CopyEndPos(rest, 0);
      currentHttpLine := currentHttpLine + rest[..copyEndPos];
      if EndsWithCRLF(currentHttpLine) {
        var (l, n) := ProcessCompleteHTTPLine(currentHttpLine, contentLength);
        contentLength, receivedNullLine := l, n;
        currentHttpLine := "";
      }
      rest := rest[copyEndPos..];
      if receivedNullLine && contentLength != 0 && receivedContentLength < contentLength {
        RestIsBody(contentLength, receivedContentLength, rest);
        var (f, d) := StreamInHTTPContent(rest, contentLength, receivedContentLength);
        return f.line, f.contentLength, f.received, f.nullLine, d;
      }
    }
    RunNothing(Framing(currentHttpLine, contentLength, receivedContentLength, receivedNullLine));
    done := receivedNullLine && receivedContentLength == contentLength;
  }

  lemma RestIsBody(contentLength: nat, received: nat, rest: string)
    ensures Run(Parser(Framing("", contentLength, received, true), true), rest, false).f ==
            StreamInHTTPContent(rest, contentLength, received).0
  {
    AbsorbAll(Parser(Framing("", contentLength, received, true), true), rest);
    assert "" + rest == rest;
  }

  lemma RunNothing(f: Framing)
    ensures Run(Parser(f, false), "", false).f == f
  {
  }

  // ---------------------------------------------------------------- packets against one stream of bytes

  /** The state after a list of packets. */
  ghost function Feed(f: Framing, packets: seq<string>): Framing
    decreases |packets|
  {
    if packets == [] then f else Feed(Run(Parser(f, false), packets[0], true).f, packets[1..])
  }

  /** For each byte of the stream, whether it opens a packet. */
  ghost function Cuts(packets: seq<string>): (c: seq<bool>)
    ensures |c| == |Concat(packets)|
    decreases |packets|
  {
    if packets == [] then [] else seq(|packets[0]|, i => i == 0) + Cuts(packets[1..])
  }

  ghost predicate NonEmpty(packets: seq<string>) {
    forall i :: 0 <= i < |packets| ==> packets[i] != ""
  }

  /** The whole stream at once, given where it was cut. */
  ghost function Flow(p: Parser, bytes: string, cuts: seq<bool>): Parser
    requires |cuts| == |bytes|
    decreases |bytes|
  {
    if bytes == "" then p else Flow(Step(p, bytes[0], cuts[0]), bytes[1..], cuts[1..])
  }

  lemma {:induction false} FlowConcat(p: Parser, a: string, b: string, ca: seq<bool>, cb: seq<bool>)
    requires |ca| == |a| && |cb| == |b|
    ensures Flow(p, a + b, ca + cb) == Flow(Flow(p, a, ca), b, cb)
    decreases |a|
  {
    if a == "" {
      assert a + b == b && ca + cb == cb;
    } else {
      assert (a + b)[1..] == a[1..] + b && (ca + cb)[1..] == ca[1..] + cb;
      FlowConcat(Step(p, a[0], ca[0]), a[1..], b, ca[1..], cb);
    }
  }

  lemma {:induction false} RunIsFlow(p: Parser, bytes: string, cuts: seq<bool>)
    requires |cuts| == |bytes| && forall i :: 0 <= i < |cuts| ==> !cuts[i]
    ensures Run(p, bytes, false) == Flow(p, bytes, cuts)
    decreases |bytes|
  {
    if bytes != "" {
      RunIsFlow(Step(p, bytes[0], false), bytes[1..], cuts[1..]);
    }
  }

  /** Feeding packets is the one flow over all their bytes, cut where the packets begin. */
  lemma {:induction false} FeedIsFlow(p: Parser, packets: seq<string>)
    requires NonEmpty(packets)
    ensures Feed(p.f, packets) == Flow(p, Concat(packets), Cuts(packets)).f
    decreases |packets|
  {
    if packets != [] {
      var head, cuts := packets[0], seq(|packets[0]|, i => i == 0);
      var q := Step(p, head[0], true);
      assert q == Step(Parser(p.f, false), head[0], true);
      RunIsFlow(q, head[1..], cuts[1..]);
      assert Run(Parser(p.f, false), head, true) == Flow(p, head, cuts);
      FlowConcat(p, head, Concat(packets[1..]), cuts, Cuts(packets[1..]));
      FeedIsFlow(Flow(p, head, cuts), packets[1..]);
    }
  }

  // ---------------------------------------------------------------- what a message is

  /** A header line: its only CRLF ends it, and it is not the null line. */
  ghost predicate HeaderLine(line: string) {
    |line| > 2 && EndsWithCRLF(line) && forall i :: 0 <= i < |line| - 2 ==> !CRLFAt(line, i)
  }

  ghost predicate HeaderLines(lines: seq<string>) {
    forall i :: 0 <= i < |lines| ==> HeaderLine(lines[i])
  }

  /** The length declared by the first line that declares one other than 0. */
  function Declared(lines: seq<string>): nat
    decreases |lines|
  {
    if lines == [] then 0
    else if ParseContentLength(lines[0]) != 0 then ParseContentLength(lines[0])
    else Declared(lines[1..])
  }

  function Message(lines: seq<string>, body: string): string {
    Concat(lines) + CRLF + body
  }

  /** The length the parser arrives at: lines whose CRLF was cut in two do not count. */
  ghost function Effective(lines: seq<string>, cuts: seq<bool>, length: nat): nat
    requires HeaderLines(lines) && |cuts| == |Concat(lines)|
    decreases |lines|
  {
    if lines == [] then length else
    var n := |lines[0]|;
    Effective(lines[1..], cuts[n..],
      if length == 0 && !cuts[n - 1] then ParseContentLength(lines[0]) else length)
  }

  /** The cuts that leave the outcome alone: the header still yields the declared length, and when that is 0
      the null line came in one piece. */
  ghost predicate Harmless(lines: seq<string>, cuts: seq<bool>)
    requires HeaderLines(lines) && |cuts| >= |Concat(lines)| + 2
  {
    var h := |Concat(lines)|;
    && Effective(lines, cuts[..h], 0) == Declared(lines)
    && (Declared(lines) == 0 ==> !cuts[h + 1])
  }

  // ---------------------------------------------------------------- the flow over each part of a message

  ghost function InHeader(line: string, length: nat): Parser {
    Parser(Framing(line, length, 0, false), false)
  }

  lemma {:induction false} LinePrefix(line: string, cuts: seq<bool>, length: nat, k: nat)
    requires HeaderLine(line) && |cuts| == |line| && k < |line|
    ensures Flow(InHeader("", length), line[..k], cuts[..k]) == InHeader(line[..k], length)
    decreases k
  {
    hide ParseContentLength, Step;
    if k > 0 {
      LinePrefix(line, cuts, length, k - 1);
      assert line[..k] == line[..k - 1] + [line[k - 1]] && cuts[..k] == cuts[..k - 1] + [cuts[k - 1]];
      hide Flow;
      FlowConcat(InHeader("", length), line[..k - 1], [line[k - 1]], cuts[..k - 1], [cuts[k - 1]]);
      OneByteFlow(InHeader(line[..k - 1], length), line[k - 1], cuts[k - 1]);
      LineGoesOn(line, length, k, cuts[k - 1]);
    }
  }

  /** A byte inside a header line. */
  lemma LineGoesOn(line: string, length: nat, k: nat, first: bool)
    requires HeaderLine(line) && 0 < k < |line|
    ensures Step(InHeader(line[..k - 1], length), line[k - 1], first) == InHeader(line[..k], length)
  {
    hide ParseContentLength;
    assert k > 1 ==> !CRLFAt(line, k - 2);
    assert line[..k] == line[..k - 1] + [line[k - 1]];
    assert k > 1 ==> line[..k][k - 2] == line[k - 2];
  }

  lemma LineFlow(line: string, cuts: seq<bool>, length: nat)
    requires HeaderLine(line) && |cuts| == |line|
    ensures Flow(InHeader("", length), line, cuts) ==
            InHeader("", if length == 0 && !cuts[|line| - 1] then ParseContentLength(line) else length)
  {
    hide Step, ParseContentLength, Flow;
    var k := |line| - 1;
    LinePrefix(line, cuts, length, k);
    assert line == line[..k] + [line[k]] && cuts == cuts[..k] + [cuts[k]];
    FlowConcat(InHeader("", length), line[..k], [line[k]], cuts[..k], [cuts[k]]);
    OneByteFlow(InHeader(line[..k], length), line[k], cuts[k]);
    LineEnds(line, length, cuts[k]);
  }

  lemma OneByteFlow(p: Parser, b: char, cut: bool)
    ensures Flow(p, [b], [cut]) == Step(p, b, cut)
  {
    hide Step;
    assert [b][1..] == "" && [cut][1..] == [];
  }

  /** The byte that ends a header line. */
  lemma LineEnds(line: string, length: nat, first: bool)
    requires HeaderLine(line)
    ensures var k := |line| - 1;
            Step(InHeader(line[..k], length), line[k], first) ==
            InHeader("", if length == 0 && !first then ParseContentLength(line) else length)
  {
    hide ParseContentLength;
    var k := |line| - 1;
    assert line[..k] + [line[k]] == line && line != CRLF;
    assert line[..k][k - 1] == '\r';
  }

  lemma {:induction false} HeaderFlow(lines: seq<string>, cuts: seq<bool>, length: nat)
    requires HeaderLines(lines) && |cuts| == |Concat(lines)|
    ensures Flow(InHeader("", length), Concat(lines), cuts) == InHeader("", Effective(lines, cuts, length))
    decreases |lines|
  {
    if lines != [] {
      var n := |lines[0]|;
      LineFlow(lines[0], cuts[..n], length);
      assert cuts == cuts[..n] + cuts[n..];
      FlowConcat(InHeader("", length), lines[0], Concat(lines[1..]), cuts[..n], cuts[n..]);
      HeaderFlow(lines[1..], cuts[n..], if length == 0 && !cuts[n - 1] then ParseContentLength(lines[0]) else length);
    }
  }

  lemma NullLineEnds(length: nat, first: bool)
    ensures Step(InHeader("\r", length), '\n', first) ==
            if first && length == 0 then InHeader("", 0)
            else Parser(Framing("", length, 0, true), length != 0)
  {
    ContentLengthReadsBack(0);
    assert "\r" + ['\n'] == CRLF;
    assert ProcessCompleteHTTPLine(CRLF, length) == (length, true);
    assert EndsWithCRLF(CRLF) && EndsWithCR("\r");
  }

  lemma NullLineFlow(length: nat, cuts: seq<bool>)
    requires |cuts| == 2
    ensures Flow(InHeader("", length), CRLF, cuts) == Step(InHeader("\r", length), '\n', cuts[1])
  {
    var p, q := Step(InHeader("", length), '\r', cuts[0]), Step(InHeader("\r", length), '\n', cuts[1]);
    assert !EndsWithCRLF("" + ['\r']) && "" + ['\r'] == "\r";
    assert p == InHeader("\r", length);
    assert CRLF[1..] == ['\n'] && cuts[1..] == [cuts[1]];
    assert ['\n'][1..] == "" && [cuts[1]][1..] == [];
    assert Flow(q, "", []) == q;
  }

  /** While the declared length lasts, every byte counts once, however the packets fall. */
  lemma {:induction false} BodyFlow(p: Parser, body: string, cuts: seq<bool>)
    requires |cuts| == |body| && p.f.nullLine && p.absorbing && p.f.received + |body| <= p.f.contentLength
    ensures var q := Flow(p, body, cuts);
            q.f.nullLine && q.f.contentLength == p.f.contentLength && q.f.received == p.f.received + |body|
    decreases |body|
  {
    if body != "" {
      BodyFlow(Step(p, body[0], cuts[0]), body[1..], cuts[1..]);
    }
  }

  /** A length once set stays, and received bytes lag behind when it was set inside the body. */
  lemma {:induction false} StrayFlow(p: Parser, body: string, cuts: seq<bool>)
    requires |cuts| == |body|
    requires p.f.contentLength == 0 ==> p.f.received == 0 && !p.absorbing
    ensures var q := Flow(p, body, cuts);
            && (p.f.contentLength != 0 ==> q.f.contentLength == p.f.contentLength)
            && (p.f.contentLength == 0 && body != "" ==> q.f.received < |body|)
            && q.f.received <= p.f.received + |body|
    decreases |body|
  {
    if body != "" {
      var q := Step(p, body[0], cuts[0]);
      StrayFlow(q, body[1..], cuts[1..]);
    }
  }

  /** The state in front of the body, for any cuts. */
  lemma HeadFlow(lines: seq<string>, cuts: seq<bool>)
    requires HeaderLines(lines) && |cuts| == |Concat(lines)| + 2
    ensures var h := |Concat(lines)|;
            var length := Effective(lines, cuts[..h], 0);
            Flow(InHeader("", 0), Concat(lines) + CRLF, cuts) ==
            if cuts[h + 1] && length == 0 then InHeader("", 0)
            else Parser(Framing("", length, 0, true), length != 0)
  {
    var h := |Concat(lines)|;
    assert cuts == cuts[..h] + cuts[h..];
    FlowConcat(InHeader("", 0), Concat(lines), CRLF, cuts[..h], cuts[h..]);
    HeaderFlow(lines, cuts[..h], 0);
    NullLineFlow(Effective(lines, cuts[..h], 0), cuts[h..]);
    NullLineEnds(Effective(lines, cuts[..h], 0), cuts[h + 1]);
  }

  /** What one packet holding the whole message would report. */
  ghost predicate Complete(f: Framing, lines: seq<string>) {
    f.contentLength == Declared(lines) && f.received == Declared(lines) && f.nullLine
  }

  /** The message flows to completion exactly when its cuts are harmless. */
  lemma MessageFlow(lines: seq<string>, body: string, cuts: seq<bool>)
    requires HeaderLines(lines) && |body| == Declared(lines) && |cuts| == |Message(lines, body)|
    ensures Complete(Flow(InHeader("", 0), Message(lines, body), cuts).f, lines) <==> Harmless(lines, cuts)
  {
    var h := |Concat(lines)|;
    var head := Concat(lines) + CRLF;
    assert cuts == cuts[..h + 2] + cuts[h + 2..];
    assert cuts[..h + 2][..h] == cuts[..h] && cuts[..h + 2][h + 1] == cuts[h + 1];
    HeadFlow(lines, cuts[..h + 2]);
    FlowConcat(InHeader("", 0), head, body, cuts[..h + 2], cuts[h + 2..]);
    var p := Flow(InHeader("", 0), head, cuts[..h + 2]);
    if Harmless(lines, cuts) && body != "" {
      BodyFlow(p, body, cuts[h + 2..]);
    } else {
      StrayFlow(p, body, cuts[h + 2..]);
    }
  }

  lemma {:induction false} EffectiveUncut(lines: seq<string>, cuts: seq<bool>, length: nat)
    requires HeaderLines(lines) && |cuts| == |Concat(lines)|
    requires forall i :: 0 < i < |cuts| ==> !cuts[i]
    ensures Effective(lines, cuts, length) == if length == 0 then Declared(lines) else length
    decreases |lines|
  {
    if lines != [] {
      var n := |lines[0]|;
      EffectiveUncut(lines[1..], cuts[n..], if length == 0 then ParseContentLength(lines[0]) else length);
    }
  }

  /** Packet-cut independence, exactly: for every message and every way to cut it into non-empty packets, the
      packets leave the same lengths, null-line flag and done flag as the message in one packet if and only if
      the cuts are harmless. */
  lemma CutIndependence(lines: seq<string>, body: string, packets: seq<string>)
    requires HeaderLines(lines) && |body| == Declared(lines)
    requires NonEmpty(packets) && Concat(packets) == Message(lines, body)
    ensures var one, many := Feed(START, [Message(lines, body)]), Feed(START, packets);
            Harmless(lines, Cuts(packets)) <==>
            many.contentLength == one.contentLength && many.received == one.received &&
            many.nullLine == one.nullLine && many.Done() == one.Done()
  {
    var m := Message(lines, body);
    FeedIsFlow(InHeader("", 0), packets);
    MessageFlow(lines, body, Cuts(packets));
    WholeMessage(lines, body);
  }

  lemma WholeMessage(lines: seq<string>, body: string)
    requires HeaderLines(lines) && |body| == Declared(lines)
    ensures Complete(Feed(START, [Message(lines, body)]), lines)
  {
    var m := Message(lines, body);
    var h := |Concat(lines)|;
    assert Concat([m]) == m + Concat([]) == m;
    var cuts := Cuts([m]);
    assert cuts == seq(|m|, i => i == 0) + Cuts([]);
    assert forall i :: 0 <= i < |m| ==> cuts[i] == (i == 0);
    EffectiveUncut(lines, cuts[..h], 0);
    FeedIsFlow(InHeader("", 0), [m]);
    MessageFlow(lines, body, cuts);
  }

  // What lines declare, in the letters of the message.

  ghost predicate DeclaresNothing(lines: seq<string>) {
    forall i :: 0 <= i < |lines| ==> !("Content-Length: " <= lines[i])
  }

  lemma {:induction false} NothingDeclared(lines: seq<string>)
    requires DeclaresNothing(lines)
    ensures Declared(lines) == 0
    decreases |lines|
  {
    if lines != [] {
      var rest := lines[1..];
      assert forall i :: 0 <= i < |rest| ==> rest[i] == lines[i + 1];
      NothingDeclared(rest);
    }
  }

  lemma {:induction false} FirstDeclared(front: seq<string>, n: nat, back: seq<string>)
    requires DeclaresNothing(front) && n > 0
    ensures Declared(front + ["Content-Length: " + Itoa(n) + "\r\n"] + back) == n
    decreases |front|
  {
    var line := "Content-Length: " + Itoa(n) + "\r\n";
    var lines := front + [line] + back;
    if front == [] {
      assert lines[0] == line;
      ContentLengthReadsBack(n);
    } else {
      var rest := front[1..];
      assert forall i :: 0 <= i < |rest| ==> rest[i] == front[i + 1];
      assert lines[0] == front[0] && lines[1..] == rest + [line] + back;
      FirstDeclared(rest, n, back);
    }
  }

  /** Any text with a line break behind it, and none inside, is a header line. */
  lemma TextIsHeader(text: string)
    requires text != "" && forall i :: 0 <= i < |text| - 1 ==> text[i] != '\r' || text[i + 1] != '\n'
    ensures HeaderLine(text + "\r\n")
  {
    var line := text + "\r\n";
    forall i | 0 <= i < |line| - 2 ensures !CRLFAt(line, i) {
      assert line[i] == text[i];
    }
  }

  lemma LengthLineIsHeader(n: nat)
    ensures HeaderLine("Content-Length: " + Itoa(n) + "\r\n")
  {
    var line := "Content-Length: " + Itoa(n) + "\r\n";
    forall i | 0 <= i < |line| - 2 ensures !CRLFAt(line, i) {
      if i >= 16 {
        assert line[i] == Itoa(n)[i - 16];
      }
    }
  }

  /** A message without a Content-Length line ends with its null line. */
  lemma UndeclaredMessageEnds(lines: seq<string>)
    requires HeaderLines(lines) && DeclaresNothing(lines)
    ensures var f := Feed(Framing("", 0, 0, false), [Concat(lines) + "\r\n"]);
            f.contentLength == 0 && f.received == 0 && f.nullLine && f.Done()
  {
    NothingDeclared(lines);
    WholeMessage(lines, "");
    assert Concat(lines) + "\r\n" + "" == Concat(lines) + "\r\n";
  }

  /** A message with one ends with as many bytes of body as the first such line says, in decimal, and not before. */
  lemma DeclaredMessageEnds(front: seq<string>, n: nat, back: seq<string>, body: string)
    requires HeaderLines(front) && HeaderLines(back) && DeclaresNothing(front) && 0 < n == |body|
    ensures var head := Concat(front + ["Content-Length: " + Itoa(n) + "\r\n"] + back) + "\r\n";
            var f, g := Feed(Framing("", 0, 0, false), [head + body]), Feed(Framing("", 0, 0, false), [head]);
            && f.contentLength == f.received == n && f.nullLine && f.Done()
            && g.contentLength == n && g.received == 0 && g.nullLine && !g.Done()
  {
    var line := "Content-Length: " + Itoa(n) + "\r\n";
    var lines := front + [line] + back;
    LengthLineIsHeader(n);
    FirstDeclared(front, n, back);
    WholeMessage(lines, body);
    HeadAlone(lines);
  }

  /** The header and the null line in one packet. */
  lemma HeadAlone(lines: seq<string>)
    requires HeaderLines(lines) && Declared(lines) != 0
    ensures var g := Feed(START, [Concat(lines) + CRLF]);
            g.contentLength == Declared(lines) && g.received == 0 && g.nullLine
  {
    var m := Concat(lines) + CRLF;
    var h := |Concat(lines)|;
    assert Concat([m]) == m + Concat([]) == m;
    var cuts := Cuts([m]);
    assert cuts == seq(|m|, i => i == 0) + Cuts([]);
    EffectiveUncut(lines, cuts[..h], 0);
    FeedIsFlow(InHeader("", 0), [m]);
    HeadFlow(lines, cuts);
  }

  /** The cuts a sender must avoid: inside the CRLF of the line that declares the length, and, when no line
      does, inside the null line. Lines before the declaring one may be cut anywhere. */
  ghost predicate SparesDecidingLine(lines: seq<string>, cuts: seq<bool>)
    requires HeaderLines(lines) && |cuts| >= |Concat(lines)| + 2
    decreases |lines|
  {
    if lines == [] then !cuts[1]
    else if ParseContentLength(lines[0]) != 0 then !cuts[|lines[0]| - 1]
    else SparesDecidingLine(lines[1..], cuts[|lines[0]|..])
  }

  lemma {:induction false} EffectiveKeeps(lines: seq<string>, cuts: seq<bool>, length: nat)
    requires HeaderLines(lines) && |cuts| == |Concat(lines)| && length != 0
    ensures Effective(lines, cuts, length) == length
    decreases |lines|
  {
    if lines != [] {
      EffectiveKeeps(lines[1..], cuts[|lines[0]|..], length);
    }
  }

  lemma {:induction false} SparingIsHarmless(lines: seq<string>, cuts: seq<bool>)
    requires HeaderLines(lines) && |cuts| >= |Concat(lines)| + 2
    ensures SparesDecidingLine(lines, cuts) ==> Harmless(lines, cuts)
    decreases |lines|
  {
    if lines != [] {
      var n, h := |lines[0]|, |Concat(lines)|;
      assert cuts[..h][n..] == cuts[n..][..h - n];
      if ParseContentLength(lines[0]) != 0 {
        EffectiveKeeps(lines[1..], cuts[..h][n..], ParseContentLength(lines[0]));
      } else {
        SparingIsHarmless(lines[1..], cuts[n..]);
        assert cuts[n..][h - n + 1] == cuts[h + 1];
      }
    }
  }

  lemma TwoPackets(a: string, b: string)
    requires a != "" && b != ""
    ensures Concat([a, b]) == a + b && NonEmpty([a, b])
    ensures Cuts([a, b])[|a|] && forall i :: 0 < i < |a + b| && i != |a| ==> !Cuts([a, b])[i]
  {
    assert [a, b][1..] == [b] && [b][1..] == [];
    assert Concat([b]) == b + Concat([]) == b;
    assert Cuts([b]) == seq(|b|, i => i == 0) + Cuts([]);
  }

  /** A cut inside the null line of a message without a body loses that line for good. */
  lemma CutNullLineIsLost(lines: seq<string>)
    requires HeaderLines(lines) && Declared(lines) == 0
    ensures !Feed(START, [Concat(lines) + "\r", "\n"]).nullLine
  {
    var h, a, b := |Concat(lines)|, Concat(lines) + "\r", "\n";
    TwoPackets(a, b);
    var cuts := Cuts([a, b]);
    assert a + b == Concat(lines) + CRLF;
    FeedIsFlow(InHeader("", 0), [a, b]);
    EffectiveUncut(lines, cuts[..h], 0);
    HeadFlow(lines, cuts);
  }

  /** A cut inside the CRLF of the only line that declares a length loses the length for good. */
  lemma CutLengthIsLost(line: string)
    requires HeaderLine(line)
    ensures Feed(START, [line[..|line| - 1], "\n" + CRLF]).contentLength == 0
  {
    var a, b := line[..|line| - 1], "\n" + CRLF;
    TwoPackets(a, b);
    assert Concat([line]) == line + Concat([]) == line;
    assert a + b == line + CRLF == Concat([line]) + CRLF;
    FeedIsFlow(InHeader("", 0), [a, b]);
    HeadFlow([line], Cuts([a, b]));
  }

  // ---------------------------------------------------------------- never done early

  lemma {:induction false} NotDoneInHeader(lines: seq<string>, cuts: seq<bool>, length: nat, k: nat)
    requires HeaderLines(lines) && |cuts| == |Concat(lines)| + 2 && k < |cuts|
    ensures !Flow(InHeader("", length), (Concat(lines) + CRLF)[..k], cuts[..k]).f.nullLine
    decreases |lines|
  {
    var all := Concat(lines) + CRLF;
    if lines == [] {
      if k == 1 {
        assert all[..1] == "\r" && cuts[..1] == [cuts[0]];
        assert Flow(InHeader("", length), "\r", [cuts[0]]) == Step(InHeader("", length), '\r', cuts[0]);
      }
    } else {
      var n := |lines[0]|;
      assert all == lines[0] + (Concat(lines[1..]) + CRLF);
      if k < n {
        assert all[..k] == lines[0][..k] && cuts[..k] == cuts[..n][..k];
        LinePrefix(lines[0], cuts[..n], length, k);
      } else {
        LineFlow(lines[0], cuts[..n], length);
        var rest := Concat(lines[1..]) + CRLF;
        assert all[..k] == lines[0] + rest[..k - n] && cuts[..k] == cuts[..n] + cuts[n..][..k - n];
        FlowConcat(InHeader("", length), lines[0], rest[..k - n], cuts[..n], cuts[n..][..k - n]);
        NotDoneInHeader(lines[1..], cuts[n..], Flow(InHeader("", length), lines[0], cuts[..n]).f.contentLength, k - n);
      }
    }
  }

  lemma NotDoneBefore(lines: seq<string>, body: string, cuts: seq<bool>, k: nat)
    requires HeaderLines(lines) && |body| == Declared(lines) && |cuts| == |Message(lines, body)|
    requires Harmless(lines, cuts) && k < |cuts|
    ensures !Flow(InHeader("", 0), Message(lines, body)[..k], cuts[..k]).f.Done()
  {
    var h := |Concat(lines)|;
    var head := Concat(lines) + CRLF;
    var m := Message(lines, body);
    if k < h + 2 {
      assert m[..k] == head[..k] && cuts[..k] == cuts[..h + 2][..k];
      NotDoneInHeader(lines, cuts[..h + 2], 0, k);
    } else {
      assert m[..k] == head + body[..k - h - 2] && cuts[..k] == cuts[..h + 2] + cuts[h + 2..k];
      FlowConcat(InHeader("", 0), head, body[..k - h - 2], cuts[..h + 2], cuts[h + 2..k]);
      assert cuts[..h + 2][..h] == cuts[..h] && cuts[..h + 2][h + 1] == cuts[h + 1];
      HeadFlow(lines, cuts[..h + 2]);
      BodyFlow(Flow(InHeader("", 0), head, cuts[..h + 2]), body[..k - h - 2], cuts[h + 2..k]);
    }
  }

  lemma {:induction false} PrefixOfPackets(packets: seq<string>, k: nat)
    requires NonEmpty(packets) && k <= |packets|
    ensures Concat(packets[..k]) <= Concat(packets) && Cuts(packets[..k]) <= Cuts(packets)
    ensures k < |packets| ==> |Concat(packets[..k])| < |Concat(packets)|
    decreases k
  {
    if k > 0 {
      PrefixOfPackets(packets[1..], k - 1);
      assert packets[..k][1..] == packets[1..][..k - 1];
    } else {
      assert packets[..0] == [];
    }
  }

  /** Exact framing: for harmless cuts the parser is done after the last packet and never before. */
  lemma ExactFraming(lines: seq<string>, body: string, packets: seq<string>, k: nat)
    requires HeaderLines(lines) && |body| == Declared(lines)
    requires NonEmpty(packets) && Concat(packets) == Message(lines, body) && Harmless(lines, Cuts(packets))
    requires k <= |packets|
    ensures Feed(START, packets[..k]).Done() <==> k == |packets|
  {
    PrefixOfPackets(packets, k);
    FeedIsFlow(InHeader("", 0), packets[..k]);
    var n := |Concat(packets[..k])|;
    assert Concat(packets[..k]) == Message(lines, body)[..n] && Cuts(packets[..k]) == Cuts(packets)[..n];
    if k < |packets| {
      NotDoneBefore(lines, body, Cuts(packets), n);
    } else {
      assert packets[..k] == packets;
      MessageFlow(lines, body, Cuts(packets));
    }
  }

  lemma {:induction false} FeedOneMore(f: Framing, packets: seq<string>, k: nat)
    requires k < |packets|
    ensures Feed(f, packets[..k + 1]) == Run(Parser(Feed(f, packets[..k]), false), packets[k], true).f
    decreases k
  {
    if k > 0 {
      FeedOneMore(Run(Parser(f, false), packets[0], true).f, packets[1..], k - 1);
      assert packets[..k + 1][1..] == packets[1..][..k] && packets[..k][1..] == packets[1..][..k - 1];
    } else {
      assert packets[..1] == [packets[0]] && packets[..0] == [];
    }
  }

  /** How the client half of the proxy loop may end, given the packets `Recvfrom` yields: an empty one is a closed
      peer. */
  ghost predicate Ends(packets: seq<string>, used: nat, done: bool) {
    && used <= |packets|
    && (done <==> used > 0 && Feed(START, packets[..used]).Done())
    && (forall k :: 0 < k < used ==> !Feed(START, packets[..k]).Done())
    && (!done ==> used == |packets| || packets[used] == "")
  }

  /** The client half of the proxy loop. */
  method ReadRequest(packets: seq<string>) returns (s: Framing, used: nat, done: bool)
    ensures Ends(packets, used, done) && s == Feed(START, packets[..used])
  {
    s, used, done := START, 0, false;
    while !done && used < |packets|
      invariant used <= |packets| && s == Feed(START, packets[..used])
      invariant done <==> used > 0 && s.Done()
      invariant forall k :: 0 < k < used ==> !Feed(START, packets[..k]).Done()
    {
      if packets[used] == "" {
        return;
      }
      var line, contentLength, received, nullLine;
      line, contentLength, received, nullLine, done :=
        StreamInHTTPMessage(packets[used], s.line, s.nullLine, s.contentLength, s.received);
      s := Framing(line, contentLength, received, nullLine);
      FeedOneMore(START, packets, used);
      used := used + 1;
    }
  }

  /** What that amounts to when the packets of a message come first: the loop ends done, having read every packet
      of the message and none behind it. */
  lemma ReadRequestFramesExactly(lines: seq<string>, body: string, packets: seq<string>, more: seq<string>, used: nat,
                                 done: bool)
    requires HeaderLines(lines) && |body| == Declared(lines)
    requires NonEmpty(packets) && Concat(packets) == Message(lines, body) && Harmless(lines, Cuts(packets))
    requires Ends(packets + more, used, done)
    ensures done && used == |packets|
  {
    var n := |packets|;
    assert |Concat(packets)| >= |CRLF|;
    assert n > 0;
    assert (packets + more)[..n] == packets[..n];
    ExactFraming(lines, body, packets, n);
    if used < n {
      assert (packets + more)[..used] == packets[..used];
      ExactFraming(lines, body, packets, used);
    }
  }
}
