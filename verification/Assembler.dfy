/** The assembler for the byte machine, and its correctness against an interpreter of the instruction list. */
module Assembler {
  import opened Options
  import opened Bytes
  import opened Decimal
  import opened Splitting
  import opened Vm

  datatype Reg = R1 | R2

  datatype Instr =
    | Load(r: Reg, address: byte)
    | Store(r: Reg, address: byte)
    | Add(r: Reg, s: Reg)
    | Sub(r: Reg, s: Reg)
    | Addi(r: Reg, value: byte)
    | Subi(r: Reg, value: byte)
    | Jump(target: byte)
    | Beqz(r: Reg, offset: byte)
    | Halt

  type Program = seq<Instr>

  function Number(r: Reg): byte {
    match r case R1 => 1 case R2 => 2
  }

  function Encode(i: Instr): (code: seq<byte>)
    ensures 1 <= |code| <= 3
  {
    match i
    case Load(r, a) => [LOAD, Number(r), a]
    case Store(r, a) => [STORE, Number(r), a]
    case Add(r, s) => [ADD, Number(r), Number(s)]
    case Sub(r, s) => [SUB, Number(r), Number(s)]
    case Addi(r, v) => [ADDI, Number(r), v]
    case Subi(r, v) => [SUBI, Number(r), v]
    case Jump(a) => [JUMP, a]
    case Beqz(r, o) => [BEQZ, Number(r), o]
    case Halt => [HALT]
  }

  function Code(p: Program): seq<byte>
    decreases |p|
  {
    if p == [] then [] else Encode(p[0]) + Code(p[1..])
  }

  // ---------------------------------------------------------------- from text to bytes

  predicate IsSpace(c: char) {
    c == ' ' || c == '\t' || c == '\n' || c == '\r' || c == 11 as char || c == 12 as char
  }

  function TrimLeft(s: string): string {
    if s != "" && IsSpace(s[0]) then TrimLeft(s[1..]) else s
  }

  function TrimSpace(s: string): string {
    var t := TrimLeft(s);
    TrimRight(t)
  }

  function TrimRight(s: string): string {
    if s != "" && IsSpace(s[|s| - 1]) then TrimRight(s[..|s| - 1]) else s
  }

  /** An unknown name is register 0. */
  function RegNumber(s: string): byte {
    if s == "r1" then 1 else if s == "r2" then 2 else 0
  }

  /** A decimal numeral with an optional sign; anything else stops the assembler. */
  function Atoi(s: string): Option<int> {
    var digits := if s != "" && (s[0] == '-' || s[0] == '+') then s[1..] else s;
    if digits == "" || DigitCount(digits) != |digits| then None
    else if s[0] == '-' then Some(0 - DigitsValue(digits) as int)
    else Some(DigitsValue(digits))
  }

  function Mem(s: string): Option<byte> {
    match Atoi(s) case Some(i) => Some(ToByte(i)) case None => None
  }

  function OpCode(op: string): Option<byte> {
    if op == "load" then Some(LOAD) else if op == "store" then Some(STORE)
    else if op == "add" then Some(ADD) else if op == "sub" then Some(SUB)
    else if op == "addi" then Some(ADDI) else if op == "subi" then Some(SUBI)
    else if op == "jump" then Some(JUMP) else if op == "beqz" then Some(BEQZ)
    else if op == "halt" then Some(HALT) else None
  }

  /** The bytes for the words of one line, or that the assembler stops. */
  function AssembleWords(parts: seq<string>): Option<seq<byte>>
    requires |parts| >= 1
  {
    match OpCode(parts[0])
    case None => None
    case Some(op) =>
      if op == HALT then Some([HALT])
      else if op == JUMP then
        if |parts| < 2 then None else
        match Mem(parts[1]) case Some(a) => Some([JUMP, a]) case None => None
      else if |parts| < 3 then None
      else if op == ADD || op == SUB then Some([op, RegNumber(parts[1]), RegNumber(parts[2])])
      else match Mem(parts[2]) case Some(v) => Some([op, RegNumber(parts[1]), v]) case None => None
  }

  function AssembleLine(line: string): Option<seq<byte>> {
    AssembleWords(Split(TrimSpace(line), ' '))
  }

  function AssembleLines(lines: seq<string>): Option<seq<byte>>
    decreases |lines|
  {
    if lines == [] then Some([]) else
    match AssembleLine(lines[0])
    case Some(code) => Prepend(code, AssembleLines(lines[1..]))
    case None => None
  }

  method Assemble(asm: string) returns (r: Option<seq<byte>>)
    ensures r == AssembleLines(Split(TrimSpace(asm), '\n'))
  {
    hide AssembleLine, Prepend;
    var lines := Split(TrimSpace(asm), '\n');
    var mc: seq<byte> := [];
    var i: nat := 0;
    PrependTwice([], [], AssembleLines(lines));
    while i < |lines|
      invariant i <= |lines|
      invariant AssembleLines(lines) ==
                Prepend(mc, AssembleLines(lines[i..]))
    {
      assert lines[i..][1..] == lines[i + 1..];
      PrependEnds(mc);
      var code := AssembleLine(lines[i]);
      if code == None {
        return None;
      }
      PrependTwice(mc, code.value, AssembleLines(lines[i + 1..]));
      mc := mc + code.value;
      i := i + 1;
    }
    PrependEnds(mc);
    return Some(mc);
  }

  // ---------------------------------------------------------------- programs as text

  function RegName(r: Reg): string {
    match r case R1 => "r1" case R2 => "r2"
  }

  function Mnemonic(i: Instr): string {
    match i
    case Load(_, _) => "load"
    case Store(_, _) => "store"
    case Add(_, _) => "add"
    case Sub(_, _) => "sub"
    case Addi(_, _) => "addi"
    case Subi(_, _) => "subi"
    case Jump(_) => "jump"
    case Beqz(_, _) => "beqz"
    case Halt => "halt"
  }

  function Operands(i: Instr): seq<string> {
    match i
    case Load(r, a) => [RegName(r), Itoa(a)]
    case Store(r, a) => [RegName(r), Itoa(a)]
    case Add(r, s) => [RegName(r), RegName(s)]
    case Sub(r, s) => [RegName(r), RegName(s)]
    case Addi(r, v) => [RegName(r), Itoa(v)]
    case Subi(r, v) => [RegName(r), Itoa(v)]
    case Jump(a) => [Itoa(a)]
    case Beqz(r, o) => [RegName(r), Itoa(o)]
    case Halt => []
  }

  function Words(i: Instr): (w: seq<string>)
    ensures |w| >= 1
  {
    [Mnemonic(i)] + Operands(i)
  }

  function Line(i: Instr): string {
    Join(Words(i), ' ')
  }

  function Lines(p: Program): (lines: seq<string>)
    ensures |lines| == |p| && forall k :: 0 <= k < |p| ==> lines[k] == Line(p[k])
  {
    seq(|p|, k requires 0 <= k < |p| => Line(p[k]))
  }

  /** The program in the assembler's language, one instruction a line. */
  function Text(p: Program): string
    requires p != []
  {
    Join(Lines(p), '\n')
  }

  predicate NoSpace(s: string) {
    forall k :: 0 <= k < |s| ==> !IsSpace(s[k])
  }

  lemma AtoiOfItoa(n: nat)
    ensures Atoi(Itoa(n)) == Some(n) && NoSpace(Itoa(n))
  {
    CountsAll(Itoa(n), "");
    assert Itoa(n) + "" == Itoa(n);
    ValueOfItoa(n);
    assert IsDigit(Itoa(n)[0]);
  }

  lemma {:induction false} JoinEnds(parts: seq<string>, sep: char)
    requires |parts| >= 1
    requires forall i :: 0 <= i < |parts| ==>
               parts[i] != "" && !IsSpace(parts[i][0]) && !IsSpace(parts[i][|parts[i]| - 1])
    ensures var s := Join(parts, sep); s != "" && !IsSpace(s[0]) && !IsSpace(s[|s| - 1])
    decreases |parts|
  {
    if |parts| > 1 {
      JoinEnds(parts[1..], sep);
    }
  }

  predicate Clean(word: string) {
    word != "" && NoSpace(word)
  }

  lemma MnemonicIsClean(i: Instr)
    ensures Clean(Mnemonic(i))
  {
  }

  lemma NumeralIsClean(n: nat)
    ensures Clean(Itoa(n))
  {
    AtoiOfItoa(n);
  }

  lemma OperandsAreClean(i: Instr)
    ensures forall k :: 0 <= k < |Operands(i)| ==> Clean(Operands(i)[k])
  {
    NumeralIsClean(if i.Load? || i.Store? then i.address else if i.Addi? || i.Subi? then i.value
                   else if i.Jump? then i.target else if i.Beqz? then i.offset else 0);
    assert forall r :: Clean(RegName(r));
    hide Itoa, Clean, RegName;
  }

  lemma {:induction false} JoinHasNo(parts: seq<string>, sep: char, c: char)
    requires |parts| >= 1 && c != sep && forall i :: 0 <= i < |parts| ==> c !in parts[i]
    ensures c !in Join(parts, sep)
    decreases |parts|
  {
    if |parts| > 1 {
      JoinHasNo(parts[1..], sep, c);
    }
  }

  lemma LineFacts(i: Instr)
    ensures TrimSpace(Line(i)) == Line(i) && Split(Line(i), ' ') == Words(i) && '\n' !in Line(i)
    ensures Line(i) != "" && !IsSpace(Line(i)[0]) && !IsSpace(Line(i)[|Line(i)| - 1])
  {
    MnemonicIsClean(i);
    OperandsAreClean(i);
    hide Mnemonic, Operands;
    var w := Words(i);
    forall k | 0 <= k < |w| ensures Clean(w[k]) && ' ' !in w[k] && '\n' !in w[k] {
      assert k > 0 ==> w[k] == Operands(i)[k - 1];
      assert NoSpace(w[k]);
    }
    SplitOfJoin(w, ' ');
    JoinHasNo(w, ' ', '\n');
    JoinEnds(w, ' ');
  }

  lemma RegNameReadsBack(r: Reg)
    ensures RegNumber(RegName(r)) == Number(r)
  {
  }

  lemma MnemonicReadsBack(i: Instr)
    ensures OpCode(Mnemonic(i)) == Some(Encode(i)[0])
  {
  }

  lemma MemOfItoa(v: byte)
    ensures Mem(Itoa(v)) == Some(v)
  {
    AtoiOfItoa(v);
    hide Atoi, Itoa;
    assert ToByte(v) == v;
  }

  lemma RegistersAssemble(op: string, code: byte, r: Reg, s: Reg)
    requires OpCode(op) == Some(code) && (code == ADD || code == SUB)
    ensures AssembleWords([op] + [RegName(r), RegName(s)]) == Some([code, Number(r), Number(s)])
  {
    RegNameReadsBack(r);
    RegNameReadsBack(s);
    hide RegNumber, RegName, Number, OpCode;
  }

  lemma ImmediateAssembles(op: string, code: byte, r: Reg, v: byte)
    requires OpCode(op) == Some(code) && HasTwoOperands(code) && code != ADD && code != SUB
    ensures AssembleWords([op] + [RegName(r), Itoa(v)]) == Some([code, Number(r), v])
  {
    RegNameReadsBack(r);
    MemOfItoa(v);
    hide RegNumber, RegName, Number, OpCode, Itoa, Mem;
  }

  lemma JumpAssembles(op: string, a: byte)
    requires OpCode(op) == Some(JUMP)
    ensures AssembleWords([op] + [Itoa(a)]) == Some([JUMP, a])
  {
    MemOfItoa(a);
    hide Itoa, Mem, OpCode;
  }

  lemma HaltAssembles(op: string)
    requires OpCode(op) == Some(HALT)
    ensures AssembleWords([op] + []) == Some([HALT])
  {
    hide OpCode;
  }

  lemma LineAssembles(i: Instr)
    ensures AssembleLine(Line(i)) == Some(Encode(i))
  {
    LineFacts(i);
    MnemonicReadsBack(i);
    hide AssembleWords, OpCode, Itoa, RegName, Number, Line, TrimSpace, Split;
    match i {
      case Load(r, a) => ImmediateAssembles(Mnemonic(i), LOAD, r, a);
      case Store(r, a) => ImmediateAssembles(Mnemonic(i), STORE, r, a);
      case Addi(r, v) => ImmediateAssembles(Mnemonic(i), ADDI, r, v);
      case Subi(r, v) => ImmediateAssembles(Mnemonic(i), SUBI, r, v);
      case Beqz(r, o) => ImmediateAssembles(Mnemonic(i), BEQZ, r, o);
      case Add(r, s) => RegistersAssemble(Mnemonic(i), ADD, r, s);
      case Sub(r, s) => RegistersAssemble(Mnemonic(i), SUB, r, s);
      case Jump(a) => JumpAssembles(Mnemonic(i), a);
      case Halt => HaltAssembles(Mnemonic(i));
    }
  }

  lemma {:induction false} LinesAssemble(p: Program)
    ensures AssembleLines(Lines(p)) == Some(Code(p))
    decreases |p|
  {
    hide AssembleLine, Encode, Line;
    if p != [] {
      LineAssembles(p[0]);
      assert Lines(p)[1..] == Lines(p[1..]);
      LinesAssemble(p[1..]);
    }
  }

  /** Every program, written out, assembles to its code. */
  lemma TextAssembles(p: Program)
    requires p != []
    ensures AssembleLines(Split(TrimSpace(Text(p)), '\n')) == Some(Code(p))
  {
    forall k | 0 <= k < |p|
      ensures '\n' !in Lines(p)[k] && Lines(p)[k] != ""
      ensures !IsSpace(Lines(p)[k][0]) && !IsSpace(Lines(p)[k][|Lines(p)[k]| - 1])
    {
      LineFacts(p[k]);
    }
    JoinEnds(Lines(p), '\n');
    SplitOfJoin(Lines(p), '\n');
    LinesAssemble(p);
  }

  // ---------------------------------------------------------------- white space around texts and lines

  /** White space in letters; the last two are the vertical tab and the form feed. */
  predicate Blank(c: char) {
    c in " \t\n\r" || c as int == 11 || c as int == 12
  }

  predicate AllSpace(s: string) {
    forall i :: 0 <= i < |s| ==> Blank(s[i])
  }

  predicate Tight(s: string) {
    s != "" && !Blank(s[0]) && !Blank(s[|s| - 1])
  }

  lemma {:induction false} TrimLeftDrops(front: string, s: string)
    requires AllSpace(front) && s != "" && !IsSpace(s[0])
    ensures TrimLeft(front + s) == s
    decreases |front|
  {
    if front == "" {
      assert front + s == s;
    } else {
      assert (front + s)[1..] == front[1..] + s;
      TrimLeftDrops(front[1..], s);
    }
  }

  lemma {:induction false} TrimRightDrops(s: string, back: string)
    requires AllSpace(back) && s != "" && !IsSpace(s[|s| - 1])
    ensures TrimRight(s + back) == s
    decreases |back|
  {
    if back == "" {
      assert s + back == s;
    } else {
      assert (s + back)[..|s + back| - 1] == s + back[..|back| - 1];
      TrimRightDrops(s, back[..|back| - 1]);
    }
  }

  /** Trimming takes off the white space in front and behind, and nothing else. */
  lemma TrimDrops(front: string, s: string, back: string)
    requires AllSpace(front) && Tight(s) && AllSpace(back)
    ensures TrimSpace(front + s + back) == s
    ensures TrimSpace(front) == ""
  {
    TrimBlank(front);
    assert (s + back)[0] == s[0] && front + s + back == front + (s + back);
    TrimLeftDrops(front, s + back);
    TrimRightDrops(s, back);
  }

  lemma {:induction false} TrimBlank(s: string)
    requires AllSpace(s)
    ensures TrimSpace(s) == ""
    decreases |s|
  {
    if s != "" {
      TrimBlank(s[1..]);
    }
  }

  /** A line may be indented, and end in white space. */
  lemma LooseLineAssembles(front: string, i: Instr, back: string)
    requires AllSpace(front) && AllSpace(back)
    ensures AssembleLine(front + Line(i) + back) == Some(Encode(i))
  {
    LineFacts(i);
    LineAssembles(i);
    hide AssembleWords, Line, Encode, TrimSpace;
    TrimDrops(front, Line(i), back);
  }

  /** A text may stand between blank lines. */
  lemma LooseTextAssembles(front: string, p: Program, back: string)
    requires AllSpace(front) && AllSpace(back) && p != []
    ensures AssembleLines(Split(TrimSpace(front + Text(p) + back), '\n')) == Some(Code(p))
  {
    TextAssembles(p);
    TextIsTight(p);
    TrimDrops(front, Text(p), back);
    TrimDrops("", Text(p), "");
    assert "" + Text(p) + "" == Text(p);
  }

  lemma TextIsTight(p: Program)
    requires p != []
    ensures Tight(Text(p))
  {
    forall k | 0 <= k < |p|
      ensures Lines(p)[k] != "" && !IsSpace(Lines(p)[k][0]) && !IsSpace(Lines(p)[k][|Lines(p)[k]| - 1])
    {
      LineFacts(p[k]);
    }
    JoinEnds(Lines(p), '\n');
  }

  // ---------------------------------------------------------------- words the assembler does not know

  /** The assembler stops exactly at a line whose first word is none of the nine, or that lacks an operand, or whose
      number is none. */
  lemma StopsIff(parts: seq<string>)
    requires |parts| >= 1
    ensures AssembleWords(parts) == None <==>
            !(|| parts[0] == "halt"
              || (parts[0] == "jump" && |parts| >= 2 && Atoi(parts[1]).Some?)
              || (parts[0] in ["add", "sub"] && |parts| >= 3)
              || (parts[0] in ["load", "store", "addi", "subi", "beqz"] && |parts| >= 3 && Atoi(parts[2]).Some?))
  {
  }

  predicate AllDigits(s: string) {
    s != "" && forall i :: 0 <= i < |s| ==> s[i] in "0123456789"
  }

  /** A number is a numeral, or one behind a sign. */
  lemma AtoiReads(s: string)
    ensures Atoi(s).Some? <==> AllDigits(s) || (s != "" && s[0] in "+-" && AllDigits(s[1..]))
  {
    assert forall c :: IsDigit(c) <==> c in "0123456789";
    if AllDigits(s) {
      CountsAll(s, "");
      assert s + "" == s;
    } else if s != "" && s[0] in "+-" && AllDigits(s[1..]) {
      CountsAll(s[1..], "");
      assert s[1..] + "" == s[1..];
    }
  }

  lemma AtoiOfSigned(n: nat)
    ensures Atoi("+" + Itoa(n)) == Some(n) && Atoi("-" + Itoa(n)) == Some(0 - n as int)
  {
    CountsAll(Itoa(n), "");
    ValueOfItoa(n);
    var s := Itoa(n);
    hide Itoa, DigitsValue, DigitCount;
    assert s + "" == s;
    assert ("+" + s)[1..] == s;
    assert ("-" + s)[1..] == s;
  }

  /** Numbers are cut to a byte, negative ones as well; a name that is no register counts as register 0. */
  lemma NumbersAreCut(n: nat, name: string)
    ensures Mem(Itoa(n)) == Some(n % 0x100) && Mem("+" + Itoa(n)) == Some(n % 0x100)
    ensures Mem("-" + Itoa(n)) == Some((0 - n as int) % 0x100)
    ensures RegNumber(name) == if name == "r1" then 1 else if name == "r2" then 2 else 0
  {
    AtoiOfItoa(n);
    AtoiOfSigned(n);
    hide Atoi, Itoa;
  }

  // ---------------------------------------------------------------- the instruction list as a machine

  /** Where instruction `i` starts in memory; the end of the code for `i == |p|`. */
  function Start(p: Program, i: nat): (a: nat)
    requires i <= |p|
    ensures a >= 8 + i
    decreases i
  {
    if i == 0 then 8 else Start(p, i - 1) + |Encode(p[i - 1])|
  }

  /** The instruction, or the end of the program, that a byte address leads to. */
  function IndexAt(p: Program, address: byte, i: nat): (r: Option<nat>)
    requires i <= |p|
    ensures r.Some? ==> i <= r.value <= |p| && ToByte(Start(p, r.value)) == address
    decreases |p| - i
  {
    if ToByte(Start(p, i)) == address then Some(i)
    else if i == |p| then None
    else IndexAt(p, address, i + 1)
  }

  function BranchTarget(p: Program, i: nat, offset: byte): byte
    requires i < |p|
  {
    ToByte(Start(p, i) + offset as int + 3)
  }

  /** Jumps and branches land where an instruction starts, or where the program ends. */
  predicate WellTargeted(p: Program) {
    forall i :: 0 <= i < |p| ==>
      && (p[i].Jump? ==> IndexAt(p, p[i].target, 0).Some?)
      && (p[i].Beqz? ==> IndexAt(p, BranchTarget(p, i, p[i].offset), 0).Some?)
  }

  ghost predicate StartsAt(p: Program, k: nat, address: int) {
    k <= |p| && Start(p, k) % 0x100 == address
  }

  ghost predicate SomeStart(p: Program, address: int) {
    exists k: nat :: StartsAt(p, k, address)
  }

  lemma {:induction false} FoundIff(p: Program, address: byte, i: nat)
    requires i <= |p|
    ensures IndexAt(p, address, i).Some? <==> exists k: nat :: i <= k && StartsAt(p, k, address)
    decreases |p| - i
  {
    hide Start;
    assert ToByte(Start(p, i)) == Start(p, i) % 0x100;
    if StartsAt(p, i, address) {
      return;
    }
    if i < |p| {
      FoundIff(p, address, i + 1);
    }
  }

  /** In addresses modulo 256: that of a jump, and for a branch its own, three and its offset. */
  lemma WellTargetedIff(p: Program)
    ensures WellTargeted(p) <==>
            forall i :: 0 <= i < |p| ==>
              && (p[i].Jump? ==> SomeStart(p, p[i].target))
              && (p[i].Beqz? ==> SomeStart(p, (Start(p, i) + 3 + p[i].offset) % 0x100))
  {
    hide Start, IndexAt, StartsAt;
    forall a: byte ensures IndexAt(p, a, 0).Some? <==> SomeStart(p, a) {
      FoundIff(p, a, 0);
    }
    hide SomeStart;
  }

  /** The code fits behind the data segment. */
  predicate Fits(p: Program) {
    Start(p, |p|) <= 0x100
  }

  predicate CodeAt(memory: seq<byte>, a: nat, code: seq<byte>) {
    a + |code| <= |memory| && memory[a..a + |code|] == code
  }

  /** The code sits at address 8 and zeros fill the rest. */
  predicate Loaded(p: Program, memory: seq<byte>)
    requires Fits(p)
  {
    && |memory| == 0x100
    && (forall i :: 0 <= i < |p| ==> CodeAt(memory, Start(p, i), Encode(p[i])))
    && (forall a :: Start(p, |p|) <= a < 0x100 ==> memory[a] == 0)
  }

  /** The machine as the programmer thinks of it: at an instruction, not at a byte. */
  datatype State = State(index: nat, r1: byte, r2: byte, memory: seq<byte>) {
    function Get(r: Reg): byte {
      match r case R1 => r1 case R2 => r2
    }

    function Set(r: Reg, v: byte): State {
      match r case R1 => this.(r1 := v) case R2 => this.(r2 := v)
    }

    function Go(i: nat): State {
      this.(index := i)
    }
  }

  datatype Verdict = Next(s: State) | Stopped(memory: seq<byte>) | Fault(status: int)

  /** One instruction. Running off the end meets a zero byte, or, when the code fills the memory, address 0. */
  function Interpret(p: Program, s: State): (v: Verdict)
    requires WellTargeted(p) && s.index <= |p| && |s.memory| == 0x100
    ensures v.Next? ==> v.s.index <= |p| && |v.s.memory| == 0x100
  {
    var i := s.index;
    if i == |p| then Fault(if Start(p, |p|) < 0x100 then ILLEGAL_OP_CODE else ILLEGAL_MEMORY_ACCESS) else
    match p[i]
    case Load(r, a) => Next(s.Set(r, s.memory[a]).Go(i + 1))
    case Store(r, a) =>
      if a != 0 then Fault(ILLEGAL_MEMORY_ACCESS) else Next(s.(memory := s.memory[0 := s.Get(r)]).Go(i + 1))
    case Add(r, q) => Next(s.Set(r, Plus(s.Get(r), s.Get(q))).Go(i + 1))
    case Sub(r, q) => Next(s.Set(r, Minus(s.Get(r), s.Get(q))).Go(i + 1))
    case Addi(r, v) => Next(s.Set(r, Plus(s.Get(r), v)).Go(i + 1))
    case Subi(r, v) => Next(s.Set(r, Minus(s.Get(r), v)).Go(i + 1))
    case Jump(a) => Next(s.Go(IndexAt(p, a, 0).value))
    case Beqz(r, o) => Next(s.Go(if s.Get(r) == 0 then IndexAt(p, BranchTarget(p, i, o), 0).value else i + 1))
    case Halt => Stopped(s.memory)
  }

  function InterpretRun(p: Program, s: State, n: nat): Verdict
    requires WellTargeted(p) && s.index <= |p| && |s.memory| == 0x100
    decreases n
  {
    if n == 0 then Next(s) else
    match Interpret(p, s)
    case Next(t) => InterpretRun(p, t, n - 1)
    case end => end
  }

  /** The byte machine that stands at the start of instruction `s.index`. */
  function Concrete(p: Program, s: State): Machine
    requires s.index <= |p|
  {
    Machine([ToByte(Start(p, s.index)), s.r1, s.r2], s.memory)
  }

  function ConcreteVerdict(p: Program, v: Verdict): Outcome
    requires v.Next? ==> v.s.index <= |p|
  {
    match v
    case Next(s) => Running(Concrete(p, s))
    case Stopped(memory) => Halted(memory)
    case Fault(status) => Exit(status)
  }

  lemma SmallByte(x: int)
    requires 0 <= x <= 0x100
    ensures ToByte(x) == if x == 0x100 then 0 else x
  {
  }

  /** The bytes the machine fetches at an instruction are its encoding. */
  lemma Fetched(memory: seq<byte>, a: nat, code: seq<byte>, k: nat)
    requires |memory| == 0x100 && a >= 8 && CodeAt(memory, a, code) && k < |code|
    ensures a + k < 0x100 && Plus(a, k) == a + k && Fetch(memory, a + k) == Some(code[k])
  {
    SmallByte(a + k);
    assert memory[a..a + |code|][k] == memory[a + k];
  }

  lemma CodeIsThere(p: Program, memory: seq<byte>, i: nat)
    requires Fits(p) && Loaded(p, memory) && i < |p|
    ensures |memory| == 0x100 && CodeAt(memory, Start(p, i), Encode(p[i]))
  {
  }

  /** What one step of the machine comes to at an instruction. */
  lemma StepIs(p: Program, s: State)
    requires Fits(p) && Loaded(p, s.memory) && s.index < |p|
    ensures Start(p, s.index) < 0x100 == |s.memory|
    ensures var m, code := Concrete(p, s), Encode(p[s.index]);
            Step(m) == if |code| == 3 then Execute(m, code[0], code[1], code[2])
                       else if |code| == 2 then Running(m.(registers := m.registers[0 := code[1]]))
                       else Halted(s.memory)
  {
    hide Encode, Loaded, CodeAt, Fetch, Plus, ToByte, Execute, HasTwoOperands, Start;
    var code, a := Encode(p[s.index]), Start(p, s.index);
    CodeIsThere(p, s.memory, s.index);
    Fetched(s.memory, a, code, 0);
    if |code| > 1 {
      Fetched(s.memory, a, code, 1);
    }
    if |code| > 2 {
      Fetched(s.memory, a, code, 2);
    }
    SmallByte(a);
    CodeShape(p[s.index]);
  }

  lemma CodeShape(i: Instr)
    ensures var code := Encode(i);
            if |code| == 3 then HasTwoOperands(code[0])
            else !HasTwoOperands(code[0]) && code[0] == if |code| == 2 then JUMP else HALT
  {
  }

  /** A branch taken: the offset is added first and the instruction size after it, both modulo 256. */
  lemma BranchAdds(pc: byte, o: byte)
    ensures Plus(Plus(pc, o), 3) == ToByte(pc as int + o as int + 3)
  {
  }

  /** Storing at address 0 leaves the code alone. */
  lemma StillLoaded(p: Program, memory: seq<byte>, v: byte)
    requires Fits(p) && Loaded(p, memory)
    ensures Loaded(p, memory[0 := v])
  {
    hide Encode, Start;
    var now := memory[0 := v];
    forall i | 0 <= i < |p| ensures CodeAt(now, Start(p, i), Encode(p[i])) {
      var a, code := Start(p, i), Encode(p[i]);
      assert CodeAt(memory, a, code);
      assert now[a..a + |code|] == memory[a..a + |code|];
    }
  }

  lemma GetMatches(p: Program, s: State, r: Reg)
    requires s.index <= |p|
    ensures Concrete(p, s).registers[Number(r)] == s.Get(r)
  {
  }

  /** Setting a register and moving on by three bytes is setting it and moving on by one instruction. */
  lemma SetMatches(p: Program, s: State, r: Reg, v: byte)
    requires s.index < |p| && |s.memory| == 0x100 && Follows(p, s.index)
    ensures var m := Concrete(p, s);
            Advance(m.(registers := m.registers[Number(r) := v])) == Concrete(p, s.Set(r, v).Go(s.index + 1))
  {
    hide Start;
  }

  /** The next instruction starts three bytes further on. */
  ghost predicate Follows(p: Program, i: nat)
    requires i < |p|
  {
    Start(p, i) < 0x100 && Plus(ToByte(Start(p, i)), 3) == ToByte(Start(p, i + 1))
  }

  lemma ThreeByteInstructionFollows(p: Program, i: nat)
    requires i < |p| && |Encode(p[i])| == 3 && Start(p, i) < 0x100
    ensures Follows(p, i)
  {
    SmallByte(Start(p, i));
    assert Start(p, i + 1) == Start(p, i) + 3;
  }

  lemma BranchHasTarget(p: Program, i: nat)
    requires WellTargeted(p) && i < |p| && p[i].Beqz?
    ensures IndexAt(p, BranchTarget(p, i, p[i].offset), 0).Some?
  {
    hide Start, IndexAt, BranchTarget;
  }

  lemma BranchLands(p: Program, i: nat)
    requires WellTargeted(p) && i < |p| && p[i].Beqz? && Start(p, i) < 0x100
    ensures var target := IndexAt(p, BranchTarget(p, i, p[i].offset), 0);
            && target.Some? && target.value <= |p|
            && ToByte(Start(p, target.value)) == Plus(Plus(ToByte(Start(p, i)), p[i].offset), 3)
  {
    hide Start, Plus, ToByte, WellTargeted, IndexAt;
    BranchHasTarget(p, i);
    SmallByte(Start(p, i));
    BranchAdds(Start(p, i), p[i].offset);
  }

  lemma BranchMatches(p: Program, s: State)
    requires WellTargeted(p) && s.index < |p| && |s.memory| == 0x100 && Follows(p, s.index) && p[s.index].Beqz?
    ensures var v := Interpret(p, s);
            Execute(Concrete(p, s), BEQZ, Number(p[s.index].r), p[s.index].offset) == Running(Concrete(p, v.s))
  {
    hide Start, Plus, ToByte, WellTargeted, IndexAt, BranchTarget;
    BranchLands(p, s.index);
    GetMatches(p, s, p[s.index].r);
  }

  /** Instructions of three bytes: registers, memory and faults are what the interpreter says. */
  lemma ExecuteMatches(p: Program, s: State)
    requires WellTargeted(p) && s.index < |p| && |s.memory| == 0x100
    requires |Encode(p[s.index])| == 3 && Start(p, s.index) < 0x100
    ensures var code, v := Encode(p[s.index]), Interpret(p, s);
            Execute(Concrete(p, s), code[0], code[1], code[2]) == ConcreteVerdict(p, v)
  {
    var i := p[s.index];
    ThreeByteInstructionFollows(p, s.index);
    if i.Beqz? {
      BranchMatches(p, s);
      return;
    }
    GetMatches(p, s, i.r);
    if i.Add? || i.Sub? {
      GetMatches(p, s, i.s);
    }
    var t := if i.Store? then s.(memory := s.memory[0 := s.Get(i.r)]) else s;
    SetMatches(p, t, i.r,
      if i.Load? then s.memory[i.address] else if i.Store? then s.Get(i.r)
      else if i.Add? then Plus(s.Get(i.r), s.Get(i.s)) else if i.Sub? then Minus(s.Get(i.r), s.Get(i.s))
      else if i.Addi? then Plus(s.Get(i.r), i.value) else Minus(s.Get(i.r), i.value));
    hide Advance, Concrete, Follows, Start, Plus, Minus, WellTargeted;
  }

  /** Behind the last instruction the machine meets a zero byte, or address 0, and stops with a fault. */
  lemma EndMatches(p: Program, s: State)
    requires Fits(p) && Loaded(p, s.memory) && s.index == |p|
    ensures Step(Concrete(p, s)) == Exit(if Start(p, |p|) < 0x100 then ILLEGAL_OP_CODE else ILLEGAL_MEMORY_ACCESS)
  {
    hide Start, ToByte, Encode;
    var a := Start(p, |p|);
    assert a < 0x100 ==> s.memory[a] == 0;
    hide Loaded;
    SmallByte(a);
  }

  lemma InstructionMatches(p: Program, s: State)
    requires Fits(p) && WellTargeted(p) && Loaded(p, s.memory) && s.index < |p|
    ensures Step(Concrete(p, s)) == ConcreteVerdict(p, Interpret(p, s))
  {
    hide Step, Execute, Start, WellTargeted, ToByte, Loaded, Interpret, Encode, ConcreteVerdict, Concrete;
    StepIs(p, s);
    if |Encode(p[s.index])| == 3 {
      ExecuteMatches(p, s);
    } else {
      ShortMatches(p, s);
    }
  }

  /** Jumps and halts. */
  lemma ShortMatches(p: Program, s: State)
    requires WellTargeted(p) && s.index < |p| && |s.memory| == 0x100 && |Encode(p[s.index])| < 3
    ensures var m, code := Concrete(p, s), Encode(p[s.index]);
            ConcreteVerdict(p, Interpret(p, s)) ==
            if |code| == 2 then Running(m.(registers := m.registers[0 := code[1]])) else Halted(s.memory)
  {
    hide Start, WellTargeted, ToByte;
    assert p[s.index].Jump? || p[s.index].Halt?;
    if p[s.index].Jump? {
      JumpLands(p, s.index);
    }
  }

  lemma JumpLands(p: Program, i: nat)
    requires WellTargeted(p) && i < |p| && p[i].Jump?
    ensures IndexAt(p, p[i].target, 0).Some? && ToByte(Start(p, IndexAt(p, p[i].target, 0).value)) == p[i].target
  {
  }

  /** Only a store to address 0 changes memory. */
  lemma InterpretMemory(p: Program, s: State)
    requires WellTargeted(p) && s.index <= |p| && |s.memory| == 0x100
    ensures var v := Interpret(p, s);
            v.Next? ==> v.s.memory == if s.index < |p| && p[s.index].Store? then s.memory[0 := s.Get(p[s.index].r)]
                                      else s.memory
  {
    hide WellTargeted, Start, IndexAt, BranchTarget, Plus, Minus;
  }

  lemma InterpretKeepsCode(p: Program, s: State)
    requires Fits(p) && WellTargeted(p) && Loaded(p, s.memory) && s.index <= |p|
    ensures Interpret(p, s).Next? ==> Loaded(p, Interpret(p, s).s.memory)
  {
    hide Start, Interpret, WellTargeted, Fits, Encode;
    assert |s.memory| == 0x100;
    hide Loaded;
    InterpretMemory(p, s);
    if s.index < |p| && p[s.index].Store? {
      StillLoaded(p, s.memory, s.Get(p[s.index].r));
    }
  }

  /** Each step of the machine on the assembled bytes is one step of the interpreter on the instruction list,
      faults and halts included. */
  lemma StepMatches(p: Program, s: State)
    requires Fits(p) && WellTargeted(p) && Loaded(p, s.memory) && s.index <= |p|
    ensures var v := Interpret(p, s);
            && (v.Next? ==> v.s.index <= |p| && Loaded(p, v.s.memory))
            && Step(Concrete(p, s)) == ConcreteVerdict(p, v)
  {
    InterpretKeepsCode(p, s);
    if s.index == |p| {
      EndMatches(p, s);
    } else {
      InstructionMatches(p, s);
    }
    hide Loaded, Start, Step;
  }

  lemma StepAgrees(p: Program, s: State)
    requires Fits(p) && WellTargeted(p) && Loaded(p, s.memory) && s.index <= |p|
    ensures Agree(p, Step(Concrete(p, s)), Interpret(p, s))
    ensures Interpret(p, s).Next? ==> Loaded(p, Interpret(p, s).s.memory)
  {
    StepMatches(p, s);
    hide Loaded, Start, Step, Interpret;
  }

  /** The byte machine and the interpreter tell the same story. */
  ghost predicate Agree(p: Program, o: Outcome, v: Verdict) {
    (v.Next? ==> v.s.index <= |p|) && o == ConcreteVerdict(p, v)
  }

  lemma RunOneMore(p: Program, s: State, n: nat)
    requires WellTargeted(p) && s.index <= |p| && |s.memory| == 0x100 && n > 0
    requires Agree(p, Step(Concrete(p, s)), Interpret(p, s))
    ensures var v := Interpret(p, s);
            if v.Next? then
              && Run(Concrete(p, s), n) == Run(Concrete(p, v.s), n - 1)
              && InterpretRun(p, s, n) == InterpretRun(p, v.s, n - 1)
            else Agree(p, Run(Concrete(p, s), n), InterpretRun(p, s, n))
  {
    hide Step, Interpret, WellTargeted, Start;
  }

  /** Whole runs agree, of any length, whether they halt, fault or go on. */
  lemma {:induction false} RunMatches(p: Program, s: State, n: nat)
    requires Fits(p) && WellTargeted(p) && Loaded(p, s.memory) && s.index <= |p|
    ensures Agree(p, Run(Concrete(p, s), n), InterpretRun(p, s, n))
    decreases n
  {
    hide Step, Interpret, WellTargeted, Start, ToByte, Concrete;
    assert |s.memory| == 0x100;
    hide Loaded;
    if n == 0 {
      return;
    }
    hide Run, InterpretRun, Agree;
    StepAgrees(p, s);
    RunOneMore(p, s, n);
    if Interpret(p, s).Next? {
      RunMatches(p, Interpret(p, s).s, n - 1);
    }
  }

  /** Assembling a program and loading it at address 8 of a memory with any eight data bytes gives a machine
      that does what the instruction list says. */
  lemma AssembledProgramRuns(p: Program, data: seq<byte>, n: nat)
    requires p != [] && Fits(p) && WellTargeted(p) && |data| == 8
    ensures var code := AssembleLines(Split(TrimSpace(Text(p)), '\n'));
            && code == Some(Code(p)) && 8 + |Code(p)| == Start(p, |p|)
            && var memory := data + Code(p) + seq(0x100 - Start(p, |p|), _ => 0);
            && Agree(p, Run(Boot(memory), n), InterpretRun(p, State(0, 0, 0, memory), n))
  {
    TextAssembles(p);
    CodeIsAtStart(p, |p|);
    assert p[..|p|] == p;
    var memory := data + Code(p) + seq(0x100 - Start(p, |p|), _ => 0);
    LoadedByCopy(p, data, memory);
    RunMatches(p, State(0, 0, 0, memory), n);
  }

  lemma {:induction false} CodeConcat(p: Program, q: Program)
    ensures Code(p + q) == Code(p) + Code(q)
    decreases |p|
  {
    hide Encode;
    if p == [] {
      assert p + q == q;
    } else {
      assert (p + q)[1..] == p[1..] + q;
      CodeConcat(p[1..], q);
      assert Encode(p[0]) + (Code(p[1..]) + Code(q)) == Encode(p[0]) + Code(p[1..]) + Code(q);
    }
  }

  lemma {:induction false} CodeIsAtStart(p: Program, i: nat)
    requires i <= |p|
    ensures Start(p, i) == 8 + |Code(p[..i])|
    decreases i
  {
    hide Encode;
    if i > 0 {
      CodeIsAtStart(p, i - 1);
      assert p[..i] == p[..i - 1] + [p[i - 1]];
      CodeConcat(p[..i - 1], [p[i - 1]]);
      assert Code([p[i - 1]]) == Encode(p[i - 1]) + Code([]);
    }
  }

  lemma SlicePrepend(data: seq<byte>, front: seq<byte>, code: seq<byte>, rest: seq<byte>, fill: seq<byte>)
    ensures var memory, a := data + (front + (code + rest)) + fill, |data| + |front|;
            a + |code| <= |memory| && memory[a..a + |code|] == code
  {
  }

  lemma LoadedByCopy(p: Program, data: seq<byte>, memory: seq<byte>)
    requires Fits(p) && |data| == 8 && Start(p, |p|) == 8 + |Code(p)|
    requires memory == data + Code(p) + seq(0x100 - Start(p, |p|), _ => 0)
    ensures Loaded(p, memory)
  {
    hide Encode, Start, Code;
    forall i | 0 <= i < |p| ensures CodeAt(memory, Start(p, i), Encode(p[i])) {
      CodeIsAtStart(p, i);
      CodeAround(p, i);
      SlicePrepend(data, Code(p[..i]), Encode(p[i]), Code(p[i + 1..]), seq(0x100 - Start(p, |p|), _ => 0));
    }
  }

  lemma CodeAround(p: Program, i: nat)
    requires i < |p|
    ensures Code(p) == Code(p[..i]) + (Encode(p[i]) + Code(p[i + 1..]))
  {
    hide Encode;
    var front, back := p[..i], p[i..];
    assert p == front + back && back[0] == p[i] && back[1..] == p[i + 1..];
    CodeConcat(front, back);
  }
}
