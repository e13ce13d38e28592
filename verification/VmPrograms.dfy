/** The programs that come with the byte machine, from their text to what they leave at address 0. */
module VmPrograms {
  import opened Options
  import opened Bytes
  import opened Decimal
  import opened Splitting
  import opened Vm
  import opened Assembler

  /** The memory a program is started on: eight data bytes, of which the machine reads the first three here, the code,
      and zeros. */
  function Image(z: byte, x: byte, y: byte, code: seq<byte>): seq<byte>
    requires |code| <= 248
  {
    [z, x, y, 0, 0, 0, 0, 0] + code + seq(248 - |code|, _ => 0)
  }

  /** The lines, between two line breaks, assemble to the code, and the code, started with `x` at 1 and `y` at 2, halts
      with `result` at 0. */
  ghost predicate Computes(lines: seq<string>, code: seq<byte>, z: byte, x: byte, y: byte, result: int) {
    && lines != [] && |code| <= 248
    && AssembleLines(Split(TrimSpace("\n" + Join(lines, '\n') + "\n"), '\n')) == Some(code)
    && exists n :: HaltsWith(Run(Boot(Image(z, x, y, code)), n), result)
  }

  ghost predicate HaltsWith(o: Outcome, result: int) {
    o.Halted? && |o.memory| == 0x100 && o.memory[0] == result
  }

  // ---------------------------------------------------------------- the lines

  lemma ThreeWords(i: Instr, a: string, b: string, c: string, line: string)
    requires Words(i) == [a, b, c] && line == a + " " + b + " " + c
    ensures Line(i) == line
  {
    JoinThree(a, b, c);
  }

  lemma TwoWords(i: Instr, a: string, b: string, line: string)
    requires Words(i) == [a, b] && line == a + " " + b
    ensures Line(i) == line
  {
    JoinTwo(a, b);
  }

  lemma JoinTwo(a: string, b: string)
    ensures Join([a, b], ' ') == a + " " + b
  {
    assert [a, b][1..] == [b];
  }

  lemma JoinThree(a: string, b: string, c: string)
    ensures Join([a, b, c], ' ') == a + " " + b + " " + c
  {
    assert [a, b, c][1..] == [b, c];
    JoinTwo(b, c);
    assert a + " " + (b + " " + c) == a + " " + b + " " + c;
  }

  lemma LoadR1()
    ensures Line(Load(R1, 1)) == "load r1 1"
  {
    assert Itoa(1) == "1";
    ThreeWords(Load(R1, 1), "load", "r1", "1", "load r1 1");
  }

  lemma LoadR2()
    ensures Line(Load(R2, 2)) == "load r2 2"
  {
    assert Itoa(2) == "2";
    ThreeWords(Load(R2, 2), "load", "r2", "2", "load r2 2");
  }

  lemma StoreR1()
    ensures Line(Store(R1, 0)) == "store r1 0"
  {
    assert Itoa(0) == "0";
    ThreeWords(Store(R1, 0), "store", "r1", "0", "store r1 0");
  }

  lemma StoreR2()
    ensures Line(Store(R2, 0)) == "store r2 0"
  {
    assert Itoa(0) == "0";
    ThreeWords(Store(R2, 0), "store", "r2", "0", "store r2 0");
  }

  lemma SubR1R2()
    ensures Line(Sub(R1, R2)) == "sub r1 r2"
  {
    ThreeWords(Sub(R1, R2), "sub", "r1", "r2", "sub r1 r2");
  }

  lemma AddR2R1()
    ensures Line(Add(R2, R1)) == "add r2 r1"
  {
    ThreeWords(Add(R2, R1), "add", "r2", "r1", "add r2 r1");
  }

  lemma SubiR1()
    ensures Line(Subi(R1, 1)) == "subi r1 1"
  {
    assert Itoa(1) == "1";
    ThreeWords(Subi(R1, 1), "subi", "r1", "1", "subi r1 1");
  }

  lemma BeqzR1()
    ensures Line(Beqz(R1, 8)) == "beqz r1 8"
  {
    assert Itoa(8) == "8";
    ThreeWords(Beqz(R1, 8), "beqz", "r1", "8", "beqz r1 8");
  }

  lemma JumpBack()
    ensures Line(Jump(11)) == "jump 11"
  {
    assert Itoa(11) == "11";
    TwoWords(Jump(11), "jump", "11", "jump 11");
  }

  lemma HaltLine()
    ensures Line(Halt) == "halt"
  {
  }

  // ---------------------------------------------------------------- from the interpreter to the machine

  lemma CodeFront(i: Instr, p: Program)
    ensures Code([i] + p) == Encode(i) + Code(p)
  {
    assert ([i] + p)[1..] == p;
  }

  lemma {:induction false} StartsGrow(p: Program, i: nat, k: nat)
    requires i < k <= |p|
    ensures Start(p, i) < Start(p, k)
    decreases k
  {
    hide Encode;
    if i < k - 1 {
      StartsGrow(p, i, k - 1);
    }
  }

  /** An address where an instruction starts leads to that instruction. */
  lemma {:induction false} LandsAt(p: Program, i: nat, k: nat)
    requires i <= k <= |p| && Start(p, k) < 0x100
    ensures IndexAt(p, Start(p, k), i) == Some(k)
    decreases k - i
  {
    hide Start;
    if i < k {
      StartsGrow(p, i, k);
      LandsAt(p, i + 1, k);
    }
  }

  /** What the interpreter makes of the instructions is what their text computes. */
  lemma TextComputes(p: Program, lines: seq<string>, code: seq<byte>, z: byte, x: byte, y: byte, n: nat,
                     memory: seq<byte>, result: int)
    requires p != [] && Fits(p) && WellTargeted(p) && Lines(p) == lines && Code(p) == code && |code| <= 248
    requires InterpretRun(p, State(0, 0, 0, Image(z, x, y, code)), n) == Stopped(memory)
    requires |memory| == 0x100 && memory[0] == result
    ensures Computes(lines, code, z, x, y, result)
  {
    hide Code, Run, InterpretRun, TrimSpace, Split, Join, AssembleLines, WellTargeted, Image;
    LooseTextAssembles("\n", p, "\n");
    AssembledProgramRuns(p, [z, x, y, 0, 0, 0, 0, 0], n);
    ImageIs(p, z, x, y);
    assert HaltsWith(Run(Boot(Image(z, x, y, code)), n), result);
  }

  lemma ImageIs(p: Program, z: byte, x: byte, y: byte)
    requires Fits(p) && 8 + |Code(p)| == Start(p, |p|)
    ensures Image(z, x, y, Code(p)) == [z, x, y, 0, 0, 0, 0, 0] + Code(p) + seq(0x100 - Start(p, |p|), _ => 0)
  {
    hide Code, Start;
  }

  // ---------------------------------------------------------------- the difference of two bytes

  const DIFFERENCE: seq<byte> := [1, 1, 1, 1, 2, 2, 4, 1, 2, 2, 1, 0, 255]

  function Difference(): Program {
    [Load(R1, 1), Load(R2, 2), Sub(R1, R2), Store(R1, 0), Halt]
  }

  lemma DifferenceSpelled()
    ensures Lines(Difference()) == ["load r1 1", "load r2 2", "sub r1 r2", "store r1 0", "halt"]
    ensures Code(Difference()) == DIFFERENCE
  {
    LoadR1();
    LoadR2();
    SubR1R2();
    StoreR1();
    HaltLine();
    hide Line;
    CodeFront(Load(R1, 1), [Load(R2, 2), Sub(R1, R2), Store(R1, 0), Halt]);
    CodeFront(Load(R2, 2), [Sub(R1, R2), Store(R1, 0), Halt]);
    CodeFront(Sub(R1, R2), [Store(R1, 0), Halt]);
    CodeFront(Store(R1, 0), [Halt]);
    CodeFront(Halt, []);
  }

  /** One round of the interpreter in front of the others. */
  lemma Round(p: Program, s: State, t: State, n: nat)
    requires WellTargeted(p) && s.index <= |p| && |s.memory| == 0x100 && n > 0 && Interpret(p, s) == Next(t)
    ensures InterpretRun(p, s, n) == InterpretRun(p, t, n - 1)
  {
    hide Interpret, WellTargeted;
  }

  lemma LastRound(p: Program, s: State, n: nat)
    requires WellTargeted(p) && s.index <= |p| && |s.memory| == 0x100 && n > 0 && Interpret(p, s).Stopped?
    ensures InterpretRun(p, s, n) == Interpret(p, s)
  {
    hide Interpret, WellTargeted;
  }

  lemma DifferenceRuns(z: byte, x: byte, y: byte)
    ensures Fits(Difference()) && WellTargeted(Difference())
    ensures var m := Image(z, x, y, DIFFERENCE);
            InterpretRun(Difference(), State(0, 0, 0, m), 5) == Stopped(m[0 := (x as int - y as int) % 0x100])
  {
    var p, m := Difference(), Image(z, x, y, DIFFERENCE);
    var r: byte := (x as int - y as int) % 0x100;
    assert Start(p, 1) == 11 && Start(p, 2) == 14 && Start(p, 3) == 17 && Start(p, 4) == 20;
    hide Start, InterpretRun;
    Round(p, State(0, 0, 0, m), State(1, x, 0, m), 5);
    Round(p, State(1, x, 0, m), State(2, x, y, m), 4);
    Round(p, State(2, x, y, m), State(3, r, y, m), 3);
    Round(p, State(3, r, y, m), State(4, r, y, m[0 := r]), 2);
    LastRound(p, State(4, r, y, m[0 := r]), 1);
  }

  /** For any two bytes, and whatever was at 0 before. */
  lemma DifferenceComputes(z: byte, x: byte, y: byte)
    ensures Computes(["load r1 1", "load r2 2", "sub r1 r2", "store r1 0", "halt"],
      [1, 1, 1, 1, 2, 2, 4, 1, 2, 2, 1, 0, 255], z, x, y, (x as int - y as int) % 0x100)
  {
    var lines := ["load r1 1", "load r2 2", "sub r1 r2", "store r1 0", "halt"];
    var m, result := Image(z, x, y, DIFFERENCE), (x as int - y as int) % 0x100;
    DifferenceSpelled();
    DifferenceRuns(z, x, y);
    hide Computes, Fits, WellTargeted, InterpretRun, Lines, Code;
    TextComputes(Difference(), lines, DIFFERENCE, z, x, y, 5, m[0 := result], result);
  }

  // ---------------------------------------------------------------- the sum of the numbers up to a byte

  const SUM: seq<byte> := [1, 1, 1, 8, 1, 8, 3, 2, 1, 6, 1, 1, 7, 11, 2, 2, 0, 255]

  function SumTo(): Program {
    [Load(R1, 1), Beqz(R1, 8), Add(R2, R1), Subi(R1, 1), Jump(11), Store(R2, 0), Halt]
  }

  lemma SumToSpelled()
    ensures Lines(SumTo()) ==
            ["load r1 1", "beqz r1 8", "add r2 r1", "subi r1 1", "jump 11", "store r2 0", "halt"]
    ensures Code(SumTo()) == SUM
  {
    LoadR1();
    BeqzR1();
    AddR2R1();
    SubiR1();
    JumpBack();
    StoreR2();
    HaltLine();
    hide Line;
    CodeFront(Load(R1, 1), [Beqz(R1, 8), Add(R2, R1), Subi(R1, 1), Jump(11), Store(R2, 0), Halt]);
    CodeFront(Beqz(R1, 8), [Add(R2, R1), Subi(R1, 1), Jump(11), Store(R2, 0), Halt]);
    CodeFront(Add(R2, R1), [Subi(R1, 1), Jump(11), Store(R2, 0), Halt]);
    CodeFront(Subi(R1, 1), [Jump(11), Store(R2, 0), Halt]);
    CodeFront(Jump(11), [Store(R2, 0), Halt]);
    CodeFront(Store(R2, 0), [Halt]);
    CodeFront(Halt, []);
  }

  /** The program fits, the jump leads back to the test, and the branch to the store. */
  lemma SumToTargets()
    ensures Fits(SumTo()) && WellTargeted(SumTo())
    ensures IndexAt(SumTo(), 11, 0) == Some(1) && IndexAt(SumTo(), BranchTarget(SumTo(), 1, 8), 0) == Some(5)
  {
    var p := SumTo();
    assert Start(p, 1) == 11 && Start(p, 2) == 14 && Start(p, 3) == 17 && Start(p, 4) == 20;
    assert Start(p, 5) == 22 && Start(p, 6) == 25 && Start(p, 7) == 26;
    LandsAt(p, 0, 1);
    LandsAt(p, 0, 5);
    hide Start, IndexAt;
    assert BranchTarget(p, 1, 8) == 22;
  }

  /** 1 + 2 + ... + n. */
  function Triangle(n: nat): nat {
    if n == 0 then 0 else n + Triangle(n - 1)
  }

  lemma {:induction false} TriangleIs(n: nat)
    ensures Triangle(n) == n * (n + 1) / 2
  {
    if n > 0 {
      TriangleIs(n - 1);
      assert n * (n + 1) == (n - 1) * n + 2 * n;
    }
  }

  /** At most `n` rounds of the program. */
  ghost function Runs(index: nat, r1: byte, r2: byte, m: seq<byte>, n: nat): Verdict
    requires index <= 7 && |m| == 0x100
  {
    SumToTargets();
    InterpretRun(SumTo(), State(index, r1, r2, m), n)
  }

  lemma Straight(index: nat, x: byte, y: byte, m: seq<byte>, n: nat)
    requires index <= 7 && |m| == 0x100
    ensures index == 0 ==> Runs(0, x, y, m, n + 1) == Runs(1, m[1], y, m, n)
    ensures index == 1 ==> Runs(1, x, y, m, n + 1) == Runs(if x == 0 then 5 else 2, x, y, m, n)
    ensures index == 2 ==> Runs(2, x, y, m, n + 1) == Runs(3, x, (y as int + x as int) % 0x100, m, n)
    ensures index == 3 ==> Runs(3, x, y, m, n + 1) == Runs(4, (x as int - 1) % 0x100, y, m, n)
    ensures index == 4 ==> Runs(4, x, y, m, n + 1) == Runs(1, x, y, m, n)
    ensures index == 5 ==> Runs(5, x, y, m, n + 1) == Runs(6, x, y, m[0 := y], n)
    ensures index == 6 ==> Runs(6, x, y, m, n + 1) == Stopped(m)
  {
    SumToTargets();
    hide WellTargeted, IndexAt, BranchTarget, Start;
  }

  /** Once around the loop. */
  lemma OnceAround(x: byte, y: byte, m: seq<byte>)
    requires |m| == 0x100 && x > 0
    ensures Runs(1, x, y, m, 4 * x + 3) == Runs(1, x - 1, (y as int + x as int) % 0x100, m, 4 * (x - 1) + 3)
  {
    hide Runs;
    var sum: byte := (y as int + x as int) % 0x100;
    Straight(1, x, y, m, 4 * x + 2);
    Straight(2, x, y, m, 4 * x + 1);
    Straight(3, x, sum, m, 4 * x);
    Straight(4, x - 1, sum, m, 4 * x - 1);
  }

  lemma TriangleGrows(x: byte, y: byte)
    requires x > 0
    ensures ((y as int + x as int) % 0x100 + Triangle(x - 1)) % 0x100 == (y as int + Triangle(x)) % 0x100
  {
  }

  /** From the test at the head of the loop, with `x` to go and `y` summed up already. */
  lemma {:induction false} LoopSums(x: byte, y: byte, m: seq<byte>)
    requires |m| == 0x100
    ensures Runs(1, x, y, m, 4 * x + 3) == Stopped(m[0 := (y as int + Triangle(x)) % 0x100])
    decreases x
  {
    hide Runs;
    if x == 0 {
      Straight(1, x, y, m, 2);
      Straight(5, x, y, m, 1);
      Straight(6, x, y, m[0 := y], 0);
    } else {
      OnceAround(x, y, m);
      TriangleGrows(x, y);
      hide Triangle;
      LoopSums(x - 1, (y as int + x as int) % 0x100, m);
    }
  }

  /** For any byte, and whatever was at 0 and 2 before. */
  lemma SumToComputes(z: byte, x: byte, y: byte)
    ensures Computes(["load r1 1", "beqz r1 8", "add r2 r1", "subi r1 1", "jump 11", "store r2 0", "halt"],
      [1, 1, 1, 8, 1, 8, 3, 2, 1, 6, 1, 1, 7, 11, 2, 2, 0, 255], z, x, y, (x as int * (x as int + 1) / 2) % 0x100)
  {
    var r: byte := (x as int * (x as int + 1) / 2) % 0x100;
    SumToSpelled();
    SumToHalts(z, x, y, r);
    hide Computes, Fits, WellTargeted, InterpretRun, Lines, Code, SumTo, Image;
    TextComputes(SumTo(), Lines(SumTo()), SUM, z, x, y, 4 * x + 4, Image(z, x, y, SUM)[0 := r], r);
  }

  lemma SumToHalts(z: byte, x: byte, y: byte, r: byte)
    requires r == (x as int * (x as int + 1) / 2) % 0x100
    ensures |SUM| == 18 && SumTo() != [] && Fits(SumTo()) && WellTargeted(SumTo())
    ensures var m := Image(z, x, y, SUM);
            |m| == 0x100 && InterpretRun(SumTo(), State(0, 0, 0, m), 4 * x + 4) == Stopped(m[0 := r])
  {
    SumToTargets();
    SumToEnds(z, x, y);
    hide Image, Fits, WellTargeted, InterpretRun;
  }

  lemma SumToEnds(z: byte, x: byte, y: byte)
    ensures var m := Image(z, x, y, SUM);
            && |m| == 0x100
            && Runs(0, 0, 0, m, 4 * x + 4) == Stopped(m[0 := (x as int * (x as int + 1) / 2) % 0x100])
  {
    hide Runs;
    var m := Image(z, x, y, SUM);
    assert m[1] == x;
    hide Image;
    Straight(0, 0, 0, m, 4 * x + 3);
    LoopSums(x, 0, m);
    TriangleIs(x);
  }
}
