/** The byte machine: 256 bytes of memory, a program counter held as register 0, and two registers. */
module Vm {
  import opened Options
  import opened Bytes
  import opened Pigeonholes

  const LOAD: byte := 0x01
  const STORE: byte := 0x02
  const ADD: byte := 0x03
  const SUB: byte := 0x04
  const ADDI: byte := 0x05
  const SUBI: byte := 0x06
  const JUMP: byte := 0x07
  const BEQZ: byte := 0x08
  const HALT: byte := 0xff

  const OP_CODE_START: byte := 8
  const ILLEGAL_MEMORY_ACCESS: int := -1
  const ILLEGAL_OP_CODE: int := -2

  datatype Machine = Machine(registers: seq<byte>, memory: seq<byte>) {
    predicate Valid() {
      |registers| == 3 && |memory| == 0x100
    }
  }

  /** Between two rounds of the loop, or how the run ended: `Exit` leaves the process with a status, `Panic` is a
      register number out of range. */
  datatype Outcome = Running(m: Machine) | Halted(memory: seq<byte>) | Exit(status: int) | Panic

  /** Reading code: the data segment is off limits. */
  function Fetch(memory: seq<byte>, address: byte): Option<byte>
    requires |memory| == 0x100
  {
    if address < OP_CODE_START then None else Some(memory[address])
  }

  function Advance(m: Machine): Machine
    requires m.Valid()
  {
    m.(registers := m.registers[0 := Plus(m.registers[0], 3)])
  }

  /** An instruction with two operands, once both have been read. */
  function Execute(m: Machine, op: byte, a: byte, b: byte): (o: Outcome)
    requires m.Valid()
    ensures o.Running? ==> o.m.Valid()
  {
    var r := m.registers;
    if a >= 3 then Panic
    else if op == LOAD then Running(Advance(m.(registers := r[a := m.memory[b]])))
    else if op == STORE then
      if b != 0 then Exit(ILLEGAL_MEMORY_ACCESS) else Running(Advance(m.(memory := m.memory[0 := r[a]])))
    else if op == ADD then
      if b >= 3 then Panic else Running(Advance(m.(registers := r[a := Plus(r[a], r[b])])))
    else if op == SUB then
      if b >= 3 then Panic else Running(Advance(m.(registers := r[a := Minus(r[a], r[b])])))
    else if op == ADDI then Running(Advance(m.(registers := r[a := Plus(r[a], b)])))
    else if op == SUBI then Running(Advance(m.(registers := r[a := Minus(r[a], b)])))
    else if op == BEQZ then
      Running(Advance(if r[a] == 0 then m.(registers := r[0 := Plus(r[0], b)]) else m))
    else Exit(ILLEGAL_OP_CODE)
  }

  // What each instruction does, by its number and in integers modulo 256.

  /** Memory and the other register stay, and the program counter moves on by three. */
  ghost predicate Elsewhere(m: Machine, n: Machine, a: byte)
    requires m.Valid() && 1 <= a <= 2
  {
    n.Valid() && n.memory == m.memory && n.registers[3 - a] == m.registers[3 - a]
    && n.registers[0] == (m.registers[0] as int + 3) % 0x100
  }

  lemma AddIsModular(m: Machine, a: byte, b: byte)
    requires m.Valid() && 1 <= a <= 2 && b < 3
    ensures var o := Execute(m, 3, a, b);
            o.Running? && o.m.registers[a] == (m.registers[a] as int + m.registers[b] as int) % 0x100
            && Elsewhere(m, o.m, a)
  {
  }

  lemma SubIsModular(m: Machine, a: byte, b: byte)
    requires m.Valid() && 1 <= a <= 2 && b < 3
    ensures var o := Execute(m, 4, a, b);
            o.Running? && (o.m.registers[a] as int + m.registers[b] as int) % 0x100 == m.registers[a]
            && Elsewhere(m, o.m, a)
  {
  }

  lemma AddiIsModular(m: Machine, a: byte, b: byte)
    requires m.Valid() && 1 <= a <= 2
    ensures var o := Execute(m, 5, a, b);
            o.Running? && o.m.registers[a] == (m.registers[a] as int + b as int) % 0x100 && Elsewhere(m, o.m, a)
  {
  }

  lemma SubiIsModular(m: Machine, a: byte, b: byte)
    requires m.Valid() && 1 <= a <= 2
    ensures var o := Execute(m, 6, a, b);
            o.Running? && (o.m.registers[a] as int + b as int) % 0x100 == m.registers[a] && Elsewhere(m, o.m, a)
  {
  }

  lemma LoadCopies(m: Machine, a: byte, b: byte)
    requires m.Valid() && 1 <= a <= 2
    ensures var o := Execute(m, 1, a, b); o.Running? && o.m.registers[a] == m.memory[b] && Elsewhere(m, o.m, a)
  {
  }

  lemma StoreWritesZero(m: Machine, a: byte, b: byte)
    requires m.Valid() && 1 <= a <= 2
    ensures var o := Execute(m, 2, a, b);
            if b != 0 then o == Exit(-1)
            else o.Running? && o.m == Machine([(m.registers[0] as int + 3) % 0x100] + m.registers[1..],
                                              [m.registers[a]] + m.memory[1..])
  {
  }

  lemma BeqzMoves(m: Machine, a: byte, b: byte)
    requires m.Valid() && 1 <= a <= 2
    ensures var o := Execute(m, 8, a, b);
            o.Running? && o.m.memory == m.memory && o.m.registers[1..] == m.registers[1..] &&
            o.m.registers[0] == (m.registers[0] as int + 3 + if m.registers[a] == 0 then b as int else 0) % 0x100
  {
  }

  predicate HasTwoOperands(op: byte) {
    LOAD <= op <= SUBI || op == BEQZ
  }

  /** One round of the loop. */
  function Step(m: Machine): (o: Outcome)
    requires m.Valid()
    ensures o.Running? ==> o.m.Valid()
  {
    var pc := m.registers[0];
    match Fetch(m.memory, pc)
    case None => Exit(ILLEGAL_MEMORY_ACCESS)
    case Some(op) =>
      if HasTwoOperands(op) then
        match (Fetch(m.memory, Plus(pc, 1)), Fetch(m.memory, Plus(pc, 2)))
        case (Some(a), Some(b)) => Execute(m, op, a, b)
        case _ => Exit(ILLEGAL_MEMORY_ACCESS)
      else if op == JUMP then
        match Fetch(m.memory, Plus(pc, 1))
        case Some(a) => Running(m.(registers := m.registers[0 := a]))
        case None => Exit(ILLEGAL_MEMORY_ACCESS)
      else if op == HALT then Halted(m.memory)
      else Exit(ILLEGAL_OP_CODE)
  }

  /** Which byte is which instruction: faults and halts, */
  lemma StopsByNumber(m: Machine)
    requires m.Valid()
    ensures var pc := m.registers[0];
            && (pc < 8 ==> Step(m) == Exit(-1))
            && (pc >= 8 && m.memory[pc] == 255 ==> Step(m) == Halted(m.memory))
            && (pc >= 8 && m.memory[pc] !in [1, 2, 3, 4, 5, 6, 7, 8, 255] ==> Step(m) == Exit(-2))
  {
    hide Execute, Plus;
  }

  /** jumps, */
  lemma JumpGoes(m: Machine)
    requires m.Valid() && m.registers[0] >= 8 && m.memory[m.registers[0]] == 7
    ensures var pc := m.registers[0];
            Step(m) == if pc == 255 then Exit(-1)
                       else Running(Machine([m.memory[pc + 1]] + m.registers[1..], m.memory))
  {
    hide Execute;
  }

  /** and instructions with two operands, which end the run when they reach beyond the memory. */
  lemma OperandsFollow(m: Machine)
    requires m.Valid() && m.registers[0] >= 8 && m.memory[m.registers[0]] in [1, 2, 3, 4, 5, 6, 8]
    ensures var pc := m.registers[0];
            Step(m) == if pc >= 254 then Exit(-1)
                       else Execute(m, m.memory[pc], m.memory[pc + 1], m.memory[pc + 2])
  {
    hide Execute;
  }

  /** At most `n` rounds. */
  function Run(m: Machine, n: nat): (o: Outcome)
    requires m.Valid()
    ensures o.Running? ==> o.m.Valid()
    decreases n
  {
    if n == 0 then Running(m) else
    match Step(m)
    case Running(next) => Run(next, n - 1)
    case end => end
  }

  function Boot(memory: seq<byte>): Machine {
    Machine([8, 0, 0], memory)
  }

  /** An instruction with two operands, carried out on registers and memory in place, or how it ends the run. */
  method ExecuteInPlace(registers: array<byte>, memory: array<byte>, op: byte, a: byte, b: byte)
    returns (stop: Option<Outcome>)
    requires registers.Length == 3 && memory.Length == 0x100 && HasTwoOperands(op)
    modifies registers, memory
    ensures var o := Execute(Machine(old(registers[..]), old(memory[..])), op, a, b);
            if o.Running? then stop == None && Machine(registers[..], memory[..]) == o.m
            else stop == Some(o) && !o.Halted?
  {
    if a >= 3 || ((op == ADD || op == SUB) && b >= 3) {
      return Some(Panic);
    }
    if op == LOAD {
      registers[a] := memory[b];
    } else if op == STORE {
      if b != 0 {
        return Some(Exit(ILLEGAL_MEMORY_ACCESS));
      }
      memory[b] := registers[a];
    } else if op == ADD {
      registers[a] := Plus(registers[a], registers[b]);
    } else if op == SUB {
      registers[a] := Minus(registers[a], registers[b]);
    } else if op == ADDI {
      registers[a] := Plus(registers[a], b);
    } else if op == SUBI {
      registers[a] := Minus(registers[a], b);
    } else if registers[a] == 0 {
      registers[0] := Plus(registers[0], b);
    }
    registers[0] := Plus(registers[0], 3);
    return None;
  }

  /** The loop of `compute`, for at most `fuel` rounds: registers and memory change in place. */
  method Compute(memory: array<byte>, fuel: nat) returns (o: Outcome)
    requires memory.Length == 0x100
    modifies memory
    ensures o == Run(Boot(old(memory[..])), fuel)
    ensures o.Running? ==> memory[..] == o.m.memory
    ensures o.Halted? ==> memory[..] == o.memory
  {
    hide Execute, Plus;
    var registers := new byte[3] [8, 0, 0];
    ghost var start := Boot(memory[..]);
    assert registers[..] == [8, 0, 0];
    var left: nat := fuel;
    while left > 0
      invariant left <= fuel
      invariant Run(start, fuel) == Run(Machine(registers[..], memory[..]), left)
    {
      ghost var m := Machine(registers[..], memory[..]);
      var pc := registers[0];
      left := left - 1;
      if pc < OP_CODE_START {
        return Exit(ILLEGAL_MEMORY_ACCESS);
      }
      var op := memory[pc];
      if HasTwoOperands(op) {
        if Plus(pc, 1) < OP_CODE_START || Plus(pc, 2) < OP_CODE_START {
          return Exit(ILLEGAL_MEMORY_ACCESS);
        }
        var stop := ExecuteInPlace(registers, memory, op, memory[Plus(pc, 1)], memory[Plus(pc, 2)]);
        if stop.Some? {
          return stop.value;
        }
      } else if op == JUMP {
        if Plus(pc, 1) < OP_CODE_START {
          return Exit(ILLEGAL_MEMORY_ACCESS);
        }
        registers[0] := memory[Plus(pc, 1)];
      } else if op == HALT {
        return Halted(memory[..]);
      } else {
        return Exit(ILLEGAL_OP_CODE);
      }
      assert Step(m) == Running(Machine(registers[..], memory[..]));
    }
    o := Running(Machine(registers[..], memory[..]));
  }

  // ---------------------------------------------------------------- what a run cannot change

  /** One round changes no memory byte but address 0, and its opcode comes from the code segment. */
  lemma StepFrame(m: Machine)
    requires m.Valid()
    ensures Step(m).Running? ==> Step(m).m.memory[1..] == m.memory[1..]
    ensures Step(m).Halted? ==> Step(m).memory == m.memory
    ensures m.registers[0] < OP_CODE_START ==> Step(m) == Exit(ILLEGAL_MEMORY_ACCESS)
  {
  }

  lemma {:induction false} RunFrame(m: Machine, n: nat)
    requires m.Valid()
    ensures Run(m, n).Running? ==> Run(m, n).m.memory[1..] == m.memory[1..]
    ensures Run(m, n).Halted? ==> |Run(m, n).memory| == 0x100 && Run(m, n).memory[1..] == m.memory[1..]
    decreases n
  {
    if n > 0 {
      StepFrame(m);
      if Step(m).Running? {
        RunFrame(Step(m).m, n - 1);
      }
    }
  }

  lemma {:induction false} RunAdds(m: Machine, a: nat, b: nat)
    requires m.Valid()
    ensures Run(m, a + b) == if Run(m, a).Running? then Run(Run(m, a).m, b) else Run(m, a)
    decreases a
  {
    if a > 0 && Step(m).Running? {
      RunAdds(Step(m).m, a - 1, b);
    }
  }

  // ---------------------------------------------------------------- every run ends soon or never

  const STATES: nat := 0x1_0000_0000

  /** The three registers and the byte at address 0, as one number. */
  function StateNumber(m: Machine): (k: nat)
    requires m.Valid()
    ensures k < STATES
  {
    var r := m.registers;
    r[0] as int + 0x100 * (r[1] as int + 0x100 * (r[2] as int + 0x100 * m.memory[0] as int))
  }

  lemma SameDigits(a: byte, b: byte, c: byte, d: byte, e: byte, f: byte, g: byte, h: byte)
    requires a as int + 0x100 * (b as int + 0x100 * (c as int + 0x100 * d as int)) ==
             e as int + 0x100 * (f as int + 0x100 * (g as int + 0x100 * h as int))
    ensures a == e && b == f && c == g && d == h
  {
  }

  lemma SameNumberSameMachine(m: Machine, n: Machine)
    requires m.Valid() && n.Valid() && m.memory[1..] == n.memory[1..] && StateNumber(m) == StateNumber(n)
    ensures m == n
  {
    SameDigits(m.registers[0], m.registers[1], m.registers[2], m.memory[0],
      n.registers[0], n.registers[1], n.registers[2], n.memory[0]);
    hide StateNumber;
    assert m.registers == [m.registers[0], m.registers[1], m.registers[2]];
    assert n.registers == [n.registers[0], n.registers[1], n.registers[2]];
    assert m.memory == [m.memory[0]] + m.memory[1..];
    assert n.memory == [n.memory[0]] + n.memory[1..];
  }

  /** Once a state comes back, the run never ends. */
  lemma {:induction false} CycleRunsForever(m: Machine, i: nat, j: nat, k: nat)
    requires m.Valid() && i < j && Run(m, j).Running? && Run(m, i) == Run(m, j)
    ensures Run(m, k).Running?
    decreases k
  {
    if k <= j {
      RunAdds(m, k, j - k);
    } else {
      RunAdds(m, i, k - j);
      RunAdds(m, j, k - j);
      CycleRunsForever(m, i, j, i + k - j);
    }
  }

  /** A run that has not ended after as many rounds as there are states never ends, so `compute` with that much
      fuel answers for every run whether and how it ends. */
  lemma EndsSoonOrNever(m: Machine, k: nat)
    requires m.Valid() && Run(m, STATES).Running?
    ensures Run(m, k).Running?
  {
    hide Run, StateNumber;
    forall i: nat | i <= STATES ensures Run(m, i).Running? {
      RunAdds(m, i, STATES - i);
    }
    var numbers := seq(STATES + 1, i requires 0 <= i <= STATES => StateNumber(Run(m, i).m));
    Pigeonhole(numbers, STATES);
    var i, j :| 0 <= i < j < |numbers| && numbers[i] == numbers[j];
    RunFrame(m, i);
    RunFrame(m, j);
    SameNumberSameMachine(Run(m, i).m, Run(m, j).m);
    CycleRunsForever(m, i, j, k);
  }

  /** However long a run is watched, its verdict is the one it has after that many rounds. */
  lemma FuelDecides(m: Machine, k: nat)
    requires m.Valid() && k >= STATES
    ensures Run(m, k) == Run(m, STATES) || (Run(m, k).Running? && Run(m, STATES).Running?)
  {
    hide Run;
    if Run(m, STATES).Running? {
      EndsSoonOrNever(m, k);
    } else {
      RunAdds(m, STATES, k - STATES);
    }
  }
}
