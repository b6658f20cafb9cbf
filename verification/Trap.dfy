/** Division by trap and emulation on a CPU without a divider: the register save and restore of crt0-vexriscv.S,
    the dispatch of base.c and the emulation of instruction_handler.cc. */
module Trap {
  import opened Words

  // ---------- what the RISC-V manual asks (section 7.2 of the Unprivileged ISA, version 20191213) ----------

  /** Division that rounds toward zero. */
  function TruncDiv(a: int, b: int): int
    requires b != 0
  {
    if (a < 0) == (b < 0) then Abs(a) / Abs(b) else -(Abs(a) / Abs(b))
  }

  /** The remainder that goes with it: it has the sign of the dividend. */
  function TruncRem(a: int, b: int): int
    requires b != 0
  {
    if a < 0 then -(Abs(a) % Abs(b)) else Abs(a) % Abs(b)
  }

  /** The division law: quotient and remainder make up the dividend, the remainder is smaller than the divisor, and it
      is zero or has the dividend's sign. These are the only two numbers of that kind. */
  lemma DivisionLaw(a: int, b: int, q: int, r: int)
    requires b != 0
    ensures q == TruncDiv(a, b) && r == TruncRem(a, b) <==>
      a == q * b + r && Abs(r) < Abs(b) && (r == 0 || (r < 0) == (a < 0))
  {
    var n, d := Abs(a), Abs(b);
    EuclideanLaw(n, d);
    var magnitude := if (a < 0) == (b < 0) then q else -q;
    Signs(q, b);
    assert q * b == if a < 0 then -(magnitude * d) else magnitude * d;
    if Abs(r) < d && magnitude * d + Abs(r) == n {
      DivModUnique(n, d, magnitude, Abs(r));
    }
  }

  lemma EuclideanLaw(n: nat, d: nat)
    requires d > 0
    ensures n == n / d * d + n % d && 0 <= n % d < d
  {
  }

  lemma Signs(q: int, b: int)
    ensures (-q) * (-b) == q * b && (-q) * b == -(q * b) && q * (-b) == -(q * b)
  {
  }

  datatype Operation = Div | Divu | Rem | Remu

  function IsaResult(op: Operation, a: uint32, b: uint32): uint32 {
    match op
    case Div =>
      if b == 0 then 0xFFFF_FFFF
      else if a == 0x8000_0000 && b == 0xFFFF_FFFF then 0x8000_0000
      else ToUint32(TruncDiv(ToInt32(a), ToInt32(b)))
    case Divu => if b == 0 then 0xFFFF_FFFF else a / b
    case Rem =>
      if b == 0 then a
      else if a == 0x8000_0000 && b == 0xFFFF_FFFF then 0
      else ToUint32(TruncRem(ToInt32(a), ToInt32(b)))
    case Remu => if b == 0 then a else a % b
  }

  type Register = r: int | 0 <= r < 32

  /** The registers after the instruction: register 0 reads as zero and is never written. */
  function IsaStep(op: Operation, x: seq<uint32>, rd: Register, rs1: Register, rs2: Register): seq<uint32>
    requires |x| == 32
  {
    var a, b := if rs1 == 0 then 0 else x[rs1], if rs2 == 0 then 0 else x[rs2];
    if rd == 0 then x else x[rd := IsaResult(op, a, b)]
  }

  function Funct3Of(op: Operation): nat {
    match op case Div => 4 case Divu => 5 case Rem => 6 case Remu => 7
  }

  /** The instruction word: M extension, register-register format. */
  function Encode(op: Operation, rd: Register, rs1: Register, rs2: Register): uint32 {
    0x33 + 0x80 * rd + 0x1000 * Funct3Of(op) + 0x8000 * rs1 + 0x10_0000 * rs2 + 0x200_0000
  }

  // ---------- the emulation ----------

  /** The compiler's 64-bit division routines. */
  datatype Routines = Routines(div: (int, int) -> int, udiv: (int, int) -> int,
                               mod: (int, int) -> int, umod: (int, int) -> int)
  {
    /** They divide correctly; what they do with a zero divisor is not specified. */
    ghost predicate Correct() {
      && (forall a, b :: b != 0 ==> div(a, b) == TruncDiv(a, b))
      && (forall a, b :: b != 0 ==> mod(a, b) == TruncRem(a, b))
      && (forall a, b :: 0 <= a && 0 < b ==> udiv(a, b) == a / b)
      && (forall a, b :: 0 <= a && 0 < b ==> umod(a, b) == a % b)
    }
  }

  function Funct3(instruction: uint32): nat { instruction / 0x1000 % 8 }

  function Rd(instruction: uint32): Register { instruction / 0x80 % 32 }

  function Rs1(instruction: uint32): Register { instruction / 0x8000 % 32 }

  function Rs2(instruction: uint32): Register { instruction / 0x10_0000 % 32 }

  /** Where a register is in the saved frame of 32 words. */
  function RegOffset(r: Register): nat { 31 - r }

  function Computed(funct3: nat, a: uint32, b: uint32, lib: Routines): uint32 {
    if funct3 == 4 then ToUint32(if b != 0 then lib.div(ToInt32(a), ToInt32(b)) else -1)
    else if funct3 == 5 then ToUint32(if b != 0 then lib.udiv(a, b) else -1)
    else if funct3 == 6 then ToUint32(lib.mod(ToInt32(a), ToInt32(b)))
    else ToUint32(lib.umod(a, b))
  }

  /** The saved frame after the division handler. */
  function Emulated(frame: seq<uint32>, instruction: uint32, lib: Routines): seq<uint32>
    requires |frame| == 32
  {
    if Funct3(instruction) < 4 then frame
    else
      frame[RegOffset(Rd(instruction)) :=
              Computed(Funct3(instruction), frame[RegOffset(Rs1(instruction))],
                       frame[RegOffset(Rs2(instruction))], lib)]
  }

  const ILLEGAL_INSTRUCTION: nat := 2

  /** A hart: registers, word-addressed memory and the machine-mode registers the handler uses. */
  class Hart {
    const x: array<uint32>
    const mem: array<uint32>
    var pc: uint32
    var mepc: uint32
    var mcause: nat
    var mtval: uint32

    /** Room for a frame below the stack pointer, and a caller's word at it. */
    ghost predicate Valid()
      reads this, x
    {
      x.Length == 32 && x != mem && x[2] % 4 == 0 && 31 <= x[2] / 4 < mem.Length
    }

    /** A hart about to run at `pc`, with its stack set up. */
    constructor (registers: seq<uint32>, memory: seq<uint32>, pc: uint32)
      requires |registers| == 32 && registers[2] % 4 == 0 && 31 <= registers[2] / 4 < |memory|
      ensures Valid() && fresh(x) && fresh(mem)
      ensures x[..] == registers && mem[..] == memory && this.pc == pc
    {
      x := new uint32[32](i requires 0 <= i < 32 => registers[i]);
      mem := new uint32[|memory|](i requires 0 <= i < |memory| => memory[i]);
      this.pc, mepc, mcause, mtval := pc, 0, 0, 0;
    }

    method DivInstructionHandler(base: nat, instruction: uint32, lib: Routines)
      requires x != mem && base + 32 <= mem.Length
      modifies mem
      ensures mem[base..base + 32] == Emulated(old(mem[base..base + 32]), instruction, lib)
      ensures mem[..base] == old(mem[..base]) && mem[base + 32..] == old(mem[base + 32..])
    {
      var funct3 := Funct3(instruction);
      var rdOffset := RegOffset(Rd(instruction));
      var src1 := mem[base + RegOffset(Rs1(instruction))];
      var src2 := mem[base + RegOffset(Rs2(instruction))];
      if funct3 == 4 {
        mem[base + rdOffset] := ToUint32(if src2 != 0 then lib.div(ToInt32(src1), ToInt32(src2)) else -1);
      } else if funct3 == 5 {
        mem[base + rdOffset] := ToUint32(if src2 != 0 then lib.udiv(src1, src2) else -1);
      } else if funct3 == 6 {
        mem[base + rdOffset] := ToUint32(lib.mod(ToInt32(src1), ToInt32(src2)));
      } else if funct3 == 7 {
        mem[base + rdOffset] := ToUint32(lib.umod(src1, src2));
      }
    }

    method InstructionHandler(base: nat, lib: Routines)
      requires x != mem && base + 32 <= mem.Length
      modifies mem, this`mepc
      ensures var illegal := mtval % 0x80 != 0x33;
        && mem[base..base + 32] ==
           (if illegal then old(mem[base..base + 32]) else Emulated(old(mem[base..base + 32]), mtval, lib))
        && mepc == if illegal then old(mepc) else ToUint32(old(mepc) + 4)
      ensures mem[..base] == old(mem[..base]) && mem[base + 32..] == old(mem[base + 32..])
    {
      if mtval % 0x80 == 0x33 {
        DivInstructionHandler(base, mtval, lib);
        mepc := ToUint32(mepc + 4);
      }
    }

    /** Saves the registers, handles the trap, restores the registers and returns from the trap. The C code may leave
        anything in the registers it is free to use, and in memory below the frame, where its own stack is; it keeps
        the stack pointer. */
    method TrapEntry(lib: Routines, leftByHandler: seq<uint32>, leftBelow: seq<uint32>)
      requires Valid() && |leftByHandler| == 32 && |leftBelow| == x[2] / 4 - 31
      modifies this`pc, this`mepc, x, mem
      ensures Valid() && x[2] == old(x[2])
      ensures var sp := old(x[2]) / 4;
        var outcome := TrapOutcome(old(x[..]), old(mem[sp]), old(mem[sp - 2]), old(mepc), mcause, mtval, lib);
        && x[..] == outcome.x && mem[sp] == outcome.callerWord && pc == outcome.pc
        && mem[..sp - 31] == leftBelow && mem[sp + 1..] == old(mem[sp + 1..])
    {
      hide FrameOf, Restored, Emulated;
      ghost var before, frame := x[..], FrameOf(x[..], mem[x[2] / 4], mem[x[2] / 4 - 2]);
      var base := SaveRegisters();
      assert mem[base..base + 32] == frame;
      TrapHandler(base, lib, leftBelow);
      ghost var after := mem[base..base + 32];
      RestoreRegisters(base, leftByHandler);
      RestoredAround(after, before, x[2] - 124);
      assert mem[base..base + 32] == after && after[31] == mem[base + 31];
      pc := mepc;
    }

    /** The dispatch of the C code: only illegal instructions touch the frame. */
    method TrapHandler(base: nat, lib: Routines, leftBelow: seq<uint32>)
      requires x != mem && base + 32 <= mem.Length && |leftBelow| == base
      modifies mem, this`mepc
      ensures var emulate := mcause == ILLEGAL_INSTRUCTION && mtval % 0x80 == 0x33;
        && mem[base..base + 32] ==
           (if emulate then Emulated(old(mem[base..base + 32]), mtval, lib) else old(mem[base..base + 32]))
        && mepc == if emulate then ToUint32(old(mepc) + 4) else old(mepc)
      ensures mem[..base] == leftBelow && mem[base + 32..] == old(mem[base + 32..])
    {
      if mcause == ILLEGAL_INSTRUCTION {
        InstructionHandler(base, lib);
      }
      ghost var frame, above := mem[base..base + 32], mem[base + 32..];
      forall i | 0 <= i < base {
        mem[i] := leftBelow[i];
      }
      assert mem[base..base + 32] == frame && mem[base + 32..] == above;
    }

    /** Stores every register but 0 and 2 below the stack pointer and moves it down by 31 words. */
    method SaveRegisters() returns (base: nat)
      requires Valid()
      modifies x, mem
      ensures base == old(x[2]) / 4 - 31 && x[2] == old(x[2]) - 124
      ensures x[..] == old(x[..])[2 := x[2]]
      ensures mem[base..base + 32] == FrameOf(old(x[..]), old(mem[base + 31]), old(mem[base + 29]))
      ensures mem[..base] == old(mem[..base]) && mem[base + 32..] == old(mem[base + 32..])
    {
      var sp := x[2] / 4;
      base := sp - 31;
      ghost var frame := FrameOf(x[..], mem[base + 31], mem[base + 29]);
      forall i | 1 <= i < 32 && i != 2 {
        mem[sp - i] := x[i];
      }
      forall s | 0 <= s < 32 ensures mem[base + s] == frame[s] {
      }
      assert mem[base..base + 32] == frame;
      x[2] := x[2] - 31 * 4;
    }

    /** Loads every register but 0 and 2 back and moves the stack pointer up again. */
    method RestoreRegisters(base: nat, leftByHandler: seq<uint32>)
      requires x != mem && x.Length == 32 && base + 32 <= mem.Length && |leftByHandler| == 32 && x[2] + 124 < TWO_32
      modifies x
      ensures x[..] == Restored(mem[base..base + 32], old(x[..]))[2 := old(x[2]) + 124]
    {
      forall i | 1 <= i < 32 && i != 2 {
        x[i] := leftByHandler[i];
      }
      forall i | 1 <= i < 32 && i != 2 {
        x[i] := mem[base + 31 - i];
      }
      x[2] := x[2] + 31 * 4;
    }
  }

  /** The frame in memory at the call of the handler: slot 31 is the caller's word at the stack pointer and slot 29
      holds whatever was below it, because registers 0 and 2 are not saved. */
  function FrameOf(x: seq<uint32>, callerWord: uint32, stale: uint32): (frame: seq<uint32>)
    requires |x| == 32
    ensures |frame| == 32
  {
    seq(32, s requires 0 <= s < 32 => if s == 31 then callerWord else if s == 29 then stale else x[31 - s])
  }

  /** The registers loaded back from a frame; register 2 is recomputed and register 0 is not loaded. */
  function Restored(frame: seq<uint32>, x: seq<uint32>): (x': seq<uint32>)
    requires |frame| == 32 && |x| == 32
    ensures |x'| == 32
  {
    seq(32, i requires 0 <= i < 32 => if i == 0 || i == 2 then x[i] else frame[31 - i])
  }

  /** What the stack pointer is during the restore does not matter. */
  lemma RestoredAround(frame: seq<uint32>, x: seq<uint32>, sp: int)
    requires |frame| == 32 && |x| == 32 && 0 <= sp < TWO_32
    ensures Restored(frame, x[2 := sp])[2 := x[2]] == Restored(frame, x)
  {
  }

  datatype Outcome = Outcome(x: seq<uint32>, callerWord: uint32, pc: uint32)

  /** Everything the trapped program can see after the trap. */
  function TrapOutcome(x: seq<uint32>, callerWord: uint32, stale: uint32, mepc: uint32, mcause: nat,
                       instruction: uint32, lib: Routines): (o: Outcome)
    requires |x| == 32
    ensures |o.x| == 32
  {
    var frame := FrameOf(x, callerWord, stale);
    var emulate := mcause == ILLEGAL_INSTRUCTION && instruction % 0x80 == 0x33;
    var after := if emulate then Emulated(frame, instruction, lib) else frame;
    Outcome(Restored(after, x), after[31], if emulate then ToUint32(mepc + 4) else mepc)
  }

  // ---------- the emulation against the manual ----------

  lemma DecodeEncode(op: Operation, rd: Register, rs1: Register, rs2: Register)
    ensures var i := Encode(op, rd, rs1, rs2);
      i % 0x80 == 0x33 && Funct3(i) == Funct3Of(op) && Rd(i) == rd && Rs1(i) == rs1 && Rs2(i) == rs2
  {
    var i, f := Encode(op, rd, rs1, rs2), Funct3Of(op);
    assert i / 0x80 == rd + 0x20 * f + 0x100 * rs1 + 0x2000 * rs2 + 0x4_0000;
    assert i / 0x1000 == f + 8 * rs1 + 0x100 * rs2 + 0x2000;
    assert i / 0x8000 == rs1 + 0x20 * rs2 + 0x400;
    assert i / 0x10_0000 == rs2 + 0x20;
  }

  /** With a non-zero divisor the routines give the manual's result, signed overflow included; with a zero divisor
      only the two divisions do. */
  lemma {:induction false} ComputedIsIsa(op: Operation, a: uint32, b: uint32, lib: Routines)
    requires lib.Correct() && (op.Div? || op.Divu? || b != 0)
    ensures Computed(Funct3Of(op), a, b, lib) == IsaResult(op, a, b)
  {
    hide TruncDiv, TruncRem, ToInt32, ToUint32;
    SignedOverflow();
    SignedZero(b);
    if b != 0 {
      UnsignedFits(a, b);
    }
    SmallWord(0);
    AllOnes();
  }

  /** The one signed division whose quotient does not fit. */
  lemma SignedOverflow()
    ensures ToInt32(0x8000_0000) == -0x8000_0000 && ToInt32(0xFFFF_FFFF) == -1
    ensures ToUint32(TruncDiv(-0x8000_0000, -1)) == 0x8000_0000 && TruncRem(-0x8000_0000, -1) == 0
  {
  }

  lemma AllOnes()
    ensures ToUint32(-1) == 0xFFFF_FFFF
  {
  }

  lemma SignedZero(b: uint32)
    ensures ToInt32(b) == 0 <==> b == 0
  {
  }

  lemma UnsignedFits(a: uint32, b: uint32)
    requires b != 0
    ensures 0 <= a / b <= a && 0 <= a % b <= a && ToUint32(a / b) == a / b && ToUint32(a % b) == a % b
  {
  }

  /** The trap leaves what the manual asks: registers, next instruction, and the caller's memory untouched. */
  ghost predicate Conforms(op: Operation, x: seq<uint32>, callerWord: uint32, stale: uint32, mepc: uint32,
                           rd: Register, rs1: Register, rs2: Register, lib: Routines)
    requires |x| == 32
  {
    var o := TrapOutcome(x, callerWord, stale, mepc, ILLEGAL_INSTRUCTION, Encode(op, rd, rs1, rs2), lib);
    o.x == IsaStep(op, x, rd, rs1, rs2) && o.callerWord == callerWord && o.pc == ToUint32(mepc + 4)
  }

  /** Registers with a slot of their own in the frame. */
  predicate Saved(r: Register) { r != 0 && r != 2 }

  /** The trap conforms for saved registers whenever the routines are asked for something they promise. */
  lemma TrapConforms(op: Operation, x: seq<uint32>, callerWord: uint32, stale: uint32, mepc: uint32,
                     rd: Register, rs1: Register, rs2: Register, lib: Routines)
    requires |x| == 32 && lib.Correct() && Saved(rd) && Saved(rs1) && Saved(rs2)
    requires op.Div? || op.Divu? || x[rs2] != 0
    ensures Conforms(op, x, callerWord, stale, mepc, rd, rs1, rs2, lib)
  {
    hide IsaResult, Computed, Encode, Funct3, Rd, Rs1, Rs2;
    DecodeEncode(op, rd, rs1, rs2);
    ComputedIsIsa(op, x[rs1], x[rs2], lib);
    var o := TrapOutcome(x, callerWord, stale, mepc, ILLEGAL_INSTRUCTION, Encode(op, rd, rs1, rs2), lib);
    forall i | 0 <= i < 32 ensures o.x[i] == IsaStep(op, x, rd, rs1, rs2)[i] {
    }
  }

  // ---------- exactly when it conforms ----------

  /** The operand the handler sees for a register. */
  function Seen(x: seq<uint32>, callerWord: uint32, stale: uint32, r: Register): uint32
    requires |x| == 32
  {
    if r == 0 then callerWord else if r == 2 then stale else x[r]
  }

  function Operand(x: seq<uint32>, r: Register): uint32
    requires |x| == 32
  {
    if r == 0 then 0 else x[r]
  }

  /** Conformance is one equation: on the result for a saved target, on the caller's word for register 0, and on the
      unchanged stack pointer for register 2. */
  lemma ConformsShape(op: Operation, x: seq<uint32>, callerWord: uint32, stale: uint32, mepc: uint32,
                      rd: Register, rs1: Register, rs2: Register, lib: Routines)
    requires |x| == 32
    ensures var got := Computed(Funct3Of(op), Seen(x, callerWord, stale, rs1), Seen(x, callerWord, stale, rs2), lib);
      var wanted := IsaResult(op, Operand(x, rs1), Operand(x, rs2));
      Conforms(op, x, callerWord, stale, mepc, rd, rs1, rs2, lib) <==>
      if rd == 0 then got == callerWord else if rd == 2 then wanted == x[2] else got == wanted
  {
    hide IsaResult, Computed, Encode, Funct3, Rd, Rs1, Rs2;
    DecodeEncode(op, rd, rs1, rs2);
    var got := Computed(Funct3Of(op), Seen(x, callerWord, stale, rs1), Seen(x, callerWord, stale, rs2), lib);
    var wanted := IsaResult(op, Operand(x, rs1), Operand(x, rs2));
    var o := TrapOutcome(x, callerWord, stale, mepc, ILLEGAL_INSTRUCTION, Encode(op, rd, rs1, rs2), lib);
    assert o.callerWord == if rd == 0 then got else callerWord;
    assert o.x == if rd == 0 || rd == 2 then x else x[rd := got];
    if rd != 0 {
      assert x[rd := wanted][rd] == wanted;
      assert rd != 2 ==> x[rd := got][rd] == got;
    }
  }

  /** Correct routines that answer `zero` when asked to divide by zero. */
  function RoutinesWith(zero: int): Routines {
    Routines((a: int, b: int) => if b != 0 then TruncDiv(a, b) else zero,
             (a: int, b: int) => if 0 <= a && 0 < b then a / b else zero,
             (a: int, b: int) => if b != 0 then TruncRem(a, b) else zero,
             (a: int, b: int) => if 0 <= a && 0 < b then a % b else zero)
  }

  /** For saved registers: whatever correct routines the compiler links, the trap conforms in a state exactly when the
      instruction is a division or its divisor is not zero. */
  lemma ConformsIff(op: Operation, x: seq<uint32>, callerWord: uint32, stale: uint32, mepc: uint32,
                    rd: Register, rs1: Register, rs2: Register)
    requires |x| == 32 && Saved(rd) && Saved(rs1) && Saved(rs2)
    ensures (forall lib: Routines :: lib.Correct() ==> Conforms(op, x, callerWord, stale, mepc, rd, rs1, rs2, lib))
      <==> op.Div? || op.Divu? || x[rs2] != 0
  {
    hide Conforms, Computed, IsaResult;
    if op.Div? || op.Divu? || x[rs2] != 0 {
      forall lib: Routines | lib.Correct() ensures Conforms(op, x, callerWord, stale, mepc, rd, rs1, rs2, lib) {
        TrapConforms(op, x, callerWord, stale, mepc, rd, rs1, rs2, lib);
      }
    } else {
      var zero := if x[rs1] == 8 then 9 else 8;
      var lib := RoutinesWith(zero);
      ZeroRemainder(op, x[rs1], zero);
      ConformsShape(op, x, callerWord, stale, mepc, rd, rs1, rs2, lib);
      assert lib.Correct() && !Conforms(op, x, callerWord, stale, mepc, rd, rs1, rs2, lib);
    }
  }

  lemma ZeroRemainder(op: Operation, a: uint32, zero: uint32)
    requires op.Rem? || op.Remu?
    ensures Computed(Funct3Of(op), a, 0, RoutinesWith(zero)) == zero && IsaResult(op, a, 0) == a
  {
  }

  ghost predicate AlwaysConforms(op: Operation, rd: Register, rs1: Register, rs2: Register) {
    forall x: seq<uint32>, callerWord: uint32, stale: uint32, mepc: uint32, lib: Routines ::
      |x| == 32 && lib.Correct() ==> Conforms(op, x, callerWord, stale, mepc, rd, rs1, rs2, lib)
  }

  /** An instruction is emulated as the manual asks in every state, with any correct routines, exactly when it is a
      division on saved registers, or the one remainder that leaves the stack pointer as it is. */
  lemma AlwaysConformsIff(op: Operation, rd: Register, rs1: Register, rs2: Register)
    ensures AlwaysConforms(op, rd, rs1, rs2) <==>
      ((op.Div? || op.Divu?) && Saved(rd) && Saved(rs1) && Saved(rs2))
      || ((op.Rem? || op.Remu?) && rd == 2 && rs1 == 2 && rs2 == 0)
  {
    hide Conforms, Computed, IsaResult;
    if (op.Div? || op.Divu?) && Saved(rd) && Saved(rs1) && Saved(rs2) {
      forall x: seq<uint32>, callerWord: uint32, stale: uint32, mepc: uint32, lib: Routines | |x| == 32 && lib.Correct()
        ensures Conforms(op, x, callerWord, stale, mepc, rd, rs1, rs2, lib)
      {
        TrapConforms(op, x, callerWord, stale, mepc, rd, rs1, rs2, lib);
      }
    } else if (op.Rem? || op.Remu?) && rd == 2 && rs1 == 2 && rs2 == 0 {
      forall x: seq<uint32>, callerWord: uint32, stale: uint32, mepc: uint32, lib: Routines | |x| == 32 && lib.Correct()
        ensures Conforms(op, x, callerWord, stale, mepc, rd, rs1, rs2, lib)
      {
        ConformsShape(op, x, callerWord, stale, mepc, rd, rs1, rs2, lib);
        ZeroRemainder(op, x[2], 0);
      }
    } else {
      var x, callerWord, stale := FailingState(op, rd, rs1, rs2);
      assert !Conforms(op, x, callerWord, stale, 0, rd, rs1, rs2, RoutinesWith(9));
      assert RoutinesWith(9).Correct();
    }
  }

  /** A register file with 100 as the stack pointer. */
  function Filled(v: uint32): (x: seq<uint32>)
    ensures |x| == 32
  {
    seq(32, i => if i == 0 then 0 else if i == 2 then 100 else v)
  }

  lemma FailingState(op: Operation, rd: Register, rs1: Register, rs2: Register)
    returns (x: seq<uint32>, callerWord: uint32, stale: uint32)
    requires !((op.Div? || op.Divu?) && Saved(rd) && Saved(rs1) && Saved(rs2))
    requires !((op.Rem? || op.Remu?) && rd == 2 && rs1 == 2 && rs2 == 0)
    ensures |x| == 32 && !Conforms(op, x, callerWord, stale, 0, rd, rs1, rs2, RoutinesWith(9))
  {
    hide Conforms;
    if FailsOnZeros(op, rd, rs1, rs2) {
      x, callerWord, stale := Filled(0), 0, 0;
      ZerosFail(op, rd, rs1, rs2);
    } else {
      x, callerWord, stale := Filled(5), 7, 3;
      FivesFail(op, rd, rs1, rs2);
    }
  }

  predicate FailsOnZeros(op: Operation, rd: Register, rs1: Register, rs2: Register) {
    var quotient := op.Div? || op.Divu?;
    Saved(rd) && ((quotient && rs1 == 2 && rs2 == 2)
                  || (!quotient && ((rs1 == 0 && rs2 == 0) || (rs1 == 2 && rs2 == 2) || (Saved(rs1) && rs2 != 2))))
  }

  lemma ZerosFail(op: Operation, rd: Register, rs1: Register, rs2: Register)
    requires FailsOnZeros(op, rd, rs1, rs2)
    ensures !Conforms(op, Filled(0), 0, 0, 0, rd, rs1, rs2, RoutinesWith(9))
  {
    hide Conforms, Computed, IsaResult;
    SmallResults(op, Seen(Filled(0), 0, 0, rs1), Seen(Filled(0), 0, 0, rs2));
    IsaResults(op, Operand(Filled(0), rs1), Operand(Filled(0), rs2));
    ConformsShape(op, Filled(0), 0, 0, 0, rd, rs1, rs2, RoutinesWith(9));
  }

  lemma FivesFail(op: Operation, rd: Register, rs1: Register, rs2: Register)
    requires !((op.Div? || op.Divu?) && Saved(rd) && Saved(rs1) && Saved(rs2))
    requires !((op.Rem? || op.Remu?) && rd == 2 && rs1 == 2 && rs2 == 0)
    requires !FailsOnZeros(op, rd, rs1, rs2)
    ensures !Conforms(op, Filled(5), 7, 3, 0, rd, rs1, rs2, RoutinesWith(9))
  {
    hide Conforms, Computed, IsaResult;
    SmallResults(op, Seen(Filled(5), 7, 3, rs1), Seen(Filled(5), 7, 3, rs2));
    IsaResults(op, Operand(Filled(5), rs1), Operand(Filled(5), rs2));
    ConformsShape(op, Filled(5), 7, 3, 0, rd, rs1, rs2, RoutinesWith(9));
  }

  lemma SmallDivision(a: nat, b: nat)
    requires b > 0
    ensures 0 <= a / b <= a && 0 <= a % b <= a
  {
    var q := a / b;
    assert a == q * b + a % b;
    assert q >= 0;
    MulMono(q, 1, b);
  }

  lemma SmallWord(v: nat)
    requires v < 0x8000_0000
    ensures ToUint32(v) == v && ToInt32(v) == v
  {
  }

  lemma {:induction false} SmallResults(op: Operation, a: uint32, b: uint32)
    requires a <= 7 && b <= 7
    ensures Computed(Funct3Of(op), a, b, RoutinesWith(9)) ==
      if op.Div? || op.Divu? then (if b == 0 then 0xFFFF_FFFF else a / b) else (if b == 0 then 9 else a % b)
  {
    SmallWord(a);
    SmallWord(b);
    SmallWord(9);
    assert ToUint32(-1) == 0xFFFF_FFFF;
    if b != 0 {
      SmallDivision(a, b);
      SmallWord(a / b);
      SmallWord(a % b);
    }
    hide ToUint32, ToInt32;
  }

  lemma {:induction false} IsaResults(op: Operation, a: uint32, b: uint32)
    requires a <= 100 && b <= 100
    ensures IsaResult(op, a, b) ==
      if op.Div? || op.Divu? then (if b == 0 then 0xFFFF_FFFF else a / b) else (if b == 0 then a else a % b)
  {
    SmallWord(a);
    SmallWord(b);
    if b != 0 {
      SmallDivision(a, b);
      SmallWord(a / b);
      SmallWord(a % b);
    }
    hide ToUint32, ToInt32;
  }

  // ---------- which instruction words are emulated ----------

  function OperationOf(funct3: nat): Operation
    requires 4 <= funct3 < 8
  {
    if funct3 == 4 then Div else if funct3 == 5 then Divu else if funct3 == 6 then Rem else Remu
  }

  /** The words the manual gives to the four instructions. The handler looks at the opcode and funct3 only. */
  predicate IsDivision(i: uint32) {
    i % 0x80 == 0x33 && Funct3(i) >= 4 && i / 0x200_0000 == 1
  }

  /** They are the encodings of the operations, and no others. */
  lemma DivisionWords(i: uint32)
    ensures IsDivision(i) ==> i == Encode(OperationOf(Funct3(i)), Rd(i), Rs1(i), Rs2(i))
    ensures IsDivision(i) <==> exists op, rd, rs1, rs2 :: i == Encode(op, rd, rs1, rs2)
  {
    if IsDivision(i) {
      FieldsOf(i);
    }
    forall op, rd, rs1, rs2 | i == Encode(op, rd, rs1, rs2) ensures IsDivision(i) {
      DecodeEncode(op, rd, rs1, rs2);
    }
  }

  /** A word is the sum of its fields. */
  lemma FieldsOf(i: uint32)
    ensures i == i % 0x80 + 0x80 * Rd(i) + 0x1000 * Funct3(i) + 0x8000 * Rs1(i) + 0x10_0000 * Rs2(i)
                 + 0x200_0000 * (i / 0x200_0000)
  {
    Field(i, 0x80, 32);
    Field(i, 0x1000, 8);
    Field(i, 0x8000, 32);
    Field(i, 0x10_0000, 32);
    assert i == 0x80 * (i / 0x80) + i % 0x80;
  }

  /** Cutting a field off the quotient by its place. */
  lemma Field(i: nat, place: nat, width: nat)
    requires place > 0 && width > 0
    ensures i / place == width * (i / (place * width)) + i / place % width
  {
    var q, r := i / place, i % place;
    var q', r' := q / width, q % width;
    FieldProduct(place, width, q, q', r', r);
    DivModUnique(i, place * width, q', r' * place + r);
  }

  lemma FieldProduct(place: nat, width: nat, q: nat, q': nat, r': nat, r: nat)
    requires q == q' * width + r' && r' < width && r < place
    ensures q * place + r == q' * (place * width) + (r' * place + r)
    ensures 0 <= r' * place + r < place * width
  {
    assert q * place == (q' * width) * place + r' * place;
    assert (q' * width) * place == q' * (place * width);
    MulMono(place, r' + 1, width);
    MulMono(place, 0, r');
  }

  /** Any other word with the opcode is mistaken for the division with its fields, or silently skipped. */
  lemma OtherWords(i: uint32, x: seq<uint32>, callerWord: uint32, stale: uint32, mepc: uint32, lib: Routines)
    requires |x| == 32 && i % 0x80 == 0x33
    ensures var o := TrapOutcome(x, callerWord, stale, mepc, ILLEGAL_INSTRUCTION, i, lib);
      o == if Funct3(i) < 4 then Outcome(x, callerWord, ToUint32(mepc + 4))
           else TrapOutcome(x, callerWord, stale, mepc, ILLEGAL_INSTRUCTION,
                            Encode(OperationOf(Funct3(i)), Rd(i), Rs1(i), Rs2(i)), lib)
  {
    if Funct3(i) >= 4 {
      DecodeEncode(OperationOf(Funct3(i)), Rd(i), Rs1(i), Rs2(i));
    } else {
      FrameRoundTrip(x, callerWord, stale);
    }
  }

  /** Saving and restoring alone changes nothing. */
  lemma FrameRoundTrip(x: seq<uint32>, callerWord: uint32, stale: uint32)
    requires |x| == 32
    ensures Restored(FrameOf(x, callerWord, stale), x) == x
  {
  }

  /** What a trap on an illegal word should do: a division is emulated, anything else is not executed. */
  ghost predicate Handled(i: uint32, x: seq<uint32>, callerWord: uint32, stale: uint32, mepc: uint32, lib: Routines)
    requires |x| == 32
  {
    if IsDivision(i) then
      Conforms(OperationOf(Funct3(i)), x, callerWord, stale, mepc, Rd(i), Rs1(i), Rs2(i), lib)
    else
      TrapOutcome(x, callerWord, stale, mepc, ILLEGAL_INSTRUCTION, i, lib) == Outcome(x, callerWord, mepc)
  }

  ghost predicate AlwaysHandled(i: uint32) {
    forall x: seq<uint32>, callerWord: uint32, stale: uint32, mepc: uint32, lib: Routines ::
      |x| == 32 && lib.Correct() ==> Handled(i, x, callerWord, stale, mepc, lib)
  }

  /** An illegal word is handled in every state exactly when its opcode is not the M extension's, or its fields make it
      div or divu on saved registers, or the one remainder that leaves the stack pointer as it is. */
  lemma HandledIff(i: uint32)
    ensures AlwaysHandled(i) <==>
      i % 0x80 != 0x33
      || (i / 0x200_0000 == 1
          && ((Funct3(i) in {4, 5} && Saved(Rd(i)) && Saved(Rs1(i)) && Saved(Rs2(i)))
              || (Funct3(i) in {6, 7} && Rd(i) == 2 && Rs1(i) == 2 && Rs2(i) == 0)))
  {
    hide Conforms, IsDivision, Rd, Rs1, Rs2, Funct3, TrapOutcome;
    if IsDivision(i) {
      IsDivisionFields(i);
      DivisionHandledIff(i);
      AlwaysConformsIff(OperationOf(Funct3(i)), Rd(i), Rs1(i), Rs2(i));
    } else if i % 0x80 != 0x33 {
      forall x: seq<uint32>, callerWord: uint32, stale: uint32, mepc: uint32, lib: Routines | |x| == 32
        ensures Handled(i, x, callerWord, stale, mepc, lib)
      {
        LeftAlone(i, x, callerWord, stale, mepc, lib);
      }
    } else {
      NotDivisionFields(i);
      var x := Filled(5);
      MovesOn(i, x, 7, 3, 0, RoutinesWith(9));
      assert !Handled(i, x, 7, 3, 0, RoutinesWith(9)) && RoutinesWith(9).Correct();
    }
  }

  lemma DivisionHandledIff(i: uint32)
    requires IsDivision(i)
    ensures AlwaysHandled(i) <==> AlwaysConforms(OperationOf(Funct3(i)), Rd(i), Rs1(i), Rs2(i))
  {
    var op, rd, rs1, rs2 := OperationOf(Funct3(i)), Rd(i), Rs1(i), Rs2(i);
    hide Conforms, Rd, Rs1, Rs2, Funct3;
    forall x: seq<uint32>, callerWord: uint32, stale: uint32, mepc: uint32, lib: Routines | |x| == 32
      ensures Handled(i, x, callerWord, stale, mepc, lib) == Conforms(op, x, callerWord, stale, mepc, rd, rs1, rs2, lib)
    {
    }
    if AlwaysHandled(i) {
      forall x: seq<uint32>, callerWord: uint32, stale: uint32, mepc: uint32, lib: Routines | |x| == 32 && lib.Correct()
        ensures Conforms(op, x, callerWord, stale, mepc, rd, rs1, rs2, lib)
      {
        assert Handled(i, x, callerWord, stale, mepc, lib);
      }
    }
  }

  lemma IsDivisionFields(i: uint32)
    requires IsDivision(i)
    ensures i % 0x80 == 0x33 && 4 <= Funct3(i) < 8 && i / 0x200_0000 == 1
  {
  }

  lemma NotDivisionFields(i: uint32)
    requires !IsDivision(i) && i % 0x80 == 0x33
    ensures i / 0x200_0000 != 1 || Funct3(i) < 4
  {
  }

  lemma LeftAlone(i: uint32, x: seq<uint32>, callerWord: uint32, stale: uint32, mepc: uint32, lib: Routines)
    requires |x| == 32 && i % 0x80 != 0x33
    ensures TrapOutcome(x, callerWord, stale, mepc, ILLEGAL_INSTRUCTION, i, lib) == Outcome(x, callerWord, mepc)
  {
    FrameRoundTrip(x, callerWord, stale);
  }

  lemma MovesOn(i: uint32, x: seq<uint32>, callerWord: uint32, stale: uint32, mepc: uint32, lib: Routines)
    requires |x| == 32 && i % 0x80 == 0x33 && mepc == 0
    ensures TrapOutcome(x, callerWord, stale, mepc, ILLEGAL_INSTRUCTION, i, lib).pc == 4
  {
  }
}
