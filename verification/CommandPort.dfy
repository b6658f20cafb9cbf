/** The command port of the CFU in cfu.v: the outer state machine and the registers of the multiply-accumulate unit,
    one clock edge at a time. The CPU and the matrix unit are arbitrary: each edge brings whatever wire values they
    drive. */
module CommandPort {
  import opened Words
  import opened Simd

  datatype State = Idle | CalPrepare | Cal | Done

  /** The port's registers. */
  datatype Port = Port(state: State, offset: int, sum: int32)

  /** What the CPU and the matrix unit drive in one cycle. */
  datatype Wires = Wires(cmdValid: bool, code: nat, in0: uint32, in1: uint32, rspReady: bool, tpuBusy: bool)

  const RESET := Port(Idle, 0, 0)

  /** Codes 5, 6 and 7 are answered without leaving the idle state. */
  predicate Immediate(w: Wires) { w.code in {5, 6, 7} }

  /** The same wire accepts the command and offers the response; it does not look at the CPU's readiness. */
  predicate Ready(p: Port, w: Wires) {
    p.state.Done? || p.state.CalPrepare? || (p.state.Idle? && w.cmdValid && Immediate(w))
  }

  function NextState(p: Port, w: Wires): State {
    match p.state
    case Idle => if !w.cmdValid || Immediate(w) then Idle else if w.code == 0 then CalPrepare else Done
    case CalPrepare => Cal
    case Cal => if w.tpuBusy then Cal else Done
    case Done => Idle
  }

  /** The unit's registers follow the command wires in every state. */
  function Next(p: Port, w: Wires): Port {
    Port(NextState(p, w),
         if w.cmdValid && w.code == 7 then ToInt9(w.in0) else p.offset,
         if w.cmdValid && w.code == 6 then ToInt32(p.sum + LaneSum(p.offset, w.in0, w.in1))
         else if w.cmdValid && w.code == 5 then 0 else p.sum)
  }

  class CfuPort {
    var state: State
    var offset: int
    var sum: int32

    function Registers(): Port
      reads this
    {
      Port(state, offset, sum)
    }

    constructor ()
      ensures Registers() == RESET
    {
      state, offset, sum := Idle, 0, 0;
    }

    method Edge(w: Wires) returns (cmdReady: bool, rspValid: bool)
      modifies this
      ensures cmdReady == rspValid == Ready(old(Registers()), w)
      ensures Registers() == Next(old(Registers()), w)
    {
      var immediate := w.code == 5 || w.code == 6 || w.code == 7;
      rspValid := state == Done || state == CalPrepare || (state == Idle && w.cmdValid && immediate);
      cmdReady := rspValid;
      if w.cmdValid && w.code == 6 {
        var products := LaneSum(offset, w.in0, w.in1);
        sum := ToInt32(sum + products);
      } else if w.cmdValid && w.code == 5 {
        sum := 0;
      }
      if w.cmdValid && w.code == 7 {
        offset := ToInt9(w.in0);
      }
      match state {
        case Idle =>
          if w.cmdValid && !immediate {
            state := if w.code == 0 then CalPrepare else Done;
          }
        case CalPrepare => state := Cal;
        case Cal =>
          if !w.tpuBusy {
            state := Done;
          }
        case Done => state := Idle;
      }
    }
  }

  // ---------- runs ----------

  /** The registers after t edges from reset. */
  function After(run: nat -> Wires, t: nat): Port {
    if t == 0 then RESET else Next(After(run, t - 1), run(t - 1))
  }

  predicate ReadyAt(run: nat -> Wires, t: nat) { Ready(After(run, t), run(t)) }

  predicate Accept(run: nat -> Wires, t: nat) { run(t).cmdValid && ReadyAt(run, t) }

  predicate Transfer(run: nat -> Wires, t: nat) { ReadyAt(run, t) && run(t).rspReady }

  predicate SameCommand(v: Wires, w: Wires) {
    v.cmdValid == w.cmdValid && v.code == w.code && v.in0 == w.in0 && v.in1 == w.in1
  }

  /** The CPU holds a command until it is accepted. */
  ghost predicate Held(run: nat -> Wires) {
    forall t: nat :: run(t).cmdValid && !ReadyAt(run, t) ==> SameCommand(run(t), run(t + 1))
  }

  /** A command that the CPU had not offered before. */
  predicate Presented(run: nat -> Wires, t: nat) {
    run(t).cmdValid && (t == 0 || !run(t - 1).cmdValid || ReadyAt(run, t - 1))
  }

  ghost predicate NoAccept(run: nat -> Wires, from: nat, to: nat) {
    forall t :: from <= t < to ==> !Accept(run, t)
  }

  lemma PortMoves(run: nat -> Wires, t: nat)
    ensures After(run, t + 1) == Next(After(run, t), run(t))
  {
  }

  // ---------- one response a command ----------

  /** Where the port is while the command accepted at a is the last one: idle again at once, or calculating. */
  ghost predicate Settled(run: nat -> Wires, a: nat, u: nat) {
    var s := After(run, u).state;
    if run(a).code != 0 then s.Idle?
    else s.Cal? || (s.Done? && !run(u).cmdValid) || s.Idle?
  }

  /** A code 0 command is accepted in its preparing cycle, or as a calculation ends; every other leaves the port
      idle. */
  lemma {:induction false} AcceptedIn(run: nat -> Wires, a: nat)
    requires Held(run) && Accept(run, a)
    ensures run(a).code != 0 ==> !After(run, a).state.CalPrepare?
    ensures After(run, a).state.CalPrepare? ==> After(run, a + 1).state.Cal?
    ensures !After(run, a).state.CalPrepare? ==> After(run, a + 1).state.Idle?
  {
    hide LaneSum;
    if a > 0 && After(run, a).state.CalPrepare? {
      PortMoves(run, a - 1);
      assert !ReadyAt(run, a - 1);
    }
  }

  lemma {:induction false} SettledHolds(run: nat -> Wires, a: nat, u: nat)
    requires Held(run) && Accept(run, a) && a < u && NoAccept(run, a + 1, u + 1)
    ensures Settled(run, a, u)
  {
    hide LaneSum;
    if u == a + 1 {
      AcceptedIn(run, a);
    } else {
      SettledHolds(run, a, u - 1);
      PortMoves(run, u - 1);
      assert !Accept(run, u - 1) && !Accept(run, u);
    }
  }

  /** After the cycle that accepts a command, the port offers no further response before the next command is accepted,
      unless a calculation ends while no command waits: then it offers one that nobody asked for. */
  lemma NoLaterResponse(run: nat -> Wires, a: nat, u: nat)
    requires Held(run) && Accept(run, a) && a < u && NoAccept(run, a + 1, u + 1)
    ensures ReadyAt(run, u) <==> After(run, u).state.Done?
    ensures ReadyAt(run, u) ==> run(a).code == 0 && !run(u).cmdValid
  {
    hide After;
    SettledHolds(run, a, u);
    assert !Accept(run, u);
  }

  /** The response to a command other than 0 is taken at all exactly when the CPU is ready in the very cycle that
      accepts the command; a stalled response is lost. */
  lemma AnsweredIff(run: nat -> Wires, a: nat)
    requires Held(run) && Accept(run, a) && run(a).code != 0
    ensures (exists u :: a <= u && NoAccept(run, a + 1, u + 1) && Transfer(run, u)) <==> run(a).rspReady
  {
    hide After;
    if run(a).rspReady {
      assert NoAccept(run, a + 1, a + 1) && Transfer(run, a);
    } else {
      forall u | a <= u && NoAccept(run, a + 1, u + 1) ensures !Transfer(run, u) {
        if a < u {
          NoLaterResponse(run, a, u);
        }
      }
    }
  }

  /** A command presented to an idle port is accepted at once if its code is 5, 6 or 7, and one cycle later if not. */
  lemma AcceptedWithin(run: nat -> Wires, p: nat)
    requires Held(run) && run(p).cmdValid && After(run, p).state.Idle?
    ensures if 5 <= run(p).code <= 7 then Accept(run, p) else !Accept(run, p) && Accept(run, p + 1)
  {
    hide LaneSum, ToInt32, ToInt9;
    PortMoves(run, p);
  }

  // ---------- waiting for the matrix unit ----------

  /** After code 0 nothing is accepted while the matrix unit is busy: the next command, code 4 in the kernels, waits for
      its results. */
  lemma {:induction false} WaitsWhileBusy(run: nat -> Wires, a: nat, u: nat)
    requires After(run, a).state.CalPrepare? && a < u && forall t :: a < t < u ==> run(t).tpuBusy
    ensures After(run, u).state.Cal? && !ReadyAt(run, u)
  {
    PortMoves(run, u - 1);
    if u > a + 1 {
      WaitsWhileBusy(run, a, u - 1);
    }
  }

  // ---------- what a multiply-add adds ----------

  /** A command is presented in the idle state, during a calculation, or as one ends. */
  lemma PresentedIn(run: nat -> Wires, t: nat)
    requires Held(run) && Presented(run, t)
    ensures !After(run, t).state.CalPrepare?
  {
    hide LaneSum;
    if t > 0 {
      PortMoves(run, t - 1);
    }
  }

  /** The products that the cycle's operands would add. */
  function ProductsAt(run: nat -> Wires, t: nat): int { LaneSum(After(run, t).offset, run(t).in0, run(t).in1) }

  lemma SumMoves(run: nat -> Wires, t: nat)
    requires run(t).cmdValid && run(t).code == 6
    ensures After(run, t + 1).sum == ToInt32(After(run, t).sum + ProductsAt(run, t))
    ensures After(run, t + 1).offset == After(run, t).offset
  {
    hide LaneSum, ToInt32, NextState;
    PortMoves(run, t);
  }

  /** A multiply-add that waits is still there in the next cycle, with the same products. */
  lemma StillWaits(run: nat -> Wires, t: nat)
    requires Held(run) && run(t).cmdValid && run(t).code == 6 && !ReadyAt(run, t)
    ensures SameCommand(run(t), run(t + 1)) && ProductsAt(run, t + 1) == ProductsAt(run, t)
  {
    SumMoves(run, t);
    hide LaneSum, ToInt32, After, ReadyAt;
  }

  /** A multiply-add waiting from cycle p on has been added once in every cycle. */
  lemma {:induction false} AddedEveryCycle(run: nat -> Wires, p: nat, u: nat)
    requires Held(run) && run(p).cmdValid && run(p).code == 6 && p <= u && (forall t :: p <= t < u ==> !ReadyAt(run, t))
    ensures SameCommand(run(p), run(u)) && ProductsAt(run, u) == ProductsAt(run, p)
    ensures After(run, u + 1).sum == ToInt32(After(run, p).sum + (u - p + 1) * ProductsAt(run, p))
  {
    hide ToInt32, After, ProductsAt, ReadyAt;
    if u == p {
      SumMoves(run, u);
    } else {
      AddedEveryCycle(run, p, u - 1);
      StillWaits(run, u - 1);
      SumMoves(run, u);
      OnceMore(After(run, p).sum, ProductsAt(run, p), u - p);
    }
  }

  lemma OnceMore(sum: int32, products: int, n: nat)
    ensures ToInt32(ToInt32(sum + n * products) + products) == ToInt32(sum + (n + 1) * products)
  {
    hide ToInt32;
    WrapAbsorbs(sum + n * products, products);
    assert (n + 1) * products == n * products + products;
  }

  /** A multiply-add is accepted in the cycle it is presented, and so added exactly once, unless it is presented during
      a calculation of the matrix unit. */
  lemma AddedOnceIff(run: nat -> Wires, p: nat)
    requires Held(run) && Presented(run, p) && run(p).code == 6
    ensures Accept(run, p) <==> !After(run, p).state.Cal?
    ensures Accept(run, p) ==>
      After(run, p + 1).sum == ToInt32(After(run, p).sum + ProductsAt(run, p))
  {
    PresentedIn(run, p);
    SumMoves(run, p);
    hide After, ProductsAt, ToInt32;
  }

  // ---------- the port and the unit behind it ----------

  /** The unit's registers. */
  datatype UnitState = UnitState(offset: int, sum: int32)

  function UnitOf(p: Port): UnitState { UnitState(p.offset, p.sum) }

  /** The unit after one command. */
  function Effect(u: UnitState, w: Wires): UnitState {
    match w.code
    case 5 => u.(sum := 0)
    case 6 => u.(sum := ToInt32(u.sum + LaneSum(u.offset, w.in0, w.in1)))
    case 7 => u.(offset := ToInt9(w.in0))
    case _ => u
  }

  /** The unit on its own, given one command, does the same. */
  method Serve(unit: SimdUnit, w: Wires)
    requires unit.Valid()
    modifies unit
    ensures unit.Valid() && UnitState(unit.offset, unit.sum) == Effect(old(UnitState(unit.offset, unit.sum)), w)
  {
    var r: int32;
    match w.code {
      case 5 => r := unit.Clear();
      case 6 => r := unit.MultiplyAdd(w.in0, w.in1);
      case 7 => unit.SetOffset(w.in0);
      case _ =>
    }
  }

  /** The unit after the commands accepted before cycle t, each given to it once. */
  function Executed(run: nat -> Wires, t: nat): UnitState {
    if t == 0 then UnitState(0, 0)
    else if Accept(run, t - 1) then Effect(Executed(run, t - 1), run(t - 1))
    else Executed(run, t - 1)
  }

  ghost predicate NoAddDuringCalculation(run: nat -> Wires) {
    forall t: nat :: Presented(run, t) && run(t).code == 6 ==> !After(run, t).state.Cal?
  }

  /** A command is waiting as cycle t begins. */
  predicate Waiting(run: nat -> Wires, t: nat) {
    t > 0 && run(t - 1).cmdValid && !ReadyAt(run, t - 1)
  }

  lemma {:induction false} AddNeverWaits(run: nat -> Wires, t: nat)
    requires Held(run) && NoAddDuringCalculation(run) && run(t).cmdValid && run(t).code == 6
    ensures ReadyAt(run, t)
  {
    hide LaneSum, ReadyAt, After;
    if Presented(run, t) {
      AddedOnceIff(run, t);
    } else {
      AddNeverWaits(run, t - 1);
    }
  }

  lemma UnitMoves(run: nat -> Wires, t: nat)
    ensures UnitOf(After(run, t + 1)) == if run(t).cmdValid then Effect(UnitOf(After(run, t)), run(t))
                                         else UnitOf(After(run, t))
  {
    hide LaneSum, NextState, ToInt32, ToInt9;
    PortMoves(run, t);
    hide After;
  }

  /** Clearing or setting the offset twice is the same as once. */
  lemma EffectTwice(u: UnitState, w: Wires, v: Wires)
    requires SameCommand(w, v) && w.code != 6
    ensures Effect(Effect(u, w), v) == Effect(u, w)
  {
  }

  /** As cycle t begins, the registers are those of a unit that served the accepted commands, and the waiting one. */
  ghost predicate ServedAt(run: nat -> Wires, t: nat) {
    UnitOf(After(run, t)) == if Waiting(run, t) then Effect(Executed(run, t), run(t - 1)) else Executed(run, t)
  }

  lemma ExecutedMoves(run: nat -> Wires, t: nat)
    ensures Executed(run, t + 1)
         == if Accept(run, t) then Effect(Executed(run, t), run(t)) else Executed(run, t)
  {
  }

  lemma ServedWithoutWait(run: nat -> Wires, t: nat)
    requires ServedAt(run, t) && !Waiting(run, t)
    ensures ServedAt(run, t + 1)
  {
    UnitMoves(run, t);
    ExecutedMoves(run, t);
    hide After, Effect, ReadyAt, UnitOf, Executed;
  }

  /** The waiting command is still there, and it is no multiply-add. */
  lemma WaitGoesOn(run: nat -> Wires, t: nat)
    requires Held(run) && NoAddDuringCalculation(run) && Waiting(run, t)
    ensures run(t).cmdValid && SameCommand(run(t - 1), run(t)) && run(t).code != 6
  {
    hide After, ReadyAt;
    if run(t - 1).code == 6 {
      AddNeverWaits(run, t - 1);
    }
  }

  lemma ServedAfterWait(run: nat -> Wires, t: nat)
    requires Held(run) && NoAddDuringCalculation(run) && ServedAt(run, t) && Waiting(run, t)
    ensures ServedAt(run, t + 1)
  {
    WaitGoesOn(run, t);
    UnitMoves(run, t);
    ExecutedMoves(run, t);
    EffectTwice(Executed(run, t), run(t - 1), run(t));
    SameEffect(Executed(run, t), run(t - 1), run(t));
    hide After, Effect, ReadyAt, UnitOf, Executed, SameCommand, Held, NoAddDuringCalculation;
  }

  lemma {:induction false} ServesWaitingToo(run: nat -> Wires, t: nat)
    requires Held(run) && NoAddDuringCalculation(run)
    ensures ServedAt(run, t)
  {
    if t > 0 {
      ServesWaitingToo(run, t - 1);
      hide ServedAt, Waiting;
      if Waiting(run, t - 1) {
        ServedAfterWait(run, t - 1);
      } else {
        ServedWithoutWait(run, t - 1);
      }
    }
  }

  lemma SameEffect(u: UnitState, w: Wires, v: Wires)
    requires SameCommand(w, v)
    ensures Effect(u, w) == Effect(u, v)
  {
  }

  /** If no multiply-add is presented during a calculation of the matrix unit, the port does what a multiply-accumulate
      unit given every accepted command once would do: whenever no command waits, the registers are the same. */
  lemma PortServesCommands(run: nat -> Wires, t: nat)
    requires Held(run) && NoAddDuringCalculation(run) && !Waiting(run, t)
    ensures UnitOf(After(run, t)) == Executed(run, t)
  {
    ServesWaitingToo(run, t);
  }
}
