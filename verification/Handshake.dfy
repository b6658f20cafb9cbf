/** The CFU handshake of amaranth_cfu/cfu.py, run under the CPU/CFU clock gate of soc/clock_control.py.
    One step is one edge of the oscillator that feeds both gated clocks. The CPU and the eight instructions
    are arbitrary machines: each edge brings whatever wire values they drive. */
module Handshake {
  import opened Words

  /** What the CPU and the eight instructions drive in one cycle. */
  datatype Wires = Wires(cmdValid: bool, functionId: nat, in0: uint32, rspReady: bool,
                         dones: nat -> bool, outputs: nat -> uint32)

  datatype CfuState = WaitCmd | WaitInstruction | WaitTransfer

  datatype Cfu = Cfu(state: CfuState, storedFunctionId: nat, storedOutput: uint32)

  datatype ClockState = CpuEnabled | CfuEnabled

  /** All the registers of the composed system. */
  datatype System = System(clock: ClockState, cfu: Cfu)

  const RESET := System(CpuEnabled, Cfu(WaitCmd, 0, 0))

  // ---------- the CFU: combinational outputs and next state ----------

  /** The low three bits of the function id choose the instruction. */
  function Funct3(w: Wires): nat { w.functionId % 8 }

  function CurrentFunction(c: Cfu, w: Wires): nat {
    match c.state
    case WaitCmd => Funct3(w)
    case WaitInstruction => c.storedFunctionId
    case WaitTransfer => 0
  }

  predicate CurrentDone(c: Cfu, w: Wires) {
    !c.state.WaitTransfer? && w.dones(CurrentFunction(c, w))
  }

  predicate CmdReady(c: Cfu) { c.state.WaitCmd? }

  predicate Start(c: Cfu, w: Wires, i: nat) {
    c.state.WaitCmd? && w.cmdValid && i == CurrentFunction(c, w)
  }

  /** The state machine asks for the response of the current instruction in this cycle. */
  predicate Checking(c: Cfu, w: Wires) {
    (c.state.WaitCmd? && w.cmdValid) || c.state.WaitInstruction?
  }

  predicate RspValid(c: Cfu, w: Wires) {
    c.state.WaitTransfer? || (Checking(c, w) && CurrentDone(c, w))
  }

  function RspOut(c: Cfu, w: Wires): uint32 {
    if c.state.WaitTransfer? then c.storedOutput
    else if Checking(c, w) && CurrentDone(c, w) then w.outputs(CurrentFunction(c, w))
    else 0
  }

  function NextCfu(c: Cfu, w: Wires): Cfu {
    var stored := if c.state.WaitCmd? && w.cmdValid then Funct3(w) else c.storedFunctionId;
    if Checking(c, w) then
      if !CurrentDone(c, w) then Cfu(WaitInstruction, stored, c.storedOutput)
      else if w.rspReady then Cfu(WaitCmd, stored, c.storedOutput)
      else Cfu(WaitTransfer, stored, w.outputs(CurrentFunction(c, w)))
    else if c.state.WaitTransfer? && w.rspReady then c.(state := WaitCmd)
    else c
  }

  // ---------- the clock controller ----------

  predicate CfuClock(s: System, w: Wires) {
    s.clock.CfuEnabled? || w.cmdValid
  }

  predicate CpuClock(s: System, w: Wires) {
    s.clock.CpuEnabled? || RspValid(s.cfu, w) || w.cmdValid || CmdReady(s.cfu)
  }

  function NextClock(s: System, w: Wires): ClockState {
    match s.clock
    case CpuEnabled => if w.cmdValid then CfuEnabled else CpuEnabled
    case CfuEnabled =>
      if !RspValid(s.cfu, w) && !w.cmdValid && CmdReady(s.cfu) then CpuEnabled else CfuEnabled
  }

  /** One oscillator edge: the controller always moves, the CFU only when its clock is enabled. */
  function Step(s: System, w: Wires): System {
    System(NextClock(s, w), if CfuClock(s, w) then NextCfu(s.cfu, w) else s.cfu)
  }

  /** The same machine as registers that change at each edge. */
  class GatedCfu {
    var clock: ClockState
    var state: CfuState
    var storedFunctionId: nat
    var storedOutput: uint32

    function Registers(): System
      reads this
    {
      System(clock, Cfu(state, storedFunctionId, storedOutput))
    }

    constructor ()
      ensures Registers() == RESET
    {
      clock, state, storedFunctionId, storedOutput := CpuEnabled, WaitCmd, 0, 0;
    }

    method Edge(w: Wires) returns (cmdReady: bool, rspValid: bool, rspOut: uint32, cpuClock: bool, cfuClock: bool)
      modifies this
      ensures Registers() == Step(old(Registers()), w)
      ensures cmdReady == CmdReady(old(Registers().cfu))
      ensures rspValid == RspValid(old(Registers().cfu), w) && rspOut == RspOut(old(Registers().cfu), w)
      ensures cpuClock == CpuClock(old(Registers()), w) && cfuClock == CfuClock(old(Registers()), w)
    {
      // combinational part: the CFU's outputs
      cmdReady, rspValid, rspOut := false, false, 0;
      var current, currentDone := 0, false;
      var next, nextId, nextOutput := state, storedFunctionId, storedOutput;
      var checking := false;
      match state {
        case WaitCmd =>
          current := w.functionId % 8;
          currentDone := w.dones(current);
          cmdReady := true;
          if w.cmdValid {
            nextId := w.functionId % 8;
            checking := true;
          }
        case WaitInstruction =>
          current := storedFunctionId;
          currentDone := w.dones(current);
          checking := true;
        case WaitTransfer =>
          rspValid := true;
          rspOut := storedOutput;
          if w.rspReady {
            next := WaitCmd;
          }
      }
      if checking {
        if currentDone {
          rspValid := true;
          rspOut := w.outputs(current);
          if w.rspReady {
            next := WaitCmd;
          } else {
            nextOutput := w.outputs(current);
            next := WaitTransfer;
          }
        } else {
          next := WaitInstruction;
        }
      }
      // combinational part: the clock enables
      var nextClock := clock;
      match clock {
        case CpuEnabled =>
          cpuClock, cfuClock := true, false;
          if w.cmdValid {
            cfuClock := true;
            nextClock := CfuEnabled;
          }
        case CfuEnabled =>
          cpuClock, cfuClock := true, true;
          if !rspValid && !w.cmdValid {
            cpuClock := false;
            if cmdReady {
              cpuClock := true;
              nextClock := CpuEnabled;
            }
          }
      }
      // the edge
      clock := nextClock;
      if cfuClock {
        state, storedFunctionId, storedOutput := next, nextId, nextOutput;
      }
    }
  }

  // ---------- runs ----------

  /** The registers after t edges from reset, for a run with the given wires. */
  function After(run: nat -> Wires, t: nat): System {
    if t == 0 then RESET else Step(After(run, t - 1), run(t - 1))
  }

  /** The same run of the CFU alone on a clock that is never gated. */
  function Ungated(run: nat -> Wires, t: nat): Cfu {
    if t == 0 then RESET.cfu else NextCfu(Ungated(run, t - 1), run(t - 1))
  }

  predicate Accept(s: System, w: Wires) { w.cmdValid && CmdReady(s.cfu) }

  predicate Transfer(s: System, w: Wires) { RspValid(s.cfu, w) && w.rspReady }

  /** The controller parks the CFU only while it waits for a command. */
  lemma {:induction false} ParkedInWaitCmd(run: nat -> Wires, t: nat)
    ensures After(run, t).clock.CpuEnabled? ==> After(run, t).cfu.state.WaitCmd?
  {
    if t > 0 {
      ParkedInWaitCmd(run, t - 1);
    }
  }

  /** In every cycle of every run: exactly when the CPU clock stops, where the CFU is when its clock stops, and that
      never both stop. */
  lemma {:induction false} WhenClocksStop(run: nat -> Wires, t: nat)
    ensures var s, w := After(run, t), run(t);
      && (!CpuClock(s, w) <==> s.cfu.state.WaitInstruction? && !w.dones(s.cfu.storedFunctionId) && !w.cmdValid)
      && (!CfuClock(s, w) ==> s.cfu.state.WaitCmd? && !w.cmdValid)
      && (CpuClock(s, w) || CfuClock(s, w))
  {
    ParkedInWaitCmd(run, t);
  }

  /** No command and no response passes on an edge that one of the two sides misses. */
  lemma NoMissedEdge(run: nat -> Wires, t: nat)
    requires Accept(After(run, t), run(t)) || Transfer(After(run, t), run(t))
    ensures CpuClock(After(run, t), run(t)) && CfuClock(After(run, t), run(t))
  {
    ParkedInWaitCmd(run, t);
  }

  /** Gating is invisible: the gated CFU is at every edge in the state of one whose clock never stops. */
  lemma {:induction false} GatingInvisible(run: nat -> Wires, t: nat)
    ensures After(run, t).cfu == Ungated(run, t)
  {
    if t > 0 {
      GatingInvisible(run, t - 1);
      ParkedInWaitCmd(run, t - 1);
    }
  }

  // ---------- commands and responses over a whole run ----------

  /** The cycles before t in which a command was accepted, in order. */
  function Accepts(run: nat -> Wires, t: nat): seq<nat> {
    if t == 0 then []
    else Accepts(run, t - 1) + (if Accept(After(run, t - 1), run(t - 1)) then [t - 1] else [])
  }

  /** The cycles before t in which a response was transferred, in order. */
  function Transfers(run: nat -> Wires, t: nat): seq<nat> {
    if t == 0 then []
    else Transfers(run, t - 1) + (if Transfer(After(run, t - 1), run(t - 1)) then [t - 1] else [])
  }

  /** In every run there is one command without response outside WAIT_CMD and none in it. */
  lemma {:induction false} OneOutstanding(run: nat -> Wires, t: nat)
    ensures |Accepts(run, t)| == |Transfers(run, t)| + (if After(run, t).cfu.state.WaitCmd? then 0 else 1)
  {
    if t > 0 {
      OneOutstanding(run, t - 1);
      ParkedInWaitCmd(run, t - 1);
    }
  }

  /** d is the first cycle from a on in which the instruction chosen at a reports done. */
  ghost predicate FirstDone(run: nat -> Wires, a: nat, d: nat) {
    a <= d && run(d).dones(Funct3(run(a))) && forall t :: a <= t < d ==> !run(t).dones(Funct3(run(a)))
  }

  /** From cycle d until cycle u the response of the command accepted at a is offered, unchanged. */
  ghost predicate Offered(run: nat -> Wires, a: nat, d: nat, u: nat) {
    forall t :: d <= t < u ==>
      RspValid(After(run, t).cfu, run(t)) && RspOut(After(run, t).cfu, run(t)) == run(d).outputs(Funct3(run(a)))
  }

  /** The exchange accepted at a and transferred at u: computed until d, then offered until the CPU takes it at u. */
  ghost predicate Exchange(run: nat -> Wires, a: nat, d: nat, u: nat) {
    && d <= u && FirstDone(run, a, d) && Offered(run, a, d, u + 1)
    && (forall t :: d <= t < u ==> !run(t).rspReady)
    && run(u).rspReady
    && (forall t :: a <= t < d ==> !RspValid(After(run, t).cfu, run(t)))
  }

  /** The command accepted at a is still being computed at t. */
  ghost predicate Computing(run: nat -> Wires, a: nat, t: nat) {
    && a < t && After(run, t).cfu.storedFunctionId == Funct3(run(a))
    && (forall i :: a <= i < t ==> !run(i).dones(Funct3(run(a))))
    && (forall i :: a <= i < t ==> !RspValid(After(run, i).cfu, run(i)))
  }

  /** The response of the command accepted at a was computed at d and has been waiting for the CPU since. */
  ghost predicate Stalled(run: nat -> Wires, a: nat, d: nat, t: nat) {
    && d < t && FirstDone(run, a, d) && Offered(run, a, d, t)
    && After(run, t).cfu.storedOutput == run(d).outputs(Funct3(run(a)))
    && (forall i :: d <= i < t ==> !run(i).rspReady)
    && (forall i :: a <= i < d ==> !RspValid(After(run, i).cfu, run(i)))
  }

  /** Where the command accepted at a is, in the middle of its exchange. */
  ghost predicate Open(run: nat -> Wires, a: nat, t: nat) {
    && (After(run, t).cfu.state.WaitInstruction? ==> Computing(run, a, t))
    && (After(run, t).cfu.state.WaitTransfer? ==> exists d :: Stalled(run, a, d, t))
  }

  lemma CfuMoves(run: nat -> Wires, t: nat)
    ensures After(run, t + 1).cfu == NextCfu(After(run, t).cfu, run(t))
  {
    ParkedInWaitCmd(run, t);
  }

  lemma AcceptOpens(run: nat -> Wires, t: nat)
    requires After(run, t).cfu.state.WaitCmd?
    ensures Open(run, t, t + 1)
  {
    CfuMoves(run, t);
    hide After;
    if After(run, t + 1).cfu.state.WaitTransfer? {
      assert Stalled(run, t, t, t + 1);
    }
  }

  lemma ComputingStays(run: nat -> Wires, a: nat, t: nat)
    requires After(run, t).cfu.state.WaitInstruction? && Computing(run, a, t)
    ensures Open(run, a, t + 1)
  {
    CfuMoves(run, t);
    hide After;
    if After(run, t + 1).cfu.state.WaitTransfer? {
      assert Stalled(run, a, t, t + 1);
    }
  }

  lemma StalledStays(run: nat -> Wires, a: nat, d: nat, t: nat)
    requires After(run, t).cfu.state.WaitTransfer? && Stalled(run, a, d, t)
    ensures Open(run, a, t + 1)
  {
    CfuMoves(run, t);
    hide After;
    if After(run, t + 1).cfu.state.WaitTransfer? {
      assert Stalled(run, a, d, t + 1);
    }
  }

  /** The cycle of the command accepted last before t. */
  function LastAccept(run: nat -> Wires, t: nat): nat
    requires |Accepts(run, t)| > 0
  {
    Accepts(run, t)[|Accepts(run, t)| - 1]
  }

  lemma {:induction false} OpenHolds(run: nat -> Wires, t: nat)
    requires !After(run, t).cfu.state.WaitCmd?
    ensures |Accepts(run, t)| > 0 && Open(run, LastAccept(run, t), t)
  {
    hide Open;
    OneOutstanding(run, t);
    if t > 0 {
      CfuMoves(run, t - 1);
      if After(run, t - 1).cfu.state.WaitCmd? {
        AcceptOpens(run, t - 1);
      } else {
        OpenHolds(run, t - 1);
        OpenStays(run, LastAccept(run, t - 1), t - 1);
      }
    }
  }

  lemma OpenStays(run: nat -> Wires, a: nat, t: nat)
    requires !After(run, t).cfu.state.WaitCmd? && Open(run, a, t)
    ensures Open(run, a, t + 1)
  {
    hide After, Computing, Stalled;
    if After(run, t).cfu.state.WaitInstruction? {
      ComputingStays(run, a, t);
    } else {
      var d :| Stalled(run, a, d, t);
      StalledStays(run, a, d, t);
    }
  }

  /** Every transfer completes an exchange with the command accepted last. */
  lemma TransferCompletes(run: nat -> Wires, u: nat) returns (a: nat, d: nat)
    requires Transfer(After(run, u), run(u))
    ensures |Accepts(run, u + 1)| > 0 && a == LastAccept(run, u + 1)
    ensures Exchange(run, a, d, u)
  {
    if After(run, u).cfu.state.WaitCmd? {
      a, d := u, u;
    } else {
      OpenHolds(run, u);
      a := LastAccept(run, u);
      d := OpenTransfers(run, a, u);
    }
  }

  lemma OpenTransfers(run: nat -> Wires, a: nat, u: nat) returns (d: nat)
    requires Transfer(After(run, u), run(u)) && !After(run, u).cfu.state.WaitCmd? && Open(run, a, u)
    ensures Exchange(run, a, d, u)
  {
    hide After;
    if After(run, u).cfu.state.WaitTransfer? {
      d :| Stalled(run, a, d, u);
    } else {
      d := u;
    }
  }

  /** The n-th response answers the n-th command: it is the output of the instruction that command chose,
      in the first cycle that instruction reports done, held until the CPU takes it. */
  lemma {:induction false} NthResponse(run: nat -> Wires, t: nat, n: nat) returns (d: nat)
    requires n < |Transfers(run, t)|
    ensures n < |Accepts(run, t)|
    ensures Exchange(run, Accepts(run, t)[n], d, Transfers(run, t)[n])
  {
    hide Exchange, After;
    OneOutstanding(run, t);
    OneOutstanding(run, t - 1);
    if n < |Transfers(run, t - 1)| {
      d := NthResponse(run, t - 1, n);
    } else {
      var a;
      a, d := TransferCompletes(run, t - 1);
      TransferLeavesNone(run, t - 1);
    }
  }

  /** The instruction a command chose has not reported done before cycle t: the CFU still waits for it. */
  lemma {:induction false} WaitsForDone(run: nat -> Wires, a: nat, t: nat)
    requires a < t && Accept(After(run, a), run(a)) && (forall i :: a <= i < t ==> !run(i).dones(Funct3(run(a))))
    ensures After(run, t).cfu.state.WaitInstruction? && After(run, t).cfu.storedFunctionId == Funct3(run(a))
  {
    hide After;
    CfuMoves(run, t - 1);
    if a < t - 1 {
      WaitsForDone(run, a, t - 1);
    }
  }

  /** It reported done in cycle d and the CPU has not been ready since: the CFU holds the response. */
  lemma {:induction false} WaitsForReady(run: nat -> Wires, a: nat, d: nat, t: nat)
    requires Accept(After(run, a), run(a)) && FirstDone(run, a, d) && d < t
    requires forall i :: d <= i < t ==> !run(i).rspReady
    ensures After(run, t).cfu.state.WaitTransfer?
    ensures After(run, t).cfu.storedOutput == run(d).outputs(Funct3(run(a)))
  {
    hide After;
    CfuMoves(run, t - 1);
    if d < t - 1 {
      WaitsForReady(run, a, d, t - 1);
    } else if a < d {
      WaitsForDone(run, a, d);
    }
  }

  /** Progress: every accepted command whose instruction reports done is answered in the first cycle from then on in
      which the CPU is ready, with what the instruction put out when it was done. */
  lemma CommandIsAnswered(run: nat -> Wires, a: nat, d: nat, u: nat)
    requires Accept(After(run, a), run(a)) && FirstDone(run, a, d)
    requires d <= u && run(u).rspReady && (forall t :: d <= t < u ==> !run(t).rspReady)
    ensures Transfer(After(run, u), run(u)) && RspOut(After(run, u).cfu, run(u)) == run(d).outputs(Funct3(run(a)))
  {
    if d < u {
      WaitsForReady(run, a, d, u);
    } else if a < d {
      WaitsForDone(run, a, d);
    }
    hide After;
  }

  lemma TransferLeavesNone(run: nat -> Wires, u: nat)
    requires Transfer(After(run, u), run(u))
    ensures After(run, u + 1).cfu.state.WaitCmd?
  {
    CfuMoves(run, u);
  }

  /** Accepts and Transfers list exactly the cycles of those events. */
  lemma {:induction false} EventCycles(run: nat -> Wires, t: nat, i: nat)
    ensures i in Accepts(run, t) <==> i < t && Accept(After(run, i), run(i))
    ensures i in Transfers(run, t) <==> i < t && Transfer(After(run, i), run(i))
  {
    if t > 0 {
      EventCycles(run, t - 1, i);
    }
  }

  /** Responses come in order: the next command is accepted only after the response to the one before it is taken. */
  lemma {:induction false} ResponseBeforeNextCommand(run: nat -> Wires, t: nat, n: nat)
    requires n + 1 < |Accepts(run, t)|
    ensures n < |Transfers(run, t)| && Transfers(run, t)[n] < Accepts(run, t)[n + 1]
  {
    hide After;
    if n + 1 < |Accepts(run, t - 1)| {
      ResponseBeforeNextCommand(run, t - 1, n);
    } else {
      OneOutstanding(run, t - 1);
      EventCycles(run, t - 1, Transfers(run, t - 1)[n]);
    }
  }

  /** Each command gives one start pulse, to the instruction it chose, and nothing else ever starts an instruction. */
  lemma OneStartPerCommand(run: nat -> Wires, t: nat, c: nat, i: nat)
    requires c < t
    ensures Start(After(run, c).cfu, run(c), i) <==> c in Accepts(run, t) && i == Funct3(run(c))
  {
    EventCycles(run, t, c);
  }

  // ---------- which instruction a function id names ----------

  /** A command with function id 8f + i starts instruction i and no other, and is answered by it: with its output in the
      first cycle it is done, once the CPU is ready. */
  lemma IdNamesInstruction(run: nat -> Wires, a: nat, f: nat, i: nat, d: nat, u: nat)
    requires i < 8 && run(a).functionId == 8 * f + i && Accept(After(run, a), run(a))
    requires a <= d && run(d).dones(i) && (forall t :: a <= t < d ==> !run(t).dones(i))
    requires d <= u && run(u).rspReady && (forall t :: d <= t < u ==> !run(t).rspReady)
    ensures forall j :: Start(After(run, a).cfu, run(a), j) <==> j == i
    ensures Transfer(After(run, u), run(u)) && RspOut(After(run, u).cfu, run(u)) == run(d).outputs(i)
  {
    assert Funct3(run(a)) == i;
    CommandIsAnswered(run, a, d, u);
  }

  // ---------- function ids without an instruction ----------

  /** The wires when the ids outside `defined` are served by the fallback instruction. */
  predicate WithFallback(w: Wires, defined: set<nat>) {
    forall i :: 0 <= i < 8 && i !in defined ==> w.dones(i) && w.outputs(i) == w.in0
  }

  /** A command for an undefined id is answered in the cycle that accepts it, with its first operand. */
  lemma FallbackAnswersAtOnce(run: nat -> Wires, defined: set<nat>, t: nat)
    requires WithFallback(run(t), defined) && Funct3(run(t)) !in defined
    requires Accept(After(run, t), run(t))
    ensures RspValid(After(run, t).cfu, run(t)) && RspOut(After(run, t).cfu, run(t)) == run(t).in0
  {
  }
}
