/** The prefetching memory reader of amaranth_cfu/util.py, in front of a memory whose reads take one cycle. */
module Reader {
  import opened Words

  /** The reader's two command inputs in one cycle. */
  datatype Pulse = Pulse(restart: bool, next: bool)

  /** The reader's registers, and the memory's read register. */
  datatype Registers = Registers(wasRestart: bool, wasNext: bool, lastAddress: nat, lastData: int, readData: int)

  /** A circular increment. */
  function Incremented(address: nat, limit: nat): nat {
    if address == limit - 1 then 0 else address + 1
  }

  /** The address sent to the memory in this cycle. */
  function Address(r: Registers, p: Pulse, limit: nat): nat {
    if p.restart then 0
    else if r.wasNext || r.wasRestart then Incremented(r.lastAddress, limit)
    else r.lastAddress
  }

  /** The data offered in this cycle. */
  function Data(r: Registers): int {
    if r.wasRestart || r.wasNext then r.readData else r.lastData
  }

  /** The word the memory puts out in the cycle after `address` was sent. */
  function Fetch(mem: seq<int>, address: nat): int {
    if address < |mem| then mem[address] else 0
  }

  function Step(r: Registers, p: Pulse, limit: nat, mem: seq<int>): Registers {
    Registers(p.restart, p.next, Address(r, p, limit), Data(r), Fetch(mem, Address(r, p, limit)))
  }

  class SequentialMemoryReader {
    var wasRestart: bool
    var wasNext: bool
    var lastAddress: nat
    var lastData: int
    var readData: int

    function State(): Registers
      reads this
    {
      Registers(wasRestart, wasNext, lastAddress, lastData, readData)
    }

    constructor ()
      ensures State() == Registers(false, false, 0, 0, 0)
    {
      wasRestart, wasNext, lastAddress, lastData, readData := false, false, 0, 0, 0;
    }

    /** One clock cycle: the outputs, then the edge. */
    method Cycle(p: Pulse, limit: nat, mem: seq<int>) returns (address: nat, data: int)
      modifies this
      ensures address == Address(old(State()), p, limit) && data == Data(old(State()))
      ensures State() == Step(old(State()), p, limit, mem)
    {
      var incremented := if lastAddress == limit - 1 then 0 else lastAddress + 1;
      if p.restart {
        address := 0;
      } else if wasNext || wasRestart {
        address := incremented;
      } else {
        address := lastAddress;
      }
      data := if wasRestart || wasNext then readData else lastData;
      wasRestart, wasNext, lastAddress, lastData, readData :=
        p.restart, p.next, address, data, if address < |mem| then mem[address] else 0;
    }
  }

  // ---------- runs ----------

  /** The registers at the start of cycle t. */
  function At(start: Registers, run: nat -> Pulse, limit: nat, mem: seq<int>, t: nat): Registers {
    if t == 0 then start else Step(At(start, run, limit, mem, t - 1), run(t - 1), limit, mem)
  }

  /** A plain cursor: the number of words taken since the last restart, as seen in cycle t. A restart in cycle t-1
      overrides a pulse of `next` in that cycle. Before any restart there is no cursor. */
  function Cursor(run: nat -> Pulse, t: nat): int {
    if t == 0 then -1
    else if run(t - 1).restart then 0
    else if Cursor(run, t - 1) < 0 then -1
    else Cursor(run, t - 1) + (if run(t - 1).next then 1 else 0)
  }

  /** The registers agree with the cursor: just after a pulse or a restart the word at the cursor is arriving from the
      memory; otherwise it is held, and the one after it has been asked for. */
  ghost predicate Follows(r: Registers, cursor: int, limit: nat, mem: seq<int>)
    requires 0 < limit <= |mem| && cursor >= 0
  {
    if r.wasRestart || r.wasNext then
      r.lastAddress == cursor % limit && r.readData == mem[cursor % limit]
    else
      r.lastAddress == (cursor + 1) % limit && r.lastData == mem[cursor % limit]
  }

  lemma IncrementIsNext(cursor: nat, limit: nat)
    requires limit > 0
    ensures Incremented(cursor % limit, limit) == (cursor + 1) % limit
  {
    var q, r := cursor / limit, cursor % limit;
    assert cursor == q * limit + r;
    if r == limit - 1 {
      DivModUnique(cursor + 1, limit, q + 1, 0);
    } else {
      DivModUnique(cursor + 1, limit, q, r + 1);
    }
  }

  lemma {:induction false} ReaderFollows(start: Registers, run: nat -> Pulse, limit: nat, mem: seq<int>, t: nat)
    requires 0 < limit <= |mem| && Cursor(run, t) >= 0
    ensures Follows(At(start, run, limit, mem, t), Cursor(run, t), limit, mem)
  {
    if !run(t - 1).restart {
      ReaderFollows(start, run, limit, mem, t - 1);
      var c := Cursor(run, t - 1);
      IncrementIsNext(c, limit);
    }
  }

  /** In every cycle after a restart, for every pattern of pulses, the reader offers the word at the cursor and sends
      the address of the one after it, whatever its registers held before the restart. */
  lemma ReaderIsCursor(start: Registers, run: nat -> Pulse, limit: nat, mem: seq<int>, t: nat)
    requires 0 < limit <= |mem| && Cursor(run, t) >= 0
    ensures var r, c := At(start, run, limit, mem, t), Cursor(run, t);
      && Data(r) == mem[c % limit]
      && Address(r, run(t), limit) == if run(t).restart then 0 else (c + 1) % limit
  {
    ReaderFollows(start, run, limit, mem, t);
    IncrementIsNext(Cursor(run, t), limit);
  }

  /** The cursor counts the pulses of `next` since the cycle after the last restart. */
  function Pulses(run: nat -> Pulse, from: nat, to: nat): nat
    requires from <= to
  {
    if from == to then 0 else Pulses(run, from, to - 1) + (if run(to - 1).next then 1 else 0)
  }

  lemma {:induction false} CursorCountsPulses(run: nat -> Pulse, s: nat, t: nat)
    requires s < t && run(s).restart && (forall u :: s < u < t ==> !run(u).restart)
    ensures Cursor(run, t) == Pulses(run, s + 1, t)
  {
    if t > s + 1 {
      CursorCountsPulses(run, s, t - 1);
    }
  }

  /** The whole contract, from one restart on: after n pulses the data is word n modulo the limit. */
  lemma DataAfterPulses(start: Registers, run: nat -> Pulse, limit: nat, mem: seq<int>, s: nat, t: nat)
    requires 0 < limit <= |mem| && s < t && run(s).restart && (forall u :: s < u <= t ==> !run(u).restart)
    ensures var n := Pulses(run, s + 1, t);
      && Data(At(start, run, limit, mem, t)) == mem[n % limit]
      && Address(At(start, run, limit, mem, t), run(t), limit) == (n + 1) % limit
  {
    CursorCountsPulses(run, s, t);
    ReaderIsCursor(start, run, limit, mem, t);
  }
}
