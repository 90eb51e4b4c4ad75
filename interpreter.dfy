/**
 * The interpreter loop (Python's `Code.exec`): fetch the token at the current
 * address, stop if it is Exit, otherwise dispatch it through the context and
 * move to the next address or to the address a GoTo returned.
 */
module Interpreter {
  import opened Wrappers
  import opened Tokens
  import opened Machine

  /** How a run ends. `BadAddress` is Python's `IndexError` on the fetch and
      `FuelExhausted` its `TimeoutError`. */
  datatype Outcome = Halted | FuelExhausted | BadAddress(address: nat)

  /** The address after an instruction that signalled `sig` at `pc`. */
  function Next(pc: nat, sig: Signal): nat
  {
    match sig
    case Advance => pc + 1
    case JumpTo(a) => a
  }

  /** The loop's `code_pt + 1 if pt < 0 else pt`, on the integer a token returned. */
  function NextAddress(pc: nat, pt: int): (next: int)
    ensures next >= 0 && next == Next(pc, SignalOf(pt))
  {
    if pt < 0 then pc + 1 else pt
  }

  /** The sentinel rule and the tagged rule choose the same next address, and it
      is never negative. */
  lemma NextAddressAgrees(pc: nat, sig: Signal)
    ensures NextAddress(pc, Sentinel(sig)) == Next(pc, sig) >= 0
  {
  }

  function Max(a: int, b: int): int
  {
    if a < b then b else a
  }

  /**
   * What a run from address `pc` in state `s` ends with. The fetch is checked
   * before Exit, and Exit before the fuel. Fuel never goes negative and is 0
   * whenever the run is stopped for lack of it; the tape keeps its
   * length; the output only grows. A bad address is past the end of the program
   * and was reached either by advancing or by a jump, so it is at most the
   * larger of the starting address, the program length and 255.
   */
  function Run(code: seq<Opcode>, pc: nat, s: State): (r: (Outcome, State))
    requires s.Valid() && s.fuel >= 0
    ensures r.1.Valid() && |r.1.cells| == |s.cells|
    ensures 0 <= r.1.fuel <= s.fuel
    ensures r.0 == FuelExhausted ==> r.1.fuel == 0
    ensures r.0.BadAddress? ==> |code| <= r.0.address <= Max(pc, Max(|code|, 255))
    ensures s.output <= r.1.output
    decreases s.fuel
  {
    if pc >= |code| then (BadAddress(pc), s)
    else if code[pc] == Exit then (Halted, s)
    else match Step(code[pc], s)
      case Err(_) => (FuelExhausted, s)
      case Ok((sig, t)) => Run(code, Next(pc, sig), t)
  }

  /** `Code.exec`, run against a context. Requires a non-negative fuel counter:
      with a negative one the source's `== 0` test never fires. */
  method Exec(code: seq<Opcode>, ctx: Context) returns (outcome: Outcome)
    requires ctx.Valid() && ctx.numCyclesLeft >= 0
    modifies ctx`ptr, ctx`input, ctx`output, ctx`numCyclesLeft, ctx.buffer
    ensures ctx.Valid()
    ensures (outcome, ctx.Model()) == Run(code, 0, old(ctx.Model()))
  {
    var codePt: nat := 0;
    while true
      invariant ctx.Valid() && ctx.numCyclesLeft >= 0
      invariant Run(code, codePt, ctx.Model()) == Run(code, 0, old(ctx.Model()))
      decreases ctx.numCyclesLeft
    {
      if codePt >= |code| {
        return BadAddress(codePt);
      }
      var token := code[codePt];
      if token == Exit {
        return Halted;
      }
      var pt := ctx.Exec(token);
      if pt.Err? {
        return FuelExhausted;
      }
      codePt := if pt.value < 0 then codePt + 1 else pt.value;
    }
  }

  /** The order of the checks: a bad address is reported even without fuel, Exit
      stops the run without spending fuel or changing anything, and any other
      instruction with no fuel left stops it with nothing changed. */
  lemma FetchThenExitThenFuel(code: seq<Opcode>, pc: nat, s: State)
    requires s.Valid() && s.fuel >= 0
    ensures pc >= |code| ==> Run(code, pc, s) == (BadAddress(pc), s)
    ensures pc < |code| && code[pc] == Exit ==> Run(code, pc, s) == (Halted, s)
    ensures pc < |code| && code[pc] != Exit && s.fuel == 0 ==> Run(code, pc, s) == (FuelExhausted, s)
  {
  }

  /** The loop ends successfully only at an Exit: if a run halts, the program
      contains an Exit. */
  lemma {:induction false} HaltsOnlyAtExit(code: seq<Opcode>, pc: nat, s: State)
    requires s.Valid() && s.fuel >= 0
    requires Run(code, pc, s).0 == Halted
    ensures Exit in code
    decreases s.fuel
  {
    if pc < |code| && code[pc] != Exit {
      var (sig, t) := Step(code[pc], s).value;
      HaltsOnlyAtExit(code, Next(pc, sig), t);
    }
  }

  /** GoTo moves to the address equal to the current cell, whatever came before,
      at the cost of one unit of fuel and nothing else. */
  lemma GoToJumpsToCell(code: seq<Opcode>, pc: nat, s: State)
    requires s.Valid() && s.fuel > 0
    requires pc < |code| && code[pc] == GoTo
    ensures Run(code, pc, s) == Run(code, s.cells[s.ptr] as nat, s.(fuel := s.fuel - 1))
  {
    var t := s.(fuel := s.fuel - 1);
    assert Step(GoTo, s) == Ok((JumpTo(s.cells[s.ptr] as nat), t));
    assert Next(pc, JumpTo(s.cells[s.ptr] as nat)) == s.cells[s.ptr] as nat;
  }

  /** Net effect on a cell of the Plus and Minus at addresses `lo` up to `hi`. */
  function CellDelta(code: seq<Opcode>, lo: nat, hi: nat): int
    requires lo <= hi <= |code|
    decreases hi - lo
  {
    if lo == hi then 0
    else (if code[lo] == Plus then 1 else if code[lo] == Minus then -1 else 0) + CellDelta(code, lo + 1, hi)
  }

  /** Net effect on the cursor of the Forward and Backward at addresses `lo` up to `hi`. */
  function CursorDelta(code: seq<Opcode>, lo: nat, hi: nat): int
    requires lo <= hi <= |code|
    decreases hi - lo
  {
    if lo == hi then 0
    else (if code[lo] == Forward then 1 else if code[lo] == Backward then -1 else 0) + CursorDelta(code, lo + 1, hi)
  }

  lemma {:induction false} MulAtLeast(a: int, n: int)
    requires a >= 1 && n > 0
    ensures a * n >= n
    decreases a
  {
    if a > 1 {
      MulAtLeast(a - 1, n);
      assert a * n == (a - 1) * n + n;
    }
  }

  /** Division with a remainder in [0, n) has only one answer. */
  lemma ModUnique(x: int, q: int, r: int, n: int)
    requires n > 0 && 0 <= r < n && x == q * n + r
    ensures x % n == r
  {
    var q', r' := x / n, x % n;
    assert (q - q') * n == r' - r;
    if q - q' >= 1 {
      MulAtLeast(q - q', n);
    } else if q' - q >= 1 {
      MulAtLeast(q' - q, n);
    }
  }

  /** Reducing before adding does not change the remainder. */
  lemma ModThenAdd(a: int, d: int, n: int)
    requires n > 0
    ensures (a % n + d) % n == (a + d) % n
  {
    var q, r := a / n, a % n;
    var q2, r2 := (r + d) / n, (r + d) % n;
    assert a + d == (q + q2) * n + r2;
    ModUnique(a + d, q + q2, r2, n);
  }

  /** One instruction that advances: the run continues at the next address. */
  lemma RunAdvances(code: seq<Opcode>, pc: nat, s: State, t: State)
    requires s.Valid() && s.fuel > 0 && pc < |code| && code[pc] != Exit
    requires Step(code[pc], s) == Ok((Advance, t))
    ensures Run(code, pc, s) == Run(code, pc + 1, t)
  {
  }

  lemma StepPlusMinus(op: Opcode, s: State)
    requires s.Valid() && s.fuel > 0 && (op == Plus || op == Minus)
    ensures Step(op, s) == Ok((Advance, AddToCell(s, if op == Plus then 1 else -1, 1)))
  {
  }

  lemma StepForwardBackward(op: Opcode, s: State)
    requires s.Valid() && s.fuel > 0 && (op == Forward || op == Backward)
    ensures Step(op, s) == Ok((Advance, MoveCursor(s, if op == Forward then 1 else -1, 1)))
  {
  }

  lemma RunPlusMinus(code: seq<Opcode>, pc: nat, s: State)
    requires s.Valid() && s.fuel > 0 && pc < |code| && (code[pc] == Plus || code[pc] == Minus)
    ensures Run(code, pc, s) == Run(code, pc + 1, AddToCell(s, if code[pc] == Plus then 1 else -1, 1))
  {
    StepPlusMinus(code[pc], s);
    RunAdvances(code, pc, s, AddToCell(s, if code[pc] == Plus then 1 else -1, 1));
  }

  lemma RunForwardBackward(code: seq<Opcode>, pc: nat, s: State)
    requires s.Valid() && s.fuel > 0 && pc < |code| && (code[pc] == Forward || code[pc] == Backward)
    ensures Run(code, pc, s) == Run(code, pc + 1, MoveCursor(s, if code[pc] == Forward then 1 else -1, 1))
  {
    StepForwardBackward(code[pc], s);
    RunAdvances(code, pc, s, MoveCursor(s, if code[pc] == Forward then 1 else -1, 1));
  }

  /** The state after adding `delta` (modulo 256) to the current cell and
      spending `steps` units of fuel. */
  function AddToCell(s: State, delta: int, steps: int): (t: State)
    requires s.Valid()
    ensures t.Valid()
  {
    s.(cells := s.cells[s.ptr := Mask8(s.cells[s.ptr] as int + delta)], fuel := s.fuel - steps)
  }

  /** The state after moving the cursor by `delta` (modulo the tape length) and
      spending `steps` units of fuel. */
  function MoveCursor(s: State, delta: int, steps: int): (t: State)
    requires s.Valid()
    ensures t.Valid()
  {
    s.(ptr := (s.ptr + delta) % |s.cells|, fuel := s.fuel - steps)
  }

  lemma AddToCellTwice(s: State, d: int, rest: int, steps: int)
    requires s.Valid()
    ensures AddToCell(AddToCell(s, d, 1), rest, steps) == AddToCell(s, d + rest, steps + 1)
  {
    var c := s.cells[s.ptr] as int;
    MaskThenAdd(c + d, rest);
    UpdateTwice(s.cells, s.ptr, Mask8(c + d), Mask8(c + d + rest));
  }

  lemma MoveCursorTwice(s: State, d: int, rest: int, steps: int)
    requires s.Valid()
    ensures MoveCursor(MoveCursor(s, d, 1), rest, steps) == MoveCursor(s, d + rest, steps + 1)
  {
    ModThenAdd(s.ptr + d, rest, |s.cells|);
  }

  lemma AddToCellNothing(s: State)
    requires s.Valid()
    ensures AddToCell(s, 0, 0) == s
  {
    UpdateTwice(s.cells, s.ptr, s.cells[s.ptr], s.cells[s.ptr]);
    assert s.cells[s.ptr := s.cells[s.ptr]] == s.cells;
  }

  lemma MoveCursorNothing(s: State)
    requires s.Valid()
    ensures MoveCursor(s, 0, 0) == s
  {
    ModUnique(s.ptr, 0, s.ptr, |s.cells|);
  }

  lemma CellDeltaUnfold(code: seq<Opcode>, pc: nat, k: nat)
    requires pc < k <= |code| && (code[pc] == Plus || code[pc] == Minus)
    ensures CellDelta(code, pc, k) == (if code[pc] == Plus then 1 else -1) + CellDelta(code, pc + 1, k)
  {
  }

  lemma CursorDeltaUnfold(code: seq<Opcode>, pc: nat, k: nat)
    requires pc < k <= |code| && (code[pc] == Forward || code[pc] == Backward)
    ensures CursorDelta(code, pc, k) == (if code[pc] == Forward then 1 else -1) + CursorDelta(code, pc + 1, k)
  {
  }

  lemma UpdateTwice(cells: seq<byte>, i: nat, first: byte, second: byte)
    requires i < |cells|
    ensures cells[i := first][i := second] == cells[i := second]
  {
  }

  lemma MaskThenAdd(a: int, d: int)
    ensures Mask8(Mask8(a) as int + d) == Mask8(a + d)
  {
    ModThenAdd(a, d, 256);
  }

  /**
   * A stretch of Plus and Minus from `pc` up to `k` only adds its net count,
   * modulo 256, to the current cell, spending one unit of fuel per instruction.
   */
  lemma {:induction false} CellNetDelta(code: seq<Opcode>, pc: nat, k: nat, s: State)
    requires s.Valid() && pc <= k <= |code| && s.fuel >= k - pc
    requires forall i :: pc <= i < k ==> code[i] == Plus || code[i] == Minus
    ensures Run(code, pc, s) == Run(code, k, AddToCell(s, CellDelta(code, pc, k), k - pc))
    decreases k - pc
  {
    if pc == k {
      AddToCellNothing(s);
    } else {
      var d := if code[pc] == Plus then 1 else -1;
      var t := AddToCell(s, d, 1);
      assert Run(code, pc, s) == Run(code, pc + 1, t) by { RunPlusMinus(code, pc, s); }
      CellNetDelta(code, pc + 1, k, t);
      assert AddToCell(t, CellDelta(code, pc + 1, k), k - (pc + 1)) == AddToCell(s, CellDelta(code, pc, k), k - pc) by {
        CellDeltaUnfold(code, pc, k);
        AddToCellTwice(s, d, CellDelta(code, pc + 1, k), k - (pc + 1));
      }
    }
  }

  /**
   * A stretch of Forward and Backward from `pc` up to `k` only moves the cursor
   * by its net count modulo the tape length, spending one unit of fuel per
   * instruction.
   */
  lemma {:induction false} CursorNetDelta(code: seq<Opcode>, pc: nat, k: nat, s: State)
    requires s.Valid() && pc <= k <= |code| && s.fuel >= k - pc
    requires forall i :: pc <= i < k ==> code[i] == Forward || code[i] == Backward
    ensures Run(code, pc, s) == Run(code, k, MoveCursor(s, CursorDelta(code, pc, k), k - pc))
    decreases k - pc
  {
    if pc == k {
      MoveCursorNothing(s);
    } else {
      var d := if code[pc] == Forward then 1 else -1;
      var t := MoveCursor(s, d, 1);
      assert Run(code, pc, s) == Run(code, pc + 1, t) by { RunForwardBackward(code, pc, s); }
      CursorNetDelta(code, pc + 1, k, t);
      assert MoveCursor(t, CursorDelta(code, pc + 1, k), k - (pc + 1)) == MoveCursor(s, CursorDelta(code, pc, k), k - pc) by {
        CursorDeltaUnfold(code, pc, k);
        MoveCursorTwice(s, d, CursorDelta(code, pc + 1, k), k - (pc + 1));
      }
    }
  }

  /**
   * A program that runs straight (no GoTo, no Exit) from `pc` to an Exit at `k`
   * halts exactly when the fuel covers its `k - pc` instructions; otherwise it
   * stops for lack of fuel after spending all of it.
   */
  lemma {:induction false} StraightLineFuel(code: seq<Opcode>, pc: nat, k: nat, s: State)
    requires s.Valid() && s.fuel >= 0 && pc <= k < |code| && code[k] == Exit
    requires forall i :: pc <= i < k ==> code[i] != GoTo && code[i] != Exit
    ensures Run(code, pc, s).0 == if s.fuel >= k - pc then Halted else FuelExhausted
    ensures Run(code, pc, s).1.fuel == if s.fuel >= k - pc then s.fuel - (k - pc) else 0
    decreases k - pc
  {
    if pc < k && s.fuel > 0 {
      StraightLineFuel(code, pc + 1, k, Step(code[pc], s).value.1);
    }
  }

  lemma DispatchIgnoresFuel(op: Opcode, s: State, f: int)
    requires s.Valid() && op != Exit
    ensures Dispatch(op, s.(fuel := f)) == (Dispatch(op, s).0, Dispatch(op, s).1.(fuel := f))
  {
  }

  /** More fuel changes nothing but the fuel left over: a run that did not run
      out of fuel ends the same way with `extra` more, and with `extra` more left. */
  lemma {:induction false} FuelMonotone(code: seq<Opcode>, pc: nat, s: State, extra: nat)
    requires s.Valid() && s.fuel >= 0
    requires Run(code, pc, s).0 != FuelExhausted
    ensures Run(code, pc, s.(fuel := s.fuel + extra)) ==
      (Run(code, pc, s).0, Run(code, pc, s).1.(fuel := Run(code, pc, s).1.fuel + extra))
    decreases s.fuel
  {
    var s' := s.(fuel := s.fuel + extra);
    if pc < |code| && code[pc] != Exit {
      var t := Step(code[pc], s).value.1;
      DispatchIgnoresFuel(code[pc], s.(fuel := s.fuel - 1), s'.fuel - 1);
      assert s.(fuel := s.fuel - 1).(fuel := s'.fuel - 1) == s'.(fuel := s'.fuel - 1);
      assert Step(code[pc], s') == Ok((Step(code[pc], s).value.0, t.(fuel := t.fuel + extra)));
      FuelMonotone(code, Next(pc, Step(code[pc], s).value.0), t, extra);
    }
  }
}
