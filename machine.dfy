/**
 * The machine state (Python's `Context`): a fixed-size tape of byte cells, a
 * cursor on it, the input still to be read, the output written so far and the
 * fuel counter. Cell writes keep the low eight bits, cursor writes wrap modulo
 * the tape length, and every dispatched instruction costs one unit of fuel.
 */
module Machine {
  import opened Wrappers
  import opened Tokens

  /** Python's `value & 255`. For every integer, negative ones included, this is
      the remainder modulo 256 (for a positive divisor neither Dafny's `%` nor
      Python's yields a negative remainder). */
  function Mask8(value: int): (b: byte)
    ensures (b as int - value) % 256 == 0
  {
    (value % 256) as byte
  }

  /** The control transfer an instruction asks for: the next address, or an
      absolute address. */
  datatype Signal = Advance | JumpTo(address: nat)

  /** The integer a token's `exec` returns in the source: -1 to advance, the
      target address to jump. */
  function Sentinel(sig: Signal): (pt: int)
    ensures pt < 0 <==> sig.Advance?
    ensures sig.JumpTo? ==> pt == sig.address
  {
    match sig
    case Advance => -1
    case JumpTo(a) => a
  }

  /** How the interpreter loop reads that integer back. */
  function SignalOf(pt: int): (sig: Signal)
    ensures sig.JumpTo? <==> pt >= 0
    ensures pt >= -1 ==> Sentinel(sig) == pt
  {
    if pt < 0 then Advance else JumpTo(pt)
  }

  /** The sentinel encoding loses nothing: reading back what an instruction
      returned gives back its signal. */
  lemma SentinelRoundTrip(sig: Signal)
    ensures SignalOf(Sentinel(sig)) == sig
  {
  }

  /** Fuel ran out before an instruction could be dispatched (Python's `TimeoutError`). */
  datatype Timeout = Timeout

  /** The abstract value of a `Context`. */
  datatype State = State(cells: seq<byte>, ptr: nat, input: seq<byte>, output: seq<byte>, fuel: int)
  {
    /** The tape is not empty and the cursor is on it. */
    predicate Valid()
    {
      0 <= ptr < |cells|
    }

    /** The `current_value` getter. */
    function Current(): (v: byte)
      requires Valid()
      ensures SetCurrent(v as int) == this
    {
      cells[ptr]
    }

    /** The `current_value` setter: stores `value & 255` at the cursor. */
    function SetCurrent(value: int): (s: State)
      requires Valid()
      ensures s.Valid() && |s.cells| == |cells| && s.ptr == ptr
      ensures (s.cells[ptr] as int - value) % 256 == 0
      ensures forall i :: 0 <= i < |cells| && i != ptr ==> s.cells[i] == cells[i]
      ensures s.input == input && s.output == output && s.fuel == fuel
    {
      this.(cells := cells[ptr := Mask8(value)])
    }

    /** The `pointer` setter: stores `value % len(buffer)`. */
    function SetPointer(value: int): (s: State)
      requires Valid()
      ensures s.Valid() && s.ptr == value % |cells|
      ensures s == this.(ptr := s.ptr)
    {
      this.(ptr := value % |cells|)
    }

    /** `read(1)`: the next input byte, or nothing once the input is exhausted. */
    function ReadInput(): (r: (State, seq<byte>))
      ensures |r.1| <= 1 && (r.1 == [] <==> input == [])
      ensures r.1 + r.0.input == input
      ensures r.0 == this.(input := r.0.input)
    {
      if input == [] then (this, []) else (this.(input := input[1..]), input[..1])
    }
  }

  /** The `exec` method of each token class other than ExitToken, whose `exec`
      is never called. */
  function Dispatch(op: Opcode, s: State): (r: (Signal, State))
    requires s.Valid() && op != Exit
    ensures r.1.Valid() && |r.1.cells| == |s.cells| && r.1.fuel == s.fuel
    ensures r.0.JumpTo? <==> op == GoTo
    ensures op != Read ==> r.1.input == s.input
    ensures op != Print ==> r.1.output == s.output
  {
    match op
    case GoTo => (JumpTo(s.Current() as nat), s)
    case Plus => (Advance, s.SetCurrent(s.Current() as int + 1))
    case Minus => (Advance, s.SetCurrent(s.Current() as int - 1))
    case Forward => (Advance, s.SetPointer(s.ptr + 1))
    case Backward => (Advance, s.SetPointer(s.ptr - 1))
    case Print => (Advance, s.(output := s.output + [s.Current()]))
    case Read =>
      var (s1, bytes) := s.ReadInput();
      (Advance, s1.SetCurrent(if bytes == [] then 0 else bytes[0] as int))
  }

  /**
   * `Context.exec`: with no fuel left, fail without running the instruction;
   * otherwise take one unit of fuel and run it. Only GoTo jumps, to the
   * address held in the current cell; the tape keeps its length and the cursor
   * stays on it; the output only grows and the input only shrinks.
   */
  function Step(op: Opcode, s: State): (r: Result<(Signal, State), Timeout>)
    requires s.Valid() && op != Exit
    ensures r.Err? <==> s.fuel == 0
    ensures r.Ok? ==> r.value.1.Valid() && |r.value.1.cells| == |s.cells|
    ensures r.Ok? ==> r.value.1.fuel == s.fuel - 1
    ensures r.Ok? ==> (r.value.0.JumpTo? <==> op == GoTo)
    ensures r.Ok? && op == GoTo ==> r.value.0.address == s.cells[s.ptr] as int && r.value.1 == s.(fuel := s.fuel - 1)
    ensures r.Ok? ==> s.output <= r.value.1.output && |r.value.1.output| <= |s.output| + 1
    ensures r.Ok? ==> r.value.1.input == s.input || (s.input != [] && r.value.1.input == s.input[1..])
  {
    if s.fuel == 0 then Err(Timeout)
    else Ok(Dispatch(op, s.(fuel := s.fuel - 1)))
  }

  /** Plus and Minus add +1 or -1 modulo 256 to the current cell and change
      nothing else but the fuel. */
  lemma PlusMinusChangeOnlyCurrent(op: Opcode, s: State)
    requires s.Valid() && (op == Plus || op == Minus) && s.fuel != 0
    ensures var (sig, t) := Step(op, s).value;
      var delta := if op == Plus then 1 else -1;
      && sig == Advance
      && |t.cells| == |s.cells|
      && t.cells[t.ptr] as int == (s.cells[s.ptr] as int + delta) % 256
      && (forall i :: 0 <= i < |s.cells| && i != s.ptr ==> t.cells[i] == s.cells[i])
      && t == s.(cells := t.cells, fuel := s.fuel - 1)
  {
  }

  /** Cells wrap: Plus takes 255 to 0 and Minus takes 0 to 255. */
  lemma CellWrapsAround(s: State)
    requires s.Valid() && s.fuel != 0
    ensures s.cells[s.ptr] == 255 ==> Step(Plus, s).value.1.Current() == 0
    ensures s.cells[s.ptr] == 0 ==> Step(Minus, s).value.1.Current() == 255
  {
  }

  /** Plus followed by Minus (or Minus by Plus) restores the tape. */
  lemma PlusMinusCancel(s: State, first: Opcode, second: Opcode)
    requires s.Valid() && s.fuel != 0 && s.fuel != 1
    requires (first == Plus && second == Minus) || (first == Minus && second == Plus)
    ensures var t := Step(first, s).value.1;
      Step(second, t).value.1 == s.(fuel := s.fuel - 2)
  {
    var t := Step(first, s).value.1;
    var u := Step(second, t).value.1;
    assert u.cells == s.cells;
  }

  /** Forward and Backward move the cursor by +1 or -1 modulo the tape length and
      change nothing else but the fuel: Forward from the last cell goes to the
      first, Backward from the first to the last. */
  lemma ForwardBackwardWrap(op: Opcode, s: State)
    requires s.Valid() && (op == Forward || op == Backward) && s.fuel != 0
    ensures var (sig, t) := Step(op, s).value;
      && sig == Advance
      && t.ptr == (if op == Forward then s.ptr + 1 else s.ptr - 1) % |s.cells|
      && (op == Forward && s.ptr == |s.cells| - 1 ==> t.ptr == 0)
      && (op == Backward && s.ptr == 0 ==> t.ptr == |s.cells| - 1)
      && t == s.(ptr := t.ptr, fuel := s.fuel - 1)
  {
  }

  /** Read stores the next input byte in the current cell and consumes it, or
      stores 0 when the input is exhausted. */
  lemma ReadStoresNextByte(s: State)
    requires s.Valid() && s.fuel != 0
    ensures var (sig, t) := Step(Read, s).value;
      && sig == Advance
      && t.cells == s.cells[s.ptr := if s.input == [] then 0 else s.input[0]]
      && t.input == (if s.input == [] then [] else s.input[1..])
      && t == s.(cells := t.cells, input := t.input, fuel := s.fuel - 1)
  {
  }

  /** Print appends the current cell to the output and leaves the tape alone. */
  lemma PrintAppendsCurrent(s: State)
    requires s.Valid() && s.fuel != 0
    ensures Step(Print, s) == Ok((Advance, s.(output := s.output + [s.cells[s.ptr]], fuel := s.fuel - 1)))
  {
  }

  /** Only the exact value 0 stops execution: a negative fuel counter never runs
      out, it just keeps decreasing. */
  lemma NegativeFuelNeverTimesOut(op: Opcode, s: State)
    requires s.Valid() && op != Exit && s.fuel < 0
    ensures Step(op, s).Ok? && Step(op, s).value.1.fuel < s.fuel
  {
  }

  /** Python's `Context`, without its stream adapters: input and output are the
      byte sequences still to be read and already written. */
  class Context {
    const buffer: array<byte>
    var ptr: nat
    var input: seq<byte>
    var output: seq<byte>
    var numCyclesLeft: int

    ghost predicate Valid()
      reads this
    {
      ptr < buffer.Length
    }

    /** The state this object represents. */
    ghost function Model(): (s: State)
      reads this, buffer
      ensures s.Valid() <==> Valid()
    {
      State(buffer[..], ptr, input, output, numCyclesLeft)
    }

    /** A zeroed tape of `bufferSize` cells, the cursor on the first one. */
    constructor (input: seq<byte>, bufferSize: int, numCyclesLimit: int)
      requires bufferSize > 0
      ensures Valid() && fresh(buffer)
      ensures Model() == State(seq(bufferSize, _ => 0), 0, input, [], numCyclesLimit)
    {
      buffer := new byte[bufferSize](_ => 0);
      ptr := 0;
      this.input := input;
      output := [];
      numCyclesLeft := numCyclesLimit;
    }

    /** The `current_value` getter. */
    function CurrentValue(): (v: byte)
      reads this, buffer
      requires Valid()
      ensures v == Model().Current()
    {
      buffer[ptr]
    }

    /** The `pointer` getter. */
    function Pointer(): (p: nat)
      reads this, buffer
      requires Valid()
      ensures p == Model().ptr && Model().SetPointer(p) == Model()
    {
      ptr
    }

    /** The `current_value` setter. */
    method SetCurrentValue(value: int)
      requires Valid()
      modifies buffer
      ensures Model() == old(Model()).SetCurrent(value)
    {
      buffer[ptr] := Mask8(value);
    }

    /** The `pointer` setter. */
    method SetPointer(value: int)
      requires Valid()
      modifies this`ptr
      ensures Valid()
      ensures Model() == old(Model()).SetPointer(value)
    {
      ptr := value % buffer.Length;
    }

    /** `read(1)` on the input. */
    method ReadInput() returns (bytes: seq<byte>)
      modifies this`input
      ensures (Model(), bytes) == old(Model()).ReadInput()
    {
      bytes := input[..if input == [] then 0 else 1];
      input := input[|bytes|..];
    }

    /** `write` on the output. */
    method Write(bytes: seq<byte>)
      modifies this`output
      ensures Model() == old(Model()).(output := old(output) + bytes)
    {
      output := output + bytes;
    }

    /** The `exec` methods of the token classes: run one instruction and return
        -1 to advance or the address to jump to. */
    method ExecToken(op: Opcode) returns (pt: int)
      requires Valid() && op != Exit
      modifies this`ptr, this`input, this`output, buffer
      ensures Valid()
      ensures (SignalOf(pt), Model()) == Dispatch(op, old(Model()))
      ensures pt == Sentinel(SignalOf(pt))
    {
      match op {
        case GoTo =>
          pt := CurrentValue() as int;
          return;
        case Plus =>
          SetCurrentValue(CurrentValue() as int + 1);
        case Minus =>
          SetCurrentValue(CurrentValue() as int - 1);
        case Forward =>
          SetPointer(ptr + 1);
        case Backward =>
          SetPointer(ptr - 1);
        case Print =>
          Write([CurrentValue()]);
        case Read =>
          var bytes := ReadInput();
          SetCurrentValue(if bytes == [] then 0 else bytes[0] as int);
      }
      pt := -1;
    }

    /** `Context.exec`: the fuel check and decrement, then the instruction. */
    method Exec(op: Opcode) returns (r: Result<int, Timeout>)
      requires Valid() && op != Exit
      modifies this`ptr, this`input, this`output, this`numCyclesLeft, buffer
      ensures Valid()
      ensures r.Err? ==> Step(op, old(Model())) == Err(Timeout) && Model() == old(Model())
      ensures r.Ok? ==> Step(op, old(Model())) == Ok((SignalOf(r.value), Model()))
      ensures r.Ok? ==> r.value == Sentinel(SignalOf(r.value))
    {
      if numCyclesLeft == 0 {
        return Err(Timeout);
      }
      numCyclesLeft := numCyclesLeft - 1;
      var pt := ExecToken(op);
      r := Ok(pt);
    }
  }
}
