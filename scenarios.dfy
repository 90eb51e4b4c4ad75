/**
 * Whole programs, from source bytes to the end of the run, on any tape whose
 * current cell starts at 0.
 */
module Scenarios {
  import opened Wrappers
  import opened Tokens
  import opened Machine
  import opened Interpreter

  /** `+++.;` prints the single byte 3 and halts. */
  lemma PrintThree(s: State)
    requires s.Valid() && s.fuel >= 4 && s.cells[s.ptr] == 0
    ensures Tokenize([0x2B, 0x2B, 0x2B, 0x2E, 0x3B]) == Ok([Plus, Plus, Plus, Print, Exit])
    ensures Run([Plus, Plus, Plus, Print, Exit], 0, s).0 == Halted
    ensures Run([Plus, Plus, Plus, Print, Exit], 0, s).1.output == s.output + [3]
  {
    var code := [Plus, Plus, Plus, Print, Exit];
    ParsesPrintThree();
    var u := ThreePlusesThenPrint(code, s);
    assert Run(code, 4, u) == (Halted, u);
  }

  lemma ParsesPrintThree()
    ensures Tokenize([0x2B, 0x2B, 0x2B, 0x2E, 0x3B]) == Ok([Plus, Plus, Plus, Print, Exit])
  {
    var code := [Plus, Plus, Plus, Print, Exit];
    TokenizeEncode(code);
    assert Encode(code[4..]) == [0x3B];
    assert Encode(code[3..]) == [0x2E] + Encode(code[4..]);
    assert Encode(code[2..]) == [0x2B] + Encode(code[3..]);
    assert Encode(code[1..]) == [0x2B] + Encode(code[2..]);
    assert Encode(code) == [0x2B] + Encode(code[1..]);
    assert Encode(code) == [0x2B, 0x2B, 0x2B, 0x2E, 0x3B];
  }

  /** The common prefix `+++.` of two scenarios, from a zero cell: the state it
      leaves at address 4. */
  lemma ThreePlusesThenPrint(code: seq<Opcode>, s: State) returns (u: State)
    requires |code| >= 4 && code[..4] == [Plus, Plus, Plus, Print]
    requires s.Valid() && s.fuel >= 4 && s.cells[s.ptr] == 0
    ensures u.Valid() && u.fuel >= 0 && u.output == s.output + [3]
    ensures Run(code, 0, s) == Run(code, 4, u)
  {
    assert code[0] == Plus && code[1] == Plus && code[2] == Plus && code[3] == Print;
    CellNetDelta(code, 0, 3, s);
    assert CellDelta(code, 0, 3) == 3;
    var t := AddToCell(s, 3, 3);
    assert t == s.(cells := s.cells[s.ptr := 3], fuel := s.fuel - 3);
    assert Run(code, 0, s) == Run(code, 3, t);
    u := t.(output := t.output + [3], fuel := t.fuel - 1);
    assert Step(Print, t) == Ok((Advance, u));
  }

  /** `,.;` with input beginning `A` copies that byte to the output and halts. */
  lemma EchoOneByte(s: State)
    requires s.Valid() && s.fuel >= 2 && s.input != [] && s.input[0] == 0x41
    ensures Tokenize([0x2C, 0x2E, 0x3B]) == Ok([Read, Print, Exit])
    ensures Run([Read, Print, Exit], 0, s).0 == Halted
    ensures Run([Read, Print, Exit], 0, s).1.output == s.output + [0x41]
    ensures Run([Read, Print, Exit], 0, s).1.input == s.input[1..]
  {
    var code := [Read, Print, Exit];
    ParsesEcho();
    var t := EchoReads(s);
    RunAdvances(code, 0, s, t);
    PrintAppendsCurrent(t);
    var u := t.(output := t.output + [0x41], fuel := t.fuel - 1);
    RunAdvances(code, 1, t, u);
    assert Run(code, 2, u) == (Halted, u);
  }

  /** The Read of the echo program stores `A` and consumes it. */
  lemma EchoReads(s: State) returns (t: State)
    requires s.Valid() && s.fuel >= 2 && s.input != [] && s.input[0] == 0x41
    ensures Step(Read, s) == Ok((Advance, t))
    ensures t.Valid() && t.fuel == s.fuel - 1 && t.cells[t.ptr] == 0x41
    ensures t.output == s.output && t.input == s.input[1..]
  {
    ReadStoresNextByte(s);
    t := Step(Read, s).value.1;
  }

  lemma ParsesEcho()
    ensures Tokenize([0x2C, 0x2E, 0x3B]) == Ok([Read, Print, Exit])
  {
    var code := [Read, Print, Exit];
    TokenizeEncode(code);
    assert Encode(code[2..]) == [0x3B];
    assert Encode(code[1..]) == [0x2E] + Encode(code[2..]);
    assert Encode(code) == [0x2C] + Encode(code[1..]);
  }

  /** `^;` on a zero cell jumps to its own GoTo until the fuel is gone, spending
      all of it and writing nothing. */
  lemma {:induction false} SelfJumpRunsOutOfFuel(s: State)
    requires s.Valid() && s.fuel >= 0 && s.cells[s.ptr] == 0
    ensures Tokenize([0x5E, 0x3B]) == Ok([GoTo, Exit])
    ensures Run([GoTo, Exit], 0, s) == (FuelExhausted, s.(fuel := 0))
    decreases s.fuel
  {
    TokenizeEncode([GoTo, Exit]);
    assert Encode([GoTo, Exit][1..]) == [0x3B];
    if s.fuel > 0 {
      GoToJumpsToCell([GoTo, Exit], 0, s);
      SelfJumpRunsOutOfFuel(s.(fuel := s.fuel - 1));
    }
  }

  /** `+@;` is rejected by the tokenizer, so nothing runs. */
  lemma RejectsUnknownByte()
    ensures Tokenize([0x2B, 0x40, 0x3B]).Err?
  {
  }

  /** Parsing `+@;` fails, and the reader stops right after the `@`, the second
      byte, without reading the `;`. */
  method ParseStopsAtSecondByte() returns (r: Result<seq<Opcode>, SyntaxError>, stoppedAt: nat)
    ensures r == Err(SyntaxError) && stoppedAt == 2
  {
    var src := new SourceCode([0x2B, 0x40, 0x3B]);
    r := Parse(src);
    stoppedAt := src.ptr;
    assert OpcodeOf(0x2B).Some? && OpcodeOf(0x40).None? && OpcodeOf(0x3B).Some?;
  }

  /** `+++.` has no Exit: it prints 3 and then fails fetching address 4. */
  lemma FallsOffTheEnd(s: State)
    requires s.Valid() && s.fuel >= 4 && s.cells[s.ptr] == 0
    ensures Tokenize([0x2B, 0x2B, 0x2B, 0x2E]) == Ok([Plus, Plus, Plus, Print])
    ensures Run([Plus, Plus, Plus, Print], 0, s).0 == BadAddress(4)
    ensures Run([Plus, Plus, Plus, Print], 0, s).1.output == s.output + [3]
  {
    var code := [Plus, Plus, Plus, Print];
    TokenizeEncode(code);
    assert Encode(code) == [0x2B, 0x2B, 0x2B, 0x2E] by {
      assert Encode(code[3..]) == [0x2E];
      assert Encode(code[2..]) == [0x2B] + Encode(code[3..]);
      assert Encode(code[1..]) == [0x2B] + Encode(code[2..]);
    }
    var u := ThreePlusesThenPrint(code, s);
    assert Run(code, 4, u) == (BadAddress(4), u);
  }
}
