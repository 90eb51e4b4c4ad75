# gotobrainfuck, modelled in Dafny

A model of the interpreter in `gotobrainfuck.py`: an eight-instruction tape
machine derived from brainfuck in which the bracket loop is replaced by a
data-driven goto (`^` jumps to the instruction address held in the current
cell). The model covers the three parts of the interpreter:

- **Tokenizer** (`tokens.dfy`, module `Tokens`): `SourceCode` as a class with a
  read position, `Code.parse` as the method `Parse` with its loop, the byte
  table `. , + - > < ^ ;` as `OpcodeOf`/`ByteOf`, and the pure specification
  `Tokenize` that `Parse` is proved against.
- **Machine state** (`machine.dfy`, module `Machine`): `Context` as a class over
  an `array<byte>` tape with a cursor, the unread input, the written output and
  the fuel counter (`num_cycles_left`). Its getters, setters, `exec` and the
  token classes' `exec` methods are proved against the value-level
  `State`, `Dispatch` and `Step`.
- **Interpreter loop** (`interpreter.dfy`, module `Interpreter`): `Code.exec` as
  the method `Exec`, proved against the recursive specification `Run`, and the
  lemmas about whole runs. `scenarios.dfy` (module `Scenarios`) proves five
  complete programs from source bytes to outcome.

Conventions of the model:

- Cells are the newtype `byte` (0..255), so "cells stay in [0, 255]" is a type
  fact. Python's `value & 255` is `Mask8(value) == value % 256`, also for
  negative values: for a positive divisor, neither Dafny's `%` nor Python's
  yields a negative remainder.
- The cursor setter's `value % len(buffer)` is Dafny's `%`. For a positive
  divisor it agrees with Python's floored `%`.
- A token's `exec` returns an `int` exactly as in the source: -1 to advance,
  the cell value to jump. `Signal` (`Advance | JumpTo(a)`) is the tagged view
  of it. `Sentinel`/`SignalOf` convert between the two, `SentinelRoundTrip`
  and `NextAddressAgrees` state that they agree.
- The Python exceptions become values: `SyntaxError` from parsing,
  `Timeout` from `Context.exec`, and the run's `Outcome`
  (`Halted | FuelExhausted | BadAddress(address)`, the last one being the
  `IndexError` of the fetch `self.tokens[code_pt]`).
- Input is the sequence of bytes not yet read; an absent input file is the
  empty sequence. Output is the sequence of bytes written so far.

## Model

| member | source | states |
|---|---|---|
| `Tokens.OpcodeOf` | gotobrainfuck.py:100-125 | the if-chain of `Code.parse`: `.` Print, `,` Read, `+` Plus, `-` Minus, `>` Forward, `<` Backward, `^` GoTo, `;` Exit, any other byte none; a recognised byte is the byte of the opcode it maps to |
| `Tokens.Tokenize` | gotobrainfuck.py:96-129 | what `Code.parse` computes: the first byte's opcode followed by the tokenization of the rest, an error as soon as a byte is not in the table; a success has one token per byte |
| `Tokens.OpcodeTableInverse` | gotobrainfuck.py:99-125 | the byte-to-token table is a bijection between the eight instruction bytes and the eight opcodes (both directions) |
| `Tokens.TokenizeSucceedsIff` | gotobrainfuck.py:99-127 | parsing succeeds exactly when every byte is one of the eight instruction bytes; any other byte raises the syntax error |
| `Tokens.TokenizeOneTokenPerByte` | gotobrainfuck.py:96-129 | a successful parse yields exactly one token per byte, in source order, by the fixed table, with no trailing Exit added |
| `Tokens.TokenizeEncode` | gotobrainfuck.py:96-129 | parsing the text of any program gives back that program |
| `Tokens.EncodeTokenize` | gotobrainfuck.py:96-129 | a parsed program prints back to exactly the bytes it was parsed from |
| `Tokens.SourceCode.constructor` | gotobrainfuck.py:7-9 | a reader over the given bytes, at position 0 |
| `Tokens.SourceCode.ReadNextToken` | gotobrainfuck.py:11-14 | returns the one-byte slice at the position, empty past the end, and always advances the position by one |
| `Tokens.Parse` | gotobrainfuck.py:95-129 | returns the tokenization of the unread bytes; on success the reader is one past the end; on a syntax error it stops just after the first unrecognised byte, having consumed nothing beyond it |
| `Machine.Mask8` | gotobrainfuck.py:67-70 | the stored cell is the value's residue modulo 256, always in [0, 255] |
| `Machine.State.Current` | gotobrainfuck.py:63-65 | the cell under the cursor; writing it back through the setter changes nothing |
| `Machine.State.SetCurrent` | gotobrainfuck.py:67-70 | the current cell becomes the value modulo 256; no other cell, the cursor, the input, the output and the fuel are unchanged |
| `Machine.State.SetPointer` | gotobrainfuck.py:76-79 | the cursor becomes the value modulo the tape length and stays on the tape; nothing else changes |
| `Machine.State.ReadInput` | gotobrainfuck.py:38-40 | at most one byte is read, none exactly when the input is exhausted, and the byte read plus the remaining input is the old input |
| `Machine.Sentinel` | gotobrainfuck.py:146-153 | a token's integer result is negative exactly when it advances, and is the target address when it jumps |
| `Machine.SignalOf` | gotobrainfuck.py:135 | the loop's `pt < 0` test: a negative result advances, any other is a jump to that address; it inverts `Sentinel` on every result a token can return |
| `Machine.SentinelRoundTrip` | gotobrainfuck.py:133-135 | reading back the integer a token returned gives back its control transfer |
| `Machine.Dispatch` | gotobrainfuck.py:143-178 | a token's `exec` keeps the tape length, the cursor on the tape and the fuel; only GoTo jumps; only Read touches the input and only Print the output |
| `Machine.Step` | gotobrainfuck.py:31-36 | fails with the timeout exactly when fuel is 0; otherwise spends exactly one unit; only GoTo jumps, to the current cell's value, changing nothing else; output grows by at most one byte and input shrinks by at most one |
| `Machine.PlusMinusChangeOnlyCurrent` | gotobrainfuck.py:150-158 | Plus and Minus add +1 and -1 modulo 256 to the current cell, advance, and change no other cell, the cursor or the I/O |
| `Machine.CellWrapsAround` | gotobrainfuck.py:150-158 | Plus takes 255 to 0 and Minus takes 0 to 255 |
| `Machine.PlusMinusCancel` | gotobrainfuck.py:150-158 | Plus then Minus, or Minus then Plus, restores the state except for two units of fuel |
| `Machine.ForwardBackwardWrap` | gotobrainfuck.py:160-168 | Forward and Backward move the cursor by +1 and -1 modulo the tape length, from the last cell to the first and back, and change no cell |
| `Machine.ReadStoresNextByte` | gotobrainfuck.py:175-178 | Read stores the next input byte in the current cell and consumes it, or stores 0 when the input is exhausted |
| `Machine.PrintAppendsCurrent` | gotobrainfuck.py:170-173 | Print appends the current cell as one byte to the output and leaves the tape unchanged |
| `Machine.NegativeFuelNeverTimesOut` | gotobrainfuck.py:31-35 | the fuel test is for exactly 0, so a negative counter never times out and keeps decreasing |
| `Machine.Context.constructor` | gotobrainfuck.py:17-29 | a fresh zeroed tape of the given size, the cursor at 0, the given input, empty output, the given fuel |
| `Machine.Context.CurrentValue` | gotobrainfuck.py:63-65 | the cell under the cursor |
| `Machine.Context.Pointer` | gotobrainfuck.py:72-74 | the cursor of the abstract state, which is on the tape: setting the cursor to it changes nothing |
| `Machine.Context.SetCurrentValue` | gotobrainfuck.py:67-70 | the object's new state is `SetCurrent` of its old state |
| `Machine.Context.SetPointer` | gotobrainfuck.py:76-79 | the object's new state is `SetPointer` of its old state, with the cursor on the tape |
| `Machine.Context.ReadInput` | gotobrainfuck.py:38-45 | returns and consumes what `ReadInput` of the old state gives |
| `Machine.Context.Write` | gotobrainfuck.py:47-61 | appends the bytes to the output and changes nothing else |
| `Machine.Context.ExecToken` | gotobrainfuck.py:143-178 | runs one token as `Dispatch` does and returns its result in the -1/address encoding |
| `Machine.Context.Exec` | gotobrainfuck.py:31-36 | with no fuel, fails and changes nothing; otherwise the new state and result are those of `Step` |
| `Interpreter.NextAddress` | gotobrainfuck.py:135 | `code_pt + 1 if pt < 0 else pt`: never negative, and the address the tagged signal of `pt` selects |
| `Interpreter.NextAddressAgrees` | gotobrainfuck.py:135 | `code_pt + 1 if pt < 0 else pt` on the sentinel picks the same address as the tagged signal, and it is never negative |
| `Interpreter.Run` | gotobrainfuck.py:131-135 | fuel never goes negative and is 0 whenever the run stops for lack of it; the tape keeps its length and the cursor stays on it; output only grows; a bad address lies past the end of the program and is at most the larger of the start address, the program length and 255 |
| `Interpreter.Exec` | gotobrainfuck.py:131-135 | the loop's outcome and the context's final state are those of `Run` from address 0 |
| `Interpreter.FetchThenExitThenFuel` | gotobrainfuck.py:133-134 | a fetch past the end fails even with no fuel; Exit halts without spending fuel or changing state; another instruction with no fuel stops the run with nothing changed |
| `Interpreter.HaltsOnlyAtExit` | gotobrainfuck.py:131-135 | the loop ends successfully only at an Exit: a halted run implies the program contains one |
| `Interpreter.GoToJumpsToCell` | gotobrainfuck.py:146-148 | GoTo continues at exactly the address held in the current cell, whatever came before, at the cost of one unit of fuel |
| `Interpreter.CellNetDelta` | gotobrainfuck.py:150-158 | a run of Plus and Minus adds its net count modulo 256 to the current cell and nothing else, one unit of fuel per instruction |
| `Interpreter.CursorNetDelta` | gotobrainfuck.py:160-168 | a run of Forward and Backward moves the cursor by its net count modulo the tape length and nothing else, one unit of fuel per instruction |
| `Interpreter.StraightLineFuel` | gotobrainfuck.py:31-36 | a jump-free program of N instructions before its Exit halts with fuel F exactly when F >= N, leaving F - N; otherwise it stops for lack of fuel with 0 left |
| `Interpreter.FuelMonotone` | gotobrainfuck.py:31-36 | a run that did not run out of fuel ends the same way with more fuel, keeping the extra |
| `Scenarios.PrintThree` | gotobrainfuck.py:131-178 | `+++.;` parses to Plus, Plus, Plus, Print, Exit, writes exactly the byte 3 and halts |
| `Scenarios.EchoOneByte` | gotobrainfuck.py:131-178 | `,.;` with input `A` writes exactly `A`, consumes it and halts |
| `Scenarios.SelfJumpRunsOutOfFuel` | gotobrainfuck.py:131-178 | `^;` on a zero cell jumps to itself until all fuel is spent, then stops for lack of fuel with nothing written |
| `Scenarios.RejectsUnknownByte` | gotobrainfuck.py:99-125 | `+@;` is rejected by the tokenizer |
| `Scenarios.ParseStopsAtSecondByte` | gotobrainfuck.py:96-129 | parsing `+@;` with the method fails with the syntax error and leaves the reader at position 2, just after the `@`, without reading the `;` |
| `Scenarios.FallsOffTheEnd` | gotobrainfuck.py:131-178 | `+++.` writes 3 and then fails fetching address 4 |

## Left out

- The stream adapters in `Context.read` and `Context.write` (gotobrainfuck.py:38-61) are not modelled: the type tests on text and binary files, the `ord`/`chr` conversion, `flush()`, and the `ValueError` from text input above 255. Input and output are byte sequences instead.
- The default arguments of `Context` are not modelled: the `sys.stdin`/`sys.stdout` files and the numeric defaults `buffer_size=2**16` and `num_cycles_limit=2**24` (gotobrainfuck.py:18-21). The model's constructor takes the input, the tape size and the fuel limit as required arguments.
- The `éxec` wrapper and the `__main__` demo (gotobrainfuck.py:180-192) are only wiring and are not modelled.
- `__str__`/`__repr__` (gotobrainfuck.py:85-89, 137-141) are debug printing and are not modelled.
- `Machine.Context.constructor` requires a positive tape size. In the source a size of 0 or less builds an empty tape. The first dispatched non-Exit instruction that still has fuel then fails with `IndexError` or `ZeroDivisionError`; an Exit is never dispatched, and with no fuel the `TimeoutError` comes first. The model does not cover that failure.
- `Interpreter.Run` and `Interpreter.Exec` require a non-negative fuel counter. The source only tests for `== 0`, so a negative limit gives a run with no bound, and a terminating definition cannot express that. `Machine.NegativeFuelNeverTimesOut` states the single-step fact. A `<= 0` test would stop a negative limit at once; for every non-negative limit it agrees with the `== 0` test the model follows.
- `Machine.Dispatch`, `Machine.Step` and `Machine.Context.ExecToken` require an instruction other than Exit. The loop never dispatches Exit; in the source the base `Token.exec` would raise `NotImplementedError`.
- Negative instruction addresses cannot occur: jumps target a cell value in 0..255. So Python's negative-index fetch is not modelled, and addresses are `nat`.
