/**
 * The tokenizer: source bytes are read one at a time and each of the eight
 * instruction bytes `. , + - > < ^ ;` becomes one opcode; any other byte is a
 * syntax error that aborts the whole parse.
 */
module Tokens {
  import opened Wrappers

  /** An unsigned 8-bit value: a source byte, a tape cell, an input or output byte. */
  newtype byte = x: int | 0 <= x < 256

  /** The token classes (PrintToken, ReadToken, PlusToken, ...), as a closed variant. */
  datatype Opcode = Print | Read | Plus | Minus | Forward | Backward | GoTo | Exit

  /** The only failure of parsing (Python's `SyntaxError`). */
  datatype SyntaxError = SyntaxError

  /** The byte-to-token table of `Code.parse`, tried in the source's order. */
  function OpcodeOf(b: byte): (r: Option<Opcode>)
    ensures r.Some? ==> ByteOf(r.value) == b
  {
    if b == 0x2E then Some(Print)          // '.'
    else if b == 0x2C then Some(Read)      // ','
    else if b == 0x2B then Some(Plus)      // '+'
    else if b == 0x2D then Some(Minus)     // '-'
    else if b == 0x3E then Some(Forward)   // '>'
    else if b == 0x3C then Some(Backward)  // '<'
    else if b == 0x5E then Some(GoTo)      // '^'
    else if b == 0x3B then Some(Exit)      // ';'
    else None
  }

  /** The source byte of each opcode: the table read the other way. */
  function ByteOf(op: Opcode): byte
  {
    match op
    case Print => 0x2E
    case Read => 0x2C
    case Plus => 0x2B
    case Minus => 0x2D
    case Forward => 0x3E
    case Backward => 0x3C
    case GoTo => 0x5E
    case Exit => 0x3B
  }

  /** The table is a bijection between the eight instruction bytes and the opcodes. */
  lemma OpcodeTableInverse(b: byte, op: Opcode)
    ensures OpcodeOf(b) == Some(op) <==> ByteOf(op) == b
  {
  }

  /** The source text of a program: one byte per opcode, no separators. */
  function Encode(ops: seq<Opcode>): (code: seq<byte>)
  {
    if ops == [] then [] else [ByteOf(ops[0])] + Encode(ops[1..])
  }

  /** Puts `ops` in front of a successful result and passes an error through. */
  function Prepend(ops: seq<Opcode>, r: Result<seq<Opcode>, SyntaxError>): Result<seq<Opcode>, SyntaxError>
  {
    match r
    case Ok(rest) => Ok(ops + rest)
    case Err(e) => Err(e)
  }

  /** What `Code.parse` computes from the bytes not yet read. */
  function Tokenize(code: seq<byte>): (r: Result<seq<Opcode>, SyntaxError>)
    ensures r.Ok? ==> |r.value| == |code|
  {
    if code == [] then Ok([])
    else match OpcodeOf(code[0])
      case None => Err(SyntaxError)
      case Some(op) => Prepend([op], Tokenize(code[1..]))
  }

  /** Parsing succeeds exactly when every byte is one of the eight instruction bytes. */
  lemma {:induction false} TokenizeSucceedsIff(code: seq<byte>)
    ensures Tokenize(code).Ok? <==> forall i :: 0 <= i < |code| ==> OpcodeOf(code[i]).Some?
  {
    if code != [] {
      TokenizeSucceedsIff(code[1..]);
      if OpcodeOf(code[0]).Some? && Tokenize(code[1..]).Ok? {
        forall i | 0 <= i < |code| ensures OpcodeOf(code[i]).Some? {
          if i > 0 { assert code[i] == code[1..][i - 1]; }
        }
      } else if OpcodeOf(code[0]).Some? {
        var j :| 0 <= j < |code[1..]| && OpcodeOf(code[1..][j]).None?;
        assert code[j + 1] == code[1..][j];
      }
    }
  }

  /** A successful parse yields one token per byte, in source order, and nothing more
      (in particular no trailing Exit is added). */
  lemma {:induction false} TokenizeOneTokenPerByte(code: seq<byte>)
    requires Tokenize(code).Ok?
    ensures |Tokenize(code).value| == |code|
    ensures forall i :: 0 <= i < |code| ==> OpcodeOf(code[i]) == Some(Tokenize(code).value[i])
  {
    if code != [] {
      TokenizeOneTokenPerByte(code[1..]);
      var ops := Tokenize(code).value;
      assert ops == [OpcodeOf(code[0]).value] + Tokenize(code[1..]).value;
      forall i | 0 <= i < |code| ensures OpcodeOf(code[i]) == Some(ops[i]) {
        if i > 0 { assert code[i] == code[1..][i - 1]; }
      }
    }
  }

  /** Parsing the text of a program gives back that program. */
  lemma {:induction false} TokenizeEncode(ops: seq<Opcode>)
    ensures Tokenize(Encode(ops)) == Ok(ops)
  {
    if ops != [] {
      TokenizeEncode(ops[1..]);
      OpcodeTableInverse(ByteOf(ops[0]), ops[0]);
      assert Encode(ops)[1..] == Encode(ops[1..]);
      assert [ops[0]] + ops[1..] == ops;
    }
  }

  /** A parsed program prints back to exactly the bytes it was parsed from. */
  lemma {:induction false} EncodeTokenize(code: seq<byte>)
    requires Tokenize(code).Ok?
    ensures Encode(Tokenize(code).value) == code
  {
    if code != [] {
      EncodeTokenize(code[1..]);
      var op := OpcodeOf(code[0]).value;
      OpcodeTableInverse(code[0], op);
      var ops := Tokenize(code).value;
      assert ops == [op] + Tokenize(code[1..]).value;
      assert ops[1..] == Tokenize(code[1..]).value;
      assert [code[0]] + code[1..] == code;
    }
  }

  lemma PrependAppend(ops: seq<Opcode>, op: Opcode, r: Result<seq<Opcode>, SyntaxError>)
    ensures Prepend(ops, Prepend([op], r)) == Prepend(ops + [op], r)
  {
    if r.Ok? {
      assert ops + ([op] + r.value) == (ops + [op]) + r.value;
    }
  }

  /** Python's `SourceCode`: the source bytes and a read position that only grows. */
  class SourceCode {
    const code: seq<byte>
    var ptr: nat

    constructor (code: seq<byte>)
      ensures this.code == code && ptr == 0
    {
      this.code := code;
      ptr := 0;
    }

    /** The bytes from the read position on (none once it is past the end). */
    function Remaining(): (rest: seq<byte>)
      reads this
      ensures |rest| == if ptr <= |code| then |code| - ptr else 0
    {
      if ptr <= |code| then code[ptr..] else []
    }

    /** The one-byte slice at the read position, empty past the end; the position
        advances in either case. */
    method ReadNextToken() returns (token: seq<byte>)
      modifies this`ptr
      ensures ptr == old(ptr) + 1
      ensures token == if old(ptr) < |code| then [code[old(ptr)]] else []
    {
      token := if ptr < |code| then code[ptr..ptr + 1] else [];
      ptr := ptr + 1;
    }
  }

  /**
   * `Code.parse`: reads tokens until the empty slice. On success the reader has
   * gone one past the end; on a syntax error it stops just after the offending
   * byte, which is the first unrecognised byte from where it started.
   */
  method Parse(src: SourceCode) returns (r: Result<seq<Opcode>, SyntaxError>)
    modifies src`ptr
    ensures r == Tokenize(old(src.Remaining()))
    ensures r.Ok? ==> src.ptr == (if old(src.ptr) <= |src.code| then |src.code| else old(src.ptr)) + 1
    ensures r.Err? ==> old(src.ptr) < src.ptr <= |src.code| && OpcodeOf(src.code[src.ptr - 1]).None?
    ensures r.Err? ==> forall i :: old(src.ptr) <= i < src.ptr - 1 ==> OpcodeOf(src.code[i]).Some?
  {
    ghost var start := src.ptr;
    ghost var rest0 := src.Remaining();
    var tokens: seq<Opcode> := [];
    assert Tokenize(rest0).Ok? ==> [] + Tokenize(rest0).value == Tokenize(rest0).value;
    while true
      invariant start <= src.ptr
      invariant start <= |src.code| ==> src.ptr <= |src.code|
      invariant start > |src.code| ==> src.ptr == start
      invariant forall i :: start <= i < src.ptr ==> OpcodeOf(src.code[i]).Some?
      invariant Tokenize(rest0) == Prepend(tokens, Tokenize(src.Remaining()))
      decreases |src.Remaining()|
    {
      ghost var rest := src.Remaining();
      var token := src.ReadNextToken();
      if token == [] {
        assert rest == [];
        assert tokens + [] == tokens;
        return Ok(tokens);
      }
      assert rest[0] == token[0] && rest[1..] == src.Remaining();
      var op := OpcodeOf(token[0]);
      if op.None? {
        return Err(SyntaxError);
      }
      PrependAppend(tokens, op.value, Tokenize(src.Remaining()));
      tokens := tokens + [op.value];
    }
  }
}
