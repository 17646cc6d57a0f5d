/**
  The failure record of a strict disassembly (GBDasm.Core/UndefinedOpcodeException.cs):
  the undefined opcode, the address it was found at, and the exception's message.
 */
module Exceptions {
  import opened NumberFormat
  import opened Wrappers

  /** A .NET `int`. */
  type i32 = x: int | -0x8000_0000 <= x < 0x8000_0000

  /**
    The exception value. The inner exception, when there is one, is kept
    only by its message.
   */
  datatype UndefinedOpcodeException = UndefinedOpcodeException(
    message: string,
    innerException: Option<string>,
    opCode: byte,
    address: i32)

  /**
    `{addr:x4}` on an `int`: at least four lower-case hex digits, and a
    negative value printed as its 32-bit two's complement (eight digits).
   */
  function HexInt(addr: i32): (s: string)
    ensures |s| >= 4
    ensures 0 <= addr < 0x1_0000 ==> |s| == 4
  {
    var bits: nat := if addr >= 0 then addr else addr + 0x1_0000_0000;
    FormatLength(bits, 4, 16);
    assert Pow(16, 4) == 0x1_0000;
    Format(bits, 4, 16)
  }

  /** The text of HexInt reads back as the 32-bit pattern, from which the signed value follows. */
  lemma {:induction false} HexIntRoundTrip(addr: i32)
    ensures IsDigits(HexInt(addr), 16)
    ensures var p := Parse(HexInt(addr), 16);
      && p < 0x1_0000_0000
      && addr == if p < 0x8000_0000 then p else p - 0x1_0000_0000
  {
    var bits: nat := if addr >= 0 then addr else addr + 0x1_0000_0000;
    FormatRoundTrip(bits, 4, 16);
  }

  /** The message the two-argument constructor passes on. */
  function DefaultMessage(opcode: byte, addr: i32): string {
    "Undefined opcode " + Hex2(opcode) + " at address $" + HexInt(addr) + "."
  }

  /** The message opens with "Undefined opcode " and the two hex digits of the opcode, and ends with a full stop. */
  lemma DefaultMessageLayout(opcode: byte, addr: i32)
    ensures var m := DefaultMessage(opcode, addr);
      && |m| >= 36 && m[..17] == "Undefined opcode " && m[17..19] == Hex2(opcode) && m[|m| - 1] == '.'
  {
    Hex2Exact(opcode);
  }

  /** The constructor every other one chains to: it sets the message, the inner exception and both fields. */
  function WithInner(message: string, innerException: Option<string>, opcode: byte, addr: i32): (e: UndefinedOpcodeException)
    ensures e.message == message && e.innerException == innerException
    ensures e.opCode == opcode && e.address == addr
  {
    UndefinedOpcodeException(message, innerException, opcode, addr)
  }

  /** The constructor with a message: it chains with no inner exception. */
  function WithMessage(message: string, opcode: byte, addr: i32): (e: UndefinedOpcodeException)
    ensures e.message == message && e.innerException == None
    ensures e.opCode == opcode && e.address == addr
  {
    WithInner(message, None, opcode, addr)
  }

  /** The two-argument constructor: the default message, no inner exception. */
  function New(opcode: byte, addr: i32): (e: UndefinedOpcodeException)
    ensures e.message == DefaultMessage(opcode, addr) && e.innerException == None
    ensures e.opCode == opcode && e.address == addr
  {
    WithMessage(DefaultMessage(opcode, addr), opcode, addr)
  }

  /** The default message names the opcode and the address unambiguously: it determines both. */
  lemma DefaultMessageDeterminesFault(op1: byte, addr1: i32, op2: byte, addr2: i32)
    requires DefaultMessage(op1, addr1) == DefaultMessage(op2, addr2)
    ensures op1 == op2 && addr1 == addr2
  {
    var m := DefaultMessage(op1, addr1);
    DefaultMessageLayout(op1, addr1);
    DefaultMessageLayout(op2, addr2);
    Hex2Exact(op1);
    Hex2Exact(op2);
    var h1, h2 := HexInt(addr1), HexInt(addr2);
    assert Hex2(op1) == m[17..19] == Hex2(op2);
    assert h1 == m[32..|m| - 1] == h2;
    HexIntRoundTrip(addr1);
    HexIntRoundTrip(addr2);
  }

  /** The message of an undefined 0xD3 at address 0x0150, as the two-argument constructor writes it. */
  lemma DefaultMessageExample()
    ensures New(0xD3, 0x0150).message == "Undefined opcode d3 at address $0150."
  {
    assert Hex2(0xD3) == "d3";
    assert HexInt(0x0150) == "0150";
  }
}
