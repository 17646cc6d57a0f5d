/**
  The GBZ80 opcode decoder (GBDasm.Core/Decoder.cs): one instruction at a time,
  from the bytes at a cursor and that instruction's absolute file address, to
  RGBDS-syntax text and the number of bytes consumed.
 */
module Decoder {
  import opened NumberFormat
  import Rom

  // ---------------------------------------------------------------------------
  // Outcomes
  // ---------------------------------------------------------------------------

  datatype FailureKind = UndefinedOpcode | TruncatedInstruction

  /** What decoding one instruction gives: its text and length, or why it could not be decoded. */
  datatype DecodeOutcome =
    | Decoded(text: string, length: nat)
    | Failed(kind: FailureKind, opcode: byte, address: nat)

  // ---------------------------------------------------------------------------
  // Little-endian operands
  // ---------------------------------------------------------------------------

  /**
    The 16-bit value whose low byte is `byte1` and high byte is `byte2`:
    `(byte2 << 8) | byte1`, where the shift is a multiplication by 0x100 and,
    the low eight bits being clear, the or is an addition.
   */
  function ToLittleEndian(byte1: byte, byte2: byte): (v: u16)
    ensures v % 0x100 == byte1 && v / 0x100 == byte2
  {
    byte2 * 0x100 + byte1
  }

  /** Splitting a 16-bit value into its low and high byte and recombining them gives it back. */
  lemma LittleEndianSplit(v: u16)
    ensures ToLittleEndian(v % 0x100, v / 0x100) == v
  {
    var r := ToLittleEndian(v % 0x100, v / 0x100);
    assert r == (r / 0x100) * 0x100 + r % 0x100;
  }

  // ---------------------------------------------------------------------------
  // Relative branch targets in banked address space
  // ---------------------------------------------------------------------------

  /**
    Where a file offset appears in the processor's address space: bank 0 is
    mapped one to one, and every other bank is windowed into $4000-$7FFF.
   */
  function MapToAddressSpace(fileOffset: nat): (a: nat)
    ensures fileOffset < Rom.BankSize ==> a == fileOffset
    ensures fileOffset >= Rom.BankSize ==> Rom.BankSize <= a < 2 * Rom.BankSize && a % Rom.BankSize == fileOffset % Rom.BankSize
  {
    if fileOffset < Rom.BankSize then fileOffset else fileOffset % Rom.BankSize + Rom.BankSize
  }

  /** The signed value of an offset byte (two's complement). */
  function Signed(b: byte): (s: int)
    ensures -0x80 <= s < 0x80
    ensures (s - b) % 0x100 == 0
  {
    if b < 0x80 then b else b - 0x100
  }

  /** A sum below 0 becomes $0000 and one above $FFFF wraps by -$10000. */
  function ClampToAddressSpace(sum: int): (a: int)
    ensures 0 <= sum <= 0xFFFF ==> a == sum
    ensures sum < 0 ==> a == 0
  {
    if sum < 0 then 0 else if sum > 0xFFFF then sum - 0x10000 else sum
  }

  /**
    The target of a two-byte relative jump at file offset `baseAddress`: the
    address after the instruction, mapped into address space, plus the signed offset.
   */
  function RelativeTarget(baseAddress: nat, offset: byte): (t: nat)
    ensures t < 0x8080
    ensures t == MapToAddressSpace(baseAddress + 2) + Signed(offset) || (t == 0 && MapToAddressSpace(baseAddress + 2) + Signed(offset) < 0)
  {
    var sum := MapToAddressSpace(baseAddress + 2) + Signed(offset);
    assert -0x80 <= sum < 0x8080;
    ClampToAddressSpace(sum)
  }

  // ---------------------------------------------------------------------------
  // The primary opcode table
  // ---------------------------------------------------------------------------

  /** How the bytes after an opcode are read and printed. */
  datatype Operand =
    | NoOperand
    | Imm8       // one byte, printed as $xx
    | Imm16      // two bytes, little-endian, printed as $xxxx
    | Relative   // one signed byte, printed as the banked jump target $xxxx
    | HighPage   // one byte n, printed as $ff00+n in four digits

  /** One entry of the 256-entry table: a template `before <operand> after`, the 0xCB prefix, `stop`, or nothing. */
  datatype Entry =
    | Op(before: string, operand: Operand, after: string)
    | CbPrefix
    | Stop
    | Undefined

  function Plain(mnemonic: string): Entry {
    Op(mnemonic, NoOperand, "")
  }

  function OperandSize(operand: Operand): (n: nat)
    ensures n <= 2
  {
    match operand
    case NoOperand => 0
    case Imm16 => 2
    case _ => 1
  }

  /**
    The primary table. Rows $40-$7F (`ld dst, src`, with `halt` in place of
    `ld [hl], [hl]`) and $80-$BF (arithmetic on a register) are regular and
    are computed from the register order; the other rows are looked up by the
    opcode's high nibble and then its low nibble.
   */
  function Primary(op: byte): Entry {
    if 0x40 <= op < 0x80 then
      if op == 0x76 then Plain("halt")
      else Plain("ld " + Registers[(op - 0x40) / 8] + ", " + Registers[op % 8])
    else if 0x80 <= op < 0xC0 then
      Plain(Arithmetic[(op - 0x80) / 8] + " " + Registers[op % 8])
    else
      var lo := op % 16;
      match op / 16
      case 0x0 => Row0(lo)
      case 0x1 => Row1(lo)
      case 0x2 => Row2(lo)
      case 0x3 => Row3(lo)
      case 0xC => RowC(lo)
      case 0xD => RowD(lo)
      case 0xE => RowE(lo)
      case _ => RowF(lo)
  }

  /** Operand registers in encoding order. */
  const Registers: seq<string> := ["b", "c", "d", "e", "h", "l", "[hl]", "a"]

  /** Arithmetic and logic mnemonics of $80-$BF, in encoding order. */
  const Arithmetic: seq<string> := ["add", "adc", "sub", "sbc", "and", "xor", "or", "cp"]

  function Row0(lo: nat): Entry {
    match lo
    case 0x0 => Plain("nop")
    case 0x1 => Op("ld bc, ", Imm16, "")
    case 0x2 => Plain("ld [bc], a")
    case 0x3 => Plain("inc bc")
    case 0x4 => Plain("inc b")
    case 0x5 => Plain("dec b")
    case 0x6 => Op("ld b, ", Imm8, "")
    case 0x7 => Plain("rlca")
    case 0x8 => Op("ld [", Imm16, "], sp")
    case 0x9 => Plain("add hl, bc")
    case 0xA => Plain("ld a, [bc]")
    case 0xB => Plain("dec bc")
    case 0xC => Plain("inc c")
    case 0xD => Plain("dec c")
    case 0xE => Op("ld c, ", Imm8, "")
    case 0xF => Plain("rrca")
    case _ => Undefined
  }

  function Row1(lo: nat): Entry {
    match lo
    case 0x0 => Stop
    case 0x1 => Op("ld de, ", Imm16, "")
    case 0x2 => Plain("ld [de], a")
    case 0x3 => Plain("inc de")
    case 0x4 => Plain("inc d")
    case 0x5 => Plain("dec d")
    case 0x6 => Op("ld d, ", Imm8, "")
    case 0x7 => Plain("rla")
    case 0x8 => Op("jr ", Relative, "")
    case 0x9 => Plain("add hl, de")
    case 0xA => Plain("ld a, [de]")
    case 0xB => Plain("dec de")
    case 0xC => Plain("inc e")
    case 0xD => Plain("dec e")
    case 0xE => Op("ld e, ", Imm8, "")
    case 0xF => Plain("rra")
    case _ => Undefined
  }

  function Row2(lo: nat): Entry {
    match lo
    case 0x0 => Op("jr nz, ", Relative, "")
    case 0x1 => Op("ld hl, ", Imm16, "")
    case 0x2 => Plain("ldi [hl], a")
    case 0x3 => Plain("inc hl")
    case 0x4 => Plain("inc h")
    case 0x5 => Plain("dec h")
    case 0x6 => Op("ld h, ", Imm8, "")
    case 0x7 => Plain("daa")
    case 0x8 => Op("jr z, ", Relative, "")
    case 0x9 => Plain("add hl, hl")
    case 0xA => Plain("ldi a, [hl]")
    case 0xB => Plain("dec hl")
    case 0xC => Plain("inc l")
    case 0xD => Plain("dec l")
    case 0xE => Op("ld l, ", Imm8, "")
    case 0xF => Plain("cpl")
    case _ => Undefined
  }

  function Row3(lo: nat): Entry {
    match lo
    case 0x0 => Op("jr nc, ", Relative, "")
    case 0x1 => Op("ld sp, ", Imm16, "")
    case 0x2 => Plain("ldd [hl], a")
    case 0x3 => Plain("inc sp")
    case 0x4 => Plain("inc [hl]")
    case 0x5 => Plain("dec [hl]")
    case 0x6 => Op("ld [hl], ", Imm8, "")
    case 0x7 => Plain("scf")
    case 0x8 => Op("jr c, ", Relative, "")
    case 0x9 => Plain("add hl, sp")
    case 0xA => Plain("ldd a, [hl]")
    case 0xB => Plain("dec sp")
    case 0xC => Plain("inc a")
    case 0xD => Plain("dec a")
    case 0xE => Op("ld a, ", Imm8, "")
    case 0xF => Plain("ccf")
    case _ => Undefined
  }

  function RowC(lo: nat): Entry {
    match lo
    case 0x0 => Plain("ret nz")
    case 0x1 => Plain("pop bc")
    case 0x2 => Op("jp nz, ", Imm16, "")
    case 0x3 => Op("jp ", Imm16, "")
    case 0x4 => Op("call nz, ", Imm16, "")
    case 0x5 => Plain("push bc")
    case 0x6 => Op("add a, ", Imm8, "")
    case 0x7 => Plain("rst $00")
    case 0x8 => Plain("ret z")
    case 0x9 => Plain("ret")
    case 0xA => Op("jp z, ", Imm16, "")
    case 0xB => CbPrefix
    case 0xC => Op("call z, ", Imm16, "")
    case 0xD => Op("call ", Imm16, "")
    case 0xE => Op("adc a, ", Imm8, "")
    case 0xF => Plain("rst $08")
    case _ => Undefined
  }

  function RowD(lo: nat): Entry {
    match lo
    case 0x0 => Plain("ret nc")
    case 0x1 => Plain("pop de")
    case 0x2 => Op("jp nc, ", Imm16, "")
    case 0x4 => Op("call nc, ", Imm16, "")
    case 0x5 => Plain("push de")
    case 0x6 => Op("sub a, ", Imm8, "")
    case 0x7 => Plain("rst $10")
    case 0x8 => Plain("ret c")
    case 0x9 => Plain("reti")
    case 0xA => Op("jp c, ", Imm16, "")
    case 0xC => Op("call c, ", Imm16, "")
    case 0xE => Op("sbc a, ", Imm8, "")
    case 0xF => Plain("rst $18")
    case _ => Undefined
  }

  function RowE(lo: nat): Entry {
    match lo
    case 0x0 => Op("ldh [", HighPage, "], a")
    case 0x1 => Plain("pop hl")
    case 0x2 => Plain("ld [$ff00+c], a")
    case 0x5 => Plain("push hl")
    case 0x6 => Op("and a, ", Imm8, "")
    case 0x7 => Plain("rst $20")
    case 0x8 => Op("add sp, ", Imm8, "")
    case 0x9 => Plain("jp hl")
    case 0xA => Op("ld [", Imm16, "], a")
    case 0xE => Op("xor ", Imm8, "")
    case 0xF => Plain("rst $28")
    case _ => Undefined
  }

  function RowF(lo: nat): Entry {
    match lo
    case 0x0 => Op("ldh a, [", HighPage, "]")
    case 0x1 => Plain("pop af")
    case 0x3 => Plain("di")
    case 0x5 => Plain("push af")
    case 0x6 => Op("or ", Imm8, "")
    case 0x7 => Plain("rst $30")
    case 0x8 => Op("ld hl, sp+", Imm8, "")
    case 0x9 => Plain("ld sp, hl")
    case 0xA => Op("ld a, [", Imm16, "]")
    case 0xB => Plain("ei")
    case 0xE => Op("cp ", Imm8, "")
    case 0xF => Plain("rst $38")
    case _ => Undefined
  }

  /** The opcodes with no defined instruction. */
  const UndefinedOpcodes: set<byte> := {0xD3, 0xDB, 0xDD, 0xE3, 0xE4, 0xEB, 0xEC, 0xED, 0xF2, 0xF4, 0xFC, 0xFD}

  /** How many bytes an instruction with this opcode occupies (for 0x10, the clean `stop` form). */
  function EncodedLength(op: byte): (n: nat)
    ensures 1 <= n <= 3
  {
    EntryLength(Primary(op))
  }

  function EntryLength(e: Entry): (n: nat)
    ensures 1 <= n <= 3
  {
    match e
    case Op(_, operand, _) => 1 + OperandSize(operand)
    case CbPrefix => 2
    case Stop => 2
    case Undefined => 1
  }

  // ---------------------------------------------------------------------------
  // The 0xCB-prefixed table
  // ---------------------------------------------------------------------------

  /** Rotate and shift mnemonics of 0xCB 0x00-0x3F, in encoding order. */
  const Rotations: seq<string> := ["rlc", "rrc", "rl", "rr", "sla", "sra", "swap", "srl"]

  /** A 0xCB-prefixed instruction: a rotation or shift, or a bit test, reset or set, on a register. */
  datatype CbOp =
    | Rotate(kind: nat, reg: nat)
    | BitTest(index: nat, reg: nat)
    | BitReset(index: nat, reg: nat)
    | BitSet(index: nat, reg: nat)
  {
    predicate Valid() {
      match this
      case Rotate(k, r) => k < 8 && r < 8
      case BitTest(i, r) => i < 8 && r < 8
      case BitReset(i, r) => i < 8 && r < 8
      case BitSet(i, r) => i < 8 && r < 8
    }
  }

  /** The instruction a byte after the 0xCB prefix selects: two bits of group, three of kind or bit index, three of register. */
  function CbDecode(b: byte): (op: CbOp)
    ensures op.Valid()
  {
    var y, r := (b / 8) % 8, b % 8;
    if b < 0x40 then Rotate(y, r)
    else if b < 0x80 then BitTest(y, r)
    else if b < 0xC0 then BitReset(y, r)
    else BitSet(y, r)
  }

  /** The byte after the 0xCB prefix that encodes `op`. */
  function CbEncode(op: CbOp): (b: byte)
    requires op.Valid()
  {
    match op
    case Rotate(k, r) => k * 8 + r
    case BitTest(i, r) => 0x40 + i * 8 + r
    case BitReset(i, r) => 0x80 + i * 8 + r
    case BitSet(i, r) => 0xC0 + i * 8 + r
  }

  function CbText(op: CbOp): string
    requires op.Valid()
  {
    match op
    case Rotate(k, r) => Rotations[k] + " " + Registers[r]
    case BitTest(i, r) => "bit " + Decimal(i) + ", " + Registers[r]
    case BitReset(i, r) => "res " + Decimal(i) + ", " + Registers[r]
    case BitSet(i, r) => "set " + Decimal(i) + ", " + Registers[r]
  }

  /** Every byte after the prefix decodes to an instruction that encodes back to that byte. */
  lemma CbEncodeDecode(b: byte)
    ensures CbEncode(CbDecode(b)) == b
  {
  }

  /** Every extended instruction is decoded from the byte that encodes it: the table is a bijection. */
  lemma CbDecodeEncode(op: CbOp)
    requires op.Valid()
    ensures CbDecode(CbEncode(op)) == op
  {
    match op
    case Rotate(k, r) => CbFields(0, k, r);
    case BitTest(i, r) => CbFields(1, i, r);
    case BitReset(i, r) => CbFields(2, i, r);
    case BitSet(i, r) => CbFields(3, i, r);
  }

  /** The group, kind and register fields of a byte after the prefix. */
  lemma CbFields(group: nat, y: nat, r: nat)
    requires group < 4 && y < 8 && r < 8
    ensures var b := group * 0x40 + y * 8 + r;
      b / 0x40 == group && (b / 8) % 8 == y && b % 8 == r
  {
    var b := group * 0x40 + y * 8 + r;
    assert b == (group * 8 + y) * 8 + r;
    assert b / 8 == group * 8 + y;
    assert b == group * 0x40 + (y * 8 + r) && y * 8 + r < 0x40;
  }

  // ---------------------------------------------------------------------------
  // Decoding one instruction
  // ---------------------------------------------------------------------------

  /** The printed operand of an instruction whose bytes start `window`. */
  function OperandText(operand: Operand, window: seq<byte>, baseAddress: nat): string
    requires |window| > OperandSize(operand)
  {
    match operand
    case NoOperand => ""
    case Imm8 => "$" + Hex2(window[1])
    case Imm16 => "$" + Hex4(ToLittleEndian(window[1], window[2]))
    case Relative => "$" + Hex4(RelativeTarget(baseAddress, window[1]))
    case HighPage => "$" + Hex4(0xFF00 + window[1] as int)
  }

  /** The one-byte data directive that stands for an opcode byte. */
  function DataByte(op: byte): string {
    "db $" + Hex2(op)
  }

  /**
    Decodes the instruction at the start of `window`, whose first byte is at
    file offset `baseAddress`. The window ends where the caller allows reading
    to stop (the bank's end), and no byte past what the instruction needs is read.
   */
  function Decode(window: seq<byte>, baseAddress: nat): (r: DecodeOutcome)
    requires |window| > 0
    ensures r.Decoded? ==> 1 <= r.length <= |window|
    ensures r.Failed? ==> r.opcode == window[0] && r.address == baseAddress
  {
    DecodeEntry(Primary(window[0]), window, baseAddress)
  }

  /** Decoding once the opcode's table entry `entry` has been looked up. */
  function DecodeEntry(entry: Entry, window: seq<byte>, baseAddress: nat): (r: DecodeOutcome)
    requires |window| > 0
    ensures r.Decoded? ==> 1 <= r.length <= |window|
    ensures r.Failed? ==> r.opcode == window[0] && r.address == baseAddress
  {
    var op := window[0];
    match entry
    case Undefined => Failed(UndefinedOpcode, op, baseAddress)
    case Stop =>
      if |window| >= 2 && window[1] == 0x00 then Decoded("stop", 2)
      else Decoded(DataByte(op) + " ; corrupted stop", 1)
    case CbPrefix =>
      if |window| < 2 then Failed(TruncatedInstruction, op, baseAddress)
      else Decoded(CbText(CbDecode(window[1])), 2)
    case Op(before, operand, after) =>
      if |window| < 1 + OperandSize(operand) then Failed(TruncatedInstruction, op, baseAddress)
      else Decoded(before + OperandText(operand, window, baseAddress) + after, 1 + OperandSize(operand))
  }

  /**
    The text a decode outcome is listed with: a failed decode becomes a
    one-byte `db` placeholder marked unknown (undefined opcode) or truncated
    (bank edge).
   */
  function ListedText(outcome: DecodeOutcome): string {
    match outcome
    case Decoded(text, _) => text
    case Failed(UndefinedOpcode, op, _) => DataByte(op) + " ; unknown instruction"
    case Failed(TruncatedInstruction, op, _) => DataByte(op) + " ; truncated instruction"
  }

  /** The bytes a decode outcome is listed as covering: one for a failed decode. */
  function ListedLength(outcome: DecodeOutcome): nat {
    match outcome
    case Decoded(_, length) => length
    case Failed(_, _, _) => 1
  }

  /** Single-instruction decode as the driver and tests call it: text plus instruction length, never failing. */
  function DecodeText(window: seq<byte>, baseAddress: nat): (r: (string, nat))
    requires |window| > 0
    ensures 1 <= r.1 <= |window|
  {
    var outcome := Decode(window, baseAddress);
    (ListedText(outcome), ListedLength(outcome))
  }

  // ---------------------------------------------------------------------------
  // Properties of the decoder
  // ---------------------------------------------------------------------------

  /**
    The length consumed depends only on the opcode, never on operand values:
    a decoded instruction other than 0x10 takes EncodedLength bytes, and an
    instruction is truncated exactly when the window is shorter than that.
   */
  lemma LengthDependsOnlyOnOpcode(window: seq<byte>, baseAddress: nat)
    requires |window| > 0 && window[0] != 0x10
    ensures Decode(window, baseAddress).Decoded? ==> Decode(window, baseAddress).length == EncodedLength(window[0])
    ensures Decode(window, baseAddress) == Failed(TruncatedInstruction, window[0], baseAddress)
        <==> !Primary(window[0]).Undefined? && |window| < EncodedLength(window[0])
  {
    StopExactly(window[0]);
    EntryLengthDependsOnlyOnEntry(Primary(window[0]), window, baseAddress);
  }

  lemma EntryLengthDependsOnlyOnEntry(entry: Entry, window: seq<byte>, baseAddress: nat)
    requires |window| > 0 && !entry.Stop?
    ensures DecodeEntry(entry, window, baseAddress).Decoded? ==> DecodeEntry(entry, window, baseAddress).length == EntryLength(entry)
    ensures DecodeEntry(entry, window, baseAddress) == Failed(TruncatedInstruction, window[0], baseAddress)
        <==> !entry.Undefined? && |window| < EntryLength(entry)
  {
  }

  /** Exactly the twelve opcodes D3, DB, DD, E3, E4, EB, EC, ED, F2, F4, FC and FD have no table entry. */
  lemma UndefinedExactly(op: byte)
    ensures Primary(op).Undefined? <==> op in UndefinedOpcodes
  {
    var lo := op % 16;
    if op < 0xD0 {
      assert !Primary(op).Undefined?;
    } else if op < 0xE0 {
      assert Primary(op) == RowD(lo);
    } else if op < 0xF0 {
      assert Primary(op) == RowE(lo);
    } else {
      assert Primary(op) == RowF(lo);
    }
  }

  /** Only 0x10 is `stop`. */
  lemma StopExactly(op: byte)
    ensures Primary(op).Stop? <==> op == 0x10
  {
  }

  /** Only 0xCB is the prefix of the extended table. */
  lemma CbPrefixExactly(op: byte)
    ensures Primary(op).CbPrefix? <==> op == 0xCB
  {
  }

  /** Decoding reads only the instruction's own bytes: nothing past EncodedLength is looked at. */
  lemma DecodeReadsOnlyInstruction(window: seq<byte>, baseAddress: nat)
    requires |window| > 0
    ensures var n := if |window| < EncodedLength(window[0]) then |window| else EncodedLength(window[0]);
      Decode(window, baseAddress) == Decode(window[..n], baseAddress)
  {
    var n := if |window| < EncodedLength(window[0]) then |window| else EncodedLength(window[0]);
    EntryReadsOnlyInstruction(Primary(window[0]), window, baseAddress);
    assert window[..n][0] == window[0];
  }

  /** `DecodeReadsOnlyInstruction` once the opcode's table entry is looked up. */
  lemma EntryReadsOnlyInstruction(e: Entry, window: seq<byte>, baseAddress: nat)
    requires |window| > 0
    ensures var n := if |window| < EntryLength(e) then |window| else EntryLength(e);
      DecodeEntry(e, window, baseAddress) == DecodeEntry(e, window[..n], baseAddress)
  {
    var n := if |window| < EntryLength(e) then |window| else EntryLength(e);
    var w := window[..n];
    assert w[0] == window[0];
    match e
    case Undefined =>
    case Stop =>
    case CbPrefix =>
    case Op(before, operand, after) =>
      if |window| >= 1 + OperandSize(operand) {
        assert OperandText(operand, window, baseAddress) == OperandText(operand, w, baseAddress);
      }
  }

  /**
    A 16-bit operand is printed little-endian, first byte low, and both operand
    bytes can be read back from the printed digits.
   */
  lemma Imm16Operand(window: seq<byte>, baseAddress: nat)
    requires |window| >= 3 && Primary(window[0]).Op? && Primary(window[0]).operand == Imm16
    ensures var e := Primary(window[0]);
      var digits := Hex4(ToLittleEndian(window[1], window[2]));
      && Decode(window, baseAddress) == Decoded(e.before + "$" + digits + e.after, 3)
      && |digits| == 4
      && IsDigits(digits, 16)
      && Parse(digits, 16) % 0x100 == window[1]
      && Parse(digits, 16) / 0x100 == window[2]
  {
    Hex4Exact(ToLittleEndian(window[1], window[2]));
  }

  /** An 8-bit operand is printed as exactly two digits that read back as the operand byte. */
  lemma Imm8Operand(window: seq<byte>, baseAddress: nat)
    requires |window| >= 2 && Primary(window[0]).Op? && Primary(window[0]).operand == Imm8
    ensures var e := Primary(window[0]);
      && Decode(window, baseAddress) == Decoded(e.before + "$" + Hex2(window[1]) + e.after, 2)
      && |Hex2(window[1])| == 2
      && IsDigits(Hex2(window[1]), 16)
      && Parse(Hex2(window[1]), 16) == window[1]
  {
    Hex2Exact(window[1]);
  }

  /** `ldh` prints the high-page address $ff00+n in four digits, from which n reads back. */
  lemma HighPageOperand(window: seq<byte>, baseAddress: nat)
    requires |window| >= 2 && Primary(window[0]).Op? && Primary(window[0]).operand == HighPage
    ensures var e := Primary(window[0]);
      var digits := Hex4(0xFF00 + window[1] as int);
      && Decode(window, baseAddress) == Decoded(e.before + "$" + digits + e.after, 2)
      && |digits| == 4
      && IsDigits(digits, 16)
      && Parse(digits, 16) - 0xFF00 == window[1]
  {
    Hex4Exact(0xFF00 + window[1] as int);
  }

  /** Bank 0 is mapped one to one; every other bank lands in $4000-$7FFF at its offset within the bank. */
  lemma MapToAddressSpaceBanks(bank: nat, offset: nat)
    requires offset < Rom.BankSize
    ensures bank == 0 ==> MapToAddressSpace(bank * Rom.BankSize + offset) == offset
    ensures bank >= 1 ==>
      && MapToAddressSpace(bank * Rom.BankSize + offset) == Rom.BankSize + offset
      && Rom.BankSize <= MapToAddressSpace(bank * Rom.BankSize + offset) < 2 * Rom.BankSize
  {
    var a := bank * Rom.BankSize + offset;
    if bank >= 1 {
      assert a >= Rom.BankSize;
      assert a % Rom.BankSize == offset;
    }
  }

  /**
    A relative jump's target is the mapped address after the instruction plus
    the signed offset, clamped at $0000; it never exceeds $807F, so the wrap at
    $FFFF is never taken.
   */
  lemma RelativeTargetBounds(baseAddress: nat, offset: byte)
    ensures var sum := MapToAddressSpace(baseAddress + 2) + Signed(offset);
      RelativeTarget(baseAddress, offset) == if sum < 0 then 0 else sum
    ensures RelativeTarget(baseAddress, offset) < 0x8080
    ensures baseAddress + 2 >= Rom.BankSize ==> Rom.BankSize - 0x80 <= RelativeTarget(baseAddress, offset)
  {
  }

  /** Every relative jump is printed with its resolved target. */
  lemma RelativeOperand(window: seq<byte>, baseAddress: nat)
    requires |window| >= 2 && Primary(window[0]).Op? && Primary(window[0]).operand == Relative
    ensures var e := Primary(window[0]);
      var digits := Hex4(RelativeTarget(baseAddress, window[1]));
      && Decode(window, baseAddress) == Decoded(e.before + "$" + digits + e.after, 2)
      && |digits| == 4
      && IsDigits(digits, 16)
      && Parse(digits, 16) == RelativeTarget(baseAddress, window[1])
  {
    var t := RelativeTarget(baseAddress, window[1]);
    RelativeTargetBounds(baseAddress, window[1]);
    Hex4Exact(t);
  }

  /** `stop` needs its trailing zero byte; a 0x10 without it is one corrupted data byte. */
  lemma StopIntegrity(window: seq<byte>, baseAddress: nat)
    requires |window| > 0 && window[0] == 0x10
    ensures |window| >= 2 && window[1] == 0x00 ==> Decode(window, baseAddress) == Decoded("stop", 2)
    ensures !(|window| >= 2 && window[1] == 0x00) ==>
      && Decode(window, baseAddress).Decoded?
      && Decode(window, baseAddress).length == 1
      && Decode(window, baseAddress).text[..6] == "db $10"
  {
    assert Primary(0x10) == Stop;
    assert Hex2(0x10) == "10";
  }

  /**
    An undefined opcode fails to decode, with its byte and address; the
    driver's lenient text for it is `db $xx` marked unknown, one byte long.
   */
  lemma UndefinedOpcodeOutcome(window: seq<byte>, baseAddress: nat)
    requires |window| > 0
    ensures Decode(window, baseAddress) == Failed(UndefinedOpcode, window[0], baseAddress)
        <==> window[0] in UndefinedOpcodes
    ensures window[0] in UndefinedOpcodes ==>
      DecodeText(window, baseAddress) == ("db $" + Hex2(window[0]) + " ; unknown instruction", 1)
  {
    UndefinedExactly(window[0]);
  }

  /** The restart opcodes 0xC7, 0xCF, ..., 0xFF call the vectors $00, $08, ..., $38, one byte each. */
  lemma RstVectors(k: nat)
    requires k < 8
    ensures Decode([0xC7 + 8 * k], 0) == Decoded("rst $" + Hex2(8 * k), 1)
  {
    var op: byte := 0xC7 + 8 * k;
    Hex2Of(8 * k, k / 2, 8 * (k % 2));
    assert op / 16 == 0xC + k / 2 && op % 16 == 7 + 8 * (k % 2);
    var vector := "rst $" + [DigitChar(k / 2), DigitChar(8 * (k % 2))];
    assert Primary(op) == Plain(vector) by {
      match k
      case 0 => assert vector == "rst $00";
      case 1 => assert vector == "rst $08";
      case 2 => assert vector == "rst $10";
      case 3 => assert vector == "rst $18";
      case 4 => assert vector == "rst $20";
      case 5 => assert vector == "rst $28";
      case 6 => assert vector == "rst $30";
      case 7 => assert vector == "rst $38";
    }
    PlainDecode([op], 0, vector);
  }

  /** An opcode without operands decodes to its mnemonic in one byte. */
  lemma PlainDecode(window: seq<byte>, baseAddress: nat, mnemonic: string)
    requires |window| > 0 && Primary(window[0]) == Plain(mnemonic)
    ensures Decode(window, baseAddress) == Decoded(mnemonic, 1)
  {
    assert mnemonic + "" + "" == mnemonic;
  }

  /** A 16-bit immediate is read low byte first: 01 cd ab is `ld bc, $abcd`. */
  lemma LittleEndianExample()
    ensures Decode([0x01, 0xCD, 0xAB], 0) == Decoded("ld bc, $abcd", 3)
  {
    var w: seq<byte> := [0x01, 0xCD, 0xAB];
    assert Primary(w[0]) == Op("ld bc, ", Imm16, "");
    Imm16Operand(w, 0);
    Hex4Of(0xABCD, 10, 11, 12, 13);
  }

  /** In bank 0, `jr` back by ten (18 f6) from 0x0EDE targets $0ed6 and forward by ten (18 0a) $0eea. */
  lemma JumpExamplesBank0()
    ensures Decode([0x18, 0xF6], 0x0EDE) == Decoded("jr $0ed6", 2)
    ensures Decode([0x18, 0x0A], 0x0EDE) == Decoded("jr $0eea", 2)
  {
    RelativeTargetExamples();
    JrCase(0xF6, 0x0EDE, 0x0ED6, 0, 14, 13, 6);
    JrCase(0x0A, 0x0EDE, 0x0EEA, 0, 14, 14, 10);
  }

  /** In bank 1, at 0x4EDE, the same two jumps target $4ed6 and $4eea. */
  lemma JumpExamplesBank1()
    ensures Decode([0x18, 0xF6], 0x4EDE) == Decoded("jr $4ed6", 2)
    ensures Decode([0x18, 0x0A], 0x4EDE) == Decoded("jr $4eea", 2)
  {
    RelativeTargetExamples();
    JrCase(0xF6, 0x4EDE, 0x4ED6, 4, 14, 13, 6);
    JrCase(0x0A, 0x4EDE, 0x4EEA, 4, 14, 14, 10);
  }

  /** In bank 2, at file offset 0x8EDE, the targets are windowed into $4000-$7FFF: $4ed6 and $4eea again. */
  lemma JumpExamplesBank2()
    ensures Decode([0x18, 0xF6], 0x8EDE) == Decoded("jr $4ed6", 2)
    ensures Decode([0x18, 0x0A], 0x8EDE) == Decoded("jr $4eea", 2)
  {
    RelativeTargetExamples();
    JrCase(0xF6, 0x8EDE, 0x4ED6, 4, 14, 13, 6);
    JrCase(0x0A, 0x8EDE, 0x4EEA, 4, 14, 14, 10);
  }

  /** The targets of the `jr` examples: back and forward by ten from the end of the instruction. */
  lemma RelativeTargetExamples()
    ensures RelativeTarget(0x0EDE, 0xF6) == 0x0ED6 && RelativeTarget(0x0EDE, 0x0A) == 0x0EEA
    ensures RelativeTarget(0x4EDE, 0xF6) == 0x4ED6 && RelativeTarget(0x4EDE, 0x0A) == 0x4EEA
    ensures RelativeTarget(0x8EDE, 0xF6) == 0x4ED6 && RelativeTarget(0x8EDE, 0x0A) == 0x4EEA
  {
  }

  /** A `jr` whose target has the hexadecimal digits `d3 d2 d1 d0`. */
  lemma JrCase(offset: byte, baseAddress: nat, target: nat, d3: nat, d2: nat, d1: nat, d0: nat)
    requires d3 < 16 && d2 < 16 && d1 < 16 && d0 < 16 && target == d3 * 0x1000 + d2 * 0x100 + d1 * 16 + d0
    requires RelativeTarget(baseAddress, offset) == target
    ensures Decode([0x18, offset], baseAddress) == Decoded("jr $" + [DigitChar(d3), DigitChar(d2), DigitChar(d1), DigitChar(d0)], 2)
  {
    Hex4Of(target, d3, d2, d1, d0);
    JrDecode(offset, baseAddress);
  }

  /** `jr` (0x18) with offset byte `offset` prints its resolved target. */
  lemma JrDecode(offset: byte, baseAddress: nat)
    ensures Decode([0x18, offset], baseAddress) == Decoded("jr $" + Hex4(RelativeTarget(baseAddress, offset)), 2)
  {
    assert Primary(0x18) == Op("jr ", Relative, "");
    RelativeOperand([0x18, offset], baseAddress);
    assert "jr " + "$" + Hex4(RelativeTarget(baseAddress, offset)) + "" == "jr $" + Hex4(RelativeTarget(baseAddress, offset));
  }

  /** Regular blocks: 41 is `ld b, c`, 76 is `halt` and 86 is `add [hl]`. */
  lemma RegularBlockExamples()
    ensures Decode([0x41], 0) == Decoded("ld b, c", 1)
    ensures Decode([0x76], 0) == Decoded("halt", 1)
    ensures Decode([0x86], 0) == Decoded("add [hl]", 1)
  {
    assert Primary(0x41) == Plain("ld b, c");
    assert Primary(0x76) == Plain("halt");
    assert Primary(0x86) == Plain("add [hl]");
    PlainDecode([0x41], 0, "ld b, c");
    PlainDecode([0x76], 0, "halt");
    PlainDecode([0x86], 0, "add [hl]");
  }

  /**
    The load block: 0x40 + 8 * dst + src is `ld dst, src` over the register
    order b, c, d, e, h, l, [hl], a; the one exception, `ld [hl], [hl]`, is
    `halt` (0x76, in `RegularBlockExamples`).
   */
  lemma LoadBlock(dst: nat, src: nat, baseAddress: nat)
    requires dst < 8 && src < 8 && !(dst == 6 && src == 6)
    ensures Decode([0x40 + 8 * dst + src], baseAddress) == Decoded("ld " + Registers[dst] + ", " + Registers[src], 1)
  {
    LoadEntry(dst, src);
    PlainDecode([0x40 + 8 * dst + src], baseAddress, "ld " + Registers[dst] + ", " + Registers[src]);
  }

  lemma LoadEntry(dst: nat, src: nat)
    requires dst < 8 && src < 8 && !(dst == 6 && src == 6)
    ensures Primary(0x40 + 8 * dst + src) == Plain("ld " + Registers[dst] + ", " + Registers[src])
  {
    var op: byte := 0x40 + 8 * dst + src;
    CbFields(1, dst, src);
    assert 0x40 <= op < 0x80 && op != 0x76;
    assert (op - 0x40) / 8 == dst;
  }

  /** The arithmetic block: 0x80 + 8 * k + src is the k-th of add, adc, sub, sbc, and, xor, or, cp on register src. */
  lemma ArithmeticBlock(k: nat, src: nat, baseAddress: nat)
    requires k < 8 && src < 8
    ensures Decode([0x80 + 8 * k + src], baseAddress) == Decoded(Arithmetic[k] + " " + Registers[src], 1)
  {
    var op: byte := 0x80 + 8 * k + src;
    CbFields(2, k, src);
    assert (op - 0x80) / 8 == k;
    PlainDecode([op], baseAddress, Arithmetic[k] + " " + Registers[src]);
  }

  /** The extended table opens with cb 00 `rlc b` and cb 01 `rlc c`. */
  lemma ExtendedExamples()
    ensures Decode([0xCB, 0x00], 0) == Decoded("rlc b", 2)
    ensures Decode([0xCB, 0x01], 0) == Decoded("rlc c", 2)
  {
    assert Primary(0xCB) == CbPrefix;
    assert CbText(CbDecode(0x00)) == "rlc b";
    assert CbText(CbDecode(0x01)) == "rlc c";
  }
}
