# GBDasm core in Dafny

A model of the core of GBDasm, a static disassembler for the Game Boy CPU
(GBZ80). GBDasm turns a ROM image into RGBDS assembly. The model covers:

- **Rom** (`Rom.dfy`): the ROM image. It is an immutable byte sequence with a
  `hasHeader` flag. The cartridge header segment is [0x104, 0x150). Banks are
  0x4000 bytes. The bank count and the per-bank walk limit
  min(BankSize, Data.Length) are what the driver uses.
- **Decoder** (`Decoder.dfy`): decodes one instruction. It takes the bytes at
  a cursor and the instruction's absolute file address, and returns RGBDS text
  and the number of bytes consumed, or a failure (undefined opcode, or an
  instruction truncated at the window's end).
  - The full primary table and the 0xCB-prefixed table are included.
  - 16-bit operands are little-endian.
  - `jr` targets are resolved in banked address space: bank 0 maps one to one,
    and every other bank is windowed into $4000-$7FFF.
  - A lone 0x10 becomes a corrupted `db` byte.
- **Disassembly** (`Disassembly.dfy`): the driver, `Disassembler.Disassemble`.
  - It is specified first by functions over values: what each position of
    each bank is listed as (`ItemAt`, `Walk`, `Banks`), the line an item
    becomes (`Show`), where strict mode stops (`FirstAbort`), and the finished
    text (`Listing`).
  - The class `Disassembler` then runs the source's two nested loops with a
    growing text buffer, and `Disassemble` is proved to return exactly
    `Listing`.
  - The driver is given its decoder as a parameter, as the source's
    `Disassembler` is handed a `Decoder`. It relies only on the decoder's
    length contract (`IsDecoder`), which `Decoder.Decode` meets.
- **Exceptions** (`Exceptions.dfy`): `UndefinedOpcodeException`, the record
  of a strict-mode failure. It carries the opcode, the address, the default
  message `Undefined opcode <xx> at address $<xxxx>.`, and the three chained
  constructors.
- **ListingProperties** (`ListingProperties.dfy`): what the listing promises.
  - Each bank's walk tiles the bank with no gaps or overlaps.
  - Header bytes are listed as data.
  - Decoder windows end at the bank limit.
  - There is one SECTION line per bank, in order.
  - Lenient runs never fail.
  - Strict runs fail exactly at the first undefined opcode.
  - The line layout is fixed.
  - Two complete example runs are worked out.
- **NumberFormat** (`NumberFormat.dfy`): zero-padded lower-case hex and
  decimal formatting, with its parse round trip.
- **Wrappers** (`Wrappers.dfy`): `Option` and `Result`.

Two places where the model follows the tests rather than the current code in `GBDasm.Core`:

- `Decoder.cs` holds an unfinished multi-instruction stub. The tests call a
  single-instruction `Decode(data, out instructionLength, baseAddress)`, and
  that is what is modelled. The driver (`Disassembler.cs:38`) calls
  `Decode(data, out instructionLength)` with no base address; the model's
  driver passes the instruction's absolute address
  `bank * 0x4000 + addressWithinBank` as the base address. The tables come from
  `Decoder_Should.cs`. In particular 0xF2 is undefined, as the tests assert.
- `Disassembler.cs:33` and `:39` write `text ;xxxx`. The test
  `Disassembler_Should.cs:17-22` expects `text`, padding to a target width,
  then `;$xxxx`. The model follows the test. It also has a
  `targetLineWidth`, and a strict flag for the undefined-opcode policy.

## Model

| member | source | states |
|---|---|---|
| Rom.RomFile.Header | GBDasm.Core/RomFile.cs:16 | the header segment (offset 0x104, count 0x4C) lies inside the data |
| Rom.RomFile.HeaderBytes | GBDasm.Core/RomFile.cs:16 | the header segment holds exactly the 0x4C data bytes from offset 0x104 |
| Rom.IsInHeaderRange | GBDasm.Core/RomFile.cs:21 | IsInHeader(a) holds exactly when 0x104 <= a < 0x150 |
| Rom.RomFile.NumberOfBanks | GBDasm.Core/Disassembler.cs:24 | at least one bank; a ROM shorter than a bank is one bank; otherwise the count of whole banks |
| Rom.RomFile.BankLimit | GBDasm.Core/Disassembler.cs:27 | the walk limit is min(BankSize, Data.Length) |
| Rom.FromBytes | GBDasm.Core/RomFile.cs:26-29 | a ROM built from bytes keeps them unchanged; header detection is on exactly when the bytes reach 0x150 |
| Rom.BankInBounds | GBDasm.Core/Disassembler.cs:37 | every bank's window, up to its bank limit, lies inside the data |
| Rom.BanksCoverData | GBDasm.Core/Disassembler.cs:24-27 | the walked banks cover the data, and cover all of it exactly when it is shorter than a bank or a whole number of banks |
| Rom.RomFile.IsInHeader | GBDasm.Core/RomFile.cs:21 | the header test; its range is stated by IsInHeaderRange and HeaderInFirstBank |
| Rom.HeaderInFirstBank | GBDasm.Core/Disassembler.cs:29-30 | the address of bank `bank` at offset `cursor` is a header address exactly when the bank is 0 and 0x104 <= cursor < 0x150: no switchable bank meets the header |
| Decoder.ToLittleEndian | GBDasm.Core/Decoder.cs:45-48 | the first byte is the low byte and the second the high byte of the result |
| Decoder.LittleEndianSplit | GBDasm.Core/Decoder.cs:40-48 | splitting a 16-bit value into low and high bytes and recombining them gives it back |
| Decoder.LittleEndianExample | GBDasm.Core.Test/Decoder_Should.cs:21 | 01 cd ab decodes to `ld bc, $abcd` in 3 bytes |
| Decoder.Signed | GBDasm.Core.Test/Decoder_Should.cs:167 | the offset byte read as two's complement: in [-128, 128) and congruent to the byte mod 256 |
| Decoder.MapToAddressSpace | GBDasm.Core.Test/Decoder_Should.cs:167-175 | an offset in bank 0 maps to itself; any later offset lands in $4000-$7FFF at the same offset within its bank |
| Decoder.ClampToAddressSpace | GBDasm.Core.Test/Decoder_Should.cs:165-176 | a sum in $0000-$FFFF is kept and a negative sum becomes $0000 (RelativeTargetBounds proves the $FFFF wrap unreachable from a jump) |
| Decoder.RelativeTarget | GBDasm.Core.Test/Decoder_Should.cs:165-176 | the target is the mapped address after the instruction plus the signed offset, or 0 when that is negative, and always below $8080 |
| Decoder.MapToAddressSpaceBanks | GBDasm.Core.Test/Decoder_Should.cs:167-175 | bank 0 maps one to one; any other bank lands at $4000 plus its offset within the bank, inside $4000-$7FFF |
| Decoder.RelativeTargetBounds | GBDasm.Core.Test/Decoder_Should.cs:165-176 | the jr target is map(base+2) plus the signed offset, clamped at 0, below $8080, and at least $3F80 for banked bases |
| Decoder.RelativeOperand | GBDasm.Core.Test/Decoder_Should.cs:223 | every relative jump prints its resolved target in four hex digits that read back as that target, and takes 2 bytes |
| Decoder.JumpExamplesBank0 | GBDasm.Core.Test/Decoder_Should.cs:168-173 | 18 f6 and 18 0a at 0x0EDE give `jr $0ed6` and `jr $0eea` |
| Decoder.JumpExamplesBank1 | GBDasm.Core.Test/Decoder_Should.cs:169-174 | the same jumps at 0x4EDE give `jr $4ed6` and `jr $4eea` |
| Decoder.JumpExamplesBank2 | GBDasm.Core.Test/Decoder_Should.cs:170-175 | at 0x8EDE (bank 2) they are windowed to `jr $4ed6` and `jr $4eea` |
| Decoder.Primary | GBDasm.Core.Test/Decoder_Should.cs:13-1594 | the primary table; its content is stated by UndefinedExactly, StopExactly, CbPrefixExactly, LoadBlock, ArithmeticBlock, RstVectors and the operand lemmas, with lengths by LengthDependsOnlyOnOpcode |
| Decoder.EncodedLength | GBDasm.Core/Decoder.cs:26-29 | every opcode's encoded length is 1, 2 or 3 bytes |
| Decoder.LengthDependsOnlyOnOpcode | GBDasm.Core/Decoder.cs:26-29 | a decoded instruction (other than 0x10) consumes EncodedLength(opcode) bytes whatever its operands; it is truncated exactly when the window is shorter than that |
| Decoder.DecodeReadsOnlyInstruction | GBDasm.Core/Decoder.cs:26-29 | decoding the window cut to the instruction's own length gives the same outcome: no byte past the instruction is read |
| Decoder.Decode | GBDasm.Core/Disassembler.cs:38 | a decoded instruction consumes between 1 byte and the whole window; a failure reports the opcode byte and its address |
| Decoder.DecodeText | GBDasm.Core/Disassembler.cs:38 | the text-and-length form the driver calls always consumes between 1 byte and the window length |
| Decoder.Imm16Operand | GBDasm.Core.Test/Decoder_Should.cs:1349 | a 16-bit operand prints as four hex digits, first byte low; both bytes read back from the digits; 3 bytes consumed |
| Decoder.Imm8Operand | GBDasm.Core.Test/Decoder_Should.cs:52 | an 8-bit operand prints as two hex digits that read back as the byte; 2 bytes consumed |
| Decoder.HighPageOperand | GBDasm.Core.Test/Decoder_Should.cs:1389 | `ldh` prints $ff00+n as four digits from which n reads back; 2 bytes consumed |
| Decoder.StopExactly | GBDasm.Core.Test/Decoder_Should.cs:108-112 | only 0x10 is `stop` |
| Decoder.StopIntegrity | GBDasm.Core.Test/Decoder_Should.cs:108-120 | 10 00 is `stop` in 2 bytes; a 0x10 without the zero is one byte whose text starts `db $10` |
| Decoder.UndefinedExactly | GBDasm.Core.Test/Decoder_Should.cs:1303-1582 | exactly D3, DB, DD, E3, E4, EB, EC, ED, F2, F4, FC and FD have no table entry |
| Decoder.UndefinedOpcodeOutcome | GBDasm.Core.Test/Decoder_Should.cs:1303-1308 | decode fails as undefined exactly for those twelve opcodes; their listed text is `db $xx ; unknown instruction`, one byte |
| Decoder.LoadBlock | GBDasm.Core.Test/Decoder_Should.cs:412-794 | 0x40+8*dst+src is `ld dst, src` over b, c, d, e, h, l, [hl], a (except 0x76) |
| Decoder.ArithmeticBlock | GBDasm.Core.Test/Decoder_Should.cs:796-1178 | 0x80+8*k+src is add/adc/sub/sbc/and/xor/or/cp on register src |
| Decoder.RegularBlockExamples | GBDasm.Core.Test/Decoder_Should.cs:421-835 | 41 is `ld b, c`, 76 is `halt`, 86 is `add [hl]` |
| Decoder.RstVectors | GBDasm.Core.Test/Decoder_Should.cs:1222-1594 | 0xC7+8k is `rst $<8k>` in two hex digits, one byte |
| Decoder.CbPrefixExactly | GBDasm.Core.Test/Decoder_Should.cs:1246-1256 | only 0xCB prefixes the extended table |
| Decoder.CbDecode | GBDasm.Core/Decoder.cs:10 | every byte after the prefix selects a valid extended instruction |
| Decoder.CbEncodeDecode | GBDasm.Core/Decoder.cs:10 | decoding a byte after the prefix and encoding the instruction gives the byte back |
| Decoder.CbDecodeEncode | GBDasm.Core/Decoder.cs:10 | encoding an extended instruction and decoding the byte gives it back: the table is a bijection |
| Decoder.CbText | GBDasm.Core.Test/Decoder_Should.cs:1246-1256 | the text of an extended instruction; which byte selects which instruction is stated by CbDecodeEncode and CbEncodeDecode, the texts by ExtendedExamples |
| Decoder.ExtendedExamples | GBDasm.Core.Test/Decoder_Should.cs:1246-1256 | cb 00 is `rlc b` and cb 01 is `rlc c`, 2 bytes each |
| Exceptions.WithInner | GBDasm.Core/UndefinedOpcodeException.cs:24-28 | the chained-to constructor sets the message, the inner exception, OpCode and Address from its arguments |
| Exceptions.WithMessage | GBDasm.Core/UndefinedOpcodeException.cs:19 | the message constructor keeps the message and both fields, with no inner exception |
| Exceptions.New | GBDasm.Core/UndefinedOpcodeException.cs:14 | the two-argument constructor uses the default message, no inner exception, and keeps opcode and address |
| Exceptions.HexInt | GBDasm.Core/UndefinedOpcodeException.cs:14 | `{addr:x4}` has at least four digits, exactly four for 0 <= addr < 0x10000 |
| Exceptions.HexIntRoundTrip | GBDasm.Core/UndefinedOpcodeException.cs:14 | the printed address reads back as its 32-bit pattern, from which the signed address follows |
| Exceptions.DefaultMessage | GBDasm.Core/UndefinedOpcodeException.cs:14 | the default message; its layout is stated by DefaultMessageLayout, and DefaultMessageDeterminesFault shows it determines opcode and address |
| Exceptions.DefaultMessageLayout | GBDasm.Core/UndefinedOpcodeException.cs:14 | the default message starts `Undefined opcode `, then the opcode's two digits, and ends with `.` |
| Exceptions.DefaultMessageDeterminesFault | GBDasm.Core/UndefinedOpcodeException.cs:14 | two default messages are equal only for the same opcode and address |
| Exceptions.DefaultMessageExample | GBDasm.Core/UndefinedOpcodeException.cs:14 | D3 at 0x0150 gives `Undefined opcode d3 at address $0150.` |
| NumberFormat.DigitRoundTrip | GBDasm.Core/Decoder.cs:29 | every hex digit character reads back as its value |
| NumberFormat.FormatRoundTrip | GBDasm.Core/Decoder.cs:29 | zero-padded digits of a value are digits of the radix and parse back to the value |
| NumberFormat.FormatLength | GBDasm.Core/Decoder.cs:29 | padding gives at least the width, and exactly the width when the value fits |
| NumberFormat.FormatInjective | GBDasm.Core/Decoder.cs:29 | different values print differently at the same width |
| NumberFormat.Hex2Exact | GBDasm.Core/Disassembler.cs:33 | a byte prints as exactly two lower-case digits that read back as the byte |
| NumberFormat.Hex4Exact | GBDasm.Core/Disassembler.cs:33 | a value below 0x10000 prints as exactly four digits that read back as the value |
| Disassembly.DecodeIsDecoder | GBDasm.Core/Disassembler.cs:37-40 | the single-instruction decoder accepts every non-empty window and consumes between 1 byte and the window |
| Disassembly.ItemAt | GBDasm.Core/Disassembler.cs:29-40 | the item at the cursor covers between 1 byte and what is left of the bank |
| Disassembly.ItemIsDecodeText | GBDasm.Core/Disassembler.cs:37-39 | with the single-instruction decoder, a non-header position is listed with DecodeText's text and advances by DecodeText's length, over the window to the bank limit |
| Disassembly.Walk | GBDasm.Core/Disassembler.cs:27-41 | the inner loop's items; stated by WalkTiles, TilesCoverOnce and WalkFaithful |
| Disassembly.Banks | GBDasm.Core/Disassembler.cs:24-43 | every bank's SECTION followed by its walk; stated by BanksSections and OneSectionPerBank |
| Disassembly.SectionLine | GBDasm.Core/Disassembler.cs:26 | `SECTION "rom<n>", ROM0` or `ROMX`; stated by SectionLineNames |
| Disassembly.FormatLine | GBDasm.Core.Test/Disassembler_Should.cs:17-22 | the line layout; stated by FormatLineLayout and FormatLineAddress |
| Disassembly.Listing | GBDasm.Core/Disassembler.cs:21-45 | the finished listing; Disassemble is proved to return it, and LenientNeverFails, StrictFailsAtFirstUndefined and StrictSuccessIsLenient state its outcome |
| Disassembly.Fault | GBDasm.Core/UndefinedOpcodeException.cs:24-28 | an aborting item raises the exception carrying its opcode and absolute address |
| Disassembly.FirstAbortMeaning | GBDasm.Core/UndefinedOpcodeException.cs:5-14 | FirstAbort names the earliest aborting item, and None means that no item aborts |
| Disassembly.TrimShown | GBDasm.Core/Disassembler.cs:44 | trimming the buffer removes exactly the trailing newline, leaving the lines joined by newlines |
| Disassembly.Disassembler.constructor | GBDasm.Core/Disassembler.cs:12-16 | the driver keeps the ROM, the decoder, the width and the policy it is given |
| Disassembly.Disassembler.LineAt | GBDasm.Core/Disassembler.cs:29-40 | a header byte is one `db` line and advances 1; otherwise the decoder's line and length; in strict mode an undefined opcode is the exception |
| Disassembly.Disassembler.ListItem | GBDasm.Core/Disassembler.cs:28-41 | one inner pass appends the item's line and advances the cursor by its span within the bank, or returns the run's first abort |
| Disassembly.Disassembler.ListBank | GBDasm.Core/Disassembler.cs:27-42 | the inner loop lists the whole bank walk up to its limit, or returns the run's first abort |
| Disassembly.Disassembler.ListSection | GBDasm.Core/Disassembler.cs:24-42 | one outer pass appends the SECTION line and the bank's walk, or returns the run's first abort |
| Disassembly.Disassembler.ListBanks | GBDasm.Core/Disassembler.cs:24-43 | the outer loop lists every bank in order, or stops at the first abort of the run |
| Disassembly.Disassembler.Disassemble | GBDasm.Core/Disassembler.cs:21-45 | the result is exactly `Listing`: the trimmed lines of every bank, or the first undefined opcode's exception in strict mode |
| ListingProperties.WalkTiles | GBDasm.Core/Disassembler.cs:27-41 | a bank's walk tiles [bank*0x4000, bank*0x4000 + limit): each item starts where the previous ended and covers at least one byte |
| ListingProperties.TilesWithin | GBDasm.Core/Disassembler.cs:27-41 | every item of a tiling lies inside its range |
| ListingProperties.TilesCoverOnce | GBDasm.Core/Disassembler.cs:27-41 | an address is covered by some item exactly when it lies in the bank range, and by at most one item |
| ListingProperties.WalkFaithful | GBDasm.Core/Disassembler.cs:29-39 | every item lies in its bank; a header address is its data byte; any other address is decoded from a window ending at the bank limit |
| ListingProperties.HeaderListedAsData | GBDasm.Core/Disassembler.cs:30-34 | when the walk reaches 0x104 at an item boundary, every header address is listed as one `db` item of its data byte, never decoded |
| ListingProperties.BanksSections | GBDasm.Core/Disassembler.cs:24-26 | the banks from `bank` on list the SECTIONs bank, bank+1, ..., in order |
| ListingProperties.OneSectionPerBank | GBDasm.Core/Disassembler.cs:24-26 | the run lists exactly one SECTION per bank, for banks 0 .. NumberOfBanks-1 in order |
| ListingProperties.SectionLineNames | GBDasm.Core/Disassembler.cs:26 | SECTION lines of different banks differ; the line ends `ROM0` exactly for bank 0 and `ROMX` otherwise |
| ListingProperties.LenientNeverFails | GBDasm.Core/Disassembler.cs:21-44 | without strict mode the listing always succeeds, with every item's line |
| ListingProperties.StrictAborts | GBDasm.Core/UndefinedOpcodeException.cs:5-14 | in strict mode some item aborts exactly when one is an undefined opcode, with the first one's exception |
| ListingProperties.StrictFailsAtFirstUndefined | GBDasm.Core/UndefinedOpcodeException.cs:5-14 | a strict run fails exactly when the walk meets an undefined opcode, with the first one's opcode, absolute address and default message |
| ListingProperties.StrictSuccessIsLenient | GBDasm.Core/Disassembler.cs:21-44 | a strict run that succeeds gives the same listing as the lenient run |
| ListingProperties.FormatLineLayout | GBDasm.Core.Test/Disassembler_Should.cs:17-22 | a line is the text, spaces, then `;$` and the address; `width` wide, or text plus comment when those are wider |
| ListingProperties.FormatLineAddress | GBDasm.Core/Disassembler.cs:33 | the comment's digits read back as the line's absolute address, four digits below 0x10000 |
| ListingProperties.ExampleWalk | GBDasm.Core.Test/Disassembler_Should.cs:14-15 | the six-byte ROM is one bank walked as nop at 0, `ld bc, $dead` at 1, nop at 4, `inc bc` at 5 |
| ListingProperties.ExampleLines | GBDasm.Core.Test/Disassembler_Should.cs:17-22 | the example's lines, padded to 20 columns, are the five expected lines |
| ListingProperties.DisassembleExample | GBDasm.Core.Test/Disassembler_Should.cs:14-24 | disassembling 00 01 ad de 00 03 without header detection at width 20 gives exactly the expected listing |
| ListingProperties.StrictExample | GBDasm.Core/UndefinedOpcodeException.cs:14 | ROM 00 d3 in strict mode fails with the exception for opcode d3 at address 1; lenient mode lists it |

## Left out

- File I/O: reading the ROM from a path (`RomFile.cs:26-29`) and writing the listing to a file (`Disassembler.cs:47-50`). A ROM is built from a byte sequence instead.
- `HexDump` console printing and the console program `GBDasm.ConsoleApp/Program.cs`: user interface only.
- The reassembly integration test. It runs the external RGBDS tools and hashes files. The per-bank tiling lemmas are what the model states in its place.
- The multi-instruction `Decode(params byte[])` stub (`Decoder.cs:13-38`). It is unfinished and reads past its input. The single-instruction decode the driver calls is modelled instead.
- `StringBuilder` and `ArraySegment` mechanics. The buffer is a growing string, and the window is a slice of the data.
- `Environment.NewLine` is modelled as `"\n"`.
- `String.Trim` is modelled with the ASCII and Latin-1 white-space characters only. Listing lines never end in any other kind.
- The text of `db` placeholders beyond the tested prefix and the `unknown instruction` / `truncated instruction` marker.
- Disassembly.Disassembler.Disassemble: the inner loop's body and the outer loop's body are separate methods (`ListItem`, `ListSection`). Their loop state is a ghost predicate.
- Disassembly.Disassembler.Disassemble: the two loops' cursor updates are written as `cursor := cursor + instructionLength`, not as the source's `+= instructionLength - 1` followed by the loop's `++`. For lengths of at least 1 the two are the same.
- Rom.RomFile.Valid: a ROM holds fewer than 2^31 bytes, the bound of a .NET array index. Beyond that, `int` overflow of addresses is not modelled.
- ListingProperties.HeaderListedAsData: requires that the walk reach 0x104 at an item boundary. The source checks the header only where an instruction starts. An instruction starting at 0x102 or 0x103 can therefore run into the header, and that case is not covered.
- Disassembly.ItemAt and Disassembly.Disassembler.LineAt: the call at `Disassembler.cs:38` passes no base address, and the single-instruction overload's default is not defined in `GBDasm.Core`. The model passes the absolute address `bank * 0x4000 + addressWithinBank`, so `jr` lines show the banked target the tests expect.
- Decoder.UndefinedExactly: 0xF2 counts as undefined, following the tests. The RGBDS reference defines it as `ld a, [$ff00+c]`.
- The exception's serialization attribute and its base `Exception` behaviour beyond the message and the inner exception. The inner exception is kept only by its message.
