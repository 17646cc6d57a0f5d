/**
  The disassembly driver (GBDasm.Core/Disassembler.cs): for every bank a
  SECTION line, then a cursor walk over the bank that lists header bytes as
  `db` and hands everything else to the decoder, one instruction at a time.

  The walk is first specified by functions over values: `ItemAt`, `Walk` and
  `Banks` give what each position of the ROM is listed as, `Show` the line
  an item becomes, `FirstAbort` where strict mode stops, and `Listing` the
  finished text. The class `Disassembler` then does the walk with the
  source's nested loops and a growing text buffer, and is proved to produce
  exactly `Listing`.

  Like the source's `Disassembler`, which is handed its `Decoder`, the
  driver is given its decoder; it relies only on the decoder's length
  contract (`IsDecoder`), which `Decoder.Decode` meets.
 */
module Disassembly {
  import opened NumberFormat
  import opened Wrappers
  import opened Rom
  import opened Decoder
  import opened Exceptions

  // ---------------------------------------------------------------------------
  // The decoder the driver is given
  // ---------------------------------------------------------------------------

  type DecodeFn = (seq<byte>, nat) --> DecodeOutcome

  /**
    What the driver needs of its decoder: it accepts any non-empty window,
    and a decoded instruction takes at least one byte and no more than the
    window holds.
   */
  ghost predicate IsDecoder(decode: DecodeFn) {
    forall window: seq<byte>, address: nat :: |window| > 0 ==>
      && decode.requires(window, address)
      && (decode(window, address).Decoded? ==> 1 <= decode(window, address).length <= |window|)
  }

  /** The single-instruction decoder meets the driver's contract. */
  lemma DecodeIsDecoder()
    ensures IsDecoder(Decode)
  {
    forall window: seq<byte>, address: nat | |window| > 0
      ensures Decode.requires(window, address)
      ensures Decode(window, address).Decoded? ==> 1 <= Decode(window, address).length <= |window|
    {
      var r := Decode(window, address);
    }
  }

  // ---------------------------------------------------------------------------
  // What the walk produces
  // ---------------------------------------------------------------------------

  /** One listing line before it is formatted. */
  datatype Item =
    | Section(bank: nat)
    | HeaderByte(address: i32, value: byte)
    | Code(address: i32, outcome: DecodeOutcome)

  /** How many ROM bytes an item stands for. */
  function Span(item: Item): nat {
    match item
    case Section(_) => 0
    case HeaderByte(_, _) => 1
    case Code(_, outcome) => ListedLength(outcome)
  }

  /** Whether the header range applies at `address`: only when header detection is on. */
  predicate IsHeaderAt(rom: RomFile, address: int)
    requires rom.Valid()
  {
    rom.hasHeader && rom.IsInHeader(address)
  }

  /**
    The item at `cursor` (an offset within bank `bank`): a header address
    gives one `db` byte; any other address is decoded from a window that
    starts there and runs to the bank limit, never into the next bank.
   */
  function ItemAt(rom: RomFile, decode: DecodeFn, bank: nat, cursor: nat): (item: Item)
    requires rom.Valid() && IsDecoder(decode)
    requires bank < rom.NumberOfBanks() && cursor < rom.BankLimit()
    ensures 1 <= Span(item) <= rom.BankLimit() - cursor
  {
    BankInBounds(rom, bank);
    var address := bank * BankSize + cursor;
    if IsHeaderAt(rom, address) then HeaderByte(address, rom.data[address])
    else Code(address, decode(rom.data[address .. bank * BankSize + rom.BankLimit()], address))
  }

  /** The items of bank `bank` from `cursor` to the bank limit, each moving the cursor on by its span. */
  function Walk(rom: RomFile, decode: DecodeFn, bank: nat, cursor: nat): seq<Item>
    requires rom.Valid() && IsDecoder(decode)
    requires bank < rom.NumberOfBanks() && cursor <= rom.BankLimit()
    decreases rom.BankLimit() - cursor
  {
    if cursor == rom.BankLimit() then []
    else
      var item := ItemAt(rom, decode, bank, cursor);
      [item] + Walk(rom, decode, bank, cursor + Span(item))
  }

  /** The items of banks `bank` up to the last: each bank's SECTION followed by its walk. */
  function Banks(rom: RomFile, decode: DecodeFn, bank: nat): seq<Item>
    requires rom.Valid() && IsDecoder(decode) && bank <= rom.NumberOfBanks()
    decreases rom.NumberOfBanks() - bank
  {
    if bank == rom.NumberOfBanks() then []
    else [Section(bank)] + Walk(rom, decode, bank, 0) + Banks(rom, decode, bank + 1)
  }

  // ---------------------------------------------------------------------------
  // Formatting
  // ---------------------------------------------------------------------------

  function Spaces(n: nat): (s: string)
    ensures |s| == n && forall i :: 0 <= i < n ==> s[i] == ' '
  {
    seq(n, _ => ' ')
  }

  /** `SECTION "rom<n>", ROM0` for bank 0 and `..., ROMX` for every switchable bank. */
  function SectionLine(bank: nat): string {
    "SECTION \"rom" + Decimal(bank) + "\", ROM" + [if bank == 0 then '0' else 'X']
  }

  /**
    A listing line: the text, then spaces, then the address comment `;$xxxx`,
    padded so the line is `width` wide; the padding is zero when the text and
    comment alone are wider.
   */
  function FormatLine(text: string, address: i32, width: nat): string {
    var comment := ";$" + HexInt(address);
    var pad := if |text| + |comment| < width then width - |text| - |comment| else 0;
    text + Spaces(pad) + comment
  }

  /** The line an item is listed as. */
  function Show(item: Item, width: nat): string {
    match item
    case Section(bank) => SectionLine(bank)
    case HeaderByte(address, value) => FormatLine(DataByte(value), address, width)
    case Code(address, outcome) => FormatLine(ListedText(outcome), address, width)
  }

  /**
    With the single-instruction decoder, a non-header position of a bank is
    listed with the text and length `DecodeText` gives for the window from
    that position to the bank limit.
   */
  lemma ItemIsDecodeText(rom: RomFile, bank: nat, cursor: nat, width: nat)
    requires rom.Valid() && bank < rom.NumberOfBanks() && cursor < rom.BankLimit()
    requires !IsHeaderAt(rom, bank * BankSize + cursor)
    ensures IsDecoder(Decode) && bank * BankSize + rom.BankLimit() <= |rom.data| &&
      var address := bank * BankSize + cursor;
      var listed := DecodeText(rom.data[address .. bank * BankSize + rom.BankLimit()], address);
      var item := ItemAt(rom, Decode, bank, cursor);
      Show(item, width) == FormatLine(listed.0, address, width) && Span(item) == listed.1
  {
    DecodeIsDecoder();
    ItemAtCode(rom, Decode, bank, cursor);
  }

  /** Away from the header, the item at `cursor` is what `decode` makes of the window to the bank limit. */
  lemma ItemAtCode(rom: RomFile, decode: DecodeFn, bank: nat, cursor: nat)
    requires rom.Valid() && IsDecoder(decode)
    requires bank < rom.NumberOfBanks() && cursor < rom.BankLimit()
    requires !IsHeaderAt(rom, bank * BankSize + cursor)
    ensures bank * BankSize + rom.BankLimit() <= |rom.data|
    ensures var address := bank * BankSize + cursor;
      ItemAt(rom, decode, bank, cursor) == Code(address, decode(rom.data[address .. bank * BankSize + rom.BankLimit()], address))
  {
    BankInBounds(rom, bank);
  }

  predicate IsUndefined(outcome: DecodeOutcome) {
    outcome.Failed? && outcome.kind == UndefinedOpcode
  }

  /** In strict mode an undefined opcode aborts the run; a truncated instruction is always listed. */
  predicate Aborts(item: Item, strict: bool) {
    strict && item.Code? && IsUndefined(item.outcome)
  }

  /** The exception an aborting item raises. */
  function Fault(item: Item): (e: UndefinedOpcodeException)
    requires item.Code? && item.outcome.Failed?
    ensures e.opCode == item.outcome.opcode && e.address == item.address
  {
    New(item.outcome.opcode, item.address)
  }

  /** The first item that aborts the run, if there is one. */
  function FirstAbort(items: seq<Item>, strict: bool): Option<nat> {
    if items == [] then None
    else if Aborts(items[0], strict) then Some(0)
    else match FirstAbort(items[1..], strict)
      case None => None
      case Some(k) => Some(k + 1)
  }

  /** The exception the first aborting item raises, if one of `items` aborts. */
  function AbortOf(items: seq<Item>, strict: bool): Option<UndefinedOpcodeException> {
    match FirstAbort(items, strict)
    case None => None
    case Some(k) =>
      FirstAbortMeaning(items, strict);
      Some(Fault(items[k]))
  }

  /** The lines of `items`, one each. */
  function ShowAll(items: seq<Item>, width: nat): (lines: seq<string>)
    ensures |lines| == |items|
  {
    if items == [] then [] else ShowAll(items[..|items| - 1], width) + [Show(items[|items| - 1], width)]
  }

  /** What `AppendLine` leaves in the buffer: every line followed by a newline. */
  function AppendLines(lines: seq<string>): string {
    if lines == [] then "" else AppendLines(lines[..|lines| - 1]) + lines[|lines| - 1] + "\n"
  }

  /** The lines separated by newlines. */
  function Join(lines: seq<string>): string {
    if lines == [] then ""
    else if |lines| == 1 then lines[0]
    else Join(lines[..|lines| - 1]) + "\n" + lines[|lines| - 1]
  }

  /** The characters `String.Trim` removes (the ASCII and Latin-1 white space). */
  predicate IsWhiteSpace(c: char) {
    c == ' ' || c == '\t' || c == '\n' || c == '\r' || c == '\U{000B}' || c == '\U{000C}'
    || c == '\U{0085}' || c == '\U{00A0}'
  }

  function TrimEnd(s: string): string {
    if |s| > 0 && IsWhiteSpace(s[|s| - 1]) then TrimEnd(s[..|s| - 1]) else s
  }

  function TrimStart(s: string): string {
    if |s| > 0 && IsWhiteSpace(s[0]) then TrimStart(s[1..]) else s
  }

  /** `String.Trim`: white space removed from both ends. */
  function Trim(s: string): string {
    TrimStart(TrimEnd(s))
  }

  /**
    The whole listing of a ROM: the lines of all its items joined by
    newlines, or, in strict mode, the exception of the first undefined
    opcode.
   */
  function Listing(rom: RomFile, decode: DecodeFn, width: nat, strict: bool): Result<string, UndefinedOpcodeException>
    requires rom.Valid() && IsDecoder(decode)
  {
    var items := Banks(rom, decode, 0);
    match AbortOf(items, strict)
    case Some(e) => Err(e)
    case None => Ok(Join(ShowAll(items, width)))
  }

  // ---------------------------------------------------------------------------
  // The driver
  // ---------------------------------------------------------------------------

  class Disassembler {
    const rom: RomFile
    const decoder: DecodeFn
    /** The column the address comments are aligned to. */
    const targetLineWidth: nat
    /** Whether an undefined opcode aborts the run rather than being listed. */
    const strict: bool

    constructor (rom: RomFile, decoder: DecodeFn, targetLineWidth: nat, strict: bool)
      ensures this.rom == rom && this.decoder == decoder
      ensures this.targetLineWidth == targetLineWidth && this.strict == strict
    {
      this.rom := rom;
      this.decoder := decoder;
      this.targetLineWidth := targetLineWidth;
      this.strict := strict;
    }

    /**
      The line listed at offset `addressWithinBank` of bank `bankNumber` and
      how far the cursor moves past it: a header byte as `db`, anything else
      as the decoder's instruction; in strict mode an undefined opcode is
      the exception instead of a line.
     */
    method LineAt(bankNumber: nat, addressWithinBank: nat) returns (line: Result<string, UndefinedOpcodeException>, instructionLength: nat)
      requires rom.Valid() && IsDecoder(decoder)
      requires bankNumber < rom.NumberOfBanks() && addressWithinBank < rom.BankLimit()
      ensures instructionLength == Span(ItemAt(rom, decoder, bankNumber, addressWithinBank))
      ensures line.Err? <==> Aborts(ItemAt(rom, decoder, bankNumber, addressWithinBank), strict)
      ensures line.Err? ==> line.error == Fault(ItemAt(rom, decoder, bankNumber, addressWithinBank))
      ensures line.Ok? ==> line.value == Show(ItemAt(rom, decoder, bankNumber, addressWithinBank), targetLineWidth)
    {
      BankInBounds(rom, bankNumber);
      var absoluteAddress: i32 := bankNumber * BankSize + addressWithinBank;
      if rom.hasHeader && rom.IsInHeader(absoluteAddress) {
        // the header is listed byte by byte, never decoded
        return Ok(FormatLine(DataByte(rom.data[absoluteAddress]), absoluteAddress, targetLineWidth)), 1;
      }
      var outcome := decoder(rom.data[absoluteAddress .. bankNumber * BankSize + rom.BankLimit()], absoluteAddress);
      if strict && IsUndefined(outcome) {
        return Err(New(outcome.opcode, absoluteAddress)), 1;
      }
      return Ok(FormatLine(ListedText(outcome), absoluteAddress, targetLineWidth)), ListedLength(outcome);
    }

    /**
      Lists bank `bankNumber` after the items `before` (whose lines `text`
      holds, each followed by a newline): the bank's lines are appended, or
      the strict-mode exception is returned.
     */
    method ListBank(bankNumber: nat, text: string, ghost before: seq<Item>, ghost all: seq<Item>)
      returns (text': string, failure: Option<UndefinedOpcodeException>, ghost listed: seq<Item>)
      requires rom.Valid() && IsDecoder(decoder) && bankNumber < rom.NumberOfBanks()
      requires Walking(bankNumber, 0, text, before, all)
      ensures failure.Some? ==> failure == AbortOf(all, strict)
      ensures failure.None? ==> Walking(bankNumber, rom.BankLimit(), text', listed, all)
    {
      text', failure, listed := text, None, before;
      var limit := rom.BankLimit();
      var addressWithinBank := 0;
      while addressWithinBank < limit
        invariant addressWithinBank <= limit
        invariant Walking(bankNumber, addressWithinBank, text', listed, all) && failure.None?
        decreases limit - addressWithinBank
      {
        var instructionLength;
        text', failure, instructionLength, listed := ListItem(bankNumber, addressWithinBank, text', listed, all);
        if failure.Some? {
          return;
        }
        addressWithinBank := addressWithinBank + instructionLength;
      }
    }

    /**
      One pass of the inner loop: the line at offset `addressWithinBank` is
      appended to the buffer, or the strict-mode exception is returned.
     */
    method ListItem(bankNumber: nat, addressWithinBank: nat, text: string, ghost listed: seq<Item>, ghost all: seq<Item>)
      returns (text': string, failure: Option<UndefinedOpcodeException>, instructionLength: nat, ghost listed': seq<Item>)
      requires rom.Valid() && IsDecoder(decoder)
      requires bankNumber < rom.NumberOfBanks() && addressWithinBank < rom.BankLimit()
      requires Walking(bankNumber, addressWithinBank, text, listed, all)
      ensures failure.Some? ==> failure == AbortOf(all, strict)
      ensures failure.None? ==>
        && 1 <= instructionLength <= rom.BankLimit() - addressWithinBank
        && Walking(bankNumber, addressWithinBank + instructionLength, text', listed', all)
    {
      ghost var item := ItemAt(rom, decoder, bankNumber, addressWithinBank);
      var line;
      line, instructionLength := LineAt(bankNumber, addressWithinBank);
      if line.Err? {
        WalkingAborts(bankNumber, addressWithinBank, text, listed, all);
        return text, Some(line.error), instructionLength, listed;
      }
      WalkingStep(bankNumber, addressWithinBank, text, listed, all);
      text' := text + line.value + "\n";
      listed' := listed + [item];
      failure := None;
    }

    /**
      The state of the walk of bank `bank` at offset `cursor`: `listed` and
      what the walk lists from `cursor` on make up `all`, `text` holds the
      lines of `listed`, and none of them aborts.
     */
    ghost predicate Walking(bank: nat, cursor: nat, text: string, listed: seq<Item>, all: seq<Item>)
      requires rom.Valid() && IsDecoder(decoder) && bank < rom.NumberOfBanks() && cursor <= rom.BankLimit()
    {
      Partial(all, listed, Walk(rom, decoder, bank, cursor), text, targetLineWidth, strict)
    }

    /** Listing the item at the cursor, when it does not abort, moves the walk on by its span. */
    lemma WalkingStep(bank: nat, cursor: nat, text: string, listed: seq<Item>, all: seq<Item>)
      requires rom.Valid() && IsDecoder(decoder) && bank < rom.NumberOfBanks() && cursor < rom.BankLimit()
      requires Walking(bank, cursor, text, listed, all)
      requires !Aborts(ItemAt(rom, decoder, bank, cursor), strict)
      ensures var item := ItemAt(rom, decoder, bank, cursor);
        Walking(bank, cursor + Span(item), text + Show(item, targetLineWidth) + "\n", listed + [item], all)
    {
      var item := ItemAt(rom, decoder, bank, cursor);
      WalkUnfold(rom, decoder, bank, cursor);
      PartialStep(all, listed, item, Walk(rom, decoder, bank, cursor + Span(item)), text, targetLineWidth, strict);
    }

    /** An item at the cursor that aborts is the first abort of the whole walk. */
    lemma WalkingAborts(bank: nat, cursor: nat, text: string, listed: seq<Item>, all: seq<Item>)
      requires rom.Valid() && IsDecoder(decoder) && bank < rom.NumberOfBanks() && cursor < rom.BankLimit()
      requires Walking(bank, cursor, text, listed, all)
      requires Aborts(ItemAt(rom, decoder, bank, cursor), strict)
      ensures AbortOf(all, strict) == Some(Fault(ItemAt(rom, decoder, bank, cursor)))
    {
      var item := ItemAt(rom, decoder, bank, cursor);
      WalkUnfold(rom, decoder, bank, cursor);
      PartialAborts(all, listed, item, Walk(rom, decoder, bank, cursor + Span(item)), text, targetLineWidth, strict);
    }

    /** At the bank limit everything of the walk is listed. */
    lemma WalkingDone(bank: nat, text: string, listed: seq<Item>, all: seq<Item>)
      requires rom.Valid() && IsDecoder(decoder) && bank < rom.NumberOfBanks()
      requires Walking(bank, rom.BankLimit(), text, listed, all)
      ensures all == listed && text == AppendLines(ShowAll(listed, targetLineWidth)) && FirstAbort(listed, strict).None?
    {
      assert listed + [] == listed;
    }

    /**
      The state of the run before bank `bank`: `listed` is what the banks
      before it list, `text` holds their lines, and none of them aborts.
     */
    ghost predicate Progress(bank: nat, text: string, listed: seq<Item>, all: seq<Item>)
      requires rom.Valid() && IsDecoder(decoder) && bank <= rom.NumberOfBanks()
    {
      Partial(all, listed, Banks(rom, decoder, bank), text, targetLineWidth, strict)
    }

    lemma ProgressStart()
      requires rom.Valid() && IsDecoder(decoder)
      ensures Progress(0, "", [], Banks(rom, decoder, 0))
    {
      assert [] + Banks(rom, decoder, 0) == Banks(rom, decoder, 0);
    }

    /** After the last bank, the trimmed buffer is the listing. */
    lemma ProgressDone(text: string, listed: seq<Item>, all: seq<Item>)
      requires rom.Valid() && IsDecoder(decoder)
      requires Progress(rom.NumberOfBanks(), text, listed, all) && all == Banks(rom, decoder, 0)
      ensures Listing(rom, decoder, targetLineWidth, strict) == Ok(Trim(text))
    {
      ListingComplete(rom, decoder, targetLineWidth, strict, all, listed);
    }

    /**
      One pass of the outer loop: the SECTION line of bank `bankNumber`, then
      the bank's walk. `all` is everything the run lists and `listed` the
      part already in `text`.
     */
    method ListSection(bankNumber: nat, text: string, ghost all: seq<Item>, ghost listed: seq<Item>)
      returns (text': string, failure: Option<UndefinedOpcodeException>, ghost listed': seq<Item>)
      requires rom.Valid() && IsDecoder(decoder) && bankNumber < rom.NumberOfBanks()
      requires Progress(bankNumber, text, listed, all)
      ensures failure.Some? ==> failure == AbortOf(all, strict)
      ensures failure.None? ==> Progress(bankNumber + 1, text', listed', all)
    {
      ghost var bankAll := listed + [Section(bankNumber)] + Walk(rom, decoder, bankNumber, 0);
      SectionStart(bankNumber, text, listed, all);
      text' := text + SectionLine(bankNumber) + "\n";
      listed' := listed + [Section(bankNumber)];
      text', failure, listed' := ListBank(bankNumber, text', listed', bankAll);
      if failure.Some? {
        SectionAborts(bankNumber, text, listed, all);
      } else {
        SectionDone(bankNumber, text, listed, all, text', listed');
      }
    }

    /** The SECTION line starts the walk of the bank. */
    lemma SectionStart(bank: nat, text: string, listed: seq<Item>, all: seq<Item>)
      requires rom.Valid() && IsDecoder(decoder) && bank < rom.NumberOfBanks()
      requires Progress(bank, text, listed, all)
      ensures Walking(bank, 0, text + SectionLine(bank) + "\n", listed + [Section(bank)],
        listed + [Section(bank)] + Walk(rom, decoder, bank, 0))
    {
      var walk := Walk(rom, decoder, bank, 0);
      assert listed + [Section(bank)] + walk == listed + ([Section(bank)] + walk);
      PartialStep(listed + [Section(bank)] + walk, listed, Section(bank), walk, text, targetLineWidth, strict);
    }

    /** A bank walked to its limit without aborting: the run moves on to the next bank. */
    lemma SectionDone(bank: nat, text: string, listed: seq<Item>, all: seq<Item>, text': string, listed': seq<Item>)
      requires rom.Valid() && IsDecoder(decoder) && bank < rom.NumberOfBanks()
      requires Progress(bank, text, listed, all)
      requires Walking(bank, rom.BankLimit(), text', listed', listed + [Section(bank)] + Walk(rom, decoder, bank, 0))
      ensures Progress(bank + 1, text', listed', all)
    {
      BankStep(rom, decoder, bank, all, listed);
      WalkingDone(bank, text', listed', listed + [Section(bank)] + Walk(rom, decoder, bank, 0));
    }

    /** The first abort within a bank is the first abort of the run. */
    lemma SectionAborts(bank: nat, text: string, listed: seq<Item>, all: seq<Item>)
      requires rom.Valid() && IsDecoder(decoder) && bank < rom.NumberOfBanks()
      requires Progress(bank, text, listed, all)
      requires AbortOf(listed + [Section(bank)] + Walk(rom, decoder, bank, 0), strict).Some?
      ensures AbortOf(all, strict) == AbortOf(listed + [Section(bank)] + Walk(rom, decoder, bank, 0), strict)
    {
      BankStep(rom, decoder, bank, all, listed);
      FirstAbortPrefix(all, listed + [Section(bank)] + Walk(rom, decoder, bank, 0), Banks(rom, decoder, bank + 1), strict);
    }

    /**
      The outer loop: every bank in turn. On success `text` holds the lines of
      all of them; in strict mode the first undefined opcode stops the loop.
     */
    method ListBanks(ghost all: seq<Item>) returns (text: string, failure: Option<UndefinedOpcodeException>, ghost listed: seq<Item>)
      requires rom.Valid() && IsDecoder(decoder) && all == Banks(rom, decoder, 0)
      ensures failure.Some? ==> failure == AbortOf(all, strict)
      ensures failure.None? ==> Progress(rom.NumberOfBanks(), text, listed, all)
    {
      text, failure, listed := "", None, [];
      ProgressStart();
      var bankNumber := 0;
      while bankNumber < rom.NumberOfBanks()
        invariant bankNumber <= rom.NumberOfBanks()
        invariant Progress(bankNumber, text, listed, all) && failure.None?
        decreases rom.NumberOfBanks() - bankNumber
      {
        text, failure, listed := ListSection(bankNumber, text, all, listed);
        if failure.Some? {
          return;
        }
        bankNumber := bankNumber + 1;
      }
    }

    /** Produces the RGBDS listing of the ROM. */
    method Disassemble() returns (r: Result<string, UndefinedOpcodeException>)
      requires rom.Valid() && IsDecoder(decoder)
      ensures r == Listing(rom, decoder, targetLineWidth, strict)
    {
      ghost var all := Banks(rom, decoder, 0);
      var text, failure, listed := ListBanks(all);
      if failure.Some? {
        ListingAborts(rom, decoder, targetLineWidth, strict, all);
        return Err(failure.value);
      }
      ProgressDone(text, listed, all);
      return Ok(Trim(text));
    }
  }

  // ---------------------------------------------------------------------------
  // Steps of the driver's proof
  // ---------------------------------------------------------------------------

  lemma WalkUnfold(rom: RomFile, decode: DecodeFn, bank: nat, cursor: nat)
    requires rom.Valid() && IsDecoder(decode)
    requires bank < rom.NumberOfBanks() && cursor < rom.BankLimit()
    ensures var item := ItemAt(rom, decode, bank, cursor);
      Walk(rom, decode, bank, cursor) == [item] + Walk(rom, decode, bank, cursor + Span(item))
  {
  }

  /**
    A run part-way through `all`: the items `listed` come first and `rest`
    follows; `text` holds the lines of `listed`, each followed by a newline,
    and none of them aborts.
   */
  predicate Partial(all: seq<Item>, listed: seq<Item>, rest: seq<Item>, text: string, width: nat, strict: bool) {
    && all == listed + rest
    && text == AppendLines(ShowAll(listed, width)) && FirstAbort(listed, strict).None?
  }

  /** Listing the next item, when it does not abort, moves it from the rest to the listed items. */
  lemma PartialStep(all: seq<Item>, listed: seq<Item>, item: Item, rest: seq<Item>, text: string, width: nat, strict: bool)
    requires Partial(all, listed, [item] + rest, text, width, strict) && !Aborts(item, strict)
    ensures Partial(all, listed + [item], rest, text + Show(item, width) + "\n", width, strict)
  {
    Associate(listed, item, rest);
    ShownOneMore(listed, item, width, strict);
  }

  /** A next item that aborts is the first abort of everything the run lists. */
  lemma PartialAborts(all: seq<Item>, listed: seq<Item>, item: Item, rest: seq<Item>, text: string, width: nat, strict: bool)
    requires Partial(all, listed, [item] + rest, text, width, strict) && Aborts(item, strict)
    ensures AbortOf(all, strict) == Some(Fault(item))
  {
    FirstAbortAt(listed, item, rest, strict);
    assert FirstAbort(all, strict) == Some(|listed|) && all[|listed|] == item;
  }

  /** A bank's items are its SECTION, its walk, then the later banks' items; `listed` comes first. */
  lemma BanksUnfold(rom: RomFile, decode: DecodeFn, bank: nat, listed: seq<Item>)
    requires rom.Valid() && IsDecoder(decode) && bank < rom.NumberOfBanks()
    ensures listed + Banks(rom, decode, bank)
      == (listed + [Section(bank)] + Walk(rom, decode, bank, 0)) + Banks(rom, decode, bank + 1)
  {
    var walk := Walk(rom, decode, bank, 0);
    var later := Banks(rom, decode, bank + 1);
    assert listed + ([Section(bank)] + walk + later) == (listed + [Section(bank)] + walk) + later;
  }

  /** The listing opens with bank 0's SECTION line. */
  lemma BanksFirst(rom: RomFile, decode: DecodeFn)
    requires rom.Valid() && IsDecoder(decode)
    ensures var items := Banks(rom, decode, 0); items != [] && items[0] == Section(0)
  {
  }

  /** One bank of the outer loop: its SECTION and its walk move from the unlisted banks to the listed items. */
  lemma BankStep(rom: RomFile, decode: DecodeFn, bank: nat, all: seq<Item>, listed: seq<Item>)
    requires rom.Valid() && IsDecoder(decode) && bank < rom.NumberOfBanks()
    requires all == listed + Banks(rom, decode, bank)
    ensures all == (listed + [Section(bank)] + Walk(rom, decode, bank, 0)) + Banks(rom, decode, bank + 1)
  {
    BanksUnfold(rom, decode, bank, listed);
  }

  /** When an item of the run aborts, the listing is the exception of the first such item. */
  lemma ListingAborts(rom: RomFile, decode: DecodeFn, width: nat, strict: bool, all: seq<Item>)
    requires rom.Valid() && IsDecoder(decode)
    requires all == Banks(rom, decode, 0) && AbortOf(all, strict).Some?
    ensures Listing(rom, decode, width, strict) == Err(AbortOf(all, strict).value)
  {
  }

  /** When every bank is listed and nothing aborted, the buffer trimmed is the listing. */
  lemma ListingComplete(rom: RomFile, decode: DecodeFn, width: nat, strict: bool, all: seq<Item>, listed: seq<Item>)
    requires rom.Valid() && IsDecoder(decode)
    requires all == Banks(rom, decode, 0) && all == listed + Banks(rom, decode, rom.NumberOfBanks())
    requires FirstAbort(listed, strict).None?
    ensures Listing(rom, decode, width, strict) == Ok(Trim(AppendLines(ShowAll(listed, width))))
  {
    assert listed + [] == listed;
    BanksFirst(rom, decode);
    TrimShown(listed, width);
  }

  lemma Associate(listed: seq<Item>, item: Item, rest: seq<Item>)
    ensures listed + ([item] + rest) == (listed + [item]) + rest
  {
  }

  /** Listing one more item that does not abort: the buffer grows by its line and a newline. */
  lemma ShownOneMore(listed: seq<Item>, item: Item, width: nat, strict: bool)
    requires FirstAbort(listed, strict).None? && !Aborts(item, strict)
    ensures AppendLines(ShowAll(listed + [item], width)) == AppendLines(ShowAll(listed, width)) + Show(item, width) + "\n"
    ensures FirstAbort(listed + [item], strict).None?
  {
    assert (listed + [item])[..|listed|] == listed;
    var lines := ShowAll(listed, width);
    assert (lines + [Show(item, width)])[..|lines|] == lines;
    NoAbortAppend(listed, [item], strict);
  }

  /** `FirstAbort` finds the earliest aborting item, and `None` means that no item aborts. */
  lemma {:induction false} FirstAbortMeaning(items: seq<Item>, strict: bool)
    ensures var r := FirstAbort(items, strict);
      && (r.Some? ==> r.value < |items| && Aborts(items[r.value], strict))
      && (r.Some? ==> forall i :: 0 <= i < r.value ==> !Aborts(items[i], strict))
      && (r.None? ==> forall i :: 0 <= i < |items| ==> !Aborts(items[i], strict))
    decreases |items|
  {
    if items != [] && !Aborts(items[0], strict) {
      FirstAbortMeaning(items[1..], strict);
      forall i | 1 <= i < |items|
        ensures items[i] == items[1..][i - 1]
      {
      }
    }
  }

  lemma NoAbortAppend(a: seq<Item>, b: seq<Item>, strict: bool)
    requires FirstAbort(a, strict).None? && FirstAbort(b, strict).None?
    ensures FirstAbort(a + b, strict).None?
  {
    FirstAbortMeaning(a, strict);
    FirstAbortMeaning(b, strict);
    FirstAbortMeaning(a + b, strict);
    forall i | 0 <= i < |a + b|
      ensures !Aborts((a + b)[i], strict)
    {
      if i < |a| {
        assert (a + b)[i] == a[i];
      } else {
        assert (a + b)[i] == b[i - |a|];
      }
    }
  }

  /** The first item of `all == a + b` that aborts lies in `a` when one of `a` does. */
  lemma FirstAbortPrefix(all: seq<Item>, a: seq<Item>, b: seq<Item>, strict: bool)
    requires all == a + b && AbortOf(a, strict).Some?
    ensures AbortOf(all, strict) == AbortOf(a, strict)
  {
    FirstAbortMeaning(a, strict);
    var k := FirstAbort(a, strict).value;
    assert all[k] == a[k];
    forall i | 0 <= i < k
      ensures !Aborts(all[i], strict)
    {
      assert all[i] == a[i];
    }
    FirstAbortUnique(all, k, strict);
  }

  /** An aborting item with none before it is the first abort. */
  lemma FirstAbortUnique(items: seq<Item>, k: nat, strict: bool)
    requires k < |items| && Aborts(items[k], strict)
    requires forall i :: 0 <= i < k ==> !Aborts(items[i], strict)
    ensures FirstAbort(items, strict) == Some(k)
  {
    FirstAbortMeaning(items, strict);
  }

  /** With nothing listed so far aborting, an aborting item is the first abort of the whole. */
  lemma FirstAbortAt(listed: seq<Item>, item: Item, rest: seq<Item>, strict: bool)
    requires FirstAbort(listed, strict).None? && Aborts(item, strict)
    ensures FirstAbort(listed + ([item] + rest), strict) == Some(|listed|)
    ensures (listed + ([item] + rest))[|listed|] == item
  {
    FirstAbortMeaning(listed, strict);
    var all := listed + ([item] + rest);
    assert all[|listed|] == item;
    forall i | 0 <= i < |listed|
      ensures !Aborts(all[i], strict)
    {
      assert all[i] == listed[i];
    }
    FirstAbortUnique(all, |listed|, strict);
  }

  /** A string whose last character is not trimmed away. */
  predicate EndsSolid(s: string) {
    |s| > 0 && !IsWhiteSpace(s[|s| - 1])
  }

  lemma SectionLineSolid(bank: nat)
    ensures EndsSolid(SectionLine(bank)) && SectionLine(bank)[0] == 'S'
  {
  }

  lemma FormatLineSolid(text: string, address: i32, width: nat)
    ensures EndsSolid(FormatLine(text, address, width))
  {
    var h := HexInt(address);
    assert FormatLine(text, address, width)[|FormatLine(text, address, width)| - 1] == h[|h| - 1];
  }

  lemma ShowSolid(item: Item, width: nat)
    ensures EndsSolid(Show(item, width))
  {
    match item
    case Section(bank) => SectionLineSolid(bank);
    case HeaderByte(address, value) => FormatLineSolid(DataByte(value), address, width);
    case Code(address, outcome) => FormatLineSolid(ListedText(outcome), address, width);
  }

  lemma {:induction false} ShowAllLast(items: seq<Item>, width: nat)
    requires items != []
    ensures ShowAll(items, width)[|items| - 1] == Show(items[|items| - 1], width)
  {
  }

  lemma {:induction false} ShowAllFirst(items: seq<Item>, width: nat)
    requires items != []
    ensures ShowAll(items, width)[0] == Show(items[0], width)
    decreases |items|
  {
    if |items| > 1 {
      ShowAllFirst(items[..|items| - 1], width);
    }
  }

  lemma {:induction false} AppendLinesJoin(lines: seq<string>)
    requires lines != []
    ensures AppendLines(lines) == Join(lines) + "\n"
    decreases |lines|
  {
    if |lines| > 1 {
      AppendLinesJoin(lines[..|lines| - 1]);
    } else {
      assert lines[..0] == [];
    }
  }

  lemma {:induction false} JoinFirst(lines: seq<string>)
    requires lines != [] && |lines[0]| > 0
    ensures |Join(lines)| > 0 && Join(lines)[0] == lines[0][0]
    decreases |lines|
  {
    if |lines| > 1 {
      JoinFirst(lines[..|lines| - 1]);
    }
  }

  /**
    `Trim` on the buffer removes exactly the final newline: the first line
    is a SECTION line and every line ends with a character it keeps.
   */
  lemma TrimShown(items: seq<Item>, width: nat)
    requires items != [] && items[0] == Section(0)
    ensures Trim(AppendLines(ShowAll(items, width))) == Join(ShowAll(items, width))
  {
    var lines := ShowAll(items, width);
    var j := Join(lines);
    AppendLinesJoin(lines);
    ShowAllFirst(items, width);
    ShowAllLast(items, width);
    SectionLineSolid(0);
    ShowSolid(items[|items| - 1], width);
    JoinFirst(lines);
    assert (j + "\n")[..|j|] == j;
    assert TrimEnd(j + "\n") == TrimEnd(j);
    assert j[|j| - 1] == lines[|lines| - 1][|lines[|lines| - 1]| - 1];
  }
}
