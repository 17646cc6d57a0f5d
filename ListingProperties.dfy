/**
  What the listing promises about a ROM (GBDasm.Core/Disassembler.cs):

  - the walk of every bank tiles the bank exactly;
  - header bytes are listed as data and never decoded;
  - every instruction is decoded from a window that ends at its bank's limit;
  - there is one SECTION line per bank, in bank order;
  - lenient mode always produces a listing;
  - strict mode fails exactly at the first undefined opcode;
  - every line is the text, padding and an address comment.
 */
module ListingProperties {
  import opened NumberFormat
  import opened Wrappers
  import opened Rom
  import opened Decoder
  import opened Exceptions
  import opened Disassembly

  // ---------------------------------------------------------------------------
  // Each bank's walk tiles the bank
  // ---------------------------------------------------------------------------

  /**
    `items` list the bytes [start, end) in order: each is a header byte or an
    instruction that starts where the one before it ended and covers at least
    one byte.
   */
  ghost predicate Tiles(items: seq<Item>, start: int, end: int)
    decreases |items|
  {
    if items == [] then start == end
    else
      && !items[0].Section? && items[0].address == start && Span(items[0]) >= 1
      && Tiles(items[1..], start + Span(items[0]), end)
  }

  /** Whether `item` stands for the byte at `address`. */
  predicate Covers(item: Item, address: int) {
    !item.Section? && item.address <= address < item.address + Span(item)
  }

  /**
    The walk of bank `bank` from offset `cursor` tiles the absolute addresses
    from bank * 0x4000 + cursor up to the bank limit: the cursor moves on by
    exactly each item's span and stops exactly at the limit.
   */
  lemma {:induction false} WalkTiles(rom: RomFile, decode: DecodeFn, bank: nat, cursor: nat)
    requires rom.Valid() && IsDecoder(decode)
    requires bank < rom.NumberOfBanks() && cursor <= rom.BankLimit()
    ensures Tiles(Walk(rom, decode, bank, cursor), bank * BankSize + cursor, bank * BankSize + rom.BankLimit())
    decreases rom.BankLimit() - cursor
  {
    if cursor < rom.BankLimit() {
      var item := ItemAt(rom, decode, bank, cursor);
      WalkUnfold(rom, decode, bank, cursor);
      WalkTiles(rom, decode, bank, cursor + Span(item));
      assert Walk(rom, decode, bank, cursor)[1..] == Walk(rom, decode, bank, cursor + Span(item));
    }
  }

  /** Every item of a tiling lies within its range. */
  lemma {:induction false} TilesWithin(items: seq<Item>, start: int, end: int)
    requires Tiles(items, start, end)
    ensures start <= end
    ensures forall k :: 0 <= k < |items| ==>
      !items[k].Section? && start <= items[k].address && 1 <= Span(items[k]) && items[k].address + Span(items[k]) <= end
    decreases |items|
  {
    if items != [] {
      var next := start + Span(items[0]);
      TilesWithin(items[1..], next, end);
      forall k | 1 <= k < |items|
        ensures !items[k].Section? && start <= items[k].address && 1 <= Span(items[k]) && items[k].address + Span(items[k]) <= end
      {
        assert items[k] == items[1..][k - 1];
      }
    }
  }

  /**
    No gaps and no overlaps: in a tiling of [start, end), an address is
    covered by some item exactly when it lies in the range, and by at most
    one item.
   */
  lemma {:induction false} TilesCoverOnce(items: seq<Item>, start: int, end: int, address: int)
    requires Tiles(items, start, end)
    ensures (exists k :: 0 <= k < |items| && Covers(items[k], address)) <==> start <= address < end
    ensures forall k, j :: 0 <= k < |items| && 0 <= j < |items| && Covers(items[k], address) && Covers(items[j], address) ==> k == j
    decreases |items|
  {
    if items != [] {
      var next := start + Span(items[0]);
      var rest := items[1..];
      TilesCoverOnce(rest, next, end, address);
      TilesWithin(rest, next, end);
      forall k | 1 <= k < |items|
        ensures items[k] == rest[k - 1]
      {
      }
      if start <= address < end {
        if address < next {
          assert Covers(items[0], address);
        } else {
          var k' :| 0 <= k' < |rest| && Covers(rest[k'], address);
          assert Covers(items[k' + 1], address);
        }
      }
      forall k | 0 <= k < |items| && Covers(items[k], address)
        ensures start <= address < end
      {
        if k > 0 {
          assert Covers(rest[k - 1], address);
        }
      }
      forall k, j | 0 <= k < |items| && 0 <= j < |items| && Covers(items[k], address) && Covers(items[j], address)
        ensures k == j
      {
        if k > 0 && j > 0 {
          assert Covers(rest[k - 1], address) && Covers(rest[j - 1], address);
        }
      }
    }
  }

  // ---------------------------------------------------------------------------
  // Header bytes and decoder windows
  // ---------------------------------------------------------------------------

  /**
    What an item of bank `bank`'s walk is, stated from the ROM alone.
    It lies in the bank. A header address is listed as its data byte. Any
    other address is decoded, and the window runs from that address to the
    bank limit, so it never reaches into the next bank.
   */
  ghost predicate ListedFaithfully(rom: RomFile, decode: DecodeFn, bank: nat, item: Item)
    requires rom.Valid() && IsDecoder(decode) && bank < rom.NumberOfBanks()
  {
    BankInBounds(rom, bank);
    && !item.Section?
    && bank * BankSize <= item.address < bank * BankSize + rom.BankLimit()
    && if IsHeaderAt(rom, item.address) then item == HeaderByte(item.address, rom.data[item.address])
       else item.Code? && item.outcome == decode(rom.data[item.address .. bank * BankSize + rom.BankLimit()], item.address)
  }

  /** Every item of a bank's walk is listed faithfully. */
  lemma {:induction false} WalkFaithful(rom: RomFile, decode: DecodeFn, bank: nat, cursor: nat)
    requires rom.Valid() && IsDecoder(decode)
    requires bank < rom.NumberOfBanks() && cursor <= rom.BankLimit()
    ensures var walk := Walk(rom, decode, bank, cursor);
      forall k :: 0 <= k < |walk| ==> ListedFaithfully(rom, decode, bank, walk[k])
    decreases rom.BankLimit() - cursor
  {
    if cursor < rom.BankLimit() {
      var walk := Walk(rom, decode, bank, cursor);
      var item := ItemAt(rom, decode, bank, cursor);
      var rest := Walk(rom, decode, bank, cursor + Span(item));
      WalkUnfold(rom, decode, bank, cursor);
      WalkFaithful(rom, decode, bank, cursor + Span(item));
      assert ListedFaithfully(rom, decode, bank, item);
      forall k | 1 <= k < |walk|
        ensures ListedFaithfully(rom, decode, bank, walk[k])
      {
        assert walk[k] == rest[k - 1];
      }
    }
  }

  /**
    Header bytes are listed one by one as data and are never decoded as
    instructions. This holds when the walk reaches offset 0x104 at an
    instruction boundary: every header address is then listed as exactly
    one `db` item holding its data byte. The source checks the header only
    where an instruction starts, so an instruction starting at 0x102 or
    0x103 could run into the header; the requirement excludes that case.
   */
  lemma HeaderListedAsData(rom: RomFile, decode: DecodeFn, address: int)
    requires rom.Valid() && IsDecoder(decode) && rom.hasHeader && rom.IsInHeader(address)
    requires var walk := Walk(rom, decode, 0, 0);
      exists j :: 0 <= j < |walk| && !walk[j].Section? && walk[j].address == HeaderOffset
    ensures var walk := Walk(rom, decode, 0, 0);
      exists k :: 0 <= k < |walk| && walk[k] == HeaderByte(address, rom.data[address]) && Span(walk[k]) == 1
  {
    var walk := Walk(rom, decode, 0, 0);
    IsInHeaderRange(rom, address);
    WalkTiles(rom, decode, 0, 0);
    WalkFaithful(rom, decode, 0, 0);
    var j :| 0 <= j < |walk| && !walk[j].Section? && walk[j].address == HeaderOffset;
    var k := CoveredFrom(walk, 0, rom.BankLimit(), j, address);
    HeaderItem(rom, decode, walk[k]);
  }

  /**
    In a tiling, an address at or after the start of item `j` is covered by
    an item that starts no earlier than item `j`.
   */
  lemma CoveredFrom(items: seq<Item>, start: int, end: int, j: nat, address: int) returns (k: nat)
    requires Tiles(items, start, end)
    requires j < |items| && !items[j].Section? && items[j].address <= address < end
    ensures k < |items| && Covers(items[k], address) && items[k].address >= items[j].address
  {
    TilesWithin(items, start, end);
    TilesCoverOnce(items, start, end, address);
    TilesCoverOnce(items, start, end, items[j].address);
    k :| 0 <= k < |items| && Covers(items[k], address);
    assert Covers(items[j], items[j].address);
    assert items[k].address < items[j].address ==> Covers(items[k], items[j].address);
  }

  /** An item of the first bank's walk that starts in the header is that address's data byte. */
  lemma HeaderItem(rom: RomFile, decode: DecodeFn, item: Item)
    requires rom.Valid() && IsDecoder(decode) && rom.hasHeader
    requires ListedFaithfully(rom, decode, 0, item) && rom.IsInHeader(item.address)
    ensures item == HeaderByte(item.address, rom.data[item.address]) && Span(item) == 1
  {
  }

  // ---------------------------------------------------------------------------
  // SECTION lines
  // ---------------------------------------------------------------------------

  /** The banks named by the SECTION items of `items`, in order. */
  function SectionsOf(items: seq<Item>): (banks: seq<nat>)
    ensures |banks| <= |items|
  {
    if items == [] then []
    else (if items[0].Section? then [items[0].bank] else []) + SectionsOf(items[1..])
  }

  lemma {:induction false} SectionsOfAppend(a: seq<Item>, b: seq<Item>)
    ensures SectionsOf(a + b) == SectionsOf(a) + SectionsOf(b)
    decreases |a|
  {
    if a == [] {
      assert a + b == b;
    } else {
      var head := if a[0].Section? then [a[0].bank] else [];
      SectionsOfAppend(a[1..], b);
      assert (a + b)[0] == a[0] && (a + b)[1..] == a[1..] + b;
      assert SectionsOf(a + b) == head + (SectionsOf(a[1..]) + SectionsOf(b));
      assert SectionsOf(a) == head + SectionsOf(a[1..]);
    }
  }

  /** A tiling holds no SECTION item. */
  lemma {:induction false} TilesHaveNoSections(items: seq<Item>, start: int, end: int)
    requires Tiles(items, start, end)
    ensures SectionsOf(items) == []
    decreases |items|
  {
    if items != [] {
      TilesHaveNoSections(items[1..], start + Span(items[0]), end);
    }
  }

  /**
    The banks from `bank` on list exactly one SECTION each, in bank order:
    bank, bank + 1, ..., up to the last bank.
   */
  lemma {:induction false} BanksSections(rom: RomFile, decode: DecodeFn, bank: nat)
    requires rom.Valid() && IsDecoder(decode) && bank <= rom.NumberOfBanks()
    ensures SectionsOf(Banks(rom, decode, bank)) == seq(rom.NumberOfBanks() - bank, i => bank + i)
    decreases rom.NumberOfBanks() - bank
  {
    if bank < rom.NumberOfBanks() {
      var walk := Walk(rom, decode, bank, 0);
      var later := Banks(rom, decode, bank + 1);
      BanksSections(rom, decode, bank + 1);
      WalkTiles(rom, decode, bank, 0);
      TilesHaveNoSections(walk, bank * BankSize, bank * BankSize + rom.BankLimit());
      SectionsOfAppend([Section(bank)] + walk, later);
      SectionsOfAppend([Section(bank)], walk);
      assert SectionsOf([Section(bank)]) == [bank];
      assert [bank] + seq(rom.NumberOfBanks() - (bank + 1), i => bank + 1 + i)
        == seq(rom.NumberOfBanks() - bank, i => bank + i);
    }
  }

  /** The whole run lists SECTIONs for banks 0, 1, ..., NumberOfBanks - 1, once each and in order. */
  lemma OneSectionPerBank(rom: RomFile, decode: DecodeFn)
    requires rom.Valid() && IsDecoder(decode)
    ensures var banks := SectionsOf(Banks(rom, decode, 0));
      |banks| == rom.NumberOfBanks() && forall i :: 0 <= i < |banks| ==> banks[i] == i
  {
    BanksSections(rom, decode, 0);
  }

  /**
    SECTION lines name their bank unambiguously, and only bank 0's line
    ends in ROM0; every other bank's line ends in ROMX.
   */
  lemma SectionLineNames(a: nat, b: nat)
    ensures SectionLine(a) == SectionLine(b) <==> a == b
    ensures var line := SectionLine(a);
      |line| >= 4 && (line[|line| - 4..] == "ROM0" <==> a == 0) && (line[|line| - 4..] == "ROMX" <==> a != 0)
  {
    var la, lb := SectionLine(a), SectionLine(b);
    var prefix := "SECTION \"rom";
    assert la[..12] == prefix && lb[..12] == prefix;
    assert la[|la| - 4..] == "ROM" + [if a == 0 then '0' else 'X'];
    assert la[|la| - 4..][3] == (if a == 0 then '0' else 'X');
    assert "ROM0"[3] == '0' && "ROMX"[3] == 'X';
    if la == lb {
      assert Decimal(a) == la[12..|la| - 7];
      assert Decimal(b) == lb[12..|lb| - 7];
      FormatInjective(a, b, 1, 10);
    }
  }

  // ---------------------------------------------------------------------------
  // Lenient and strict runs
  // ---------------------------------------------------------------------------

  /** Without strict mode the disassembly never fails: the listing is every item's line. */
  lemma LenientNeverFails(rom: RomFile, decode: DecodeFn, width: nat)
    requires rom.Valid() && IsDecoder(decode)
    ensures Listing(rom, decode, width, false) == Ok(Join(ShowAll(Banks(rom, decode, 0), width)))
  {
    var items := Banks(rom, decode, 0);
    FirstAbortMeaning(items, false);
  }

  /** Whether item `k` is an undefined opcode listed as code. */
  predicate UndefinedAt(items: seq<Item>, k: int) {
    0 <= k < |items| && items[k].Code? && IsUndefined(items[k].outcome)
  }

  /**
    In strict mode some item aborts exactly when one is an undefined
    opcode, and the exception is that of the first one: its opcode and its
    absolute address.
   */
  lemma StrictAborts(items: seq<Item>)
    ensures AbortOf(items, true).Some? <==> exists k :: UndefinedAt(items, k)
    ensures forall k :: UndefinedAt(items, k) && (forall i :: 0 <= i < k ==> !UndefinedAt(items, i)) ==>
      AbortOf(items, true) == Some(New(items[k].outcome.opcode, items[k].address))
  {
    FirstAbortMeaning(items, true);
    if FirstAbort(items, true).Some? {
      assert UndefinedAt(items, FirstAbort(items, true).value);
    } else {
      forall k | 0 <= k < |items|
        ensures !UndefinedAt(items, k)
      {
        assert !Aborts(items[k], true);
      }
    }
    forall k | UndefinedAt(items, k) && (forall i :: 0 <= i < k ==> !UndefinedAt(items, i))
      ensures AbortOf(items, true) == Some(New(items[k].outcome.opcode, items[k].address))
    {
      forall i | 0 <= i < k
        ensures !Aborts(items[i], true)
      {
        assert !UndefinedAt(items, i);
      }
      FirstAbortUnique(items, k, true);
    }
  }

  /**
    Strict mode fails exactly when the walk meets an undefined opcode, and
    then with the exception of the first one: its opcode, its absolute
    address and the default message.
   */
  lemma StrictFailsAtFirstUndefined(rom: RomFile, decode: DecodeFn, width: nat)
    requires rom.Valid() && IsDecoder(decode)
    ensures var items := Banks(rom, decode, 0);
      Listing(rom, decode, width, true).Err? <==> exists k :: UndefinedAt(items, k)
    ensures var items := Banks(rom, decode, 0);
      forall k :: UndefinedAt(items, k) && (forall i :: 0 <= i < k ==> !UndefinedAt(items, i)) ==>
        Listing(rom, decode, width, true) == Err(New(items[k].outcome.opcode, items[k].address))
  {
    var items := Banks(rom, decode, 0);
    StrictAborts(items);
    if AbortOf(items, true).Some? {
      ListingAborts(rom, decode, width, true, items);
    } else {
      assert Listing(rom, decode, width, true).Ok?;
    }
  }

  /** A strict run that succeeds lists exactly what the lenient run lists. */
  lemma StrictSuccessIsLenient(rom: RomFile, decode: DecodeFn, width: nat)
    requires rom.Valid() && IsDecoder(decode)
    requires Listing(rom, decode, width, true).Ok?
    ensures Listing(rom, decode, width, true) == Listing(rom, decode, width, false)
  {
    LenientNeverFails(rom, decode, width);
  }

  // ---------------------------------------------------------------------------
  // Line layout
  // ---------------------------------------------------------------------------

  /**
    A listing line is the text, then spaces, then the comment `;$` and the
    address in hex. It is `width` characters wide, or just the text and the
    comment when those alone are wider.
   */
  lemma FormatLineLayout(text: string, address: i32, width: nat)
    ensures var line := FormatLine(text, address, width);
      var comment := ";$" + HexInt(address);
      && |line| == (if |text| + |comment| < width then width else |text| + |comment|)
      && line[..|text|] == text
      && line[|line| - |comment|..] == comment
      && forall i :: |text| <= i < |line| - |comment| ==> line[i] == ' '
  {
  }

  /**
    The address comment of a line reads back as the line's address; for a
    ROM address below 0x10000 it is exactly four hex digits.
   */
  lemma FormatLineAddress(text: string, address: i32, width: nat)
    requires 0 <= address
    ensures var line := FormatLine(text, address, width);
      var digits := line[|line| - |HexInt(address)|..];
      && IsDigits(digits, 16) && Parse(digits, 16) == address
      && (address < 0x1_0000 ==> |digits| == 4)
  {
    FormatLineLayout(text, address, width);
    HexIntRoundTrip(address);
    var line := FormatLine(text, address, width);
    var h := HexInt(address);
    var comment := ";$" + h;
    assert line[|line| - |comment|..] == comment;
    assert line[|line| - |h|..] == comment[2..];
    assert comment[2..] == h;
  }

  // ---------------------------------------------------------------------------
  // Example runs
  // ---------------------------------------------------------------------------

  /** A six-byte ROM without header detection: nop; ld bc, $dead; nop; inc bc. */
  const ExampleRom: RomFile := RomFile([0x00, 0x01, 0xAD, 0xDE, 0x00, 0x03], false)

  lemma ExampleDecodes()
    ensures Decode(ExampleRom.data[0..6], 0) == Decoded("nop", 1)
    ensures Decode(ExampleRom.data[1..6], 1) == Decoded("ld bc, $dead", 3)
    ensures Decode(ExampleRom.data[4..6], 4) == Decoded("nop", 1)
    ensures Decode(ExampleRom.data[5..6], 5) == Decoded("inc bc", 1)
  {
    var data := ExampleRom.data;
    assert Primary(0x00) == Plain("nop");
    assert Primary(0x03) == Plain("inc bc");
    PlainDecode(data[0..6], 0, "nop");
    PlainDecode(data[4..6], 4, "nop");
    PlainDecode(data[5..6], 5, "inc bc");
    ExampleLoadDecode();
  }

  /** 01 ad de at offset 1 loads $dead, low byte first. */
  lemma ExampleLoadDecode()
    ensures Decode(ExampleRom.data[1..6], 1) == Decoded("ld bc, $dead", 3)
  {
    var data := ExampleRom.data;
    assert Primary(0x01) == Op("ld bc, ", Imm16, "");
    Imm16Operand(data[1..6], 1);
    assert ToLittleEndian(0xAD, 0xDE) == 0xDEAD;
    Hex4Of(0xDEAD, 13, 14, 10, 13);
  }

  /** A decoder that decodes the example ROM's four instructions as `Decode` does. */
  ghost predicate DecodesExample(decode: DecodeFn)
    requires IsDecoder(decode)
  {
    var data := ExampleRom.data;
    && decode(data[0..6], 0) == Decoded("nop", 1)
    && decode(data[1..6], 1) == Decoded("ld bc, $dead", 3)
    && decode(data[4..6], 4) == Decoded("nop", 1)
    && decode(data[5..6], 5) == Decoded("inc bc", 1)
  }

  /** The items of the example run: bank 0's SECTION and the four instructions. */
  const ExampleItems: seq<Item> := [
    Section(0),
    Code(0, Decoded("nop", 1)),
    Code(1, Decoded("ld bc, $dead", 3)),
    Code(4, Decoded("nop", 1)),
    Code(5, Decoded("inc bc", 1))]

  /** The example ROM is one bank of six bytes, walked as four instructions. */
  lemma ExampleWalk(decode: DecodeFn)
    requires IsDecoder(decode) && DecodesExample(decode)
    ensures ExampleRom.Valid() && ExampleRom.NumberOfBanks() == 1 && ExampleRom.BankLimit() == 6
    ensures Banks(ExampleRom, decode, 0) == ExampleItems
  {
    var rom := ExampleRom;
    ExampleItemsAt(decode);
    var items := ExampleItems;
    ExampleSuffixes();
    WalkCons(rom, decode, 0, 5, items[4], []);
    WalkCons(rom, decode, 0, 4, items[3], items[4..]);
    WalkCons(rom, decode, 0, 1, items[2], items[3..]);
    WalkCons(rom, decode, 0, 0, items[1], items[2..]);
  }

  /** A walk is its first item followed by the walk from past that item. */
  lemma WalkCons(rom: RomFile, decode: DecodeFn, bank: nat, cursor: nat, item: Item, rest: seq<Item>)
    requires rom.Valid() && IsDecoder(decode)
    requires bank < rom.NumberOfBanks() && cursor < rom.BankLimit()
    requires ItemAt(rom, decode, bank, cursor) == item
    requires Walk(rom, decode, bank, cursor + Span(item)) == rest
    ensures Walk(rom, decode, bank, cursor) == [item] + rest
  {
    WalkUnfold(rom, decode, bank, cursor);
  }

  /** `ExampleItems` taken apart one item at a time from the front. */
  lemma ExampleSuffixes()
    ensures var items := ExampleItems;
      && items == [items[0]] + items[1..]
      && items[1..] == [items[1]] + items[2..] && items[2..] == [items[2]] + items[3..]
      && items[3..] == [items[3]] + items[4..] && items[4..] == [items[4]] + []
  {
  }

  /** The item at each instruction start of the example ROM. */
  lemma ExampleItemsAt(decode: DecodeFn)
    requires IsDecoder(decode) && DecodesExample(decode)
    ensures ExampleRom.Valid() && ExampleRom.NumberOfBanks() == 1 && ExampleRom.BankLimit() == 6
    ensures ItemAt(ExampleRom, decode, 0, 0) == ExampleItems[1]
    ensures ItemAt(ExampleRom, decode, 0, 1) == ExampleItems[2]
    ensures ItemAt(ExampleRom, decode, 0, 4) == ExampleItems[3]
    ensures ItemAt(ExampleRom, decode, 0, 5) == ExampleItems[4]
  {
  }

  lemma ShowAllSnoc(items: seq<Item>, item: Item, width: nat)
    ensures ShowAll(items + [item], width) == ShowAll(items, width) + [Show(item, width)]
  {
    assert (items + [item])[..|items|] == items;
  }

  lemma ExampleFirstLines()
    ensures SectionLine(0) == "SECTION \"rom0\", ROM0"
    ensures FormatLine("nop", 0, 20) == "nop           ;$0000"
    ensures FormatLine("ld bc, $dead", 1, 20) == "ld bc, $dead  ;$0001"
  {
    assert Decimal(0) == "0";
    Hex4Of(0, 0, 0, 0, 0);
    Hex4Of(1, 0, 0, 0, 1);
    assert HexInt(0) == "0000" && HexInt(1) == "0001";
  }

  lemma ExampleLastLines()
    ensures FormatLine("nop", 4, 20) == "nop           ;$0004"
    ensures FormatLine("inc bc", 5, 20) == "inc bc        ;$0005"
  {
    Hex4Of(4, 0, 0, 0, 4);
    Hex4Of(5, 0, 0, 0, 5);
    assert HexInt(4) == "0004" && HexInt(5) == "0005";
  }

  /** The lines of the example, each padded to 20 columns. */
  lemma ExampleLines()
    ensures ShowAll(ExampleItems, 20) == [
      "SECTION \"rom0\", ROM0",
      "nop           ;$0000",
      "ld bc, $dead  ;$0001",
      "nop           ;$0004",
      "inc bc        ;$0005"]
  {
    var items := ExampleItems;
    ExampleFirstLines();
    ExampleLastLines();
    assert items == [items[0]] + [items[1]] + [items[2]] + [items[3]] + [items[4]];
    ShowAllSnoc([], items[0], 20);
    ShowAllSnoc([items[0]], items[1], 20);
    ShowAllSnoc([items[0]] + [items[1]], items[2], 20);
    ShowAllSnoc([items[0]] + [items[1]] + [items[2]], items[3], 20);
    ShowAllSnoc([items[0]] + [items[1]] + [items[2]] + [items[3]], items[4], 20);
    assert Show(items[0], 20) == "SECTION \"rom0\", ROM0";
    assert Show(items[1], 20) == "nop           ;$0000";
    assert Show(items[2], 20) == "ld bc, $dead  ;$0001";
    assert Show(items[3], 20) == "nop           ;$0004";
    assert Show(items[4], 20) == "inc bc        ;$0005";
  }

  /**
    Disassembling the example ROM with lines 20 wide lists bank 0's SECTION
    and the four instructions with their addresses $0000, $0001, $0004 and $0005.
   */
  lemma DisassembleExample()
    ensures IsDecoder(Decode)
    ensures Listing(ExampleRom, Decode, 20, false) == Ok(Join([
      "SECTION \"rom0\", ROM0",
      "nop           ;$0000",
      "ld bc, $dead  ;$0001",
      "nop           ;$0004",
      "inc bc        ;$0005"]))
  {
    DecodeIsDecoder();
    ExampleDecodes();
    ExampleWalk(Decode);
    ExampleLines();
    LenientNeverFails(ExampleRom, Decode, 20);
  }

  /** A two-byte ROM: nop, then the undefined opcode 0xD3. */
  const UndefinedRom: RomFile := RomFile([0x00, 0xD3], false)

  lemma UndefinedRomWalk(decode: DecodeFn)
    requires IsDecoder(decode)
    requires decode(UndefinedRom.data[0..2], 0) == Decoded("nop", 1)
    requires decode(UndefinedRom.data[1..2], 1) == Failed(UndefinedOpcode, 0xD3, 1)
    ensures UndefinedRom.Valid() && UndefinedRom.NumberOfBanks() == 1
    ensures Banks(UndefinedRom, decode, 0) == [Section(0), Code(0, Decoded("nop", 1)), Code(1, Failed(UndefinedOpcode, 0xD3, 1))]
  {
    var rom := UndefinedRom;
    WalkUnfold(rom, decode, 0, 0);
    WalkUnfold(rom, decode, 0, 1);
    assert Banks(rom, decode, 0) == [Section(0)] + Walk(rom, decode, 0, 0);
  }

  /** What the single-instruction decoder makes of the two positions of `UndefinedRom`. */
  lemma UndefinedRomDecodes()
    ensures IsDecoder(Decode)
    ensures Decode(UndefinedRom.data[0..2], 0) == Decoded("nop", 1)
    ensures Decode(UndefinedRom.data[1..2], 1) == Failed(UndefinedOpcode, 0xD3, 1)
  {
    DecodeIsDecoder();
    var data := UndefinedRom.data;
    assert Primary(0x00) == Plain("nop");
    PlainDecode(data[0..2], 0, "nop");
    UndefinedExactly(0xD3);
    UndefinedOpcodeOutcome(data[1..2], 1);
  }

  /** The listings of `UndefinedRom` under any decoder that decodes it as `Decode` does. */
  lemma UndefinedRomListings(decode: DecodeFn)
    requires IsDecoder(decode)
    requires decode(UndefinedRom.data[0..2], 0) == Decoded("nop", 1)
    requires decode(UndefinedRom.data[1..2], 1) == Failed(UndefinedOpcode, 0xD3, 1)
    ensures UndefinedRom.Valid()
    ensures Listing(UndefinedRom, decode, 20, true) == Err(New(0xD3, 1))
    ensures Listing(UndefinedRom, decode, 20, false).Ok?
  {
    UndefinedRomWalk(decode);
    var items := Banks(UndefinedRom, decode, 0);
    assert UndefinedAt(items, 2) && !UndefinedAt(items, 0) && !UndefinedAt(items, 1);
    StrictFailsAtFirstUndefined(UndefinedRom, decode, 20);
    LenientNeverFails(UndefinedRom, decode, 20);
  }

  /**
    In strict mode the undefined 0xD3 at address 1 stops the run with its
    exception; without strict mode the same ROM is listed in full.
   */
  lemma StrictExample()
    ensures IsDecoder(Decode)
    ensures Listing(UndefinedRom, Decode, 20, true) == Err(New(0xD3, 1))
    ensures Listing(UndefinedRom, Decode, 20, false).Ok?
  {
    UndefinedRomDecodes();
    UndefinedRomListings(Decode);
  }
}
