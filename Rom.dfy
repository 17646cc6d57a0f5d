/**
  The ROM image: an immutable byte sequence with its cartridge header range
  and its bank geometry (GBDasm.Core/RomFile.cs).
 */
module Rom {
  import opened NumberFormat

  /** Every bank is 16 KiB. */
  const BankSize: nat := 0x4000

  /** The cartridge header is the 0x4C bytes starting at offset 0x104. */
  const HeaderOffset: nat := 0x104
  const HeaderCount: nat := 0x4C

  /** A .NET array is indexed by `int`, so a ROM holds fewer than 2^31 bytes. */
  const MaxLength: nat := 0x8000_0000

  /** An `ArraySegment` over the ROM data: a start offset and a count. */
  datatype Segment = Segment(offset: nat, count: nat)

  /**
    A ROM file. `data` is fixed when the value is built. `hasHeader` says
    whether the header range is treated as data rather than code; it can only
    be on for a ROM long enough to hold the header.
   */
  datatype RomFile = RomFile(data: seq<byte>, hasHeader: bool) {

    predicate Valid() {
      && |data| < MaxLength
      && (hasHeader ==> |data| >= HeaderOffset + HeaderCount)
    }

    /** The header segment; building it needs the data to reach past offset 0x150. */
    function Header(): (h: Segment)
      requires |data| >= HeaderOffset + HeaderCount
      ensures h.offset + h.count <= |data|
    {
      Segment(HeaderOffset, HeaderCount)
    }

    /** The bytes the header segment covers. */
    function HeaderBytes(): (bytes: seq<byte>)
      requires |data| >= HeaderOffset + HeaderCount
      ensures |bytes| == HeaderCount
      ensures forall i :: 0 <= i < HeaderCount ==> bytes[i] == data[HeaderOffset + i]
    {
      data[Header().offset .. Header().offset + Header().count]
    }

    /** Whether `address` lies inside the header segment. */
    predicate IsInHeader(address: int)
      requires |data| >= HeaderOffset + HeaderCount
    {
      address >= Header().offset && address < Header().offset + Header().count
    }

    /** A ROM shorter than one bank still forms one bank; otherwise whole banks are counted. */
    function NumberOfBanks(): (n: nat)
      ensures n >= 1
      ensures |data| < BankSize ==> n == 1
      ensures |data| >= BankSize ==> n * BankSize <= |data| < (n + 1) * BankSize
    {
      if |data| < BankSize then 1 else |data| / BankSize
    }

    /** How many bytes of every bank are walked: min(BankSize, Data.Length). */
    function BankLimit(): (limit: nat)
      ensures limit <= BankSize && limit <= |data|
      ensures limit == BankSize || limit == |data|
    {
      if BankSize < |data| then BankSize else |data|
    }
  }

  /** Builds a ROM from raw bytes; header detection is off when the bytes cannot hold a header. */
  function FromBytes(bytes: seq<byte>): (rom: RomFile)
    requires |bytes| < MaxLength
    ensures rom.Valid() && rom.data == bytes
    ensures rom.hasHeader <==> |bytes| >= HeaderOffset + HeaderCount
  {
    RomFile(bytes, |bytes| >= HeaderOffset + HeaderCount)
  }

  /** The header is exactly the addresses [0x104, 0x150). */
  lemma IsInHeaderRange(rom: RomFile, address: int)
    requires |rom.data| >= HeaderOffset + HeaderCount
    ensures rom.IsInHeader(address) <==> 0x104 <= address < 0x150
  {
  }

  /** Each bank of a valid ROM lies inside the data: the walk of bank `bank` never reads past the end. */
  lemma BankInBounds(rom: RomFile, bank: nat)
    requires bank < rom.NumberOfBanks()
    ensures bank * BankSize + rom.BankLimit() <= |rom.data|
  {
    if |rom.data| >= BankSize {
      assert bank + 1 <= rom.NumberOfBanks();
      assert (bank + 1) * BankSize <= rom.NumberOfBanks() * BankSize;
    }
  }

  /**
    The banks together cover the whole ROM exactly when the ROM is shorter than
    a bank or a whole number of banks; otherwise a tail is never walked.
   */
  lemma BanksCoverData(rom: RomFile)
    ensures rom.NumberOfBanks() * rom.BankLimit() <= |rom.data|
    ensures rom.NumberOfBanks() * rom.BankLimit() == |rom.data|
        <==> |rom.data| <= BankSize || |rom.data| % BankSize == 0
  {
    var n := rom.NumberOfBanks();
    if |rom.data| > BankSize {
      assert rom.BankLimit() == BankSize;
      assert n == |rom.data| / BankSize;
      assert |rom.data| == n * BankSize + |rom.data| % BankSize;
    }
  }

  /**
    The header lies inside bank 0: an address of bank `bank` at offset
    `cursor` is a header address exactly when the bank is 0 and the offset
    lies in [0x104, 0x150), so no switchable bank ever meets it.
   */
  lemma HeaderInFirstBank(rom: RomFile, bank: nat, cursor: nat)
    requires |rom.data| >= HeaderOffset + HeaderCount
    ensures rom.IsInHeader(bank * BankSize + cursor)
        <==> bank == 0 && HeaderOffset <= cursor < HeaderOffset + HeaderCount
  {
    if bank >= 1 {
      assert bank * BankSize >= BankSize;
    }
  }
}
