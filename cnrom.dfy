/**
 * NES mapper 3 (CNROM): a CPU write anywhere in 0x8000..0xFFFF selects one
 * of the cartridge's CHR (graphics) banks, and the mapper copies that 8 KiB
 * bank from the cached iNES image into the first 8 KiB of PPU memory.
 *
 * The emulator's globals become parameters: `prg` and `chr` are the PRG and
 * CHR bank counts from the iNES header, `romcache` the whole image (header
 * included) and `ppuMemory` the PPU address space.
 */
module Cnrom {
  import opened Bits

  /** A C `unsigned char`. */
  newtype Byte = b: int | 0 <= b < 0x100

  /** A C `unsigned int` (32 bits). */
  newtype Word32 = w: int | 0 <= w < 0x1_0000_0000

  /** Size of the iNES header that precedes the PRG banks in the image. */
  const HeaderSize: nat := 16
  /** Size of one PRG bank. */
  const PrgBankSize: nat := 16384
  /** Size of one CHR bank, which is also the number of bytes a switch copies. */
  const ChrBankSize: nat := 8192

  /** Offset in the image of the first byte of CHR bank `bank`. */
  function ChrOffset(prg: nat, bank: nat): nat
  {
    HeaderSize + prg * PrgBankSize + bank * ChrBankSize
  }

  /** The CPU addresses whose writes the mapper claims. */
  predicate InTriggerRange(address: Word32)
  {
    address > 0x7fff && address < 0x10000
  }

  /** The bank a write of `data` selects: `data & (CHR - 1)`. */
  function SelectBank(data: Byte, chr: nat): (bank: nat)
    requires chr > 0
    ensures bank < chr
    ensures bank <= data as nat
    ensures IsPowerOfTwo(chr) ==> bank == data as nat % chr
  {
    var bank := BitAnd(data as nat, chr - 1);
    if IsPowerOfTwo(chr) then LowMaskIsModulo(data as nat, chr); bank else bank
  }

  /** Images that hold the header, `prg` PRG banks and `chr` CHR banks. */
  predicate ImageHolds(rom: seq<Byte>, prg: nat, chr: nat)
  {
    HeaderSize + prg * PrgBankSize + chr * ChrBankSize <= |rom|
  }

  /** The bytes of CHR bank `bank` in the image. */
  function ChrBank(rom: seq<Byte>, prg: nat, bank: nat): seq<Byte>
    requires ChrOffset(prg, bank) + ChrBankSize <= |rom|
  {
    rom[ChrOffset(prg, bank)..ChrOffset(prg, bank) + ChrBankSize]
  }

  /** PPU memory after CHR bank `bank` is copied to address 0. */
  function SwitchedMemory(mem: seq<Byte>, rom: seq<Byte>, prg: nat, bank: nat): (r: seq<Byte>)
    requires ChrOffset(prg, bank) + ChrBankSize <= |rom|
    requires ChrBankSize <= |mem|
    ensures |r| == |mem|
  {
    ChrBank(rom, prg, bank) + mem[ChrBankSize..]
  }

  /** PPU memory after the CPU writes `data` to `address`. */
  function AccessedMemory(mem: seq<Byte>, rom: seq<Byte>, prg: nat, chr: nat,
                          address: Word32, data: Byte): (r: seq<Byte>)
    requires chr > 0 && ImageHolds(rom, prg, chr)
    requires ChrBankSize <= |mem|
    ensures |r| == |mem|
  {
    if InTriggerRange(address) then
      ChrBankWithinImage(prg, chr, SelectBank(data, chr));
      SwitchedMemory(mem, rom, prg, SelectBank(data, chr))
    else
      mem
  }

  /**
   * Every CHR bank below the bank count lies after the header and the PRG
   * banks and inside the CHR region, so a copy from it stays inside any
   * image that holds `chr` CHR banks.
   */
  lemma ChrBankWithinImage(prg: nat, chr: nat, bank: nat)
    requires bank < chr
    ensures HeaderSize + prg * PrgBankSize <= ChrOffset(prg, bank)
    ensures ChrOffset(prg, bank) + ChrBankSize <= HeaderSize + prg * PrgBankSize + chr * ChrBankSize
  {
    assert (bank + 1) * ChrBankSize <= chr * ChrBankSize;
  }

  /** Copy CHR bank `bank` of the image into PPU memory at address 0. */
  method SwitchChr(romcache: array<Byte>, ppuMemory: array<Byte>, prg: nat, bank: nat)
    requires romcache != ppuMemory
    requires ChrOffset(prg, bank) + ChrBankSize <= romcache.Length
    requires ChrBankSize <= ppuMemory.Length
    modifies ppuMemory
    ensures ppuMemory[..] == SwitchedMemory(old(ppuMemory[..]), romcache[..], prg, bank)
    ensures forall i :: 0 <= i < ChrBankSize ==> ppuMemory[i] == romcache[ChrOffset(prg, bank) + i]
    ensures forall i :: ChrBankSize <= i < ppuMemory.Length ==> ppuMemory[i] == old(ppuMemory[i])
    ensures unchanged(romcache)
  {
    // The destination is PPU address 0, so bank byte `k` lands at `ppuMemory[k]`.
    var chrStart := PrgBankSize * prg;
    var source := HeaderSize + chrStart + bank * ChrBankSize;
    for i := 0 to ChrBankSize
      invariant forall k :: 0 <= k < i ==> ppuMemory[k] == romcache[source + k]
      invariant forall k :: i <= k < ppuMemory.Length ==> ppuMemory[k] == old(ppuMemory[k])
    {
      ppuMemory[i] := romcache[source + i];
    }
    assert ppuMemory[..] == SwitchedMemory(old(ppuMemory[..]), romcache[..], prg, bank) by {
      var want := SwitchedMemory(old(ppuMemory[..]), romcache[..], prg, bank);
      assert |want| == ppuMemory.Length;
      forall k | 0 <= k < ppuMemory.Length
        ensures ppuMemory[..][k] == want[k]
      {
        if k < ChrBankSize {
          assert want[k] == romcache[source + k];
        } else {
          assert want[k] == old(ppuMemory[..])[k];
        }
      }
    }
  }

  /** A CPU write to `address` with `data`: switch CHR banks when the address is in 0x8000..0xFFFF. */
  method Access(romcache: array<Byte>, ppuMemory: array<Byte>, prg: nat, chr: nat,
                address: Word32, data: Byte)
    requires romcache != ppuMemory
    requires chr > 0 && ImageHolds(romcache[..], prg, chr)
    requires ChrBankSize <= ppuMemory.Length
    modifies ppuMemory
    ensures ppuMemory[..] == AccessedMemory(old(ppuMemory[..]), romcache[..], prg, chr, address, data)
    ensures !(0x8000 <= address <= 0xffff) ==> ppuMemory[..] == old(ppuMemory[..])
    ensures 0x8000 <= address <= 0xffff ==>
      forall i :: 0 <= i < ChrBankSize ==>
        ppuMemory[i] == romcache[ChrOffset(prg, SelectBank(data, chr)) + i]
    ensures forall i :: ChrBankSize <= i < ppuMemory.Length ==> ppuMemory[i] == old(ppuMemory[i])
    ensures unchanged(romcache)
  {
    if address > 0x7fff && address < 0x10000 {
      var bank := BitAnd(data as nat, chr - 1);
      assert bank == SelectBank(data, chr);
      ChrBankWithinImage(prg, chr, bank);
      SwitchChr(romcache, ppuMemory, prg, bank);
    }
  }

  /**
   * A write leaves PPU memory as it was exactly when its address is outside
   * 0x8000..0xFFFF or the selected bank already sits in the first 8 KiB.
   */
  lemma AccessUnchangedIff(mem: seq<Byte>, rom: seq<Byte>, prg: nat, chr: nat,
                           address: Word32, data: Byte)
    requires chr > 0 && ImageHolds(rom, prg, chr)
    requires ChrBankSize <= |mem|
    ensures (ChrBankWithinImage(prg, chr, SelectBank(data, chr));
      AccessedMemory(mem, rom, prg, chr, address, data) == mem
      <==> !(0x8000 <= address <= 0xffff) || mem[..ChrBankSize] == ChrBank(rom, prg, SelectBank(data, chr)))
  {
    ChrBankWithinImage(prg, chr, SelectBank(data, chr));
    if 0x8000 <= address <= 0xffff {
      var bank := ChrBank(rom, prg, SelectBank(data, chr));
      var r := AccessedMemory(mem, rom, prg, chr, address, data);
      assert r[..ChrBankSize] == bank;
      if mem[..ChrBankSize] == bank {
        assert mem == mem[..ChrBankSize] + mem[ChrBankSize..];
      }
    }
  }

  /**
   * A write in 0x8000..0xFFFF puts bank `data % CHR` (for a power-of-two
   * CHR) into the first 8 KiB of PPU memory and keeps the rest.
   */
  lemma AccessLoadsMaskedBank(mem: seq<Byte>, rom: seq<Byte>, prg: nat, chr: nat,
                              address: Word32, data: Byte)
    requires IsPowerOfTwo(chr) && ImageHolds(rom, prg, chr)
    requires ChrBankSize <= |mem|
    requires 0x8000 <= address <= 0xffff
    ensures chr > 0
    ensures (ChrBankWithinImage(prg, chr, data as nat % chr);
      var r := AccessedMemory(mem, rom, prg, chr, address, data);
      && r[..ChrBankSize] == ChrBank(rom, prg, data as nat % chr)
      && r[ChrBankSize..] == mem[ChrBankSize..])
  {
    IsPowerOfTwoPositive(chr);
    ChrBankWithinImage(prg, chr, data as nat % chr);
  }

  lemma IsPowerOfTwoPositive(n: nat)
    requires IsPowerOfTwo(n)
    ensures n > 0
  {}

  /** Repeating a write changes nothing: the copy depends only on the data and the image. */
  lemma AccessIdempotent(mem: seq<Byte>, rom: seq<Byte>, prg: nat, chr: nat,
                         address: Word32, data: Byte)
    requires chr > 0 && ImageHolds(rom, prg, chr)
    requires ChrBankSize <= |mem|
    ensures var once := AccessedMemory(mem, rom, prg, chr, address, data);
      AccessedMemory(once, rom, prg, chr, address, data) == once
  {
    var once := AccessedMemory(mem, rom, prg, chr, address, data);
    AccessUnchangedIff(once, rom, prg, chr, address, data);
  }

  /**
   * The last write in 0x8000..0xFFFF decides the visible bank, whatever was
   * written before it.
   */
  lemma LastWriteWins(mem: seq<Byte>, rom: seq<Byte>, prg: nat, chr: nat,
                      address1: Word32, data1: Byte, address2: Word32, data2: Byte)
    requires chr > 0 && ImageHolds(rom, prg, chr)
    requires ChrBankSize <= |mem|
    requires 0x8000 <= address2 <= 0xffff
    ensures var first := AccessedMemory(mem, rom, prg, chr, address1, data1);
      AccessedMemory(first, rom, prg, chr, address2, data2)
      == AccessedMemory(mem, rom, prg, chr, address2, data2)
  {
    var first := AccessedMemory(mem, rom, prg, chr, address1, data1);
    assert first[ChrBankSize..] == mem[ChrBankSize..];
  }

  /** With a power-of-two CHR count up to 256, writing `b` selects bank `b`: every bank is reachable. */
  lemma EveryBankSelectable(chr: nat, b: Byte)
    requires IsPowerOfTwo(chr) && chr <= 0x100
    requires (b as nat) < chr
    ensures chr > 0 && SelectBank(b, chr) == b as nat
  {
    IsPowerOfTwoPositive(chr);
    ModOfDecomposition(b as nat, chr, 0, b as nat);
  }

  /**
   * Four CHR banks: a write of 0x06 to 0x8000 shows bank 2, and a following
   * write of 0xFF to 0x7FFF leaves PPU memory alone.
   */
  lemma FourBankScenario(mem: seq<Byte>, rom: seq<Byte>, prg: nat)
    requires ImageHolds(rom, prg, 4)
    requires ChrBankSize <= |mem|
    ensures var r := AccessedMemory(mem, rom, prg, 4, 0x8000, 0x06);
      && r[..ChrBankSize] == rom[ChrOffset(prg, 2)..ChrOffset(prg, 2) + ChrBankSize]
      && AccessedMemory(r, rom, prg, 4, 0x7fff, 0xff) == r
  {
    assert IsPowerOfTwo(4) by { assert IsPowerOfTwo(2); }
    assert SelectBank(0x06, 4) == 2;
  }
}
