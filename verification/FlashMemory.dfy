/**
 A flash chip as SPIFlash.cpp sees it: programming combines the new byte with the old one and never leaves the page of
 256 bytes in which it starts, and erasing sets a block of 32 KiB to all ones.  T is the type of bytes and both
 is how old and new byte combine.
 */
module FlashMemory {

  const PAGE := 256
  const BLOCK_32K := 0x8000

  /** Where byte i of a page program command goes: at the end of the page the address wraps to its beginning. */
  function PagePosition(addr: nat, i: nat): nat {
    addr - addr % PAGE + (addr % PAGE + i) % PAGE
  }

  /** One page program command. */
  function PageProgrammed<T>(both: (T, T) -> T, mem: seq<T>, addr: nat, data: seq<T>): (mem': seq<T>)
    requires addr < |mem| && |mem| % PAGE == 0
    ensures |mem'| == |mem|
  {
    if data == [] then mem
    else
      var n := |data| - 1;
      var m := PageProgrammed(both, mem, addr, data[..n]);
      var p := PagePosition(addr, n);
      PageInside(addr, n, |mem|);
      m[p := both(m[p], data[n])]
  }

  lemma PageInside(addr: nat, i: nat, size: nat)
    requires addr < size && size % PAGE == 0
    ensures PagePosition(addr, i) < size
  {
    assert addr - addr % PAGE <= size - PAGE;
  }

  /** data combined into the memory from addr on. */
  function Programmed<T>(both: (T, T) -> T, mem: seq<T>, addr: nat, data: seq<T>): (mem': seq<T>)
    requires addr + |data| <= |mem|
    ensures |mem'| == |mem|
  {
    seq(|mem|, k requires 0 <= k < |mem| => if addr <= k < addr + |data| then both(mem[k], data[k - addr]) else mem[k])
  }

  /** A command that stays in its page programs exactly its bytes. */
  lemma {:induction false} InOnePage<T>(both: (T, T) -> T, mem: seq<T>, addr: nat, data: seq<T>)
    requires |mem| % PAGE == 0 && addr < |mem| && addr % PAGE + |data| <= PAGE
    ensures addr + |data| <= |mem| && PageProgrammed(both, mem, addr, data) == Programmed(both, mem, addr, data)
  {
    PageEnd(addr, |data|, |mem|);
    if data == [] {
      assert Programmed(both, mem, addr, data) == mem;
    } else {
      var n := |data| - 1;
      InOnePage(both, mem, addr, data[..n]);
      SamePage(addr, n);
      ProgrammedLast(both, mem, addr, data);
    }
  }

  lemma ProgrammedLast<T>(both: (T, T) -> T, mem: seq<T>, addr: nat, data: seq<T>)
    requires addr + |data| <= |mem| && data != []
    ensures
      var n := |data| - 1;
      var m := Programmed(both, mem, addr, data[..n]);
      Programmed(both, mem, addr, data) == m[addr + n := both(m[addr + n], data[n])]
  {
  }

  lemma PageEnd(addr: nat, n: nat, size: nat)
    requires size % PAGE == 0 && addr < size && addr % PAGE + n <= PAGE
    ensures addr + n <= size
  {
  }

  lemma SamePage(addr: nat, i: nat)
    requires addr % PAGE + i < PAGE
    ensures PagePosition(addr, i) == addr + i
  {
  }

  /** Programming two runs one after the other is programming their concatenation. */
  lemma ProgrammedTwice<T>(both: (T, T) -> T, mem: seq<T>, addr: nat, a: seq<T>, b: seq<T>)
    requires addr + |a| + |b| <= |mem|
    ensures Programmed(both, Programmed(both, mem, addr, a), addr + |a|, b) == Programmed(both, mem, addr, a + b)
  {
  }

  /** The bytes of a programmed run, and the bytes beside it. */
  lemma ProgrammedParts<T>(both: (T, T) -> T, mem: seq<T>, addr: nat, data: seq<T>, lo: nat, hi: nat)
    requires addr + |data| <= |mem| && lo <= hi <= |mem| && (hi <= addr || addr + |data| <= lo)
    ensures Programmed(both, mem, addr, data)[lo..hi] == mem[lo..hi]
  {
  }

  /** One turn of the loop of writeBytes. */
  lemma OneMorePage<T>(both: (T, T) -> T, mem: seq<T>, addr: nat, buf: seq<T>, offset: nat, n: nat)
    requires |mem| % PAGE == 0 && addr + |buf| <= |mem| && 0 < n && offset + n <= |buf|
    requires (addr + offset) % PAGE + n <= PAGE
    ensures PageProgrammed(both, Programmed(both, mem, addr, buf[..offset]), addr + offset, buf[offset..offset + n])
         == Programmed(both, mem, addr, buf[..offset + n])
  {
    InOnePage(both, Programmed(both, mem, addr, buf[..offset]), addr + offset, buf[offset..offset + n]);
    ProgrammedTwice(both, mem, addr, buf[..offset], buf[offset..offset + n]);
    NextPiece(buf, offset, n);
  }

  lemma NextPiece<T>(buf: seq<T>, offset: nat, n: nat)
    requires offset + n <= |buf|
    ensures buf[..offset] + buf[offset..offset + n] == buf[..offset + n]
  {
  }

  class SPIFlash<T(0)> {
    var mem: seq<T>
    /** The latch set by the write-enable command and cleared by every program or erase command. */
    var writeEnabled: bool

    constructor (mem: seq<T>)
      ensures this.mem == mem
    {
      this.mem, writeEnabled := mem, false;
    }

    ghost predicate Valid()
      reads this
    {
      |mem| % PAGE == 0
    }

    /** command(cmd, true). */
    method WriteCommand()
      modifies this`writeEnabled
      ensures writeEnabled
    {
      writeEnabled := true;
    }

    /** The chip at a page program command. */
    method PageProgram(addr: nat, data: seq<T>, both: (T, T) -> T)
      requires Valid() && addr < |mem|
      modifies this
      ensures Valid() && !writeEnabled
      ensures mem == if old(writeEnabled) then PageProgrammed(both, old(mem), addr, data) else old(mem)
    {
      if writeEnabled {
        mem := PageProgrammed(both, mem, addr, data);
      }
      writeEnabled := false;
    }

    /** blockErase32K. */
    method BlockErase32K(addr: nat, erased: T)
      requires Valid() && addr % BLOCK_32K == 0 && addr + BLOCK_32K <= |mem|
      modifies this
      ensures Valid() && mem == old(mem)[..addr] + seq(BLOCK_32K, i => erased) + old(mem)[addr + BLOCK_32K..]
    {
      WriteCommand();
      mem := mem[..addr] + seq(BLOCK_32K, i => erased) + mem[addr + BLOCK_32K..];
      writeEnabled := false;
    }

    /** readByte. */
    method ReadByte(addr: nat) returns (b: T)
      requires addr < |mem|
      ensures b == mem[addr]
    {
      b := mem[addr];
    }

    /** One turn of the loop of writeBytes: n bytes of the run, which lie in one page. */
    method WritePiece(addr: nat, buf: seq<T>, offset: nat, n: nat, both: (T, T) -> T, ghost before: seq<T>)
      requires Valid() && |mem| == |before| && addr + |buf| <= |mem| && 0 < n && offset + n <= |buf|
      requires (addr + offset) % PAGE + n <= PAGE && mem == Programmed(both, before, addr, buf[..offset])
      modifies this
      ensures Valid() && mem == Programmed(both, before, addr, buf[..offset + n])
    {
      ghost var m := mem;
      var piece := buf[offset..offset + n];
      WriteCommand();
      PageProgram(addr + offset, piece, both);
      assert mem == PageProgrammed(both, m, addr + offset, piece);
      OneMorePage(both, before, addr, buf, offset, n);
    }

    /** writeBytes: the run is cut at page boundaries. */
    method WriteBytes(addr: nat, buf: seq<T>, both: (T, T) -> T)
      requires Valid() && addr + |buf| <= |mem| && |buf| < 0x1_0000
      modifies this
      ensures Valid() && mem == Programmed(both, old(mem), addr, buf)
    {
      var at: nat, len: nat, offset: nat := addr, |buf|, 0;
      var maxBytes: nat := PAGE - addr % PAGE;
      assert Programmed(both, mem, addr, []) == mem;
      while len > 0
        invariant Valid() && |mem| == |old(mem)| && offset + len == |buf| && at == addr + offset && 0 < maxBytes
        invariant len > 0 ==> at % PAGE + maxBytes == PAGE
        invariant mem == Programmed(both, old(mem), addr, buf[..offset])
      {
        var n := if len <= maxBytes then len else maxBytes;
        WritePiece(addr, buf, offset, n, both, old(mem));
        NextPage(at, n, maxBytes);
        at, offset, len := at + n, offset + n, len - n;
        maxBytes := PAGE;
      }
      assert buf[..offset] == buf;
    }
  }

  /** A run that fills the rest of its page ends at the beginning of the next. */
  lemma NextPage(addr: nat, n: nat, maxBytes: nat)
    requires addr % PAGE + maxBytes == PAGE && n <= maxBytes
    ensures n == maxBytes ==> (addr + n) % PAGE == 0
  {
  }
}
