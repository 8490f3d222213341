/** Big-endian 32-bit words in memory and in the register quad B, C, D, E. */
module Z80Words {
  import opened Z80
  import opened Sha256

  function Word(b0: bv8, b1: bv8, b2: bv8, b3: bv8): bv32 {
    ((b0 as bv32) << 24) | ((b1 as bv32) << 16) | ((b2 as bv32) << 8) | (b3 as bv32)
  }

  function Byte0(w: bv32): bv8 { ((w >> 24) & 0xFF) as bv8 }
  function Byte1(w: bv32): bv8 { ((w >> 16) & 0xFF) as bv8 }
  function Byte2(w: bv32): bv8 { ((w >> 8) & 0xFF) as bv8 }
  function Byte3(w: bv32): bv8 { (w & 0xFF) as bv8 }

  lemma WordOfBytes(w: bv32)
    ensures Word(Byte0(w), Byte1(w), Byte2(w), Byte3(w)) == w
  {
  }

  lemma BytesOfWord(b0: bv8, b1: bv8, b2: bv8, b3: bv8)
    ensures Byte0(Word(b0, b1, b2, b3)) == b0 && Byte1(Word(b0, b1, b2, b3)) == b1
    ensures Byte2(Word(b0, b1, b2, b3)) == b2 && Byte3(Word(b0, b1, b2, b3)) == b3
  {
  }

  /** The addresses from lo up to, not including, hi. */
  predicate Region(lo: int, hi: int) {
    0 <= lo <= hi <= 0x1_0000
  }

  function ReadWord(m: Memory, addr: Addr): bv32
    requires Region(addr, addr + 4)
  {
    Word(Read(m, addr), Read(m, addr + 1), Read(m, addr + 2), Read(m, addr + 3))
  }

  /** A little-endian address, as ld hl, (nn) reads it. */
  function ReadAddr(m: Memory, addr: Addr): Addr
    requires Region(addr, addr + 2)
  {
    Pair(Read(m, addr + 1), Read(m, addr))
  }

  function Quad(s: Cpu): bv32 {
    Word(s.b, s.c, s.d, s.e)
  }

  /** From m to m' nothing changed outside the addresses lo .. hi. */
  ghost predicate OnlyWrites(m: Memory, m': Memory, lo: int, hi: int) {
    forall x: Addr :: x < lo || hi <= x ==> Read(m', x) == Read(m, x)
  }

  lemma WordKept(m: Memory, m': Memory, lo: int, hi: int, addr: Addr)
    requires OnlyWrites(m, m', lo, hi)
    requires Region(addr, addr + 4) && (addr + 4 <= lo || hi <= addr)
    ensures ReadWord(m', addr) == ReadWord(m, addr)
  {
  }

  lemma AddrKept(m: Memory, m': Memory, lo: int, hi: int, addr: Addr)
    requires OnlyWrites(m, m', lo, hi)
    requires Region(addr, addr + 2) && (addr + 2 <= lo || hi <= addr)
    ensures ReadAddr(m', addr) == ReadAddr(m, addr)
  {
  }

  /** A word stored byte by byte from its first byte up. */
  function StoredUp(m: Memory, addr: Addr, b0: bv8, b1: bv8, b2: bv8, b3: bv8): Memory
    requires Region(addr, addr + 4)
  {
    m[addr := b0][addr + 1 := b1][addr + 2 := b2][addr + 3 := b3]
  }

  lemma StoredUpDoes(m: Memory, addr: Addr, b0: bv8, b1: bv8, b2: bv8, b3: bv8)
    requires Region(addr, addr + 4)
    ensures var m' := StoredUp(m, addr, b0, b1, b2, b3);
            OnlyWrites(m, m', addr, addr + 4) && ReadWord(m', addr) == Word(b0, b1, b2, b3)
  {
  }

  /** A word stored from its last byte down. */
  function StoredDown(m: Memory, addr: Addr, b0: bv8, b1: bv8, b2: bv8, b3: bv8): Memory
    requires Region(addr, addr + 4)
  {
    m[addr + 3 := b3][addr + 2 := b2][addr + 1 := b1][addr := b0]
  }

  lemma StoredDownDoes(m: Memory, addr: Addr, b0: bv8, b1: bv8, b2: bv8, b3: bv8)
    requires Region(addr, addr + 4)
    ensures var m' := StoredDown(m, addr, b0, b1, b2, b3);
            OnlyWrites(m, m', addr, addr + 4) && ReadWord(m', addr) == Word(b0, b1, b2, b3)
  {
  }

  /** Two stretches of writes, one after the other. */
  lemma WritesAfterWrites(m: Memory, m1: Memory, m2: Memory, lo: int, hi: int)
    requires OnlyWrites(m, m1, lo, hi) && OnlyWrites(m1, m2, lo, hi)
    ensures OnlyWrites(m, m2, lo, hi)
  {
  }

  // ---------------------------------------------------------------- carry chains

  /** Bit i is the carry out of bit i when x and y are added. */
  function Carries(x: bv32, y: bv32): bv32 {
    (x & y) | ((x | y) & !(x + y))
  }

  lemma SumByte3(x: bv32, y: bv32)
    ensures Byte3(x + y) == Sum(Byte3(x), Byte3(y), false)
    ensures CarryOut(Byte3(x), Byte3(y), false) == (Carries(x, y) & 0x80 != 0)
  {
  }

  lemma SumByte2(x: bv32, y: bv32)
    ensures var carry := Carries(x, y) & 0x80 != 0;
            Byte2(x + y) == Sum(Byte2(x), Byte2(y), carry)
            && CarryOut(Byte2(x), Byte2(y), carry) == (Carries(x, y) & 0x8000 != 0)
  {
  }

  lemma SumByte1(x: bv32, y: bv32)
    ensures var carry := Carries(x, y) & 0x8000 != 0;
            Byte1(x + y) == Sum(Byte1(x), Byte1(y), carry)
            && CarryOut(Byte1(x), Byte1(y), carry) == (Carries(x, y) & 0x80_0000 != 0)
  {
  }

  lemma SumByte0(x: bv32, y: bv32)
    ensures var carry := Carries(x, y) & 0x80_0000 != 0;
            Byte0(x + y) == Sum(Byte0(x), Byte0(y), carry)
            && CarryOut(Byte0(x), Byte0(y), carry) == (Carries(x, y) & 0x8000_0000 != 0)
  {
  }

  lemma SumBytes(x: bv32, y: bv32)
    ensures var c3 := CarryOut(Byte3(x), Byte3(y), false);
            var c2 := CarryOut(Byte2(x), Byte2(y), c3);
            var c1 := CarryOut(Byte1(x), Byte1(y), c2);
            Byte0(Add(x, y)) == Sum(Byte0(x), Byte0(y), c1) && Byte1(Add(x, y)) == Sum(Byte1(x), Byte1(y), c2)
            && Byte2(Add(x, y)) == Sum(Byte2(x), Byte2(y), c3) && Byte3(Add(x, y)) == Sum(Byte3(x), Byte3(y), false)
  {
    SumByte3(x, y);
    SumByte2(x, y);
    SumByte1(x, y);
    SumByte0(x, y);
  }

  /** Four byte additions with the carry handed on are one addition modulo 2^32. */
  lemma CarryChain(x0: bv8, x1: bv8, x2: bv8, x3: bv8, y0: bv8, y1: bv8, y2: bv8, y3: bv8)
    ensures var c3 := CarryOut(x3, y3, false);
            var c2 := CarryOut(x2, y2, c3);
            var c1 := CarryOut(x1, y1, c2);
            Word(Sum(x0, y0, c1), Sum(x1, y1, c2), Sum(x2, y2, c3), Sum(x3, y3, false))
            == Add(Word(x0, x1, x2, x3), Word(y0, y1, y2, y3))
  {
    var x, y := Word(x0, x1, x2, x3), Word(y0, y1, y2, y3);
    BytesOfWord(x0, x1, x2, x3);
    BytesOfWord(y0, y1, y2, y3);
    SumBytes(x, y);
    WordOfBytes(Add(x, y));
  }
}
