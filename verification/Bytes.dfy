/** The byte-level encodings of the .tbn container: little-endian numbers and unsigned varints. */
module Bytes {
  import opened Common

  type Byte = b: int | 0 <= b < 256

  type Buffer = seq<Byte>

  /** What reading at a position gives: the value and the bytes after it, an error, or a slice panic. */
  datatype Parsed<T> = Ok(value: T, rest: Buffer) | Err | Panic

  lemma Regroup(a: Buffer, b: Buffer, c: Buffer)
    ensures (a + b) + c == a + (b + c)
  {
  }

  // ---------------------------------------------------------------- fixed widths

  /** binary.LittleEndian.PutUint16(uint16(n)) */
  function U16(n: nat): (b: Buffer)
    ensures |b| == 2
  {
    [n % 256, n / 256 % 256]
  }

  function GetU16(s: Buffer): (n: nat)
    requires |s| >= 2
    ensures n < 0x1_0000
  {
    var lo: int, hi: int := s[0], s[1];
    lo + 256 * hi
  }

  function U32(n: nat): (b: Buffer)
    ensures |b| == 4
  {
    U16(n % 0x1_0000) + U16(n / 0x1_0000)
  }

  function GetU32(s: Buffer): (n: nat)
    requires |s| >= 4
    ensures n < 0x1_0000_0000
  {
    GetU16(s) + 0x1_0000 * GetU16(s[2..])
  }

  lemma U16RoundTrip(n: nat, rest: Buffer)
    ensures GetU16(U16(n) + rest) == n % 0x1_0000 && (U16(n) + rest)[2..] == rest
  {
  }

  lemma U32RoundTrip(n: nat, rest: Buffer)
    requires n < 0x1_0000_0000
    ensures GetU32(U32(n) + rest) == n && (U32(n) + rest)[4..] == rest
  {
    var lo, hi := n % 0x1_0000, n / 0x1_0000;
    assert U32(n) + rest == U16(lo) + (U16(hi) + rest);
    U16RoundTrip(lo, U16(hi) + rest);
    U16RoundTrip(hi, rest);
    assert n == lo + 0x1_0000 * hi;
  }

  /** The number whose bytes these are, low byte first. */
  function Little(s: Buffer): nat {
    if s == [] then 0 else s[0] + 256 * Little(s[1..])
  }

  lemma LittleStep(s: Buffer, n: nat)
    requires 0 < n <= |s|
    ensures Little(s[..n]) == s[0] + 256 * Little(s[1..][..n - 1])
  {
    assert s[..n][1..] == s[1..][..n - 1];
  }

  lemma U16IsLittle(s: Buffer)
    requires |s| >= 2
    ensures GetU16(s) == Little(s[..2])
  {
    LittleStep(s, 2);
    LittleStep(s[1..], 1);
    assert s[1..][1..][..0] == [];
  }

  lemma U32IsLittle(s: Buffer)
    requires |s| >= 4
    ensures GetU32(s) == Little(s[..4])
  {
    LittleStep(s, 4);
    LittleStep(s[1..], 3);
    assert s[1..][1..] == s[2..];
    U16IsLittle(s[2..]);
  }

  // ---------------------------------------------------------------- varints

  /** binary.PutUvarint: seven bits a byte, low bits first, the top bit set on all but the last. */
  function Uvarint(n: nat): (b: Buffer)
    ensures |b| > 0
  {
    if n < 128 then [n] else [n % 128 + 128] + Uvarint(n / 128)
  }

  /** binary.Uvarint from byte i on: at most ten bytes, and the tenth at most 1. */
  function GetUvarintFrom(s: Buffer, i: nat): Parsed<nat>
    decreases |s|
  {
    if s == [] || i == 10 then Err
    else if s[0] < 128 then
      if i == 9 && s[0] > 1 then Err else Ok(s[0], s[1..])
    else
      match GetUvarintFrom(s[1..], i + 1)
      case Ok(high, rest) => Ok(s[0] - 128 + 128 * high, rest)
      case other => other
  }

  function GetUvarint(s: Buffer): Parsed<nat> {
    GetUvarintFrom(s, 0)
  }

  /** The largest number that still fits when i bytes have been read: 64 bits in all. */
  function Room(i: nat): (n: nat)
    requires i <= 9
    ensures n > 0
    decreases 9 - i
  {
    if i == 9 then 2 else 128 * Room(i + 1)
  }

  lemma RoomIs64()
    ensures Room(0) == TWO_64
  {
    assert Room(8) == 0x100;
    assert Room(7) == 0x8000;
    assert Room(6) == 0x40_0000;
    assert Room(5) == 0x2000_0000;
    assert Room(4) == 0x10_0000_0000;
    assert Room(3) == 0x800_0000_0000;
    assert Room(2) == 0x4_0000_0000_0000;
    assert Room(1) == 0x200_0000_0000_0000;
  }

  lemma {:induction false} UvarintFromRoundTrip(n: nat, i: nat, rest: Buffer)
    requires i <= 9 && n < Room(i)
    ensures GetUvarintFrom(Uvarint(n) + rest, i) == Ok(n, rest)
    decreases n
  {
    if n >= 128 {
      var s := Uvarint(n) + rest;
      assert s[1..] == Uvarint(n / 128) + rest;
      UvarintFromRoundTrip(n / 128, i + 1, rest);
    } else {
      assert (Uvarint(n) + rest)[1..] == rest;
    }
  }

  /** Every 64-bit number survives its varint, whatever follows. */
  lemma UvarintRoundTrip(n: nat, rest: Buffer)
    requires n < TWO_64
    ensures GetUvarint(Uvarint(n) + rest) == Ok(n, rest)
  {
    RoomIs64();
    UvarintFromRoundTrip(n, 0, rest);
  }

  lemma {:induction false} GetUvarintFits(s: Buffer, i: nat)
    requires i <= 9
    ensures var r := GetUvarintFrom(s, i);
            !r.Panic? && (r.Ok? ==> r.value < Room(i) && |r.rest| < |s| && r.rest == s[|s| - |r.rest|..])
    decreases |s|
  {
    if s != [] && s[0] >= 128 && i < 9 {
      GetUvarintFits(s[1..], i + 1);
    }
  }

  // ---------------------------------------------------------------- int64 as uint64

  function AsUint64(x: Int64): (n: nat)
    ensures n < TWO_64
  {
    if x < 0 then x + TWO_64 else x
  }

  function AsInt64(n: nat): Int64
    requires n < TWO_64
  {
    if n >= 0x8000_0000_0000_0000 then n - TWO_64 else n
  }

  /** A difference, stored as an unsigned number and added again, gives the minuend back, whatever the signs. */
  lemma DeltaRoundTrip(x: Int64, prev: Int64)
    ensures Wrap(prev + AsInt64(AsUint64(Wrap(x - prev)))) == x
  {
  }
}
