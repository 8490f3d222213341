/** Bitmask immediates (tools/aarch64enc/slots_logical.go, tools/aarch64dec/slots_logical.go).

    A 64-bit word is its sequence of bits, least significant first; the shift, mask and count
    operators of the Go code are defined on such sequences.  The encoder searches for an element
    size and a rotation; the decoder follows DecodeBitMasks of the Arm ARM.  The main result is
    that the encoder succeeds exactly on the values some field decodes to, and that its field
    decodes back to the value. */
module LogicalImm {
  import opened Common
  import B = BitFields

  datatype Error = ZeroOrAllOnes | NonReplicating | ElementNotEncodable | NotSingleRun

  datatype Result<+T> = Ok(value: T) | Err(error: Error)

  type Word = w: seq<bool> | |w| == 64 witness seq(64, i => false)

  // ---------------------------------------------------------------- uint64 operators

  /** `(1 << n) - 1` */
  function LowMask(n: nat): Word {
    seq(64, i => i < n)
  }

  function Shr(x: Word, n: nat): Word {
    seq(64, i requires 0 <= i < 64 => i + n < 64 && x[i + n])
  }

  function Shl(x: Word, n: nat): Word {
    seq(64, i requires 0 <= i < 64 => i >= n && x[i - n])
  }

  function And(x: Word, y: Word): Word {
    seq(64, i requires 0 <= i < 64 => x[i] && y[i])
  }

  function Or(x: Word, y: Word): Word {
    seq(64, i requires 0 <= i < 64 => x[i] || y[i])
  }

  /** Number of one bits; on a word this is `bits.OnesCount64`. */
  function OnesCount(x: Bits): (n: nat)
    ensures n <= |x|
  {
    if x == [] then 0 else (if x[0] then 1 else 0) + OnesCount(x[1..])
  }

  /** The value an instruction of the given width sees. */
  function Truncate(x: Word, is64: bool): Word {
    if is64 then x else And(x, LowMask(32))
  }

  // ---------------------------------------------------------------- element patterns

  predicate ElementSize(e: nat) {
    e == 2 || e == 4 || e == 8 || e == 16 || e == 32 || e == 64
  }

  function Log2(e: nat): nat
    requires ElementSize(e)
  {
    if e == 2 then 1 else if e == 4 then 2 else if e == 8 then 3 else if e == 16 then 4 else if e == 32 then 5 else 6
  }

  /** `Ones(n)` zero-extended to e bits. */
  function Run(n: nat, e: nat): Bits {
    seq(e, i => i < n)
  }

  /** ROR by r. */
  function Rotate(x: Bits, r: nat): (y: Bits)
    requires r <= |x|
    ensures |y| == |x|
  {
    x[r..] + x[..r]
  }

  /** The first `total` bits of x repeated for ever, zero-extended to a word. */
  function Replicate(x: Bits, total: nat): Word
    requires |x| > 0
  {
    seq(64, i requires 0 <= i < 64 => i < total && x[i % |x|])
  }

  /** HighestSetBit of the low i + 1 bits of x, or -1. */
  function HighestSetBit(x: nat, i: int): int
    requires -1 <= i <= 6
    decreases i
  {
    if i < 0 then -1 else if x / Pow(i) % 2 == 1 then i else HighestSetBit(x, i - 1)
  }

  function Pow(i: nat): (p: nat)
    requires i <= 6
    ensures p > 0
  {
    if i == 0 then 1 else if i == 1 then 2 else if i == 2 then 4 else if i == 3 then 8
    else if i == 4 then 16 else if i == 5 then 32 else 64
  }

  // ---------------------------------------------------------------- the decoder

  /** DecodeBitMasks for an immediate (`wmask`), limited to the canonical immr, as section C4.1.64
      of the Arm ARM states it: a run of S + 1 ones, rotated right by R, replicated. */
  function DecodeMasks(n: nat, immr: nat, imms: nat, regsize: nat): Option<Word>
    requires n < 2 && immr < 64 && imms < 64 && (regsize == 32 || regsize == 64)
  {
    var len := HighestSetBit(64 * n + (63 - imms), 6);
    if len < 1 || Pow(len) > regsize then None
    else
      var esize := Pow(len);
      var s := imms % esize;
      if immr >= esize || s == esize - 1 then None
      else Some(Replicate(Rotate(Run(s + 1, esize), immr), regsize))
  }

  /** The value of a packed 13-bit N:immr:imms field. */
  function DecodeField(field: nat, is64: bool): Option<Word>
    requires field < 8192
  {
    DecodeMasks(field / 4096, field / 64 % 64, field % 64, if is64 then 64 else 32)
  }

  /** The scan for the element length, from bit 6 down. */
  method ScanLength(combined: nat) returns (length: int)
    ensures length == HighestSetBit(combined, 6)
  {
    length := -1;
    var i := 6;
    while i >= 0
      invariant -1 <= i <= 6
      invariant length == -1
      invariant HighestSetBit(combined, 6) == HighestSetBit(combined, i)
    {
      if combined / Pow(i) % 2 == 1 {
        length := i;
        break;
      }
      i := i - 1;
    }
  }

  /** A run of s + 1 ones in the low esize bits, turned right by rot. */
  method TurnedElement(esize: nat, s: nat, rot: nat) returns (rotated: Word)
    requires ElementSize(esize) && s < esize && rot < esize
    ensures rotated == Replicate(Rotate(Run(s + 1, esize), rot), esize)
  {
    var mask := LowMask(esize);
    var welem := And(LowMask(s + 1), mask);
    assert welem == Replicate(Run(s + 1, esize), esize) by { RunInLowBits(s + 1, esize); }
    RotateByShifts(Run(s + 1, esize), rot);
    rotated := And(Or(Shr(welem, rot), Shl(welem, esize - rot)), mask);
  }

  /** The Go decoder, loop by loop. */
  method DecodeBitMasks(n: nat, immr: nat, imms: nat, regsize: nat) returns (r: Option<Word>)
    requires n < 2 && immr < 64 && imms < 64 && (regsize == 32 || regsize == 64)
    ensures r == DecodeMasks(n, immr, imms, regsize)
  {
    var combined := 64 * n + (63 - imms);
    var length := ScanLength(combined);
    if length < 1 {
      if length != 0 {
        return None;
      }
    }
    var esize := Pow(length);
    if esize > regsize {
      return None;
    }
    var levels := esize - 1;
    SizeOfLog(length);
    SmallMod(immr, esize);
    if immr % esize != immr {
      return None;
    }
    var s := imms % esize;
    var rot := immr % esize;
    if s == levels {
      return None;
    }
    var rotated := TurnedElement(esize, s, rot);
    var result := ReplicateToWidth(rotated, Rotate(Run(s + 1, esize), rot), esize, regsize);
    assert DecodeMasks(n, immr, imms, regsize) == Some(result);
    if regsize == 32 {
      assert And(result, LowMask(32)) == result;
      result := And(result, LowMask(32));
    }
    return Some(result);
  }

  /** The decoder's last loop: or the element in at every multiple of its size. */
  method ReplicateToWidth(rotated: Word, ghost elem: Bits, esize: nat, regsize: nat) returns (result: Word)
    requires ElementSize(esize) && |elem| == esize && rotated == Replicate(elem, esize)
    requires esize <= regsize && (regsize == 32 || regsize == 64)
    ensures result == Replicate(elem, regsize)
  {
    result := seq(64, i => false);
    var shift := 0;
    while shift < regsize
      invariant 0 <= shift < regsize + esize && shift % esize == 0
      invariant result == Replicate(elem, shift)
    {
      PlaceElement(elem, shift);
      ModStep(shift, esize);
      result := Or(result, Shl(rotated, shift));
      shift := shift + esize;
    }
    MultiplesMeet(shift, regsize, esize);
  }

  /** Two shifts, an or and a mask rotate an element held in the low bits of a word. */
  lemma RotateByShifts(x: Bits, rot: nat)
    requires ElementSize(|x|) && rot < |x|
    ensures And(Or(Shr(Replicate(x, |x|), rot), Shl(Replicate(x, |x|), |x| - rot)), LowMask(|x|))
            == Replicate(Rotate(x, rot), |x|)
  {
    var left := And(Or(Shr(Replicate(x, |x|), rot), Shl(Replicate(x, |x|), |x| - rot)), LowMask(|x|));
    forall i | 0 <= i < 64 ensures left[i] == Replicate(Rotate(x, rot), |x|)[i] {
      if i < |x| { SmallMod(i, |x|); }
      if i + rot < |x| { SmallMod(i + rot, |x|); }
      if i >= |x| - rot { SmallMod(i + rot - |x|, |x|); }
    }
  }

  lemma RunInLowBits(n: nat, e: nat)
    requires ElementSize(e) && n <= e
    ensures Replicate(Run(n, e), e) == And(LowMask(n), LowMask(e)) == LowMask(n)
  {
    forall i | 0 <= i < 64 ensures Replicate(Run(n, e), e)[i] == LowMask(n)[i] {
      if i < e { SmallMod(i, e); }
    }
  }

  lemma PlaceElement(x: Bits, shift: nat)
    requires ElementSize(|x|) && shift % |x| == 0
    ensures Or(Replicate(x, shift), Shl(Replicate(x, |x|), shift)) == Replicate(x, shift + |x|)
  {
    var both, whole := Or(Replicate(x, shift), Shl(Replicate(x, |x|), shift)), Replicate(x, shift + |x|);
    forall i | 0 <= i < 64 ensures both[i] == whole[i] {
      if i >= shift { ModShift(i, shift, |x|); }
    }
  }

  lemma MultiplesMeet(shift: nat, regsize: nat, e: nat)
    requires ElementSize(e) && shift % e == 0 && (regsize == 32 || regsize == 64) && e <= regsize
    requires regsize <= shift < regsize + e
    ensures shift == regsize
  {
    if e == 2 {} else if e == 4 {} else if e == 8 {} else if e == 16 {} else if e == 32 {} else {}
  }

  lemma {:induction false} ModShift(i: nat, shift: nat, e: nat)
    requires ElementSize(e) && shift % e == 0 && shift <= i
    ensures (i - shift) % e == i % e
  {
    if shift >= e {
      ModStep(shift - e, e);
      ModShift(i, shift - e, e);
      ModStep(i - shift, e);
    } else {
      assert shift == 0 by { if shift != 0 { SmallMod(shift, e); } }
    }
  }

  lemma ModStep(a: nat, e: nat)
    requires ElementSize(e)
    ensures (a + e) % e == a % e
  {
    assert (a + 2) % 2 == a % 2 && (a + 4) % 4 == a % 4 && (a + 8) % 8 == a % 8;
    assert (a + 16) % 16 == a % 16 && (a + 32) % 32 == a % 32 && (a + 64) % 64 == a % 64;
  }

  lemma SmallMod(a: nat, e: nat)
    requires e > 0
    ensures a % e == a <==> a < e
  {
  }

  lemma SizeOfLog(k: nat)
    requires k <= 6
    ensures k >= 1 ==> ElementSize(Pow(k)) && Log2(Pow(k)) == k
  {
  }

  // ---------------------------------------------------------------- periodic words

  /** u is its low e bits over and over. */
  predicate Tiles(u: Word, e: nat)
    requires ElementSize(e)
  {
    u == Replicate(u[..e], 64)
  }

  lemma SizesDivide(e: nat, h: nat)
    requires ElementSize(e) && ElementSize(h) && e <= h
    ensures h % e == 0
  {
    if e == 2 {} else if e == 4 {} else if e == 8 {} else if e == 16 {} else if e == 32 {} else {}
  }

  lemma TilesRepeat(u: Word, e: nat, h: nat)
    requires ElementSize(e) && ElementSize(h) && e <= h && 2 * h <= 64 && Tiles(u, e)
    ensures u[..h] == u[h..2 * h]
  {
    SizesDivide(e, h);
    forall i | 0 <= i < h ensures u[..h][i] == u[h..2 * h][i] {
      ModShift(h + i, h, e);
      assert Replicate(u[..e], 64)[i] == u[..e][i % e];
      assert Replicate(u[..e], 64)[h + i] == u[..e][(h + i) % e];
    }
  }

  lemma TilesHalve(u: Word, h: nat)
    requires ElementSize(h) && ElementSize(2 * h) && Tiles(u, 2 * h) && u[..h] == u[h..2 * h]
    ensures Tiles(u, h)
  {
    forall i | 0 <= i < 64 ensures u[i] == Replicate(u[..h], 64)[i] {
      var j := i % (2 * h);
      assert u[i] == Replicate(u[..2 * h], 64)[i] == u[j];
      ModOfMod(i, h);
      if j >= h {
        assert u[j] == u[h..2 * h][j - h] == u[..h][j - h];
      }
    }
  }

  lemma {:induction false} ModOfMod(i: nat, h: nat)
    requires ElementSize(h) && ElementSize(2 * h)
    ensures i % h == if i % (2 * h) < h then i % (2 * h) else i % (2 * h) - h
  {
    if i < 2 * h {
      SmallMod(i, 2 * h);
      if i < h {
        SmallMod(i, h);
      } else {
        ModStep(i - h, h);
        SmallMod(i - h, h);
      }
    } else {
      ModOfMod(i - 2 * h, h);
      ModStep(i - 2 * h, 2 * h);
      ModStep(i - 2 * h, h);
      ModStep(i - h, h);
    }
  }

  lemma TilesTop(u: Word)
    ensures Tiles(u, 64)
  {
    forall i | 0 <= i < 64 ensures u[i] == Replicate(u[..64], 64)[i] {
      SmallMod(i, 64);
    }
  }

  lemma ReplicateTiles(x: Bits)
    requires ElementSize(|x|)
    ensures Tiles(Replicate(x, 64), |x|) && Replicate(x, 64)[..|x|] == x
  {
    forall i | 0 <= i < |x| ensures Replicate(x, 64)[i] == x[i] {
      SmallMod(i, |x|);
    }
    assert Replicate(x, 64)[..|x|] == x;
  }

  /** The halving test of the encoder compares the two halves of the element. */
  lemma HalvesTest(u: Word, h: nat)
    requires 2 * h <= 64
    ensures And(u, LowMask(h)) == And(Shr(u, h), LowMask(h)) <==> u[..h] == u[h..2 * h]
  {
    var low, high := And(u, LowMask(h)), And(Shr(u, h), LowMask(h));
    if low == high {
      forall i | 0 <= i < h ensures u[i] == u[h + i] {
        assert low[i] == u[i] && high[i] == u[i + h];
      }
    }
    if u[..h] == u[h..2 * h] {
      forall i | 0 <= i < 64 ensures low[i] == high[i] {
        if i < h { assert u[..h][i] == u[h..2 * h][i]; }
      }
    }
  }

  // ---------------------------------------------------------------- runs of ones

  /** u is a single run of s + 1 ones in an element of size e, rotated by r, over and over. */
  predicate IsRun(u: Word, e: nat, s: nat, r: nat) {
    ElementSize(e) && s + 1 < e && r < e && u == Replicate(Rotate(Run(s + 1, e), r), 64)
  }

  lemma RotatedRunAt(e: nat, s: nat, r: nat, i: nat)
    requires r < e && i < e
    ensures Rotate(Run(s + 1, e), r)[i] <==> (if i + r < e then i + r else i + r - e) < s + 1
  {
  }

  /** A rotated single run never has equal halves. */
  lemma RunHalvesDiffer(e: nat, s: nat, r: nat)
    requires ElementSize(e) && e > 2 && s + 1 < e && r < e
    ensures Rotate(Run(s + 1, e), r)[..e / 2] != Rotate(Run(s + 1, e), r)[e / 2..]
  {
    var y, h := Rotate(Run(s + 1, e), r), e / 2;
    assert e == 2 * h;
    // The run either misses the position half a turn after its start, or covers the one half a
    // turn before its end.
    var p := if s + 1 <= h then (if r == 0 then 0 else e - r) else e - 1 - r;
    var q := if p < h then p + h else p - h;
    RotatedRunAt(e, s, r, p);
    RotatedRunAt(e, s, r, q);
    var lo := if p < q then p else q;
    assert y[..h][lo] == y[lo] && y[h..][lo] == y[lo + h];
  }

  lemma {:induction false} OnesCountAppend(x: Bits, y: Bits)
    ensures OnesCount(x + y) == OnesCount(x) + OnesCount(y)
  {
    if x == [] {
      assert x + y == y;
    } else {
      assert (x + y)[1..] == x[1..] + y;
      OnesCountAppend(x[1..], y);
    }
  }

  lemma {:induction false} OnesCountUniform(x: Bits)
    ensures OnesCount(x) == 0 <==> forall i :: 0 <= i < |x| ==> !x[i]
    ensures OnesCount(x) == |x| <==> forall i :: 0 <= i < |x| ==> x[i]
  {
    if x != [] {
      OnesCountUniform(x[1..]);
      assert forall i :: 0 < i < |x| ==> x[i] == x[1..][i - 1];
      assert forall i :: 0 <= i < |x| - 1 ==> x[1..][i] == x[i + 1];
    }
  }

  lemma {:induction false} OnesCountRun(n: nat, e: nat)
    requires n <= e
    ensures OnesCount(Run(n, e)) == n
  {
    if e > 0 {
      assert Run(n, e)[1..] == Run(if n > 0 then n - 1 else 0, e - 1);
      OnesCountRun(if n > 0 then n - 1 else 0, e - 1);
    }
  }

  lemma OnesCountRotate(x: Bits, r: nat)
    requires r <= |x|
    ensures OnesCount(Rotate(x, r)) == OnesCount(x)
  {
    var front, back := x[..r], x[r..];
    OnesCountSwap(front, back);
    assert x == front + back;
  }

  lemma OnesCountSwap(x: Bits, y: Bits)
    ensures OnesCount(y + x) == OnesCount(x + y)
  {
    OnesCountAppend(x, y);
    OnesCountAppend(y, x);
  }

  /** The inverse rotation, as the encoder computes it. */
  function BackRotation(r: nat, e: nat): nat
    requires r < e
  {
    if r != 0 then e - r else r
  }

  lemma RotateBack(x: Bits, r: nat)
    requires r < |x|
    ensures Rotate(Rotate(x, r), BackRotation(r, |x|)) == x
  {
    if r == 0 {
      assert Rotate(x, 0) == x;
    } else {
      var y := Rotate(x, r);
      assert y[|x| - r..] == x[..r] && y[..|x| - r] == x[r..];
      assert x == x[..r] + x[r..];
    }
  }

  /** Of all element sizes, only the one the halving search stops at can hold the run. */
  lemma SizeIsForced(u: Word, size: nat, e: nat, s: nat, r: nat)
    requires ElementSize(size) && Tiles(u, size) && IsRun(u, e, s, r)
    requires size == 2 || u[..size / 2] != u[size / 2..size]
    ensures size == e && u[..size] == Rotate(Run(s + 1, e), r)
  {
    var y := Rotate(Run(s + 1, e), r);
    ReplicateTiles(y);
    if e < size {
      TilesRepeat(u, e, size / 2);
      assert false;
    } else if size < e {
      TilesRepeat(u, size, e / 2);
      assert y[..e / 2] == u[..e / 2] && y[e / 2..] == u[e / 2..e];
      RunHalvesDiffer(e, s, r);
      assert false;
    }
  }

  // ---------------------------------------------------------------- fields

  /** The fields the encoder packs for a run of `ones` ones in an element of the given size. */
  function PackField(size: nat, ones: nat, immr: nat): (field: nat)
    requires ElementSize(size) && 0 < ones < size && immr < size
    ensures field < 8192
  {
    if size == 64 then 4096 + 64 * immr + (ones - 1)
    else 64 * immr + (64 - 2 * size) + (ones - 1)
  }

  lemma BitOf(x: nat, i: nat, k: nat)
    requires k <= i <= 6 && Pow(k) <= x < 2 * Pow(k)
    ensures x / Pow(i) == if i == k then 1 else 0
  {
    if k == 0 {} else if k == 1 {} else if k == 2 {} else if k == 3 {} else if k == 4 {} else if k == 5 {} else {}
  }

  lemma {:induction false} HighestSetBitFrom(x: nat, i: nat, k: nat)
    requires k <= i <= 6 && Pow(k) <= x < 2 * Pow(k)
    ensures HighestSetBit(x, i) == k
  {
    BitOf(x, i, k);
    if i > k {
      HighestSetBitFrom(x, i - 1, k);
    }
  }

  lemma HighestSetBitOf(x: nat, k: nat)
    requires k <= 6 && Pow(k) <= x < 2 * Pow(k)
    ensures HighestSetBit(x, 6) == k
  {
    HighestSetBitFrom(x, 6, k);
  }

  lemma PackedParts(size: nat, ones: nat, immr: nat)
    requires ElementSize(size) && 0 < ones < size && immr < size
    ensures PackField(size, ones, immr) / 4096 == if size == 64 then 1 else 0
    ensures PackField(size, ones, immr) / 64 % 64 == immr
    ensures PackField(size, ones, immr) % 64 == if size == 64 then ones - 1 else 64 - 2 * size + ones - 1
  {
  }

  lemma ImmsLowBits(size: nat, ones: nat)
    requires ElementSize(size) && 0 < ones < size
    ensures size < 64 ==> (64 - 2 * size + ones - 1) % size == ones - 1
    ensures (ones - 1) % size == ones - 1
  {
    SmallMod(ones - 1, size);
    if size < 64 {
      var top := 64 - 2 * size;
      SizesDivide(size, 64);
      ModShift(64 + ones - 1, 64, size);
      ModStep(top + ones - 1, size);
      ModStep(top + ones - 1 + size, size);
    }
  }

  lemma PackDecodes(size: nat, ones: nat, immr: nat, is64: bool)
    requires ElementSize(size) && 0 < ones < size && immr < size && (size == 64 ==> is64)
    ensures DecodeField(PackField(size, ones, immr), is64)
            == Some(Replicate(Rotate(Run(ones, size), immr), if is64 then 64 else 32))
  {
    PackedParts(size, ones, immr);
    var field := PackField(size, ones, immr);
    HighestSetBitOf(64 * (field / 4096) + (63 - field % 64), Log2(size));
    assert Pow(Log2(size)) == size;
    ImmsLowBits(size, ones);
  }

  /** What lies behind a value: the element size, and a run neither empty nor full. */
  lemma MasksParts(n: nat, immr: nat, imms: nat, regsize: nat) returns (len: nat, e: nat, s: nat)
    requires n < 2 && immr < 64 && imms < 64 && (regsize == 32 || regsize == 64)
    requires DecodeMasks(n, immr, imms, regsize).Some?
    ensures 1 <= len <= 6 && HighestSetBit(64 * n + (63 - imms), 6) == len && e == Pow(len) && s == imms % e
    ensures ElementSize(e) && e <= regsize && immr < e && s + 1 < e
    ensures DecodeMasks(n, immr, imms, regsize).value == Replicate(Rotate(Run(s + 1, e), immr), regsize)
  {
    len := HighestSetBit(64 * n + (63 - imms), 6);
    SizeOfLog(len);
    e := Pow(len);
    s := imms % e;
  }

  /** What a decodable field says about the word it decodes to, read at 64 bits. */
  lemma DecodedIsRun(field: nat, is64: bool, u: Word) returns (e: nat, s: nat, r: nat)
    requires field < 8192 && DecodeField(field, is64).Some?
    requires Truncate(u, is64) == DecodeField(field, is64).value
    requires !is64 ==> u[..32] == u[32..]
    ensures IsRun(u, e, s, r)
  {
    var n, immr, imms := field / 4096, field / 64 % 64, field % 64;
    var len;
    len, e, s := MasksParts(n, immr, imms, if is64 then 64 else 32);
    r := immr;
    var y := Rotate(Run(s + 1, e), r);
    if !is64 {
      forall i | 0 <= i < 64 ensures u[i] == Replicate(y, 64)[i] {
        if i < 32 {
          assert u[i] == Truncate(u, false)[i];
        } else {
          assert u[i] == u[32..][i - 32] == u[..32][i - 32] == Truncate(u, false)[i - 32];
          SizesDivide(e, 32);
          ModShift(i, 32, e);
        }
      }
    }
  }

  predicate Encodable(v: Word, is64: bool) {
    exists field: nat :: field < 8192 && DecodeField(field, is64) == Some(Truncate(v, is64))
  }

  // ---------------------------------------------------------------- the encoder

  lemma UniformNotEncodable(imm: Word, u: Word, is64: bool)
    requires Truncate(u, is64) == Truncate(imm, is64) && (!is64 ==> u[..32] == u[32..])
    requires u == LowMask(0) || u == LowMask(64)
    ensures !Encodable(imm, is64)
  {
    if field: nat :| field < 8192 && DecodeField(field, is64) == Some(Truncate(imm, is64)) {
      var e, s, r := DecodedIsRun(field, is64, u);
      RunNotUniform(u, e, s, r);
    }
  }

  lemma RunNotUniform(u: Word, e: nat, s: nat, r: nat)
    requires IsRun(u, e, s, r)
    ensures u != LowMask(0) && u != LowMask(64)
  {
    ReplicateTiles(Rotate(Run(s + 1, e), r));
    var first, last := BackRotation(r, e), e - 1 - r;
    RotatedRunAt(e, s, r, first);
    RotatedRunAt(e, s, r, last);
    assert u[..e][first] == u[first] && u[..e][last] == u[last];
  }

  lemma LowElement(u: Word, size: nat)
    requires ElementSize(size)
    ensures And(u, LowMask(size)) == Replicate(u[..size], size)
  {
    forall i | 0 <= i < 64 ensures And(u, LowMask(size))[i] == Replicate(u[..size], size)[i] {
      if i < size { SmallMod(i, size); }
    }
  }

  lemma ElementOnes(u: Word, size: nat)
    requires ElementSize(size) && Tiles(u, size) && u != LowMask(0) && u != LowMask(64)
    ensures OnesCount(And(u, LowMask(size))) == OnesCount(u[..size])
    ensures 0 < OnesCount(u[..size]) < size
  {
    var x, rest := u[..size], seq(64 - size, i => false);
    assert And(u, LowMask(size)) == x + rest;
    OnesCountAppend(x, rest);
    OnesCountUniform(rest);
    OnesCountUniform(x);
    UniformTiles(x);
  }

  lemma UniformTiles(x: Bits)
    requires |x| > 0
    ensures (forall i :: 0 <= i < |x| ==> !x[i]) ==> Replicate(x, 64) == LowMask(0)
    ensures (forall i :: 0 <= i < |x| ==> x[i]) ==> Replicate(x, 64) == LowMask(64)
  {
  }

  lemma RotationTest(x: Bits, i: nat, ones: nat)
    requires ElementSize(|x|) && i < |x| && ones <= |x|
    ensures And(Or(Shr(Replicate(x, |x|), i), Shl(Replicate(x, |x|), |x| - i)), LowMask(|x|)) == LowMask(ones)
            <==> Rotate(x, i) == Run(ones, |x|)
  {
    RotateByShifts(x, i);
    RunInLowBits(ones, |x|);
    if Replicate(Rotate(x, i), |x|) == LowMask(ones) {
      forall k | 0 <= k < |x| ensures Rotate(x, i)[k] == Run(ones, |x|)[k] {
        SmallMod(k, |x|);
        assert Replicate(Rotate(x, i), |x|)[k] == LowMask(ones)[k];
      }
    }
  }

  lemma NoRotationNotEncodable(imm: Word, u: Word, is64: bool, size: nat)
    requires Truncate(u, is64) == Truncate(imm, is64) && (!is64 ==> u[..32] == u[32..])
    requires ElementSize(size) && Tiles(u, size) && (size == 2 || u[..size / 2] != u[size / 2..size])
    requires forall k: nat :: k < size ==> Rotate(u[..size], k) != Run(OnesCount(u[..size]), size)
    ensures !Encodable(imm, is64)
  {
    if field: nat :| field < 8192 && DecodeField(field, is64) == Some(Truncate(imm, is64)) {
      var e, s, r := DecodedIsRun(field, is64, u);
      SizeIsForced(u, size, e, s, r);
      RunRotatesBack(e, s, r);
    }
  }

  lemma RunRotatesBack(e: nat, s: nat, r: nat)
    requires s + 1 <= e && r < e
    ensures OnesCount(Rotate(Run(s + 1, e), r)) == s + 1
    ensures Rotate(Rotate(Run(s + 1, e), r), BackRotation(r, e)) == Run(s + 1, e)
  {
    RotateBack(Run(s + 1, e), r);
    OnesCountRotate(Run(s + 1, e), r);
    OnesCountRun(s + 1, e);
  }

  lemma TruncatedTiles(u: Word, size: nat, is64: bool)
    requires ElementSize(size) && Tiles(u, size)
    ensures Truncate(u, is64) == Replicate(u[..size], if is64 then 64 else 32)
  {
  }

  /** The first loop: halve the element while its two halves agree. */
  method FindElementSize(u: Word) returns (size: nat)
    ensures ElementSize(size) && Tiles(u, size)
    ensures size == 2 || u[..size / 2] != u[size / 2..size]
  {
    size := 64;
    TilesTop(u);
    while size > 2
      invariant ElementSize(size) && Tiles(u, size)
    {
      var nextSize := size / 2;
      var mask := LowMask(nextSize);
      HalvesTest(u, nextSize);
      if And(u, mask) != And(Shr(u, nextSize), mask) {
        break;
      }
      TilesHalve(u, nextSize);
      size := nextSize;
    }
  }

  /** The second loop: the first right rotation that brings all ones to the bottom, or -1. */
  method FindRotation(element: Word, ghost x: Bits, size: nat, ones: nat) returns (rotation: int)
    requires ElementSize(size) && |x| == size && element == Replicate(x, size) && ones <= size
    ensures -1 <= rotation < size
    ensures rotation >= 0 ==> Rotate(x, rotation) == Run(ones, size)
    ensures rotation < 0 ==> forall k: nat :: k < size ==> Rotate(x, k) != Run(ones, size)
  {
    var mask, expected := LowMask(size), LowMask(ones);
    rotation := -1;
    var r := 0;
    while r < size
      invariant 0 <= r <= size && rotation == -1
      invariant forall k: nat :: k < r ==> Rotate(x, k) != Run(ones, size)
    {
      var rotated := And(Or(Shr(element, r), Shl(element, size - r)), mask);
      RotationTest(x, r, ones);
      if rotated == expected {
        rotation := r;
        break;
      }
      r := r + 1;
    }
  }

  /** A 32-bit value is looked at as if written twice. */
  lemma WrittenTwice(imm: Word)
    ensures var low := And(imm, LowMask(32)); var u := Or(low, Shl(low, 32));
            Truncate(u, false) == Truncate(imm, false) && u[..32] == u[32..]
  {
  }

  lemma NarrowSize(u: Word, size: nat)
    requires u[..32] == u[32..]
    requires ElementSize(size) && (size == 2 || u[..size / 2] != u[size / 2..size])
    ensures size < 64
  {
    assert u[32..64] == u[32..];
  }

  /** A 32-bit value is written twice, so that the search is the same for both widths. */
  method Widened(imm: Word, is64: bool) returns (u: Word)
    ensures Truncate(u, is64) == Truncate(imm, is64) && (!is64 ==> u[..32] == u[32..])
  {
    u := imm;
    if !is64 {
      u := And(u, LowMask(32));
      u := Or(u, Shl(u, 32));
      WrittenTwice(imm);
    }
  }

  /** The bits the instruction sees are all alike exactly when the widened value is 0 or all ones. */
  lemma UniformWidened(imm: Word, u: Word, is64: bool)
    requires Truncate(u, is64) == Truncate(imm, is64) && (!is64 ==> u[..32] == u[32..])
    ensures u == LowMask(0) || u == LowMask(64) <==>
            forall i :: 0 <= i < (if is64 then 64 else 32) ==> imm[i] == imm[0]
  {
    var w := if is64 then 64 else 32;
    forall i | 0 <= i < w ensures u[i] == imm[i] {
      assert Truncate(u, is64)[i] == Truncate(imm, is64)[i];
    }
    forall i | w <= i < 64 ensures u[i] == u[i - w] {
      assert u[32..][i - 32] == u[..32][i - 32];
    }
    if forall i :: 0 <= i < w ==> imm[i] == imm[0] {
      assert forall i :: 0 <= i < 64 ==> u[i] == u[0];
      assert u == LowMask(if u[0] then 64 else 0);
    }
  }

  /** The loop that halves the size down to 1. */
  method SizeLog2(size: nat) returns (sizeLog2: nat)
    requires ElementSize(size)
    ensures sizeLog2 == Log2(size)
  {
    sizeLog2 := 0;
    var s := size;
    while s > 1
      invariant s == 1 || ElementSize(s)
      invariant sizeLog2 + (if s == 1 then 0 else Log2(s)) == Log2(size)
    {
      s := s / 2;
      sizeLog2 := sizeLog2 + 1;
    }
  }

  /** The size mark in the top of imms, and ones - 1 below it, share no bit. */
  lemma MarkApart(size: nat, ones: nat)
    requires ElementSize(size) && size < 64 && 0 < ones < size
    ensures B.OrNumbers(64 - 2 * size, ones - 1, 6) == 64 - 2 * size + (ones - 1)
  {
    assert B.TwoTo(1) == 2 && B.TwoTo(2) == 4;
    assert B.TwoTo(3) == 8 && B.TwoTo(4) == 16;
    assert B.TwoTo(5) == 32 && B.TwoTo(6) == 64;
    var top, low := 64 - 2 * size, ones - 1;
    if size == 2 { B.OrIsSum(30, 1, top, low, 6); }
    else if size == 4 { B.OrIsSum(14, 2, top, low, 6); }
    else if size == 8 { B.OrIsSum(6, 3, top, low, 6); }
    else if size == 16 { B.OrIsSum(2, 4, top, low, 6); }
    else { B.OrIsSum(0, 5, top, low, 6); }
  }

  /** N, immr and imms, shifted into place, share no bit. */
  lemma FieldsApart(n: nat, immr: nat, imms: nat)
    requires n < 2 && immr < 64 && imms < 64
    ensures B.OrNumbers(B.OrNumbers(4096 * n, 64 * immr, 13), imms, 13) == 4096 * n + 64 * immr + imms
  {
    B.Powers();
    B.OrIsSum(n, 12, 4096 * n, 64 * immr, 13);
    B.OrIsSum(64 * n + immr, 6, 4096 * n + 64 * immr, imms, 13);
  }

  /** The rotation that undoes the one found, and the element size in the top of imms. */
  method Pack(size: nat, ones: nat, rotation: nat) returns (field: nat)
    requires ElementSize(size) && 0 < ones < size && rotation < size
    ensures field == PackField(size, ones, BackRotation(rotation, size))
  {
    var immr := rotation;
    if rotation != 0 {
      immr := size - rotation;
    }
    var n, imms;
    if size == 64 {
      n, imms := 1, ones - 1;
    } else {
      var sizeLog2 := SizeLog2(size);
      var nimmsTop := 63 - (Pow(sizeLog2 + 1) - 1);
      n, imms := 0, B.OrNumbers(nimmsTop, ones - 1, 6);
      MarkApart(size, ones);
    }
    field := B.OrNumbers(B.OrNumbers(4096 * n, 64 * immr, 13), imms, 13);
    FieldsApart(n, immr, imms);
  }

  /** The packed N:immr:imms field of a value, or why it has none.  Only the two errors that
      depend on the value can occur. */
  method EncodeLogicalImm(imm: Word, is64: bool) returns (r: Result<nat>)
    ensures r.Ok? <==> Encodable(imm, is64)
    ensures r.Ok? ==> r.value < 8192 && DecodeField(r.value, is64) == Some(Truncate(imm, is64))
    ensures r.Err? ==> r.error == ZeroOrAllOnes || r.error == NotSingleRun
    ensures r == Err(ZeroOrAllOnes) <==> forall i :: 0 <= i < (if is64 then 64 else 32) ==> imm[i] == imm[0]
  {
    var u := Widened(imm, is64);
    UniformWidened(imm, u, is64);
    if u == LowMask(0) || u == LowMask(64) {
      UniformNotEncodable(imm, u, is64);
      return Err(ZeroOrAllOnes);
    }

    var size := FindElementSize(u);
    if !is64 { NarrowSize(u, size); }
    ghost var x := u[..size];
    LowElement(u, size);
    var element := And(u, LowMask(size));
    if size < 64 {
      var check := ReplicateToWidth(element, x, size, 64);
      if check != u {
        assert false;
        return Err(NonReplicating);
      }
    }

    var ones := OnesCount(element);
    ElementOnes(u, size);
    if ones == 0 || ones == size {
      assert false;
      return Err(ElementNotEncodable);
    }

    var rotation := FindRotation(element, x, size, ones);
    if rotation < 0 {
      NoRotationNotEncodable(imm, u, is64, size);
      return Err(NotSingleRun);
    }
    FoundDecodes(imm, u, is64, size, ones, rotation);
    var field := Pack(size, ones, rotation);
    return Ok(field);
  }

  lemma FoundDecodes(imm: Word, u: Word, is64: bool, size: nat, ones: nat, rotation: nat)
    requires Truncate(u, is64) == Truncate(imm, is64) && (size == 64 ==> is64)
    requires ElementSize(size) && Tiles(u, size) && 0 < ones < size && rotation < size
    requires Rotate(u[..size], rotation) == Run(ones, size)
    ensures var field := PackField(size, ones, BackRotation(rotation, size));
            DecodeField(field, is64) == Some(Truncate(imm, is64)) && Encodable(imm, is64)
  {
    RotateBack(u[..size], rotation);
    PackDecodes(size, ones, BackRotation(rotation, size), is64);
    TruncatedTiles(u, size, is64);
  }

  // ---------------------------------------------------------------- one field for each value

  /** Replicating determines the element. */
  lemma ReplicatedFront(x: Bits, y: Bits, total: nat)
    requires |x| == |y| && 0 < |x| <= total <= 64 && (total == 32 || total == 64)
    requires Replicate(x, total) == Replicate(y, total)
    ensures x == y
  {
    forall i | 0 <= i < |x| ensures x[i] == y[i] {
      SmallMod(i, |x|);
      assert Replicate(x, total)[i] == x[i] && Replicate(y, total)[i] == y[i];
    }
  }

  /** Position of the highest bit of a number below 128. */
  function TopBit(x: nat): (k: nat)
    requires 0 < x < 128
    ensures k <= 6 && Pow(k) <= x < 2 * Pow(k)
  {
    if x < 2 then 0 else if x < 4 then 1 else if x < 8 then 2 else if x < 16 then 3 else if x < 32 then 4
    else if x < 64 then 5 else 6
  }

  lemma {:induction false} ZeroHasNoBit(i: nat)
    requires i <= 6
    ensures HighestSetBit(0, i) == -1
  {
    if i > 0 { ZeroHasNoBit(i - 1); }
  }

  lemma HighestSetBitBounds(x: nat, len: nat)
    requires x < 128 && len <= 6 && HighestSetBit(x, 6) == len
    ensures Pow(len) <= x < 2 * Pow(len)
  {
    if x == 0 {
      ZeroHasNoBit(6);
    } else {
      HighestSetBitOf(x, TopBit(x));
    }
  }

  lemma ImmsSplit(imms: nat, len: nat)
    requires imms < 64 && 1 <= len < 6 && Pow(len) <= 63 - imms < 2 * Pow(len)
    ensures imms == 64 - 2 * Pow(len) + imms % Pow(len)
  {
    if len == 1 {} else if len == 2 {} else if len == 3 {} else if len == 4 {} else {}
  }

  lemma FieldParts(field: nat)
    requires field < 8192
    ensures field / 4096 < 2 && field == 4096 * (field / 4096) + 64 * (field / 64 % 64) + field % 64
  {
  }

  /** imms is s below its size bit and ones above it; N stands for the largest size. */
  lemma PackedFrom(n: nat, immr: nat, imms: nat, len: nat, e: nat, s: nat)
    requires n < 2 && imms < 64 && 1 <= len <= 6 && e == Pow(len) && s == imms % e
    requires e <= 64 * n + (63 - imms) < 2 * e && immr < e && s + 1 < e
    ensures ElementSize(e) && 4096 * n + 64 * immr + imms == PackField(e, s + 1, immr)
  {
    SizeOfLog(len);
    if len < 6 { ImmsSplit(imms, len); }
  }

  lemma MasksPacked(n: nat, immr: nat, imms: nat, regsize: nat) returns (e: nat, s: nat)
    requires n < 2 && immr < 64 && imms < 64 && (regsize == 32 || regsize == 64)
    requires DecodeMasks(n, immr, imms, regsize).Some?
    ensures ElementSize(e) && s + 1 < e && immr < e && e <= regsize
    ensures 4096 * n + 64 * immr + imms == PackField(e, s + 1, immr)
    ensures DecodeMasks(n, immr, imms, regsize).value == Replicate(Rotate(Run(s + 1, e), immr), regsize)
  {
    var len;
    len, e, s := MasksParts(n, immr, imms, regsize);
    HighestSetBitBounds(64 * n + (63 - imms), len);
    PackedFrom(n, immr, imms, len, e, s);
  }

  /** A field that decodes is the packing of the run it decodes to. */
  lemma DecodedIsPacked(field: nat, is64: bool) returns (e: nat, s: nat, r: nat)
    requires field < 8192 && DecodeField(field, is64).Some?
    ensures ElementSize(e) && s + 1 < e && r < e && (e == 64 ==> is64) && field == PackField(e, s + 1, r)
    ensures DecodeField(field, is64).value == Replicate(Rotate(Run(s + 1, e), r), if is64 then 64 else 32)
  {
    FieldParts(field);
    r := field / 64 % 64;
    e, s := MasksPacked(field / 4096, r, field % 64, if is64 then 64 else 32);
  }

  /** Where a run begins tells how far it was turned. */
  lemma RotationUnique(e: nat, s: nat, r: nat, t: nat)
    requires ElementSize(e) && s + 1 < e && r < e && t < e
    requires Rotate(Run(s + 1, e), r) == Rotate(Run(s + 1, e), t)
    ensures r == t
  {
    var start := if r == 0 then 0 else e - r;
    var before := if start == 0 then e - 1 else start - 1;
    RotatedRunAt(e, s, r, start);
    RotatedRunAt(e, s, t, start);
    RotatedRunAt(e, s, r, before);
    RotatedRunAt(e, s, t, before);
  }

  /** Runs of one size that look alike after turning have one length and one rotation. */
  lemma RunUnique(e: nat, s: nat, r: nat, s': nat, r': nat)
    requires ElementSize(e) && s + 1 < e && r < e && s' + 1 < e && r' < e
    requires Rotate(Run(s + 1, e), r) == Rotate(Run(s' + 1, e), r')
    ensures s == s' && r == r'
  {
    var x, y := Run(s + 1, e), Run(s' + 1, e);
    OnesCountRotate(x, r);
    OnesCountRotate(y, r');
    OnesCountRun(s + 1, e);
    OnesCountRun(s' + 1, e);
    assert s + 1 == OnesCount(x) == OnesCount(y) == s' + 1;
    RotationUnique(e, s, r, r');
  }

  /** No two runs tile the same word. */
  lemma TilingUnique(u: Word, e: nat, s: nat, r: nat, e': nat, s': nat, r': nat)
    requires IsRun(u, e, s, r) && IsRun(u, e', s', r')
    ensures e == e' && s == s' && r == r'
  {
    var y := Rotate(Run(s + 1, e), r);
    ReplicateTiles(y);
    ReplicatedFront(u[..e], y, 64);
    if e > 2 {
      RunHalvesDiffer(e, s, r);
      assert y[..e / 2] == u[..e / 2] && y[e / 2..] == u[e / 2..e];
    }
    SizeIsForced(u, e, e', s', r');
    RunUnique(e, s, r, s', r');
  }

  /** The decoder gives every value to one field only: the canonical one. */
  lemma DecodeIsInjective(f: nat, g: nat, is64: bool)
    requires f < 8192 && g < 8192 && DecodeField(f, is64).Some? && DecodeField(f, is64) == DecodeField(g, is64)
    ensures f == g
  {
    var v := DecodeField(f, is64).value;
    var e, s, r := DecodedIsPacked(f, is64);
    var e', s', r' := DecodedIsPacked(g, is64);
    var u := Replicate(Rotate(Run(s + 1, e), r), 64);
    var u' := Replicate(Rotate(Run(s' + 1, e'), r'), 64);
    if !is64 {
      TiledAlike(Rotate(Run(s + 1, e), r), Rotate(Run(s' + 1, e'), r'));
    }
    TilingUnique(u, e, s, r, e', s', r');
  }

  /** Alike in 32 bits, alike in 64. */
  lemma TiledAlike(x: Bits, y: Bits)
    requires ElementSize(|x|) && ElementSize(|y|) && |x| <= 32 && |y| <= 32
    requires Replicate(x, 32) == Replicate(y, 32)
    ensures Replicate(x, 64) == Replicate(y, 64)
  {
    forall i | 0 <= i < 64 ensures Replicate(x, 64)[i] == Replicate(y, 64)[i] {
      var k := if i < 32 then i else i - 32;
      SizesDivide(|x|, 32);
      SizesDivide(|y|, 32);
      if i >= 32 {
        ModShift(i, 32, |x|);
        ModShift(i, 32, |y|);
      }
      assert Replicate(x, 32)[k] == Replicate(y, 32)[k];
    }
  }
}
