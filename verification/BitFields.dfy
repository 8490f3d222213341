/** Bit fields of 32-bit instruction words, and two's complement numbers. */
module BitFields {
  import opened Common

  /** An instruction word, least significant bit first. */
  type Code = w: seq<bool> | |w| == 32 witness seq(32, i => false)

  function TwoTo(n: nat): (p: int)
    ensures p > 0
  {
    if n == 0 then 1 else 2 * TwoTo(n - 1)
  }

  /** The powers the encodings use. */
  lemma Powers()
    ensures TwoTo(0) == 1 && TwoTo(2) == 4 && TwoTo(7) == 128 && TwoTo(9) == 512 && TwoTo(12) == 0x1000
    ensures TwoTo(13) == 0x2000 && TwoTo(14) == 0x4000 && TwoTo(16) == 0x1_0000 && TwoTo(19) == 0x8_0000
    ensures TwoTo(21) == 0x20_0000 && TwoTo(26) == 0x400_0000
    ensures TwoTo(6) == 64 && TwoTo(8) == 256 && TwoTo(18) == 0x4_0000 && TwoTo(20) == 0x10_0000
    ensures TwoTo(25) == 0x200_0000
  {
    assert TwoTo(2) == 4;
    assert TwoTo(4) == 16;
    assert TwoTo(6) == 64;
    assert TwoTo(8) == 256;
    assert TwoTo(10) == 0x400;
    assert TwoTo(12) == 0x1000;
    assert TwoTo(14) == 0x4000;
    assert TwoTo(16) == 0x1_0000;
    assert TwoTo(18) == 0x4_0000;
    assert TwoTo(20) == 0x10_0000;
    assert TwoTo(22) == 0x40_0000;
    assert TwoTo(24) == 0x100_0000;
    assert TwoTo(26) == 0x400_0000;
  }

  function ToNat(b: Bits): nat {
    if b == [] then 0 else (if b[0] then 1 else 0) + 2 * ToNat(b[1..])
  }

  function FromNat(n: nat, width: nat): (b: Bits)
    ensures |b| == width
  {
    if width == 0 then [] else [n % 2 == 1] + FromNat(n / 2, width - 1)
  }

  lemma {:induction false} ToNatBound(b: Bits)
    ensures ToNat(b) < TwoTo(|b|)
  {
    if b != [] {
      ToNatBound(b[1..]);
    }
  }

  lemma {:induction false} ToNatOfFromNat(n: nat, width: nat)
    requires n < TwoTo(width)
    ensures ToNat(FromNat(n, width)) == n
  {
    if width > 0 {
      ToNatOfFromNat(n / 2, width - 1);
      assert FromNat(n, width)[1..] == FromNat(n / 2, width - 1);
    }
  }

  /** Numbers of one width are as different as their bits. */
  lemma {:induction false} ToNatInjective(a: Bits, b: Bits)
    requires |a| == |b| && ToNat(a) == ToNat(b)
    ensures a == b
  {
    if a != [] {
      ToNatInjective(a[1..], b[1..]);
      assert a == [a[0]] + a[1..] && b == [b[0]] + b[1..];
    }
  }

  function OrBits(x: Bits, y: Bits): (z: Bits)
    requires |x| == |y|
    ensures |z| == |x|
  {
    seq(|x|, i requires 0 <= i < |x| => x[i] || y[i])
  }

  /** x | y, on numbers of the given width. */
  function OrNumbers(x: nat, y: nat, width: nat): nat {
    ToNat(OrBits(FromNat(x, width), FromNat(y, width)))
  }

  lemma OrNumbersStep(x: nat, y: nat, width: nat)
    requires width > 0
    ensures OrNumbers(x, y, width)
            == (if x % 2 == 1 || y % 2 == 1 then 1 else 0) + 2 * OrNumbers(x / 2, y / 2, width - 1)
  {
    var z := OrBits(FromNat(x, width), FromNat(y, width));
    assert z[1..] == OrBits(FromNat(x / 2, width - 1), FromNat(y / 2, width - 1));
  }

  lemma {:induction false} OrZero(x: nat, width: nat)
    requires x < TwoTo(width)
    ensures OrNumbers(x, 0, width) == x
  {
    if width > 0 {
      OrNumbersStep(x, 0, width);
      OrZero(x / 2, width - 1);
    }
  }

  lemma TwiceAsMuch(q: nat, k: nat)
    requires k > 0
    ensures q * TwoTo(k) == 2 * (q * TwoTo(k - 1))
  {
  }

  lemma EvenPlus(half: nat, y: nat)
    ensures (2 * half) % 2 == 0 && 2 * half / 2 == half && 2 * (half + y / 2) + y % 2 == 2 * half + y
  {
  }

  /** Numbers that share no bit, as one is a multiple of a power and the other below it, are ORed by adding. */
  lemma {:induction false} OrIsSum(q: nat, k: nat, x: nat, y: nat, width: nat)
    requires k <= width && y < TwoTo(k) && x == q * TwoTo(k) < TwoTo(width)
    ensures OrNumbers(x, y, width) == x + y
    decreases k
  {
    if k == 0 {
      OrZero(x, width);
    } else {
      var half := q * TwoTo(k - 1);
      TwiceAsMuch(q, k);
      OrNumbersStep(x, y, width);
      EvenPlus(half, y);
      OrIsSum(q, k - 1, half, y / 2, width - 1);
    }
  }

  function Zeros(n: nat): (b: Bits)
    ensures |b| == n
  {
    seq(n, i => false)
  }

  /** bits << lo, for a value of `width` bits. */
  function Place(n: nat, lo: nat, width: nat): Code
    requires lo + width <= 32
  {
    Zeros(lo) + FromNat(n, width) + Zeros(32 - lo - width)
  }

  /** (word >> lo) & (1<<width - 1) */
  function Extract(w: Code, lo: nat, width: nat): nat
    requires lo + width <= 32
  {
    ToNat(w[lo..lo + width])
  }

  function Or(x: Code, y: Code): Code {
    seq(32, i requires 0 <= i < 32 => x[i] || y[i])
  }

  predicate InField(i: nat, lo: nat, width: nat) {
    lo <= i < lo + width
  }

  predicate ZeroIn(w: Code, lo: nat, width: nat)
    requires lo + width <= 32
  {
    forall i: nat :: i < 32 && InField(i, lo, width) ==> !w[i]
  }

  predicate ZeroOutside(w: Code, lo: nat, width: nat) {
    forall i: nat :: i < 32 && !InField(i, lo, width) ==> !w[i]
  }

  lemma PlaceStaysInside(n: nat, lo: nat, width: nat)
    requires lo + width <= 32
    ensures ZeroOutside(Place(n, lo, width), lo, width)
  {
  }

  /** A value ORed into a zeroed field is read back from it. */
  lemma PlaceExtract(w: Code, n: nat, lo: nat, width: nat)
    requires lo + width <= 32 && n < TwoTo(width) && ZeroIn(w, lo, width)
    ensures Extract(Or(w, Place(n, lo, width)), lo, width) == n
  {
    ToNatOfFromNat(n, width);
    var r := Or(w, Place(n, lo, width));
    forall i: nat | i < width ensures r[lo + i] == FromNat(n, width)[i] {
      assert InField(lo + i, lo, width);
    }
    assert r[lo..lo + width] == FromNat(n, width);
  }

  lemma ExtractBound(w: Code, lo: nat, width: nat)
    requires lo + width <= 32
    ensures Extract(w, lo, width) < TwoTo(width)
  {
    ToNatBound(w[lo..lo + width]);
  }

  // ---------------------------------------------------------------- two's complement

  /** signExtend of an n-bit value. */
  function SignExtend(n: nat, width: nat): int
    requires width > 0
  {
    if n >= TwoTo(width - 1) then n - TwoTo(width) else n
  }

  /** uint32(x) & (1<<width - 1) */
  function LowBits(x: int, width: nat): (n: nat)
    ensures n < TwoTo(width)
  {
    x % TwoTo(width)
  }

  /** A number in the signed range of a field survives the field. */
  lemma SignExtendLowBits(x: int, width: nat)
    requires width > 0 && 0 - TwoTo(width - 1) <= x < TwoTo(width - 1)
    ensures SignExtend(LowBits(x, width), width) == x
  {
    var p := TwoTo(width);
    if x < 0 {
      ModAdd(x, p);
    } else {
      ModSmall(x, p);
    }
  }

  lemma ModSmall(x: int, p: int)
    requires 0 <= x < p
    ensures x % p == x
  {
  }

  lemma TimesAtLeast(p: int, q: int)
    requires p > 0
    ensures q >= 0 ==> p * q >= 0
    ensures q <= -2 ==> p * q <= -2 * p
  {
    if q <= -2 {
      assert p * (-2 - q) >= 0;
    }
  }

  lemma ModAdd(x: int, p: int)
    requires p > 0 && 0 - p <= x < 0
    ensures x % p == x + p
  {
    var q := x / p;
    assert x == p * q + x % p;
    TimesAtLeast(p, q);
    assert q == -1;
  }

  lemma SignExtendRange(n: nat, width: nat)
    requires width > 0 && n < TwoTo(width)
    ensures 0 - TwoTo(width - 1) <= SignExtend(n, width) < TwoTo(width - 1)
  {
  }

  lemma SignExtendInjective(m: nat, n: nat, width: nat)
    requires width > 0 && m < TwoTo(width) && n < TwoTo(width) && SignExtend(m, width) == SignExtend(n, width)
    ensures m == n
  {
  }

  // ---------------------------------------------------------------- fields as numbers

  lemma HalfOfQuotient(x: int, p: int)
    requires p > 0
    ensures x / 2 / p == x / (2 * p)
  {
    var q, r := x / 2 / p, x / 2 % p;
    assert x / 2 == p * q + r;
    assert x == 2 * p * q + (2 * r + x % 2);
    QuotientIs(x, 2 * p, q, 2 * r + x % 2);
  }

  lemma QuotientIs(x: int, d: int, q: int, r: int)
    requires d > 0 && x == d * q + r && 0 <= r < d
    ensures x / d == q
  {
    var k := x / d - q;
    assert x == d * (x / d) + x % d;
    assert d * k == d * (x / d) - d * q;
    if k > 0 { TimesPositive(d, k); }
    if k < 0 { TimesPositive(d, -k); }
  }

  lemma TimesPositive(d: int, k: int)
    requires d > 0 && k > 0
    ensures d * k >= d && d * -k <= -d
  {
    TimesAtLeast(d, k - 1);
    assert d * (k - 1) == d * k - d;
    assert d * -k == 0 - d * k;
  }

  /** b >> k */
  lemma {:induction false} DropIsQuotient(b: Bits, k: nat)
    requires k <= |b|
    ensures ToNat(b[k..]) == ToNat(b) / TwoTo(k)
    decreases k
  {
    if k > 0 {
      assert b[1..][k - 1..] == b[k..];
      DropIsQuotient(b[1..], k - 1);
      HalfOfQuotient(ToNat(b), TwoTo(k - 1));
    }
  }

  lemma DoubledRemainder(low: nat, x: nat, p: int)
    requires low < 2 && p > 0
    ensures (low + 2 * x) % (2 * p) == low + 2 * (x % p)
  {
    var q := x / p;
    assert x == p * q + x % p;
    assert low + 2 * x == 2 * p * q + (low + 2 * (x % p));
    QuotientIs(low + 2 * x, 2 * p, q, low + 2 * (x % p));
    assert low + 2 * x == 2 * p * ((low + 2 * x) / (2 * p)) + (low + 2 * x) % (2 * p);
  }

  /** b & (1<<k - 1) */
  lemma {:induction false} TakeIsRemainder(b: Bits, k: nat)
    requires k <= |b|
    ensures ToNat(b[..k]) == ToNat(b) % TwoTo(k)
    decreases k
  {
    if k > 0 {
      assert b[..k][1..] == b[1..][..k - 1];
      TakeIsRemainder(b[1..], k - 1);
      DoubledRemainder(if b[0] then 1 else 0, ToNat(b[1..]), TwoTo(k - 1));
    }
  }

  /** A field of a word, of the word as a number. */
  lemma ExtractIs(w: Code, lo: nat, width: nat)
    requires lo + width <= 32
    ensures Extract(w, lo, width) == ToNat(w) / TwoTo(lo) % TwoTo(width)
  {
    assert w[lo..][..width] == w[lo..lo + width];
    DropIsQuotient(w, lo);
    TakeIsRemainder(w[lo..], width);
  }
}
