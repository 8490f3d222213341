/** SHA-256 as FIPS 180-4 defines it: the functions of section 4.1.2 and the rounds of section 6.2.2. */
module Sha256 {

  // ROTR^n of section 3.2, for each n that occurs.
  function Rotr2(x: bv32): bv32 { (x >> 2) | (x << 30) }
  function Rotr6(x: bv32): bv32 { (x >> 6) | (x << 26) }
  function Rotr11(x: bv32): bv32 { (x >> 11) | (x << 21) }
  function Rotr13(x: bv32): bv32 { (x >> 13) | (x << 19) }
  function Rotr22(x: bv32): bv32 { (x >> 22) | (x << 10) }
  function Rotr25(x: bv32): bv32 { (x >> 25) | (x << 7) }

  function Xor32(x: bv32, y: bv32): bv32 { x ^ y }

  /** Addition modulo 2^32 (section 2.2.1). */
  function Add(x: bv32, y: bv32): bv32 { x + y }

  function Ch(x: bv32, y: bv32, z: bv32): bv32 { (x & y) ^ (!x & z) }

  function Maj(x: bv32, y: bv32, z: bv32): bv32 { (x & y) ^ (x & z) ^ (y & z) }

  function Sigma0(x: bv32): bv32 { Xor32(Xor32(Rotr2(x), Rotr13(x)), Rotr22(x)) }

  function Sigma1(x: bv32): bv32 { Xor32(Xor32(Rotr6(x), Rotr11(x)), Rotr25(x)) }

  /** The eight working variables. */
  datatype Vars = Vars(a: bv32, b: bv32, c: bv32, d: bv32, e: bv32, f: bv32, g: bv32, h: bv32)

  /** One step of the loop over t in section 6.2.2, with constant k and schedule word w. */
  function Round(v: Vars, k: bv32, w: bv32): Vars {
    var t1 := Add(Add(Add(Add(v.h, Sigma1(v.e)), Ch(v.e, v.f, v.g)), k), w);
    var t2 := Add(Sigma0(v.a), Maj(v.a, v.b, v.c));
    Vars(Add(t1, t2), v.a, v.b, v.c, Add(v.d, t1), v.e, v.f, v.g)
  }

  /** The steps t = 0 .. n-1. */
  function Rounds(v: Vars, k: seq<bv32>, w: seq<bv32>, n: nat): Vars
    requires n <= |k| && n <= |w|
  {
    if n == 0 then v else Round(Rounds(v, k, w, n - 1), k[n - 1], w[n - 1])
  }
}
