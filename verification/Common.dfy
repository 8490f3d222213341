/** What several parts of the project share: optional values, bits, lists without repetition, and int64
    arithmetic. */
module Common {

  datatype Option<+T> = None | Some(value: T)

  /** Least significant bit first. */
  type Bits = seq<bool>

  predicate Distinct<T(==)>(s: seq<T>) {
    forall i: nat, j: nat :: i < j < |s| ==> s[i] != s[j]
  }

  /** out has, in their order, the elements at the rising places, and those are all that are to be kept. */
  ghost predicate PicksAt<T>(s: seq<T>, keep: T -> bool, out: seq<T>, places: seq<nat>) {
    |places| == |out|
    && (forall i, j :: 0 <= i < j < |places| ==> places[i] < places[j])
    && (forall i :: 0 <= i < |places| ==> places[i] < |s| && out[i] == s[places[i]])
    && (forall k: nat :: k < |s| ==> (k in places <==> keep(s[k])))
  }

  ghost predicate Picks<T>(s: seq<T>, keep: T -> bool, out: seq<T>) {
    exists places :: PicksAt(s, keep, out, places)
  }

  lemma SplitSlices<T>(s: seq<T>, k: nat)
    requires 0 < k <= |s|
    ensures s[..k][0] == s[0] && s[..k][1..] == s[1..][..k - 1] && s[1..][k - 1..] == s[k..]
  {
  }

  lemma Associative<T>(a: seq<T>, b: seq<T>, c: seq<T>)
    ensures (a + b) + c == a + (b + c)
  {
  }

  lemma AddNothing<T>(s: seq<T>)
    ensures s + [] == s
  {
  }

  lemma PicksOneMore<T>(s: seq<T>, keep: T -> bool, out: seq<T>, places: seq<nat>)
    requires s != [] && PicksAt(s[..|s| - 1], keep, out, places)
    ensures var n := |s| - 1;
            PicksAt(s, keep, out + (if keep(s[n]) then [s[n]] else []), places + (if keep(s[n]) then [n] else []))
  {
    var n := |s| - 1;
    var more := places + (if keep(s[n]) then [n] else []);
    assert n !in places;
    forall k: nat | k < |s| ensures k in more <==> keep(s[k]) {
      assert k < n ==> s[..n][k] == s[k];
    }
  }

  /** The last element is the last one picked, or is not picked. */
  lemma PicksLast<T>(s: seq<T>, keep: T -> bool, out: seq<T>, places: seq<nat>)
    requires s != [] && PicksAt(s, keep, out, places)
    ensures var n, k := |s| - 1, |out| - 1;
            if keep(s[n]) then out != [] && out == out[..k] + [s[n]] && PicksAt(s[..n], keep, out[..k], places[..k])
            else PicksAt(s[..n], keep, out, places)
  {
    if keep(s[|s| - 1]) {
      LastPicked(s, keep, out, places);
    } else {
      assert |s| - 1 !in places;
    }
  }

  lemma LastPicked<T>(s: seq<T>, keep: T -> bool, out: seq<T>, places: seq<nat>)
    requires s != [] && PicksAt(s, keep, out, places) && keep(s[|s| - 1])
    ensures var n, k := |s| - 1, |out| - 1;
            out != [] && out == out[..k] + [s[n]] && PicksAt(s[..n], keep, out[..k], places[..k])
  {
    var n, k := |s| - 1, |out| - 1;
    assert n in places;
    assert places[k] == n;
    assert out == out[..k] + [out[k]];
    forall i: nat | i < n ensures i in places[..k] <==> keep(s[..n][i]) {
      assert places == places[..k] + [n];
    }
  }

  type Int64 = x: int | -0x8000_0000_0000_0000 <= x < 0x8000_0000_0000_0000

  const TWO_64 := 0x1_0000_0000_0000_0000

  /** int64 arithmetic wraps; sums and differences of two int64 need one turn at most. */
  function Wrap(x: int): Int64
    requires -TWO_64 <= x < TWO_64
  {
    if x >= 0x8000_0000_0000_0000 then x - TWO_64 else if x < -0x8000_0000_0000_0000 then x + TWO_64 else x
  }
}
