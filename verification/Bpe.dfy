/** Byte-pair encoding (tools/comment-bench/main.go): every pass rewrites the buffer in place, and the passes can
    be undone. */
module Bpe {
  import opened Bytes

  type Pair = (Byte, Byte)

  // ---------------------------------------------------------------- one pass, on values

  predicate StartsWith(s: seq<Byte>, p: Pair) {
    |s| >= 2 && s[0] == p.0 && s[1] == p.1
  }

  /** p replaced by z from left to right, without overlaps. */
  function Substitute(s: seq<Byte>, p: Pair, z: Byte): seq<Byte> {
    if s == [] then []
    else if StartsWith(s, p) then [z] + Substitute(s[2..], p, z)
    else [s[0]] + Substitute(s[1..], p, z)
  }

  /** Every z replaced by the pair p. */
  function Expand(s: seq<Byte>, z: Byte, p: Pair): seq<Byte> {
    if s == [] then [] else (if s[0] == z then [p.0, p.1] else [s[0]]) + Expand(s[1..], z, p)
  }

  /** A replacement byte that does not occur can be expanded again. */
  lemma {:induction false} ExpandUndoesSubstitute(s: seq<Byte>, p: Pair, z: Byte)
    requires z !in s
    ensures Expand(Substitute(s, p, z), z, p) == s
  {
    if s == [] {
    } else if StartsWith(s, p) {
      ExpandUndoesSubstitute(s[2..], p, z);
      assert Substitute(s, p, z)[1..] == Substitute(s[2..], p, z);
      assert s == [p.0, p.1] + s[2..];
    } else {
      ExpandUndoesSubstitute(s[1..], p, z);
      assert Substitute(s, p, z)[1..] == Substitute(s[1..], p, z);
      assert s == [s[0]] + s[1..];
    }
  }

  /** The pair occurs at i. */
  predicate OccursAt(s: seq<Byte>, p: Pair, i: nat) {
    i + 1 < |s| && s[i] == p.0 && s[i + 1] == p.1
  }

  /** How often the pair occurs among the first n positions, overlaps included. */
  function Occurrences(s: seq<Byte>, p: Pair, n: nat): nat
    requires n <= |s|
  {
    if n == 0 then 0 else Occurrences(s, p, n - 1) + (if OccursAt(s, p, n - 1) then 1 else 0)
  }

  lemma {:induction false} SomeOccurrence(s: seq<Byte>, p: Pair, n: nat) returns (i: nat)
    requires n <= |s| && Occurrences(s, p, n) > 0
    ensures i < n && OccursAt(s, p, i)
  {
    i := n - 1;
    if !OccursAt(s, p, i) {
      i := SomeOccurrence(s, p, n - 1);
    }
  }

  /** A pass over a buffer with the pair in it makes it shorter; no pass makes it longer. */
  lemma {:induction false} SubstituteShortens(s: seq<Byte>, p: Pair, z: Byte)
    ensures |Substitute(s, p, z)| <= |s|
    ensures (exists i: nat :: OccursAt(s, p, i)) ==> |Substitute(s, p, z)| < |s|
    ensures forall b :: b in Substitute(s, p, z) ==> b in s || b == z
    decreases |s|
  {
    if s == [] {
    } else if StartsWith(s, p) {
      SubstituteShortens(s[2..], p, z);
    } else {
      SubstituteShortens(s[1..], p, z);
      forall i: nat | OccursAt(s, p, i) ensures |Substitute(s, p, z)| < |s| {
        assert i > 0 && OccursAt(s[1..], p, i - 1);
      }
    }
  }

  // ---------------------------------------------------------------- one pass, in place

  lemma PairStep(s: seq<Byte>, i: nat, p: Pair, z: Byte)
    requires OccursAt(s, p, i)
    ensures Substitute(s[i..], p, z) == [z] + Substitute(s[i + 2..], p, z)
  {
    assert s[i..][2..] == s[i + 2..];
  }

  lemma ByteStep(s: seq<Byte>, i: nat, p: Pair, z: Byte)
    requires i < |s| && !OccursAt(s, p, i)
    ensures Substitute(s[i..], p, z) == [s[i]] + Substitute(s[i + 1..], p, z)
  {
    assert s[i..][1..] == s[i + 1..];
  }

  /** What has been written and what is still to come make up the whole result. */
  predicate Halfway(was: seq<Byte>, p: Pair, z: Byte, out: seq<Byte>, i: nat)
    requires i <= |was|
  {
    out + Substitute(was[i..], p, z) == Substitute(was, p, z)
  }

  lemma HalfwayStep(was: seq<Byte>, p: Pair, z: Byte, out: seq<Byte>, i: nat)
    requires i < |was| && Halfway(was, p, z, out, i)
    ensures if OccursAt(was, p, i) then Halfway(was, p, z, out + [z], i + 2)
            else Halfway(was, p, z, out + [was[i]], i + 1)
  {
    if OccursAt(was, p, i) {
      PairStep(was, i, p, z);
      OneMore(out, z, Substitute(was[i + 2..], p, z));
    } else {
      ByteStep(was, i, p, z);
      OneMore(out, was[i], Substitute(was[i + 1..], p, z));
    }
  }

  lemma OneMore(out: seq<Byte>, b: Byte, rest: seq<Byte>)
    ensures (out + [b]) + rest == out + ([b] + rest)
  {
  }

  /** The rewrite through out := buf[:0]: what is written never overtakes what is still to be read. */
  method ReplaceInPlace(buf: array<Byte>, n: nat, p: Pair, z: Byte) returns (m: nat)
    requires n <= buf.Length
    modifies buf
    ensures m <= n && buf[..m] == Substitute(old(buf[..n]), p, z)
  {
    ghost var was := buf[..n];
    ghost var out: seq<Byte> := [];
    var i := 0;
    m := 0;
    while i < n
      invariant m <= i <= n && |out| == m
      invariant forall k: nat :: i <= k < n ==> buf[k] == was[k]
      invariant forall k: nat :: k < m ==> buf[k] == out[k]
      invariant Halfway(was, p, z, out, i)
    {
      HalfwayStep(was, p, z, out, i);
      if i + 1 < n && buf[i] == p.0 && buf[i + 1] == p.1 {
        buf[m] := z;
        out := out + [z];
        i := i + 2;
      } else {
        buf[m] := buf[i];
        out := out + [was[i]];
        i := i + 1;
      }
      m := m + 1;
    }
    assert was[i..] == [] && out + [] == out;
    assert buf[..m] == out;
  }

  // ---------------------------------------------------------------- choosing the pair

  method CountPairs(buf: array<Byte>, n: nat) returns (freq: map<Pair, nat>)
    requires n <= buf.Length
    ensures forall p: Pair :: (if p in freq then freq[p] else 0) == Occurrences(buf[..n], p, n)
    ensures forall p :: p in freq ==> freq[p] > 0
  {
    freq := map[];
    var i := 0;
    ghost var s := buf[..n];
    while i + 1 < n
      invariant 0 <= i <= n && (n > 0 ==> i < n)
      invariant forall p: Pair :: (if p in freq then freq[p] else 0) == Occurrences(s, p, i)
      invariant forall p :: p in freq ==> freq[p] > 0
    {
      var q := (buf[i], buf[i + 1]);
      freq := freq[q := (if q in freq then freq[q] else 0) + 1];
      i := i + 1;
    }
    if n > 0 {
      assert forall p: Pair :: Occurrences(s, p, n) == Occurrences(s, p, n - 1);
    }
  }

  /** The map is walked in no particular order; ties go to the smaller first byte. */
  method MostFrequent(freq: map<Pair, nat>) returns (best: Pair, count: nat)
    requires freq != map[] && forall p :: p in freq ==> freq[p] > 0
    ensures best in freq && freq[best] == count
    ensures forall p :: p in freq ==> freq[p] < count || (freq[p] == count && best.0 <= p.0)
  {
    best, count := (0, 0), 0;
    var left: set<Pair> := freq.Keys;
    while left != {}
      invariant left <= freq.Keys
      invariant count == 0 ==> left == freq.Keys
      invariant count > 0 ==> best in freq && freq[best] == count
      invariant forall p :: p in freq && p !in left ==> freq[p] < count || (freq[p] == count && best.0 <= p.0)
      decreases left
    {
      var p: Pair :| p in left;
      left := left - {p};
      if freq[p] > count || (freq[p] == count && p.0 < best.0) {
        count := freq[p];
        best := p;
      }
    }
  }

  /** The highest byte not in use, or -1. */
  method FreeByte(inUse: array<bool>) returns (z: int)
    requires inUse.Length == 256
    ensures -1 <= z < 256
    ensures z >= 0 ==> !inUse[z]
    ensures forall b: nat :: z < b < 256 ==> inUse[b]
  {
    z := 255;
    while z >= 0
      invariant -1 <= z < 256
      invariant forall b: nat :: z < b < 256 ==> inUse[b]
    {
      if !inUse[z] { return; }
      z := z - 1;
    }
  }

  // ---------------------------------------------------------------- the whole encoding

  /** The pair table undone, last replacement first. */
  function ExpandAll(s: seq<Byte>, pairs: seq<Pair>, symbols: seq<Byte>): seq<Byte>
    requires |pairs| == |symbols|
    decreases |pairs|
  {
    if pairs == [] then s
    else
      var n := |pairs| - 1;
      ExpandAll(Expand(s, symbols[n], pairs[n]), pairs[..n], symbols[..n])
  }

  /** The bytes in use are those of the data and the replacement bytes chosen so far. */
  ghost predicate UsedExactly(data: seq<Byte>, symbols: seq<Byte>, inUse: array<bool>)
    requires inUse.Length == 256
    reads inUse
  {
    forall b: Byte :: inUse[b] <==> b in data || b in symbols
  }

  method MarkInUse(data: seq<Byte>) returns (inUse: array<bool>)
    ensures fresh(inUse) && inUse.Length == 256 && UsedExactly(data, [], inUse)
  {
    inUse := new bool[256](_ => false);
    var j := 0;
    while j < |data|
      invariant 0 <= j <= |data|
      invariant forall b: Byte :: inUse[b] <==> b in data[..j]
    {
      inUse[data[j]] := true;
      j := j + 1;
    }
    assert data[..j] == data;
  }

  // ---------------------------------------------------------------- what a run is

  /** The pair to replace next: it occurs twice or more, none occurs more often, ties go to the smaller first byte. */
  ghost predicate BestPair(s: seq<Byte>, p: Pair) {
    Occurrences(s, p, |s|) >= 2
    && forall q: Pair ::
         Occurrences(s, q, |s|) < Occurrences(s, p, |s|) || (Occurrences(s, q, |s|) == Occurrences(s, p, |s|)
           && p.0 <= q.0)
  }

  ghost predicate NoPairTwice(s: seq<Byte>) {
    forall q: Pair :: Occurrences(s, q, |s|) < 2
  }

  /** z is the highest byte that neither the data nor the earlier replacements use. */
  ghost predicate HighestFree(data: seq<Byte>, symbols: seq<Byte>, z: Byte) {
    z !in data && z !in symbols && forall b: Byte :: b > z ==> b in data || b in symbols
  }

  /** The buffer after the replacements. */
  function After(data: seq<Byte>, pairs: seq<Pair>, symbols: seq<Byte>): seq<Byte>
    requires |pairs| == |symbols|
    decreases |pairs|
  {
    if pairs == [] then data
    else
      var n := |pairs| - 1;
      Substitute(After(data, pairs[..n], symbols[..n]), pairs[n], symbols[n])
  }

  /** Each pair and each byte was the right choice when its turn came. */
  ghost predicate IsRun(data: seq<Byte>, pairs: seq<Pair>, symbols: seq<Byte>)
    requires |pairs| == |symbols|
    decreases |pairs|
  {
    pairs == [] ||
    var n := |pairs| - 1;
    IsRun(data, pairs[..n], symbols[..n])
    && BestPair(After(data, pairs[..n], symbols[..n]), pairs[n]) && HighestFree(data, symbols[..n], symbols[n])
  }

  /** Why a run ends: the table is full, no byte is free, or no pair is worth replacing. */
  ghost predicate Ends(data: seq<Byte>, pairs: seq<Pair>, symbols: seq<Byte>, out: seq<Byte>, maxPairs: int) {
    |pairs| >= maxPairs || (forall b: Byte :: b in data || b in symbols) || NoPairTwice(out)
  }

  /** Occurrences is the number of places where the pair stands. */
  lemma {:induction false} OccurrencesCount(s: seq<Byte>, p: Pair, n: nat)
    requires n <= |s|
    ensures Occurrences(s, p, n) == |set i: nat | i < n && OccursAt(s, p, i)|
  {
    var places := set i: nat | i < n && OccursAt(s, p, i);
    if n == 0 {
      assert places == {};
    } else {
      OccurrencesCount(s, p, n - 1);
      var before := set i: nat | i < n - 1 && OccursAt(s, p, i);
      assert places == before + if OccursAt(s, p, n - 1) then {n - 1} else {};
    }
  }

  lemma {:induction false} TwoPlaces(s: seq<Byte>, p: Pair, n: nat)
    requires n <= |s|
    ensures Occurrences(s, p, n) >= 2 <==> exists i, j :: 0 <= i < j < n && OccursAt(s, p, i) && OccursAt(s, p, j)
  {
    if n > 0 {
      TwoPlaces(s, p, n - 1);
      if Occurrences(s, p, n - 1) > 0 { var i := SomeOccurrence(s, p, n - 1); }
      if i, j :| 0 <= i < j < n && OccursAt(s, p, i) && OccursAt(s, p, j) { OneAtLeast(s, p, n - 1, i); }
    }
  }

  lemma {:induction false} OneAtLeast(s: seq<Byte>, p: Pair, n: nat, i: nat)
    requires n <= |s| && i < |s| && OccursAt(s, p, i)
    ensures i < n ==> Occurrences(s, p, n) > 0
  {
    if i < n && i != n - 1 { OneAtLeast(s, p, n - 1, i); }
  }

  lemma SamePair(s: seq<Byte>, i: nat, j: nat)
    requires i < j < |s| - 1 && s[i] == s[j] && s[i + 1] == s[j + 1]
    ensures !NoPairTwice(s)
  {
    var q: Pair := (s[i], s[i + 1]);
    TwoPlaces(s, q, |s|);
    assert OccursAt(s, q, i) && OccursAt(s, q, j);
    assert Occurrences(s, q, |s|) >= 2;
  }

  /** No pair is worth replacing when all adjacent pairs differ. */
  lemma NoPairTwiceMeans(s: seq<Byte>)
    ensures NoPairTwice(s) <==>
            forall i, j :: 0 <= i < j < |s| - 1 ==> s[i] != s[j] || s[i + 1] != s[j + 1]
  {
    if i, j :| 0 <= i < j < |s| - 1 && s[i] == s[j] && s[i + 1] == s[j + 1] {
      SamePair(s, i, j);
    } else {
      forall q: Pair ensures Occurrences(s, q, |s|) < 2 { TwoPlaces(s, q, |s|); }
    }
  }

  /** Replacing goes from left to right: the first pair goes first, and what follows it is replaced on its own. */
  lemma {:induction false} FirstGoesFirst(s: seq<Byte>, p: Pair, z: Byte, i: nat)
    requires i < |s| && OccursAt(s, p, i) && forall j: nat :: j < i ==> !OccursAt(s, p, j)
    ensures i + 2 <= |s| && Substitute(s, p, z) == s[..i] + [z] + Substitute(s[i + 2..], p, z)
  {
    if i > 0 {
      assert !OccursAt(s, p, 0);
      forall j: nat | j < i - 1 ensures !OccursAt(s[1..], p, j) { assert !OccursAt(s, p, j + 1); }
      FirstGoesFirst(s[1..], p, z, i - 1);
      assert s[1..][i + 1..] == s[i + 2..] && s[..i] == [s[0]] + s[1..][..i - 1];
    }
  }

  lemma {:induction false} NothingToReplace(s: seq<Byte>, p: Pair, z: Byte)
    requires forall j: nat :: j < |s| ==> !OccursAt(s, p, j)
    ensures Substitute(s, p, z) == s
  {
    if s != [] {
      assert !OccursAt(s, p, 0);
      forall j: nat | j < |s[1..]| ensures !OccursAt(s[1..], p, j) { assert !OccursAt(s, p, j + 1); }
      NothingToReplace(s[1..], p, z);
    }
  }

  lemma RunMore(data: seq<Byte>, pairs: seq<Pair>, symbols: seq<Byte>, p: Pair, z: Byte)
    requires |pairs| == |symbols| && IsRun(data, pairs, symbols)
    requires BestPair(After(data, pairs, symbols), p) && HighestFree(data, symbols, z)
    ensures IsRun(data, pairs + [p], symbols + [z])
    ensures After(data, pairs + [p], symbols + [z]) == Substitute(After(data, pairs, symbols), p, z)
  {
    assert (pairs + [p])[..|pairs|] == pairs && (symbols + [z])[..|symbols|] == symbols;
  }

  /** The pair to replace next and a byte for it, if replacing is of use. */
  method Choose(buf: array<Byte>, n: nat, inUse: array<bool>, ghost data: seq<Byte>, ghost symbols: seq<Byte>)
    returns (ok: bool, best: Pair, z: Byte)
    requires n <= buf.Length && inUse.Length == 256 && UsedExactly(data, symbols, inUse)
    ensures ok ==> BestPair(buf[..n], best) && HighestFree(data, symbols, z)
    ensures !ok ==> (forall b: Byte :: b in data || b in symbols) || NoPairTwice(buf[..n])
  {
    ok, best, z := false, (0, 0), 0;
    var freq := CountPairs(buf, n);
    if freq == map[] {
      assert forall p: Pair :: p !in freq;
      return;
    }
    var count;
    best, count := MostFrequent(freq);
    assert forall p: Pair :: Occurrences(buf[..n], p, n) == if p in freq then freq[p] else 0;
    if count < 2 { return; }
    var free := FreeByte(inUse);
    if free < 0 { return; }
    ok, z := true, free;
  }

  /**
   * bpeCompress, which also hands out the rewritten buffer and the replacement bytes it chose: a run by the rules,
   * ended for one of the three reasons. Whichever of the best pairs is picked each time, expanding in reverse
   * rebuilds the data; each pass saves at least one byte of buffer.
   */
  method BpeCompress(data: seq<Byte>, maxPairs: int)
    returns (size: nat, pairs: seq<Pair>, out: seq<Byte>, symbols: seq<Byte>)
    ensures |pairs| == |symbols| && |pairs| <= (if maxPairs > 0 then maxPairs else 0)
    ensures IsRun(data, pairs, symbols) && out == After(data, pairs, symbols)
    ensures Ends(data, pairs, symbols, out, maxPairs)
    ensures ExpandAll(out, pairs, symbols) == data
    ensures size == 1 + 2 * |pairs| + |out| && |out| + |pairs| <= |data|
  {
    var buf := new Byte[|data|](i requires 0 <= i < |data| => data[i]);
    var n: nat := |data|;
    assert buf[..n] == data;
    var inUse := MarkInUse(data);
    pairs, symbols := [], [];
    while |pairs| < maxPairs
      invariant n <= buf.Length && |pairs| == |symbols| && |pairs| <= (if maxPairs > 0 then maxPairs else 0)
      invariant UsedExactly(data, symbols, inUse)
      invariant IsRun(data, pairs, symbols) && buf[..n] == After(data, pairs, symbols)
    {
      var ok, best, z := Choose(buf, n, inUse, data, symbols);
      if !ok { break; }
      RunMore(data, pairs, symbols, best, z);
      inUse[z] := true;
      pairs, symbols := pairs + [best], symbols + [z];
      n := ReplaceInPlace(buf, n, best, z);
    }
    out := buf[..n];
    size := 1 + 2 * |pairs| + n;
    RunIsUndone(data, pairs, symbols);
  }

  /** The data never holds a replacement byte before its turn. */
  lemma {:induction false} AfterHolds(data: seq<Byte>, pairs: seq<Pair>, symbols: seq<Byte>)
    requires |pairs| == |symbols|
    ensures forall b :: b in After(data, pairs, symbols) ==> b in data || b in symbols
    decreases |pairs|
  {
    if pairs != [] {
      var n := |pairs| - 1;
      AfterHolds(data, pairs[..n], symbols[..n]);
      SubstituteShortens(After(data, pairs[..n], symbols[..n]), pairs[n], symbols[n]);
    }
  }

  /** Every run can be undone, and every replacement saves at least one byte of buffer. */
  lemma {:induction false} RunIsUndone(data: seq<Byte>, pairs: seq<Pair>, symbols: seq<Byte>)
    requires |pairs| == |symbols| && IsRun(data, pairs, symbols)
    ensures ExpandAll(After(data, pairs, symbols), pairs, symbols) == data
    ensures |After(data, pairs, symbols)| + |pairs| <= |data|
    decreases |pairs|
  {
    if pairs != [] {
      var n := |pairs| - 1;
      var before := After(data, pairs[..n], symbols[..n]);
      RunIsUndone(data, pairs[..n], symbols[..n]);
      AfterHolds(data, pairs[..n], symbols[..n]);
      ExpandUndoesSubstitute(before, pairs[n], symbols[n]);
      SubstituteShortens(before, pairs[n], symbols[n]);
      var i := SomeOccurrence(before, pairs[n], |before|);
    }
  }

  // ---------------------------------------------------------------- decoding from the pair table alone

  /** The replacement bytes of data that uses no high bytes. */
  function Usual(n: nat): (symbols: seq<Byte>)
    requires n <= 256
    ensures |symbols| == n
  {
    seq(n, i requires 0 <= i < n => 255 - i)
  }

  ghost predicate AllHighest(data: seq<Byte>, symbols: seq<Byte>) {
    forall i: nat :: i < |symbols| ==> HighestFree(data, symbols[..i], symbols[i])
  }

  lemma HighestMore(data: seq<Byte>, before: seq<Byte>, z: Byte)
    requires AllHighest(data, before) && HighestFree(data, before, z)
    ensures AllHighest(data, before + [z])
  {
    var symbols := before + [z];
    forall i: nat | i < |symbols| ensures HighestFree(data, symbols[..i], symbols[i]) {
      assert symbols[..i] == before[..i];
    }
  }

  lemma {:induction false} RunIsHighest(data: seq<Byte>, pairs: seq<Pair>, symbols: seq<Byte>)
    requires |pairs| == |symbols| && IsRun(data, pairs, symbols)
    ensures AllHighest(data, symbols)
    decreases |pairs|
  {
    if pairs != [] {
      var n := |pairs| - 1;
      RunIsHighest(data, pairs[..n], symbols[..n]);
      HighestMore(data, symbols[..n], symbols[n]);
      assert symbols[..n] + [symbols[n]] == symbols;
    }
  }

  ghost predicate Falling(symbols: seq<Byte>) {
    forall i: nat, j: nat :: i < j < |symbols| ==> symbols[j] < symbols[i]
  }

  lemma HighestFalls(data: seq<Byte>, symbols: seq<Byte>)
    requires AllHighest(data, symbols)
    ensures Falling(symbols) && |symbols| <= 256
  {
    forall i: nat, j: nat | i < j < |symbols| ensures symbols[j] < symbols[i] {
      assert HighestFree(data, symbols[..i], symbols[i]) && HighestFree(data, symbols[..j], symbols[j]);
      assert symbols[..j][i] == symbols[i] && symbols[..i] <= symbols[..j];
    }
    if symbols != [] { FallingGap(symbols, 0, |symbols| - 1); }
  }

  lemma {:induction false} FallingGap(symbols: seq<Byte>, i: nat, j: nat)
    requires i <= j < |symbols| && Falling(symbols)
    ensures symbols[j] <= symbols[i] - (j - i)
    decreases j - i
  {
    if i < j {
      FallingGap(symbols, i, j - 1);
    }
  }

  /** No data byte is one of the n highest. */
  predicate KeepsClear(data: seq<Byte>, n: nat) {
    forall b :: b in data ==> b < 256 - n
  }

  /** The replacement bytes are the usual ones exactly when the data keeps clear of those. */
  lemma SymbolsAreUsual(data: seq<Byte>, pairs: seq<Pair>, symbols: seq<Byte>)
    requires |pairs| == |symbols| && IsRun(data, pairs, symbols)
    ensures |symbols| <= 256
    ensures symbols == Usual(|symbols|) <==> KeepsClear(data, |symbols|)
  {
    RunIsHighest(data, pairs, symbols);
    HighestFalls(data, symbols);
    if KeepsClear(data, |symbols|) {
      ClearAreUsual(data, symbols);
    }
    UsualAreClear(data, symbols);
  }

  lemma UsualAreClear(data: seq<Byte>, symbols: seq<Byte>)
    requires AllHighest(data, symbols) && |symbols| <= 256
    ensures symbols == Usual(|symbols|) ==> KeepsClear(data, |symbols|)
  {
    forall b | b in data ensures symbols == Usual(|symbols|) ==> b < 256 - |symbols| {
      var i := 255 - b;
      assert i < |symbols| ==> HighestFree(data, symbols[..i], symbols[i]);
    }
  }

  lemma ClearAreUsual(data: seq<Byte>, symbols: seq<Byte>)
    requires |symbols| <= 256 && KeepsClear(data, |symbols|) && AllHighest(data, symbols) && Falling(symbols)
    ensures symbols == Usual(|symbols|)
  {
    forall i: nat | i < |symbols| ensures symbols[i] == 255 - i { UsualAt(data, symbols, i); }
  }

  lemma {:induction false} UsualAt(data: seq<Byte>, symbols: seq<Byte>, i: nat)
    requires i < |symbols| <= 256 && KeepsClear(data, |symbols|)
    requires AllHighest(data, symbols) && Falling(symbols)
    ensures symbols[i] == 255 - i
  {
    FallingGap(symbols, 0, i);
    var b: Byte := 255 - i;
    assert HighestFree(data, symbols[..i], symbols[i]);
    if b in symbols[..i] {
      var k: nat :| k < i && symbols[k] == b;
      UsualAt(data, symbols, k);
    }
  }

  /** A byte that is no replacement byte of the table survives the expansion. */
  lemma {:induction false} ExpandKeeps(s: seq<Byte>, z: Byte, p: Pair, b: Byte)
    requires b in s && b != z
    ensures b in Expand(s, z, p)
  {
    if s[0] != b {
      ExpandKeeps(s[1..], z, p, b);
    }
  }

  lemma {:induction false} ExpandAllKeeps(s: seq<Byte>, pairs: seq<Pair>, symbols: seq<Byte>, b: Byte)
    requires |pairs| == |symbols| && b in s && b !in symbols
    ensures b in ExpandAll(s, pairs, symbols)
    decreases |pairs|
  {
    if pairs != [] {
      var n := |pairs| - 1;
      ExpandKeeps(s, symbols[n], pairs[n], b);
      ExpandAllKeeps(Expand(s, symbols[n], pairs[n]), pairs[..n], symbols[..n], b);
    }
  }

  lemma {:induction false} SubstituteWrites(s: seq<Byte>, p: Pair, z: Byte, i: nat)
    requires OccursAt(s, p, i)
    ensures z in Substitute(s, p, z)
    decreases |s|
  {
    if !StartsWith(s, p) {
      assert OccursAt(s[1..], p, i - 1);
      SubstituteWrites(s[1..], p, z, i - 1);
    }
  }

  /**
   * The pair table, expanded with the usual replacement bytes, gives the data back exactly when the data keeps clear
   * of as many of the highest bytes as there are pairs.
   */
  lemma TableDecodes(data: seq<Byte>, pairs: seq<Pair>, symbols: seq<Byte>)
    requires |pairs| == |symbols| && IsRun(data, pairs, symbols)
    ensures |pairs| <= 256
    ensures ExpandAll(After(data, pairs, symbols), pairs, Usual(|pairs|)) == data
            <==> KeepsClear(data, |pairs|)
  {
    var n := |pairs|;
    SymbolsAreUsual(data, pairs, symbols);
    RunIsHighest(data, pairs, symbols);
    HighestFalls(data, symbols);
    if symbols == Usual(n) {
      RunIsUndone(data, pairs, symbols);
    } else {
      UnusualLast(symbols);
      LastWritten(data, pairs, symbols);
      ExpandAllKeeps(After(data, pairs, symbols), pairs, Usual(n), symbols[n - 1]);
    }
  }

  /** The last replacement byte is in the output, and was not in the data. */
  lemma LastWritten(data: seq<Byte>, pairs: seq<Pair>, symbols: seq<Byte>)
    requires |pairs| == |symbols| > 0 && IsRun(data, pairs, symbols)
    ensures symbols[|symbols| - 1] in After(data, pairs, symbols) && symbols[|symbols| - 1] !in data
  {
    var n := |pairs| - 1;
    var before := After(data, pairs[..n], symbols[..n]);
    assert HighestFree(data, symbols[..n], symbols[n]);
    var i := SomeOccurrence(before, pairs[n], |before|);
    SubstituteWrites(before, pairs[n], symbols[n], i);
  }

  /** Falling bytes that are not the usual ones end below them. */
  lemma UnusualLast(symbols: seq<Byte>)
    requires 0 < |symbols| <= 256 && symbols != Usual(|symbols|)
    requires Falling(symbols)
    ensures symbols[|symbols| - 1] !in Usual(|symbols|)
  {
    var n := |symbols|;
    if symbols[n - 1] >= 256 - n {
      forall i: nat | i < n ensures symbols[i] == 255 - i {
        FallingGap(symbols, i, n - 1);
        FallingGap(symbols, 0, i);
      }
    }
  }

  lemma CountInSix(s: seq<Byte>, q: Pair)
    requires |s| == 6
    ensures Occurrences(s, q, 6)
            == (if OccursAt(s, q, 0) then 1 else 0) + (if OccursAt(s, q, 1) then 1
              else 0) + (if OccursAt(s, q, 2) then 1 else 0)
               + (if OccursAt(s, q, 3) then 1 else 0) + (if OccursAt(s, q, 4) then 1 else 0)
  {
    assert Occurrences(s, q, 2) == Occurrences(s, q, 1) + (if OccursAt(s, q, 1) then 1 else 0);
    assert Occurrences(s, q, 4) == Occurrences(s, q, 3) + (if OccursAt(s, q, 3) then 1 else 0);
  }

  /** Nothing but p occurs twice in either input. */
  lemma BestOfSix(s: seq<Byte>, p: Pair)
    requires p == (97, 98) && (s == [97, 98, 97, 98, 254, 254] || s == [255, 255, 97, 98, 97, 98])
    ensures BestPair(s, p)
  {
    CountInSix(s, p);
    forall q: Pair ensures Occurrences(s, q, 6) < 2 || q == p {
      CountInSix(s, q);
    }
  }

  lemma FourApart(s: seq<Byte>)
    requires s == [255, 255, 254, 254]
    ensures NoPairTwice(s)
  {
    forall q: Pair ensures Occurrences(s, q, 4) < 2 {
      assert Occurrences(s, q, 2) == Occurrences(s, q, 1) + (if OccursAt(s, q, 1) then 1 else 0);
      assert Occurrences(s, q, 4) == Occurrences(s, q, 3) + (if OccursAt(s, q, 3) then 1 else 0);
    }
  }

  /**
   * Without that condition nothing tells the inputs apart: two whole runs, ended by the same rule however large the
   * table may be, can have the same table and the same output (254 is data in the one, 255 in the other).
   */
  lemma TableAloneIsAmbiguous(maxPairs: int)
    requires maxPairs >= 1
    ensures var pairs: seq<Pair> := [(97, 98)];
            var x: seq<Byte> := [97, 98, 97, 98, 254, 254];
            var y: seq<Byte> := [255, 255, 97, 98, 97, 98];
            x != y && IsRun(x, pairs, [255]) && IsRun(y, pairs, [254])
            && After(x, pairs, [255]) == After(y, pairs, [254]) == [255, 255, 254, 254]
            && Ends(x, pairs, [255], [255, 255, 254, 254], maxPairs)
              && Ends(y, pairs, [254], [255, 255, 254, 254], maxPairs)
  {
    var p: Pair := (97, 98);
    var x: seq<Byte> := [97, 98, 97, 98, 254, 254];
    var y: seq<Byte> := [255, 255, 97, 98, 97, 98];
    ghost var none: seq<Pair> := [];
    BestOfSix(x, p);
    BestOfSix(y, p);
    assert y[0] == 255;
    assert HighestFree(x, [], 255) && HighestFree(y, [], 254);
    RunMore(x, none, [], p, 255);
    RunMore(y, none, [], p, 254);
    assert none + [p] == [p] && [] + [255 as Byte] == [255] && [] + [254 as Byte] == [254];
    AmbiguousBuffers();
    FourApart([255, 255, 254, 254]);
  }

  lemma AmbiguousBuffers()
    ensures var p: Pair := (97, 98);
            var x: seq<Byte> := [97, 98, 97, 98, 254, 254];
            var y: seq<Byte> := [255, 255, 97, 98, 97, 98];
            Substitute(x, p, 255) == Substitute(y, p, 254) == [255, 255, 254, 254]
  {
    var p: Pair := (97, 98);
    var x: seq<Byte> := [97, 98, 97, 98, 254, 254];
    var y: seq<Byte> := [255, 255, 97, 98, 97, 98];
    assert x[2..] == [97, 98, 254, 254] && x[2..][2..] == [254, 254] && x[2..][2..][1..] == [254];
    assert y[1..] == [255, 97, 98, 97, 98] && y[1..][1..] == [97, 98, 97, 98] && y[1..][1..][2..] == [97, 98];
    assert Substitute([254, 254], p, 255) == [254] + Substitute([254, 254][1..], p, 255);
    assert Substitute([254], p, 255) == [254] + Substitute([254][1..], p, 255);
    assert Substitute([97, 98], p, 254) == [254] + Substitute([97, 98][2..], p, 254);
    assert Substitute([97, 98, 97, 98], p, 254) == [254] + Substitute([97, 98, 97, 98][2..], p, 254);
    assert Substitute([255, 97, 98, 97, 98], p, 254) == [255] + Substitute([255, 97, 98, 97, 98][1..], p, 254);
  }
}
