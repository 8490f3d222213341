/** Huffman code lengths (tools/comment-bench/main.go, `buildHuffmanTable`).

    The table builder merges the two lightest trees until one is left and reads each symbol's
    code length off its depth.  The main result is that the table is complete (Kraft's sum is
    exactly one) and cheapest among all tables that satisfy Kraft's inequality, whatever order
    the sort leaves equal frequencies in. */
module Huffman {

  const ALPHABET: nat := 256

  datatype Node = Leaf(freq: nat, sym: nat) | Internal(freq: nat, left: Node, right: Node)

  // ---------------------------------------------------------------- tables and their cost

  /** A symbol gets a code exactly when it occurs. */
  predicate Used(freqMap: seq<int>, i: nat)
    requires i < |freqMap|
  {
    freqMap[i] > 0
  }

  ghost function Pow2(n: nat): (p: nat)
    ensures p > 0
  {
    if n == 0 then 1 else 2 * Pow2(n - 1)
  }

  /** Sum of g over the used symbols below n. */
  ghost function SumUsed(freqMap: seq<int>, g: int -> int, n: nat): int
    requires n <= |freqMap|
  {
    if n == 0 then 0
    else SumUsed(freqMap, g, n - 1) + if Used(freqMap, n - 1) then g(n - 1) else 0
  }

  /** Sum of frequency times length: the bits the whole input costs under table t. */
  ghost function BitsBy(freqMap: seq<int>, t: seq<nat>): int -> int
  {
    i => if 0 <= i < |t| && i < |freqMap| then freqMap[i] * t[i] else 0
  }

  ghost function TotalBits(freqMap: seq<int>, t: seq<nat>): int {
    SumUsed(freqMap, BitsBy(freqMap, t), |freqMap|)
  }

  /** 2^(scale - length), Kraft's contribution of a symbol in units of 2^-scale. */
  ghost function KraftBy(t: seq<nat>, scale: nat): int -> int
  {
    i => if 0 <= i < |t| && t[i] <= scale then Pow2(scale - t[i]) else 0
  }

  ghost function KraftSum(freqMap: seq<int>, t: seq<nat>, scale: nat): int {
    SumUsed(freqMap, KraftBy(t, scale), |freqMap|)
  }

  ghost predicate Bounded(freqMap: seq<int>, t: seq<nat>, scale: nat) {
    |t| == |freqMap| && forall i: nat :: i < |t| && Used(freqMap, i) ==> t[i] <= scale
  }

  /** The lengths of the used symbols satisfy Kraft's inequality (sum of 2^-length at most one). */
  ghost predicate Decodable(freqMap: seq<int>, t: seq<nat>, scale: nat) {
    Bounded(freqMap, t, scale) && KraftSum(freqMap, t, scale) <= Pow2(scale)
  }

  /** No decodable table spends fewer bits than t. */
  ghost predicate Optimal(freqMap: seq<int>, t: seq<nat>) {
    forall other: seq<nat>, scale: nat :: Decodable(freqMap, other, scale) ==>
      TotalBits(freqMap, t) <= TotalBits(freqMap, other)
  }

  ghost function CountUsed(freqMap: seq<int>): int {
    SumUsed(freqMap, i => 1, |freqMap|)
  }

  // ---------------------------------------------------------------- code lengths on a list of weights

  /** Sum over positions of weight times length. */
  ghost function Dot(weights: seq<nat>, lens: seq<nat>): nat
    requires |weights| == |lens|
  {
    if weights == [] then 0 else weights[0] * lens[0] + Dot(weights[1..], lens[1..])
  }

  ghost predicate AllAtMost(lens: seq<nat>, scale: nat) {
    forall i :: 0 <= i < |lens| ==> lens[i] <= scale
  }

  ghost function Kraft(lens: seq<nat>, scale: nat): nat
    requires AllAtMost(lens, scale)
  {
    if lens == [] then 0 else Pow2(scale - lens[0]) + Kraft(lens[1..], scale)
  }

  ghost predicate Fits(lens: seq<nat>, scale: nat) {
    AllAtMost(lens, scale) && Kraft(lens, scale) <= Pow2(scale)
  }

  /** Every decodable choice of lengths for these weights costs at least c. */
  ghost predicate LowerBound(weights: seq<nat>, c: int) {
    forall lens: seq<nat>, scale: nat :: |lens| == |weights| && Fits(lens, scale) ==> c <= Dot(weights, lens)
  }

  lemma {:induction false} DotUpdate(weights: seq<nat>, lens: seq<nat>, k: nat, v: nat)
    requires |weights| == |lens| && k < |lens|
    ensures Dot(weights, lens[k := v]) == Dot(weights, lens) - weights[k] * lens[k] + weights[k] * v
  {
    if k == 0 {
      assert lens[k := v][1..] == lens[1..];
    } else {
      assert lens[k := v][1..] == lens[1..][k - 1 := v];
      DotUpdate(weights[1..], lens[1..], k - 1, v);
    }
  }

  lemma {:induction false} KraftUpdate(lens: seq<nat>, scale: nat, k: nat, v: nat)
    requires AllAtMost(lens, scale) && k < |lens| && v <= scale
    ensures Kraft(lens[k := v], scale) == Kraft(lens, scale) - Pow2(scale - lens[k]) + Pow2(scale - v)
  {
    if k == 0 {
      assert lens[k := v][1..] == lens[1..];
    } else {
      assert lens[k := v][1..] == lens[1..][k - 1 := v];
      KraftUpdate(lens[1..], scale, k - 1, v);
    }
  }

  lemma {:induction false} KraftRescale(lens: seq<nat>, scale: nat)
    requires AllAtMost(lens, scale)
    ensures Kraft(lens, scale + 1) == 2 * Kraft(lens, scale)
  {
    if lens != [] {
      KraftRescale(lens[1..], scale);
    }
  }

  /** Below the maximum every contribution is even, so one longest code makes the sum odd. */
  lemma {:induction false} KraftParity(lens: seq<nat>, scale: nat)
    requires AllAtMost(lens, scale)
    requires forall i :: 0 <= i < |lens| ==> lens[i] < scale
    ensures Kraft(lens, scale) % 2 == 0
  {
    if lens != [] {
      KraftParity(lens[1..], scale);
      assert Pow2(scale - lens[0]) == 2 * Pow2(scale - lens[0] - 1);
    }
  }

  lemma {:induction false} KraftTooMany(lens: seq<nat>)
    requires AllAtMost(lens, 0)
    ensures Kraft(lens, 0) == |lens|
  {
    if lens != [] {
      KraftTooMany(lens[1..]);
    }
  }

  /** Exchanging two lengths so that the lighter weight gets the longer code never costs more. */
  lemma SwapLengths(weights: seq<nat>, lens: seq<nat>, scale: nat, i: nat, j: nat) returns (swapped: seq<nat>)
    requires |weights| == |lens| && i < |lens| && j < |lens| && Fits(lens, scale)
    requires weights[i] <= weights[j] && lens[i] <= lens[j]
    ensures |swapped| == |lens| && Fits(swapped, scale)
    ensures swapped == lens[i := lens[j]][j := lens[i]]
    ensures Dot(weights, swapped) <= Dot(weights, lens)
  {
    swapped := lens[i := lens[j]][j := lens[i]];
    if i == j {
      assert swapped == lens;
    } else {
      var mid := lens[i := lens[j]];
      assert mid[j] == lens[j];
      DotUpdate(weights, lens, i, lens[j]);
      DotUpdate(weights, mid, j, lens[i]);
      KraftUpdate(lens, scale, i, lens[j]);
      KraftUpdate(mid, scale, j, lens[i]);
      CrossProducts(weights[i], weights[j], lens[i], lens[j]);
    }
  }

  lemma CrossProducts(u: nat, v: nat, x: nat, y: nat)
    requires u <= v && x <= y
    ensures u * y + v * x <= u * x + v * y
  {
    assert (v - u) * (y - x) >= 0;
    assert (v - u) * (y - x) == v * y - v * x - u * y + u * x;
  }

  ghost function Total(lens: seq<nat>): nat {
    if lens == [] then 0 else lens[0] + Total(lens[1..])
  }

  lemma {:induction false} TotalUpdate(lens: seq<nat>, k: nat, v: nat)
    requires k < |lens|
    ensures Total(lens[k := v]) == Total(lens) - lens[k] + v
  {
    if k == 0 {
      assert lens[k := v][1..] == lens[1..];
    } else {
      assert lens[k := v][1..] == lens[1..][k - 1 := v];
      TotalUpdate(lens[1..], k - 1, v);
    }
  }

  /** The weight list after the two first entries are merged. */
  ghost function Merged(weights: seq<nat>): seq<nat>
    requires |weights| >= 2
  {
    weights[2..] + [weights[0] + weights[1]]
  }

  ghost predicate TwoLightestFirst(weights: seq<nat>) {
    |weights| >= 2 && weights[0] <= weights[1] && forall i :: 2 <= i < |weights| ==> weights[1] <= weights[i]
  }

  /** Lengths whose first two entries are the longest turn into lengths for the merged list. */
  lemma MergeFront(weights: seq<nat>, lens: seq<nat>, m: nat) returns (shorter: seq<nat>)
    requires |weights| == |lens| && |weights| >= 2 && Fits(lens, m) && m > 0
    requires lens[0] == m && lens[1] == m
    ensures |shorter| == |weights| - 1 && Fits(shorter, m)
    ensures Dot(Merged(weights), shorter) + weights[0] + weights[1] == Dot(weights, lens)
  {
    shorter := lens[2..] + [m - 1];
    MergedFits(lens, m);
    DotAppend(weights[2..], lens[2..], weights[0] + weights[1], m - 1);
    assert lens[1..][1..] == lens[2..] && weights[1..][1..] == weights[2..];
    assert Dot(weights, lens) == weights[0] * m + (weights[1] * m + Dot(weights[2..], lens[2..]));
    BothFewer(weights[0], weights[1], m);
  }

  lemma BothFewer(v: nat, w: nat, m: nat)
    requires m > 0
    ensures (v + w) * (m - 1) + v + w == v * m + w * m
  {
  }

  /** One code of length m - 1 takes the room of two of length m. */
  lemma MergedFits(lens: seq<nat>, m: nat)
    requires |lens| >= 2 && Fits(lens, m) && m > 0 && lens[0] == lens[1] == m
    ensures Fits(lens[2..] + [m - 1], m)
  {
    KraftAppend(lens[2..], m - 1, m);
    assert lens[1..][1..] == lens[2..];
    assert Pow2(m - (m - 1)) == 2 * Pow2(0);
    assert Kraft(lens, m) == Pow2(0) + (Pow2(0) + Kraft(lens[2..], m));
  }

  lemma {:induction false} DotAppend(weights: seq<nat>, lens: seq<nat>, w: nat, l: nat)
    requires |weights| == |lens|
    ensures Dot(weights + [w], lens + [l]) == Dot(weights, lens) + w * l
  {
    if weights != [] {
      assert (weights + [w])[1..] == weights[1..] + [w] && (lens + [l])[1..] == lens[1..] + [l];
      DotAppend(weights[1..], lens[1..], w, l);
    }
  }

  lemma {:induction false} KraftAppend(lens: seq<nat>, l: nat, scale: nat)
    requires AllAtMost(lens, scale) && l <= scale
    ensures AllAtMost(lens + [l], scale)
    ensures Kraft(lens + [l], scale) == Kraft(lens, scale) + Pow2(scale - l)
  {
    if lens != [] {
      assert (lens + [l])[1..] == lens[1..] + [l];
      KraftAppend(lens[1..], l, scale);
    }
  }

  lemma OneFewer(w: nat, l: nat)
    requires l > 0
    ensures w * (l - 1) == w * l - w
  {
  }

  lemma DotShorter(weights: seq<nat>, lens: seq<nat>, j: nat)
    requires |weights| == |lens| && j < |lens| && lens[j] > 0
    ensures Dot(weights, lens[j := lens[j] - 1]) <= Dot(weights, lens)
  {
    DotUpdate(weights, lens, j, lens[j] - 1);
    OneFewer(weights[j], lens[j]);
  }

  /** An even sum that is one above a sum within the room is within it too. */
  lemma EvenRoom(k: nat, more: nat, scale: nat)
    requires scale > 0 && k <= Pow2(scale) && more == k - Pow2(scale - scale) + Pow2(scale - (scale - 1))
    requires more % 2 == 0
    ensures more <= Pow2(scale)
  {
    assert Pow2(1) == 2 * Pow2(0);
    assert Pow2(scale) == 2 * Pow2(scale - 1);
  }

  lemma LoneLongestFits(lens: seq<nat>, scale: nat, j: nat)
    requires Fits(lens, scale) && scale > 0 && j < |lens| && lens[j] == scale
    requires forall i :: 0 <= i < |lens| && i != j ==> lens[i] < scale
    ensures Fits(lens[j := scale - 1], scale)
  {
    var shorterOne := lens[j := scale - 1];
    KraftUpdate(lens, scale, j, scale - 1);
    KraftParity(shorterOne, scale);
    EvenRoom(Kraft(lens, scale), Kraft(shorterOne, scale), scale);
  }

  lemma ShortenLoneLongest(weights: seq<nat>, lens: seq<nat>, scale: nat, j: nat) returns (shorterOne: seq<nat>)
    requires |weights| == |lens| && Fits(lens, scale) && scale > 0
    requires j < |lens| && lens[j] == scale
    requires forall i :: 0 <= i < |lens| && i != j ==> lens[i] < scale
    ensures |shorterOne| == |lens| && Fits(shorterOne, scale) && Total(shorterOne) < Total(lens)
    ensures Dot(weights, shorterOne) <= Dot(weights, lens)
  {
    shorterOne := lens[j := scale - 1];
    LoneLongestFits(lens, scale, j);
    TotalUpdate(lens, j, scale - 1);
    DotShorter(weights, lens, j);
  }

  /** The exchange argument: any decodable lengths yield lengths for the merged list that cost
      less by the merged weight. */
  lemma {:induction false} MergeStep(weights: seq<nat>, lens: seq<nat>, scale: nat)
    returns (shorter: seq<nat>, newScale: nat)
    requires |weights| == |lens| && TwoLightestFirst(weights) && Fits(lens, scale)
    ensures |shorter| == |weights| - 1 && Fits(shorter, newScale)
    ensures Dot(Merged(weights), shorter) + weights[0] + weights[1] <= Dot(weights, lens)
    decreases scale, Total(lens)
  {
    if scale == 0 {
      KraftTooMany(lens);
      assert false;
    } else if forall i :: 0 <= i < |lens| ==> lens[i] < scale {
      KraftRescale(lens, scale - 1);
      shorter, newScale := MergeStep(weights, lens, scale - 1);
    } else {
      var j :| 0 <= j < |lens| && lens[j] == scale;
      if forall i :: 0 <= i < |lens| && i != j ==> lens[i] < scale {
        // A single longest code wastes room: shorten it.
        var shorterOne := ShortenLoneLongest(weights, lens, scale, j);
        shorter, newScale := MergeStep(weights, shorterOne, scale);
      } else {
        var k :| 0 <= k < |lens| && k != j && lens[k] == scale;
        var front := MoveLongestToFront(weights, lens, scale, if j < k then j else k, if j < k then k else j);
        shorter := MergeFront(weights, front, scale);
        newScale := scale;
      }
    }
  }

  lemma MoveLongestToFront(weights: seq<nat>, lens: seq<nat>, m: nat, j: nat, k: nat) returns (front: seq<nat>)
    requires |weights| == |lens| && TwoLightestFirst(weights) && Fits(lens, m)
    requires j < k < |lens| && lens[j] == m && lens[k] == m
    ensures |front| == |lens| && Fits(front, m) && front[0] == m && front[1] == m
    ensures Dot(weights, front) <= Dot(weights, lens)
  {
    var first := SwapLengths(weights, lens, m, 0, j);
    front := SwapLengths(weights, first, m, 1, k);
  }

  /** Undoing a merge of the two lightest weights raises every lower bound by their sum. */
  lemma LowerBoundMerge(weights: seq<nat>, c: int)
    requires TwoLightestFirst(weights) && LowerBound(Merged(weights), c)
    ensures LowerBound(weights, c + weights[0] + weights[1])
  {
    forall lens: seq<nat>, scale: nat | |lens| == |weights| && Fits(lens, scale)
      ensures c + weights[0] + weights[1] <= Dot(weights, lens)
    {
      var shorter, newScale := MergeStep(weights, lens, scale);
      assert |shorter| == |Merged(weights)|;
    }
  }

  // ---------------------------------------------------------------- order does not matter

  ghost function Without<T>(s: seq<T>, k: nat): seq<T>
    requires k < |s|
  {
    s[..k] + s[k + 1..]
  }

  lemma {:induction false} DotWithout(weights: seq<nat>, lens: seq<nat>, k: nat)
    requires |weights| == |lens| && k < |weights|
    ensures Dot(weights, lens) == weights[k] * lens[k] + Dot(Without(weights, k), Without(lens, k))
  {
    if k == 0 {
      assert Without(weights, 0) == weights[1..] && Without(lens, 0) == lens[1..];
    } else {
      assert Without(weights, k)[1..] == Without(weights[1..], k - 1);
      assert Without(lens, k)[1..] == Without(lens[1..], k - 1);
      DotWithout(weights[1..], lens[1..], k - 1);
    }
  }

  lemma {:induction false} KraftWithout(lens: seq<nat>, scale: nat, k: nat)
    requires AllAtMost(lens, scale) && k < |lens|
    ensures AllAtMost(Without(lens, k), scale)
    ensures Kraft(lens, scale) == Pow2(scale - lens[k]) + Kraft(Without(lens, k), scale)
  {
    if k == 0 {
      assert Without(lens, 0) == lens[1..];
    } else {
      assert Without(lens, k)[1..] == Without(lens[1..], k - 1);
      KraftWithout(lens[1..], scale, k - 1);
    }
  }

  lemma MultisetWithout<T>(s: seq<T>, k: nat)
    requires k < |s|
    ensures multiset(s) == multiset(Without(s, k)) + multiset{s[k]}
  {
    assert s == s[..k] + [s[k]] + s[k + 1..];
  }

  lemma MultisetCancel<T>(a: multiset<T>, b: multiset<T>, x: T)
    requires a + multiset{x} == b + multiset{x}
    ensures a == b
  {
    assert (a + multiset{x}) - multiset{x} == a;
    assert (b + multiset{x}) - multiset{x} == b;
  }

  /** Lengths for one arrangement of the weights can be rearranged to fit another. */
  lemma {:induction false} Transport(ws: seq<nat>, vs: seq<nat>, lens: seq<nat>, scale: nat) returns (moved: seq<nat>)
    requires multiset(ws) == multiset(vs) && |lens| == |vs| && AllAtMost(lens, scale)
    ensures |moved| == |ws| && AllAtMost(moved, scale)
    ensures Dot(ws, moved) == Dot(vs, lens) && Kraft(moved, scale) == Kraft(lens, scale)
  {
    assert |ws| == |multiset(ws)| && |vs| == |multiset(vs)|;
    if ws == [] {
      moved := [];
    } else {
      assert ws[0] in multiset(vs);
      var k :| 0 <= k < |vs| && vs[k] == ws[0];
      MultisetWithout(vs, k);
      MultisetWithout(ws, 0);
      assert Without(ws, 0) == ws[1..];
      MultisetCancel(multiset(ws[1..]), multiset(Without(vs, k)), ws[0]);
      KraftWithout(lens, scale, k);
      DotWithout(vs, lens, k);
      var rest := Transport(ws[1..], Without(vs, k), Without(lens, k), scale);
      moved := [lens[k]] + rest;
    }
  }

  lemma LowerBoundReorder(ws: seq<nat>, vs: seq<nat>, c: int)
    requires multiset(ws) == multiset(vs) && LowerBound(ws, c)
    ensures LowerBound(vs, c)
  {
    forall lens: seq<nat>, scale: nat | |lens| == |vs| && Fits(lens, scale)
      ensures c <= Dot(vs, lens)
    {
      var moved := Transport(ws, vs, lens, scale);
      assert Fits(moved, scale);
    }
  }

  // ---------------------------------------------------------------- trees

  ghost function TreeSum(n: Node, g: int -> int): int {
    match n
    case Leaf(_, sym) => g(sym)
    case Internal(_, l, r) => TreeSum(l, g) + TreeSum(r, g)
  }

  ghost function ForestSum(nodes: seq<Node>, g: int -> int): int {
    if nodes == [] then 0 else TreeSum(nodes[0], g) + ForestSum(nodes[1..], g)
  }

  /** An internal node weighs what its leaves weigh, and leaves carry the table's frequencies. */
  ghost predicate WellWeighted(freqMap: seq<int>, n: Node) {
    match n
    case Leaf(f, s) => s < |freqMap| && f == freqMap[s] && Used(freqMap, s)
    case Internal(f, l, r) => f == l.freq + r.freq && WellWeighted(freqMap, l) && WellWeighted(freqMap, r)
  }

  /** Sum of leaf weight times depth, starting at depth d. */
  ghost function Cost(n: Node, d: nat): nat {
    match n
    case Leaf(f, _) => f * d
    case Internal(_, l, r) => Cost(l, d + 1) + Cost(r, d + 1)
  }

  ghost function ForestCost(nodes: seq<Node>): nat {
    if nodes == [] then 0 else Cost(nodes[0], 0) + ForestCost(nodes[1..])
  }

  lemma {:induction false} CostDeeper(freqMap: seq<int>, n: Node, d: nat)
    requires WellWeighted(freqMap, n)
    ensures Cost(n, d + 1) == Cost(n, d) + n.freq
  {
    if n.Internal? {
      CostDeeper(freqMap, n.left, d + 1);
      CostDeeper(freqMap, n.right, d + 1);
    }
  }

  ghost function Freqs(nodes: seq<Node>): (ws: seq<nat>)
    ensures |ws| == |nodes|
    ensures forall i :: 0 <= i < |nodes| ==> ws[i] == nodes[i].freq
  {
    seq(|nodes|, i requires 0 <= i < |nodes| => nodes[i].freq)
  }

  lemma {:induction false} ForestSumWithout(nodes: seq<Node>, g: int -> int, k: nat)
    requires k < |nodes|
    ensures ForestSum(nodes, g) == TreeSum(nodes[k], g) + ForestSum(Without(nodes, k), g)
    ensures ForestCost(nodes) == Cost(nodes[k], 0) + ForestCost(Without(nodes, k))
  {
    if k == 0 {
      assert Without(nodes, 0) == nodes[1..];
    } else {
      assert Without(nodes, k)[1..] == Without(nodes[1..], k - 1);
      ForestSumWithout(nodes[1..], g, k - 1);
    }
  }

  /** Sums over the trees, and the multiset of weights, do not depend on their order. */
  lemma {:induction false} ForestReorder(ns: seq<Node>, ms: seq<Node>, g: int -> int)
    requires multiset(ns) == multiset(ms)
    ensures ForestSum(ns, g) == ForestSum(ms, g) && ForestCost(ns) == ForestCost(ms)
  {
    assert |ns| == |multiset(ns)| && |ms| == |multiset(ms)|;
    if ns == [] {
      assert ms == [];
    } else {
      assert ns[0] in multiset(ms);
      var k :| 0 <= k < |ms| && ms[k] == ns[0];
      MultisetWithout(ms, k);
      MultisetWithout(ns, 0);
      assert Without(ns, 0) == ns[1..];
      MultisetCancel(multiset(ns[1..]), multiset(Without(ms, k)), ns[0]);
      ForestReorder(ns[1..], Without(ms, k), g);
      ForestSumWithout(ms, g, k);
    }
  }

  lemma {:induction false} FreqsReorder(ns: seq<Node>, ms: seq<Node>)
    requires multiset(ns) == multiset(ms)
    ensures multiset(Freqs(ns)) == multiset(Freqs(ms))
  {
    assert |ns| == |multiset(ns)| && |ms| == |multiset(ms)|;
    if ns == [] {
      assert ms == [];
    } else {
      assert ns[0] in multiset(ms);
      var k :| 0 <= k < |ms| && ms[k] == ns[0];
      MultisetWithout(ms, k);
      MultisetWithout(ns, 0);
      assert Without(ns, 0) == ns[1..];
      MultisetCancel(multiset(ns[1..]), multiset(Without(ms, k)), ns[0]);
      FreqsReorder(ns[1..], Without(ms, k));
      FreqsWithout(ms, k);
      FreqsWithout(ns, 0);
    }
  }

  lemma FreqsWithout(ns: seq<Node>, k: nat)
    requires k < |ns|
    ensures multiset(Freqs(ns)) == multiset(Freqs(Without(ns, k))) + multiset{ns[k].freq}
  {
    assert Without(Freqs(ns), k) == Freqs(Without(ns, k));
    MultisetWithout(Freqs(ns), k);
  }

  lemma {:induction false} ForestAppend(ns: seq<Node>, n: Node, g: int -> int)
    ensures ForestSum(ns + [n], g) == ForestSum(ns, g) + TreeSum(n, g)
    ensures ForestCost(ns + [n]) == ForestCost(ns) + Cost(n, 0)
    ensures Freqs(ns + [n]) == Freqs(ns) + [n.freq]
  {
    if ns != [] {
      assert (ns + [n])[1..] == ns[1..] + [n];
      ForestAppend(ns[1..], n, g);
    }
  }

  // ---------------------------------------------------------------- the merge loop's invariant

  /** The forest still stands for the frequency table: every per-symbol sum is kept. */
  ghost predicate SameSums(freqMap: seq<int>, nodes: seq<Node>) {
    forall g: int -> int :: ForestSum(nodes, g) == SumUsed(freqMap, g, |freqMap|)
  }

  /** What the merges so far have cost is a lower bound on top of any bound for what is left. */
  ghost predicate BoundCarries(start: seq<nat>, nodes: seq<Node>) {
    forall c: int :: LowerBound(Freqs(nodes), c) ==> LowerBound(start, c + ForestCost(nodes))
  }

  ghost predicate MergeInvariant(freqMap: seq<int>, start: seq<nat>, nodes: seq<Node>) {
    && (forall i :: 0 <= i < |nodes| ==> WellWeighted(freqMap, nodes[i]))
    && SameSums(freqMap, nodes)
    && BoundCarries(start, nodes)
  }

  lemma InvariantReorder(freqMap: seq<int>, start: seq<nat>, ns: seq<Node>, ms: seq<Node>)
    requires MergeInvariant(freqMap, start, ns) && multiset(ns) == multiset(ms)
    ensures MergeInvariant(freqMap, start, ms)
  {
    forall i | 0 <= i < |ms| ensures WellWeighted(freqMap, ms[i]) {
      assert ms[i] in multiset(ns);
    }
    forall g: int -> int ensures ForestSum(ms, g) == SumUsed(freqMap, g, |freqMap|) {
      ForestReorder(ns, ms, g);
      assert ForestSum(ns, g) == SumUsed(freqMap, g, |freqMap|);
    }
    ForestReorder(ns, ms, i => 0);
    FreqsReorder(ns, ms);
    forall c: int | LowerBound(Freqs(ms), c) ensures LowerBound(start, c + ForestCost(ms)) {
      LowerBoundReorder(Freqs(ms), Freqs(ns), c);
    }
  }

  function MergeTwo(nodes: seq<Node>): seq<Node>
    requires |nodes| >= 2
  {
    nodes[2..] + [Internal(nodes[0].freq + nodes[1].freq, nodes[0], nodes[1])]
  }

  lemma InvariantMerge(freqMap: seq<int>, start: seq<nat>, nodes: seq<Node>)
    requires MergeInvariant(freqMap, start, nodes) && |nodes| >= 2
    requires Ascending(nodes)
    ensures MergeInvariant(freqMap, start, MergeTwo(nodes))
  {
    var a, b, rest := nodes[0], nodes[1], nodes[2..];
    var parent := Internal(a.freq + b.freq, a, b);
    var after := MergeTwo(nodes);
    assert nodes[1..][1..] == rest;
    forall g: int -> int ensures ForestSum(after, g) == SumUsed(freqMap, g, |freqMap|) {
      ForestAppend(rest, parent, g);
      assert ForestSum(nodes, g) == TreeSum(a, g) + (TreeSum(b, g) + ForestSum(rest, g));
      assert ForestSum(nodes, g) == SumUsed(freqMap, g, |freqMap|);
    }
    ForestAppend(rest, parent, i => 0);
    CostDeeper(freqMap, a, 0);
    CostDeeper(freqMap, b, 0);
    assert ForestCost(after) == ForestCost(nodes) + a.freq + b.freq;
    forall c: int | LowerBound(Freqs(after), c) ensures LowerBound(start, c + ForestCost(after)) {
      assert Freqs(after) == Merged(Freqs(nodes)) by {
        assert Freqs(rest) == Freqs(nodes)[2..];
      }
      LowerBoundMerge(Freqs(nodes), c);
      assert LowerBound(Freqs(nodes), c + a.freq + b.freq);
    }
  }

  lemma InvariantStep(freqMap: seq<int>, start: seq<nat>, nodes: seq<Node>, sorted: seq<Node>)
    requires MergeInvariant(freqMap, start, nodes)
    requires multiset(sorted) == multiset(nodes) && Ascending(sorted) && |sorted| >= 2
    ensures MergeInvariant(freqMap, start, MergeTwo(sorted))
  {
    InvariantReorder(freqMap, start, nodes, sorted);
    InvariantMerge(freqMap, start, sorted);
  }

  // ---------------------------------------------------------------- reading lengths off the tree

  /** Table t records every leaf of n at its depth, n itself being at depth d. */
  ghost predicate DepthsIn(n: Node, d: nat, t: seq<nat>) {
    match n
    case Leaf(_, s) => s < |t| && t[s] == d
    case Internal(_, l, r) => DepthsIn(l, d + 1, t) && DepthsIn(r, d + 1, t)
  }

  ghost function Height(n: Node): nat {
    match n
    case Leaf(_, _) => 0
    case Internal(_, l, r) => 1 + if Height(l) > Height(r) then Height(l) else Height(r)
  }

  lemma {:induction false} DepthsGiveSums(freqMap: seq<int>, n: Node, d: nat, t: seq<nat>, scale: nat)
    requires WellWeighted(freqMap, n) && DepthsIn(n, d, t) && d + Height(n) <= scale
    ensures TreeSum(n, BitsBy(freqMap, t)) == Cost(n, d)
    ensures TreeSum(n, KraftBy(t, scale)) == Pow2(scale - d)
  {
    if n.Internal? {
      DepthsGiveSums(freqMap, n.left, d + 1, t, scale);
      DepthsGiveSums(freqMap, n.right, d + 1, t, scale);
    }
  }

  ghost predicate Occurs(n: Node, s: nat) {
    match n
    case Leaf(_, sym) => sym == s
    case Internal(_, l, r) => Occurs(l, s) || Occurs(r, s)
  }

  ghost predicate DistinctLeaves(n: Node) {
    match n
    case Leaf(_, _) => true
    case Internal(_, l, r) =>
      DistinctLeaves(l) && DistinctLeaves(r) && forall s: nat :: Occurs(l, s) ==> !Occurs(r, s)
  }

  ghost function Indicator(s: nat): int -> int {
    i => if i == s then 1 else 0
  }

  lemma {:induction false} IndicatorCounts(n: Node, s: nat)
    ensures TreeSum(n, Indicator(s)) >= (if Occurs(n, s) then 1 else 0)
    ensures TreeSum(n, Indicator(s)) > 0 ==> Occurs(n, s)
  {
    if n.Internal? {
      IndicatorCounts(n.left, s);
      IndicatorCounts(n.right, s);
    }
  }

  lemma {:induction false} SumUsedIndicator(freqMap: seq<int>, s: nat, n: nat)
    requires n <= |freqMap|
    ensures SumUsed(freqMap, Indicator(s), n) == if s < n && Used(freqMap, s) then 1 else 0
  {
    if n > 0 {
      SumUsedIndicator(freqMap, s, n - 1);
    }
  }

  lemma {:induction false} CountsGiveDistinct(n: Node)
    requires forall s: nat :: TreeSum(n, Indicator(s)) <= 1
    ensures DistinctLeaves(n)
  {
    if n.Internal? {
      forall s: nat
        ensures TreeSum(n.left, Indicator(s)) <= 1 && TreeSum(n.right, Indicator(s)) <= 1
        ensures Occurs(n.left, s) ==> !Occurs(n.right, s)
      {
        assert TreeSum(n, Indicator(s)) <= 1;
        IndicatorCounts(n.left, s);
        IndicatorCounts(n.right, s);
      }
      CountsGiveDistinct(n.left);
      CountsGiveDistinct(n.right);
    }
  }

  lemma {:induction false} OccursOnlyUsed(freqMap: seq<int>, n: Node, s: nat)
    requires WellWeighted(freqMap, n) && Occurs(n, s)
    ensures s < |freqMap| && Used(freqMap, s)
  {
    if n.Internal? {
      if Occurs(n.left, s) { OccursOnlyUsed(freqMap, n.left, s); } else { OccursOnlyUsed(freqMap, n.right, s); }
    }
  }

  lemma {:induction false} DepthsFrame(n: Node, d: nat, t: seq<nat>, t': seq<nat>)
    requires DepthsIn(n, d, t) && |t| == |t'|
    requires forall s: nat :: s < |t| && Occurs(n, s) ==> t[s] == t'[s]
    ensures DepthsIn(n, d, t')
  {
    if n.Internal? {
      DepthsFrame(n.left, d + 1, t, t');
      DepthsFrame(n.right, d + 1, t, t');
    }
  }

  // ---------------------------------------------------------------- the initial forest

  /** The leaves for the used symbols below n, in symbol order. */
  function UsedLeaves(freqMap: seq<int>, n: nat): seq<Node>
    requires n <= |freqMap|
  {
    if n == 0 then []
    else UsedLeaves(freqMap, n - 1) + if Used(freqMap, n - 1) then [Leaf(freqMap[n - 1], n - 1)] else []
  }

  /** The lengths a table gives to those leaves. */
  ghost function LengthsOf(freqMap: seq<int>, t: seq<nat>, n: nat): (lens: seq<nat>)
    requires n <= |freqMap| == |t|
    ensures |lens| == |UsedLeaves(freqMap, n)|
  {
    if n == 0 then []
    else LengthsOf(freqMap, t, n - 1) + if Used(freqMap, n - 1) then [t[n - 1]] else []
  }

  lemma UsedLeavesStep(freqMap: seq<int>, t: seq<nat>, n: nat)
    requires 0 < n <= |freqMap| == |t| && Used(freqMap, n - 1)
    ensures Freqs(UsedLeaves(freqMap, n)) == Freqs(UsedLeaves(freqMap, n - 1)) + [freqMap[n - 1]]
    ensures LengthsOf(freqMap, t, n) == LengthsOf(freqMap, t, n - 1) + [t[n - 1]]
  {
  }

  lemma BitsByStep(freqMap: seq<int>, t: seq<nat>, n: nat)
    requires 0 < n <= |freqMap| == |t| && Used(freqMap, n - 1)
    ensures SumUsed(freqMap, BitsBy(freqMap, t), n) == SumUsed(freqMap, BitsBy(freqMap, t),
            n - 1) + freqMap[n - 1] * t[n - 1]
  {
  }

  lemma {:induction false} TableAsWeights(freqMap: seq<int>, t: seq<nat>, n: nat)
    requires n <= |freqMap| == |t|
    ensures Dot(Freqs(UsedLeaves(freqMap, n)), LengthsOf(freqMap, t, n)) == SumUsed(freqMap, BitsBy(freqMap, t), n)
  {
    if n > 0 {
      TableAsWeights(freqMap, t, n - 1);
      var leaves, lens := UsedLeaves(freqMap, n - 1), LengthsOf(freqMap, t, n - 1);
      if Used(freqMap, n - 1) {
        UsedLeavesStep(freqMap, t, n);
        DotAppend(Freqs(leaves), lens, freqMap[n - 1], t[n - 1]);
        BitsByStep(freqMap, t, n);
      } else {
        assert UsedLeaves(freqMap, n) == leaves && LengthsOf(freqMap, t, n) == lens;
      }
    }
  }

  lemma {:induction false} TableAsLengths(freqMap: seq<int>, t: seq<nat>, n: nat, scale: nat)
    requires n <= |freqMap| && Bounded(freqMap, t, scale)
    ensures AllAtMost(LengthsOf(freqMap, t, n), scale)
    ensures Kraft(LengthsOf(freqMap, t, n), scale) == SumUsed(freqMap, KraftBy(t, scale), n)
  {
    if n > 0 {
      TableAsLengths(freqMap, t, n - 1, scale);
      var lens := LengthsOf(freqMap, t, n - 1);
      if Used(freqMap, n - 1) {
        KraftAppend(lens, t[n - 1], scale);
      } else {
        assert LengthsOf(freqMap, t, n) == lens;
      }
    }
  }

  lemma {:induction false} InitialForest(freqMap: seq<int>, n: nat, g: int -> int)
    requires n <= |freqMap|
    ensures ForestSum(UsedLeaves(freqMap, n), g) == SumUsed(freqMap, g, n)
    ensures ForestCost(UsedLeaves(freqMap, n)) == 0
    ensures forall i :: 0 <= i < |UsedLeaves(freqMap, n)| ==> WellWeighted(freqMap, UsedLeaves(freqMap, n)[i])
    ensures |UsedLeaves(freqMap, n)| == SumUsed(freqMap, i => 1, n)
  {
    if n > 0 {
      InitialForest(freqMap, n - 1, g);
      if Used(freqMap, n - 1) {
        ForestAppend(UsedLeaves(freqMap, n - 1), Leaf(freqMap[n - 1], n - 1), g);
      } else {
        assert UsedLeaves(freqMap, n) == UsedLeaves(freqMap, n - 1);
      }
    }
  }

  lemma InvariantInitially(freqMap: seq<int>)
    ensures MergeInvariant(freqMap, Freqs(UsedLeaves(freqMap, |freqMap|)), UsedLeaves(freqMap, |freqMap|))
    ensures |UsedLeaves(freqMap, |freqMap|)| == CountUsed(freqMap)
  {
    forall g: int -> int
      ensures ForestSum(UsedLeaves(freqMap, |freqMap|), g) == SumUsed(freqMap, g, |freqMap|)
    {
      InitialForest(freqMap, |freqMap|, g);
    }
    InitialForest(freqMap, |freqMap|, i => 0);
    SumUsedSame(freqMap, i => 1, i => 1, |freqMap|);
  }

  lemma {:induction false} SumUsedSame(freqMap: seq<int>, g: int -> int, h: int -> int, n: nat)
    requires n <= |freqMap| && forall i :: g(i) == h(i)
    ensures SumUsed(freqMap, g, n) == SumUsed(freqMap, h, n)
  {
    if n > 0 {
      SumUsedSame(freqMap, g, h, n - 1);
    }
  }

  /** Once a single tree is left, its depths are an optimal and complete table. */
  lemma SingleTreeOptimal(freqMap: seq<int>, root: Node, t: seq<nat>)
    requires MergeInvariant(freqMap, Freqs(UsedLeaves(freqMap, |freqMap|)), [root])
    requires DepthsIn(root, 0, t) && |t| == |freqMap|
    ensures Optimal(freqMap, t)
    ensures KraftSum(freqMap, t, Height(root)) == Pow2(Height(root))
  {
    DepthsGiveSums(freqMap, root, 0, t, Height(root));
    assert ForestSum([root], BitsBy(freqMap, t)) == TreeSum(root, BitsBy(freqMap, t));
    assert ForestSum([root], KraftBy(t, Height(root))) == TreeSum(root, KraftBy(t, Height(root)));
    assert TotalBits(freqMap, t) == Cost(root, 0) == ForestCost([root]);
    assert LowerBound(Freqs([root]), 0);
    var leaves := UsedLeaves(freqMap, |freqMap|);
    assert LowerBound(Freqs(leaves), 0 + ForestCost([root]));
    forall other: seq<nat>, scale: nat | Decodable(freqMap, other, scale)
      ensures TotalBits(freqMap, t) <= TotalBits(freqMap, other)
    {
      TableAsLengths(freqMap, other, |freqMap|, scale);
      TableAsWeights(freqMap, other, |freqMap|);
      assert Fits(LengthsOf(freqMap, other, |freqMap|), scale);
    }
  }

  lemma BoundedByHeight(freqMap: seq<int>, root: Node, d: nat, t: seq<nat>, s: nat)
    requires DepthsIn(root, d, t) && Occurs(root, s)
    ensures s < |t| && d <= t[s] <= d + Height(root)
    ensures root.Internal? ==> d < t[s]
  {
    if root.Internal? {
      if Occurs(root.left, s) {
        BoundedByHeight(freqMap, root.left, d + 1, t, s);
      } else {
        BoundedByHeight(freqMap, root.right, d + 1, t, s);
      }
    }
  }

  // ---------------------------------------------------------------- the code

  ghost predicate Ascending(nodes: seq<Node>) {
    forall i, j :: 0 <= i < j < |nodes| ==> nodes[i].freq <= nodes[j].freq
  }

  /** Put n into an ascending list, at the last place that keeps it ascending. */
  method Insert(nodes: seq<Node>, n: Node) returns (more: seq<Node>)
    requires Ascending(nodes)
    ensures Ascending(more) && multiset(more) == multiset(nodes) + multiset{n}
  {
    var p := |nodes|;
    while p > 0 && nodes[p - 1].freq > n.freq
      invariant 0 <= p <= |nodes|
      invariant forall i :: p <= i < |nodes| ==> nodes[i].freq > n.freq
    {
      p := p - 1;
    }
    more := nodes[..p] + [n] + nodes[p..];
    InsertKeepsOrder(nodes, n, p);
  }

  lemma InsertKeepsOrder(nodes: seq<Node>, n: Node, p: nat)
    requires Ascending(nodes) && p <= |nodes|
    requires forall i :: p <= i < |nodes| ==> nodes[i].freq > n.freq
    requires p > 0 ==> nodes[p - 1].freq <= n.freq
    ensures Ascending(nodes[..p] + [n] + nodes[p..])
    ensures multiset(nodes[..p] + [n] + nodes[p..]) == multiset(nodes) + multiset{n}
  {
    var more := nodes[..p] + [n] + nodes[p..];
    forall i, j | 0 <= i < j < |more| ensures more[i].freq <= more[j].freq {
      var before, after := if i < p then i else i - 1, if j < p then j else j - 1;
      assert i != p ==> more[i] == nodes[before];
      assert j != p ==> more[j] == nodes[after];
    }
    InsertMultiset(nodes, n, p);
  }

  lemma InsertMultiset(nodes: seq<Node>, n: Node, p: nat)
    requires p <= |nodes|
    ensures multiset(nodes[..p] + [n] + nodes[p..]) == multiset(nodes) + multiset{n}
  {
    assert nodes == nodes[..p] + nodes[p..];
  }

  /** Any ascending arrangement: the source's sort is not stable, so callers learn nothing about ties. */
  method SortByFreq(nodes: seq<Node>) returns (sorted: seq<Node>)
    ensures multiset(sorted) == multiset(nodes) && Ascending(sorted)
  {
    sorted := [];
    for k := 0 to |nodes|
      invariant multiset(sorted) == multiset(nodes[..k]) && Ascending(sorted)
    {
      sorted := Insert(sorted, nodes[k]);
      assert nodes[..k + 1] == nodes[..k] + [nodes[k]];
    }
    assert nodes[..|nodes|] == nodes;
  }

  /** Store the depth of every leaf below n. */
  method Walk(n: Node, depth: nat, lengths: array<nat>)
    requires DistinctLeaves(n)
    requires forall s: nat :: Occurs(n, s) ==> s < lengths.Length
    modifies lengths
    ensures DepthsIn(n, depth, lengths[..])
    ensures forall s: nat :: s < lengths.Length && !Occurs(n, s) ==> lengths[s] == old(lengths[s])
  {
    match n {
      case Leaf(_, sym) =>
        assert Occurs(n, sym);
        lengths[sym] := depth;
      case Internal(_, left, right) =>
        assert forall s: nat :: Occurs(left, s) || Occurs(right, s) ==> Occurs(n, s);
        Walk(left, depth + 1, lengths);
        ghost var mid := lengths[..];
        Walk(right, depth + 1, lengths);
        DepthsFrame(left, depth + 1, mid, lengths[..]);
    }
  }

  /** Code lengths: complete and optimal from two used symbols on, length one for a lone symbol. */
  method BuildHuffmanTable(freqMap: seq<int>) returns (lengths: seq<nat>)
    requires |freqMap| == ALPHABET
    ensures |lengths| == ALPHABET
    ensures forall i: nat :: i < ALPHABET ==> (lengths[i] == 0 <==> freqMap[i] <= 0)
    ensures CountUsed(freqMap) == 1 ==> forall i: nat :: i < ALPHABET && Used(freqMap, i) ==> lengths[i] == 1
    ensures CountUsed(freqMap) >= 2 ==> Optimal(freqMap, lengths)
    ensures CountUsed(freqMap) >= 2 ==>
              exists scale: nat ::
                Decodable(freqMap, lengths, scale) && KraftSum(freqMap, lengths, scale) == Pow2(scale)
  {
    var nodes: seq<Node> := [];
    for i := 0 to |freqMap|
      invariant nodes == UsedLeaves(freqMap, i)
    {
      if freqMap[i] > 0 {
        nodes := nodes + [Leaf(freqMap[i], i)];
      }
    }
    ghost var start := Freqs(nodes);
    InvariantInitially(freqMap);
    UsedHasLeaf(freqMap, nodes);
    if |nodes| == 0 {
      return seq(ALPHABET, i => 0);
    }
    if |nodes| == 1 {
      return seq(ALPHABET, i => 0)[nodes[0].sym := 1];
    }
    while |nodes| > 1
      invariant |nodes| >= 1
      invariant MergeInvariant(freqMap, start, nodes)
      invariant |nodes| == 1 ==> nodes[0].Internal?
      decreases |nodes|
    {
      var sorted := SortByFreq(nodes);
      assert |sorted| == |multiset(sorted)| == |nodes|;
      InvariantStep(freqMap, start, nodes, sorted);
      var a, b := sorted[0], sorted[1];
      nodes := sorted[2..];
      var parent := Internal(a.freq + b.freq, a, b);
      nodes := nodes + [parent];
      assert nodes == MergeTwo(sorted);
    }
    var root := nodes[0];
    assert nodes == [root];
    LeavesAreUsed(freqMap, start, root);
    var t := new nat[ALPHABET](i => 0);
    Walk(root, 0, t);
    lengths := t[..];
    SingleTreeOptimal(freqMap, root, lengths);
    LengthsWithinHeight(freqMap, root, lengths);
    assert forall i: nat :: i < ALPHABET && !Used(freqMap, i) ==> !Occurs(root, i);
  }

  lemma LengthsWithinHeight(freqMap: seq<int>, root: Node, t: seq<nat>)
    requires root.Internal? && DepthsIn(root, 0, t) && |t| == |freqMap|
    requires forall s: nat :: Occurs(root, s) <==> s < |freqMap| && Used(freqMap, s)
    ensures Bounded(freqMap, t, Height(root))
    ensures forall i: nat :: i < |t| && Used(freqMap, i) ==> t[i] > 0
  {
    forall i: nat | i < |t| && Used(freqMap, i) ensures 0 < t[i] <= Height(root) {
      BoundedByHeight(freqMap, root, 0, t, i);
    }
  }

  /** In the final tree the leaves are exactly the used symbols, each once. */
  lemma LeavesAreUsed(freqMap: seq<int>, start: seq<nat>, root: Node)
    requires MergeInvariant(freqMap, start, [root])
    ensures DistinctLeaves(root)
    ensures forall s: nat :: Occurs(root, s) <==> s < |freqMap| && Used(freqMap, s)
  {
    assert [root][0] == root;
    forall s: nat
      ensures TreeSum(root, Indicator(s)) <= 1
      ensures Occurs(root, s) <==> s < |freqMap| && Used(freqMap, s)
    {
      assert [root][1..] == [];
      assert ForestSum([root], Indicator(s)) == TreeSum(root, Indicator(s));
      assert ForestSum([root], Indicator(s)) == SumUsed(freqMap, Indicator(s), |freqMap|);
      SumUsedIndicator(freqMap, s, |freqMap|);
      IndicatorCounts(root, s);
      if Occurs(root, s) { OccursOnlyUsed(freqMap, root, s); }
    }
    CountsGiveDistinct(root);
  }

  lemma {:induction false} UsedHasLeafBelow(freqMap: seq<int>, n: nat, i: nat)
    requires i < n <= |freqMap| && Used(freqMap, i)
    ensures Leaf(freqMap[i], i) in UsedLeaves(freqMap, n)
  {
    if i < n - 1 { UsedHasLeafBelow(freqMap, n - 1, i); }
  }

  lemma UsedHasLeaf(freqMap: seq<int>, nodes: seq<Node>)
    requires nodes == UsedLeaves(freqMap, |freqMap|)
    ensures forall i: nat :: i < |freqMap| && Used(freqMap, i) ==> Leaf(freqMap[i], i) in nodes
    ensures forall k :: 0 <= k < |nodes| ==> nodes[k].Leaf? && nodes[k].sym < |freqMap| && Used(freqMap, nodes[k].sym)
  {
    forall i: nat | i < |freqMap| && Used(freqMap, i) ensures Leaf(freqMap[i], i) in nodes {
      UsedHasLeafBelow(freqMap, |freqMap|, i);
    }
    LeavesOnly(freqMap, |freqMap|);
  }

  lemma {:induction false} LeavesOnly(freqMap: seq<int>, n: nat)
    requires n <= |freqMap|
    ensures forall k :: 0 <= k < |UsedLeaves(freqMap, n)| ==>
      var l := UsedLeaves(freqMap, n)[k]; l.Leaf? && l.sym < |freqMap| && Used(freqMap, l.sym)
  {
    if n > 0 { LeavesOnly(freqMap, n - 1); }
  }
}
