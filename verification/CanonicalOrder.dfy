/** Stable sorting by a comparison (tools/registry/gen.go, `sortedItems` and `sortedQuestions`). */
module CanonicalOrder {

  /** What a comparison must satisfy to sort by. */
  ghost predicate StrictOrder<T(!new)>(before: (T, T) -> bool) {
    && (forall a, b :: before(a, b) ==> !before(b, a))
    && (forall a, b, c :: !before(a, b) && !before(b, c) ==> !before(a, c))
  }

  ghost predicate InOrder<T>(s: seq<T>, before: (T, T) -> bool) {
    forall i, j :: 0 <= i < j < |s| ==> !before(s[j], s[i])
  }

  /** The elements that go neither before nor after x, as they stand in the list. */
  function Tied<T>(s: seq<T>, before: (T, T) -> bool, x: T): seq<T> {
    if s == [] then []
    else
      var n := |s| - 1;
      Tied(s[..n], before, x) + if !before(s[n], x) && !before(x, s[n]) then [s[n]] else []
  }

  /** t is s in order, and what the comparison does not tell apart keeps its places. */
  ghost predicate StablySorted<T(!new)>(s: seq<T>, t: seq<T>, before: (T, T) -> bool) {
    InOrder(t, before) && forall x :: Tied(t, before, x) == Tied(s, before, x)
  }

  lemma {:induction false} TiedAppend<T>(s: seq<T>, t: seq<T>, before: (T, T) -> bool, x: T)
    ensures Tied(s + t, before, x) == Tied(s, before, x) + Tied(t, before, x)
  {
    if t == [] {
      assert s + t == s;
    } else {
      var n := |t| - 1;
      assert (s + t)[..|s + t| - 1] == s + t[..n];
      TiedAppend(s, t[..n], before, x);
    }
  }

  lemma TiedThree<T>(s: seq<T>, t: seq<T>, u: seq<T>, before: (T, T) -> bool, x: T)
    ensures Tied(s + t + u, before, x) == Tied(s, before, x) + Tied(t, before, x) + Tied(u, before, x)
  {
    TiedAppend(s + t, u, before, x);
    TiedAppend(s, t, before, x);
  }

  lemma {:induction false} NoneTied<T>(s: seq<T>, before: (T, T) -> bool, x: T)
    requires forall y :: y in s ==> before(x, y) || before(y, x)
    ensures Tied(s, before, x) == []
  {
    if s != [] {
      NoneTied(s[..|s| - 1], before, x);
    }
  }

  lemma InsertedInOrder<T(!new)>(s: seq<T>, before: (T, T) -> bool, x: T, p: nat)
    requires StrictOrder(before) && InOrder(s, before) && p <= |s|
    requires p > 0 ==> !before(x, s[p - 1])
    requires forall q :: p <= q < |s| ==> before(x, s[q])
    ensures InOrder(s[..p] + [x] + s[p..], before)
  {
    var longer := s[..p] + [x] + s[p..];
    forall i | 0 <= i < p ensures !before(x, s[i]) {
      if i < p - 1 { assert !before(s[p - 1], s[i]); }
    }
    forall i, j | 0 <= i < j < |longer| ensures !before(longer[j], longer[i]) {
      if i == p { assert longer[j] == s[j - 1]; }
    }
  }

  lemma TailNotTied<T(!new)>(tail: seq<T>, before: (T, T) -> bool, x: T, y: T)
    requires StrictOrder(before) && !before(x, y) && !before(y, x) && forall z :: z in tail ==> before(x, z)
    ensures Tied(tail, before, y) == []
  {
    forall z | z in tail ensures before(y, z) || before(z, y) {
      assert !before(x, y) && before(x, z);
    }
    NoneTied(tail, before, y);
  }

  /** What goes after x is not tied with anything that is tied with x, so x may as well stand last. */
  lemma InsertedIsStable<T(!new)>(front: seq<T>, tail: seq<T>, before: (T, T) -> bool, x: T, y: T)
    requires StrictOrder(before) && forall z :: z in tail ==> before(x, z)
    ensures Tied(front + [x] + tail, before, y) == Tied(front + tail + [x], before, y)
  {
    TiedThree(front, [x], tail, before, y);
    TiedThree(front, tail, [x], before, y);
    if !before(x, y) && !before(y, x) {
      TailNotTied(tail, before, x, y);
    } else {
      NoneTied([x], before, y);
    }
    SwapEmpty(Tied(front, before, y), Tied([x], before, y), Tied(tail, before, y));
  }

  lemma SwapEmpty<T>(s: seq<T>, t: seq<T>, u: seq<T>)
    requires t == [] || u == []
    ensures s + t + u == s + u + t
  {
  }

  /** Puts x behind everything it does not go before. */
  method Insert<T(!new)>(sorted: seq<T>, x: T, before: (T, T) -> bool) returns (longer: seq<T>)
    ensures multiset(longer) == multiset(sorted + [x])
    ensures StrictOrder(before) && InOrder(sorted, before) ==> StablySorted(sorted + [x], longer, before)
  {
    var p := |sorted|;
    while p > 0 && before(x, sorted[p - 1])
      invariant 0 <= p <= |sorted|
      invariant forall q :: p <= q < |sorted| ==> before(x, sorted[q])
    {
      p := p - 1;
    }
    longer := sorted[..p] + [x] + sorted[p..];
    assert sorted[..p] + sorted[p..] == sorted;
    if StrictOrder(before) && InOrder(sorted, before) {
      InsertedInOrder(sorted, before, x, p);
      forall y ensures Tied(longer, before, y) == Tied(sorted + [x], before, y) {
        InsertedIsStable(sorted[..p], sorted[p..], before, x, y);
      }
    }
  }

  lemma StableMore<T(!new)>(s: seq<T>, sorted: seq<T>, longer: seq<T>, before: (T, T) -> bool, x: T)
    requires StablySorted(s, sorted, before) && StablySorted(sorted + [x], longer, before)
    ensures StablySorted(s + [x], longer, before)
  {
    forall y ensures Tied(longer, before, y) == Tied(s + [x], before, y) {
      TiedAppend(sorted, [x], before, y);
      TiedAppend(s, [x], before, y);
    }
  }

  /** Whatever the comparison, a permutation; a stable sort if the comparison is one to sort by. */
  method SortStable<T(!new)>(s: seq<T>, before: (T, T) -> bool) returns (sorted: seq<T>)
    ensures multiset(sorted) == multiset(s)
    ensures StrictOrder(before) ==> StablySorted(s, sorted, before)
  {
    sorted := [];
    for k := 0 to |s|
      invariant multiset(sorted) == multiset(s[..k])
      invariant StrictOrder(before) ==> StablySorted(s[..k], sorted, before)
    {
      var longer := Insert(sorted, s[k], before);
      assert s[..k + 1] == s[..k] + [s[k]];
      if StrictOrder(before) {
        StableMore(s[..k], sorted, longer, before, s[k]);
      }
      sorted := longer;
    }
    assert s[..|s|] == s;
  }
}
