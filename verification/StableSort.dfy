/** sort.Slice and sort.SliceStable by an integer key: what they return, and that nothing else could be returned. */
module StableSort {

  ghost predicate Sorted<T>(s: seq<T>, key: T -> int) {
    forall i: nat, j: nat :: i <= j < |s| ==> key(s[i]) <= key(s[j])
  }

  /** The elements with key k, in order. */
  function WithKey<T>(s: seq<T>, key: T -> int, k: int): seq<T> {
    if s == [] then [] else (if key(s[0]) == k then [s[0]] else []) + WithKey(s[1..], key, k)
  }

  /** x goes before the first element whose key is not smaller. */
  function Insert<T>(x: T, s: seq<T>, key: T -> int): (r: seq<T>)
    ensures |r| == |s| + 1
  {
    if s == [] || key(x) <= key(s[0]) then [x] + s else [s[0]] + Insert(x, s[1..], key)
  }

  /** The stable order. */
  function Sort<T>(s: seq<T>, key: T -> int): (r: seq<T>)
    ensures |r| == |s|
  {
    if s == [] then [] else Insert(s[0], Sort(s[1..], key), key)
  }

  lemma {:induction false} InsertAdds<T>(x: T, s: seq<T>, key: T -> int)
    ensures multiset(Insert(x, s, key)) == multiset(s) + multiset{x}
  {
    if s == [] || key(x) <= key(s[0]) {
    } else {
      InsertAdds(x, s[1..], key);
      assert s == [s[0]] + s[1..];
    }
  }

  lemma PrependSorts<T>(x: T, s: seq<T>, key: T -> int)
    requires Sorted(s, key) && forall y :: y in s ==> key(x) <= key(y)
    ensures Sorted([x] + s, key)
  {
    forall i: nat, j: nat | i <= j < |s| + 1 ensures key(([x] + s)[i]) <= key(([x] + s)[j]) {
      if i > 0 {
        assert ([x] + s)[i] == s[i - 1] && ([x] + s)[j] == s[j - 1];
      } else if j > 0 {
        assert ([x] + s)[j] == s[j - 1] && s[j - 1] in s;
      }
    }
  }

  lemma {:induction false} InsertSorts<T>(x: T, s: seq<T>, key: T -> int)
    requires Sorted(s, key)
    ensures Sorted(Insert(x, s, key), key)
  {
    if s == [] || key(x) <= key(s[0]) {
    } else {
      var r := Insert(x, s[1..], key);
      InsertSorts(x, s[1..], key);
      InsertAdds(x, s[1..], key);
      forall y | y in r ensures key(s[0]) <= key(y) {
        assert y in multiset(r);
        assert y == x || y in s[1..];
      }
      PrependSorts(s[0], r, key);
    }
  }

  lemma {:induction false} InsertKeepsKeys<T>(x: T, s: seq<T>, key: T -> int, k: int)
    ensures WithKey(Insert(x, s, key), key, k) == WithKey([x] + s, key, k)
  {
    assert ([x] + s)[1..] == s;
    if s == [] || key(x) <= key(s[0]) {
    } else {
      var r := Insert(x, s[1..], key);
      InsertKeepsKeys(x, s[1..], key, k);
      assert ([s[0]] + r)[1..] == r;
      assert ([x] + s[1..])[1..] == s[1..];
    }
  }

  /** The result is sorted, holds the same elements, and keeps the order among equal keys. */
  lemma {:induction false} SortIsStable<T>(s: seq<T>, key: T -> int)
    ensures Sorted(Sort(s, key), key) && multiset(Sort(s, key)) == multiset(s)
    ensures SameByKey(Sort(s, key), s, key)
  {
    if s != [] {
      var r := Sort(s[1..], key);
      SortIsStable(s[1..], key);
      InsertSorts(s[0], r, key);
      InsertAdds(s[0], r, key);
      assert s == [s[0]] + s[1..];
      forall k ensures WithKey(Sort(s, key), key, k) == WithKey(s, key, k) {
        InsertKeepsKeys(s[0], r, key, k);
        assert ([s[0]] + r)[1..] == r;
      }
    }
  }

  lemma {:induction false} WithKeySeen<T>(s: seq<T>, key: T -> int, k: int)
    ensures WithKey(s, key, k) != [] <==> exists i: nat :: i < |s| && key(s[i]) == k
  {
    if s != [] {
      WithKeySeen(s[1..], key, k);
      assert forall i: nat :: i < |s| - 1 ==> s[1..][i] == s[i + 1];
      if WithKey(s[1..], key, k) != [] {
        var i: nat :| i < |s[1..]| && key(s[1..][i]) == k;
        assert key(s[i + 1]) == k;
      }
      forall i: nat | i < |s| && key(s[i]) == k ensures WithKey(s, key, k) != [] {
        if i > 0 { assert key(s[1..][i - 1]) == k; }
      }
    }
  }

  lemma FirstHasKey<T>(t: seq<T>, key: T -> int)
    requires t != []
    ensures WithKey(t, key, key(t[0])) != []
  {
  }

  lemma WithKeyTail<T>(s: seq<T>, key: T -> int, k: int)
    requires s != []
    ensures key(s[0]) == k ==> WithKey(s, key, k) != [] && WithKey(s[1..], key, k) == WithKey(s, key, k)[1..]
    ensures key(s[0]) != k ==> WithKey(s[1..], key, k) == WithKey(s, key, k)
  {
  }

  ghost predicate SameByKey<T>(s: seq<T>, t: seq<T>, key: T -> int) {
    forall k :: WithKey(s, key, k) == WithKey(t, key, k)
  }

  /** The keys that occur are the same, so the smallest is. */
  lemma SmallestKey<T>(s: seq<T>, t: seq<T>, key: T -> int)
    requires Sorted(t, key) && SameByKey(s, t, key) && s != []
    ensures t != [] && key(t[0]) <= key(s[0])
  {
    FirstHasKey(s, key);
    assert WithKey(t, key, key(s[0])) != [];
    WithKeySeen(t, key, key(s[0]));
  }

  lemma SameHead<T>(s: seq<T>, t: seq<T>, key: T -> int)
    requires Sorted(s, key) && Sorted(t, key) && SameByKey(s, t, key) && s != []
    ensures t != [] && s[0] == t[0] && SameByKey(s[1..], t[1..], key)
  {
    SmallestKey(s, t, key);
    SmallestKey(t, s, key);
    assert WithKey(s, key, key(s[0])) == WithKey(t, key, key(s[0]));
    assert WithKey(s, key, key(s[0]))[0] == s[0] && WithKey(t, key, key(s[0]))[0] == t[0];
    forall k ensures WithKey(s[1..], key, k) == WithKey(t[1..], key, k) {
      assert WithKey(s, key, k) == WithKey(t, key, k);
      WithKeyTail(s, key, k);
      WithKeyTail(t, key, k);
    }
  }

  /** There is only one sorted sequence with the same elements, in the same order, for every key. */
  lemma {:induction false} StableIsUnique<T>(s: seq<T>, t: seq<T>, key: T -> int)
    requires Sorted(s, key) && Sorted(t, key) && SameByKey(s, t, key)
    ensures s == t
  {
    if t != [] { SmallestKey(t, s, key); }
    if s != [] {
      SameHead(s, t, key);
      StableIsUnique(s[1..], t[1..], key);
      assert s == [s[0]] + s[1..] && t == [t[0]] + t[1..];
    }
  }

  ghost predicate Injective<T(!new)>(key: T -> int) {
    forall x: T, y: T :: key(x) == key(y) ==> x == y
  }

  lemma SameLength<T>(s: seq<T>, t: seq<T>)
    requires multiset(s) == multiset(t)
    ensures |s| == |t|
  {
    assert |multiset(s)| == |multiset(t)|;
  }

  lemma TailBag<T>(s: seq<T>)
    requires s != []
    ensures multiset(s[1..]) == multiset(s) - multiset{s[0]}
  {
    assert s == [s[0]] + s[1..];
  }

  lemma TailsAgree<T>(s: seq<T>, t: seq<T>)
    requires s != [] && t != [] && s[0] == t[0] && multiset(s) == multiset(t)
    ensures multiset(s[1..]) == multiset(t[1..])
  {
    TailBag(s);
    TailBag(t);
  }

  lemma TailSorted<T>(s: seq<T>, key: T -> int)
    requires s != [] && Sorted(s, key)
    ensures Sorted(s[1..], key)
  {
  }

  lemma HeadsAgree<T(!new)>(s: seq<T>, t: seq<T>, key: T -> int)
    requires Injective(key) && Sorted(s, key) && Sorted(t, key) && multiset(s) == multiset(t) && s != [] && t != []
    ensures s[0] == t[0]
  {
    assert s[0] in multiset(t) && t[0] in multiset(s);
    var i: nat :| i < |t| && t[i] == s[0];
    var j: nat :| j < |s| && s[j] == t[0];
    assert key(t[0]) <= key(t[i]) && key(s[0]) <= key(s[j]);
  }

  /** With a key that tells all elements apart, sorting need not be stable: the sorted permutation is unique. */
  lemma {:induction false} SortedIsUnique<T(!new)>(s: seq<T>, t: seq<T>, key: T -> int)
    requires Injective(key) && Sorted(s, key) && Sorted(t, key) && multiset(s) == multiset(t)
    ensures s == t
  {
    SameLength(s, t);
    if s != [] {
      HeadsAgree(s, t, key);
      TailsAgree(s, t);
      TailSorted(s, key);
      TailSorted(t, key);
      SortedIsUnique(s[1..], t[1..], key);
      assert s == [s[0]] + s[1..] && t == [t[0]] + t[1..];
    }
  }
}
