/** Steps in sequence and counted loops, over any property of a state that is indexed by progress. */
module Progress {

  /** From progress `from`, f takes the state to progress `to`, and leaves the number of passes left alone. */
  ghost predicate Takes<S(!new)>(f: S -> S, inv: (S, nat) -> bool, left: S -> int, from: nat, to: nat) {
    forall s: S {:trigger f(s)} :: inv(s, from) ==> inv(f(s), to) && left(f(s)) == left(s)
  }

  /** fs[i], fs[i + 1], .., one after the other. */
  function Chain<S>(fs: seq<S -> S>, i: nat, s: S): S
    requires i <= |fs|
    decreases |fs| - i
  {
    if i == |fs| then s else Chain(fs, i + 1, fs[i](s))
  }

  /** Every piece makes one step of progress. */
  ghost predicate Steps<S(!new)>(fs: seq<S -> S>, inv: (S, nat) -> bool, left: S -> int, from: nat) {
    forall i: nat :: i < |fs| ==> Takes(fs[i], inv, left, from + i, from + i + 1)
  }

  lemma {:induction false} ChainTakes<S(!new)>(fs: seq<S -> S>, i: nat, inv: (S, nat) -> bool, left: S -> int,
                                        from: nat, s: S)
    requires i <= |fs| && Steps(fs, inv, left, from) && inv(s, from + i)
    ensures inv(Chain(fs, i, s), from + |fs|) && left(Chain(fs, i, s)) == left(s)
    decreases |fs| - i
  {
    if i < |fs| {
      assert Takes(fs[i], inv, left, from + i, from + i + 1);
      ChainTakes(fs, i + 1, inv, left, from, fs[i](s));
    }
  }

  datatype Outcome<S> = Done(s: S) | OutOfFuel

  /** Repeats f while `again` holds of its result, at most fuel times. */
  function DoWhile<S>(f: S -> S, again: S -> bool, s: S, fuel: nat): Outcome<S>
    decreases fuel
  {
    if fuel == 0 then OutOfFuel
    else
      var r := f(s);
      if again(r) then DoWhile(f, again, r, fuel - 1) else Done(r)
  }

  /** One pass: all the steps fs, then the countdown. */
  function Pass<S>(fs: seq<S -> S>, count: S -> S): S -> S {
    s => count(Chain(fs, 0, s))
  }

  /** count takes one from the passes left, keeps the progress made, and `again` sees when none are left. */
  ghost predicate CountsDown<S(!new)>(count: S -> S, again: S -> bool, inv: (S, nat) -> bool, left: S -> int, t: nat) {
    forall s: S {:trigger count(s)} :: inv(s, t) && left(s) > 0 ==>
      inv(count(s), t) && left(count(s)) == left(s) - 1 && again(count(s)) == (left(s) != 1)
  }

  /** The pass from progress g * |fs| on is made of steps and a countdown. */
  ghost predicate Counted<S(!new)>(fs: seq<S -> S>, count: S -> S, again: S -> bool, inv: (S, nat) -> bool,
                                   left: S -> int, g: nat) {
    Steps(fs, inv, left, g * |fs|) && CountsDown(count, again, inv, left, g * |fs| + |fs|)
  }

  /** Every pass, from progress g * |fs| for g below n, is made of steps and a countdown. */
  ghost predicate CountedLoop<S(!new)>(fs: seq<S -> S>, count: S -> S, again: S -> bool, inv: (S, nat) -> bool,
                                left: S -> int, n: nat) {
    forall g: nat :: g < n ==> Counted(fs, count, again, inv, left, g)
  }

  /** A counted loop with n - g passes left runs exactly that often, and then has made n * |fs| steps. */
  lemma {:induction false} LoopRuns<S(!new)>(fs: seq<S -> S>, count: S -> S, again: S -> bool, inv: (S, nat) -> bool,
                                            left: S -> int, n: nat, g: nat, s: S, fuel: nat)
    requires CountedLoop(fs, count, again, inv, left, n) && g < n && inv(s, g * |fs|) && left(s) == n - g
    ensures var o := DoWhile(Pass(fs, count), again, s, fuel);
            (o.Done? <==> fuel >= n - g) && (o.Done? ==> inv(o.s, n * |fs|))
    decreases fuel
  {
    if fuel > 0 {
      assert Counted(fs, count, again, inv, left, g);
      ChainTakes(fs, 0, inv, left, g * |fs|, s);
      var r := count(Chain(fs, 0, s));
      assert CountsDown(count, again, inv, left, g * |fs| + |fs|);
      assert (g + 1) * |fs| == g * |fs| + |fs|;
      assert r == Pass(fs, count)(s);
      if g + 1 < n {
        LoopRuns(fs, count, again, inv, left, n, g + 1, r, fuel - 1);
      } else {
        assert n == g + 1;
      }
    }
  }
}
