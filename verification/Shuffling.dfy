/**
 The seeded shuffle of a list with a cursor and its replayed inverse
 (tracks/paged_list.go): a Fisher-Yates pass downwards, undone by drawing the same
 numbers again and swapping upwards.
 */
module Shuffling {
  import opened Common

  /** A deterministic random source: seeding gives a state, each draw a new state. */
  datatype RandSource = RandSource(seed: nat -> nat, intn: (nat, nat) -> (nat, nat))

  ghost predicate Lawful(src: RandSource) {
    forall s: nat, bound: nat :: bound > 0 ==> src.intn(s, bound).1 < bound
  }

  type Source = src: RandSource | Lawful(src)
    ghost witness RandSource((s: nat) => s, (s: nat, bound: nat) => (s, 0))

  class Rand {
    const src: Source
    var state: nat

    constructor (src: Source, seed: nat)
      ensures this.src == src && state == src.seed(seed)
    {
      this.src, this.state := src, src.seed(seed);
    }

    method Intn(bound: nat) returns (j: nat)
      requires bound > 0
      modifies this
      ensures j < bound
      ensures (state, j) == src.intn(old(state), bound)
    {
      var (s, r) := src.intn(state, bound);
      state, j := s, r;
    }
  }

  /** The numbers drawn for a list of `n`: one below n, one below n - 1, ..., one below 2. */
  function Draws(src: Source, s: nat, n: nat): (js: seq<nat>)
    ensures |js| == if n <= 1 then 0 else n - 1
    ensures forall k :: 0 <= k < |js| ==> js[k] < n - k
    decreases n
  {
    if n <= 1 then []
    else
      var (t, j) := src.intn(s, n);
      [j] + Draws(src, t, n - 1)
  }

  /** The source's state after `k` draws, the i-th of them below n - i. */
  function StateAfter(src: Source, s: nat, n: nat, k: nat): nat
    requires k <= n
  {
    if k == 0 then s else src.intn(StateAfter(src, s, n, k - 1), n - k + 1).0
  }

  lemma {:induction false} StateAfterFirst(src: Source, s: nat, n: nat, k: nat)
    requires 0 < k <= n
    ensures StateAfter(src, s, n, k) == StateAfter(src, src.intn(s, n).0, n - 1, k - 1)
  {
    if k > 1 {
      StateAfterFirst(src, s, n, k - 1);
    }
  }

  /** The k-th number is the source's own k-th draw, below n - k. */
  lemma {:induction false} DrawnInOrder(src: Source, s: nat, n: nat, k: nat)
    requires k < |Draws(src, s, n)|
    ensures Draws(src, s, n)[k] == src.intn(StateAfter(src, s, n, k), n - k).1
    decreases k
  {
    if k > 0 {
      StateAfterFirst(src, s, n, k);
      DrawnInOrder(src, src.intn(s, n).0, n - 1, k - 1);
    }
  }

  datatype Deck<T> = Deck(list: seq<T>, pos: int)

  /** Exchange two places; the cursor moves with the element it is on. */
  function SwapAt<T>(d: Deck<T>, i: nat, j: nat): (r: Deck<T>)
    requires i < |d.list| && j < |d.list|
    ensures |r.list| == |d.list|
    ensures 0 <= d.pos < |d.list| ==> 0 <= r.pos < |r.list| && r.list[r.pos] == d.list[d.pos]
    ensures d.pos < 0 ==> r.pos == d.pos
  {
    Deck(d.list[i := d.list[j]][j := d.list[i]],
         if i == d.pos then j else if j == d.pos then i else d.pos)
  }

  lemma SwapSameCards<T>(d: Deck<T>, i: nat, j: nat)
    requires i < |d.list| && j < |d.list|
    ensures SameCards(d, SwapAt(d, i, j))
  {
  }

  lemma SwapTwice<T>(d: Deck<T>, i: nat, j: nat, cursor: int)
    requires i < |d.list| && j < |d.list|
    ensures SwapAt(Deck(SwapAt(d, i, j).list, cursor), i, j).list == d.list
  {
  }

  ghost predicate Fits(js: seq<nat>, m: nat) {
    && |js| == (if m <= 1 then 0 else m - 1)
    && forall k :: 0 <= k < |js| ==> js[k] < m - k
  }

  /** The downward pass over the first `m` places. */
  function Mix<T>(d: Deck<T>, js: seq<nat>, m: nat): (r: Deck<T>)
    requires m <= |d.list| && Fits(js, m)
    ensures |r.list| == |d.list|
    decreases m
  {
    if m <= 1 then d
    else Mix(SwapAt(d, m - 1, js[0]), js[1..], m - 1)
  }

  /** The upward pass over the first `m` places, with the same numbers. */
  function Unmix<T>(d: Deck<T>, js: seq<nat>, m: nat): (r: Deck<T>)
    requires m <= |d.list| && Fits(js, m)
    ensures |r.list| == |d.list|
    decreases m
  {
    if m <= 1 then d
    else SwapAt(Unmix(d, js[1..], m - 1), m - 1, js[0])
  }

  /** What a pass does to a deck apart from reordering it: nothing is lost and the cursor stays on its element. */
  ghost predicate SameCards<T>(d: Deck<T>, r: Deck<T>) {
    && |r.list| == |d.list|
    && multiset(r.list) == multiset(d.list)
    && (0 <= d.pos < |d.list| ==> 0 <= r.pos < |r.list| && r.list[r.pos] == d.list[d.pos])
    && (d.pos < 0 ==> r.pos == d.pos)
  }

  lemma {:induction false} MixSameCards<T>(d: Deck<T>, js: seq<nat>, m: nat)
    requires m <= |d.list| && Fits(js, m)
    ensures SameCards(d, Mix(d, js, m))
    decreases m
  {
    if m > 1 {
      SwapSameCards(d, m - 1, js[0]);
      MixSameCards(SwapAt(d, m - 1, js[0]), js[1..], m - 1);
      SameCardsTransitive(d, SwapAt(d, m - 1, js[0]), Mix(d, js, m));
    }
  }

  lemma SameCardsTransitive<T>(d: Deck<T>, e: Deck<T>, f: Deck<T>)
    requires SameCards(d, e) && SameCards(e, f)
    ensures SameCards(d, f)
  {
  }

  lemma {:induction false} UnmixSameCards<T>(d: Deck<T>, js: seq<nat>, m: nat)
    requires m <= |d.list| && Fits(js, m)
    ensures SameCards(d, Unmix(d, js, m))
    decreases m
  {
    if m > 1 {
      UnmixSameCards(d, js[1..], m - 1);
      SwapSameCards(Unmix(d, js[1..], m - 1), m - 1, js[0]);
      SameCardsTransitive(d, Unmix(d, js[1..], m - 1), Unmix(d, js, m));
    }
  }

  /**
   The upward pass undoes the downward one on the list, wherever the cursor has
   been moved to in between.
   */
  lemma {:induction false} UnmixMix<T>(d: Deck<T>, js: seq<nat>, m: nat, cursor: int)
    requires m <= |d.list| && Fits(js, m)
    ensures Unmix(Deck(Mix(d, js, m).list, cursor), js, m).list == d.list
    decreases m
  {
    if m > 1 {
      var e := SwapAt(d, m - 1, js[0]);
      UnmixMix(e, js[1..], m - 1, cursor);
      var back := Unmix(Deck(Mix(d, js, m).list, cursor), js[1..], m - 1);
      SwapTwice(d, m - 1, js[0], back.pos);
      assert back == Deck(e.list, back.pos);
    }
  }

  /** And the downward pass undoes the upward one. */
  lemma {:induction false} MixUnmix<T>(d: Deck<T>, js: seq<nat>, m: nat, cursor: int)
    requires m <= |d.list| && Fits(js, m)
    ensures Mix(Deck(Unmix(d, js, m).list, cursor), js, m).list == d.list
    decreases m
  {
    if m > 1 {
      var e := Unmix(d, js[1..], m - 1);
      SwapTwice(e, m - 1, js[0], cursor);
      var back := SwapAt(Deck(Unmix(d, js, m).list, cursor), m - 1, js[0]);
      assert back == Deck(e.list, back.pos);
      MixUnmix(d, js[1..], m - 1, back.pos);
    }
  }

  /** The numbers that move nothing but exchange the first place with place `keep`, if that is positive. */
  function Still(n: nat, keep: int): (js: seq<nat>)
    ensures Fits(js, n)
  {
    seq(if n <= 1 then 0 else n - 1, k requires 0 <= k < n - 1 => if n - 1 - k == keep then 0 else n - 1 - k)
  }

  lemma {:induction false} MixStill<T>(d: Deck<T>, keep: int, m: nat)
    requires m <= |d.list|
    ensures Mix(d, Still(m, keep), m).list == if 0 < keep < m then SwapAt(d, 0, keep).list else d.list
    decreases m
  {
    if m > 1 {
      assert Still(m, keep)[1..] == Still(m - 1, keep);
      MixStill(SwapAt(d, m - 1, Still(m, keep)[0]), keep, m - 1);
    }
  }

  /** The order the upward pass produces does not depend on the cursor. */
  lemma {:induction false} UnmixIgnoresCursor<T>(list: seq<T>, p: int, q: int, js: seq<nat>, m: nat)
    requires m <= |list| && Fits(js, m)
    ensures Unmix(Deck(list, p), js, m).list == Unmix(Deck(list, q), js, m).list
    decreases m
  {
    if m > 1 {
      UnmixIgnoresCursor(list, p, q, js[1..], m - 1);
    }
  }

  // ----- every order, each in one way

  /** The downward pass over the first `m` places leaves the others alone. */
  lemma {:induction false} MixAbove<T>(d: Deck<T>, js: seq<nat>, m: nat, i: nat)
    requires m <= i < |d.list| && Fits(js, m)
    ensures Mix(d, js, m).list[i] == d.list[i]
    decreases m
  {
    if m > 1 {
      MixAbove(SwapAt(d, m - 1, js[0]), js[1..], m - 1, i);
    }
  }

  /** Different numbers give different orders. */
  lemma {:induction false} MixInjective<T>(d: Deck<T>, js: seq<nat>, ks: seq<nat>, m: nat)
    requires m <= |d.list| && Fits(js, m) && Fits(ks, m) && Distinct(d.list)
    requires Mix(d, js, m).list == Mix(d, ks, m).list
    ensures js == ks
    decreases m
  {
    if m > 1 {
      MixAbove(SwapAt(d, m - 1, js[0]), js[1..], m - 1, m - 1);
      MixAbove(SwapAt(d, m - 1, ks[0]), ks[1..], m - 1, m - 1);
      assert d.list[js[0]] == d.list[ks[0]];
      MixInjective(SwapAt(d, m - 1, js[0]), js[1..], ks[1..], m - 1);
      assert js == [js[0]] + js[1..] && ks == [ks[0]] + ks[1..];
    }
  }

  /** Two orders of the same distinct elements that agree from place `m` on. */
  ghost predicate Rearranges<T>(list: seq<T>, target: seq<T>, m: nat) {
    && m <= |list| == |target| && Distinct(list) && Distinct(target)
    && (forall i :: 0 <= i < |target| ==> target[i] in list)
    && (forall i :: m <= i < |target| ==> target[i] == list[i])
  }

  /** The element wanted at the last open place is at one of the open places. */
  lemma FindTop<T>(list: seq<T>, target: seq<T>, m: nat) returns (j: nat)
    requires Rearranges(list, target, m) && m > 0
    ensures j < m && list[j] == target[m - 1]
  {
    assert target[m - 1] in list;
    j :| 0 <= j < |list| && list[j] == target[m - 1];
  }

  lemma SwapRearranges<T>(d: Deck<T>, target: seq<T>, m: nat, j: nat)
    requires Rearranges(d.list, target, m) && j < m && d.list[j] == target[m - 1]
    ensures Rearranges(SwapAt(d, m - 1, j).list, target, m - 1)
  {
    var e := SwapAt(d, m - 1, j);
    forall i | 0 <= i < |target|
      ensures target[i] in e.list
    {
      var k :| 0 <= k < |d.list| && d.list[k] == target[i];
      assert e.list[if k == j then m - 1 else if k == m - 1 then j else k] == target[i];
    }
  }

  /** Some numbers give any order of the first `m` places. */
  lemma {:induction false} MixReaches<T>(d: Deck<T>, target: seq<T>, m: nat) returns (js: seq<nat>)
    requires Rearranges(d.list, target, m)
    ensures Fits(js, m) && Mix(d, js, m).list == target
    decreases m
  {
    if m == 0 {
      js := [];
    } else {
      var j := FindTop(d.list, target, m);
      if m == 1 {
        js := [];
      } else {
        SwapRearranges(d, target, m, j);
        var rest := MixReaches(SwapAt(d, m - 1, j), target, m - 1);
        js := [j] + rest;
        assert js[1..] == rest;
      }
    }
  }

  /**
   Every order of a list of distinct elements comes from exactly one sequence of numbers,
   so that equally likely draws give equally likely orders.
   */
  lemma EveryOrderOnce<T>(d: Deck<T>, target: seq<T>)
    requires |d.list| == |target| && Distinct(d.list) && Distinct(target)
    requires forall i :: 0 <= i < |target| ==> target[i] in d.list
    ensures exists js :: OnlyWayTo(d, target, js)
  {
    var js := MixReaches(d, target, |target|);
    forall ks | Fits(ks, |d.list|) && Mix(d, ks, |d.list|).list == target
      ensures ks == js
    {
      MixInjective(d, js, ks, |d.list|);
    }
    assert OnlyWayTo(d, target, js);
  }

  ghost predicate OnlyWayTo<T>(d: Deck<T>, target: seq<T>, js: seq<nat>) {
    && Fits(js, |d.list|) && Mix(d, js, |d.list|).list == target
    && forall ks :: Fits(ks, |d.list|) && Mix(d, ks, |d.list|).list == target ==> ks == js
  }

  /** One turn of the shuffling loop: draw, swap, and the rest of the pass. */
  lemma MixDraws<T>(src: Source, s: nat, d: Deck<T>, m: nat)
    requires 1 < m <= |d.list|
    ensures var (t, j) := src.intn(s, m);
            Mix(d, Draws(src, s, m), m) == Mix(SwapAt(d, m - 1, j), Draws(src, t, m - 1), m - 1)
  {
    assert Draws(src, s, m)[1..] == Draws(src, src.intn(s, m).0, m - 1);
  }

  /** One turn of the unshuffling loop, on the last `i` numbers of the draw. */
  lemma UnmixTurn<T>(d: Deck<T>, js: seq<nat>, i: nat)
    requires Fits(js, |d.list|) && 0 < i < |d.list|
    ensures Fits(js[|js| - i..], i + 1) && Fits(js[|js| - i + 1..], i)
    ensures Unmix(d, js[|js| - i..], i + 1) == SwapAt(Unmix(d, js[|js| - i + 1..], i), i, js[|js| - i])
  {
    assert js[|js| - i..][1..] == js[|js| - i + 1..];
  }

  /** The whole shuffle of `d` by a freshly seeded source. */
  function Shuffle<T>(src: Source, s: nat, d: Deck<T>): (r: Deck<T>)
    ensures |r.list| == |d.list|
  {
    Mix(d, Draws(src, s, |d.list|), |d.list|)
  }

  function Unshuffle<T>(src: Source, s: nat, d: Deck<T>): (r: Deck<T>)
    ensures |r.list| == |d.list|
  {
    Unmix(d, Draws(src, s, |d.list|), |d.list|)
  }

  /** Two shuffles of a list of distinct elements give one order exactly when the source draws the same numbers. */
  lemma SameOrderExactly<T>(src: Source, a: nat, b: nat, d: Deck<T>)
    requires Distinct(d.list)
    ensures Shuffle(src, a, d).list == Shuffle(src, b, d).list <==> Draws(src, a, |d.list|) == Draws(src, b, |d.list|)
  {
    if Shuffle(src, a, d).list == Shuffle(src, b, d).list {
      MixInjective(d, Draws(src, a, |d.list|), Draws(src, b, |d.list|), |d.list|);
    }
  }

  lemma ShuffleSameCards<T>(src: Source, s: nat, d: Deck<T>)
    ensures SameCards(d, Shuffle(src, s, d))
    ensures SameCards(d, Unshuffle(src, s, d))
  {
    MixSameCards(d, Draws(src, s, |d.list|), |d.list|);
    UnmixSameCards(d, Draws(src, s, |d.list|), |d.list|);
  }

  /** Same seed, same length: the list is exactly what it was before the shuffle. */
  lemma UnshuffleShuffle<T>(src: Source, s: nat, d: Deck<T>, cursor: int)
    ensures Unshuffle(src, s, Deck(Shuffle(src, s, d).list, cursor)).list == d.list
  {
    UnmixMix(d, Draws(src, s, |d.list|), |d.list|, cursor);
  }
}
