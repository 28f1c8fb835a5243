/** Which of the longest queues drop_packet of ratelimit.c takes, and how often among all random draws. */
module DropChoice {
  import opened Arith

  /** The length of the queue selected before queue `i` is looked at; the scan starts with queue 0 selected. */
  function Top(lens: seq<nat>, i: nat): nat
    requires lens != [] && i <= |lens|
  {
    if i == 0 then lens[0] else if Top(lens, i - 1) < lens[i - 1] then lens[i - 1] else Top(lens, i - 1)
  }

  /** n_longest at that point */
  function Ties(lens: seq<nat>, i: nat): (n: nat)
    requires lens != [] && i <= |lens|
    ensures n > 0
  {
    if i == 0 || Top(lens, i - 1) < lens[i - 1] then 1
    else if Top(lens, i - 1) == lens[i - 1] then Ties(lens, i - 1) + 1
    else Ties(lens, i - 1)
  }

  /** The queue selected at that point, if `draws[q]` is what random_range answers at queue q. */
  function Chosen(lens: seq<nat>, i: nat, draws: seq<nat>): nat
    requires lens != [] && i <= |lens| && i <= |draws|
  {
    if i == 0 then 0
    else if Top(lens, i - 1) < lens[i - 1] || (Top(lens, i - 1) == lens[i - 1] && draws[i - 1] == 0) then i - 1
    else Chosen(lens, i - 1, draws)
  }

  /** How many answers random_range has at queue `i`, counting one if it is not asked. */
  function Choices(lens: seq<nat>, i: nat): (n: nat)
    requires i < |lens|
    ensures n > 0
  {
    if Top(lens, i) == lens[i] then Ties(lens, i) + 1 else 1
  }

  function Each(d: seq<nat>, n: nat): (ds: seq<seq<nat>>)
    ensures |ds| == n && forall k :: 0 <= k < n ==> |ds[k]| == |d| + 1
  {
    if n == 0 then [] else Each(d, n - 1) + [d + [n - 1]]
  }

  function Extend(ds: seq<seq<nat>>, n: nat, i: nat): (es: seq<seq<nat>>)
    requires forall k :: 0 <= k < |ds| ==> |ds[k]| == i
    ensures forall k :: 0 <= k < |es| ==> |es[k]| == i + 1
  {
    if ds == [] then [] else Extend(ds[..|ds| - 1], n, i) + Each(ds[|ds| - 1], n)
  }

  /** Every sequence of answers for the first `i` queues, once. */
  function AllDraws(lens: seq<nat>, i: nat): (ds: seq<seq<nat>>)
    requires i <= |lens|
    ensures forall k :: 0 <= k < |ds| ==> |ds[k]| == i
  {
    if i == 0 then [[]] else Extend(AllDraws(lens, i - 1), Choices(lens, i - 1), i - 1)
  }

  /** For how many of the sequences queue `r` is selected. */
  function Ways(ds: seq<seq<nat>>, lens: seq<nat>, i: nat, r: nat): nat
    requires lens != [] && i <= |lens| && forall k :: 0 <= k < |ds| ==> |ds[k]| == i
  {
    if ds == [] then 0
    else Ways(ds[..|ds| - 1], lens, i, r) + if Chosen(lens, i, ds[|ds| - 1]) == r then 1 else 0
  }

  lemma {:induction false} WaysConcat(a: seq<seq<nat>>, b: seq<seq<nat>>, lens: seq<nat>, i: nat, r: nat)
    requires lens != [] && i <= |lens|
    requires (forall k :: 0 <= k < |a| ==> |a[k]| == i) && forall k :: 0 <= k < |b| ==> |b[k]| == i
    ensures Ways(a + b, lens, i, r) == Ways(a, lens, i, r) + Ways(b, lens, i, r)
  {
    if b == [] {
      assert a + b == a;
    } else {
      WaysConcat(a, b[..|b| - 1], lens, i, r);
      assert (a + b)[..|a + b| - 1] == a + b[..|b| - 1];
    }
  }

  lemma {:induction false} ChosenPrefix(lens: seq<nat>, i: nat, d: seq<nat>, e: seq<nat>)
    requires lens != [] && i <= |lens| && i <= |d| && i <= |e| && d[..i] == e[..i]
    ensures Chosen(lens, i, d) == Chosen(lens, i, e)
  {
    if i > 0 {
      assert d[i - 1] == d[..i][i - 1] == e[..i][i - 1] == e[i - 1];
      assert d[..i - 1] == d[..i][..i - 1] == e[..i][..i - 1] == e[..i - 1];
      ChosenPrefix(lens, i - 1, d, e);
    }
  }

  /** One sequence of answers for `i` queues, continued with each answer at queue `i`. */
  lemma {:induction false} WaysEach(lens: seq<nat>, i: nat, d: seq<nat>, n: nat, r: nat)
    requires i < |lens| && |d| == i && n > 0
    ensures Ways(Each(d, n), lens, i + 1, r) ==
              if Top(lens, i) < lens[i] then (if r == i then n else 0)
              else if Top(lens, i) == lens[i] then
                (if r == i then 1 else 0) + if Chosen(lens, i, d) == r then n - 1 else 0
              else if Chosen(lens, i, d) == r then n else 0
  {
    ChosenPrefix(lens, i, d + [n - 1], d);
    assert Each(d, n)[..n - 1] == Each(d, n - 1);
    if n > 1 { WaysEach(lens, i, d, n - 1, r); }
  }

  /** a * n, as a sum of `a` terms */
  function Mul(a: nat, n: nat): nat { if a == 0 then 0 else Mul(a - 1, n) + n }

  lemma {:induction false} MulIsProduct(a: nat, n: nat)
    ensures Mul(a, n) == a * n
  {
    if a > 0 {
      MulIsProduct(a - 1, n);
      Distribute(a, 1, n);
    }
  }

  lemma {:induction false} ExtendSize(ds: seq<seq<nat>>, n: nat, i: nat)
    requires forall k :: 0 <= k < |ds| ==> |ds[k]| == i
    ensures |Extend(ds, n, i)| == Mul(|ds|, n)
  {
    if ds != [] { ExtendSize(ds[..|ds| - 1], n, i); }
  }

  /** How often `r` is chosen after queue `i` with its `n` answers, if `ways` of `size` sequences chose it before. */
  function Gain(lens: seq<nat>, i: nat, n: nat, r: nat, size: nat, ways: nat): nat
    requires i < |lens| && n > 0
  {
    if Top(lens, i) < lens[i] then (if r == i then Mul(size, n) else 0)
    else if Top(lens, i) == lens[i] then (if r == i then size else 0) + Mul(ways, n - 1)
    else Mul(ways, n)
  }

  lemma {:induction false} WaysExtend(ds: seq<seq<nat>>, lens: seq<nat>, i: nat, n: nat, r: nat)
    requires i < |lens| && n > 0 && forall k :: 0 <= k < |ds| ==> |ds[k]| == i
    ensures Ways(Extend(ds, n, i), lens, i + 1, r) == Gain(lens, i, n, r, |ds|, Ways(ds, lens, i, r))
  {
    if ds != [] {
      var es, d := ds[..|ds| - 1], ds[|ds| - 1];
      WaysExtend(es, lens, i, n, r);
      WaysEach(lens, i, d, n, r);
      WaysConcat(Extend(es, n, i), Each(d, n), lens, i + 1, r);
      GainMore(lens, i, n, r, |es|, Ways(es, lens, i, r), Chosen(lens, i, d) == r);
      assert Extend(ds, n, i) == Extend(es, n, i) + Each(d, n);
    }
  }

  /** One more sequence, which chose `r` or not. */
  lemma GainMore(lens: seq<nat>, i: nat, n: nat, r: nat, size: nat, ways: nat, chose: bool)
    requires i < |lens| && n > 0
    ensures Gain(lens, i, n, r, size + 1, if chose then ways + 1 else ways) == Gain(lens, i, n, r, size, ways) +
              if Top(lens, i) < lens[i] then (if r == i then n else 0)
              else if Top(lens, i) == lens[i] then (if r == i then 1 else 0) + if chose then n - 1 else 0
              else if chose then n else 0
  {
  }

  /** The selected length is that of a longest queue so far. */
  lemma {:induction false} TopIsLongest(lens: seq<nat>, i: nat)
    requires lens != [] && i <= |lens|
    ensures lens[0] <= Top(lens, i) && forall r :: 0 <= r < i ==> lens[r] <= Top(lens, i)
  {
    if i > 0 { TopIsLongest(lens, i - 1); }
  }

  /** How often queue `r` counts: the first queue is found to be as long as itself. */
  function Weight(i: nat, r: nat): nat { if r == 0 && i > 0 then 2 else 1 }

  lemma {:induction false} MulIsPositive(a: nat, n: nat)
    requires n > 0
    ensures Mul(a, n) >= a
  {
    if a > 0 { MulIsPositive(a - 1, n); }
  }

  lemma {:induction false} DrawsExist(lens: seq<nat>, i: nat)
    requires i <= |lens|
    ensures |AllDraws(lens, i)| > 0
  {
    if i > 0 {
      DrawsExist(lens, i - 1);
      ExtendSize(AllDraws(lens, i - 1), Choices(lens, i - 1), i - 1);
      MulIsPositive(|AllDraws(lens, i - 1)|, Choices(lens, i - 1));
    }
  }

  /** A tie: `ways` of `all` sequences chose queue r, and `ties` queues were tied. */
  lemma TieShares(ways: nat, all: nat, ties: nat, weight: nat)
    requires ways * ties == all * weight
    ensures (ties * ways) * (ties + 1) == (all * (ties + 1)) * weight
  {
    calc {
      (ties * ways) * (ties + 1);
      (ways * ties) * (ties + 1);
      (all * weight) * (ties + 1);
      (all * (ties + 1)) * weight;
    }
  }

  /** The shares after queue `j`, from those before. */
  lemma ShareStep(lens: seq<nat>, j: nat, r: nat, size0: nat, ways0: nat, size: nat, ways: nat)
    requires j < |lens| && r <= j && (j == 0 ==> size0 == 1)
    requires Top(lens, j) < lens[j] ==> r == j > 0
    requires Top(lens, j) > lens[j] ==> r < j
    requires Top(lens, j) >= lens[j] && (r < j || j == 0) ==>
               Mul(ways0, Ties(lens, j)) == Mul(size0, Weight(j, r))
    requires Top(lens, j) == lens[j] && r == j > 0 ==> ways0 == 0
    requires ways == Gain(lens, j, Choices(lens, j), r, size0, ways0) && size == Mul(size0, Choices(lens, j))
    ensures Mul(ways, Ties(lens, j + 1)) == Mul(size, Weight(j + 1, r))
  {
    var n := Choices(lens, j);
    MulIsProduct(size0, n);
    MulIsProduct(ways0, n);
    MulIsProduct(ways0, n - 1);
    MulIsProduct(ways0, Ties(lens, j));
    MulIsProduct(size0, Weight(j, r));
    MulIsProduct(ways, Ties(lens, j + 1));
    MulIsProduct(size, Weight(j + 1, r));
    if Top(lens, j) == lens[j] && r < j {
      TieShares(ways0, size0, Ties(lens, j), Weight(j, r));
    }
  }

  /** The number of sequences, and of those that choose `r`, in numbers alone. */
  function SizeOf(lens: seq<nat>, i: nat): nat
    requires i <= |lens|
  {
    if i == 0 then 1 else Mul(SizeOf(lens, i - 1), Choices(lens, i - 1))
  }

  function WaysOf(lens: seq<nat>, i: nat, r: nat): nat
    requires i <= |lens|
  {
    if i == 0 then (if r == 0 then 1 else 0)
    else Gain(lens, i - 1, Choices(lens, i - 1), r, SizeOf(lens, i - 1), WaysOf(lens, i - 1, r))
  }

  lemma {:induction false} Counted(lens: seq<nat>, i: nat, r: nat)
    requires lens != [] && i <= |lens|
    ensures |AllDraws(lens, i)| == SizeOf(lens, i) && Ways(AllDraws(lens, i), lens, i, r) == WaysOf(lens, i, r)
  {
    if i == 0 {
      assert AllDraws(lens, 0)[..0] == [];
    } else {
      var j := i - 1;
      var ds, n := AllDraws(lens, j), Choices(lens, j);
      var es := Extend(ds, n, j);
      Counted(lens, j, r);
      ExtendSize(ds, n, j);
      WaysExtend(ds, lens, j, n, r);
      var w := Ways(es, lens, i, r);
      assert w == Gain(lens, j, n, r, |ds|, Ways(ds, lens, j, r)) == WaysOf(lens, i, r);
      assert AllDraws(lens, i) == es;
    }
  }

  lemma {:induction false} NotYet(lens: seq<nat>, i: nat, r: nat)
    requires i <= |lens| && 0 < i <= r
    ensures WaysOf(lens, i, r) == 0
  {
    if i > 1 { NotYet(lens, i - 1, r); }
  }

  /** Each of the longest queues is chosen by its share of the draws, but queue 0 by two shares. */
  lemma {:induction false} Shares(lens: seq<nat>, i: nat, r: nat)
    requires i <= |lens| && r < |lens| && (r < i || r == 0) && lens[r] == Top(lens, i)
    ensures Mul(WaysOf(lens, i, r), Ties(lens, i)) == Mul(SizeOf(lens, i), Weight(i, r))
  {
    if i > 0 {
      var j := i - 1;
      TopIsLongest(lens, j);
      if Top(lens, j) >= lens[j] {
        if r < j || j == 0 { Shares(lens, j, r); } else { NotYet(lens, j, r); }
      }
      ShareStep(lens, j, r, SizeOf(lens, j), WaysOf(lens, j, r), SizeOf(lens, i), WaysOf(lens, i, r));
    }
  }

  predicate Longest(lens: seq<nat>, r: nat) {
    r < |lens| && forall q :: 0 <= q < |lens| ==> lens[q] <= lens[r]
  }

  lemma {:induction false} TopIsSome(lens: seq<nat>, i: nat) returns (q: nat)
    requires lens != [] && i <= |lens|
    ensures q < |lens| && Top(lens, i) == lens[q]
  {
    if i == 0 {
      q := 0;
    } else {
      q := TopIsSome(lens, i - 1);
      if Top(lens, i - 1) < lens[i - 1] { q := i - 1; }
    }
  }

  /** For how many draws in all queue `r` is chosen. */
  function Share(lens: seq<nat>, r: nat): nat
    requires lens != []
  {
    Ways(AllDraws(lens, |lens|), lens, |lens|, r)
  }

  lemma LongestShare(lens: seq<nat>, r: nat)
    requires lens != [] && Longest(lens, r)
    ensures Share(lens, r) * Ties(lens, |lens|) == |AllDraws(lens, |lens|)| * Weight(|lens|, r)
  {
    TopIsLongest(lens, |lens|);
    var q := TopIsSome(lens, |lens|);
    Counted(lens, |lens|, r);
    Shares(lens, |lens|, r);
    MulIsProduct(Share(lens, r), Ties(lens, |lens|));
    MulIsProduct(|AllDraws(lens, |lens|)|, Weight(|lens|, r));
  }

  lemma CompareShares(lens: seq<nat>, r: nat, s: nat)
    requires lens != [] && Longest(lens, r) && Longest(lens, s)
    ensures Share(lens, r) == Share(lens, s) <==> (r == 0 <==> s == 0)
  {
    LongestShare(lens, r);
    LongestShare(lens, s);
    DrawsExist(lens, |lens|);
    Cancel(Share(lens, r), Share(lens, s), Ties(lens, |lens|), |AllDraws(lens, |lens|)|,
           Weight(|lens|, r), Weight(|lens|, s));
  }

  lemma Cancel(a: nat, b: nat, n: nat, all: nat, v: nat, w: nat)
    requires n > 0 && all > 0 && a * n == all * v && b * n == all * w
    ensures a == b <==> v == w
  {
    Distribute(a, b, n);
    Distribute(v, w, all);
    MultipleBound(n, a - b);
    MultipleBound(all, v - w);
  }

  /** The random choice is uniform among the longest queues if and only if queue 0 is not one of several. */
  lemma Uniform(lens: seq<nat>)
    requires lens != []
    ensures (forall r, s :: Longest(lens, r) && Longest(lens, s) ==> Share(lens, r) == Share(lens, s))
            <==> !Longest(lens, 0) || forall r :: Longest(lens, r) ==> r == 0
  {
    forall r, s | Longest(lens, r) && Longest(lens, s)
      ensures Share(lens, r) == Share(lens, s) <==> (r == 0 <==> s == 0)
    {
      CompareShares(lens, r, s);
    }
  }

  /** Two queues of equal length, 0 and another: of the six sequences of draws four take queue 0. */
  lemma TwoTied(n: nat)
    requires n > 0
    ensures var lens := [n, n]; |AllDraws(lens, 2)| == 6 && Share(lens, 0) == 4 && Share(lens, 1) == 2
  {
    var lens := [n, n];
    assert Choices(lens, 0) == 2 && Ties(lens, 1) == 2 && Choices(lens, 1) == 3 && Ties(lens, 2) == 3;
    ExtendSize(AllDraws(lens, 0), 2, 0);
    ExtendSize(AllDraws(lens, 1), 3, 1);
    LongestShare(lens, 0);
    LongestShare(lens, 1);
  }
}
