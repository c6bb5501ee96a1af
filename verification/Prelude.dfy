/** Small shared vocabulary: optional values, minimum and maximum, and counting and
    filtering over a run of yes/no decisions. */
module Prelude {

  datatype Option<+T> = None | Some(value: T)

  function Min(x: int, y: int): int {
    if x <= y then x else y
  }

  function Max(x: int, y: int): int {
    if x <= y then y else x
  }

  /** How many of the decisions with index in `[i, j)` are positive. */
  function Count(d: seq<bool>, i: nat, j: nat): (n: nat)
    requires i <= j <= |d|
    ensures n <= j - i
    decreases j
  {
    if i == j then 0 else Count(d, i, j - 1) + (if d[j - 1] then 1 else 0)
  }

  lemma {:induction false} CountSplit(d: seq<bool>, i: nat, k: nat, j: nat)
    requires i <= k <= j <= |d|
    ensures Count(d, i, j) == Count(d, i, k) + Count(d, k, j)
    decreases j
  {
    if k < j {
      CountSplit(d, i, k, j - 1);
    }
  }

  lemma {:induction false} OneCounted(d: seq<bool>, i: nat, j: nat) returns (p: nat)
    requires i <= j <= |d| && Count(d, i, j) >= 1
    ensures i <= p < j && d[p]
    decreases j
  {
    if d[j - 1] {
      p := j - 1;
    } else {
      p := OneCounted(d, i, j - 1);
    }
  }

  lemma {:induction false} TwoCounted(d: seq<bool>, i: nat, j: nat) returns (p: nat, q: nat)
    requires i <= j <= |d| && Count(d, i, j) >= 2
    ensures i <= p < q < j && d[p] && d[q]
    decreases j
  {
    if d[j - 1] {
      p := OneCounted(d, i, j - 1);
      q := j - 1;
    } else {
      p, q := TwoCounted(d, i, j - 1);
    }
  }

  lemma {:induction false} CountAll(d: seq<bool>, j: nat)
    requires j <= |d| && forall k: nat :: k < j ==> d[k]
    ensures Count(d, 0, j) == j
    decreases j
  {
    if j > 0 {
      CountAll(d, j - 1);
    }
  }

  lemma {:induction false} SubsetSize<T>(a: set<T>, b: set<T>)
    requires a <= b
    ensures |a| <= |b|
  {
    assert b == a + (b - a);
  }

  /** Exchanging one missing element for one surplus element. */
  lemma {:induction false} OneForOne<T>(a: set<T>, b: set<T>, missing: T, surplus: T)
    requires surplus in b && surplus !in a && forall x :: x in a && x !in b ==> x == missing
    ensures |a| <= |b|
  {
    assert a - {missing} <= b - {surplus};
    SubsetSize(a - {missing}, b - {surplus});
  }

  lemma {:induction false} AllTheSame<T>(s: set<T>)
    requires forall x, y :: x in s && y in s ==> x == y
    ensures |s| <= 1
  {
    if x :| x in s {
      assert s == {x};
    }
  }

  /** The elements of `s` whose flag in `keep` is set, in order. */
  function Filter<T>(s: seq<T>, keep: seq<bool>): (r: seq<T>)
    requires |s| == |keep|
    ensures |r| <= |s|
  {
    if s == [] then [] else
      var n := |s| - 1;
      Filter(s[..n], keep[..n]) + (if keep[n] then [s[n]] else [])
  }

  lemma {:induction false} FilterSnoc<T>(s: seq<T>, x: T, keep: seq<bool>, k: bool)
    requires |s| == |keep|
    ensures Filter(s + [x], keep + [k]) == (if k then Filter(s, keep) + [x] else Filter(s, keep))
  {
    assert (s + [x])[..|s|] == s && (keep + [k])[..|s|] == keep;
  }

  /** The stretch `i..n` explains the refusal at `n`: what `d` accepted in it before the refusal
      is already as much as `sel` accepts in it including the refused request. */
  predicate Explains(d: seq<bool>, sel: seq<bool>, i: nat, n: nat)
    requires |d| == |sel|
  {
    i <= n < |d| && Count(sel, i, n + 1) <= Count(d, i, n)
  }

  ghost predicate EveryRefusalExplained(d: seq<bool>, sel: seq<bool>)
    requires |d| == |sel|
  {
    forall n: nat :: n < |d| && !d[n] ==> exists i: nat :: Explains(d, sel, i, n)
  }

  /** The greedy exchange argument: if every refusal of `d` is explained, then `d` accepts at least
      as many as `sel` in every prefix. */
  lemma {:induction false} GreedyDominates(d: seq<bool>, sel: seq<bool>, m: nat)
    requires |d| == |sel| && m <= |d|
    requires EveryRefusalExplained(d, sel)
    ensures Count(sel, 0, m) <= Count(d, 0, m)
    decreases m
  {
    if m > 0 {
      var n: nat := m - 1;
      GreedyDominates(d, sel, n);
      if !d[n] {
        var i: nat :| Explains(d, sel, i, n);
        GreedyDominates(d, sel, i);
        CountSplit(sel, 0, i, m);
        CountSplit(d, 0, i, n);
      }
    }
  }
}
