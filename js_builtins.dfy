/** The JavaScript built-ins the dish-detail component and the leader service
    rely on, with the semantics the language gives them. */
module Js {
  import opened Wrappers

  /** The `%` operator on numbers: the remainder truncates toward zero, so its
      sign is that of the dividend. `(-1) % n` is `-1` for `n > 1` and `-0`
      for `n == 1`; `-0` is the integer 0 here, which is what it is as an
      array index. Dafny's own `%` is Euclidean and is NOT this operator. */
  function Remainder(a: int, n: int): (r: int)
    requires n > 0
    ensures -n < r < n
    ensures a > 0 ==> r >= 0
    ensures a < 0 ==> r <= 0
  {
    if a >= 0 then a % n else -((-a) % n)
  }

  /** `a` and `a % n` differ by a multiple of `n`: with the bounds and the
      sign above this pins the truncated remainder down uniquely. */
  lemma RemainderCongruent(a: int, n: int)
    requires n > 0
    ensures (a - Remainder(a, n)) % n == 0
  {
    if a >= 0 {
      assert a - a % n == (a / n) * n;
      MultipleMod(a / n, n);
    } else {
      assert a - -((-a) % n) == (-((-a) / n)) * n;
      MultipleMod(-((-a) / n), n);
    }
  }

  /** Within one length of zero the truncated remainder is the dividend
      itself (for a negative dividend the Euclidean one would add `n`). */
  lemma RemainderOfSmall(a: int, n: int)
    requires -n < a < n
    ensures Remainder(a, n) == a
  {
    if a >= 0 {
      ModOfSmall(a, n);
    } else {
      ModOfSmall(-a, n);
    }
  }

  lemma ModOfSmall(b: int, n: int)
    requires 0 <= b < n
    ensures b % n == b
  {
  }

  /** `n % n` is 0: the index one past the end wraps to the front. */
  lemma RemainderOfLength(n: int)
    requires n > 0
    ensures Remainder(n, n) == 0
  {
  }

  /** A multiple of `n` leaves no (Euclidean) remainder. */
  lemma MultipleMod(k: int, n: int)
    requires n > 0
    ensures (k * n) % n == 0
  {
    var m := k * n;
    var q := m / n;
    assert m == q * n + m % n;
    Distribute(k, q, n);
    assert (k - q) * n == m % n;
    MulSign(k - q, n);
  }

  lemma Distribute(k: int, q: int, n: int)
    ensures (k - q) * n == k * n - q * n
  {
  }

  lemma MulSign(d: int, n: int)
    requires n > 0
    ensures d >= 1 ==> d * n >= n
    ensures d <= -1 ==> d * n <= -n
  {
  }

  /** Reading `s[k]` from an array: `undefined` unless `k` is an index of `s`. */
  function ElementAt<T>(s: seq<T>, k: int): (r: Option<T>)
    ensures r.Some? <==> 0 <= k < |s|
    ensures r.Some? ==> r.value == s[k]
  {
    if 0 <= k < |s| then Some(s[k]) else None
  }

  /** `s.indexOf(x)`: the first index holding `x`, or -1 when there is none. */
  function IndexOf<T(==)>(s: seq<T>, x: T): (i: int)
    ensures -1 <= i < |s|
    ensures i == -1 <==> x !in s
    ensures 0 <= i ==> s[i] == x && forall j :: 0 <= j < i ==> s[j] != x
  {
    if |s| == 0 then -1
    else if s[0] == x then 0
    else
      var k := IndexOf(s[1..], x);
      if k == -1 then -1 else k + 1
  }

  /** The index `IndexOf` finds is the first occurrence, whichever one that is. */
  lemma IndexOfFirstOccurrence<T>(s: seq<T>, x: T, i: int)
    requires 0 <= i < |s| && s[i] == x
    requires forall j :: 0 <= j < i ==> s[j] != x
    ensures IndexOf(s, x) == i
  {
  }

  /** `s.filter(p)`: the elements of `s` that satisfy `p`, in their order. */
  function Filter<T>(s: seq<T>, p: T -> bool): (r: seq<T>)
    ensures |r| <= |s|
    ensures forall x :: x in r ==> x in s && p(x)
    ensures r == [] <==> forall i :: 0 <= i < |s| ==> !p(s[i])
  {
    if |s| == 0 then []
    else if p(s[0]) then [s[0]] + Filter(s[1..], p)
    else Filter(s[1..], p)
  }

  /** The head of `s.filter(p)` is the first element of `s` that satisfies `p`. */
  lemma {:induction false} FilterHead<T>(s: seq<T>, p: T -> bool, i: int)
    requires 0 <= i < |s| && p(s[i])
    requires forall j :: 0 <= j < i ==> !p(s[j])
    ensures |Filter(s, p)| > 0 && Filter(s, p)[0] == s[i]
  {
    if i > 0 {
      FilterHead(s[1..], p, i - 1);
    }
  }
}
