/** Sums of a quantity over the rows of a query result. */
module Sums {

  function SumBy<T>(f: T -> real, s: seq<T>): real {
    if s == [] then 0.0 else f(s[0]) + SumBy(f, s[1..])
  }

  lemma {:induction false} SumByConcat<T>(f: T -> real, a: seq<T>, b: seq<T>)
    ensures SumBy(f, a + b) == SumBy(f, a) + SumBy(f, b)
  {
    if a == [] {
      assert a + b == b;
    } else {
      assert (a + b)[1..] == a[1..] + b;
      SumByConcat(f, a[1..], b);
    }
  }

  /** Dropping the same element from two rearrangements leaves two rearrangements. */
  lemma DropElement<T>(a: seq<T>, b: seq<T>, k: nat)
    requires a != [] && k < |b| && b[k] == a[0] && multiset(a) == multiset(b)
    ensures multiset(a[1..]) == multiset(b[..k] + b[k + 1..])
  {
    assert a == [a[0]] + a[1..];
    assert b == b[..k] + ([b[k]] + b[k + 1..]);
    assert multiset(a) == multiset{a[0]} + multiset(a[1..]);
    assert multiset(b) == multiset(b[..k]) + (multiset{b[k]} + multiset(b[k + 1..]));
    var rest := multiset(b[..k]) + multiset(b[k + 1..]);
    assert multiset{a[0]} + multiset(a[1..]) == multiset{a[0]} + rest;
    assert multiset(a[1..]) == (multiset{a[0]} + multiset(a[1..])) - multiset{a[0]};
    assert rest == (multiset{a[0]} + rest) - multiset{a[0]};
  }

  /** The order in which the database returns the rows does not matter. */
  lemma {:induction false} SumByPermutation<T>(f: T -> real, a: seq<T>, b: seq<T>)
    requires multiset(a) == multiset(b)
    ensures SumBy(f, a) == SumBy(f, b)
  {
    if a == [] {
      assert |multiset(b)| == 0;
    } else {
      assert a[0] in multiset(b);
      var k :| 0 <= k < |b| && b[k] == a[0];
      DropElement(a, b, k);
      SumByPermutation(f, a[1..], b[..k] + b[k + 1..]);
      SumByConcat(f, b[..k], b[k + 1..]);
      SumByConcat(f, b[..k], [b[k]] + b[k + 1..]);
      assert b == b[..k] + ([b[k]] + b[k + 1..]);
      assert ([b[k]] + b[k + 1..])[1..] == b[k + 1..];
    }
  }

  lemma {:induction false} SumByLe<T>(f: T -> real, g: T -> real, s: seq<T>)
    requires forall x :: x in s ==> f(x) <= g(x)
    ensures SumBy(f, s) <= SumBy(g, s)
  {
    if s != [] {
      SumByLe(f, g, s[1..]);
    }
  }

  /** A product under a name of its own, so that equal factors are recognised without arithmetic. */
  function Times(a: real, b: real): real {
    a * b
  }

  /** A sum whose terms all lie between lo and hi times the terms of another. */
  lemma {:induction false} SumByBetween<T>(f: T -> real, g: T -> real, s: seq<T>, lo: real, hi: real)
    requires forall x :: x in s ==> Times(lo, g(x)) <= f(x) <= Times(hi, g(x))
    ensures Times(lo, SumBy(g, s)) <= SumBy(f, s) <= Times(hi, SumBy(g, s))
  {
    if s != [] {
      SumByBetween(f, g, s[1..], lo, hi);
      AddBetween(lo, hi, f(s[0]), g(s[0]), SumBy(f, s[1..]), SumBy(g, s[1..]));
    }
  }

  lemma AddBetween(lo: real, hi: real, w: real, c: real, w': real, c': real)
    requires Times(lo, c) <= w <= Times(hi, c) && Times(lo, c') <= w' <= Times(hi, c')
    ensures Times(lo, c + c') <= w + w' <= Times(hi, c + c')
  {}

  lemma QuotientBetween(w: real, c: real, lo: real, hi: real)
    requires c > 0.0 && Times(lo, c) <= w <= Times(hi, c)
    ensures lo <= w / c <= hi
  {
    assert w / c * c == w;
  }

  lemma ScaleBetween(lo: real, x: real, hi: real, u: real)
    requires lo <= x <= hi && 0.0 <= u
    ensures Times(lo, u) <= x * u <= Times(hi, u)
  {
    assert 0.0 <= (x - lo) * u && 0.0 <= (hi - x) * u;
  }

  lemma {:induction false} SumByNonNegative<T>(f: T -> real, s: seq<T>)
    requires forall x :: x in s ==> 0.0 <= f(x)
    ensures 0.0 <= SumBy(f, s)
  {
    if s != [] {
      SumByNonNegative(f, s[1..]);
    }
  }

  function TotalBy<T>(f: T -> nat, s: seq<T>): nat {
    if s == [] then 0 else f(s[0]) + TotalBy(f, s[1..])
  }
}
