/** Sums over lists, of integers and of reals, and two facts about products. */
module Sums {

  function Sum<T>(s: seq<T>, f: T -> int): (n: int) {
    if s == [] then 0 else Sum(s[..|s| - 1], f) + f(s[|s| - 1])
  }

  lemma SumNext<T>(s: seq<T>, f: T -> int, n: nat)
    requires n < |s|
    ensures Sum(s[..n + 1], f) == Sum(s[..n], f) + f(s[n])
  {
    assert s[..n + 1][..n] == s[..n];
  }

  lemma SumSnoc<T>(s: seq<T>, x: T, f: T -> int)
    ensures Sum(s + [x], f) == Sum(s, f) + f(x)
  {
    assert (s + [x])[..|s|] == s;
  }

  lemma {:induction false} SumUpdate<T>(s: seq<T>, f: T -> int, i: nat, x: T)
    requires i < |s|
    ensures Sum(s[i := x], f) == Sum(s, f) - f(s[i]) + f(x)
  {
    var l := |s| - 1;
    if i == l {
      assert s[i := x][..l] == s[..l];
    } else {
      assert s[i := x][..l] == s[..l][i := x];
      SumUpdate(s[..l], f, i, x);
    }
  }

  lemma {:induction false} SumWithout<T>(s: seq<T>, f: T -> int, i: nat)
    requires i < |s|
    ensures Sum(s, f) == Sum(s[..i] + s[i + 1..], f) + f(s[i])
  {
    var l := |s| - 1;
    if i == l {
      assert s[..i] + s[i + 1..] == s[..l];
    } else {
      SumWithout(s[..l], f, i);
      assert (s[..i] + s[i + 1..])[..l - 1] == s[..l][..i] + s[..l][i + 1..];
    }
  }

  lemma SameWithout<T>(init: seq<T>, x: T, b: seq<T>, i: nat)
    requires i < |b| && b[i] == x && multiset(init + [x]) == multiset(b)
    ensures multiset(init) == multiset(b[..i] + b[i + 1..])
  {
    var rest := b[..i] + b[i + 1..];
    assert b == b[..i] + [x] + b[i + 1..];
    assert multiset(b) == multiset(rest) + multiset{x};
    assert multiset(init) == multiset(b) - multiset{x};
  }

  /** A sum does not depend on the order. */
  lemma {:induction false} SumSame<T>(a: seq<T>, b: seq<T>, f: T -> int)
    requires multiset(a) == multiset(b)
    ensures Sum(a, f) == Sum(b, f)
    decreases |a|
  {
    if a == [] {
      assert |multiset(b)| == 0;
    } else {
      var init, x := a[..|a| - 1], a[|a| - 1];
      assert a == init + [x];
      assert x in multiset(b);
      var i :| 0 <= i < |b| && b[i] == x;
      SumWithout(b, f, i);
      SameWithout(init, x, b, i);
      SumSame(init, b[..i] + b[i + 1..], f);
    }
  }

  /** Sums of values that are smaller place by place, and somewhere strictly. */
  lemma {:induction false} SumLess<T>(a: seq<T>, b: seq<T>, f: T -> int, i: nat)
    requires |a| == |b| && i < |a| && f(a[i]) < f(b[i])
    requires forall j :: 0 <= j < |a| ==> f(a[j]) <= f(b[j])
    ensures Sum(a, f) < Sum(b, f)
  {
    var l := |a| - 1;
    SumAtMost(a[..l], b[..l], f);
    if i < l {
      SumLess(a[..l], b[..l], f, i);
    }
  }

  lemma {:induction false} SumAtMost<T>(a: seq<T>, b: seq<T>, f: T -> int)
    requires |a| == |b| && forall j :: 0 <= j < |a| ==> f(a[j]) <= f(b[j])
    ensures Sum(a, f) <= Sum(b, f)
  {
    if a != [] {
      SumAtMost(a[..|a| - 1], b[..|a| - 1], f);
    }
  }

  // ---------------------------------------------------------------- real numbers

  function RealSum<T>(s: seq<T>, f: T -> real): (r: real) {
    if s == [] then 0.0 else RealSum(s[..|s| - 1], f) + f(s[|s| - 1])
  }

  lemma RealSumNext<T>(s: seq<T>, f: T -> real, n: nat)
    requires n < |s|
    ensures RealSum(s[..n + 1], f) == RealSum(s[..n], f) + f(s[n])
  {
    assert s[..n + 1][..n] == s[..n];
  }

  lemma {:induction false} RealSumWithout<T>(s: seq<T>, f: T -> real, i: nat)
    requires i < |s|
    ensures RealSum(s, f) == RealSum(s[..i] + s[i + 1..], f) + f(s[i])
  {
    var l := |s| - 1;
    if i == l {
      assert s[..i] + s[i + 1..] == s[..l];
    } else {
      RealSumWithout(s[..l], f, i);
      assert (s[..i] + s[i + 1..])[..l - 1] == s[..l][..i] + s[..l][i + 1..];
    }
  }

  lemma {:induction false} RealSumSame<T>(a: seq<T>, b: seq<T>, f: T -> real)
    requires multiset(a) == multiset(b)
    ensures RealSum(a, f) == RealSum(b, f)
    decreases |a|
  {
    if a == [] {
      assert |multiset(b)| == 0;
    } else {
      var init, x := a[..|a| - 1], a[|a| - 1];
      assert a == init + [x];
      assert x in multiset(b);
      var i :| 0 <= i < |b| && b[i] == x;
      RealSumWithout(b, f, i);
      SameWithout(init, x, b, i);
      RealSumSame(init, b[..i] + b[i + 1..], f);
    }
  }

  lemma {:induction false} RealSumEqual<T>(s: seq<T>, f: T -> real, g: T -> real)
    requires forall i :: 0 <= i < |s| ==> f(s[i]) == g(s[i])
    ensures RealSum(s, f) == RealSum(s, g)
  {
    if s != [] {
      RealSumEqual(s[..|s| - 1], f, g);
    }
  }

  // ---------------------------------------------------------------- products

  lemma Positive(x: real, y: real)
    requires x > 0.0 && y > 0.0
    ensures x * y > 0.0
  {
  }

  lemma Distribute(c: int, x: int, y: int)
    ensures c * (x + y) == c * x + c * y
  {
  }
}
