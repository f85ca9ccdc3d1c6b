/** Small facts about products and quotients, each proved on its own. */
module Arith {
  lemma MulLe(n: nat, x: nat, y: nat)
    requires x <= y
    ensures n * x <= n * y
  {
    assert n * (y - x) >= 0;
  }

  lemma Distribute(a: int, x: int, y: int)
    ensures a * (x + y) == a * x + a * y
    ensures a * (x - y) == a * x - a * y
  {
  }

  lemma Regroup(a: int, b: int, c: int)
    ensures a * (b * c) == (a * b) * c == b * (a * c)
  {
  }

  lemma Cancel(n: nat, x: nat, y: nat)
    requires n >= 1 && n * x <= n * y
    ensures x <= y
  {
    if x > y {
      MulLe(n, y + 1, x);
      Distribute(n, y, 1);
      assert false;
    }
  }

  lemma DivModUnique(x: nat, n: nat, a: nat, b: nat)
    requires b < n && x == n * a + b
    ensures x / n == a && x % n == b
  {
    var q, r := x / n, x % n;
    assert x == n * q + r;
    if q > a {
      MulLe(n, a + 1, q);
      Distribute(n, a, 1);
      assert false;
    } else if q < a {
      MulLe(n, q + 1, a);
      Distribute(n, q, 1);
      assert false;
    }
  }

  lemma DivMod(x: nat, n: nat)
    requires n >= 1
    ensures x == n * (x / n) + x % n
  {
  }

  /** Multiplication by repeated addition, so that inductions stay linear. */
  function Times(a: nat, n: nat): nat {
    if n == 0 then 0 else Times(a, n - 1) + a
  }

  lemma {:induction false} TimesIsProduct(a: nat, n: nat)
    ensures Times(a, n) == n * a
  {
    if n > 0 {
      TimesIsProduct(a, n - 1);
      Distribute(a, n, 1);
    }
  }

  lemma {:induction false} TimesAdds(a: nat, m: nat, n: nat)
    ensures Times(a, m + n) == Times(a, m) + Times(a, n)
  {
    if n > 0 {
      TimesAdds(a, m, n - 1);
    }
  }

  function Sum(xs: seq<nat>): nat {
    if xs == [] then 0 else Sum(xs[..|xs| - 1]) + xs[|xs| - 1]
  }

  lemma {:induction false} SumUpdate(xs: seq<nat>, i: nat, x: nat)
    requires i < |xs|
    ensures Sum(xs[i := x]) == Sum(xs) - xs[i] + x
    ensures Sum(xs) >= xs[i]
    decreases |xs|
  {
    var n := |xs| - 1;
    if i == n {
      assert xs[i := x][..n] == xs[..n];
    } else {
      assert xs[i := x][..n] == xs[..n][i := x];
      SumUpdate(xs[..n], i, x);
    }
  }

  lemma {:induction false} SumMonotone(xs: seq<nat>, ys: seq<nat>)
    requires |xs| == |ys|
    requires forall i :: 0 <= i < |xs| ==> xs[i] <= ys[i]
    ensures Sum(xs) <= Sum(ys)
    decreases |xs|
  {
    if xs != [] {
      SumMonotone(xs[..|xs| - 1], ys[..|xs| - 1]);
    }
  }

  lemma {:induction false} SumConstant(xs: seq<nat>, x: nat)
    requires forall i :: 0 <= i < |xs| ==> xs[i] == x
    ensures Sum(xs) == |xs| * x
    decreases |xs|
  {
    if xs != [] {
      SumConstant(xs[..|xs| - 1], x);
      Distribute(x, |xs|, 1);
    }
  }

  lemma OneMoreIn(now: set<nat>, before: set<nat>, n: nat)
    requires n !in before && forall i :: i != n ==> (i in now <==> i in before)
    ensures |now| == |before| + (if n in now then 1 else 0)
  {
    assert now == if n in now then before + {n} else before;
  }
}
