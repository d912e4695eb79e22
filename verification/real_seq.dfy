/**
  Sums, products, powers and running products over sequences of reals:
  the array primitives (sum, cumulative product, repeat, element-wise
  arithmetic) that the retirement projection is written with.
*/
module RealSeq {

  /** Sum of the entries of a row. */
  function Sum(s: seq<real>): real
  {
    if |s| == 0 then 0.0 else s[0] + Sum(s[1..])
  }

  /** Product of the entries of a row; the empty product is 1. */
  function Prod(s: seq<real>): real
  {
    if |s| == 0 then 1.0 else s[0] * Prod(s[1..])
  }

  /** b raised to the natural power n. */
  function Pow(b: real, n: nat): real
  {
    if n == 0 then 1.0 else b * Pow(b, n - 1)
  }

  predicate AllPositive(s: seq<real>)
  {
    forall k :: 0 <= k < |s| ==> s[k] > 0.0
  }

  /** Every rate is above -100%, so that (1 + rate) is a positive factor. */
  predicate AboveMinusOne(s: seq<real>)
  {
    forall k :: 0 <= k < |s| ==> s[k] > -1.0
  }

  predicate AllZero(s: seq<real>)
  {
    forall k :: 0 <= k < |s| ==> s[k] == 0.0
  }

  /** A row of n copies of c. */
  function Constant(n: nat, c: real): seq<real>
  {
    seq(n, _ => c)
  }

  /** Element-wise 1 + s: growth factors from rates. */
  function OnePlus(s: seq<real>): (r: seq<real>)
    ensures |r| == |s|
    ensures AboveMinusOne(s) ==> AllPositive(r)
  {
    seq(|s|, k requires 0 <= k < |s| => 1.0 + s[k])
  }

  /** Element-wise c * s. */
  function Scale(c: real, s: seq<real>): (r: seq<real>)
    ensures |r| == |s|
  {
    seq(|s|, k requires 0 <= k < |s| => c * s[k])
  }

  /** Element-wise product of two rows of the same width. */
  function Times(a: seq<real>, b: seq<real>): (r: seq<real>)
    requires |a| == |b|
    ensures |r| == |a|
  {
    seq(|a|, k requires 0 <= k < |a| => a[k] * b[k])
  }

  /** Element-wise quotient of two rows of the same width. */
  function Over(a: seq<real>, b: seq<real>): (r: seq<real>)
    requires |a| == |b| && AllPositive(b)
    ensures |r| == |a|
  {
    seq(|a|, k requires 0 <= k < |a| => a[k] / b[k])
  }

  /** Cumulative product of a row: entry k is s[0] * ... * s[k], entry k itself included. */
  function CumProd(s: seq<real>): (r: seq<real>)
    ensures |r| == |s|
  {
    seq(|s|, k requires 0 <= k < |s| => Prod(s[..k + 1]))
  }

  /** Each entry of s repeated n times in place: [s0 x n, s1 x n, ...]. */
  function Repeat(s: seq<real>, n: nat): (r: seq<real>)
    ensures |r| == |s| * n
  {
    if |s| == 0 then [] else Constant(n, s[0]) + Repeat(s[1..], n)
  }

  /** Entry j of (c * a) / d. */
  lemma QuotientEntry(c: real, a: seq<real>, d: seq<real>, j: nat)
    requires |a| == |d| && AllPositive(d) && j < |a|
    ensures d[j] > 0.0 && Over(Scale(c, a), d)[j] == c * a[j] / d[j]
  {
  }

  /** Scaling the numerators of a quotient row scales the row. */
  lemma OverScaleLinear(c: real, spend: real, a: seq<real>, d: seq<real>)
    requires |a| == |d| && AllPositive(d)
    ensures Over(Scale(c * spend, a), d) == Scale(c, Over(Scale(spend, a), d))
  {
    forall j | 0 <= j < |a|
      ensures Over(Scale(c * spend, a), d)[j] == Scale(c, Over(Scale(spend, a), d))[j]
    {
      QuotientEntry(c * spend, a, d, j);
      QuotientEntry(spend, a, d, j);
      QuotientScale(c, spend, a[j], d[j], Over(Scale(c * spend, a), d)[j], Over(Scale(spend, a), d)[j]);
    }
  }

  /** Arithmetic step over plain reals, proved apart from any sequence facts to keep the solver's context small. */
  lemma QuotientScale(c: real, spend: real, a: real, d: real, l: real, r: real)
    requires d != 0.0 && l == c * spend * a / d && r == spend * a / d
    ensures l == c * r
  {
  }

  /** Spending divided by unit factors is the spending itself. */
  lemma OverOnes(spend: real, n: nat)
    ensures AllPositive(Constant(n, 1.0))
    ensures Over(Scale(spend, Constant(n, 1.0)), Constant(n, 1.0)) == Constant(n, spend)
  {
  }

  lemma {:induction false} SumScale(c: real, s: seq<real>)
    ensures Sum(Scale(c, s)) == c * Sum(s)
  {
    if |s| > 0 {
      var r := Scale(c, s);
      assert r[0] == c * s[0];
      assert r[1..] == Scale(c, s[1..]) by {
        forall k | 0 <= k < |s| - 1 ensures r[1..][k] == Scale(c, s[1..])[k] {
          assert r[1..][k] == r[k + 1] == c * s[k + 1];
        }
      }
      SumScale(c, s[1..]);
    }
  }

  lemma {:induction false} SumConstant(n: nat, c: real)
    ensures Sum(Constant(n, c)) == n as real * c
  {
    if n > 0 {
      assert Constant(n, c)[1..] == Constant(n - 1, c);
      SumConstant(n - 1, c);
    }
  }

  lemma {:induction false} SumPositive(s: seq<real>)
    requires AllPositive(s)
    ensures Sum(s) >= 0.0
    ensures |s| > 0 ==> Sum(s) > 0.0
  {
    if |s| > 0 {
      SumPositive(s[1..]);
    }
  }

  lemma {:induction false} ProdPositive(s: seq<real>)
    requires AllPositive(s)
    ensures Prod(s) > 0.0
  {
    if |s| > 0 {
      ProdPositive(s[1..]);
    }
  }

  lemma {:induction false} PowPositive(b: real, n: nat)
    requires b > 0.0
    ensures Pow(b, n) > 0.0
  {
    if n > 0 {
      PowPositive(b, n - 1);
    }
  }

  lemma {:induction false} PowOne(n: nat)
    ensures Pow(1.0, n) == 1.0
  {
    if n > 0 {
      PowOne(n - 1);
    }
  }

  /** The product of n copies of c is c to the n. */
  lemma {:induction false} ProdConstant(n: nat, c: real)
    ensures Prod(Constant(n, c)) == Pow(c, n)
  {
    if n > 0 {
      assert Constant(n, c)[1..] == Constant(n - 1, c);
      ProdConstant(n - 1, c);
    }
  }

  /** Running products of positive factors are positive. */
  lemma CumProdPositive(s: seq<real>)
    requires AllPositive(s)
    ensures AllPositive(CumProd(s))
  {
    forall k | 0 <= k < |s|
      ensures CumProd(s)[k] > 0.0
    {
      ProdPositive(s[..k + 1]);
    }
  }

  /** The row read from its last entry to its first. */
  function Reverse(s: seq<real>): (r: seq<real>)
    ensures |r| == |s|
  {
    seq(|s|, k requires 0 <= k < |s| => s[|s| - 1 - k])
  }

  /** The sum of two rows placed end to end is the sum of their sums. */
  lemma {:induction false} SumAppend(a: seq<real>, b: seq<real>)
    ensures Sum(a + b) == Sum(a) + Sum(b)
  {
    if |a| == 0 {
      assert a + b == b;
    } else {
      assert (a + b)[1..] == a[1..] + b;
      SumAppend(a[1..], b);
    }
  }

  /** Summing a row backwards gives the same total. */
  lemma {:induction false} SumReverse(s: seq<real>)
    ensures Sum(Reverse(s)) == Sum(s)
  {
    if |s| != 0 {
      assert Reverse(s) == Reverse(s[1..]) + [s[0]];
      SumAppend(Reverse(s[1..]), [s[0]]);
      SumReverse(s[1..]);
      assert Sum([s[0]]) == s[0] + Sum([]);
    }
  }

  /** Entry k of the running product of (1 + rate) is the growth over rates s[0..k]. */
  lemma CumProdOfOnePlus(s: seq<real>)
    ensures forall k :: 0 <= k < |s| ==> CumProd(OnePlus(s))[k] == Prod(OnePlus(s[..k + 1]))
  {
    forall k | 0 <= k < |s|
      ensures CumProd(OnePlus(s))[k] == Prod(OnePlus(s[..k + 1]))
    {
      assert OnePlus(s)[..k + 1] == OnePlus(s[..k + 1]);
    }
  }

  /** A running product of ones is all ones. */
  lemma CumProdOnes(n: nat)
    ensures CumProd(Constant(n, 1.0)) == Constant(n, 1.0)
  {
    forall k | 0 <= k < n
      ensures CumProd(Constant(n, 1.0))[k] == 1.0
    {
      assert Constant(n, 1.0)[..k + 1] == Constant(k + 1, 1.0);
      ProdConstant(k + 1, 1.0);
      PowOne(k + 1);
    }
  }

  /** Scaling the second factor of an element-wise product scales the product. */
  lemma TimesScale(a: seq<real>, c: real, f: seq<real>)
    requires |a| == |f|
    ensures Times(a, Scale(c, f)) == Scale(c, Times(a, f))
  {
    forall m | 0 <= m < |a|
      ensures Times(a, Scale(c, f))[m] == Scale(c, Times(a, f))[m]
    {
      assert a[m] * (c * f[m]) == c * (a[m] * f[m]);
    }
  }

  /** A scaled row multiplied element-wise by another is the scaled element-wise product, in either order. */
  lemma ScaleTimes(c: real, f: seq<real>, a: seq<real>)
    requires |a| == |f|
    ensures Times(Scale(c, f), a) == Scale(c, Times(a, f))
  {
    forall m | 0 <= m < |a|
      ensures Times(Scale(c, f), a)[m] == Scale(c, Times(a, f))[m]
    {
      assert (c * f[m]) * a[m] == c * (a[m] * f[m]);
    }
  }

  /** Scaling a row of discounted amounts is discounting the scaled amounts. */
  lemma ScaleOverScale(u: real, c: real, a: seq<real>, d: seq<real>)
    requires |a| == |d| && AllPositive(d)
    ensures Scale(u, Over(Scale(c, a), d)) == Over(Scale(c, Scale(u, a)), d)
  {
    forall j | 0 <= j < |a|
      ensures Scale(u, Over(Scale(c, a), d))[j] == Over(Scale(c, Scale(u, a)), d)[j]
    {
      QuotientEntry(c, a, d, j);
      QuotientEntry(c, Scale(u, a), d, j);
      QuotientMul(u, c, a[j], d[j], Over(Scale(c, a), d)[j], Over(Scale(c, Scale(u, a)), d)[j]);
    }
  }

  /**
    Discounted rows whose undiscounted amounts are in ratio v : u have
    totals in that ratio.
  */
  lemma SumOfProportionalRows(u: real, v: real, c: real, a': seq<real>, a: seq<real>, d: seq<real>)
    requires |a'| == |d| && |a| == |d| && AllPositive(d)
    requires Scale(u, a') == Scale(v, a)
    ensures u * Sum(Over(Scale(c, a'), d)) == v * Sum(Over(Scale(c, a), d))
  {
    SumOfScaledRow(u, c, a', d);
    SumOfScaledRow(v, c, a, d);
  }

  /** Scaling the undiscounted amounts scales the discounted total. */
  lemma SumOfScaledRow(u: real, c: real, a: seq<real>, d: seq<real>)
    requires |a| == |d| && AllPositive(d)
    ensures u * Sum(Over(Scale(c, a), d)) == Sum(Over(Scale(c, Scale(u, a)), d))
  {
    SumScale(u, Over(Scale(c, a), d));
    ScaleOverScale(u, c, a, d);
  }

  /** Arithmetic step over plain reals, proved apart from any sequence facts to keep the solver's context small. */
  lemma QuotientMul(u: real, c: real, a: real, d: real, l: real, r: real)
    requires d != 0.0 && l == c * a / d && r == c * (u * a) / d
    ensures u * l == r
  {
  }

  /** Substitution of equal values in a proportion u * a' == v * a. */
  lemma ProportionalByValues(u: real, u': real, v: real, a': real, a: real, p': real, p: real)
    requires u == u' && a' == p' && a == p && u' * p' == v * p
    ensures u * a' == v * a
  {
  }

  /** Replacing factor k by x changes the product by the ratio x / s[k]. */
  lemma {:induction false} ProdUpdate(s: seq<real>, k: nat, x: real)
    requires k < |s|
    ensures s[k] * Prod(s[k := x]) == x * Prod(s)
  {
    if k == 0 {
      assert s[k := x][1..] == s[1..];
    } else {
      var t := s[1..];
      assert s[k := x][1..] == t[k - 1 := x];
      ProdUpdate(t, k - 1, x);
      assert Prod(s[k := x]) == s[0] * Prod(t[k - 1 := x]);
      MulRatio(s[0], Prod(t[k - 1 := x]), Prod(t), t[k - 1], x);
    }
  }

  /** Arithmetic step over plain reals, proved apart from any sequence facts to keep the solver's context small. */
  lemma MulRatio(h: real, p': real, p: real, a: real, x: real)
    requires a * p' == x * p
    ensures a * (h * p') == x * (h * p)
  {
    calc {
      a * (h * p');
      h * (a * p');
      h * (x * p);
      x * (h * p);
    }
  }

  /** Replacing factor k by c rescales every running-product entry from k on by c / g[k]. */
  lemma CumProdUpdate(g: seq<real>, k: nat, c: real, i: nat)
    requires k <= i < |g|
    ensures g[k] * CumProd(g[k := c])[i] == c * CumProd(g)[i]
  {
    PrefixProdUpdate(g, k, c, i + 1);
    ProportionalByValues(g[k], g[k], c, CumProd(g[k := c])[i], CumProd(g)[i],
                         Prod(g[k := c][..i + 1]), Prod(g[..i + 1]));
  }

  /** Replacing factor k by c rescales the product of any prefix that holds it. */
  lemma PrefixProdUpdate(g: seq<real>, k: nat, c: real, n: nat)
    requires k < n <= |g|
    ensures g[k] * Prod(g[k := c][..n]) == c * Prod(g[..n])
  {
    assert g[k := c][..n] == g[..n][k := c];
    ProdUpdate(g[..n], k, c);
    ProportionalByValues(g[k], g[..n][k], c, Prod(g[k := c][..n]), Prod(g[..n]),
                         Prod(g[..n][k := c]), Prod(g[..n]));
  }

  /** Entry t of block y of a row repeated n times is entry y of the original row. */
  lemma {:induction false} RepeatAt(s: seq<real>, n: nat, y: nat, t: nat)
    requires y < |s| && t < n
    ensures y * n + t < |Repeat(s, n)| && Repeat(s, n)[y * n + t] == s[y]
  {
    if y > 0 {
      RepeatAt(s[1..], n, y - 1, t);
      assert y * n + t == n + ((y - 1) * n + t);
    }
  }
}
