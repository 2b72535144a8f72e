/** Numeric building blocks shared by the survivorship, commutation and
    present-value modules: Python's `sum` over a list, a power with a natural
    exponent, and the "element or 0 when out of range" lookup every accessor of
    the library uses. All values are modelled as exact reals. */
module Series {

  /** `sum(s)` over a list of floats. */
  function Sum(s: seq<real>): real
  {
    if s == [] then 0.0 else s[0] + Sum(s[1..])
  }

  /** Peeling the first element off a slice `s[i..j]`. */
  lemma SumFront(s: seq<real>, i: nat, j: nat)
    requires i < j <= |s|
    ensures Sum(s[i..j]) == s[i] + Sum(s[i + 1..j])
  {
    assert s[i..j][1..] == s[i + 1..j];
  }

  /** `b ** n` for a natural exponent. */
  function Pow(b: real, n: nat): real
  {
    if n == 0 then 1.0 else b * Pow(b, n - 1)
  }

  lemma {:induction false} PowAdd(b: real, m: nat, n: nat)
    ensures Pow(b, m + n) == Pow(b, m) * Pow(b, n)
  {
    if m > 0 {
      PowAdd(b, m - 1, n);
      assert Pow(b, m + n) == b * Pow(b, (m - 1) + n);
    }
  }

  lemma {:induction false} PowPositive(b: real, n: nat)
    requires b > 0.0
    ensures Pow(b, n) > 0.0
  {
    if n > 0 {
      PowPositive(b, n - 1);
      assert Pow(b, n) == b * Pow(b, n - 1);
    }
  }

  /** The accessor pattern `s[x] if x < len(s) else 0`. */
  function At(s: seq<real>, x: nat): real
  {
    if x < |s| then s[x] else 0.0
  }

  /** `sum(s[x:])`: a slice that starts past the end is empty, so the sum is 0. */
  function SumFrom(s: seq<real>, x: nat): real
  {
    if x < |s| then Sum(s[x..]) else 0.0
  }

  /** The list whose k-th entry is `sum(s[k:])`. */
  function SuffixSums(s: seq<real>): seq<real>
  {
    seq(|s|, k requires 0 <= k < |s| => Sum(s[k..]))
  }

  /** A suffix sum is the first element plus the next suffix sum, at every
      index, including those at and past the end of the list. */
  lemma SumFromStep(s: seq<real>, x: nat)
    ensures SumFrom(s, x) == At(s, x) + SumFrom(s, x + 1)
  {
    if x < |s| {
      assert s[x..][1..] == s[x + 1..];
      assert Sum(s[x..]) == s[x] + Sum(s[x + 1..]);
      if x + 1 == |s| {
        assert s[x + 1..] == [];
      }
    }
  }

  /** The sum of `n` consecutive lookups `At(s, x)`, ..., `At(s, x + n - 1)`. */
  function Window(s: seq<real>, x: nat, n: nat): real
    decreases n
  {
    if n == 0 then 0.0 else At(s, x) + Window(s, x + 1, n - 1)
  }

  /** The difference of two suffix sums `n` apart is the window between them. */
  lemma {:induction false} SumFromWindow(s: seq<real>, x: nat, n: nat)
    ensures SumFrom(s, x) - SumFrom(s, x + n) == Window(s, x, n)
    decreases n
  {
    if n > 0 {
      SumFromStep(s, x);
      SumFromWindow(s, x + 1, n - 1);
    }
  }

  /** Reading the list of suffix sums through the accessor gives the suffix
      sum itself, 0 past the end. */
  lemma SuffixSumsAt(s: seq<real>, x: nat)
    ensures |SuffixSums(s)| == |s|
    ensures At(SuffixSums(s), x) == SumFrom(s, x)
  {
  }

  /** The reciprocal of a positive number is positive. */
  lemma ReciprocalPositive(a: real)
    requires a > 0.0
    ensures 1.0 / a > 0.0
  {
    assert (1.0 / a) * a == 1.0;
  }

  /** A quotient is the number that gives the dividend back when multiplied
      by the divisor. */
  lemma DivUnique(x: real, y: real, a: real)
    requires a != 0.0 && x * a == y
    ensures x == y / a
  {
  }
}
