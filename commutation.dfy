/** The commutation lists of `Actuarial`: discounted survivors `D`, their
    suffix sums `N`, discounted deaths `C` and their suffix sums `M`, built
    from a `Pers` status and an interest rate, and the accessors on them. */
module Commutation {
  import opened Series
  import opened Mortality
  import opened JointLife

  /** The `rate` argument: a float, or a function of age. */
  datatype Rate = Flat(i: real) | ByAge(f: nat -> real)

  /** The rate function `Actuarial` uses: a float becomes the constant
      function of age. */
  function RateFunction(r: Rate): (f: nat -> real)
    ensures r.Flat? ==> forall age :: f(age) == r.i
    ensures r.ByAge? ==> f == r.f
  {
    match r
    case Flat(i) => (age: nat) => i
    case ByAge(f) => f
  }

  /** The half-year factor `(1 + i) ** 0.5` has no counterpart among the
      reals here; the caller supplies `root` with `root(age)` the positive
      square root of `1 + rate(age)` at every age of the curve, where
      `1 + rate(age)` is positive. */
  ghost predicate HalfYearFactors(rate: nat -> real, root: nat -> real, n: nat)
  {
    forall age: nat :: age < n ==>
      1.0 + rate(age) > 0.0 && root(age) > 0.0 && root(age) * root(age) == 1.0 + rate(age)
  }

  /** `1 + rate(age)` is positive at every age of the curve. */
  ghost predicate PositiveRates(rate: nat -> real, n: nat)
  {
    forall age: nat :: age < n ==> 1.0 + rate(age) > 0.0
  }

  /** The one-year discount factor `1 / (1 + i)` at an age. */
  function Discount(rate: nat -> real, age: nat): real
    requires 1.0 + rate(age) != 0.0
  {
    1.0 / (1.0 + rate(age))
  }

  /** `D_x[k] = (1 / (1 + rate(k))) ** k * l[k]`. */
  function DiscountedAt(l: seq<real>, rate: nat -> real, k: nat): real
    requires k < |l| && 1.0 + rate(k) != 0.0
  {
    Pow(Discount(rate, k), k) * l[k]
  }

  /** `C_x[k]`: the drop from the previous survivor count (none at k = 0),
      discounted `k + 1` years and scaled by the half-year factor. */
  function DeathsAt(l: seq<real>, rate: nat -> real, root: nat -> real, k: nat): real
    requires k < |l| && 1.0 + rate(k) != 0.0
  {
    Pow(Discount(rate, k), k + 1) * ((if k == 0 then l[0] else l[k - 1]) - l[k]) * root(k)
  }

  function DiscountedSurvivors(l: seq<real>, rate: nat -> real): seq<real>
    requires PositiveRates(rate, |l|)
  {
    seq(|l|, k requires 0 <= k < |l| => DiscountedAt(l, rate, k))
  }

  function DiscountedDeaths(l: seq<real>, rate: nat -> real, root: nat -> real): seq<real>
    requires PositiveRates(rate, |l|)
  {
    seq(|l|, k requires 0 <= k < |l| => DeathsAt(l, rate, root, k))
  }

  datatype Actuarial = Actuarial(pers: Pers, D: seq<real>, N: seq<real>, C: seq<real>, M: seq<real>)

  /** The lists `Actuarial.__init__` builds from `pers`, `rate` and `root`. */
  ghost predicate Built(a: Actuarial, rate: nat -> real, root: nat -> real)
  {
    && PositiveRates(rate, |a.pers.l|)
    && a.D == DiscountedSurvivors(a.pers.l, rate)
    && a.N == SuffixSums(a.D)
    && a.C == DiscountedDeaths(a.pers.l, rate, root)
    && a.M == SuffixSums(a.C)
  }

  /** The summed lists are the suffix sums of the lists they sum. */
  ghost predicate Commuted(a: Actuarial)
  {
    a.N == SuffixSums(a.D) && a.M == SuffixSums(a.C)
  }

  /** A list whose k-th entry is `sum(s[k:])`, by the loop of
      `Actuarial.__init__` that calls `sum` on each slice. */
  method SumSuffixes(s: seq<real>) returns (r: seq<real>)
    ensures r == SuffixSums(s)
  {
    r := [];
    var k := 0;
    while k < |s|
      invariant 0 <= k <= |s|
      invariant |r| == k
      invariant forall j :: 0 <= j < k ==> r[j] == Sum(s[j..])
    {
      r := r + [Sum(s[k..])];
      k := k + 1;
    }
  }

  /** The `D_x` loop of `Actuarial.__init__`: each age's survivors,
      discounted by that age's rate. */
  method DiscountSurvivors(l: seq<real>, f: nat -> real) returns (D: seq<real>)
    requires PositiveRates(f, |l|)
    ensures D == DiscountedSurvivors(l, f)
  {
    D := [];
    var age := 0;
    while age < |l|
      invariant 0 <= age <= |l|
      invariant |D| == age
      invariant forall k :: 0 <= k < age ==> D[k] == DiscountedAt(l, f, k)
    {
      var i := f(age);
      D := D + [Pow(1.0 / (1.0 + i), age) * l[age]];
      age := age + 1;
    }
  }

  /** The `C_x` loop of `Actuarial.__init__`: each year's deaths, discounted
      to the end of the year and moved to mid-year by `root`. */
  method DiscountDeaths(l: seq<real>, f: nat -> real, root: nat -> real) returns (C: seq<real>)
    requires PositiveRates(f, |l|)
    ensures C == DiscountedDeaths(l, f, root)
  {
    C := [];
    var age := -1;
    var lx0 := if |l| > 0 then l[0] else 0.0;
    var j := 0;
    while j < |l|
      invariant 0 <= j <= |l|
      invariant age == j - 1
      invariant j < |l| ==> lx0 == (if j == 0 then l[0] else l[j - 1])
      invariant |C| == j
      invariant forall k :: 0 <= k < j ==> C[k] == DeathsAt(l, f, root, k)
    {
      var lx1 := l[j];
      age := age + 1;
      var i := f(age);
      C := C + [Pow(1.0 / (1.0 + i), age + 1) * (lx0 - lx1) * root(age)];
      lx0 := lx1;
      j := j + 1;
    }
  }

  /** `Actuarial.__init__`. */
  method NewActuarial(rate: Rate, root: nat -> real, pers: Pers) returns (a: Actuarial)
    requires HalfYearFactors(RateFunction(rate), root, |pers.l|)
    ensures a.pers == pers
    ensures Built(a, RateFunction(rate), root)
    ensures HalfYearFactors(RateFunction(rate), root, |a.pers.l|)
  {
    var f := RateFunction(rate);
    var D := DiscountSurvivors(pers.l, f);
    var N := SumSuffixes(D);
    var C := DiscountDeaths(pers.l, f, root);
    var M := SumSuffixes(C);
    a := Actuarial(pers, D, N, C, M);
  }

  /** The status `Actuarial` reads from a `MortalityTable` given as `pers`:
      it copies the table's `l_x`, `q_x`, `e_x` and `w`, and a table's `e_x`
      is always empty. */
  function TableStatus(t: MortalityTable): Pers
  {
    Pers(t.l, t.q, [], t.w)
  }

  /** A table used as the status keeps its own curve, where `Pers([t], [age])`
      squares it (`SingleLife`); its life expectancy is 0 at every age, and so
      is its death rate when the table was given survivors and no rates. */
  lemma TableStatusAccessors(l: seq<real>, q: seq<real>, nt: Option<LegacyTable>, perc: real, x: nat)
    ensures var t := TableOf(l, q, nt, perc);
      && lx(TableStatus(t), x) == At(t.l, x)
      && qx(TableStatus(t), x) == At(RatesOf(q, nt, perc), x)
      && ex(TableStatus(t), x) == 0.0
      && (q == [] && nt.None? ==> qx(TableStatus(t), x) == 0.0)
  {
  }

  /** `Dx(x)`: the discounted survivors at age x, 0 past the end. */
  function Dx(a: Actuarial, x: nat): real
  {
    At(a.D, x)
  }

  /** `Nx(x)`, 0 past the end. */
  function Nx(a: Actuarial, x: nat): real
  {
    At(a.N, x)
  }

  /** `Cx(x)`, 0 past the end. */
  function Cx(a: Actuarial, x: nat): real
  {
    At(a.C, x)
  }

  /** `Mx(x)`, 0 past the end. */
  function Mx(a: Actuarial, x: nat): real
  {
    At(a.M, x)
  }

  /** `Sx(x) = sum(N_x[x:])`. */
  function Sx(a: Actuarial, x: nat): real
  {
    SumFrom(a.N, x)
  }

  /** `Rx(x) = sum(M_x[x:])`. */
  function Rx(a: Actuarial, x: nat): real
  {
    SumFrom(a.M, x)
  }

  /** The four lists have one entry per age of the curve; `C` starts at 0
      because its first drop is from `l[0]` to itself, and every later entry
      discounts the drop from the previous age. */
  lemma CommutationLists(a: Actuarial, rate: nat -> real, root: nat -> real)
    requires Built(a, rate, root)
    ensures |a.D| == |a.N| == |a.C| == |a.M| == |a.pers.l|
    ensures |a.C| > 0 ==> a.C[0] == 0.0
    ensures forall k :: 0 < k < |a.C| ==>
      1.0 + rate(k) > 0.0 &&
      a.C[k] == Pow(Discount(rate, k), k + 1) * (a.pers.l[k - 1] - a.pers.l[k]) * root(k)
    ensures forall k :: 0 <= k < |a.D| ==> 1.0 + rate(k) > 0.0 && a.D[k] == Pow(Discount(rate, k), k) * a.pers.l[k]
  {
  }

  /** Each summed accessor is its own first term plus the next one, at every
      age, including at and past the end of the lists. */
  lemma CommutationRecurrences(a: Actuarial, k: nat)
    requires Commuted(a)
    ensures Nx(a, k) == Dx(a, k) + Nx(a, k + 1)
    ensures Mx(a, k) == Cx(a, k) + Mx(a, k + 1)
    ensures Sx(a, k) == Nx(a, k) + Sx(a, k + 1)
    ensures Rx(a, k) == Mx(a, k) + Rx(a, k + 1)
  {
    SumFromStep(a.D, k);
    SuffixSumsAt(a.D, k);
    SuffixSumsAt(a.D, k + 1);
    SumFromStep(a.C, k);
    SuffixSumsAt(a.C, k);
    SuffixSumsAt(a.C, k + 1);
    SumFromStep(a.N, k);
    SumFromStep(a.M, k);
  }

  /** A difference of summed accessors `n` ages apart is the sum of the
      underlying list over those `n` ages. */
  lemma CommutationWindows(a: Actuarial, x: nat, n: nat)
    requires Commuted(a)
    ensures Nx(a, x) - Nx(a, x + n) == Window(a.D, x, n)
    ensures Mx(a, x) - Mx(a, x + n) == Window(a.C, x, n)
    ensures Sx(a, x) - Sx(a, x + n) == Window(a.N, x, n)
  {
    SuffixSumsAt(a.D, x);
    SuffixSumsAt(a.D, x + n);
    SumFromWindow(a.D, x, n);
    SuffixSumsAt(a.C, x);
    SuffixSumsAt(a.C, x + n);
    SumFromWindow(a.C, x, n);
    SumFromWindow(a.N, x, n);
  }

  /** Past the end of the curve every accessor is 0. */
  lemma PastTheEnd(a: Actuarial, rate: nat -> real, root: nat -> real, x: nat)
    requires Built(a, rate, root) && x >= |a.pers.l|
    ensures Dx(a, x) == 0.0 && Nx(a, x) == 0.0 && Cx(a, x) == 0.0 && Mx(a, x) == 0.0
    ensures Sx(a, x) == 0.0 && Rx(a, x) == 0.0
  {
  }

  /** At a flat rate `i` every age is discounted by the same `1 / (1 + i)`,
      and `1 + i` is positive on a curve that is not empty. */
  lemma DiscountedAtFlatRate(a: Actuarial, i: real, root: nat -> real, k: nat)
    requires Built(a, RateFunction(Flat(i)), root) && k < |a.pers.l|
    ensures 1.0 + i > 0.0
    ensures Dx(a, k) == Pow(1.0 / (1.0 + i), k) * a.pers.l[k]
  {
    var rate := RateFunction(Flat(i));
    assert rate(k) == i;
    assert a.D[k] == DiscountedAt(a.pers.l, rate, k);
  }

  /** The discount factors are positive, so the discounted survivors are
      positive exactly where the curve is. */
  lemma DiscountedSign(a: Actuarial, rate: nat -> real, root: nat -> real, x: nat)
    requires Built(a, rate, root)
    ensures Dx(a, x) > 0.0 <==> x < |a.pers.l| && a.pers.l[x] > 0.0
    ensures Dx(a, x) == 0.0 <==> x >= |a.pers.l| || a.pers.l[x] == 0.0
  {
    if x < |a.pers.l| {
      var v := Discount(rate, x);
      ReciprocalPositive(1.0 + rate(x));
      PowPositive(v, x);
      var p := Pow(v, x);
      assert Dx(a, x) == p * a.pers.l[x];
      SignOfProduct(p, a.pers.l[x]);
    }
  }

  /** The sign of a product with a positive factor. */
  lemma SignOfProduct(p: real, y: real)
    requires p > 0.0
    ensures p * y > 0.0 <==> y > 0.0
    ensures p * y == 0.0 <==> y == 0.0
  {
  }
}
