/** The insurance and annuity formulas of `Actuarial`: ratios of the
    commutation accessors, with the fallbacks the annuities take when the
    discounted survivors at the entry age are not positive, and the
    `(m - 1) / (2m)` adjustment for `m` payments a year. Ages and terms are
    natural numbers; `m` is an integer. */
module PresentValues {
  import opened Series
  import opened JointLife
  import opened Commutation

  /** `nEx(x, n)`: the pure endowment, `D(x + n) / D(x)`. */
  function nEx(a: Actuarial, x: nat, n: nat): real
    requires Dx(a, x) != 0.0
  {
    Dx(a, x + n) / Dx(a, x)
  }

  /** `Ax(x)`: the whole life insurance. */
  function Ax(a: Actuarial, x: nat): real
    requires Dx(a, x) != 0.0
  {
    Mx(a, x) / Dx(a, x)
  }

  /** `Axn(x, n)`: the n-year term insurance. */
  function Axn(a: Actuarial, x: nat, n: nat): real
    requires Dx(a, x) != 0.0
  {
    (Mx(a, x) - Mx(a, x + n)) / Dx(a, x)
  }

  /** `tAx(x, t)`: the whole life insurance deferred t years. */
  function tAx(a: Actuarial, x: nat, t: nat): real
    requires Dx(a, x) != 0.0
  {
    Mx(a, x + t) / Dx(a, x)
  }

  /** `AExn(x, n)`: the endowment insurance, term insurance plus pure endowment. */
  function AExn(a: Actuarial, x: nat, n: nat): real
    requires Dx(a, x) != 0.0
  {
    Axn(a, x, n) + nEx(a, x, n)
  }

  /** The fractional-payment adjustment `float(m - 1) / float(m * 2)`. */
  function Woolhouse(m: int): real
    requires m != 0
  {
    (m - 1) as real / (m * 2) as real
  }

  /** `aaxn(x, n, m)`: the n-year temporary annuity-due. */
  function aaxn(a: Actuarial, x: nat, n: nat, m: int): real
    requires m != 1 ==> m != 0 && Dx(a, x) != 0.0
  {
    var res := if Dx(a, x) > 0.0 then (Nx(a, x) - Nx(a, x + n)) / Dx(a, x) else 1.0;
    if m == 1 then res else res - Woolhouse(m) * (1.0 - nEx(a, x, n))
  }

  /** `axn(x, n, m)`: the n-year temporary annuity-immediate. */
  function axn(a: Actuarial, x: nat, n: nat, m: int): real
    requires m != 1 ==> m != 0 && Dx(a, x) != 0.0
  {
    var res := if Dx(a, x) > 0.0 then (Nx(a, x + 1) - Nx(a, x + n + 1)) / Dx(a, x) else 0.0;
    if m == 1 then res else res + Woolhouse(m) * (1.0 - nEx(a, x, n))
  }

  /** `aax(x, m)`: the whole life annuity-due. */
  function aax(a: Actuarial, x: nat, m: int): real
    requires m != 0
  {
    var res := if Dx(a, x) > 0.0 then Nx(a, x) / Dx(a, x) else 1.0;
    if m == 1 then res else res - Woolhouse(m)
  }

  /** `ax(x, m)`: the whole life annuity-immediate. */
  function ax(a: Actuarial, x: nat, m: int): real
    requires m != 0
  {
    var res := if Dx(a, x) > 0.0 then Nx(a, x + 1) / Dx(a, x) else 0.0;
    if m == 1 then res else res + Woolhouse(m)
  }

  /** `taax(x, t, m)`: the whole life annuity-due deferred t years, with the
      adjustment as the source writes it. */
  function taax(a: Actuarial, x: nat, t: nat, m: int): real
    requires m != 1 ==> m != 0 && Dx(a, x) != 0.0
  {
    var res := if Dx(a, x) > 0.0 then Nx(a, x + t) / Dx(a, x) else (if t == 0 then 1.0 else 0.0);
    if m == 1 then res else res - Woolhouse(m) * (1.0 - nEx(a, x, t))
  }

  /** `tax(x, t, m)`: the whole life annuity-immediate deferred t years, with
      the adjustment as the source writes it. */
  function tax(a: Actuarial, x: nat, t: nat, m: int): real
    requires m != 1 ==> m != 0 && Dx(a, x) != 0.0
  {
    var res := if Dx(a, x) > 0.0 then Nx(a, x + t + 1) / Dx(a, x) else 0.0;
    if m == 1 then res else res + Woolhouse(m) * (1.0 - nEx(a, x, t))
  }

  /** The deferred annuity-due with the adjustment applied to the deferred
      part only: `t|ä(m) = t|ä - (m - 1)/(2m) * tEx`. */
  function DeferredDue(a: Actuarial, x: nat, t: nat, m: int): real
    requires m != 1 ==> m != 0 && Dx(a, x) != 0.0
  {
    var res := if Dx(a, x) > 0.0 then Nx(a, x + t) / Dx(a, x) else (if t == 0 then 1.0 else 0.0);
    if m == 1 then res else res - Woolhouse(m) * nEx(a, x, t)
  }

  /** The deferred annuity-immediate with the adjustment applied to the
      deferred part only: `t|a(m) = t|a + (m - 1)/(2m) * tEx`. */
  function DeferredImmediate(a: Actuarial, x: nat, t: nat, m: int): real
    requires m != 1 ==> m != 0 && Dx(a, x) != 0.0
  {
    var res := if Dx(a, x) > 0.0 then Nx(a, x + t + 1) / Dx(a, x) else 0.0;
    if m == 1 then res else res + Woolhouse(m) * nEx(a, x, t)
  }

  /** `Iaax(x)`: the arithmetically increasing whole life annuity-due. */
  function Iaax(a: Actuarial, x: nat): real
    requires Dx(a, x) != 0.0
  {
    Sx(a, x) / Dx(a, x)
  }

  /** `Iax(x)`: the arithmetically increasing whole life annuity-immediate. */
  function Iax(a: Actuarial, x: nat): real
    requires Dx(a, x) != 0.0
  {
    Sx(a, x + 1) / Dx(a, x)
  }

  /** `Itaax(x, t)`: the increasing annuity-due over the first t years. */
  function Itaax(a: Actuarial, x: nat, t: nat): real
    requires Dx(a, x) != 0.0
  {
    (Sx(a, x) - Sx(a, x + t)) / Dx(a, x)
  }

  /** `Itax(x, t)`: the increasing annuity-immediate over the first t years. */
  function Itax(a: Actuarial, x: nat, t: nat): real
    requires Dx(a, x) != 0.0
  {
    (Sx(a, x + 1) - Sx(a, x + t + 1)) / Dx(a, x)
  }

  /** Splitting a ratio over a common divisor. */
  lemma RatioSplit(p: real, q: real, d: real)
    requires d != 0.0
    ensures (p - q) / d + q / d == p / d
    ensures p / d - q / d == (p - q) / d
  {
    DivUnique(p / d - q / d, p - q, d);
  }

  lemma RatioOne(d: real)
    requires d != 0.0
    ensures d / d == 1.0
  {
  }

  /** The pure endowment over no years is 1, and a pure endowment over the
      first `n` years is the discounted survivors `n` years on, relative to
      those at the entry age. */
  lemma PureEndowment(a: Actuarial, x: nat, n: nat)
    requires Dx(a, x) != 0.0
    ensures nEx(a, x, 0) == 1.0
    ensures nEx(a, x, n) * Dx(a, x) == Dx(a, x + n)
  {
    RatioOne(Dx(a, x));
  }

  /** At a flat rate `i`, the pure endowment is `n` years of discount times
      the probability of surviving `n` years. */
  lemma PureEndowmentFlatRate(a: Actuarial, i: real, root: nat -> real, x: nat, n: nat)
    requires Built(a, RateFunction(Flat(i)), root)
    requires x + n < |a.pers.l| && a.pers.l[x] != 0.0
    ensures Dx(a, x) != 0.0
    ensures nEx(a, x, n) == Pow(1.0 / (1.0 + i), n) * tpx(a.pers, x, n)
  {
    DiscountedAtFlatRate(a, i, root, x);
    DiscountedAtFlatRate(a, i, root, x + n);
    FlatEndowment(a, i, x, n);
  }

  /** The flat-rate pure endowment from the two discounted counts it divides. */
  lemma FlatEndowment(a: Actuarial, i: real, x: nat, n: nat)
    requires 1.0 + i > 0.0 && x + n < |a.pers.l| && a.pers.l[x] != 0.0
    requires Dx(a, x) == Pow(1.0 / (1.0 + i), x) * a.pers.l[x]
    requires Dx(a, x + n) == Pow(1.0 / (1.0 + i), x + n) * a.pers.l[x + n]
    ensures Dx(a, x) != 0.0
    ensures nEx(a, x, n) == Pow(1.0 / (1.0 + i), n) * tpx(a.pers, x, n)
  {
    ReciprocalPositive(1.0 + i);
    FlatRatio(Dx(a, x), Dx(a, x + n), 1.0 / (1.0 + i), x, n, a.pers.l[x], a.pers.l[x + n]);
  }

  /** The ratio of two counts discounted `x` and `x + n` years at the same
      positive factor. */
  lemma FlatRatio(d0: real, d1: real, v: real, x: nat, n: nat, y0: real, y1: real)
    requires v > 0.0 && y0 != 0.0
    requires d0 == Pow(v, x) * y0 && d1 == Pow(v, x + n) * y1
    ensures d0 != 0.0 && d1 / d0 == Pow(v, n) * (y1 / y0)
  {
    PowPositive(v, x);
    PowAdd(v, x, n);
    EndowmentRatio(d0, d1, Pow(v, x), Pow(v, n), Pow(v, x + n), y0, y1);
  }

  /** The ratio of two discounted counts `c * y0` and `c * p * y1`. */
  lemma EndowmentRatio(d0: real, d1: real, c: real, p: real, cp: real, y0: real, y1: real)
    requires c != 0.0 && y0 != 0.0 && cp == c * p
    requires d0 == c * y0 && d1 == cp * y1
    ensures d0 != 0.0
    ensures d1 / d0 == p * (y1 / y0)
  {
    NonzeroProduct(c, y0);
    RatioOfProducts(c, p, y0, y1);
  }

  /** Cancelling a common factor from a ratio. */
  lemma RatioOfProducts(c: real, p: real, y0: real, y1: real)
    requires c != 0.0 && y0 != 0.0
    ensures (c * p * y1) / (c * y0) == p * (y1 / y0)
  {
    var r := y1 / y0;
    assert r * y0 == y1;
    assert (p * r) * (c * y0) == (c * p) * (r * y0);
    DivUnique(p * r, c * p * y1, c * y0);
  }

  lemma NonzeroProduct(p: real, y: real)
    requires p != 0.0 && y != 0.0
    ensures p * y != 0.0
  {
  }

  /** The term insurance and the deferred insurance make up the whole life
      insurance, the term insurance sums the discounted deaths of its `n`
      years, and the endowment insurance adds the pure endowment to it. */
  lemma InsuranceIdentities(a: Actuarial, x: nat, n: nat)
    requires Commuted(a) && Dx(a, x) != 0.0
    ensures Axn(a, x, n) + tAx(a, x, n) == Ax(a, x)
    ensures Axn(a, x, n) == Window(a.C, x, n) / Dx(a, x)
    ensures Ax(a, x) == SumFrom(a.C, x) / Dx(a, x)
    ensures AExn(a, x, n) == (Window(a.C, x, n) + Dx(a, x + n)) / Dx(a, x)
  {
    CommutationWindows(a, x, n);
    SuffixSumsAt(a.C, x);
    InsuranceOfWindows(a, x, n);
  }

  /** The insurance identities from the sums of `C` they rest on. */
  lemma InsuranceOfWindows(a: Actuarial, x: nat, n: nat)
    requires Dx(a, x) != 0.0
    requires Mx(a, x) - Mx(a, x + n) == Window(a.C, x, n)
    requires Mx(a, x) == SumFrom(a.C, x)
    ensures Axn(a, x, n) + tAx(a, x, n) == Ax(a, x)
    ensures Axn(a, x, n) == Window(a.C, x, n) / Dx(a, x)
    ensures Ax(a, x) == SumFrom(a.C, x) / Dx(a, x)
    ensures AExn(a, x, n) == (Window(a.C, x, n) + Dx(a, x + n)) / Dx(a, x)
  {
    var d := Dx(a, x);
    RatioSplit(Mx(a, x), Mx(a, x + n), d);
    DivUnique(Window(a.C, x, n) / d + Dx(a, x + n) / d, Window(a.C, x, n) + Dx(a, x + n), d);
  }

  /** The temporary and whole life annuities sum the discounted survivors
      of the years they pay in, relative to those at the entry age. */
  lemma AnnuitySums(a: Actuarial, x: nat, n: nat)
    requires Commuted(a) && Dx(a, x) > 0.0
    ensures aaxn(a, x, n, 1) == Window(a.D, x, n) / Dx(a, x)
    ensures axn(a, x, n, 1) == Window(a.D, x + 1, n) / Dx(a, x)
    ensures aax(a, x, 1) == SumFrom(a.D, x) / Dx(a, x)
    ensures ax(a, x, 1) == SumFrom(a.D, x + 1) / Dx(a, x)
  {
    CommutationWindows(a, x, n);
    CommutationWindows(a, x + 1, n);
    SuffixSumsAt(a.D, x);
    SuffixSumsAt(a.D, x + 1);
    AnnuitiesOfWindows(a, x, n);
  }

  /** The yearly annuities from the sums of `D` they rest on. */
  lemma AnnuitiesOfWindows(a: Actuarial, x: nat, n: nat)
    requires Dx(a, x) > 0.0
    requires Nx(a, x) - Nx(a, x + n) == Window(a.D, x, n)
    requires Nx(a, x + 1) - Nx(a, x + 1 + n) == Window(a.D, x + 1, n)
    requires Nx(a, x) == SumFrom(a.D, x) && Nx(a, x + 1) == SumFrom(a.D, x + 1)
    ensures aaxn(a, x, n, 1) == Window(a.D, x, n) / Dx(a, x)
    ensures axn(a, x, n, 1) == Window(a.D, x + 1, n) / Dx(a, x)
    ensures aax(a, x, 1) == SumFrom(a.D, x) / Dx(a, x)
    ensures ax(a, x, 1) == SumFrom(a.D, x + 1) / Dx(a, x)
  {
    assert x + n + 1 == x + 1 + n;
  }

  /** `1 - 2 (m - 1) / (2m) = 1 / m`. */
  lemma WoolhouseGap(m: int)
    requires m != 0
    ensures 1.0 - 2.0 * Woolhouse(m) == 1.0 / m as real
  {
    var r := m as real;
    assert (m * 2) as real == 2.0 * r;
    DivUnique(1.0 - 2.0 * Woolhouse(m), 1.0, r);
  }

  /** An annuity-due pays one instalment of `1 / m` more than the matching
      annuity-immediate, whole life and temporary alike (for the temporary
      one, unless the life has not survived the `n` years). */
  lemma DueMinusImmediate(a: Actuarial, x: nat, n: nat, m: int)
    requires Commuted(a) && Dx(a, x) > 0.0 && m != 0
    ensures aax(a, x, m) - ax(a, x, m) == 1.0 / m as real
    ensures aaxn(a, x, n, m) - axn(a, x, n, m) == (1.0 - nEx(a, x, n)) / m as real
  {
    YearlyGaps(a, x, n);
    AdjustedGaps(a, x, n, m);
  }

  /** The gaps with `m` payments a year from the yearly gaps. */
  lemma AdjustedGaps(a: Actuarial, x: nat, n: nat, m: int)
    requires Dx(a, x) > 0.0 && m != 0
    requires aax(a, x, 1) - ax(a, x, 1) == 1.0
    requires aaxn(a, x, n, 1) - axn(a, x, n, 1) == 1.0 - nEx(a, x, n)
    ensures aax(a, x, m) - ax(a, x, m) == 1.0 / m as real
    ensures aaxn(a, x, n, m) - axn(a, x, n, m) == (1.0 - nEx(a, x, n)) / m as real
  {
    WoolhouseGap(m);
    if m != 1 {
      AdjustedGap(aax(a, x, 1), ax(a, x, 1), Woolhouse(m), 1.0, m);
      AdjustedGap(aaxn(a, x, n, 1), axn(a, x, n, 1), Woolhouse(m), 1.0 - nEx(a, x, n), m);
    }
  }

  /** With yearly payments, the annuity-due exceeds the annuity-immediate
      by the first payment, 1, less for the temporary one the pure
      endowment at its end. */
  lemma YearlyGaps(a: Actuarial, x: nat, n: nat)
    requires Commuted(a) && Dx(a, x) > 0.0
    ensures aax(a, x, 1) - ax(a, x, 1) == 1.0
    ensures aaxn(a, x, n, 1) - axn(a, x, n, 1) == 1.0 - nEx(a, x, n)
  {
    CommutationRecurrences(a, x);
    CommutationRecurrences(a, x + n);
    YearlyGapsOfSteps(a, x, n);
  }

  /** The yearly gaps from the two `N` recurrences they rest on. */
  lemma YearlyGapsOfSteps(a: Actuarial, x: nat, n: nat)
    requires Dx(a, x) > 0.0
    requires Nx(a, x) == Dx(a, x) + Nx(a, x + 1)
    requires Nx(a, x + n) == Dx(a, x + n) + Nx(a, x + n + 1)
    ensures aax(a, x, 1) - ax(a, x, 1) == 1.0
    ensures aaxn(a, x, n, 1) - axn(a, x, n, 1) == 1.0 - nEx(a, x, n)
  {
    GapAlgebra(Nx(a, x), Nx(a, x + 1), Nx(a, x + n), Nx(a, x + n + 1), Dx(a, x), Dx(a, x + n));
  }

  /** The ratios behind the yearly gaps, on numbers: with `n0 = d + n1` and
      `nn = dn + nn1`, the gaps over `d` are 1 and `1 - dn / d`. */
  lemma GapAlgebra(n0: real, n1: real, nn: real, nn1: real, d: real, dn: real)
    requires d != 0.0 && n0 == d + n1 && nn == dn + nn1
    ensures n0 / d - n1 / d == 1.0
    ensures (n0 - nn) / d - (n1 - nn1) / d == 1.0 - dn / d
  {
    RatioSplit(n0, n1, d);
    RatioOne(d);
    RatioSplit(n0 - nn, n1 - nn1, d);
    RatioSplit(d, dn, d);
  }

  /** Subtracting `w * g` from the due value and adding it to the immediate
      one shrinks a gap `g` to `(1 - 2w) * g`, which is `g / m`. */
  lemma AdjustedGap(due: real, immediate: real, w: real, g: real, m: int)
    requires m != 0 && due - immediate == g && 1.0 - 2.0 * w == 1.0 / m as real
    ensures (due - w * g) - (immediate + w * g) == g / m as real
  {
    assert (due - w * g) - (immediate + w * g) == (1.0 - 2.0 * w) * g;
    DivUnique((1.0 / m as real) * g, g, m as real);
  }

  /** With yearly payments, the temporary and deferred annuities make up the
      whole life annuity, and deferring by 0 years is the whole life annuity. */
  lemma DeferredSplit(a: Actuarial, x: nat, t: nat)
    requires Dx(a, x) > 0.0
    ensures aaxn(a, x, t, 1) + taax(a, x, t, 1) == aax(a, x, 1)
    ensures axn(a, x, t, 1) + tax(a, x, t, 1) == ax(a, x, 1)
    ensures taax(a, x, 0, 1) == aax(a, x, 1) && tax(a, x, 0, 1) == ax(a, x, 1)
  {
    RatioSplit(Nx(a, x), Nx(a, x + t), Dx(a, x));
    RatioSplit(Nx(a, x + 1), Nx(a, x + t + 1), Dx(a, x));
  }

  /** When the discounted survivors at the entry age are not positive, the
      yearly annuities fall back to 1 (due) and 0 (immediate), and the
      deferred annuity-due to 1 exactly when it is not deferred. */
  lemma ExtinctFallbacks(a: Actuarial, x: nat, n: nat, t: nat)
    requires Dx(a, x) <= 0.0
    ensures aaxn(a, x, n, 1) == 1.0 && aax(a, x, 1) == 1.0
    ensures axn(a, x, n, 1) == 0.0 && ax(a, x, 1) == 0.0 && tax(a, x, t, 1) == 0.0
    ensures taax(a, x, t, 1) == (if t == 0 then 1.0 else 0.0)
  {
  }

  /** The increasing annuity-due exceeds the increasing annuity-immediate by
      the level annuity-due, whole life and over t years alike, and the
      increasing annuity over t years sums the `N` list over those years. */
  lemma IncreasingDueMinusImmediate(a: Actuarial, x: nat, t: nat)
    requires Dx(a, x) > 0.0
    ensures Iaax(a, x) - Iax(a, x) == aax(a, x, 1)
    ensures Itaax(a, x, t) - Itax(a, x, t) == aaxn(a, x, t, 1)
    ensures Itaax(a, x, t) == Window(a.N, x, t) / Dx(a, x)
  {
    SumFromStep(a.N, x);
    SumFromStep(a.N, x + t);
    SumFromWindow(a.N, x, t);
    IncreasingOfSteps(a, x, t);
  }

  /** The increasing annuities from the `S` recurrences and the sum of `N`
      they rest on. */
  lemma IncreasingOfSteps(a: Actuarial, x: nat, t: nat)
    requires Dx(a, x) > 0.0
    requires Sx(a, x) == Nx(a, x) + Sx(a, x + 1)
    requires Sx(a, x + t) == Nx(a, x + t) + Sx(a, x + t + 1)
    requires Sx(a, x) - Sx(a, x + t) == Window(a.N, x, t)
    ensures Iaax(a, x) - Iax(a, x) == aax(a, x, 1)
    ensures Itaax(a, x, t) - Itax(a, x, t) == aaxn(a, x, t, 1)
    ensures Itaax(a, x, t) == Window(a.N, x, t) / Dx(a, x)
  {
    var d := Dx(a, x);
    RatioSplit(Sx(a, x), Sx(a, x + 1), d);
    RatioSplit(Sx(a, x) - Sx(a, x + t), Sx(a, x + 1) - Sx(a, x + t + 1), d);
  }

  /** As written, a deferred annuity with `m` payments a year is not the
      whole life annuity when it is not deferred, and once the deferral
      reaches past the end of the curve the annuity-due is negative and the
      annuity-immediate positive although neither pays anything. */
  lemma DeferredAdjustmentAsWritten(a: Actuarial, x: nat, t: nat, m: int)
    requires Commuted(a) && Dx(a, x) > 0.0 && m >= 2
    ensures taax(a, x, 0, m) == aax(a, x, 1) != aax(a, x, m)
    ensures tax(a, x, 0, m) == ax(a, x, 1) != ax(a, x, m)
    ensures x + t >= |a.D| ==> taax(a, x, t, m) == -Woolhouse(m) < 0.0
    ensures x + t >= |a.D| ==> tax(a, x, t, m) == Woolhouse(m) > 0.0
  {
    RatioOne(Dx(a, x));
    WoolhousePositive(m);
    SuffixSumsAt(a.D, x + t);
    SuffixSumsAt(a.D, x + t + 1);
  }

  lemma WoolhousePositive(m: int)
    requires m >= 2
    ensures Woolhouse(m) > 0.0
  {
    ReciprocalPositive((m * 2) as real);
    assert Woolhouse(m) == (m - 1) as real * (1.0 / (m * 2) as real);
  }

  /** With the adjustment on the deferred part only, the temporary and the
      deferred annuity make up the whole life annuity for every `m`, a
      deferral of 0 years is the whole life annuity, and a deferral past the
      end of the curve is worth 0. */
  lemma DeferredAdjustmentCorrected(a: Actuarial, x: nat, t: nat, m: int)
    requires Commuted(a) && Dx(a, x) > 0.0 && m != 0
    ensures aaxn(a, x, t, m) + DeferredDue(a, x, t, m) == aax(a, x, m)
    ensures axn(a, x, t, m) + DeferredImmediate(a, x, t, m) == ax(a, x, m)
    ensures DeferredDue(a, x, 0, m) == aax(a, x, m)
    ensures DeferredImmediate(a, x, 0, m) == ax(a, x, m)
    ensures x + t >= |a.D| ==> DeferredDue(a, x, t, m) == 0.0 && DeferredImmediate(a, x, t, m) == 0.0
  {
    SuffixSumsAt(a.D, x);
    DeferredCorrectedOfLengths(a, x, t, m);
  }

  /** The corrected deferred annuities, on lists `D` and `N` of one length. */
  lemma DeferredCorrectedOfLengths(a: Actuarial, x: nat, t: nat, m: int)
    requires Dx(a, x) > 0.0 && m != 0 && |a.N| == |a.D|
    ensures aaxn(a, x, t, m) + DeferredDue(a, x, t, m) == aax(a, x, m)
    ensures axn(a, x, t, m) + DeferredImmediate(a, x, t, m) == ax(a, x, m)
    ensures DeferredDue(a, x, 0, m) == aax(a, x, m)
    ensures DeferredImmediate(a, x, 0, m) == ax(a, x, m)
    ensures x + t >= |a.D| ==> DeferredDue(a, x, t, m) == 0.0 && DeferredImmediate(a, x, t, m) == 0.0
  {
    DeferredSplit(a, x, t);
    PureEndowment(a, x, t);
    if m != 1 {
      var w := Woolhouse(m);
      var e := nEx(a, x, t);
      AdjustedSum(aaxn(a, x, t, 1), taax(a, x, t, 1), aax(a, x, 1), -w, e);
      AdjustedSum(axn(a, x, t, 1), tax(a, x, t, 1), ax(a, x, 1), w, e);
    }
  }

  /** Adjusting the two parts of a split by `c * (1 - e)` and `c * e` adjusts
      the whole by `c`. */
  lemma AdjustedSum(front: real, back: real, whole: real, c: real, e: real)
    requires front + back == whole
    ensures (front + c * (1.0 - e)) + (back + c * e) == whole + c
  {
  }
}
