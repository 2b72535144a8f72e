/** The single-life mortality table (`MortalityTable`): a survivor curve `l`,
    the per-mille death rates `q` it was given or derived from, and the
    terminal index `w`. */
module Mortality {
  import opened Series

  datatype Option<T> = None | Some(value: T)

  /** The legacy `nt` argument `[leading] + rates`: a count of leading ages
      with no mortality, then per-mille death rates of a base table. */
  datatype LegacyTable = LegacyTable(leading: int, rates: seq<real>)

  datatype MortalityTable = MortalityTable(l: seq<real>, q: seq<real>, w: int)

  /** The starting population when survivors are compounded from rates. */
  const Radix: real := 100000.0

  /** `[0.0] * n`; a negative count gives the empty list. */
  function Zeros(n: int): (r: seq<real>)
    ensures |r| == (if n < 0 then 0 else n)
    ensures forall k :: 0 <= k < |r| ==> r[k] == 0.0
  {
    if n <= 0 then [] else Zeros(n - 1) + [0.0]
  }

  /** A base-table rate expressed as `perc` percent of itself. */
  function Scaled(rate: real, perc: real): real
  {
    rate * perc / 100.0
  }

  /** The survivors one year on, given per-mille death rate `q`. */
  function Survived(l: real, q: real): real
  {
    l * (1.0 - q / 1000.0)
  }

  function LastOr(s: seq<real>, d: real): real
  {
    if s == [] then d else s[|s| - 1]
  }

  /** What the legacy loop appends for `rates`: the running `end_val` starts
      at 0, and each rate is scaled and appended while the previously appended
      value is below 1000. */
  function LegacyScan(rates: seq<real>, perc: real): seq<real>
  {
    if rates == [] then []
    else
      var kept := LegacyScan(rates[..|rates| - 1], perc);
      if LastOr(kept, 0.0) < 1000.0 then kept + [Scaled(rates[|rates| - 1], perc)] else kept
  }

  /** One more iteration of the legacy loop. */
  lemma LegacyScanSnoc(rates: seq<real>, x: real, perc: real)
    ensures LegacyScan(rates + [x], perc) ==
      if LastOr(LegacyScan(rates, perc), 0.0) < 1000.0
      then LegacyScan(rates, perc) + [Scaled(x, perc)]
      else LegacyScan(rates, perc)
  {
    assert (rates + [x])[..|rates|] == rates;
  }

  /** The rates built from `nt`: leading zeros, the scanned rates, and a
      closing 1000 when the table is a percentage other than 100. */
  function LegacyRates(nt: LegacyTable, perc: real): seq<real>
  {
    Zeros(nt.leading) + LegacyScan(nt.rates, perc) + (if perc != 100.0 then [1000.0] else [])
  }

  /** The survivor curve compounded from the radix: one more entry than rates. */
  function Compound(q: seq<real>): (l: seq<real>)
    ensures |l| == |q| + 1 && l[0] == Radix
  {
    if q == [] then [Radix]
    else
      var p := Compound(q[..|q| - 1]);
      p + [Survived(p[|p| - 1], q[|q| - 1])]
  }

  /** Appending the terminal 0 when the curve does not already end in 0. */
  function WithTerminalZero(l: seq<real>): (r: seq<real>)
    requires |l| > 0
    ensures |r| > 0 && r[|r| - 1] == 0.0
    ensures |r| == |l| + (if l[|l| - 1] == 0.0 then 0 else 1)
    ensures r[..|l|] == l
  {
    if l[|l| - 1] != 0.0 then l + [0.0] else l
  }

  /** `l.index(0)`: the position of the first zero. */
  function FirstZero(l: seq<real>): (k: nat)
    requires 0.0 in l
    ensures k < |l| && l[k] == 0.0
    ensures forall j :: 0 <= j < k ==> l[j] != 0.0
  {
    if l[0] == 0.0 then 0
    else
      assert l == [l[0]] + l[1..];
      FirstZero(l[1..]) + 1
  }

  /** The rates a table ends up holding: the caller's, or those built from `nt`. */
  function RatesOf(q: seq<real>, nt: Option<LegacyTable>, perc: real): seq<real>
  {
    match nt
    case None => q
    case Some(t) => LegacyRates(t, perc)
  }

  /** The table the constructor builds from its arguments. */
  function TableOf(l: seq<real>, q: seq<real>, nt: Option<LegacyTable>, perc: real): MortalityTable
  {
    CurveTable(l, RatesOf(q, nt, perc))
  }

  /** The table with the rates `rates`: the given curve, or when there is
      none the one compounded from the rates, closed by a terminal 0. */
  function CurveTable(l: seq<real>, rates: seq<real>): MortalityTable
  {
    var survivors := WithTerminalZero(if l == [] then Compound(rates) else l);
    MortalityTable(survivors, rates, FirstZero(survivors) - 1)
  }

  /** A table whose curve holds a zero and whose `w` is one before the first. */
  ghost predicate Terminated(t: MortalityTable)
  {
    0.0 in t.l && t.w == FirstZero(t.l) - 1
  }

  /** The retro-compatibility branch of `MortalityTable.__init__`: the rates
      rebuilt from a legacy `nt` list. */
  method ReadLegacyTable(nt: LegacyTable, perc: real) returns (rates: seq<real>)
    ensures rates == LegacyRates(nt, perc)
  {
    var values := nt.rates;
    var scanned := [];
    var endVal := 0.0;
    var i := 0;
    while i < |values|
      invariant 0 <= i <= |values|
      invariant scanned == LegacyScan(values[..i], perc)
      invariant endVal == LastOr(scanned, 0.0)
    {
      assert values[..i + 1] == values[..i] + [values[i]];
      LegacyScanSnoc(values[..i], values[i], perc);
      if endVal < 1000.0 {
        endVal := Scaled(values[i], perc);
        scanned := scanned + [endVal];
      }
      i := i + 1;
    }
    assert values[..|values|] == values;
    rates := Zeros(nt.leading) + scanned;
    if perc != 100.0 {
      rates := rates + [1000.0];
    }
  }

  /** The survivor curve compounded from the radix, one append per rate. */
  method CompoundSurvivors(rates: seq<real>) returns (survivors: seq<real>)
    ensures survivors == Compound(rates)
  {
    survivors := [Radix];
    var k := 0;
    while k < |rates|
      invariant 0 <= k <= |rates|
      invariant survivors == Compound(rates[..k])
    {
      assert rates[..k + 1][..k] == rates[..k];
      survivors := survivors + [Survived(survivors[|survivors| - 1], rates[k])];
      k := k + 1;
    }
    assert rates[..|rates|] == rates;
  }

  /** `MortalityTable.__init__`: `nt` is None both for a missing and for an
      empty legacy list, which the source treats alike. */
  method NewMortalityTable(l: seq<real>, q: seq<real>, nt: Option<LegacyTable>, perc: real)
    returns (t: MortalityTable)
    ensures t == TableOf(l, q, nt, perc)
  {
    var rates := q;
    if nt.Some? {
      rates := ReadLegacyTable(nt.value, perc);
    }
    assert rates == RatesOf(q, nt, perc);
    var base := l;
    if base == [] {
      base := CompoundSurvivors(rates);
    }
    var survivors := base;
    if survivors[|survivors| - 1] != 0.0 {
      survivors := survivors + [0.0];
    }
    assert survivors == WithTerminalZero(base);
    assert survivors[|survivors| - 1] == 0.0;
    t := MortalityTable(survivors, rates, FirstZero(survivors) - 1);
    assert t == CurveTable(l, rates);
  }

  /** What the legacy loop keeps of `rates` (as `r`): each rate scaled by
      `perc / 100`, in order, every kept value but the last below 1000, and
      when rates are left over, the last kept value reached 1000. */
  ghost predicate ScannedPrefix(rates: seq<real>, perc: real, r: seq<real>)
  {
    && |r| <= |rates|
    && (forall k :: 0 <= k < |r| ==> r[k] == Scaled(rates[k], perc))
    && (forall k :: 0 <= k < |r| - 1 ==> r[k] < 1000.0)
    && (|r| < |rates| ==> |r| > 0 && r[|r| - 1] >= 1000.0)
  }

  /** The legacy path keeps the scaled rates up to and including the first
      scaled value that reaches 1000, and nothing after it. */
  lemma {:induction false} LegacyScanShape(rates: seq<real>, perc: real)
    ensures ScannedPrefix(rates, perc, LegacyScan(rates, perc))
  {
    if rates != [] {
      var front := rates[..|rates| - 1];
      LegacyScanShape(front, perc);
      var kept := LegacyScan(front, perc);
      var r := LegacyScan(rates, perc);
      assert forall k :: 0 <= k < |front| ==> front[k] == rates[k];
      if LastOr(kept, 0.0) < 1000.0 {
        assert |kept| == |front|;
        assert r == kept + [Scaled(rates[|rates| - 1], perc)];
      } else {
        assert r == kept;
      }
    }
  }

  /** The legacy rates: `leading` zeros, the scanned rates, then 1000 exactly
      when `perc` is not 100. */
  lemma LegacyRatesShape(nt: LegacyTable, perc: real)
    ensures var z := if nt.leading < 0 then 0 else nt.leading;
      var r := LegacyRates(nt, perc);
      var n := |LegacyScan(nt.rates, perc)|;
      && n <= |nt.rates|
      && |r| == z + n + (if perc != 100.0 then 1 else 0)
      && (forall k :: 0 <= k < z ==> r[k] == 0.0)
      && r[z..z + n] == LegacyScan(nt.rates, perc)
      && ScannedPrefix(nt.rates, perc, r[z..z + n])
      && (perc != 100.0 ==> r[|r| - 1] == 1000.0)
  {
    LegacyScanShape(nt.rates, perc);
    var z := if nt.leading < 0 then 0 else nt.leading;
    var scan := LegacyScan(nt.rates, perc);
    var r := LegacyRates(nt, perc);
    assert r[z..z + |scan|] == scan;
  }

  /** Each compounded survivor count is the previous one times the one-year
      survival `1 - q/1000`. */
  lemma {:induction false} CompoundStep(q: seq<real>, k: nat)
    requires k < |q|
    ensures Compound(q)[k + 1] == Survived(Compound(q)[k], q[k])
  {
    var front := q[..|q| - 1];
    var p := Compound(front);
    assert Compound(q)[..|q|] == p;
    if k < |q| - 1 {
      CompoundStep(front, k);
      assert front[k] == q[k];
      assert Compound(q)[k] == p[k] && Compound(q)[k + 1] == p[k + 1];
    } else {
      assert Compound(q)[k + 1] == Survived(p[|p| - 1], q[|q| - 1]);
    }
  }

  /** A table built from rates: it starts at the radix, follows the survival
      recurrence, ends in exactly one appended 0 when the compounded curve did
      not already reach 0, and `w` is one before its first zero. */
  lemma TableFromRates(q: seq<real>, nt: Option<LegacyTable>, perc: real)
    ensures var t := TableOf([], q, nt, perc);
      && t.q == RatesOf(q, nt, perc)
      && t.l[0] == Radix
      && (forall k :: 0 <= k < |t.q| ==> t.l[k + 1] == Survived(t.l[k], t.q[k]))
      && t.l[|t.l| - 1] == 0.0
      && |t.l| == |t.q| + 1 + (if Compound(t.q)[|t.q|] != 0.0 then 1 else 0)
      && Terminated(t)
  {
    var t := TableOf([], q, nt, perc);
    var c := Compound(t.q);
    assert t.l == WithTerminalZero(c);
    assert t.l[..|c|] == c;
    forall k | 0 <= k < |t.q|
      ensures t.l[k + 1] == Survived(t.l[k], t.q[k])
    {
      CompoundStep(t.q, k);
      assert t.l[k] == c[k] && t.l[k + 1] == c[k + 1];
    }
  }

  /** A table given its survivors keeps them, appends one 0 only when they do
      not already end in 0, and `w` is one before its first zero. */
  lemma TableFromSurvivors(l: seq<real>, q: seq<real>, nt: Option<LegacyTable>, perc: real)
    requires l != []
    ensures var t := TableOf(l, q, nt, perc);
      && t.l[..|l|] == l
      && |t.l| == |l| + (if l[|l| - 1] == 0.0 then 0 else 1)
      && t.l[|t.l| - 1] == 0.0
      && t.q == RatesOf(q, nt, perc)
      && Terminated(t)
      && -1 <= t.w < |t.l| - 1
      && t.l[t.w + 1] == 0.0
      && (forall j :: 0 <= j <= t.w ==> t.l[j] != 0.0)
  {
  }
}
