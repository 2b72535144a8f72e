/** The joint "first death" status (`Pers`): one or more mortality tables,
    aligned by issue age, combined into one survivor curve, with the death
    rates, life expectancies and probability helpers derived from it. */
module JointLife {
  import opened Series
  import opened Mortality

  datatype Pers = Pers(l: seq<real>, q: seq<real>, e: seq<real>, w: int)

  /** `min(age_list)`. */
  function MinAge(ages: seq<int>): (m: int)
    requires |ages| > 0
    ensures m in ages
    ensures forall a :: a in ages ==> m <= a
  {
    if |ages| == 1 then ages[0]
    else
      var rest := MinAge(ages[1..]);
      assert ages == [ages[0]] + ages[1..];
      if ages[0] <= rest then ages[0] else rest
  }

  /** The offset of life `i` relative to the youngest. */
  function OffsetOf(ages: seq<int>, i: nat): nat
    requires i < |ages|
  {
    assert ages[i] in ages;
    ages[i] - MinAge(ages)
  }

  /** `[x - age_min for x in age_list]`. */
  function Offsets(ages: seq<int>): seq<nat>
    requires |ages| > 0
  {
    seq(|ages|, i requires 0 <= i < |ages| => OffsetOf(ages, i))
  }

  function Min(a: int, b: int): int
  {
    if a <= b then a else b
  }

  /** The running `w` after the first `n` tables: it takes a table's
      `w - offset` when it is 0 (at the start, and again whenever the running
      value has come down to exactly 0) and the minimum otherwise. */
  function JointW(tables: seq<MortalityTable>, offsets: seq<nat>, n: nat): int
    requires n <= |tables| <= |offsets|
  {
    if n == 0 then 0
    else
      var acc := JointW(tables, offsets, n - 1);
      var v := tables[n - 1].w - offsets[n - 1];
      if acc == 0 then v else Min(acc, v)
  }

  /** The curve the `l_x` loop leaves: the first table's curve from its offset,
      with `w` zeros appended; each of the first `w` entries is multiplied by
      the last table's survivor at the same age plus its offset, or set to 0
      where that table has no entry. */
  function JointSurvivors(first: seq<real>, off0: nat, last: seq<real>, os: nat, w: int): seq<real>
  {
    var base := if off0 <= |first| then first[off0..] else [];
    var added := if w > 0 then w else 0;
    seq(|base| + added, i requires 0 <= i < |base| + added =>
      if |base| <= i then 0.0
      else if i < w then (if i + os < |last| then base[i] * last[i + os] else 0.0)
      else base[i])
  }

  /** The per-mille rate of decrement from `lx` to `lx1`. */
  function Decrement(lx: real, lx1: real): real
    requires lx != 0.0
  {
    (lx - lx1) * 1000.0 / lx
  }

  /** The death rate at age k: 1 where no one is alive. */
  function RateAt(l: seq<real>, k: nat): real
    requires k + 1 < |l|
  {
    if l[k] > 0.0 then Decrement(l[k], l[k + 1]) else 1.0
  }

  /** The decrement of a survivor count that dropped by the rate `q`. */
  lemma DecrementOfSurvived(a: real, q: real)
    requires a != 0.0
    ensures Decrement(a, Survived(a, q)) == q
  {
  }

  /** The one-year survival a decrement stands for. */
  lemma DecrementSurvival(a: real, b: real)
    requires a != 0.0
    ensures (1000.0 - Decrement(a, b)) / 1000.0 == b / a
    ensures (1.0 - b / a) * 1000.0 == Decrement(a, b)
  {
    var d := Decrement(a, b);
    assert (b / a) * a == b;
    assert (1.0 - b / a) * a == a - b;
    DivUnique(1.0 - b / a, a - b, a);
    assert (1.0 - b / a) * 1000.0 * a == (a - b) * 1000.0;
    DivUnique((1.0 - b / a) * 1000.0, (a - b) * 1000.0, a);
    assert (1000.0 - d) / 1000.0 == 1.0 - d / 1000.0;
  }

  /** `q_x` from consecutive survivors. */
  function DeathRates(l: seq<real>): seq<real>
  {
    if l == [] then []
    else seq(|l| - 1, k requires 0 <= k < |l| - 1 => RateAt(l, k))
  }

  /** Half a year plus the survivors after age g, up to but not including the
      last entry of the curve, per survivor at g. */
  function Expectancy(lx: real, later: real): real
    requires lx != 0.0
  {
    0.5 + later / lx
  }

  /** The curtate life expectancy at age g: 0.5 where no one is alive. */
  function ExpectancyAt(l: seq<real>, g: nat): real
    requires g + 1 < |l|
  {
    if l[g] > 0.0 then Expectancy(l[g], Sum(l[g + 1..|l| - 1])) else 0.5
  }

  /** `e_x`: the life expectancy at every age but the last. */
  function LifeExpectancies(l: seq<real>): seq<real>
  {
    if l == [] then [] else seq(|l| - 1, g requires 0 <= g < |l| - 1 => ExpectancyAt(l, g))
  }

  /** What the source demands of the `Pers` arguments: at least one table, an
      age for each, and a non-empty aligned first curve whenever the combined
      `w` is positive (otherwise the multiply loop indexes an empty list). */
  ghost predicate Combinable(tables: seq<MortalityTable>, ages: seq<int>)
  {
    && 0 < |tables| <= |ages|
    && (JointW(tables, Offsets(ages), |tables|) > 0 ==> Offsets(ages)[0] < |tables[0].l|)
  }

  /** The status `Pers(tables, ages)` builds. */
  function PersOf(tables: seq<MortalityTable>, ages: seq<int>): Pers
    requires Combinable(tables, ages)
  {
    var os := Offsets(ages);
    var w := JointW(tables, os, |tables|);
    var l := JointSurvivors(tables[0].l, os[0], tables[|tables| - 1].l, os[|tables| - 1], w);
    Pers(l, DeathRates(l), LifeExpectancies(l), w)
  }

  /** A status whose rates and expectancies are derived from its curve. */
  ghost predicate Derived(p: Pers)
  {
    p.q == DeathRates(p.l) && p.e == LifeExpectancies(p.l)
  }

  /** The `l_x` loop of `Pers.__init__`, run on the first table's curve from
      its offset and on the table `mt` (with offset `os`) left by the preceding
      loops. */
  method CombineSurvivors(first: seq<real>, off0: nat, last: seq<real>, os: nat, w: int)
    returns (lx: seq<real>)
    requires w > 0 ==> off0 < |first|
    ensures lx == JointSurvivors(first, off0, last, os, w)
  {
    lx := if off0 <= |first| then first[off0..] else [];
    ghost var base := lx;
    var i := 0;
    while i < w
      invariant 0 <= i <= (if w > 0 then w else 0)
      invariant |lx| == |base| + i
      invariant forall j :: 0 <= j < i ==>
        lx[j] == if |base| <= j then 0.0 else if j + os < |last| then base[j] * last[j + os] else 0.0
      invariant forall j :: i <= j < |base| ==> lx[j] == base[j]
      invariant forall j :: |base| <= j < |lx| ==> lx[j] == 0.0
    {
      if i < |lx| {
        lx := lx + [0.0];
      }
      if i + os < |last| {
        lx := lx[i := lx[i] * last[i + os]];
      } else {
        lx := lx[i := 0.0];
      }
      i := i + 1;
    }
    ghost var expected := JointSurvivors(first, off0, last, os, w);
    assert |expected| == |base| + (if w > 0 then w else 0);
    assert |lx| == |expected|;
    assert forall j :: 0 <= j < |lx| ==> lx[j] == expected[j];
  }

  /** The `q_x` loop of `Pers.__init__`, which carries the previous survivor
      count from one step to the next. */
  method DeriveDeathRates(l: seq<real>) returns (q: seq<real>)
    ensures q == DeathRates(l)
  {
    q := [];
    if |l| > 0 {
      var lx := l[0];
      var k := 1;
      while k < |l|
        invariant 1 <= k <= |l|
        invariant lx == l[k - 1]
        invariant |q| == k - 1
        invariant forall j :: 0 <= j < k - 1 ==> q[j] == RateAt(l, j)
      {
        var lx1 := l[k];
        ghost var before := q;
        if lx > 0.0 {
          q := q + [Decrement(lx, lx1)];
        } else {
          q := q + [1.0];
        }
        assert forall j :: 0 <= j < k - 1 ==> q[j] == before[j];
        lx := lx1;
        k := k + 1;
      }
      ghost var expected := DeathRates(l);
      assert |q| == |expected|;
      assert forall j :: 0 <= j < |q| ==> q[j] == expected[j];
    }
  }

  /** The `e_x` loop of `Pers.__init__`: a running sum of the curve without
      its last entry, from which each age's survivor count is subtracted
      before it is used. */
  method DeriveLifeExpectancies(l: seq<real>) returns (e: seq<real>)
    ensures e == LifeExpectancies(l)
  {
    e := [];
    if |l| > 0 {
      var n := |l| - 1;
      var sumLx := Sum(l[..n]);
      var g := 0;
      while g < n
        invariant 0 <= g <= n
        invariant sumLx == Sum(l[g..n])
        invariant |e| == g
        invariant forall j :: 0 <= j < g ==> e[j] == ExpectancyAt(l, j)
      {
        var lxg := l[g];
        SumFront(l, g, n);
        sumLx := sumLx - lxg;
        if lxg > 0.0 {
          e := e + [Expectancy(lxg, sumLx)];
        } else {
          e := e + [0.5];
        }
        g := g + 1;
      }
    }
  }

  /** `Pers.__init__`. The second loop only rebinds `mt` and `os`, so the
      multiply loop after it sees the last table alone. */
  method NewPers(tables: seq<MortalityTable>, ages: seq<int>) returns (p: Pers)
    requires Combinable(tables, ages)
    ensures p == PersOf(tables, ages)
    ensures Derived(p)
  {
    var offsets := Offsets(ages);
    var w := 0;
    var mt := tables[0];
    var os := offsets[0];
    for i := 0 to |tables|
      invariant w == JointW(tables, offsets, i)
      invariant i > 0 ==> mt == tables[i - 1] && os == offsets[i - 1]
    {
      mt := tables[i];
      os := offsets[i];
      if w == 0 {
        w := mt.w - os;
      } else {
        w := Min(w, mt.w - os);
      }
    }
    for t := 1 to |tables|
      invariant var last := if t == 1 then |tables| - 1 else t - 1; mt == tables[last] && os == offsets[last]
    {
      mt := tables[t];
      os := offsets[t];
    }
    assert mt == tables[|tables| - 1] && os == offsets[|tables| - 1];
    var l := CombineSurvivors(tables[0].l, offsets[0], mt.l, os, w);
    var q := DeriveDeathRates(l);
    var e := DeriveLifeExpectancies(l);
    p := Pers(l, q, e, w);
  }

  /** `qx(x)`: the per-mille death rate at age x, 0 past the end. */
  function qx(p: Pers, x: nat): real
  {
    At(p.q, x)
  }

  /** `lx(x)`: the survivors at age x, 0 past the end. */
  function lx(p: Pers, x: nat): real
  {
    At(p.l, x)
  }

  /** `ex(x)`: the life expectancy at age x, 0 past the end. */
  function ex(p: Pers, x: nat): real
  {
    At(p.e, x)
  }

  /** `dx(x)`: the deaths between ages x and x + 1 before the first zero of
      the curve, 0.0 from it on (`l_x.index(0)` fails if there is no zero). */
  function dx(p: Pers, x: nat): real
    requires 0.0 in p.l
  {
    if x < FirstZero(p.l) then p.l[x] - p.l[x + 1] else 0.0
  }

  /** `px(x)`: the per-mille probability of surviving one year. */
  function px(p: Pers, x: nat): real
  {
    1000.0 - qx(p, x)
  }

  /** `tpx(x, t)`: the probability of surviving t years from age x. */
  function tpx(p: Pers, x: nat, t: nat): real
    requires x + t < |p.l| && p.l[x] != 0.0
  {
    p.l[x + t] / p.l[x]
  }

  /** `tqx(x, t)`: the probability of dying within t years from age x. */
  function tqx(p: Pers, x: nat, t: nat): real
    requires x + t < |p.l| && p.l[x] != 0.0
  {
    1.0 - p.l[x + t] / p.l[x]
  }

  /** `tqxn(x, n, t)`: `tpx(x, t)` times the per-mille rate at age x + n. */
  function tqxn(p: Pers, x: nat, n: nat, t: nat): real
    requires x + t < |p.l| && p.l[x] != 0.0
  {
    tpx(p, x, t) * qx(p, x + n)
  }

  /** `mx(x)`: deaths in the year per survivor at its start. */
  function mx(p: Pers, x: nat): real
    requires 0.0 in p.l && x < |p.l| && p.l[x] != 0.0
  {
    dx(p, x) / p.l[x]
  }

  /** While the running `w` never comes down to exactly 0, the combined `w`
      is the smallest `w - offset` over the tables seen. */
  lemma {:induction false} JointWIsMinimum(tables: seq<MortalityTable>, offsets: seq<nat>, n: nat)
    requires 0 < n <= |tables| <= |offsets|
    requires forall k :: 0 < k < n ==> JointW(tables, offsets, k) != 0
    ensures exists i :: 0 <= i < n && JointW(tables, offsets, n) == tables[i].w - offsets[i]
    ensures forall i :: 0 <= i < n ==> JointW(tables, offsets, n) <= tables[i].w - offsets[i]
  {
    if n == 1 {
      assert JointW(tables, offsets, 1) == tables[0].w - offsets[0];
    } else {
      JointWIsMinimum(tables, offsets, n - 1);
      assert JointW(tables, offsets, n - 1) != 0;
      var i :| 0 <= i < n - 1 && JointW(tables, offsets, n - 1) == tables[i].w - offsets[i];
      if JointW(tables, offsets, n) == JointW(tables, offsets, n - 1) {
        assert 0 <= i < n && JointW(tables, offsets, n) == tables[i].w - offsets[i];
      } else {
        assert JointW(tables, offsets, n) == tables[n - 1].w - offsets[n - 1];
      }
    }
  }

  /** Once the running `w` is exactly 0 after k tables, the combination starts
      afresh: the final `w` is the one the remaining tables give on their own. */
  lemma {:induction false} JointWRestarts(tables: seq<MortalityTable>, offsets: seq<nat>, k: nat, n: nat)
    requires 0 < k <= n <= |tables| <= |offsets|
    requires JointW(tables, offsets, k) == 0
    ensures JointW(tables, offsets, n) == JointW(tables[k..], offsets[k..], n - k)
  {
    if n > k {
      JointWRestarts(tables, offsets, k, n - 1);
      assert tables[k..][n - 1 - k] == tables[n - 1] && offsets[k..][n - 1 - k] == offsets[n - 1];
    }
  }

  /** With a single table (offset 0) the combined curve is that table's curve
      squared up to `w`, its own values from `w` on, followed by `w` zeros. */
  lemma SingleLife(t: MortalityTable, age: int)
    requires Terminated(t)
    ensures Combinable([t], [age])
    ensures var p := PersOf([t], [age]);
      && p.w == t.w
      && |p.l| == |t.l| + (if t.w > 0 then t.w else 0)
      && (forall i :: 0 <= i < t.w ==> p.l[i] == t.l[i] * t.l[i])
      && (forall i :: 0 <= i < |t.l| && t.w <= i ==> p.l[i] == t.l[i])
      && (forall i :: |t.l| <= i < |p.l| ==> p.l[i] == 0.0)
  {
    assert MinAge([age]) == age;
    assert Offsets([age]) == [0];
    assert JointW([t], [0], 1) == t.w;
    assert t.l[0..] == t.l;
    var l := JointSurvivors(t.l, 0, t.l, 0, t.w);
    assert PersOf([t], [age]).l == l;
    assert t.w < |t.l|;
    forall i | 0 <= i < t.w
      ensures l[i] == t.l[i] * t.l[i]
    {
      assert l[i] == t.l[i] * t.l[i];
    }
  }

  /** The rate recorded at a living age gives back the next survivor count. */
  lemma DecrementRecovers(a: real, b: real)
    requires a != 0.0
    ensures Survived(a, Decrement(a, b)) == b
  {
    var d := Decrement(a, b);
    assert d / 1000.0 == (a - b) / a;
    assert a * ((a - b) / a) == a - b;
    assert Survived(a, d) == a * (1.0 - d / 1000.0);
  }

  /** Recorded rates describe the curve: at every living age the next
      survivor count is this one times `1 - q/1000`. */
  lemma DeathRatesDescribeCurve(l: seq<real>, k: nat)
    requires k + 1 < |l| && l[k] > 0.0
    ensures |DeathRates(l)| == |l| - 1
    ensures l[k + 1] == Survived(l[k], DeathRates(l)[k])
  {
    DecrementRecovers(l[k], l[k + 1]);
  }

  /** Compounding survivors from rates and reading the rates back recovers
      them, as long as the curve stays positive. */
  lemma RatesRoundTrip(q: seq<real>)
    requires forall k :: 0 <= k < |q| ==> Compound(q)[k] > 0.0
    ensures DeathRates(Compound(q)) == q
  {
    var c := Compound(q);
    var d := DeathRates(c);
    assert |d| == |q|;
    forall k | 0 <= k < |q|
      ensures d[k] == q[k]
    {
      assert c[k] > 0.0;
      assert d[k] == Decrement(c[k], c[k + 1]);
      CompoundStep(q, k);
      DecrementOfSurvived(c[k], q[k]);
    }
  }

  /** One step of the expectation recursion, on numbers. */
  lemma ExpectancyStep(l0: real, l1: real, s: real)
    requires l0 != 0.0 && l1 != 0.0
    ensures Expectancy(l0, l1 + s) == 0.5 + (l1 / l0) * (Expectancy(l1, s) + 0.5)
  {
    var r := l1 / l0;
    assert r * l0 == l1;
    assert r * (Expectancy(l1, s) + 0.5) == r * (1.0 + s / l1);
    assert r * (1.0 + s / l1) * l0 == l1 + s;
    DivUnique(r * (1.0 + s / l1), l1 + s, l0);
  }

  /** The curtate expectation recursion: at living ages g and g + 1,
      `e(g) = 0.5 + (l(g+1)/l(g)) * (e(g+1) + 0.5)`. */
  lemma ExpectancyRecursion(l: seq<real>, g: nat)
    requires g + 2 < |l| && l[g] > 0.0 && l[g + 1] > 0.0
    ensures |LifeExpectancies(l)| == |l| - 1
    ensures LifeExpectancies(l)[g] == 0.5 + (l[g + 1] / l[g]) * (LifeExpectancies(l)[g + 1] + 0.5)
  {
    var n := |l| - 1;
    var e := LifeExpectancies(l);
    assert e[g] == ExpectancyAt(l, g) && e[g + 1] == ExpectancyAt(l, g + 1);
    SumFront(l, g + 1, n);
    ExpectancyStep(l[g], l[g + 1], Sum(l[g + 2..n]));
  }

  /** One year of survival three ways: `px / 1000`, `tpx(x, 1)` and
      `1 - tqx(x, 1)` agree, and `tqx(x, 1)` is the rate `qx` per unit. */
  lemma OneYearSurvival(p: Pers, x: nat)
    requires Derived(p)
    requires x + 1 < |p.l| && p.l[x] > 0.0
    ensures px(p, x) / 1000.0 == tpx(p, x, 1)
    ensures tqx(p, x, 1) * 1000.0 == qx(p, x)
  {
    assert qx(p, x) == Decrement(p.l[x], p.l[x + 1]);
    DecrementSurvival(p.l[x], p.l[x + 1]);
  }

  /** Before the first zero, `dx` is the drop in survivors and the central
      rate `mx` is the death rate `qx` per unit. */
  lemma CentralRate(p: Pers, x: nat)
    requires Derived(p)
    requires 0.0 in p.l && x < FirstZero(p.l) && p.l[x] > 0.0
    ensures dx(p, x) == lx(p, x) - lx(p, x + 1)
    ensures mx(p, x) * 1000.0 == qx(p, x)
  {
    var a, b := p.l[x], p.l[x + 1];
    assert qx(p, x) == (a - b) * 1000.0 / a;
  }

  /** Survival probabilities chain: surviving s + t years is surviving s
      years and then t more. */
  lemma SurvivalChain(p: Pers, x: nat, s: nat, t: nat)
    requires x + s + t < |p.l| && p.l[x] != 0.0 && p.l[x + s] != 0.0
    ensures tpx(p, x, s + t) == tpx(p, x, s) * tpx(p, x + s, t)
    ensures tqx(p, x, s + t) == 1.0 - tpx(p, x, s + t)
  {
    var a, b, c := p.l[x], p.l[x + s], p.l[x + s + t];
    assert (b / a) * (c / b) == c / a;
  }

  /** With the deferral equal to the survival period, `tqxn(x, n, n)` is the
      per-mille probability that a life aged x dies in the year after n
      years. */
  lemma DeferredDeath(p: Pers, x: nat, n: nat)
    requires Derived(p)
    requires x + n + 1 < |p.l| && p.l[x] != 0.0 && p.l[x + n] > 0.0
    ensures tqxn(p, x, n, n) == (p.l[x + n] - p.l[x + n + 1]) * 1000.0 / p.l[x]
  {
    var a, b, c := p.l[x], p.l[x + n], p.l[x + n + 1];
    assert qx(p, x + n) == (b - c) * 1000.0 / b;
    assert (b / a) * ((b - c) * 1000.0 / b) == (b - c) * 1000.0 / a;
  }

  /** The curve with every life multiplied in: the first table's curve from
      its offset, then one multiply pass of the `l_x` loop for each further
      table, each with its own offset. */
  function AllLivesSurvivors(tables: seq<MortalityTable>, offsets: seq<nat>, w: int, n: nat): seq<real>
    requires 0 < n <= |tables| <= |offsets|
    decreases n
  {
    if n == 1 then (if offsets[0] <= |tables[0].l| then tables[0].l[offsets[0]..] else [])
    else JointSurvivors(AllLivesSurvivors(tables, offsets, w, n - 1), 0, tables[n - 1].l, offsets[n - 1], w)
  }

  /** The product of two lives' survivors. */
  function Times(a: real, b: real): real
  {
    a * b
  }

  /** The product of the first `n` lives' survivors at aligned age `i`, 0
      for a life whose curve has ended. */
  function LivesAt(tables: seq<MortalityTable>, offsets: seq<nat>, i: nat, n: nat): real
    requires n <= |tables| <= |offsets|
    decreases n
  {
    if n == 0 then 1.0 else Times(LivesAt(tables, offsets, i, n - 1), At(tables[n - 1].l, i + offsets[n - 1]))
  }

  /** Below `w`, the curve with every life multiplied in is the product of
      all the lives' survivors at that age. */
  lemma {:induction false} AllLivesProduct(tables: seq<MortalityTable>, offsets: seq<nat>, w: int, n: nat, i: nat)
    requires 0 < n <= |tables| <= |offsets|
    requires i < w && offsets[0] + i < |tables[0].l|
    ensures i < |AllLivesSurvivors(tables, offsets, w, n)|
    ensures AllLivesSurvivors(tables, offsets, w, n)[i] == LivesAt(tables, offsets, i, n)
  {
    if n == 1 {
      AllLivesFirst(tables, offsets, w, i);
    } else {
      AllLivesProduct(tables, offsets, w, n - 1, i);
      AllLivesNext(tables, offsets, w, n, i);
    }
  }

  lemma AllLivesFirst(tables: seq<MortalityTable>, offsets: seq<nat>, w: int, i: nat)
    requires 0 < |tables| <= |offsets| && offsets[0] + i < |tables[0].l|
    ensures i < |AllLivesSurvivors(tables, offsets, w, 1)|
    ensures AllLivesSurvivors(tables, offsets, w, 1)[i] == LivesAt(tables, offsets, i, 1)
  {
    var first := tables[0].l;
    assert AllLivesSurvivors(tables, offsets, w, 1) == first[offsets[0]..];
    assert LivesAt(tables, offsets, i, 1) == Times(1.0, At(first, i + offsets[0]));
  }

  lemma AllLivesNext(tables: seq<MortalityTable>, offsets: seq<nat>, w: int, n: nat, i: nat)
    requires 1 < n <= |tables| <= |offsets| && i < w
    requires i < |AllLivesSurvivors(tables, offsets, w, n - 1)|
    requires AllLivesSurvivors(tables, offsets, w, n - 1)[i] == LivesAt(tables, offsets, i, n - 1)
    ensures i < |AllLivesSurvivors(tables, offsets, w, n)|
    ensures AllLivesSurvivors(tables, offsets, w, n)[i] == LivesAt(tables, offsets, i, n)
  {
    var prev := AllLivesSurvivors(tables, offsets, w, n - 1);
    var last, os := tables[n - 1].l, offsets[n - 1];
    JointSurvivorsBelowW(prev, last, os, w, i, AllLivesSurvivors(tables, offsets, w, n));
  }

  /** Below `w`, a multiply pass with no offset on the first curve scales
      each entry by the other curve's survivor, or by 0 past its end. */
  lemma JointSurvivorsBelowW(first: seq<real>, last: seq<real>, os: nat, w: int, i: nat, r: seq<real>)
    requires i < w && i < |first| && r == JointSurvivors(first, 0, last, os, w)
    ensures i < |r| && r[i] == Times(first[i], At(last, i + os))
  {
    assert first[0..] == first;
  }

  /** With every life multiplied in, the joint curve below `w` is the
      product of all the lives' survivors, and a single life with offset 0
      keeps its own curve. */
  lemma CorrectedJointCurve(tables: seq<MortalityTable>, offsets: seq<nat>, w: int, i: nat)
    requires 0 < |tables| <= |offsets|
    requires i < w && offsets[0] + i < |tables[0].l|
    ensures i < |AllLivesSurvivors(tables, offsets, w, |tables|)|
    ensures AllLivesSurvivors(tables, offsets, w, |tables|)[i] == LivesAt(tables, offsets, i, |tables|)
    ensures |tables| == 1 && offsets[0] == 0 ==> AllLivesSurvivors(tables, offsets, w, 1) == tables[0].l
  {
    AllLivesProduct(tables, offsets, w, |tables|, i);
    assert tables[0].l[0..] == tables[0].l;
  }

  /** As written, a single life's status squares its survivors below `w`:
      for the curve 100, 50, 0 the status starts at 10000, where the curve
      with every life multiplied in starts at 100. */
  lemma SingleLifeSquares()
    ensures var t := MortalityTable([100.0, 50.0, 0.0], [500.0, 1000.0], 1);
      && Terminated(t)
      && PersOf([t], [0]).l[0] == 10000.0
      && AllLivesSurvivors([t], [0], t.w, 1)[0] == 100.0
  {
    var t := MortalityTable([100.0, 50.0, 0.0], [500.0, 1000.0], 1);
    assert t.l[0] != 0.0 && t.l[1] != 0.0 && t.l[2] == 0.0;
    assert FirstZero(t.l) == 2;
    SingleLife(t, 0);
  }

  /** The probability that a life aged `x` survives `n` years and then dies
      within the following `t` years. */
  function DeferredDeathProbability(p: Pers, x: nat, n: nat, t: nat): real
    requires x + n + t < |p.l| && p.l[x] != 0.0
  {
    (p.l[x + n] - p.l[x + n + t]) / p.l[x]
  }

  /** Surviving `n` years and then dying within `t` is surviving `n` years
      times dying within `t` from age `x + n`, and it is the chance of dying
      within `n + t` years less that of dying within `n`. */
  lemma DeferredDeathCorrected(p: Pers, x: nat, n: nat, t: nat)
    requires x + n + t < |p.l| && p.l[x] != 0.0 && p.l[x + n] != 0.0
    ensures DeferredDeathProbability(p, x, n, t) == tpx(p, x, n) * tqx(p, x + n, t)
    ensures DeferredDeathProbability(p, x, n, t) == tqx(p, x, n + t) - tqx(p, x, n)
  {
    var a, b, c := p.l[x], p.l[x + n], p.l[x + n + t];
    var r := b / a;
    assert r * a == b;
    assert (r * (1.0 - c / b)) * a == b - c by {
      assert (c / b) * b == c;
      assert (r * (1.0 - c / b)) * a == (r * a) - (c / b) * (r * a);
    }
    DivUnique(r * (1.0 - c / b), b - c, a);
    assert (1.0 - c / a) - (1.0 - b / a) == b / a - c / a;
    DivUnique(b / a - c / a, b - c, a) by {
      assert (c / a) * a == c;
    }
  }

  /** As written, `tqxn(x, n, t)` is `tpx(x, t) * qx(x + n)`: on the curve
      100, 50, 0 from age 0 with `n = 0` and `t = 1` it is 250, where the
      probability of dying within the year is 0.5. */
  lemma TqxnAsWritten()
    ensures var l := [100.0, 50.0, 0.0];
      var p := Pers(l, DeathRates(l), LifeExpectancies(l), 1);
      && tqxn(p, 0, 0, 1) == 250.0
      && DeferredDeathProbability(p, 0, 0, 1) == 0.5
  {
    var l := [100.0, 50.0, 0.0];
    assert DeathRates(l)[0] == RateAt(l, 0) == 500.0;
  }
}
