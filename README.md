# pyliferisk life contingencies in Dafny

A verified model of the actuarial core of pyliferisk (`pyliferisk/lifecontingencies.py`).
It covers four parts:

- **Mortality** (`mortality.dfy`): the `MortalityTable` constructor. It builds a survivor curve `l` either from survivor counts or by compounding per-mille death rates `q` from a radix of 100000. It also reads the legacy `nt` list (a count of leading zeros, then the rates, scaled by `perc` percent). It closes the curve with a terminal zero and sets `w` to one before the first zero.
- **Joint life** (`joint_life.dfy`): the `Pers` constructor, which combines tables with age offsets into one status. It derives the status's death rates `q` and life expectancies `e` from its curve. It also covers the `Pers` accessors `qx`, `lx`, `ex`, `dx`, `px`, `tpx`, `tqx`, `tqxn` and `mx`.
- **Commutation** (`commutation.dfy`): the `Actuarial` constructor. It builds the commutation lists `D`, `N`, `C` and `M` for an interest rate that is flat or depends on age. A `MortalityTable` given as the status enters as `TableStatus`, which copies its curve, rates and `w` with an empty `e_x`. It also covers the accessors `Dx`, `Nx`, `Cx`, `Mx`, `Sx` and `Rx`.
- **Present values** (`present_values.dfy`): the insurance and annuity formulas `nEx`, `Ax`, `Axn`, `tAx`, `AExn`, `aaxn`, `axn`, `aax`, `ax`, `taax`, `tax`, `Iaax`, `Iax`, `Itaax` and `Itax`. It includes the `(m - 1) / (2m)` adjustment for `m` payments a year and the fallbacks taken when `Dx(x)` is not positive.

`series.dfy` holds the shared numeric pieces: Python's `sum`, a power with a natural exponent, the "element or 0 past the end" lookup, and suffix sums.

The three classes only ever assign their fields inside `__init__`, so each is modelled as an immutable `datatype`. Each constructor is a method with the source's loops. Its `ensures` ties the result to a specification function, and the lemmas prove what the library promises about those functions. Floats are modelled as exact reals.

The model follows the code as written, including where the code departs from the textbook reading of the library's intent:

- With `l_x` starting at index 0, `w` is `l_x.index(0) - 1`, one before the first zero, not the first zero itself (`lifecontingencies.py:55`). The guard `self.w == 0` on line 54 always holds, because `w` was just set to 0.
- The joint `w` is not a plain minimum. The running value restarts whenever it equals exactly 0 (lines 82-85). `JointWIsMinimum` and `JointWRestarts` state both cases.
- The combined curve multiplies only the first table by the last one, because the loop on lines 89-91 only leaves `mt` and `os` at the last table. A single table is therefore squared below `w`. Entries from `w` on keep the first table's own values, and `w` zeros are appended (lines 92-98; `SingleLife`). `AllLivesSurvivors` is the curve with every table multiplied in once, which the docstring on lines 58-65 describes (see Findings).
- `tqxn(x, n, t)` is `tpx(x, t) * qx(x + n)` (line 171): it survives `t` years rather than `n`, and it multiplies by a per-mille rate over one year. `DeferredDeathProbability` is the probability its docstring describes (see Findings).
- At a non-positive `l`, the death rate recorded is 1 per mille, not certain death (line 107). The life expectancy sums `l[g+1 .. L-2]`, which leaves out the last entry of the curve (lines 111-116).
- `D` discounts age `k` with `rate(k)` raised to the power `k`, instead of compounding the yearly rates (line 207). The `C` list is shifted: `C[0] = 0`, and `C[k]` discounts the drop `l[k-1] - l[k]` (lines 217-224; `CommutationLists`).
- The source raises no error of its own for a malformed table. An empty population fails with IndexError at line 88, or with ValueError at line 75 for an empty age list; `Combinable` excludes both. Inputs on which Python fails (an index out of range, a division by 0, `index(0)` with no zero) are preconditions. Inputs the code handles are modelled, with their fallbacks.

## Model

| member | source | states |
|---|---|---|
| Series.Sum | pyliferisk/lifecontingencies.py:213 | Python's `sum` of a list of reals, 0 for the empty list |
| Series.At | pyliferisk/lifecontingencies.py:236-241 | the entry of a list at an index, 0 past the end, as every accessor of a commutation list returns |
| Series.SumFrom | pyliferisk/lifecontingencies.py:250-252 | `sum(s[x:])`, 0 once `x` is past the end |
| Series.SuffixSums | pyliferisk/lifecontingencies.py:210-213 | the list whose k-th entry is `sum(s[k:])`, as the `N` and `M` loops build it |
| Series.SuffixSumsAt | pyliferisk/lifecontingencies.py:243-248 | a suffix-sum list keeps the length of the list it sums, and its entry at `x` (0 past the end) is the sum of that list from `x` |
| Series.SumFromStep | pyliferisk/lifecontingencies.py:250-252 | a sum from `x` is the entry at `x` (0 past the end) plus the sum from `x + 1` |
| Series.SumFromWindow | pyliferisk/lifecontingencies.py:250-252 | the sum from `x` less the sum from `x + n` is the sum of the `n` entries from `x` |
| Mortality.Zeros | pyliferisk/lifecontingencies.py:37 | `[0.0] * init` holds `max(init, 0)` zeros |
| Mortality.ReadLegacyTable | pyliferisk/lifecontingencies.py:34-44 | the legacy loop returns the leading zeros, the scanned rates, and 1000 when `perc` is not 100 |
| Mortality.Scaled | pyliferisk/lifecontingencies.py:41 | a legacy rate scaled by `perc` percent, `val * perc / 100` |
| Mortality.LegacyScan | pyliferisk/lifecontingencies.py:38-42 | the values the legacy loop appends, one rate at a time: from a running value of 0, each rate is scaled and appended while the value appended last is below 1000 (what it keeps: `LegacyScanShape`) |
| Mortality.LegacyRates | pyliferisk/lifecontingencies.py:34-44 | `init` zeros, then the scanned rates, then 1000 when `perc != 100` (its shape: `LegacyRatesShape`) |
| Mortality.LegacyScanShape | pyliferisk/lifecontingencies.py:38-42 | the legacy loop keeps a prefix of the rates, each scaled by `perc/100`, all below 1000 but the last; when rates are dropped, the last kept one reached 1000 |
| Mortality.LegacyRatesShape | pyliferisk/lifecontingencies.py:34-44 | legacy rates are `leading` zeros, then the scanned prefix, then a closing 1000 exactly when `perc != 100` |
| Mortality.Compound | pyliferisk/lifecontingencies.py:48-51 | the compounded curve has one more entry than there are rates and starts at the 100000 radix |
| Mortality.CompoundSurvivors | pyliferisk/lifecontingencies.py:48-51 | the compounding loop yields the compounded curve |
| Mortality.CompoundStep | pyliferisk/lifecontingencies.py:50-51 | each compounded count is the previous one times `1 - q/1000` |
| Mortality.Survived | pyliferisk/lifecontingencies.py:51 | the count one year on, `l * (1 - q/1000)` |
| Mortality.WithTerminalZero | pyliferisk/lifecontingencies.py:52-53 | the curve ends in 0, gains exactly one entry when it did not already end in 0, and keeps its prefix |
| Mortality.FirstZero | pyliferisk/lifecontingencies.py:55 | `index(0)` is the position of a zero with no zero before it |
| Mortality.RatesOf | pyliferisk/lifecontingencies.py:34-44 | the rates the constructor uses: `q_x` as given without a legacy list, the rates read from it otherwise |
| Mortality.TableOf | pyliferisk/lifecontingencies.py:25-55 | the table the constructor builds from its arguments: `CurveTable` of the rates it uses (what it holds: `TableFromRates`, `TableFromSurvivors`) |
| Mortality.CurveTable | pyliferisk/lifecontingencies.py:47-55 | for given rates, the survivor counts as given or compounded from the radix when none are given, closed by a terminal 0, with `w` one before the first 0 |
| Mortality.NewMortalityTable | pyliferisk/lifecontingencies.py:25-55 | the constructor builds the table of its arguments: the rates given or read from `nt`, the curve given or compounded and terminated, and `w` |
| Mortality.TableFromRates | pyliferisk/lifecontingencies.py:47-55 | a table built from rates starts at the radix, follows the survival recurrence, ends in 0 with a length fixed by whether compounding reached 0, and has `w` one before its first zero |
| Mortality.TableFromSurvivors | pyliferisk/lifecontingencies.py:52-55 | a table given survivors keeps them and the rates, appends 0 only when needed, and `w + 1` is its first zero, with `-1 <= w` and every count before it nonzero |
| JointLife.MinAge | pyliferisk/lifecontingencies.py:75 | `min(age_list)` is an age of the list no greater than any other |
| JointLife.Offsets | pyliferisk/lifecontingencies.py:75-76 | each age less the youngest age of the list |
| JointLife.JointW | pyliferisk/lifecontingencies.py:79-85 | the running `w` after the first `n` tables: a table's `w - offset` while the running value is 0, else the smaller of the two (what it computes: `JointWIsMinimum`, `JointWRestarts`) |
| JointLife.JointWIsMinimum | pyliferisk/lifecontingencies.py:79-85 | while the running `w` never hits exactly 0, the joint `w` is the least offset-adjusted `w` among the tables, attained by one of them |
| JointLife.JointWRestarts | pyliferisk/lifecontingencies.py:82-85 | once the running `w` is 0, the joint `w` is computed afresh from the remaining tables |
| JointLife.JointSurvivors | pyliferisk/lifecontingencies.py:88-98 | the curve the `l_x` loop leaves: the first curve from its offset with `w` zeros appended, entry `i < w` multiplied by the last table's entry at `i + os` or set to 0 where it has none (`CombineSurvivors`, `SingleLife`) |
| JointLife.CombineSurvivors | pyliferisk/lifecontingencies.py:88-98 | the multiply loop yields the first curve from its offset with `w` zeros appended, its first `w` entries multiplied by the last table's, or 0 where that table has no entry |
| JointLife.SingleLife | pyliferisk/lifecontingencies.py:79-98 | for one table the status keeps its `w`, and its curve is the table's squared below `w`, its own from `w` on, then zeros, `w` entries longer |
| JointLife.RateAt | pyliferisk/lifecontingencies.py:103-108 | the rate recorded at age `k`: `(l[k] - l[k+1]) * 1000 / l[k]` where `l[k] > 0`, and 1 otherwise |
| JointLife.DeathRates | pyliferisk/lifecontingencies.py:100-108 | one recorded rate per step of the curve, none for an empty curve (what they describe: `DeathRatesDescribeCurve`, `RatesRoundTrip`) |
| JointLife.DeriveDeathRates | pyliferisk/lifecontingencies.py:100-108 | the `q` loop yields one rate per step of the curve |
| JointLife.DeathRatesDescribeCurve | pyliferisk/lifecontingencies.py:101-108 | at a living age the recorded rate takes the count to the next one by `l * (1 - q/1000)` |
| JointLife.DecrementRecovers | pyliferisk/lifecontingencies.py:105 | surviving at the recorded rate gives back the next count |
| JointLife.DecrementOfSurvived | pyliferisk/lifecontingencies.py:105 | the rate recorded after surviving at rate `q` is `q` |
| JointLife.RatesRoundTrip | pyliferisk/lifecontingencies.py:48-108 | deriving rates from a curve compounded from rates (lines 48-51) by the `q` loop (lines 100-108) gives the rates back while the curve stays positive |
| JointLife.ExpectancyAt | pyliferisk/lifecontingencies.py:112-119 | the expectancy at age `g`: `0.5 + sum(l[g+1:-1]) / l[g]` where `l[g] > 0`, and 0.5 otherwise |
| JointLife.LifeExpectancies | pyliferisk/lifecontingencies.py:110-119 | one expectancy per age but the last, none for an empty curve (its recursion: `ExpectancyRecursion`) |
| JointLife.DeriveLifeExpectancies | pyliferisk/lifecontingencies.py:110-119 | the `e` loop with its running sum yields `0.5 + sum(l[g+1:-1]) / l[g]`, or 0.5 at a non-positive count |
| JointLife.ExpectancyRecursion | pyliferisk/lifecontingencies.py:111-116 | `e[g] = 0.5 + (l[g+1]/l[g]) * (e[g+1] + 0.5)` on the living part of the curve |
| JointLife.NewPers | pyliferisk/lifecontingencies.py:66-119 | the constructor builds the status of its tables and ages, with rates and expectancies derived from its curve |
| JointLife.PersOf | pyliferisk/lifecontingencies.py:66-119 | the status of the given tables and ages: the joint `w`, the combined curve, and the rates and expectancies derived from that curve (`NewPers`, `SingleLife`) |
| JointLife.qx | pyliferisk/lifecontingencies.py:129-132 | the recorded rate at age `x`, 0 past the end of the rates (what it means: `DeathRatesDescribeCurve`, `OneYearSurvival`) |
| JointLife.lx | pyliferisk/lifecontingencies.py:136-139 | the survivors at age `x`, 0 past the end of the curve |
| JointLife.ex | pyliferisk/lifecontingencies.py:175-178 | the life expectancy at age `x`, 0 past the end of the expectancies |
| JointLife.dx | pyliferisk/lifecontingencies.py:147-151 | `l[x] - l[x+1]` before the first zero of the curve, 0.0 from it on (`CentralRate`) |
| JointLife.px | pyliferisk/lifecontingencies.py:155 | `1000 - qx(x)` (`OneYearSurvival`) |
| JointLife.tpx | pyliferisk/lifecontingencies.py:161 | `l[x+t] / l[x]` (`SurvivalChain`, `OneYearSurvival`) |
| JointLife.tqx | pyliferisk/lifecontingencies.py:165 | `1 - l[x+t] / l[x]` (`SurvivalChain`) |
| JointLife.tqxn | pyliferisk/lifecontingencies.py:171 | as written, `tpx(x, t) * qx(x + n)` (`DeferredDeath`, `TqxnAsWritten`) |
| JointLife.mx | pyliferisk/lifecontingencies.py:182 | `dx(x) / l[x]` (`CentralRate`) |
| JointLife.OneYearSurvival | pyliferisk/lifecontingencies.py:153-165 | `px/1000` is the one-year survival `tpx(x, 1)`, and `1000 * tqx(x, 1)` is `qx` |
| JointLife.CentralRate | pyliferisk/lifecontingencies.py:145-151 | before the first zero `dx` is `lx(x) - lx(x+1)`, and `1000 * mx` is `qx` |
| JointLife.SurvivalChain | pyliferisk/lifecontingencies.py:157-165 | survival over `s + t` years is survival over `s` years times survival over `t` years from `x + s`, and `tqx` is its complement |
| JointLife.DeferredDeath | pyliferisk/lifecontingencies.py:167-171 | `tqxn(x, n, n)` is the deaths in year `x + n`, per mille of the lives at `x` |
| JointLife.TqxnAsWritten | pyliferisk/lifecontingencies.py:167-171 | as written, on the curve 100, 50, 0 with `x = 0`, `n = 0`, `t = 1`, `tqxn` is 250 where the probability the docstring describes is 0.5 |
| JointLife.DeferredDeathProbability | pyliferisk/lifecontingencies.py:168-170 | the probability the docstring describes, of surviving `n` years and then dying within `t`: `(l[x+n] - l[x+n+t]) / l[x]` |
| JointLife.DeferredDeathCorrected | pyliferisk/lifecontingencies.py:168-170 | that probability is `tpx(x, n) * tqx(x + n, t)`, and it is `tqx(x, n + t) - tqx(x, n)` |
| JointLife.SingleLifeSquares | pyliferisk/lifecontingencies.py:88-98 | as written, a single life with the curve 100, 50, 0 gives a status whose curve starts at 10000, where the curve with every life multiplied in starts at 100 |
| JointLife.AllLivesSurvivors | pyliferisk/lifecontingencies.py:58-65 | the curve of the status the docstring describes: the first curve from its offset, then one multiply pass of the `l_x` loop for each further table with that table's own offset |
| JointLife.LivesAt | pyliferisk/lifecontingencies.py:58-65 | the product of the survivors of the lives at an age, each from its own offset |
| JointLife.AllLivesProduct | pyliferisk/lifecontingencies.py:58-65 | below `w`, the curve with the first `n` lives multiplied in is the product of their survivors at that age |
| JointLife.CorrectedJointCurve | pyliferisk/lifecontingencies.py:58-98 | below `w`, the curve with every life multiplied in is the product of all the lives' survivors, and a single life with offset 0 keeps its own curve |
| Commutation.RateFunction | pyliferisk/lifecontingencies.py:191-194 | a float rate becomes the constant function, a function is used as given |
| Commutation.DiscountedAt | pyliferisk/lifecontingencies.py:205-208 | `D[k] = (1 / (1 + rate(k))) ** k * l[k]` |
| Commutation.DeathsAt | pyliferisk/lifecontingencies.py:217-226 | `C[k] = (1 / (1 + rate(k))) ** (k + 1) * (l[k-1] - l[k]) * root(k)`, with `l[0]` in place of `l[k-1]` at `k = 0` |
| Commutation.DiscountedSurvivors | pyliferisk/lifecontingencies.py:203-208 | the `D` list: one discounted count per age of the curve (`CommutationLists`) |
| Commutation.DiscountedDeaths | pyliferisk/lifecontingencies.py:216-226 | the `C` list: one discounted drop per age of the curve (`CommutationLists`) |
| Commutation.DiscountSurvivors | pyliferisk/lifecontingencies.py:202-207 | the `D` loop yields, at each age `k`, the survivors `l[k]` discounted by `(1 + rate(k))^-k` (`DiscountedSurvivors`) |
| Commutation.DiscountDeaths | pyliferisk/lifecontingencies.py:216-226 | the `C` loop, carrying the previous count in `lx0`, yields at each age the drop from the previous age's count (0 at age 0), discounted and scaled by `root` (`DiscountedDeaths`) |
| Commutation.SumSuffixes | pyliferisk/lifecontingencies.py:210-231 | the `N` loop (lines 210-213) and the `M` loop (lines 228-231) yield the suffix sums of the list they sum |
| Commutation.NewActuarial | pyliferisk/lifecontingencies.py:190-231 | the constructor keeps the status and builds `D`, `N`, `C`, `M` as the discounted survivors, discounted deaths and their suffix sums |
| Commutation.TableStatus | pyliferisk/lifecontingencies.py:24-31 | the status `Actuarial` reads from a table given as `pers` (lines 189-198): its curve, rates and `w`, and the table's `e_x`, which is always empty (`TableStatusAccessors`) |
| Commutation.TableStatusAccessors | pyliferisk/lifecontingencies.py:189-198 | a table used as the status keeps its own curve, unlike `Pers([t], [age])`; its `ex` is 0 at every age, its `qx` reads the table's rates, and is 0 at every age for a table given survivors and no rates |
| Commutation.Dx | pyliferisk/lifecontingencies.py:236-241 | `D[x]`, 0 past the end (`DiscountedSign`, `PastTheEnd`) |
| Commutation.Nx | pyliferisk/lifecontingencies.py:243-248 | `N[x]`, 0 past the end (`CommutationRecurrences`, `CommutationWindows`) |
| Commutation.Sx | pyliferisk/lifecontingencies.py:250-252 | `sum(N[x:])` (`CommutationRecurrences`, `CommutationWindows`) |
| Commutation.Cx | pyliferisk/lifecontingencies.py:254-259 | `C[x]`, 0 past the end (`CommutationRecurrences`) |
| Commutation.Mx | pyliferisk/lifecontingencies.py:261-266 | `M[x]`, 0 past the end (`CommutationRecurrences`, `CommutationWindows`) |
| Commutation.Rx | pyliferisk/lifecontingencies.py:268-270 | `sum(M[x:])` (`CommutationRecurrences`) |
| Commutation.CommutationLists | pyliferisk/lifecontingencies.py:200-224 | the four lists have one entry per age, `D[k] = v^k l[k]`, `C[0] = 0` and `C[k] = v^(k+1) (l[k-1] - l[k]) sqrt(1+i)` |
| Commutation.CommutationRecurrences | pyliferisk/lifecontingencies.py:236-270 | `N(x) = D(x) + N(x+1)`, `M(x) = C(x) + M(x+1)`, `S(x) = N(x) + S(x+1)`, `R(x) = M(x) + R(x+1)` at every age |
| Commutation.CommutationWindows | pyliferisk/lifecontingencies.py:243-266 | `N(x) - N(x+n)`, `M(x) - M(x+n)` and `S(x) - S(x+n)` are the sums of `D`, `C` and `N` over those `n` ages |
| Commutation.PastTheEnd | pyliferisk/lifecontingencies.py:236-270 | every accessor is 0 past the end of the curve |
| Commutation.DiscountedAtFlatRate | pyliferisk/lifecontingencies.py:202-208 | at a flat rate `D(k) = (1/(1+i))^k l[k]` |
| Commutation.DiscountedSign | pyliferisk/lifecontingencies.py:202-208 | `D(x)` is positive exactly where the curve is, and 0 exactly past the end or where the curve is 0 |
| PresentValues.nEx | pyliferisk/lifecontingencies.py:273-277 | `D(x+n) / D(x)` (`PureEndowment`, `PureEndowmentFlatRate`) |
| PresentValues.Ax | pyliferisk/lifecontingencies.py:282-287 | `M(x) / D(x)` (`InsuranceIdentities`) |
| PresentValues.Axn | pyliferisk/lifecontingencies.py:290-293 | `(M(x) - M(x+n)) / D(x)` (`InsuranceIdentities`) |
| PresentValues.tAx | pyliferisk/lifecontingencies.py:296-299 | `M(x+t) / D(x)` (`InsuranceIdentities`) |
| PresentValues.AExn | pyliferisk/lifecontingencies.py:305-309 | `Axn(x, n) + nEx(x, n)` (`InsuranceIdentities`) |
| PresentValues.Woolhouse | pyliferisk/lifecontingencies.py:350 | `float(m-1) / float(m*2)` |
| PresentValues.aaxn | pyliferisk/lifecontingencies.py:337-350 | `(N(x) - N(x+n)) / D(x)`, or 1 when `D(x) <= 0`; minus `(m-1)/(2m) * (1 - nEx)` for `m != 1` (`AnnuitySums`, `YearlyGaps`, `DueMinusImmediate`) |
| PresentValues.axn | pyliferisk/lifecontingencies.py:352-365 | `(N(x+1) - N(x+n+1)) / D(x)`, or 0 when `D(x) <= 0`; plus `(m-1)/(2m) * (1 - nEx)` for `m != 1` (`AnnuitySums`, `YearlyGaps`, `DueMinusImmediate`) |
| PresentValues.aax | pyliferisk/lifecontingencies.py:367-379 | `N(x) / D(x)`, or 1 when `D(x) <= 0`; minus `(m-1)/(2m)` for `m != 1` (`AnnuitySums`, `DueMinusImmediate`) |
| PresentValues.ax | pyliferisk/lifecontingencies.py:381-393 | `N(x+1) / D(x)`, or 0 when `D(x) <= 0`; plus `(m-1)/(2m)` for `m != 1` (`AnnuitySums`, `DueMinusImmediate`) |
| PresentValues.taax | pyliferisk/lifecontingencies.py:401-413 | `N(x+t) / D(x)`, or, when `D(x) <= 0`, 1 at `t = 0` and 0 otherwise; minus `(m-1)/(2m) * (1 - tEx)` for `m != 1` (`DeferredSplit`, `DeferredAdjustmentAsWritten`) |
| PresentValues.tax | pyliferisk/lifecontingencies.py:415-428 | `N(x+t+1) / D(x)`, or 0 when `D(x) <= 0`; plus `(m-1)/(2m) * (1 - tEx)` for `m != 1` (`DeferredSplit`, `DeferredAdjustmentAsWritten`) |
| PresentValues.DeferredDue | pyliferisk/lifecontingencies.py:401-413 | the deferred annuity-due with the adjustment on the deferred part: the yearly value minus `(m-1)/(2m) * tEx` for `m != 1` (`DeferredAdjustmentCorrected`) |
| PresentValues.DeferredImmediate | pyliferisk/lifecontingencies.py:415-428 | the deferred annuity-immediate with the adjustment on the deferred part: the yearly value plus `(m-1)/(2m) * tEx` for `m != 1` (`DeferredAdjustmentCorrected`) |
| PresentValues.Iaax | pyliferisk/lifecontingencies.py:440-444 | `S(x) / D(x)` (`IncreasingDueMinusImmediate`) |
| PresentValues.Iax | pyliferisk/lifecontingencies.py:446-450 | `S(x+1) / D(x)` (`IncreasingDueMinusImmediate`) |
| PresentValues.Itaax | pyliferisk/lifecontingencies.py:458-460 | `(S(x) - S(x+t)) / D(x)` (`IncreasingDueMinusImmediate`) |
| PresentValues.Itax | pyliferisk/lifecontingencies.py:462-464 | `(S(x+1) - S(x+t+1)) / D(x)` (`IncreasingDueMinusImmediate`) |
| PresentValues.PureEndowment | pyliferisk/lifecontingencies.py:273-277 | `nEx(x, 0) = 1`, and `nEx(x, n) * D(x) = D(x+n)` |
| PresentValues.PureEndowmentFlatRate | pyliferisk/lifecontingencies.py:273-277 | at a flat rate the pure endowment is `v^n` times the `n`-year survival `tpx(x, n)` |
| PresentValues.InsuranceIdentities | pyliferisk/lifecontingencies.py:282-309 | term plus deferred insurance is the whole life insurance; the term insurance sums the discounted deaths of its years; the endowment insurance adds `D(x+n)` to them |
| PresentValues.AnnuitySums | pyliferisk/lifecontingencies.py:337-393 | yearly annuities sum the discounted survivors of the years they pay in, relative to `D(x)` |
| PresentValues.YearlyGaps | pyliferisk/lifecontingencies.py:337-393 | with yearly payments `aax - ax = 1` and `aaxn - axn = 1 - nEx` |
| PresentValues.DueMinusImmediate | pyliferisk/lifecontingencies.py:337-393 | with `m` payments a year `aax - ax = 1/m` and `aaxn - axn = (1 - nEx)/m` |
| PresentValues.DeferredSplit | pyliferisk/lifecontingencies.py:337-428 | with yearly payments temporary plus deferred is whole life, due and immediate alike, and a 0-year deferral is the whole life annuity |
| PresentValues.ExtinctFallbacks | pyliferisk/lifecontingencies.py:337-428 | when `D(x) <= 0` the yearly annuities return 1 (due) and 0 (immediate), and `taax` is 1 exactly when `t = 0` |
| PresentValues.IncreasingDueMinusImmediate | pyliferisk/lifecontingencies.py:440-464 | the increasing annuity-due exceeds the immediate one by the level annuity-due, whole life and over `t` years, and `Itaax` sums `N` over its years |
| PresentValues.DeferredAdjustmentAsWritten | pyliferisk/lifecontingencies.py:401-428 | as written, with `m >= 2` a 0-year deferral differs from the whole life annuity, and a deferral past the end of the curve is worth `-(m-1)/(2m)` (due) or `(m-1)/(2m)` (immediate) |
| PresentValues.DeferredAdjustmentCorrected | pyliferisk/lifecontingencies.py:401-428 | with the adjustment on the deferred part only, temporary plus deferred is whole life for every `m`, a 0-year deferral is whole life, and a deferral past the end is worth 0 |

## Left out

- The `annuity` dispatcher (`lifecontingencies.py:469-578`) is not modelled. It branches on Python runtime types, prints messages, and calls methods that are stubs or do not exist.
- The `pass` stubs `tAxn`, `IAx`, `IAxn`, `qAx`, `qAxn`, `qtAx`, `qtAxn`, `taaxn` and `taxn` are not modelled, because they compute nothing. Neither are the two versions of `Iaaxn` and `Iaxn` on lines 432-438: lines 452-456 redefine them as stubs, so the earlier versions are never called.
- Floating point is not modelled: every value is an exact real, so rounding and overflow are not captured.
- Commutation.NewActuarial: the half-year factor `(1 + i) ** 0.5` is a caller-supplied `root` with `root(age)^2 = 1 + rate(age)`, and its precondition excludes rates with `1 + rate(age) <= 0`. Python divides by 0 at `-1` and gives complex results below it.
- Commutation.DiscountSurvivors, Commutation.DiscountDeaths: like `NewActuarial`, they require `1 + rate(age) > 0` at every age of the curve.
- `type(rate) is float` is modelled as a choice between two constructors. An integer rate, which Python would call as a function and fail on, is not modelled.
- Ages and terms are natural numbers. Python's negative indices, which count from the end of a list, are not modelled.
- The `Pers.w()` method (line 141) is shadowed by the attribute `w` set in the constructor, so it is not modelled.
- Passing a single table instead of a list (line 72) is not modelled: the model always takes a sequence of tables.
- Aliasing is not modelled. `MortalityTable` keeps the caller's `l_x` list and appends its terminal 0 to that list. The model returns a new value instead.
- The `perc` and `nt` fields of `MortalityTable` are stored but never read by the core, so the model does not keep them. `Actuarial.rate` is read only by the constructor's `D` and `C` loops (lines 206, 223); the model passes it to `NewActuarial` as a parameter and does not store it. The `e_x` field of a `MortalityTable` is always empty (line 28); `Actuarial` reads it when given a table as `pers` (line 197), and `TableStatus` supplies that empty list.
- An empty legacy `nt` list and `nt=None` are both `None` in the model; the `if nt:` test on line 34 treats them alike.
- `JointLife.dx` and `JointLife.mx` require a zero on the curve, because `index(0)` fails without one.
- `JointLife.tpx` and `JointLife.tqx` require `x + t` to be an index of the curve and the count at `x` to be nonzero.
- The ratio formulas (`nEx`, `Ax`, `Axn`, `tAx`, `AExn`, `Iaax`, `Iax`, `Itaax`, `Itax`) require `Dx(x) != 0`, because the division would fail otherwise.
- `aaxn`, `axn`, `taax` and `tax` require `Dx(x) != 0` and `m != 0` only when `m != 1`, the only case in which they divide. `aax` and `ax` divide by `Dx(x)` only in their `Dx(x) > 0` branch, and their adjustment does not use `nEx`, so they require only `m != 0`.

## Findings

| source | as written | input that shows it | evidently intended | confidence | as-written member | corrected member |
|---|---|---|---|---|---|---|
| pyliferisk/lifecontingencies.py:401-413 | the `m`-thly deferred annuity-due subtracts `(m-1)/(2m) * (1 - tEx)`, the adjustment of a temporary annuity | `m = 2`, `Dx(x) > 0`, `x + t` past the end of the curve: `taax` returns `-1/4`, and with `t = 0` it returns the yearly `aax(x)` instead of `aax(x, 2)` | subtract `(m-1)/(2m) * tEx`, so that temporary plus deferred is the whole life annuity | medium; not executed | PresentValues.DeferredAdjustmentAsWritten | PresentValues.DeferredAdjustmentCorrected |
| pyliferisk/lifecontingencies.py:415-428 | the `m`-thly deferred annuity-immediate adds `(m-1)/(2m) * (1 - tEx)` | `m = 2`, `Dx(x) > 0`, `x + t` past the end of the curve: `tax` returns `1/4` for payments that never happen | add `(m-1)/(2m) * tEx` | medium; not executed | PresentValues.DeferredAdjustmentAsWritten | PresentValues.DeferredAdjustmentCorrected |
| pyliferisk/lifecontingencies.py:88-98 | the multiply loop runs once, after the loop on lines 89-91 has left `mt` and `os` at the last table, so only the first and the last table are multiplied together, and a single table is multiplied by itself | one table with the curve 100, 50, 0 and `w = 1`, at age 0: the status curve starts at 10000 | the status of the docstring on lines 58-65, of a group that ends on the first death, can be a single person: multiply in each further table once, with its own offset, and leave a single life's curve as it is | medium; not executed | JointLife.SingleLifeSquares | JointLife.CorrectedJointCurve |
| pyliferisk/lifecontingencies.py:167-171 | `tqxn(x, n, t)` returns `tpx(x, t) * qx(x + n)`: survival over `t` years, not `n`, times a per-mille rate over a single year | the curve 100, 50, 0 with `x = 0`, `n = 0`, `t = 1`: `tqxn` returns 250 | the probability the docstring describes, surviving `n` years and then dying within `t`: `(l[x+n] - l[x+n+t]) / l[x]`, which is 0.5 here | medium; not executed | JointLife.TqxnAsWritten | JointLife.DeferredDeathCorrected |
