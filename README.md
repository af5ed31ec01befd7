# Oxygenation score and bounded-number extractors of a medical-score chat bot

This project models two small, pure parts of a chat bot that computes medical scores.

- **`calculation_PaoFio`** (app/sofa/handlers/calc_PaoFio.py) is the respiratory part of the SOFA
  (Sequential Organ Failure Assessment) score. It forms `total = round(100 * pao2 / fio2)` and maps
  `total` to a severity code 0..4 through an if/elif chain. The chain checks the highest
  threshold first. Module `PaoFio` models it.
- **`get_answer_age`** and **`get_answer_creatinine`** (app/skf/handlers/get_number_creatinine_age.py)
  belong to the glomerular-filtration-rate calculator. Each accepts a text only if it is a non-empty
  string of digits whose value lies in a fixed inclusive range: 18..100 for age, 0..1000 for
  creatinine. Any other text, the empty one included, gives `None`. Module `Extractors` models these.
  Module `Decimal` models `str.isdigit` and `int` on digit strings.
- All three functions are wrapped in `functools.lru_cache`. Module `Memo` models that cache as a
  value: a bounded list of (argument, result) entries, least recently used first. It proves that a
  memoised call returns what the bare function returns.

Modelling choices:

- `pao2` and `fio2` are exact rationals (`PaoFio.Rational`), not floats.
- Python's `round` is modelled as round-half-to-even on the exact quotient.
- `total` is specified by the predicate `RoundsTo`: nearest integer, ties to even.
- `fio2 == 0` makes Python raise `ZeroDivisionError`. Here it is a precondition.
- A negative `fio2` is admitted, because Python divides by it without complaint.
- The result of the chain is an `Option`. `None` is Python's fall-through return.

Where the documentation and the code disagree, the model follows the code:

- The docstring of `calculation_PaoFio` (lines 19-20) gives overlapping ranges for codes 2 and 3
  ("200 to 300", "100 to 200"). The code maps 200 to 3 and 100 to 4. `PaoFio.SeverityBands`
  states the code's reading.
- The comment at get_number_creatinine_age.py:34 says `get_answer_age('fghvkf')` gives an empty
  string. The code returns `None`, and `Extractors.AgeExamples` states `None`.
- The age docstring (get_number_creatinine_age.py:24-25) and the comment at line 37 give cache
  sizes that differ from the decorators (`maxsize=3` at lines 4 and 41). The model takes the
  decorators' sizes. Cache size does not change any result.

The worked example at calc_PaoFio.py:37, `calculation_PaoFio('40', '30')`, rounds
`100 * 40 / 30` (line 24) to 133, which lies in the band 101..200, so the code is 3.
`PaoFio.WorkedExample` proves both numbers.

## Model

| member | source | states |
|---|---|---|
| `Decimal.IsDigitString` | app/skf/handlers/get_number_creatinine_age.py:28 | `user.isdigit()` on ASCII digits: true exactly for a non-empty string of '0'..'9', so "" and any sign or letter are rejected; `Decimal.ReadsAs` and `Decimal.CanonicalForm` describe the strings it admits |
| `Decimal.DecimalValue` | app/skf/handlers/get_number_creatinine_age.py:29 | `int(user)` on a digit string, below `10^len`; its partners are `Decimal.ParseShow` (it inverts the decimal rendering) and `Decimal.ReadsAs` (which strings read as a given value) |
| `Decimal.DecimalValueAppend` | app/skf/handlers/get_number_creatinine_age.py:29 | `int` of a concatenated digit string is the left part shifted by the right part's length, plus the right part |
| `Decimal.LeadingZerosIgnored` | app/skf/handlers/get_number_creatinine_age.py:28-29 | leading zeros keep a string a digit string (when it is non-empty) and do not change its value, so `int("045") == 45` |
| `Decimal.ParseShow` | app/skf/handlers/get_number_creatinine_age.py:29 | reading the canonical decimal rendering of `n` gives back `n` |
| `Decimal.ShowParse` | app/skf/handlers/get_number_creatinine_age.py:29 | a digit string with no leading zero is the canonical rendering of its own value |
| `Decimal.CanonicalForm` | app/skf/handlers/get_number_creatinine_age.py:28-29 | every digit string is some number of zeros followed by the canonical rendering of its value |
| `Decimal.ReadsAs` | app/skf/handlers/get_number_creatinine_age.py:28-29 | a string is a digit string reading as `v` if and only if it is zeros followed by the rendering of `v` |
| `Extractors.ExtractInRange` | app/skf/handlers/get_number_creatinine_age.py:28-31 | the shared guard: a value is returned only for a digit string in `[lo, hi]` and equals its decimal value; otherwise `None` |
| `Extractors.GetAnswerAge` | app/skf/handlers/get_number_creatinine_age.py:28-31 | a returned age lies in 18..100 and is the decimal value of a digit-only input; a non-digit or empty input gives `None` |
| `Extractors.GetAnswerCreatinine` | app/skf/handlers/get_number_creatinine_age.py:61-64 | a returned value lies in 0..1000 and is the decimal value of a digit-only input; a non-digit or empty input gives `None` |
| `Extractors.ExtractInRangeExactly` | app/skf/handlers/get_number_creatinine_age.py:28-31 | the extractor yields `v` exactly when `v` is in range and the input is `v` in decimal behind any leading zeros, in both directions; the same guard is repeated for creatinine at lines 61-64 |
| `Extractors.AgeAcceptsExactly` | app/skf/handlers/get_number_creatinine_age.py:28-31 | `get_answer_age` returns `v` if and only if 18 <= v <= 100 and the input is `v` in decimal, possibly zero-padded (soundness and completeness) |
| `Extractors.AgeComplete` | app/skf/handlers/get_number_creatinine_age.py:28-30 | every age 18..100, written plainly or with leading zeros, is accepted with its value |
| `Extractors.CreatinineAcceptsExactly` | app/skf/handlers/get_number_creatinine_age.py:61-64 | `get_answer_creatinine` returns `v` if and only if v <= 1000 and the input is `v` in decimal, possibly zero-padded |
| `Extractors.CreatinineLowerBoundVacuous` | app/skf/handlers/get_number_creatinine_age.py:61-62 | the lower bound `0 <=` never rejects: acceptance is exactly "digit string with value at most 1000" |
| `Extractors.AgeExamples` | app/skf/handlers/get_number_creatinine_age.py:33-36 | "45" gives 45; "fghvkf", "-lklkl120" and "120" give `None` |
| `Extractors.AgeEdgeExamples` | app/skf/handlers/get_number_creatinine_age.py:28-31 | "045" gives 45 (leading zero accepted, as `isdigit` and `int` do); "" gives `None` (`"".isdigit()` is false) |
| `Extractors.CreatinineExamples` | app/skf/handlers/get_number_creatinine_age.py:61-64 | the range ends "0" and "1000" are accepted; "1001" is rejected |
| `Extractors.AgeCacheTransparent` | app/skf/handlers/get_number_creatinine_age.py:4 | through an LRU cache of size 3, each call of `get_answer_age` in any sequence returns what the bare function returns |
| `Extractors.CreatinineCacheTransparent` | app/skf/handlers/get_number_creatinine_age.py:41 | through an LRU cache of size 3, each call of `get_answer_creatinine` in any sequence returns what the bare function returns |
| `Memo.Find` | app/skf/handlers/get_number_creatinine_age.py:21-23 | the cache lookup returns the position of the entry for the argument, or -1 if and only if no entry has it |
| `Memo.MoveToEnd` | app/skf/handlers/get_number_creatinine_age.py:21-23 | on a hit the entry becomes the most recent; no entry is lost or invented; distinct keys and agreeing results are kept |
| `Memo.Insert` | app/skf/handlers/get_number_creatinine_age.py:21-23 | on a miss the new entry becomes the most recent; only the least recently used entry, and only when the cache is full, is dropped; the size bound holds |
| `Memo.Call` | app/skf/handlers/get_number_creatinine_age.py:21-23 | a cached call returns `f(k)`; the cache stays within `maxsize`, keeps distinct keys and agrees with `f`; `k` becomes most recent; only the LRU entry can be evicted |
| `Memo.Run` | app/skf/handlers/get_number_creatinine_age.py:21-23 | over any sequence of calls from a valid cache, the i-th answer is `f` of the i-th argument |
| `Memo.RepeatedCallsAgree` | app/skf/handlers/get_number_creatinine_age.py:21-23 | two calls with the same argument return the same value, whatever calls came between |
| `PaoFio.RoundHalfEven` | app/sofa/handlers/calc_PaoFio.py:24 | the result is an integer nearest to `num / den`; on a tie it is even |
| `PaoFio.RoundsToUnique` | app/sofa/handlers/calc_PaoFio.py:24 | at most one integer is nearest with ties to even, so rounding is fully determined by that specification |
| `PaoFio.RoundMonotone` | app/sofa/handlers/calc_PaoFio.py:24 | rounding preserves order between two values with the same denominator |
| `PaoFio.RoundScaled` | app/sofa/handlers/calc_PaoFio.py:24 | rounding depends only on the value of the quotient: scaling numerator and denominator by any positive factor leaves it unchanged |
| `PaoFio.RoundCrossMonotone` | app/sofa/handlers/calc_PaoFio.py:24 | for any two quotients `n1/d1 <= n2/d2`, the rounded values keep that order |
| `PaoFio.Total` | app/sofa/handlers/calc_PaoFio.py:24 | `total` is `100 * pao2 / fio2` rounded half to even, for either sign of `fio2` |
| `PaoFio.Severity` | app/sofa/handlers/calc_PaoFio.py:26-35 | the chain returns `None` exactly at 301 and 401; every other total gets a code in 0..4 |
| `PaoFio.CalculationPaoFio` | app/sofa/handlers/calc_PaoFio.py:24-35 | `None` exactly when the rounded ratio is 301 or 401; otherwise a code in 0..4 |
| `PaoFio.SeverityBands` | app/sofa/handlers/calc_PaoFio.py:26-35 | above 401 gives 0; 302..400 gives 1; 201..300 gives 2; 101..200 gives 3 (200 included); at most 100 gives 4 (100 included); 301 and 401 give `None` |
| `PaoFio.SeverityMonotone` | app/sofa/handlers/calc_PaoFio.py:26-35 | for defined totals a <= b, code(a) >= code(b): a higher ratio never gives a worse code |
| `PaoFio.HigherPaoNeverWorse` | app/sofa/handlers/calc_PaoFio.py:24-35 | with a positive `fio2` fixed, any `pao2` value at least as high (compared as rationals, whatever their denominators) gives a total at least as high and, where both are defined, a code no worse |
| `PaoFio.TotalDependsOnValue` | app/sofa/handlers/calc_PaoFio.py:24 | with a positive `fio2`, two representations of the same `pao2` value give the same total |
| `PaoFio.WorkedExample` | app/sofa/handlers/calc_PaoFio.py:37 | `('40', '30')` gives total 133 and code 3 |
| `PaoFio.Exceeded` | app/sofa/handlers/calc_PaoFio.py:26-35 | the number of band edges the ratio lies above is at most the number of edges |
| `PaoFio.ExceededMonotone` | app/sofa/handlers/calc_PaoFio.py:26-35 | a higher ratio lies above at least as many band edges |
| `PaoFio.CorrectedSeverity` | app/sofa/handlers/calc_PaoFio.py:17-21 | the corrected chain gives every integer a code in 0..4 |
| `PaoFio.CorrectedMonotone` | app/sofa/handlers/calc_PaoFio.py:17-21 | the corrected code never increases as the ratio increases, with no exception |
| `PaoFio.CorrectedAgreesOutsideGaps` | app/sofa/handlers/calc_PaoFio.py:26-35 | the corrected and as-written chains agree on every total except 301 and 401, where the correction gives 1 and 0 |
| `PaoFio.CorrectedCalculationPaoFio` | app/sofa/handlers/calc_PaoFio.py:24-35 | every admissible input gets a code in 0..4, equal to the as-written code wherever that one is defined |
| `PaoFio.GapReachable` | app/sofa/handlers/calc_PaoFio.py:26-29 | `pao2 = 301, fio2 = 100` and `pao2 = 401, fio2 = 100` give `None` as written; the correction gives 1 and 0 |

## Findings

| source | as written | input that shows it | evidently intended | confidence | as-written member | corrected member |
|---|---|---|---|---|---|---|
| app/sofa/handlers/calc_PaoFio.py:28 | `301 < total <= 400` leaves total 301 in no band, so the function returns `None` | `pao2 = "301"`, `fio2 = "100"` (total 301) | `300 < total <= 400` gives 1, as the docstring's "301 to 400" says | high; not executed | `PaoFio.GapReachable` | `PaoFio.CorrectedCalculationPaoFio` |
| app/sofa/handlers/calc_PaoFio.py:26 | `total > 401` and `... <= 400` leave total 401 in no band, so the function returns `None` | `pao2 = "401"`, `fio2 = "100"` (total 401) | `total > 400` gives 0, so that the bands cover every integer | medium (the docstring shares the gap); not executed | `PaoFio.GapReachable` | `PaoFio.CorrectedSeverity` |

The corrected chain is `4 - Exceeded(total, [100, 200, 300, 400])`: the code drops by one for
each band edge the ratio lies strictly above. `PaoFio.CorrectedAgreesOutsideGaps` shows that it
differs from the code only at the two gaps.

## Left out

- Float parsing: `float()` of arbitrary text ("1e3", "nan", "inf") is not modelled. Neither is IEEE
  double rounding of `100 * pao2 / fio2`. The inputs are exact rationals.
- Float underflow: a `fio2` text such as "1e-400" parses to 0.0, so Python raises
  `ZeroDivisionError`. The rational is non-zero, so `PaoFio.Total` is defined there.
- Float overflow: `100 * float(pao2)` can become infinite, for example with "1e307". Python's `round`
  then raises `OverflowError`, while `PaoFio.CalculationPaoFio` returns `Some(0)`.
- Division by zero: `fio2 == 0` raises `ZeroDivisionError` in Python. Here it is a precondition of
  `PaoFio.Total` and `PaoFio.CalculationPaoFio`.
- Extractors.GetAnswerAge: does not model the limit on `int()` of strings longer than 4300 digits
  (leading zeros included) that Python 3.11, and 3.10.7 onwards, enforces with `ValueError`.
  The model returns `None` for such a long out-of-range string where Python raises.
- Extractors.GetAnswerCreatinine: the same 4300-digit `int()` limit is not modelled.
- Extractors.AgeComplete: promises acceptance for any number of leading zeros. Python raises
  `ValueError` once the padded string passes 4300 digits.
- Extractors.AgeAcceptsExactly: the same 4300-digit limit applies to its completeness direction.
- Extractors.CreatinineAcceptsExactly: the same 4300-digit limit applies to its completeness direction.
- Unicode digits: `str.isdigit` also accepts non-ASCII digit characters. The model admits only
  '0'..'9'.
- The cache on `calculation_PaoFio` (calc_PaoFio.py:4) is the same decorator as the one `Memo` models.
  It is not instantiated, because `Memo.Run` takes a total function and `CalculationPaoFio` has a
  precondition on `fio2`.
- Cache internals: `functools.lru_cache`'s own code, its `cache_info` statistics and its locking are
  not modelled. `Memo` follows only its documented policy (hit moves the entry to most recent; when
  full, a miss evicts the least recently used entry).
- app/sofa/handlers/handler_main_sofa.py (chat handlers, conversation state, keyboards) is not part
  of this model. Neither are the organ calculators and validators it imports.
