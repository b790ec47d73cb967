# AutoSMC core, modelled in Dafny

AutoSMC is a Streamlit dashboard for São Miguel dos Campos, Alagoas. It looks up
FIPE reference prices for vehicles, estimates regional costs, and compares loan
instalments. Most of `app.py` is widgets, HTTP and charts. This project models
the three pure computations inside it and proves properties about them:

- **Price parsing** (`app.py:77`, repeated at `app.py:130-131`). A FIPE price
  string such as `"R$ 75.432,10"` goes through
  `.replace('R$ ', '').replace('.', '').replace(',', '.')` and then `float(...)`.
  `PyStr.Replace` models Python's `str.replace`: one left-to-right pass over
  non-overlapping occurrences, including Python's behaviour for an empty
  pattern. `Price.Normalise` is the chain of three replacements.
  `Decimal.ParseDecimal` is the part of `float()` that these strings reach:
  unsigned decimal literals `D+('.'D+)?`, read as exact reals. It gives `None`
  on every string where Python raises `ValueError`, and also on the strings
  listed under "Left out" that `float()` would read.
- **Regional costs** `calcular_custos_alagoas` (`app.py:37-41`), as
  `RegionalCosts.AlagoasCosts`. It returns IPVA (the state vehicle tax) at 3%,
  an insurance estimate at 5%, and a flat 180.00 licensing fee.
- **Instalment** `calc_parc` (`app.py:136-137`), as `Financing.Installment`.
  It computes `valor * r / (1 - (1 + r)^-n)` with `r = juros / 100` over `real`.
  `(1 + r)^-n` is written `1 / Pow(1 + r, n)`. Python raises
  `ZeroDivisionError` when the base `1 + r` is zero, or when the denominator is
  zero. In exact real arithmetic that happens at `n = 0`, at `juros = 0`, at
  `juros = -100`, and at `juros = -200` over an even number of months, and the
  model returns `Failure(ZeroDivision)` in exactly those cases. Binary64
  rounding and overflow add further error cases that are not modelled (see
  "Left out").

Each computation is paired with an independent reference:

- The single-character replacements are shown equal to a character filter
  (`RemoveAll`) and a character map (`MapChar`).
- The parser is checked against a formatter for Brazilian-real strings
  (`Price.FormatBrl`, with thousands points and a decimal comma) through a
  round-trip lemma.
- The instalment is checked against the annuity factor
  `A(1 + r, n) = sum over k = 1..n of (1 + r)^-k`. The lemma
  `PresentValueIsPrincipal` shows that the instalment times `A` gives back the
  principal. The rate-monotonicity and repayment properties are derived from
  that lemma.

Modules:

- `Wrappers`: `Option` and `Result`.
- `PyStr`: Python string semantics and the reference filters.
- `Decimal`: the `float()` subset.
- `Price`: normalisation, parsing and the formatter.
- `RegionalCosts`: the regional cost calculator.
- `Financing`: `Pow`, the instalment and the annuity factor.

## Model

| member | source | states |
|---|---|---|
| PyStr.Replace | app.py:77 | Python's `str.replace`. With a non-empty pattern and a replacement no longer than it, the result is never longer than the input |
| PyStr.ReplaceCharByNothing | app.py:77 | `s.replace('.', '')` deletes every occurrence of the character and keeps all other characters in order (equals the filter `RemoveAll`) |
| PyStr.ReplaceCharByChar | app.py:77 | `s.replace(',', '.')` turns every comma into a point and leaves every other character unchanged (equals the map `MapChar`) |
| PyStr.ReplaceAbsent | app.py:77 | when the pattern's first character does not occur, `replace` returns the string unchanged |
| PyStr.ReplaceAtFront | app.py:77 | an occurrence at the front is replaced, and the search resumes after it, not inside the replacement |
| PyStr.ReplaceKeepsCount | app.py:77 | replacing a pattern by a replacement that both lack a character keeps that character's count |
| PyStr.ReplaceKeepsDigits | app.py:77 | replacing a digit-free pattern by a digit-free replacement keeps the digits and their order |
| Price.StripCurrency | app.py:77 | `s.replace('R$ ', '')`; never longer than `s`, and the identity on strings without an `R` |
| Price.Normalise | app.py:77 | the three chained replacements; never longer than the input, and no comma survives |
| Price.ParsePrice | app.py:130-131 | `float()` of the normalised string: `None` on every string where Python raises `ValueError`, and also on the strings listed under Left out; every price it reads is non-negative |
| Decimal.ParseDecimal | app.py:77 | `float()` on the normalised string; every value it accepts is non-negative |
| Decimal.Value | app.py:77 | the number a digit string denotes, most significant digit first; `k` digits denote less than `10^k` |
| Decimal.FixedPoint | app.py:77 | the real written `whole.frac`: the whole part plus `frac` scaled by `10^len(frac)`, so it lies in `[whole, whole + 1)` |
| Decimal.ParseDecimalAccepts | app.py:77 | the parser succeeds exactly on the literals `D+` and `D+ '.' D+`, in both directions |
| Decimal.ParseWhole | app.py:77 | a digit string parses to the number it denotes |
| Decimal.ParseWithFraction | app.py:77 | `whole.frac` parses to the whole part plus the fraction scaled by `10^len(frac)` |
| Decimal.ParseAtMostOneDot | app.py:77 | every accepted string has at most one point |
| Price.NormaliseIsRemoveThenMap | app.py:77 | after the prefix strip, the two replacements delete every point first and then rename every comma to a point |
| Price.StripCurrencyKeeps | app.py:77 | stripping `"R$ "` keeps the numbers of points and commas and the digit sequence |
| Price.NormaliseCounts | app.py:77 | the result has no comma. Its point count equals the input's comma count. Its length is the stripped length minus the input's point count |
| Price.NormaliseKeepsDigits | app.py:77 | the digits of the normalised string are those of the input, in the same order |
| Price.NormaliseUntouched | app.py:77 | a string with no `R`, point or comma passes through all three replacements unchanged |
| Price.StripIsSinglePass | app.py:77 | `"RR$ $ "` normalises to `"R$ "`, so the output can still contain the prefix |
| Price.ManyCommasRejected | app.py:130-131 | a price string with two or more commas normalises to two or more points, and the parse fails |
| Price.NonPriceRejected | app.py:77 | `"invalid"` does not parse |
| Price.GroupThousands | app.py:77 | the grouped form of a digit string contains only digits and points |
| Price.UngroupThousands | app.py:77 | deleting the points of a grouped number gives back its digits (the `.replace('.', '')` step undoes the grouping) |
| Price.NormaliseGrouped | app.py:77 | `"R$ " + grouped digits + "," + cents` normalises to `digits + "." + cents` |
| Price.NormaliseFormatted | app.py:77 | a formatted valuation normalises to its plain digits, a point and its two centavo digits |
| Price.ParseFormatRoundTrip | app.py:130-131 | parsing a formatted valuation of `reais` reais and `centavos` centavos gives `reais + centavos/100` |
| Price.ReferencePrice | app.py:77 | `"R$ 75.432,10"` normalises to `"75432.10"` and parses to 75432.10 |
| RegionalCosts.AlagoasCosts | app.py:37-41 | for a non-negative valuation both costs are non-negative and IPVA is at most the insurance. IPVA and insurance are always in ratio 3:5. Licensing is 180 |
| RegionalCosts.CostsArePercentages | app.py:37-41 | the triple is exactly `(valor*3/100, valor*5/100, 180)` |
| RegionalCosts.LicensingIsFlat | app.py:40 | the licensing fee is the same whatever the valuation |
| RegionalCosts.CostsAdditive | app.py:38-39 | IPVA and insurance of `a + b` are the sums of those of `a` and `b` |
| RegionalCosts.ReferenceCosts | app.py:37-41 | a 100000 valuation costs 3000 IPVA, 5000 insurance and 180 licensing |
| Financing.PowIsOne | app.py:137 | for `n >= 1`, `(1 + r)^n = 1` exactly when the base is 1, or when it is -1 and `n` is even. These are the cases where the denominator vanishes |
| Financing.Pow | app.py:137 | `x^n` by repeated multiplication; positive for positive `x`, non-zero for non-zero `x` |
| Financing.Base | app.py:137 | the base `1 + juros/100`; zero exactly at `juros = -100`, above one exactly for a positive rate |
| Financing.Installment | app.py:136-137 | `valor*r / (1 - 1/Pow(1+r, n))`, `Failure(ZeroDivision)` where Python divides by zero; always a failure for `n = 0`, `juros = 0` or `juros = -100`; a value times the denominator is `valor * r` |
| Financing.InstallmentDefined | app.py:136-137 | `calc_parc` has a value exactly when `n >= 1` and `juros` is not 0, not -100, and not -200 with even `n`. Every other input divides by zero (in exact real arithmetic) |
| Financing.UiParametersFinanceable | app.py:134-139 | every term the selector offers (12 to 60 months), at any rate from 1% to 5%, gives a value |
| Financing.Denominator | app.py:137 | the denominator `1 - (1+r)^-n`, written `1 - 1/Pow(1+r, n)`; zero for `n = 0`, strictly between 0 and 1 for `juros > 0` and `n >= 1` |
| Financing.InstallmentCoversInterest | app.py:137 | for `juros > 0`, `n >= 1` and `valor >= 0`, the instalment is at least `valor * r`, which is non-negative |
| Financing.SingleInstallment | app.py:137 | one instalment repays the principal plus one month's interest, `valor * (1 + juros/100)` |
| Financing.InstallmentLinear | app.py:137 | the instalment of `a*v + c*w` is `a` times that of `v` plus `c` times that of `w` |
| Financing.AnnuityClosedForm | app.py:137 | `(b - 1) * A(b, n) = 1 - b^-n`, the geometric sum behind the formula |
| Financing.PresentValueIsPrincipal | app.py:137 | whenever the formula has a value, instalment × annuity factor = principal (the level payment whose present value is the loan) |
| Financing.LevelPayment | app.py:137 | any payment `p` with `p * (1 - (1+r)^-n) = valor * r`, at a non-zero rate, has present value `p * A(1 + r, n) = valor` |
| Financing.TotalCoversPrincipal | app.py:137 | for `juros > 0`, `n >= 1` and `valor >= 0`, `n` instalments repay at least the principal |
| Financing.InstallmentIncreasesWithRate | app.py:137 | for a fixed amount and term and `-100 < j1 < j2` (both non-zero), the instalment at `j1` is at most the one at `j2`, and strictly less when the amount is positive |

## Left out

- `get_api_data` and `get_car_details` (app.py:25-34) are left out. They are HTTP GETs through `requests`, with Streamlit's one-hour `cache_data` and a bare `except` that returns `None`. All of that is I/O and framework behaviour.
- `selector_veiculo` (app.py:55-68) is left out. It is driven by remote JSON and widget state, and has no pure logic of its own.
- Page configuration, CSS, sidebar, charts, images and the footer year (app.py:10-20, 44-52, 93-100, 147-155) are left out. They are UI only.
- The cost table, CSV export and `pd.DataFrame` (app.py:108-116) are left out. They belong to a foreign library and only display numbers computed elsewhere.
- The display constants are left out: the 1.02 "local average", the -4.2%, the maintenance scores, the 350.00 oil change and `val*0.1` (app.py:84-85, 97, 110, 148-149). They are placeholders with no behaviour.
- The `f"R$ {x:,.2f}"` display formatting (app.py:83-84, 143-144) is left out. It is presentation only.
- RegionalCosts.AlagoasCosts: computes with the exact rates 3/100 and 5/100 over `real`. The source multiplies by the binary floats `0.03` and `0.05`, so IEEE-754 rounding is not modelled.
- Financing.Installment: uses exact real arithmetic, so it omits IEEE-754 rounding and the underflow of `(1 + r)**-n` to 0. When the float power overflows, CPython raises `OverflowError` (for example at `juros = -50` over 1100 months); the model returns `Success` there. When `0 < |juros|` is below about `1e-14`, `1 + juros/100` rounds to `1.0`, the float denominator is `0.0` and app.py:137 raises `ZeroDivisionError`; the model, computing exactly, returns `Success` there (for example `Installment(100.0, 1e-15, 12)`). `OverflowError` needs a rate strictly between -200% and 0%, and the rounding case needs a rate within about 1e-14 of zero. The UI's 1%–5% slider (app.py:52) reaches neither. The term is a `nat`, so the negative `n` that Python would also accept is not modelled. The selector only offers 12 to 60.
- Decimal.ParseDecimal: accepts only `D+('.'D+)?`. Python's `float()` also accepts leading and trailing whitespace, signs, `_` between digits, exponents, `"5."`, `".5"`, `inf` and `nan`, non-ASCII whitespace, and the decimal digits of other Unicode scripts (`float('١٢')` is 12.0). The model rejects these, so it is weaker than `float()` outside the price-string shapes. On the strings it accepts it returns the exact real, where `float()` rounds to the nearest binary64 value and returns `inf` for a literal above about 1.8e308 (for example 400 nines).
- Price.ParsePrice: inherits the `Decimal.ParseDecimal` subset, so it returns `None` on some price strings that app.py:130-131 reads. `"R$ 5,"` normalises to `"5."`, which Python reads as 5.0. `"R$ -5,00"` normalises to `"-5.00"`, which Python reads as -5.0. Its non-negativity holds only because signs are rejected.
- For 100000 at 1.95% over 48 months the formula in app.py:137 gives about 3227. No numeric lemma is stated for that case.
