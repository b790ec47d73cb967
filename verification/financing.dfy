/**
 * `calc_parc`: the level monthly instalment of a loan of `valor` reais at a
 * monthly rate of `juros` percent over `n` months, by the fixed-rate
 * amortisation formula  valor * r / (1 - (1 + r)^-n)  with  r = juros / 100.
 */
module Financing {
  import opened Wrappers

  /** Python raises ZeroDivisionError when the base `1 + r` is zero (a negative power of
      zero) or when the denominator `1 - (1 + r)^-n` is zero. */
  datatype FinancingError = ZeroDivision

  /** `x` raised to the natural power `n`. */
  function Pow(x: real, n: nat): (p: real)
    ensures x > 0.0 ==> p > 0.0
    ensures x >= 0.0 ==> p >= 0.0
    ensures x != 0.0 ==> p != 0.0
  {
    if n == 0 then 1.0 else x * Pow(x, n - 1)
  }

  function Abs(x: real): real {
    if x < 0.0 then -x else x
  }

  /** `(valor * (juros/100)) / (1 - (1 + (juros/100))**-n)`, with `(1 + r)**-n` written
      `1 / (1 + r)^n`; the two division-by-zero cases of Python are errors. No term, a zero
      rate and a zero base always divide by zero; a value, when there is one, times the
      denominator is one month's interest. */
  function Installment(valor: real, juros: real, n: nat): (r: Result<real, FinancingError>)
    ensures n == 0 || juros == 0.0 || juros == -100.0 ==> r.Failure?
    ensures r.Success? ==> Base(juros) != 0.0 && Denominator(juros, n) != 0.0
    ensures r.Success? ==> r.value * Denominator(juros, n) == valor * (juros / 100.0)
  {
    PowOfOne(n);
    if Base(juros) == 0.0 then Failure(ZeroDivision)
    else if Denominator(juros, n) == 0.0 then Failure(ZeroDivision)
    else
      var d, i := Denominator(juros, n), valor * (juros / 100.0);
      assert i / d * d == i;
      Success(i / d)
  }

  /** The base `1 + r` of the discount factor: zero exactly at a rate of -100%, above one
      exactly for a positive rate. */
  function Base(juros: real): (b: real)
    ensures b == 0.0 <==> juros == -100.0
    ensures b > 1.0 <==> juros > 0.0
  {
    1.0 + juros / 100.0
  }

  /** The denominator `1 - (1 + r)^-n`: zero for an empty term, strictly between 0 and 1
      for a positive rate over at least one month. */
  function Denominator(juros: real, n: nat): (d: real)
    requires Base(juros) != 0.0
    ensures n == 0 ==> d == 0.0
    ensures juros > 0.0 && n >= 1 ==> 0.0 < d < 1.0
  {
    DiscountBelowOne(juros, n);
    1.0 - 1.0 / Pow(Base(juros), n)
  }

  /** At a positive rate the discount factor `(1 + r)^-n` of at least one month lies
      strictly between 0 and 1. */
  lemma DiscountBelowOne(juros: real, n: nat)
    ensures juros > 0.0 && n >= 1 ==> 0.0 < 1.0 / Pow(Base(juros), n) < 1.0
  {
    if juros > 0.0 && n >= 1 {
      var p := Pow(Base(juros), n);
      PowAboveOne(Base(juros), n);
      assert 1.0 / p * p == 1.0;
    }
  }

  /** What a successful instalment satisfies: it times the denominator is one month's interest. */
  lemma InstallmentEquation(valor: real, juros: real, n: nat)
    requires Financeable(juros, n)
    ensures Installment(valor, juros, n).Success?
    ensures Base(juros) != 0.0 && Denominator(juros, n) != 0.0
    ensures Installment(valor, juros, n).value * Denominator(juros, n) == valor * (juros / 100.0)
  {
    InstallmentDefined(valor, juros, n);
    var d := Denominator(juros, n);
    var i := valor * (juros / 100.0);
    assert i / d * d == i;
  }

  /** The parameters for which the formula has a value: at least one instalment, and a rate
      that is neither 0% (denominator zero), -100% (zero base) nor -200% over an even
      number of months (base -1, denominator zero). */
  predicate Financeable(juros: real, n: nat) {
    n >= 1 && juros != 0.0 && juros != -100.0 && !(juros == -200.0 && n % 2 == 0)
  }

  /** Present value at base `b` = 1 + r of one real paid at the end of each of `n` months:
      the sum over k = 1..n of b^-k. */
  function Annuity(b: real, n: nat): (a: real)
    requires b != 0.0
    ensures b > 0.0 ==> a >= 0.0
  {
    if n == 0 then 0.0 else Annuity(b, n - 1) + 1.0 / Pow(b, n)
  }

  // ---- powers ----

  lemma {:induction false} PowOfOne(n: nat)
    ensures Pow(1.0, n) == 1.0
  {
    if n > 0 {
      PowOfOne(n - 1);
    }
  }

  lemma {:induction false} PowOfMinusOne(n: nat)
    ensures Pow(-1.0, n) == if n % 2 == 0 then 1.0 else -1.0
  {
    if n > 0 {
      PowOfMinusOne(n - 1);
    }
  }

  lemma AbsMul(a: real, b: real)
    ensures Abs(a * b) == Abs(a) * Abs(b)
  {
  }

  lemma {:induction false} PowAbs(x: real, n: nat)
    ensures Abs(Pow(x, n)) == Pow(Abs(x), n)
  {
    if n > 0 {
      PowAbs(x, n - 1);
      AbsMul(x, Pow(x, n - 1));
    }
  }

  /** A base above one has every positive power above one. */
  lemma {:induction false} PowAboveOne(a: real, n: nat)
    requires a > 1.0 && n >= 1
    ensures Pow(a, n) > 1.0
  {
    if n > 1 {
      PowAboveOne(a, n - 1);
      var p := Pow(a, n - 1);
      assert a * p > 1.0 * p;
    }
  }

  /** A base in [0, 1) has every positive power below one. */
  lemma {:induction false} PowBelowOne(a: real, n: nat)
    requires 0.0 <= a < 1.0 && n >= 1
    ensures Pow(a, n) < 1.0
  {
    if n > 1 {
      PowBelowOne(a, n - 1);
      var p := Pow(a, n - 1);
      assert a * p <= 1.0 * p;
    }
  }

  lemma {:induction false} PowAtLeastOne(a: real, n: nat)
    requires a >= 1.0
    ensures Pow(a, n) >= 1.0
  {
    if n > 0 {
      PowAtLeastOne(a, n - 1);
      var p := Pow(a, n - 1);
      assert a * p >= 1.0 * p;
    }
  }

  /** Positive powers of positive bases are strictly increasing in the base. */
  lemma {:induction false} PowIncreasing(a: real, b: real, n: nat)
    requires 0.0 < a < b && n >= 1
    ensures Pow(a, n) < Pow(b, n)
  {
    var p, q := Pow(a, n - 1), Pow(b, n - 1);
    if n > 1 {
      PowIncreasing(a, b, n - 1);
      calc {
        Pow(a, n);
        a * p;
      < { assert p > 0.0; }
        b * p;
      < { assert b > 0.0 && p < q; }
        b * q;
        Pow(b, n);
      }
    }
  }

  /** A positive power equals one exactly for base 1, and for base -1 at even exponents. */
  lemma PowIsOne(b: real, n: nat)
    requires n >= 1
    ensures Pow(b, n) == 1.0 <==> b == 1.0 || (b == -1.0 && n % 2 == 0)
  {
    if b == 1.0 {
      PowOfOne(n);
    } else if b == -1.0 {
      PowOfMinusOne(n);
    } else {
      PowAbs(b, n);
      if Abs(b) > 1.0 {
        PowAboveOne(Abs(b), n);
      } else {
        PowBelowOne(Abs(b), n);
      }
    }
  }

  // ---- when the formula has a value ----

  /** The formula has a value exactly on the financeable parameters; everywhere else Python
      divides by zero. */
  lemma InstallmentDefined(valor: real, juros: real, n: nat)
    ensures Installment(valor, juros, n).Success? <==> Financeable(juros, n)
  {
    var base := Base(juros);
    if base != 0.0 {
      var p := Pow(base, n);
      assert 1.0 / p == 1.0 <==> p == 1.0 by {
        assert 1.0 / p * p == 1.0;
      }
      if n >= 1 {
        PowIsOne(base, n);
      }
    }
  }

  /** Every rate the slider offers (1% to 5%) and every term the selector offers
      (12 to 60 months) gives a value. */
  lemma UiParametersFinanceable(valor: real, juros: real, n: nat)
    requires 1.0 <= juros <= 5.0
    requires n in {12, 24, 36, 48, 60}
    ensures Installment(valor, juros, n).Success?
  {
    InstallmentDefined(valor, juros, n);
  }

  /** At a positive rate a non-negative loan pays at least the month's interest each month. */
  lemma InstallmentCoversInterest(valor: real, juros: real, n: nat)
    requires juros > 0.0 && n >= 1 && valor >= 0.0
    ensures Installment(valor, juros, n).Success?
    ensures Installment(valor, juros, n).value >= valor * juros / 100.0 >= 0.0
  {
    InstallmentDefined(valor, juros, n);
    InstallmentEquation(valor, juros, n);
    var d := Denominator(juros, n);
    var interest := valor * (juros / 100.0);
    var q := Installment(valor, juros, n).value;
    assert q * d == interest;
    assert interest >= 0.0;
    assert q >= 0.0;
    assert q * d <= q * 1.0;
  }

  /** A single instalment repays the principal plus one month's interest. */
  lemma SingleInstallment(valor: real, juros: real)
    requires juros != 0.0 && juros != -100.0
    ensures Installment(valor, juros, 1).Success?
    ensures Installment(valor, juros, 1).value == valor * Base(juros)
  {
    InstallmentDefined(valor, juros, 1);
    InstallmentEquation(valor, juros, 1);
    var r := juros / 100.0;
    var b := Base(juros);
    assert Pow(b, 1) == b;
    var d := Denominator(juros, 1);
    assert d * b == r by {
      assert d == 1.0 - 1.0 / b;
      assert 1.0 / b * b == 1.0;
    }
    var q := Installment(valor, juros, 1).value;
    assert q * d == valor * r;
    assert (valor * b) * d == valor * r;
    var e := q - valor * b;
    assert e * d == 0.0;
    assert e == e * d / d;
    assert q == valor * b;
    var res := Installment(valor, juros, 1);
    assert res.Success? && res.value == q;
    assert res == Success(q);
  }

  /** The instalment is linear in the amount financed. */
  lemma InstallmentLinear(a: real, v: real, c: real, w: real, juros: real, n: nat)
    requires Financeable(juros, n)
    ensures Installment(a * v + c * w, juros, n).Success?
    ensures Installment(a * v + c * w, juros, n).value
         == a * Installment(v, juros, n).value + c * Installment(w, juros, n).value
  {
    var u := a * v + c * w;
    InstallmentDefined(u, juros, n);
    InstallmentDefined(v, juros, n);
    InstallmentDefined(w, juros, n);
    InstallmentEquation(u, juros, n);
    InstallmentEquation(v, juros, n);
    InstallmentEquation(w, juros, n);
    var d := Denominator(juros, n);
    var pu, pv, pw := Installment(u, juros, n).value, Installment(v, juros, n).value,
                      Installment(w, juros, n).value;
    var r := juros / 100.0;
    assert (a * pv + c * pw) * d == a * (pv * d) + c * (pw * d);
    assert (a * pv + c * pw) * d == u * r;
    assert pu * d == u * r;
  }

  // ---- the annuity factor ----

  /** Closed form of the geometric sum: (b - 1) * A(b, n) = 1 - b^-n. */
  lemma {:induction false} AnnuityClosedForm(b: real, n: nat)
    requires b != 0.0
    ensures (b - 1.0) * Annuity(b, n) == 1.0 - 1.0 / Pow(b, n)
  {
    if n > 0 {
      AnnuityClosedForm(b, n - 1);
      var p := Pow(b, n - 1);
      assert Pow(b, n) == b * p;
      assert (b - 1.0) / (b * p) == 1.0 / p - 1.0 / (b * p);
    }
  }

  /** The instalment is the level payment whose present value over the term is the amount
      financed: instalment * A(1 + r, n) = valor, for every parameter where the formula
      has a value. */
  lemma PresentValueIsPrincipal(valor: real, juros: real, n: nat)
    requires Financeable(juros, n)
    ensures Installment(valor, juros, n).Success?
    ensures Installment(valor, juros, n).value * Annuity(Base(juros), n) == valor
  {
    InstallmentDefined(valor, juros, n);
    LevelPayment(valor, juros, n, Installment(valor, juros, n).value);
  }

  /** Any payment that times the denominator gives one month's interest, at a non-zero
      rate, times the annuity factor gives back the principal. */
  lemma LevelPayment(valor: real, juros: real, n: nat, p: real)
    requires juros != 0.0 && Base(juros) != 0.0
    requires p * Denominator(juros, n) == valor * (juros / 100.0)
    ensures p * Annuity(Base(juros), n) == valor
  {
    RateTimesAnnuity(juros, n);
    CancelRate(juros / 100.0, p, Annuity(Base(juros), n), Denominator(juros, n), valor);
  }

  /** The closed form at base 1 + r: r * A(1 + r, n) is the denominator of the formula. */
  lemma RateTimesAnnuity(juros: real, n: nat)
    requires Base(juros) != 0.0
    ensures (juros / 100.0) * Annuity(Base(juros), n) == Denominator(juros, n)
  {
  }

  /** From p * d = v * r and r * a = d with r nonzero: p * a = v. */
  lemma CancelRate(r: real, p: real, a: real, d: real, v: real)
    requires r != 0.0 && r * a == d && p * d == v * r
    ensures p * a == v
  {
  }

  lemma AnnuityPositive(b: real, n: nat)
    requires b > 0.0 && n >= 1
    ensures Annuity(b, n) > 0.0
  {
  }

  lemma {:induction false} AnnuityAtMostTerm(b: real, n: nat)
    requires b >= 1.0
    ensures Annuity(b, n) <= n as real
  {
    if n > 0 {
      AnnuityAtMostTerm(b, n - 1);
      PowAtLeastOne(b, n);
      var p := Pow(b, n);
      assert 1.0 / p * p == 1.0;
    }
  }

  /** Taking reciprocals reverses the order of positive reals. */
  lemma Reciprocal(p: real, q: real)
    requires 0.0 < p < q
    ensures 0.0 < 1.0 / q < 1.0 / p
  {
  }

  /** A higher positive base discounts every payment more, so the annuity factor falls. */
  lemma {:induction false} AnnuityDecreasing(a: real, b: real, n: nat)
    requires 0.0 < a < b && n >= 1
    ensures Annuity(b, n) < Annuity(a, n)
  {
    PowIncreasing(a, b, n);
    var p, q := Pow(a, n), Pow(b, n);
    Reciprocal(p, q);
    if n > 1 {
      AnnuityDecreasing(a, b, n - 1);
    }
  }

  // ---- consequences for the borrower ----

  /** At a positive rate the instalments over the whole term repay at least the principal. */
  lemma TotalCoversPrincipal(valor: real, juros: real, n: nat)
    requires juros > 0.0 && n >= 1 && valor >= 0.0
    ensures Installment(valor, juros, n).Success?
    ensures n as real * Installment(valor, juros, n).value >= valor
  {
    InstallmentCoversInterest(valor, juros, n);
    var p := Installment(valor, juros, n).value;
    PresentValueIsPrincipal(valor, juros, n);
    AnnuityAtMostTerm(Base(juros), n);
    var a := Annuity(Base(juros), n);
    assert p * a == valor;
    assert p >= 0.0;
    assert n as real * p >= a * p;
  }

  /** For a fixed amount and term, a higher rate never lowers the instalment, and raises it
      when the amount is positive. */
  lemma InstallmentIncreasesWithRate(valor: real, j1: real, j2: real, n: nat)
    requires -100.0 < j1 < j2 && j1 != 0.0 && j2 != 0.0 && n >= 1 && valor >= 0.0
    ensures Installment(valor, j1, n).Success? && Installment(valor, j2, n).Success?
    ensures Installment(valor, j1, n).value <= Installment(valor, j2, n).value
    ensures valor > 0.0 ==> Installment(valor, j1, n).value < Installment(valor, j2, n).value
  {
    InstallmentDefined(valor, j1, n);
    InstallmentDefined(valor, j2, n);
    var b1, b2 := Base(j1), Base(j2);
    PresentValueIsPrincipal(valor, j1, n);
    PresentValueIsPrincipal(valor, j2, n);
    AnnuityDecreasing(b1, b2, n);
    AnnuityPositive(b2, n);
    var p1, p2 := Installment(valor, j1, n).value, Installment(valor, j2, n).value;
    SmallerFactorLargerCofactor(p1, Annuity(b1, n), p2, Annuity(b2, n));
  }

  /** Two products equal to the same non-negative amount: the larger factor has the smaller
      cofactor. */
  lemma SmallerFactorLargerCofactor(p1: real, a1: real, p2: real, a2: real)
    requires a1 > a2 > 0.0 && p1 * a1 == p2 * a2 && p1 * a1 >= 0.0
    ensures p1 <= p2
    ensures p1 * a1 > 0.0 ==> p1 < p2
  {
  }
}
