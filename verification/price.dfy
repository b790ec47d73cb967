/**
 * The price string of a FIPE valuation, in Brazilian-real format
 * ("R$ 75.432,10"), and the way app.py turns it into a number: strip the
 * currency prefix, drop the thousands points, turn the decimal comma into a
 * point, then read the result with `float()`.
 */
module Price {
  import opened Wrappers
  import opened PyStr
  import opened Decimal

  /** The currency prefix of a price string. */
  const Prefix: string := "R$ "

  /** First step: `s.replace('R$ ', '')`. It never lengthens the string, and a string
      without an `R` has no prefix to remove. */
  function StripCurrency(s: string): (r: string)
    ensures |r| <= |s|
    ensures 'R' !in s ==> r == s
  {
    NoPrefixWithoutR(s);
    Replace(s, Prefix, "")
  }

  /** Without an `R` the prefix cannot occur, so its removal changes nothing. */
  lemma NoPrefixWithoutR(s: string)
    ensures 'R' !in s ==> Replace(s, Prefix, "") == s
  {
    if 'R' !in s {
      ReplaceAbsent(s, Prefix, "");
    }
  }

  /** The whole chain `s.replace('R$ ', '').replace('.', '').replace(',', '.')`. The result
      is no longer than the input and holds no comma: every comma became a point. */
  function Normalise(s: string): (r: string)
    ensures |r| <= |s|
    ensures ',' !in r
  {
    var t := Replace(StripCurrency(s), ".", "");
    ReplaceCharByChar(t, ',', '.');
    assert "," == [','] && "." == ['.'];
    Replace(t, ",", ".")
  }

  /** `float(...)` applied to the normalised price string; every price it reads is
      non-negative. */
  function ParsePrice(s: string): (r: Option<real>)
    ensures r.Some? ==> r.value >= 0.0
  {
    ParseDecimal(Normalise(s))
  }

  /** The two single-character replacements are a deletion of every point followed by a
      renaming of every comma to a point. */
  lemma NormaliseIsRemoveThenMap(s: string)
    ensures Normalise(s) == MapChar(RemoveAll(StripCurrency(s), '.'), ',', '.')
  {
    var t := StripCurrency(s);
    ReplaceCharByNothing(t, '.');
    assert "." == ['.'];
    ReplaceCharByChar(RemoveAll(t, '.'), ',', '.');
    assert "," == [','];
  }

  /** Stripping the prefix touches neither points nor commas nor digits. */
  lemma StripCurrencyKeeps(s: string)
    ensures Count(StripCurrency(s), '.') == Count(s, '.')
    ensures Count(StripCurrency(s), ',') == Count(s, ',')
    ensures Digits(StripCurrency(s)) == Digits(s)
  {
    ReplaceKeepsCount(s, Prefix, "", '.');
    ReplaceKeepsCount(s, Prefix, "", ',');
    assert Digits(Prefix) == [];
    ReplaceKeepsDigits(s, Prefix, "");
  }

  /** Because the points are deleted before the commas become points, the result has no
      comma, one point per comma of the input, and is shorter by the input's points. */
  lemma NormaliseCounts(s: string)
    ensures Count(Normalise(s), ',') == 0
    ensures Count(Normalise(s), '.') == Count(s, ',')
    ensures |Normalise(s)| == |StripCurrency(s)| - Count(s, '.')
  {
    var t := StripCurrency(s);
    NormaliseIsRemoveThenMap(s);
    StripCurrencyKeeps(s);
    MapCharCount(RemoveAll(t, '.'), ',', '.');
    RemoveAllCount(t, '.', ',');
  }

  /** The digits of the price survive normalisation, in their original order. */
  lemma NormaliseKeepsDigits(s: string)
    ensures Digits(Normalise(s)) == Digits(s)
  {
    var t := StripCurrency(s);
    NormaliseIsRemoveThenMap(s);
    StripCurrencyKeeps(s);
    RemoveAllDigits(t, '.');
    MapCharDigits(RemoveAll(t, '.'), ',', '.');
  }

  /** A string with no 'R', point or comma comes out of normalisation unchanged. */
  lemma NormaliseUntouched(s: string)
    requires 'R' !in s && '.' !in s && ',' !in s
    ensures StripCurrency(s) == s
    ensures Normalise(s) == s
  {
    ReplaceAbsent(s, Prefix, "");
    NormaliseIsRemoveThenMap(s);
    RemoveAllAbsent(s, '.');
    MapCharAbsent(s, ',', '.');
  }

  /** The prefix is removed in one pass, so a prefix assembled by the removal survives:
      the result of normalising a string need not be free of "R$ ". */
  lemma StripIsSinglePass()
    ensures StripCurrency("RR$ $ ") == "R$ "
    ensures Normalise("RR$ $ ") == Prefix
  {
    StripDoubledPrefix();
    NormaliseIsRemoveThenMap("RR$ $ ");
    RemoveAllAbsent(Prefix, '.');
    MapCharAbsent(Prefix, ',', '.');
  }

  /** The one occurrence of "R$ " in "RR$ $ " starts at its second character. */
  lemma StripDoubledPrefix()
    ensures Replace("RR$ $ ", Prefix, "") == "R$ "
  {
    var s := "RR$ $ ";
    assert s[..3] != Prefix by { assert s[1] != Prefix[1]; }
    assert s == [s[0]] + (Prefix + "$ ");
    ReplaceAtFront(Prefix, "$ ", "");
    ReplaceAbsent("$ ", Prefix, "");
  }

  /** A price string with two or more commas normalises to two or more points, which
      `float()` refuses. */
  lemma ManyCommasRejected(s: string)
    requires Count(s, ',') >= 2
    ensures Count(Normalise(s), '.') >= 2
    ensures ParsePrice(s) == None
  {
    NormaliseCounts(s);
    if ParsePrice(s).Some? {
      ParseAtMostOneDot(Normalise(s));
    }
  }

  /** A word that is not a price does not parse. */
  lemma NonPriceRejected()
    ensures ParsePrice("invalid") == None
  {
    NormaliseUntouched("invalid");
    ParseDecimalAccepts("invalid");
    assert !IsDigit("invalid"[0]);
  }

  /** Digits grouped by threes from the right with a point between groups ("75432" to "75.432"). */
  function GroupThousands(ds: string): (r: string)
    requires AllDigits(ds)
    ensures forall i :: 0 <= i < |r| ==> IsDigit(r[i]) || r[i] == '.'
    decreases |ds|
  {
    if |ds| <= 3 then ds
    else GroupThousands(ds[..|ds| - 3]) + "." + ds[|ds| - 3..]
  }

  /** Deleting the points of a grouped number gives back its digits. */
  lemma {:induction false} UngroupThousands(ds: string)
    requires AllDigits(ds)
    ensures RemoveAll(GroupThousands(ds), '.') == ds
    decreases |ds|
  {
    if |ds| <= 3 {
      AllDigitsHasNoDot(ds);
      RemoveAllAbsent(ds, '.');
    } else {
      var hi, lo := ds[..|ds| - 3], ds[|ds| - 3..];
      assert ds == hi + lo;
      UngroupThousands(hi);
      UngroupStep(GroupThousands(hi), hi, lo);
    }
  }

  /** One step of `UngroupThousands`: a point between two groups disappears. */
  lemma UngroupStep(gh: string, hi: string, lo: string)
    requires RemoveAll(gh, '.') == hi && AllDigits(lo)
    ensures RemoveAll(gh + "." + lo, '.') == hi + lo
  {
    calc {
      RemoveAll(gh + "." + lo, '.');
    == { RemoveAllAppend(gh + ".", lo, '.'); }
      RemoveAll(gh + ".", '.') + RemoveAll(lo, '.');
    == { AllDigitsHasNoDot(lo); RemoveAllAbsent(lo, '.'); }
      RemoveAll(gh + ".", '.') + lo;
    == { RemoveAllAppend(gh, ".", '.'); }
      RemoveAll(gh, '.') + RemoveAll(".", '.') + lo;
    == { assert RemoveAll(".", '.') == []; }
      hi + lo;
    }
  }

  /** A valuation of `reais` reais and `centavos` centavos written the way the FIPE table
      writes it: "R$ ", thousands points, a decimal comma and two centavo digits. */
  function FormatBrl(reais: nat, centavos: nat): string
    requires centavos < 100
  {
    Prefix + GroupThousands(NatToDigits(reais)) + "," + CentavoDigits(centavos)
  }

  /** Two digits denote the number they were made from. */
  lemma TwoDigitValue(c: nat)
    requires c < 100
    ensures Value([DigitChar(c / 10), DigitChar(c % 10)]) == c
  {
    var cc := [DigitChar(c / 10), DigitChar(c % 10)];
    var tens := cc[..1];
    assert tens[..0] == [] && tens[0] == DigitChar(c / 10);
    assert Value(tens) == c / 10;
    assert cc[..|cc| - 1] == tens;
    assert Value(cc) == 10 * (c / 10) + c % 10;
  }

  /** The two centavo digits of a formatted price. */
  function CentavoDigits(centavos: nat): (cc: string)
    requires centavos < 100
    ensures |cc| == 2 && AllDigits(cc) && Value(cc) == centavos
  {
    TwoDigitValue(centavos);
    [DigitChar(centavos / 10), DigitChar(centavos % 10)]
  }

  /** A prefix followed by text with no 'R' is stripped once and the text kept. */
  lemma StripPrefixOnce(body: string)
    requires 'R' !in body
    ensures StripCurrency(Prefix + body) == body
  {
    ReplaceAtFront(Prefix, body, "");
    ReplaceAbsent(body, Prefix, "");
  }

  /** Deleting the points of "grouped digits,centavos" leaves "digits,centavos". */
  lemma RemoveGroupingPoints(ds: string, cc: string)
    requires AllDigits(ds) && AllDigits(cc)
    ensures RemoveAll(GroupThousands(ds) + "," + cc, '.') == ds + "," + cc
  {
    var g := GroupThousands(ds);
    UngroupThousands(ds);
    RemoveAllAppend(g + ",", cc, '.');
    RemoveAllAppend(g, ",", '.');
    assert RemoveAll(",", '.') == ",";
    AllDigitsHasNoDot(cc);
    RemoveAllAbsent(cc, '.');
  }

  /** Renaming the comma of "digits,centavos" gives "digits.centavos". */
  lemma CommaBecomesPoint(ds: string, cc: string)
    requires AllDigits(ds) && AllDigits(cc)
    ensures MapChar(ds + "," + cc, ',', '.') == ds + "." + cc
  {
  }

  /** Normalising "R$ " + grouped digits + "," + centavo digits leaves the bare digits, a
      point and the centavos. */
  lemma NormaliseGrouped(ds: string, cc: string)
    requires AllDigits(ds) && AllDigits(cc)
    ensures Normalise(Prefix + GroupThousands(ds) + "," + cc) == ds + "." + cc
  {
    var body := GroupThousands(ds) + "," + cc;
    assert 'R' !in body by {
      assert forall i :: 0 <= i < |body| ==> IsDigit(body[i]) || body[i] == '.' || body[i] == ',';
    }
    StripPrefixOnce(body);
    assert Prefix + GroupThousands(ds) + "," + cc == Prefix + body;
    NormaliseIsRemoveThenMap(Prefix + body);
    RemoveGroupingPoints(ds, cc);
    CommaBecomesPoint(ds, cc);
  }

  /** Normalising a formatted price leaves the bare digits, a point and the centavos. */
  lemma NormaliseFormatted(reais: nat, centavos: nat)
    requires centavos < 100
    ensures Normalise(FormatBrl(reais, centavos)) == NatToDigits(reais) + "." + CentavoDigits(centavos)
  {
    NormaliseGrouped(NatToDigits(reais), CentavoDigits(centavos));
  }

  /** Normalising and parsing a formatted price gives back its value. */
  lemma ParseFormatRoundTrip(reais: nat, centavos: nat)
    requires centavos < 100
    ensures ParsePrice(FormatBrl(reais, centavos)) == Some(reais as real + centavos as real / 100.0)
  {
    var ds := NatToDigits(reais);
    var cc := CentavoDigits(centavos);
    NormaliseFormatted(reais, centavos);
    ParseWithFraction(ds, cc);
    ValueOfNatToDigits(reais);
    TwoPlaceFixedPoint(ds, cc);
  }

  /** With two fraction digits, `whole.cc` is the whole part plus `cc` hundredths. */
  lemma TwoPlaceFixedPoint(whole: string, cc: string)
    requires AllDigits(whole) && AllDigits(cc) && |cc| == 2
    ensures FixedPoint(whole, cc) == Value(whole) as real + Value(cc) as real / 100.0
  {
  }

  /** The digit strings of the reference valuation denote 75432 and 10. */
  lemma ReferenceDigitValues()
    ensures AllDigits("75432") && Value("75432") == 75432
    ensures AllDigits("10") && Value("10") == 10
  {
    var ds := "75432";
    assert ds[..4] == "7543" && "7543"[..3] == "754" && "754"[..2] == "75" && "75"[..1] == "7";
    assert "10"[..1] == "1";
  }

  /** The reference valuation of the FIPE table normalises to "75432.10" and reads as 75432.10. */
  lemma ReferencePrice()
    ensures Normalise("R$ 75.432,10") == "75432.10"
    ensures ParsePrice("R$ 75.432,10") == Some(75432.10)
  {
    var ds, cc := "75432", "10";
    ReferenceDigitValues();
    assert GroupThousands(ds) == "75.432" by {
      assert ds[..2] == "75" && ds[2..] == "432";
    }
    assert Prefix + GroupThousands(ds) + "," + cc == "R$ 75.432,10";
    NormaliseGrouped(ds, cc);
    assert ds + "." + cc == "75432.10";
    ParseWithFraction(ds, cc);
    TwoPlaceFixedPoint(ds, cc);
  }
}
