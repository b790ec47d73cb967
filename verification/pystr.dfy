/**
 * The Python string operations the price normalisation is built from:
 * `str.replace` with its exact single-pass semantics, and the reference
 * definitions (filtering, mapping and counting characters) that say what a
 * replacement of one character means.
 */
module PyStr {

  /** Python's `s.replace(pat, rep)` with no count argument: one left-to-right
      pass that replaces every non-overlapping occurrence of `pat`; the text
      produced by a replacement is never searched again. An empty `pat`
      matches before every character and at the end, as in Python. */
  function Replace(s: string, pat: string, rep: string): (r: string)
    ensures |pat| > 0 && |rep| <= |pat| ==> |r| <= |s|
    decreases |s|
  {
    if |s| == 0 then
      if |pat| == 0 then rep else []
    else if |pat| == 0 then
      rep + [s[0]] + Replace(s[1..], pat, rep)
    else if |pat| <= |s| && s[..|pat|] == pat then
      rep + Replace(s[|pat|..], pat, rep)
    else
      [s[0]] + Replace(s[1..], pat, rep)
  }

  /** Number of occurrences of the character `c` in `s`. */
  function Count(s: string, c: char): (n: nat)
    ensures n <= |s|
    ensures n == 0 <==> c !in s
  {
    if |s| == 0 then 0
    else (if s[0] == c then 1 else 0) + Count(s[1..], c)
  }

  /** `s` with every occurrence of `c` deleted, the other characters kept in order. */
  function RemoveAll(s: string, c: char): (r: string)
    ensures c !in r
    ensures |r| == |s| - Count(s, c)
  {
    if |s| == 0 then []
    else if s[0] == c then RemoveAll(s[1..], c)
    else [s[0]] + RemoveAll(s[1..], c)
  }

  /** `s` with every `c` changed to `d` and every other character unchanged. */
  function MapChar(s: string, c: char, d: char): (r: string)
    ensures |r| == |s|
    ensures forall i :: 0 <= i < |s| ==> r[i] == (if s[i] == c then d else s[i])
  {
    if |s| == 0 then []
    else [if s[0] == c then d else s[0]] + MapChar(s[1..], c, d)
  }

  predicate IsDigit(c: char) {
    '0' <= c <= '9'
  }

  /** The decimal digits of `s`, in the order they appear. */
  function Digits(s: string): (r: string)
    ensures |r| <= |s|
    ensures forall i :: 0 <= i < |r| ==> IsDigit(r[i])
  {
    if |s| == 0 then []
    else if IsDigit(s[0]) then [s[0]] + Digits(s[1..])
    else Digits(s[1..])
  }

  lemma {:induction false} CountAppend(a: string, b: string, c: char)
    ensures Count(a + b, c) == Count(a, c) + Count(b, c)
    decreases |a|
  {
    if |a| > 0 {
      assert (a + b)[1..] == a[1..] + b;
      CountAppend(a[1..], b, c);
    } else {
      assert a + b == b;
    }
  }

  lemma {:induction false} DigitsAppend(a: string, b: string)
    ensures Digits(a + b) == Digits(a) + Digits(b)
    decreases |a|
  {
    if |a| > 0 {
      assert (a + b)[1..] == a[1..] + b;
      DigitsAppend(a[1..], b);
    } else {
      assert a + b == b;
    }
  }

  lemma {:induction false} RemoveAllAppend(a: string, b: string, c: char)
    ensures RemoveAll(a + b, c) == RemoveAll(a, c) + RemoveAll(b, c)
    decreases |a|
  {
    if |a| > 0 {
      assert (a + b)[1..] == a[1..] + b;
      RemoveAllAppend(a[1..], b, c);
    } else {
      assert a + b == b;
    }
  }

  /** Deleting a character that is absent changes nothing. */
  lemma {:induction false} RemoveAllAbsent(s: string, c: char)
    requires c !in s
    ensures RemoveAll(s, c) == s
  {
    if |s| > 0 {
      assert s == [s[0]] + s[1..];
      RemoveAllAbsent(s[1..], c);
    }
  }

  /** Removing every `c` keeps the number of each other character. */
  lemma {:induction false} RemoveAllCount(s: string, c: char, x: char)
    requires x != c
    ensures Count(RemoveAll(s, c), x) == Count(s, x)
  {
    if |s| > 0 {
      RemoveAllCount(s[1..], c, x);
      if s[0] != c {
        assert ([s[0]] + RemoveAll(s[1..], c))[1..] == RemoveAll(s[1..], c);
      }
    }
  }

  /** Removing a non-digit keeps the digits and their order. */
  lemma {:induction false} RemoveAllDigits(s: string, c: char)
    requires !IsDigit(c)
    ensures Digits(RemoveAll(s, c)) == Digits(s)
  {
    if |s| > 0 {
      RemoveAllDigits(s[1..], c);
      if s[0] != c {
        assert ([s[0]] + RemoveAll(s[1..], c))[1..] == RemoveAll(s[1..], c);
      }
    }
  }

  /** After changing every `c` into `d`, no `c` is left and the `d`s are the old `d`s plus the old `c`s. */
  lemma {:induction false} MapCharCount(s: string, c: char, d: char)
    requires c != d
    ensures Count(MapChar(s, c, d), c) == 0
    ensures Count(MapChar(s, c, d), d) == Count(s, d) + Count(s, c)
  {
    if |s| > 0 {
      MapCharCount(s[1..], c, d);
      var r := MapChar(s, c, d);
      assert r[1..] == MapChar(s[1..], c, d);
    }
  }

  /** Changing a non-digit into a non-digit keeps the digits and their order. */
  lemma {:induction false} MapCharDigits(s: string, c: char, d: char)
    requires !IsDigit(c) && !IsDigit(d)
    ensures Digits(MapChar(s, c, d)) == Digits(s)
  {
    if |s| > 0 {
      MapCharDigits(s[1..], c, d);
      var r := MapChar(s, c, d);
      assert r[1..] == MapChar(s[1..], c, d);
    }
  }

  /** Renaming a character that is absent changes nothing. */
  lemma MapCharAbsent(s: string, c: char, d: char)
    requires c !in s
    ensures MapChar(s, c, d) == s
  {
  }

  /** `s.replace(c, "")` for a one-character `c` deletes every `c`. */
  lemma {:induction false} ReplaceCharByNothing(s: string, c: char)
    ensures Replace(s, [c], "") == RemoveAll(s, c)
  {
    if |s| > 0 {
      ReplaceCharByNothing(s[1..], c);
      assert s[..1] == [s[0]];
    }
  }

  /** `s.replace(c, d)` for one-character `c` and `d` maps every `c` to `d`. */
  lemma {:induction false} ReplaceCharByChar(s: string, c: char, d: char)
    ensures Replace(s, [c], [d]) == MapChar(s, c, d)
  {
    if |s| > 0 {
      ReplaceCharByChar(s[1..], c, d);
      assert s[..1] == [s[0]];
    }
  }

  /** When the first character of `pat` never occurs in `s`, the replacement is the identity. */
  lemma {:induction false} ReplaceAbsent(s: string, pat: string, rep: string)
    requires |pat| > 0 && pat[0] !in s
    ensures Replace(s, pat, rep) == s
  {
    if |s| > 0 {
      assert s[0] != pat[0];
      if |pat| <= |s| {
        assert s[..|pat|][0] != pat[0];
      }
      ReplaceAbsent(s[1..], pat, rep);
      assert s == [s[0]] + s[1..];
    }
  }

  /** An occurrence of `pat` at the front is replaced and the search resumes after it. */
  lemma ReplaceAtFront(pat: string, rest: string, rep: string)
    requires |pat| > 0
    ensures Replace(pat + rest, pat, rep) == rep + Replace(rest, pat, rep)
  {
  }

  /** Replacing a pattern by a replacement, neither holding `c`, keeps the number of `c`s. */
  lemma {:induction false} ReplaceKeepsCount(s: string, pat: string, rep: string, c: char)
    requires |pat| > 0 && c !in pat && c !in rep
    ensures Count(Replace(s, pat, rep), c) == Count(s, c)
    decreases |s|
  {
    if |s| > 0 {
      if |pat| <= |s| && s[..|pat|] == pat {
        ReplaceKeepsCount(s[|pat|..], pat, rep, c);
        CountAppend(rep, Replace(s[|pat|..], pat, rep), c);
        assert s == s[..|pat|] + s[|pat|..];
        CountAppend(s[..|pat|], s[|pat|..], c);
      } else {
        ReplaceKeepsCount(s[1..], pat, rep, c);
        CountAppend([s[0]], Replace(s[1..], pat, rep), c);
        assert s == [s[0]] + s[1..];
      }
    }
  }

  /** Replacing a digit-free pattern by a digit-free replacement keeps the digits and their order. */
  lemma {:induction false} ReplaceKeepsDigits(s: string, pat: string, rep: string)
    requires |pat| > 0 && Digits(pat) == [] && Digits(rep) == []
    ensures Digits(Replace(s, pat, rep)) == Digits(s)
    decreases |s|
  {
    if |s| > 0 {
      if |pat| <= |s| && s[..|pat|] == pat {
        ReplaceKeepsDigits(s[|pat|..], pat, rep);
        DigitsAppend(rep, Replace(s[|pat|..], pat, rep));
        assert s == s[..|pat|] + s[|pat|..];
        DigitsAppend(s[..|pat|], s[|pat|..]);
      } else {
        ReplaceKeepsDigits(s[1..], pat, rep);
        DigitsAppend([s[0]], Replace(s[1..], pat, rep));
        assert s == [s[0]] + s[1..];
        DigitsAppend([s[0]], s[1..]);
      }
    }
  }
}
