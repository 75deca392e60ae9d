/**
  String operations the crawler relies on: prefix and substring tests, cutting a
  URL at its query, the digit filter applied to prices, and the decimal
  rendering of page numbers.
 */
module Text {

  /** Python's `startswith`: `s` is `prefix` followed by something. */
  function StartsWith(s: string, prefix: string): (b: bool)
    ensures b <==> exists rest :: s == prefix + rest
  {
    if |prefix| <= |s| && s[..|prefix|] == prefix then
      assert s == prefix + s[|prefix|..];
      true
    else
      false
  }

  /** `t` occurs in `s` beginning at index `i`. */
  predicate OccursAt(s: string, t: string, i: int) {
    0 <= i <= |s| - |t| && s[i..i + |t|] == t
  }

  lemma OccursInTail(s: string, t: string)
    requires |s| > 0
    ensures forall i :: OccursAt(s[1..], t, i) ==> OccursAt(s, t, i + 1)
    ensures forall i :: 0 < i && OccursAt(s, t, i) ==> OccursAt(s[1..], t, i - 1)
  {
  }

  /** Python's `t in s` on strings: `t` is a substring of `s`. */
  function Contains(s: string, t: string): (b: bool)
    ensures b <==> exists i :: OccursAt(s, t, i)
    decreases |s|
  {
    if |s| < |t| then false
    else if StartsWith(s, t) then assert OccursAt(s, t, 0); true
    else OccursInTail(s, t); Contains(s[1..], t)
  }

  /** The first piece of a split at `'?'`: the part of `href` before its first `'?'`. */
  function StripQuery(href: string): (r: string)
    ensures |r| <= |href| && r == href[..|r|]
    ensures '?' !in r
    ensures |r| < |href| ==> href[|r|] == '?'
  {
    if href == [] || href[0] == '?' then []
    else [href[0]] + StripQuery(href[1..])
  }

  /** A prefix without `'?'` survives the cut at the first `'?'`. */
  lemma StripQueryKeepsPrefix(href: string, prefix: string)
    requires StartsWith(href, prefix) && '?' !in prefix
    ensures StartsWith(StripQuery(href), prefix)
  {
  }

  /** The character class `[0-9]` of Python's `re` module. */
  predicate IsDigit(c: char) {
    '0' <= c <= '9'
  }

  predicate AllDigits(s: string) {
    forall i :: 0 <= i < |s| ==> IsDigit(s[i])
  }

  /** The price normalisation: every character outside `[0-9]` deleted. */
  function DigitsOnly(s: string): (r: string)
    ensures AllDigits(r)
    ensures |r| <= |s|
  {
    if s == [] then []
    else (if IsDigit(s[0]) then [s[0]] else []) + DigitsOnly(s[1..])
  }

  /** Every digit of `s` is kept, as many times as it occurs, and nothing
      else is. */
  lemma {:induction false} DigitsOnlyCounts(s: string)
    ensures forall c :: IsDigit(c) ==> multiset(DigitsOnly(s))[c] == multiset(s)[c]
    ensures forall c :: !IsDigit(c) ==> multiset(DigitsOnly(s))[c] == 0
  {
    if s != [] {
      assert s == [s[0]] + s[1..];
      DigitsOnlyCounts(s[1..]);
    }
  }

  /** The filter works character by character, left to right: it keeps the
      order of the digits it keeps. */
  lemma {:induction false} DigitsOnlyAppend(a: string, b: string)
    ensures DigitsOnly(a + b) == DigitsOnly(a) + DigitsOnly(b)
  {
    if a == [] {
      assert a + b == b;
    } else {
      assert (a + b)[1..] == a[1..] + b;
      DigitsOnlyAppend(a[1..], b);
    }
  }

  /** A string of digits passes through unchanged, so normalising twice is
      normalising once. */
  lemma {:induction false} DigitsOnlyKeepsDigits(s: string)
    requires AllDigits(s)
    ensures DigitsOnly(s) == s
  {
    if s != [] {
      DigitsOnlyKeepsDigits(s[1..]);
    }
  }

  /** A string without digits filters to nothing. */
  lemma {:induction false} DigitsOnlyNoDigits(s: string)
    requires forall i :: 0 <= i < |s| ==> !IsDigit(s[i])
    ensures DigitsOnly(s) == []
  {
    if s != [] {
      DigitsOnlyNoDigits(s[1..]);
    }
  }

  /** Separators are dropped wherever they stand, so a decimal comma and a
      thousands dot are not told apart: `"350.000,50"` and `"35000050"`
      normalise alike. */
  lemma SeparatorsConflated(a: string, sep: string, b: string)
    requires forall i :: 0 <= i < |sep| ==> !IsDigit(sep[i])
    ensures DigitsOnly(a + sep + b) == DigitsOnly(a + b)
  {
    DigitsOnlyAppend(a + sep, b);
    DigitsOnlyAppend(a, sep);
    DigitsOnlyNoDigits(sep);
    DigitsOnlyAppend(a, b);
  }

  /** A price written as a currency sign, the thousands and a
      dot-separated remainder keeps the digits of both groups, joined. */
  lemma PriceShape(currency: string, thousands: string, rest: string)
    requires forall i :: 0 <= i < |currency| ==> !IsDigit(currency[i])
    requires AllDigits(thousands) && AllDigits(rest)
    ensures DigitsOnly(currency + thousands + "." + rest) == thousands + rest
  {
    var front := currency + thousands;
    assert DigitsOnly(front + "." + rest) == DigitsOnly(front) + DigitsOnly(rest) by {
      assert !IsDigit("."[0]);
      SeparatorsConflated(front, ".", rest);
      DigitsOnlyAppend(front, rest);
    }
    assert DigitsOnly(front) == thousands by {
      DigitsOnlyAppend(currency, thousands);
      DigitsOnlyNoDigits(currency);
      DigitsOnlyKeepsDigits(thousands);
    }
    assert DigitsOnly(rest) == rest by {
      DigitsOnlyKeepsDigits(rest);
    }
  }

  /** The Brazilian price text of the documented example. */
  lemma PriceExample()
    ensures DigitsOnly("R$ 350.000") == "350000"
  {
    var currency, thousands, rest := "R$ ", "350", "000";
    assert !IsDigit(currency[0]) && !IsDigit(currency[1]) && !IsDigit(currency[2]);
    assert DigitsOnly(currency + thousands + "." + rest) == thousands + rest by {
      PriceShape(currency, thousands, rest);
    }
    assert currency + thousands + "." + rest == "R$ 350.000";
    assert thousands + rest == "350000";
  }

  function DigitChar(d: nat): (c: char)
    requires d < 10
    ensures IsDigit(c)
  {
    ('0' as int + d) as char
  }

  /** Python's `str` of a natural number: its decimal digits, without leading zeros. */
  function DecimalString(n: nat): (s: string)
    ensures |s| > 0 && AllDigits(s)
    ensures s[0] == '0' <==> n == 0
    ensures |s| == 1 <==> n < 10
  {
    if n < 10 then [DigitChar(n)] else DecimalString(n / 10) + [DigitChar(n % 10)]
  }

  /** Python's `int` of a string of decimal digits. */
  function DecimalValue(s: string): nat
    requires AllDigits(s)
  {
    if s == [] then 0
    else 10 * DecimalValue(s[..|s| - 1]) + (s[|s| - 1] as int - '0' as int)
  }

  lemma {:induction false} DecimalRoundTrip(n: nat)
    ensures DecimalValue(DecimalString(n)) == n
  {
    if n >= 10 {
      var s := DecimalString(n);
      assert s[..|s| - 1] == DecimalString(n / 10);
      DecimalRoundTrip(n / 10);
    }
  }

  /** Distinct numbers render as distinct strings. */
  lemma DecimalStringInjective(m: nat, n: nat)
    requires DecimalString(m) == DecimalString(n)
    ensures m == n
  {
    DecimalRoundTrip(m);
    DecimalRoundTrip(n);
  }
}
