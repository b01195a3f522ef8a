/** Shared building blocks: nullable values and the decimal rendering of
    integers that C# string interpolation performs (`$"... {id} ..."`). */
module Base {

  /** A nullable value: `None` is the source's `null`. */
  datatype Option<+T> = None | Some(value: T) {

    /** The wrapped value, or `default` when null (an optional route
        parameter with a default value). */
    function GetOr(default: T): T {
      match this
      case Some(v) => v
      case None => default
    }
  }

  /** True when every character of `s` is one of '0'..'9'. */
  predicate AllDigits(s: string) {
    forall i :: 0 <= i < |s| ==> '0' <= s[i] <= '9'
  }

  /** The character of the decimal digit `d`. */
  function DigitChar(d: nat): (c: char)
    requires d < 10
    ensures '0' <= c <= '9'
    ensures c as int - '0' as int == d
  {
    "0123456789"[d]
  }

  /** The numeric value of a decimal digit character. */
  function DigitValue(c: char): (d: nat)
    requires '0' <= c <= '9'
    ensures d < 10
  {
    c as int - '0' as int
  }

  /** The decimal digits of `n`, most significant first, without leading zeros. */
  function NatToString(n: nat): (r: string)
    ensures |r| >= 1
    ensures AllDigits(r)
    ensures |r| > 1 ==> r[0] != '0'
    decreases n
  {
    if n < 10 then [DigitChar(n)] else NatToString(n / 10) + [DigitChar(n % 10)]
  }

  /** How an `int` is rendered inside an interpolated string: a minus sign
      for negative values, then the decimal digits of the magnitude. */
  function IntToString(i: int): (r: string)
    ensures |r| >= 1
  {
    if i < 0 then "-" + NatToString(-i) else NatToString(i)
  }

  /** True when `s[lo..hi]` is a non-empty run of decimal digits. */
  predicate DigitsIn(s: string, lo: nat, hi: nat) {
    lo < hi <= |s| && forall k :: lo <= k < hi ==> '0' <= s[k] <= '9'
  }

  /** The number the digits `s[lo..hi]` spell, most significant first. */
  function DigitsValue(s: string, lo: nat, hi: nat): nat
    requires DigitsIn(s, lo, hi)
    decreases hi
  {
    if hi == lo + 1 then DigitValue(s[lo])
    else 10 * DigitsValue(s, lo, hi - 1) + DigitValue(s[hi - 1])
  }

  /** Reads back an optionally signed decimal integer; `None` when `s` is not one. */
  function ParseInt(s: string): Option<int> {
    if |s| >= 2 && s[0] == '-' && DigitsIn(s, 1, |s|) then Some(-(DigitsValue(s, 1, |s|) as int))
    else if DigitsIn(s, 0, |s|) then Some(DigitsValue(s, 0, |s|))
    else None
  }

  /** Appending a character leaves the value of earlier digits alone. */
  lemma {:induction false} DigitsValueAppend(p: string, c: char, lo: nat, hi: nat)
    requires DigitsIn(p, lo, hi)
    ensures DigitsIn(p + [c], lo, hi)
    ensures DigitsValue(p + [c], lo, hi) == DigitsValue(p, lo, hi)
    decreases hi
  {
    if hi > lo + 1 {
      DigitsValueAppend(p, c, lo, hi - 1);
    }
  }

  /** Prepending a character shifts the digits without changing their value. */
  lemma {:induction false} DigitsValuePrepend(c: char, d: string, lo: nat, hi: nat)
    requires DigitsIn(d, lo, hi)
    ensures DigitsIn([c] + d, lo + 1, hi + 1)
    ensures DigitsValue([c] + d, lo + 1, hi + 1) == DigitsValue(d, lo, hi)
    decreases hi
  {
    if hi > lo + 1 {
      DigitsValuePrepend(c, d, lo, hi - 1);
    }
  }

  /** The digits of `n` read back as `n`. */
  lemma {:induction false} NatToStringValue(n: nat)
    ensures DigitsIn(NatToString(n), 0, |NatToString(n)|)
    ensures DigitsValue(NatToString(n), 0, |NatToString(n)|) == n
    decreases n
  {
    if n >= 10 {
      var prefix := NatToString(n / 10);
      NatToStringValue(n / 10);
      DigitsValueAppend(prefix, DigitChar(n % 10), 0, |prefix|);
    }
  }

  /** Digits read as an unsigned integer. */
  lemma ParseUnsigned(d: string, n: nat)
    requires DigitsIn(d, 0, |d|) && DigitsValue(d, 0, |d|) == n
    ensures ParseInt(d) == Some(n)
  {
    assert d[0] != '-';
  }

  /** A minus sign before digits reads as the negated number. */
  lemma ParseSigned(d: string, n: nat)
    requires DigitsIn(d, 0, |d|) && DigitsValue(d, 0, |d|) == n
    ensures ParseInt("-" + d) == Some(-(n as int))
  {
    DigitsValuePrepend('-', d, 0, |d|);
  }

  /** A non-negative integer's text reads back as that integer. */
  lemma ParseIntOfNonNegative(i: int)
    requires i >= 0
    ensures ParseInt(IntToString(i)) == Some(i)
  {
    NatToStringValue(i);
    ParseUnsigned(NatToString(i), i);
  }

  /** A negative integer's text, a minus sign before the digits of its
      magnitude, reads back as that integer. */
  lemma ParseIntOfNegative(i: int)
    requires i < 0
    ensures ParseInt(IntToString(i)) == Some(i)
  {
    var n: nat := -i;
    var d := NatToString(n);
    NatToStringValue(n);
    ParseSigned(d, n);
    assert IntToString(i) == "-" + d;
  }

  /** Decimal rendering round-trips: the text of an id determines the id. */
  lemma ParseIntToString(i: int)
    ensures ParseInt(IntToString(i)) == Some(i)
  {
    if i < 0 {
      ParseIntOfNegative(i);
    } else {
      ParseIntOfNonNegative(i);
    }
  }

  /** Two different integers never render to the same text. */
  lemma IntToStringInjective(a: int, b: int)
    ensures IntToString(a) == IntToString(b) ==> a == b
  {
    ParseIntToString(a);
    ParseIntToString(b);
  }
}
