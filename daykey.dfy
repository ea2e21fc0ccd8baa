/**
 * The `YYYY-MM-DD` day key that both calendar screens use as the one
 * equality rule for calendar days: `String(year)`, then the 1-based month
 * and the day of the month, each zero-padded to two digits.
 *
 * `ParseDate` reads a key back; the round trip `ParseDate(FormatDate(d))`
 * is what makes two keys equal exactly when their days are equal.
 */
module DayKey {
  import opened Wrappers
  import opened CivilDate

  predicate IsDigit(c: char) {
    '0' <= c <= '9'
  }

  predicate AllDigits(s: string) {
    forall i :: 0 <= i < |s| ==> IsDigit(s[i])
  }

  function DigitChar(k: int): (c: char)
    requires 0 <= k < 10
    ensures IsDigit(c) && c as int == '0' as int + k
  {
    ('0' as int + k) as char
  }

  function DigitValue(c: char): (k: int)
    requires IsDigit(c)
    ensures 0 <= k < 10 && c as int == '0' as int + k
  {
    c as int - '0' as int
  }

  /** `String(n)` for a non-negative integer: decimal, no leading zeros. */
  function NatToString(n: nat): (s: string)
    ensures |s| >= 1 && AllDigits(s)
    ensures n < 10 <==> |s| == 1
    decreases n
  {
    if n < 10 then [DigitChar(n)] else NatToString(n / 10) + [DigitChar(n % 10)]
  }

  /** `String(i)` for any integer: a minus sign before the digits of a negative one. */
  function IntToString(i: int): string {
    if i < 0 then "-" + NatToString(-i) else NatToString(i)
  }

  /** `s.padStart(width, fill)`: `fill` characters before `s` up to `width` characters. */
  function PadStart(s: string, width: nat, fill: char): (r: string)
    ensures |r| == if |s| < width then width else |s|
    ensures r[|r| - |s|..] == s
    ensures forall i :: 0 <= i < |r| - |s| ==> r[i] == fill
  {
    if |s| < width then seq(width - |s|, _ => fill) + s else s
  }

  function Pad2(n: nat): string {
    PadStart(NatToString(n), 2, '0')
  }

  /** `formatDate`: the `YYYY-MM-DD` key of a day. */
  function FormatDate(d: Date): string
    requires ValidDate(d)
  {
    IntToString(d.year) + "-" + Pad2(d.month + 1) + "-" + Pad2(d.day)
  }

  // ---------------------------------------------------------------------
  // Reading keys back.
  // ---------------------------------------------------------------------

  /** The value of a string of decimal digits (leading zeros allowed). */
  function ParseNat(s: string): nat
    requires AllDigits(s)
  {
    if |s| == 0 then 0 else ParseNat(s[..|s| - 1]) * 10 + DigitValue(s[|s| - 1])
  }

  function ParseDigits(s: string): Option<nat> {
    if |s| > 0 && AllDigits(s) then Some(ParseNat(s)) else None
  }

  function ParseInt(s: string): Option<int> {
    if |s| > 0 && s[0] == '-' then
      match ParseDigits(s[1..])
      case Some(n) => Some(-(n as int))
      case None => None
    else
      match ParseDigits(s)
      case Some(n) => Some(n as int)
      case None => None
  }

  /** Reads a `YYYY-MM-DD` key; `None` when it is not the key of a real day. */
  function ParseDate(k: string): Option<Date> {
    if |k| < 7 || k[|k| - 6] != '-' || k[|k| - 3] != '-' then None
    else
      match (ParseInt(k[..|k| - 6]), ParseDigits(k[|k| - 5..|k| - 3]), ParseDigits(k[|k| - 2..]))
      case (Some(y), Some(mm), Some(dd)) =>
        var d := Date(y, mm as int - 1, dd as int);
        if ValidDate(d) then Some(d) else None
      case _ => None
  }

  lemma {:induction false} NatToStringRoundTrip(n: nat)
    ensures ParseNat(NatToString(n)) == n
    decreases n
  {
    if n >= 10 {
      var s := NatToString(n);
      assert s[..|s| - 1] == NatToString(n / 10);
      NatToStringRoundTrip(n / 10);
    }
  }

  lemma IntToStringRoundTrip(i: int)
    ensures ParseInt(IntToString(i)) == Some(i)
  {
    var s := IntToString(i);
    if i < 0 {
      var t := NatToString(-i);
      assert s[1..] == t;
      NatToStringRoundTrip(-i);
      assert ParseDigits(t) == Some(-i);
    } else {
      NatToStringRoundTrip(i);
      assert IsDigit(s[0]);
      assert ParseDigits(s) == Some(i);
    }
  }

  lemma Pad2RoundTrip(n: nat)
    requires n < 100
    ensures |Pad2(n)| == 2 && AllDigits(Pad2(n))
    ensures ParseDigits(Pad2(n)) == Some(n)
  {
    var p := Pad2(n);
    if n < 10 {
      assert p == ['0', DigitChar(n)];
      assert p[..1] == ['0'];
      assert ParseNat(p[..1]) == 0 by {
        assert p[..1][..0] == [];
      }
    } else {
      assert NatToString(n / 10) == [DigitChar(n / 10)];
      NatToStringRoundTrip(n);
    }
  }

  /** Every key reads back as the day it was made from. */
  lemma FormatDateRoundTrip(d: Date)
    requires ValidDate(d)
    ensures ParseDate(FormatDate(d)) == Some(d)
  {
    var ys, ms, ds := IntToString(d.year), Pad2(d.month + 1), Pad2(d.day);
    Pad2RoundTrip(d.month + 1);
    Pad2RoundTrip(d.day);
    IntToStringRoundTrip(d.year);
    ParseDateOfParts(FormatDate(d), ys, ms, ds, d);
  }

  lemma ParseDateOfParts(k: string, ys: string, ms: string, ds: string, d: Date)
    requires k == ys + "-" + ms + "-" + ds
    requires ValidDate(d) && |ms| == 2 && |ds| == 2
    requires ParseInt(ys) == Some(d.year)
    requires ParseDigits(ms) == Some(d.month + 1) && ParseDigits(ds) == Some(d.day)
    ensures ParseDate(k) == Some(d)
  {
    assert k[..|k| - 6] == ys;
    assert k[|k| - 5..|k| - 3] == ms;
    assert k[|k| - 2..] == ds;
  }

  /** Two days have the same key exactly when they are the same day. */
  lemma FormatDateInjective(a: Date, b: Date)
    requires ValidDate(a) && ValidDate(b)
    ensures FormatDate(a) == FormatDate(b) <==> a == b
  {
    FormatDateRoundTrip(a);
    FormatDateRoundTrip(b);
  }

  /** Digits and `-`: the characters a key is made of. */
  predicate KeyChars(s: string) {
    forall i :: 0 <= i < |s| ==> IsDigit(s[i]) || s[i] == '-'
  }

  lemma KeyCharsConcat(a: string, b: string)
    requires KeyChars(a) && KeyChars(b)
    ensures KeyChars(a + b)
  {
    forall i | 0 <= i < |a + b|
      ensures IsDigit((a + b)[i]) || (a + b)[i] == '-'
    {
      if i < |a| {
        assert (a + b)[i] == a[i];
      } else {
        assert (a + b)[i] == b[i - |a|];
      }
    }
  }

  /** A key is made of digits and `-` only; in particular it holds no space. */
  lemma FormatDateAlphabet(d: Date)
    requires ValidDate(d)
    ensures KeyChars(FormatDate(d))
    ensures ' ' !in FormatDate(d)
  {
    Pad2RoundTrip(d.month + 1);
    Pad2RoundTrip(d.day);
    IntToStringKeyChars(d.year);
    DigitsAreKeyChars(Pad2(d.month + 1));
    DigitsAreKeyChars(Pad2(d.day));
    KeyCharsOfParts(IntToString(d.year), Pad2(d.month + 1), Pad2(d.day));
  }

  lemma DigitsAreKeyChars(s: string)
    requires AllDigits(s)
    ensures KeyChars(s)
  {
  }

  lemma IntToStringKeyChars(i: int)
    ensures KeyChars(IntToString(i))
  {
    if i < 0 {
      DigitsAreKeyChars(NatToString(-i));
      KeyCharsConcat("-", NatToString(-i));
    } else {
      DigitsAreKeyChars(NatToString(i));
    }
  }

  lemma KeyCharsOfParts(ys: string, ms: string, ds: string)
    requires KeyChars(ys) && KeyChars(ms) && KeyChars(ds)
    ensures KeyChars(ys + "-" + ms + "-" + ds)
    ensures ' ' !in ys + "-" + ms + "-" + ds
  {
    assert KeyChars("-");
    KeyCharsConcat(ys, "-");
    KeyCharsConcat(ys + "-", ms);
    KeyCharsConcat(ys + "-" + ms, "-");
    KeyCharsConcat(ys + "-" + ms + "-", ds);
    var k := ys + "-" + ms + "-" + ds;
    forall i | 0 <= i < |k|
      ensures k[i] != ' '
    {
      assert IsDigit(k[i]) || k[i] == '-';
    }
  }

  /** The key of 6 October 2025. */
  lemma FormatDateExample()
    ensures FormatDate(Date(2025, 9, 6)) == "2025-10-06"
  {
  }
}
