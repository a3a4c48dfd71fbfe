/** Calendar dates written `YYYY-MM-DD`, as the date input and the range
    view produce them, and why comparing them as strings is comparing
    them as dates. */
module IsoDates {
  import opened JsStrings

  predicate IsDigit(c: char)
  {
    '0' <= c <= '9'
  }

  /** The value of a decimal digit; any other character weighs nothing. */
  function Weight(c: char): (w: nat)
    ensures w <= 9
  {
    if IsDigit(c) then c as int - '0' as int else 0
  }

  function Pow10(n: nat): (p: nat)
    ensures p >= 1
  {
    if n == 0 then 1 else 10 * Pow10(n - 1)
  }

  /** The digits of `s` read as one decimal numeral, position by position
      (a non-digit counts as a zero digit). */
  function Numeral(s: string): nat
  {
    if s == [] then 0 else Weight(s[0]) * Pow10(|s| - 1) + Numeral(s[1..])
  }

  lemma {:induction false} MulStep(x: nat, y: nat, p: nat)
    requires x < y
    ensures x * p + p <= y * p
    decreases y - x
  {
    if y > x + 1 {
      MulStep(x, y - 1, p);
    }
    assert y * p == (y - 1) * p + p;
  }

  /** A numeral of `n` positions is below `10^n`. */
  lemma {:induction false} NumeralBound(s: string)
    ensures Numeral(s) < Pow10(|s|)
  {
    if s != [] {
      NumeralBound(s[1..]);
      if Weight(s[0]) < 9 {
        MulStep(Weight(s[0]), 9, Pow10(|s| - 1));
      }
    }
  }

  /** Two strings of one length whose characters differ only where both
      hold digits, such as two dates of the same shape. */
  predicate Aligned(a: string, b: string)
  {
    |a| == |b| && forall i :: 0 <= i < |a| ==> (IsDigit(a[i]) && IsDigit(b[i])) || a[i] == b[i]
  }

  /** For aligned strings the string order is the order of their numerals. */
  lemma {:induction false} AlignedLexIsNumeric(a: string, b: string)
    requires Aligned(a, b)
    ensures LexLess(a, b) <==> Numeral(a) < Numeral(b)
  {
    if a != [] {
      var p := Pow10(|a| - 1);
      assert Aligned(a[1..], b[1..]) by {
        forall i | 0 <= i < |a| - 1
          ensures (IsDigit(a[1..][i]) && IsDigit(b[1..][i])) || a[1..][i] == b[1..][i]
        {
          assert a[1..][i] == a[i + 1] && b[1..][i] == b[i + 1];
        }
      }
      AlignedLexIsNumeric(a[1..], b[1..]);
      NumeralBound(a[1..]);
      NumeralBound(b[1..]);
      if a[0] != b[0] {
        if a[0] < b[0] {
          MulStep(Weight(a[0]), Weight(b[0]), p);
        } else {
          MulStep(Weight(b[0]), Weight(a[0]), p);
        }
      }
    }
  }

  /** A zero-padded `YYYY-MM-DD` string. */
  predicate IsDate(s: string)
  {
    && |s| == 10 && s[4] == '-' && s[7] == '-'
    && forall i :: 0 <= i < 10 && i != 4 && i != 7 ==> IsDigit(s[i])
  }

  function Year(s: string): nat
    requires IsDate(s)
  {
    1000 * Weight(s[0]) + 100 * Weight(s[1]) + 10 * Weight(s[2]) + Weight(s[3])
  }

  function Month(s: string): nat
    requires IsDate(s)
  {
    10 * Weight(s[5]) + Weight(s[6])
  }

  function Day(s: string): nat
    requires IsDate(s)
  {
    10 * Weight(s[8]) + Weight(s[9])
  }

  /** Chronological order: an earlier year, or the same year and an earlier
      month, or the same month and an earlier day. */
  predicate Before(a: string, b: string)
    requires IsDate(a) && IsDate(b)
  {
    || Year(a) < Year(b)
    || (Year(a) == Year(b) && Month(a) < Month(b))
    || (Year(a) == Year(b) && Month(a) == Month(b) && Day(a) < Day(b))
  }

  lemma DateNumeral(s: string)
    requires IsDate(s)
    ensures Numeral(s) == Year(s) * 1000000 + Month(s) * 1000 + Day(s)
  {
    assert Numeral(s[10..]) == 0;
    assert Numeral(s[9..]) == Weight(s[9]) + Numeral(s[10..]);
    assert Numeral(s[8..]) == Weight(s[8]) * 10 + Numeral(s[9..]);
    assert Numeral(s[7..]) == Numeral(s[8..]);
    assert Numeral(s[6..]) == Weight(s[6]) * 1000 + Numeral(s[7..]);
    assert Numeral(s[5..]) == Weight(s[5]) * 10000 + Numeral(s[6..]);
    assert Numeral(s[4..]) == Numeral(s[5..]);
    assert Numeral(s[3..]) == Weight(s[3]) * 1000000 + Numeral(s[4..]);
    assert Numeral(s[2..]) == Weight(s[2]) * 10000000 + Numeral(s[3..]);
    assert Numeral(s[1..]) == Weight(s[1]) * 100000000 + Numeral(s[2..]);
    assert s[0..] == s;
    assert Numeral(s) == Weight(s[0]) * 1000000000 + Numeral(s[1..]);
  }

  /** For well-formed dates, JavaScript's string comparison `a < b` is the
      chronological order. */
  lemma LexIsChronological(a: string, b: string)
    requires IsDate(a) && IsDate(b)
    ensures LexLess(a, b) <==> Before(a, b)
  {
    assert Aligned(a, b);
    AlignedLexIsNumeric(a, b);
    DateNumeral(a);
    DateNumeral(b);
  }
}
