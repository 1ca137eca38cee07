/**
 * Decimal digit strings: how .NET formats a non-negative integer (`ToString()`
 * and zero-padded custom formats such as "00000000"), how the value of a digit
 * string is read back, and ordinal (char-by-char) string comparison.
 */
module Decimal {

  predicate IsDigit(c: char) {
    '0' <= c <= '9'
  }

  predicate AllDigits(s: seq<char>) {
    forall i :: 0 <= i < |s| ==> IsDigit(s[i])
  }

  function DigitValue(c: char): nat
    requires IsDigit(c)
  {
    (c as int - '0' as int) as nat
  }

  function DigitChar(d: nat): (c: char)
    requires d < 10
    ensures IsDigit(c) && DigitValue(c) == d
  {
    ('0' as int + d) as char
  }

  function Pow10(k: nat): (p: nat)
    ensures p >= 1
  {
    if k == 0 then 1 else 10 * Pow10(k - 1)
  }

  /** The value of a digit string, most significant digit first. */
  function Value(s: seq<char>): nat
    requires AllDigits(s)
  {
    if |s| == 0 then 0 else DigitValue(s[0]) * Pow10(|s| - 1) + Value(s[1..])
  }

  /** The shortest decimal representation of `n` (what `n.ToString()` prints). */
  function Digits(n: nat): (s: seq<char>)
    ensures |s| >= 1 && AllDigits(s)
  {
    if n < 10 then [DigitChar(n)] else Digits(n / 10) + [DigitChar(n % 10)]
  }

  function Zeros(k: nat): (s: seq<char>)
    ensures |s| == k && AllDigits(s)
    ensures forall i :: 0 <= i < k ==> s[i] == '0'
  {
    if k == 0 then [] else ['0'] + Zeros(k - 1)
  }

  /** The custom format "{0:000…0}" with `width` zeros: pads on the left, never truncates. */
  function Padded(n: nat, width: nat): (s: seq<char>)
    ensures AllDigits(s)
  {
    var d := Digits(n);
    if |d| < width then Zeros(width - |d|) + d else d
  }

  /** `string.TrimStart('0')` */
  function TrimLeadingZeros(s: seq<char>): (r: seq<char>)
    ensures |r| <= |s| && r == s[|s| - |r|..]
    ensures r == [] || r[0] != '0'
    ensures forall i :: 0 <= i < |s| - |r| ==> s[i] == '0'
  {
    if |s| > 0 && s[0] == '0' then TrimLeadingZeros(s[1..]) else s
  }

  /** Ordinal comparison of two strings, as `string.CompareOrdinal(s, t) < 0`. */
  predicate OrdinalLess(s: seq<char>, t: seq<char>) {
    if |s| == 0 then |t| > 0
    else if |t| == 0 then false
    else s[0] < t[0] || (s[0] == t[0] && OrdinalLess(s[1..], t[1..]))
  }

  // ---------------------------------------------------------------------------
  // Lemmas
  // ---------------------------------------------------------------------------

  lemma {:induction false} ValueBound(s: seq<char>)
    requires AllDigits(s)
    ensures Value(s) < Pow10(|s|)
  {
    if |s| > 0 {
      ValueBound(s[1..]);
      DigitBound(DigitValue(s[0]), Pow10(|s| - 1), Value(s[1..]));
    }
  }

  /** A digit times a power of ten, plus a value below that power, is below the next power. */
  lemma DigitBound(d: nat, p: nat, rest: int)
    requires d <= 9 && rest < p
    ensures d * p + rest < 10 * p
  {
    assert (9 - d) * p >= 0;
  }

  lemma {:induction false} ValueAppend(s: seq<char>, c: char)
    requires AllDigits(s) && IsDigit(c)
    ensures AllDigits(s + [c])
    ensures Value(s + [c]) == Value(s) * 10 + DigitValue(c)
  {
    var t := s + [c];
    assert AllDigits(t) by {
      forall i | 0 <= i < |t| ensures IsDigit(t[i]) {
        if i < |s| { assert t[i] == s[i]; }
      }
    }
    if |s| > 0 {
      assert t[1..] == s[1..] + [c];
      ValueAppend(s[1..], c);
      ShiftDigit(DigitValue(s[0]), Pow10(|s| - 1), Value(s[1..]), DigitValue(c));
    }
  }

  /** The arithmetic of one more digit on the right: every digit before it moves up one place. */
  lemma ShiftDigit(d: int, p: int, rest: int, c: int)
    ensures d * (10 * p) + (rest * 10 + c) == (d * p + rest) * 10 + c
  {
  }

  /** Reading back what `ToString()` printed gives the number. */
  lemma {:induction false} ValueOfDigits(n: nat)
    ensures Value(Digits(n)) == n
  {
    if n >= 10 {
      ValueOfDigits(n / 10);
      ValueAppend(Digits(n / 10), DigitChar(n % 10));
    }
  }

  lemma {:induction false} DigitsWidth(n: nat, w: nat)
    requires n < Pow10(w)
    ensures 1 <= w ==> |Digits(n)| <= w
  {
    if n >= 10 && w >= 1 {
      assert Pow10(1) == 10;
      assert w >= 2;
      assert n / 10 < Pow10(w - 1);
      DigitsWidth(n / 10, w - 1);
    }
  }

  lemma {:induction false} ValueOfZerosPrefix(k: nat, s: seq<char>)
    requires AllDigits(s)
    ensures AllDigits(Zeros(k) + s)
    ensures Value(Zeros(k) + s) == Value(s)
  {
    var t := Zeros(k) + s;
    assert AllDigits(t) by {
      forall i | 0 <= i < |t| ensures IsDigit(t[i]) {
        if i >= k { assert t[i] == s[i - k]; }
      }
    }
    if k > 0 {
      assert t[1..] == Zeros(k - 1) + s;
      ValueOfZerosPrefix(k - 1, s);
      assert t[0] == '0';
      assert DigitValue(t[0]) * Pow10(|t| - 1) == 0;
      assert Value(t) == Value(t[1..]);
    } else {
      assert t == s;
    }
  }

  /** A number below 10^width padded to `width` digits is exactly `width` long and reads back as itself. */
  lemma PaddedRoundTrip(n: nat, width: nat)
    requires 1 <= width && n < Pow10(width)
    ensures |Padded(n, width)| == width
    ensures Value(Padded(n, width)) == n
  {
    DigitsWidth(n, width);
    ValueOfDigits(n);
    if |Digits(n)| < width {
      ValueOfZerosPrefix(width - |Digits(n)|, Digits(n));
    }
  }

  lemma {:induction false} ValueOfTrimmed(s: seq<char>)
    requires AllDigits(s)
    ensures AllDigits(TrimLeadingZeros(s))
    ensures Value(TrimLeadingZeros(s)) == Value(s)
  {
    if |s| > 0 && s[0] == '0' {
      ValueOfTrimmed(s[1..]);
      assert DigitValue(s[0]) == 0;
    }
  }

  lemma {:induction false} OrdinalLessIrreflexive(s: seq<char>)
    ensures !OrdinalLess(s, s)
  {
    if |s| > 0 {
      OrdinalLessIrreflexive(s[1..]);
    }
  }

  /** Comparing two concatenations whose first parts have the same length. */
  lemma {:induction false} OrdinalLessConcat(a: seq<char>, b: seq<char>, c: seq<char>, d: seq<char>)
    requires |a| == |c|
    ensures OrdinalLess(a + b, c + d) <==> OrdinalLess(a, c) || (a == c && OrdinalLess(b, d))
  {
    if |a| > 0 {
      assert (a + b)[1..] == a[1..] + b;
      assert (c + d)[1..] == c[1..] + d;
      OrdinalLessConcat(a[1..], b, c[1..], d);
      if a[0] == c[0] && a[1..] == c[1..] {
        assert a == c by {
          assert a == [a[0]] + a[1..];
          assert c == [c[0]] + c[1..];
        }
      }
    } else {
      assert a + b == b;
      assert c + d == d;
    }
  }

  /** A smaller leading digit makes the whole number smaller: d1·p + x < d2·p + y. */
  lemma LeadingDigitDominates(d1: nat, d2: nat, p: nat, x: nat, y: nat)
    requires d1 < d2 && x < p
    ensures d1 * p + x < d2 * p + y
  {
    assert (d1 + 1) * p <= d2 * p by {
      MulMonotone(d1 + 1, d2, p);
    }
  }

  lemma MulMonotone(a: nat, b: nat, p: nat)
    requires a <= b
    ensures a * p <= b * p
  {
    assert b * p == a * p + (b - a) * p;
  }

  /** For digit strings of equal length, ordinal order is numeric order. */
  lemma {:induction false} OrdinalLessIsNumericLess(s: seq<char>, t: seq<char>)
    requires AllDigits(s) && AllDigits(t) && |s| == |t|
    ensures OrdinalLess(s, t) <==> Value(s) < Value(t)
  {
    if |s| > 0 {
      var p := Pow10(|s| - 1);
      var ds, dt := DigitValue(s[0]), DigitValue(t[0]);
      assert Value(s) == ds * p + Value(s[1..]);
      assert Value(t) == dt * p + Value(t[1..]);
      if s[0] < t[0] {
        ValueBound(s[1..]);
        LeadingDigitDominates(ds, dt, p, Value(s[1..]), Value(t[1..]));
      } else if t[0] < s[0] {
        ValueBound(t[1..]);
        LeadingDigitDominates(dt, ds, p, Value(t[1..]), Value(s[1..]));
      } else {
        OrdinalLessIsNumericLess(s[1..], t[1..]);
      }
    }
  }

  /** Equal-length digit strings with equal values are equal. */
  lemma {:induction false} ValueInjective(s: seq<char>, t: seq<char>)
    requires AllDigits(s) && AllDigits(t) && |s| == |t|
    requires Value(s) == Value(t)
    ensures s == t
  {
    if |s| > 0 {
      OrdinalLessIsNumericLess(s, t);
      OrdinalLessIsNumericLess(t, s);
      assert s[0] == t[0];
      var p := Pow10(|s| - 1);
      assert Value(s[1..]) == Value(t[1..]);
      ValueInjective(s[1..], t[1..]);
      assert s == [s[0]] + s[1..];
      assert t == [t[0]] + t[1..];
    }
  }
}
