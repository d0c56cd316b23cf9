/** The string operations the readiness checks rely on, with Python's meaning:
    ASCII digits (what `\d` is taken to match), `str.join`, a split on one
    character (the model's way of deciding the version pattern), the ordering of `str` values by `<` and `>=`, and the decimal
    rendering of integers inside f-strings. */
module PyText {

  predicate IsDigit(c: char) { '0' <= c <= '9' }

  predicate AllDigits(s: string) { forall i :: 0 <= i < |s| ==> IsDigit(s[i]) }

  /** One `\d+` group: a non-empty run of digits. */
  predicate DigitRun(s: string) { |s| > 0 && AllDigits(s) }

  // ---------------------------------------------------------------------------
  // str.join, and the one-character split that decides the version pattern

  /** `sep.join(parts)` */
  function Join(parts: seq<string>, sep: string): string
  {
    if |parts| == 0 then ""
    else if |parts| == 1 then parts[0]
    else parts[0] + sep + Join(parts[1..], sep)
  }

  /** The pieces of `s` between occurrences of the one-character `sep`, as
      Python's `s.split(sep)` gives them: never empty, and no piece holds the
      separator. The version pattern is decided on these pieces. */
  function Split(s: string, sep: char): (parts: seq<string>)
    ensures |parts| > 0
    ensures forall i :: 0 <= i < |parts| ==> sep !in parts[i]
  {
    if |s| == 0 then [""]
    else
      var rest := Split(s[1..], sep);
      if s[0] == sep then [""] + rest
      else [[s[0]] + rest[0]] + rest[1..]
  }

  /** Joining the pieces of a split gives the string back. */
  lemma {:induction false} JoinSplit(s: string, sep: char)
    ensures Join(Split(s, sep), [sep]) == s
  {
    if |s| > 0 {
      var rest := Split(s[1..], sep);
      JoinSplit(s[1..], sep);
      assert [s[0]] + s[1..] == s;
      if s[0] != sep && |rest| > 1 {
        assert Join(rest, [sep]) == rest[0] + [sep] + Join(rest[1..], [sep]);
        assert ([[s[0]] + rest[0]] + rest[1..])[1..] == rest[1..];
      }
    }
  }

  lemma {:induction false} SplitNoSeparator(p: string, sep: char)
    requires sep !in p
    ensures Split(p, sep) == [p]
  {
    if |p| > 0 {
      SplitNoSeparator(p[1..], sep);
      assert [p[0]] + p[1..] == p;
    }
  }

  lemma {:induction false} SplitAtSeparator(p: string, sep: char, t: string)
    requires sep !in p
    ensures Split(p + [sep] + t, sep) == [p] + Split(t, sep)
  {
    if |p| == 0 {
      assert p + [sep] + t == [sep] + t;
      assert ([sep] + t)[1..] == t;
    } else {
      SplitAtSeparator(p[1..], sep, t);
      assert (p + [sep] + t)[1..] == p[1..] + [sep] + t;
      assert [p[0]] + p[1..] == p;
    }
  }

  /** Splitting a join of separator-free pieces gives the pieces back. */
  lemma {:induction false} SplitJoin(parts: seq<string>, sep: char)
    requires |parts| > 0
    requires forall i :: 0 <= i < |parts| ==> sep !in parts[i]
    ensures Split(Join(parts, [sep]), sep) == parts
  {
    if |parts| == 1 {
      SplitNoSeparator(parts[0], sep);
    } else {
      SplitJoin(parts[1..], sep);
      SplitAtSeparator(parts[0], sep, Join(parts[1..], [sep]));
      assert [parts[0]] + parts[1..] == parts;
    }
  }

  // ---------------------------------------------------------------------------
  // Python's ordering of str values

  /** Python's `a < b` on `str`, as the interpreter computes it: code point by
      code point from the left; a proper prefix comes first. */
  predicate Below(a: string, b: string)
  {
    if |a| == 0 then |b| > 0
    else if |b| == 0 then false
    else if a[0] != b[0] then a[0] < b[0]
    else Below(a[1..], b[1..])
  }

  /** Python's `a >= b` on `str`. */
  predicate AtLeast(a: string, b: string) { !Below(a, b) }

  /** The textbook lexicographic order: `a` and `b` agree on their first `k`
      characters, and then `a` ends while `b` goes on, or `a` has the smaller
      character at position `k`. */
  ghost predicate FirstDifferenceAt(a: string, b: string, k: nat)
  {
    && k <= |a| && k <= |b| && a[..k] == b[..k]
    && ((k == |a| && k < |b|) || (k < |a| && k < |b| && a[k] < b[k]))
  }

  ghost predicate LexBelow(a: string, b: string)
  {
    exists k: nat :: FirstDifferenceAt(a, b, k)
  }

  lemma {:induction false} BelowWitness(a: string, b: string) returns (k: nat)
    requires Below(a, b)
    ensures FirstDifferenceAt(a, b, k)
  {
    if |a| == 0 || a[0] != b[0] {
      k := 0;
    } else {
      var k' := BelowWitness(a[1..], b[1..]);
      k := k' + 1;
      assert a[..k] == [a[0]] + a[1..][..k'];
      assert b[..k] == [b[0]] + b[1..][..k'];
    }
  }

  lemma {:induction false} BelowFromWitness(a: string, b: string, k: nat)
    requires FirstDifferenceAt(a, b, k)
    ensures Below(a, b)
  {
    if k > 0 {
      assert a[0] == a[..k][0] == b[..k][0] == b[0];
      assert a[1..][..k - 1] == a[..k][1..];
      assert b[1..][..k - 1] == b[..k][1..];
      BelowFromWitness(a[1..], b[1..], k - 1);
    }
  }

  /** Python's `<` on `str` is exactly the lexicographic order. */
  lemma BelowIsLexicographic(a: string, b: string)
    ensures Below(a, b) <==> LexBelow(a, b)
  {
    if Below(a, b) {
      var k := BelowWitness(a, b);
    }
    if LexBelow(a, b) {
      var k: nat :| FirstDifferenceAt(a, b, k);
      BelowFromWitness(a, b, k);
    }
  }

  /** `<` on `str` is a strict order ... */
  lemma {:induction false} BelowIsStrict(a: string, b: string)
    ensures !Below(a, a)
    ensures !(Below(a, b) && Below(b, a))
  {
    if |a| > 0 && |b| > 0 && a[0] == b[0] {
      BelowIsStrict(a[1..], b[1..]);
    }
    if |a| > 0 {
      BelowIsStrict(a[1..], a[1..]);
    }
  }

  lemma {:induction false} BelowIsTransitive(a: string, b: string, c: string)
    requires Below(a, b) && Below(b, c)
    ensures Below(a, c)
  {
    if |a| > 0 && a[0] == b[0] && b[0] == c[0] {
      BelowIsTransitive(a[1..], b[1..], c[1..]);
    }
  }

  /** ... and total: two different strings are always ordered one way. */
  lemma {:induction false} BelowIsTotal(a: string, b: string)
    ensures a == b || Below(a, b) || Below(b, a)
  {
    if |a| > 0 && |b| > 0 && a[0] == b[0] {
      BelowIsTotal(a[1..], b[1..]);
      if a[1..] == b[1..] {
        assert a == [a[0]] + a[1..] && b == [b[0]] + b[1..];
      }
    }
  }

  /** Python's `a >= b` on `str` holds exactly when `a` equals `b` or comes
      after it in the lexicographic order. */
  lemma AtLeastIsLexicographic(a: string, b: string)
    ensures AtLeast(a, b) <==> a == b || LexBelow(b, a)
  {
    BelowIsStrict(a, b);
    BelowIsTotal(a, b);
    BelowIsLexicographic(b, a);
  }

  /** Comparing two strings that start with pieces of the same length compares
      those pieces first, and the rest only when the pieces agree. */
  lemma {:induction false} BelowConcat(x: string, s: string, y: string, t: string)
    requires |x| == |y|
    ensures Below(x + s, y + t) <==> Below(x, y) || (x == y && Below(s, t))
  {
    if |x| == 0 {
      assert x + s == s && y + t == t;
    } else {
      assert (x + s)[1..] == x[1..] + s;
      assert (y + t)[1..] == y[1..] + t;
      BelowConcat(x[1..], s, y[1..], t);
      BelowIsStrict(x, y);
      if x[0] == y[0] && x[1..] == y[1..] {
        assert x == [x[0]] + x[1..] && y == [y[0]] + y[1..];
      }
    }
  }

  // ---------------------------------------------------------------------------
  // Decimal numerals: `str(n)` and `int(s)`

  function DigitChar(d: nat): char
    requires d < 10
  {
    ('0' as int + d) as char
  }

  function DigitValue(c: char): nat
    requires IsDigit(c)
  {
    c as int - '0' as int
  }

  function Pow10(n: nat): nat
  {
    if n == 0 then 1 else 10 * Pow10(n - 1)
  }

  /** The number a run of decimal digits denotes (leading zeros allowed). */
  function DecimalValue(s: string): nat
    requires AllDigits(s)
  {
    if |s| == 0 then 0 else 10 * DecimalValue(s[..|s| - 1]) + DigitValue(s[|s| - 1])
  }

  /** `str(n)` for a non-negative `n`: digits only, at least one, and no
      leading zero. */
  function NatToDecimal(n: nat): (s: string)
    ensures DigitRun(s)
    ensures |s| > 1 ==> s[0] != '0'
  {
    if n < 10 then [DigitChar(n)] else NatToDecimal(n / 10) + [DigitChar(n % 10)]
  }

  /** `str(i)` for any integer `i`. */
  function IntToDecimal(i: int): string
  {
    if i < 0 then "-" + NatToDecimal(-i) else NatToDecimal(i)
  }

  /** The numerals `IntToDecimal` can write: an optional "-" and a digit run.
      With `ParseInt`, this is the inverse that shows a rendered count loses
      nothing; nothing in the checks parses an integer. */
  predicate IsIntLiteral(s: string)
  {
    if |s| > 0 && s[0] == '-' then DigitRun(s[1..]) else DigitRun(s)
  }

  /** The integer a numeral denotes, read as `int(s)` would read it. */
  function ParseInt(s: string): int
    requires IsIntLiteral(s)
  {
    if |s| > 0 && s[0] == '-' then -(DecimalValue(s[1..]) as int) else DecimalValue(s)
  }

  lemma {:induction false} NatToDecimalRoundTrip(n: nat)
    ensures DecimalValue(NatToDecimal(n)) == n
  {
    if n >= 10 {
      NatToDecimalRoundTrip(n / 10);
      var s := NatToDecimal(n);
      assert s[..|s| - 1] == NatToDecimal(n / 10);
    }
  }

  /** The integers a message renders can be read back from it. */
  lemma {:induction false} IntToDecimalRoundTrip(i: int)
    ensures IsIntLiteral(IntToDecimal(i)) && ParseInt(IntToDecimal(i)) == i
  {
    var s := IntToDecimal(i);
    if i < 0 {
      var digits := NatToDecimal(-i);
      NatToDecimalRoundTrip(-i);
      assert s[0] == '-' && s[1..] == digits;
    } else {
      NatToDecimalRoundTrip(i);
      assert IsDigit(s[0]);
    }
  }

  lemma {:induction false} DecimalValueBound(s: string)
    requires AllDigits(s)
    ensures DecimalValue(s) < Pow10(|s|)
  {
    if |s| > 0 {
      DecimalValueBound(s[..|s| - 1]);
    }
  }

  /** The leading digit of a numeral weighs `10^(length of the rest)`. */
  lemma {:induction false} DecimalValueFront(s: string)
    requires |s| > 0 && AllDigits(s)
    ensures DecimalValue(s) == DigitValue(s[0]) * Pow10(|s| - 1) + DecimalValue(s[1..])
  {
    if |s| > 1 {
      var init, rest := s[..|s| - 1], s[1..];
      DecimalValueFront(init);
      assert init[1..] == rest[..|rest| - 1];
      ShiftLeadingDigit(DigitValue(s[0]), Pow10(|s| - 2), DecimalValue(init[1..]), DigitValue(s[|s| - 1]));
    }
  }

  lemma ShiftLeadingDigit(d: int, p: int, x: int, last: int)
    ensures 10 * (d * p + x) + last == d * (10 * p) + (10 * x + last)
  {
  }

  /** Digit runs of the same width compare as strings exactly as they compare
      as numbers. */
  lemma {:induction false} SameWidthDigitsCompareNumerically(a: string, b: string)
    requires AllDigits(a) && AllDigits(b) && |a| == |b|
    ensures Below(a, b) <==> DecimalValue(a) < DecimalValue(b)
  {
    if |a| > 0 {
      SameWidthDigitsCompareNumerically(a[1..], b[1..]);
      DecimalValueFront(a);
      DecimalValueFront(b);
      DecimalValueBound(a[1..]);
      DecimalValueBound(b[1..]);
      var p := Pow10(|a| - 1);
      var x, y := DigitValue(a[0]), DigitValue(b[0]);
      if x < y {
        NextMultipleAbove(x, y, p);
      } else if y < x {
        NextMultipleAbove(y, x, p);
      }
    }
  }

  lemma {:induction false} NextMultipleAbove(x: nat, y: nat, p: nat)
    requires x < y
    ensures x * p + p <= y * p
  {
    if y > x + 1 {
      NextMultipleAbove(x, y - 1, p);
      assert (y - 1) * p + p == y * p;
    } else {
      assert (x + 1) * p == x * p + p;
    }
  }

  /** Same-width digit runs are equal as strings iff they are equal as numbers. */
  lemma SameWidthDigitsEqualNumerically(a: string, b: string)
    requires AllDigits(a) && AllDigits(b) && |a| == |b|
    ensures a == b <==> DecimalValue(a) == DecimalValue(b)
  {
    SameWidthDigitsCompareNumerically(a, b);
    SameWidthDigitsCompareNumerically(b, a);
    BelowIsTotal(a, b);
  }
}
