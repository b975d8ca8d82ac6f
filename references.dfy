/**
 * Cell references: `<row letters><column digits>`, with the rows numbered in
 * bijective base 26 (A = 1, ..., Z = 26, AA = 27, ...) and the columns in
 * decimal from 1.  A reference names the slot at
 * (row - 1) * columns + (column - 1) of the row-major store.
 */
module References {
  import opened Lexical

  predicate IsUpper(c: char) {
    'A' <= c <= 'Z'
  }

  predicate AllUpper(s: string) {
    forall k :: 0 <= k < |s| ==> IsUpper(s[k])
  }

  /** The position of the first decimal digit, or |s| when there is none. */
  function FirstDigit(s: string): (k: nat)
    ensures k <= |s|
    ensures k < |s| ==> IsDigit(s[k])
    ensures forall j :: 0 <= j < k ==> !IsDigit(s[j])
  {
    if s == [] then 0
    else if IsDigit(s[0]) then 0
    else 1 + FirstDigit(s[1..])
  }

  /** The whole text is `[A-Z]+[0-9]+`. */
  function IsReference(s: string): (b: bool)
    ensures b ==> |s| >= 2 && IsUpper(s[0]) && IsDigit(s[|s| - 1])
  {
    var k := FirstDigit(s);
    0 < k < |s| && AllUpper(s[..k]) && AllDigits(s[k..])
  }

  /** The row letters of a reference: everything before the first digit. */
  function RowLetters(s: string): string
    requires IsReference(s)
  {
    s[..FirstDigit(s)]
  }

  /** The column digits of a reference: everything from the first digit on. */
  function ColumnDigits(s: string): string
    requires IsReference(s)
  {
    s[FirstDigit(s)..]
  }

  function LetterValue(c: char): (v: int)
    requires IsUpper(c)
    ensures 1 <= v <= 26
  {
    c as int - 'A' as int + 1
  }

  /** The bijective base-26 value of the letters, most significant first. */
  function RowOrdinal(letters: string): nat
    requires AllUpper(letters)
  {
    if letters == [] then 0
    else 26 * RowOrdinal(letters[..|letters| - 1]) + LetterValue(letters[|letters| - 1])
  }

  /** The letters whose bijective base-26 value is `n` (the inverse of RowOrdinal). */
  function RowName(n: nat): (s: string)
    ensures AllUpper(s)
    ensures n > 0 <==> |s| > 0
  {
    if n == 0 then [] else RowName((n - 1) / 26) + [('A' as int + (n - 1) % 26) as char]
  }

  /** The flat index a reference names in a store of `columns` entries per row. */
  function Decode(columns: int, s: string): int
    requires IsReference(s)
  {
    (RowOrdinal(RowLetters(s)) - 1) * columns + DigitsValue(ColumnDigits(s)) - 1
  }

  function Pow26(n: nat): (p: nat)
    ensures p >= 1
  {
    if n == 0 then 1 else 26 * Pow26(n - 1)
  }

  /** The same value read from the least significant letter up: a leading letter weighs 26^(letters after it). */
  lemma {:induction false} RowOrdinalLeading(c: char, rest: string)
    requires IsUpper(c) && AllUpper(rest)
    ensures AllUpper([c] + rest)
    ensures RowOrdinal([c] + rest) == Pow26(|rest|) * LetterValue(c) + RowOrdinal(rest)
    decreases |rest|
  {
    var s := [c] + rest;
    if rest != [] {
      var n := |rest| - 1;
      assert s[..|s| - 1] == [c] + rest[..n];
      assert s[|s| - 1] == rest[n];
      RowOrdinalLeading(c, rest[..n]);
      var p, v, o := Pow26(n), LetterValue(c), RowOrdinal(rest[..n]);
      calc {
        RowOrdinal(s);
        26 * (p * v + o) + LetterValue(rest[n]);
        { assert 26 * (p * v) == (26 * p) * v; }
        (26 * p) * v + (26 * o + LetterValue(rest[n]));
      }
    }
  }

  /** One step of the weighted sum, scaled by the row width. */
  lemma WeightedLetter(c: char, rest: string, columns: int)
    requires IsUpper(c) && AllUpper(rest)
    ensures AllUpper([c] + rest)
    ensures RowOrdinal([c] + rest) * columns
            == Pow26(|rest|) * LetterValue(c) * columns + RowOrdinal(rest) * columns
  {
    RowOrdinalLeading(c, rest);
    Spread(RowOrdinal([c] + rest), Pow26(|rest|) * LetterValue(c), RowOrdinal(rest), columns);
  }

  lemma Spread(t: int, x: int, y: int, c: int)
    requires t == x + y
    ensures t * c == x * c + y * c
  {
  }

  lemma {:induction false} RowNameRoundTrip(n: nat)
    ensures RowOrdinal(RowName(n)) == n
  {
    if n > 0 {
      var s := RowName(n);
      assert s[..|s| - 1] == RowName((n - 1) / 26);
      RowNameRoundTrip((n - 1) / 26);
    }
  }

  lemma {:induction false} RowOrdinalRoundTrip(letters: string)
    requires AllUpper(letters)
    ensures RowName(RowOrdinal(letters)) == letters
  {
    if letters != [] {
      var prefix := letters[..|letters| - 1];
      var last := letters[|letters| - 1];
      var o := RowOrdinal(prefix);
      var v := LetterValue(last);
      var n := RowOrdinal(letters);
      assert n - 1 == 26 * o + (v - 1);
      assert (n - 1) / 26 == o && (n - 1) % 26 == v - 1;
      RowOrdinalRoundTrip(prefix);
      assert letters == prefix + [last];
    }
  }

  /** Different row letters never name the same row. */
  lemma RowOrdinalInjective(a: string, b: string)
    requires AllUpper(a) && AllUpper(b)
    requires RowOrdinal(a) == RowOrdinal(b)
    ensures a == b
  {
    RowOrdinalRoundTrip(a);
    RowOrdinalRoundTrip(b);
  }

  /** A reference is split at its first digit, and decodes by the row-major formula. */
  lemma DecodeLayout(columns: int, letters: string, digits: string)
    requires |letters| > 0 && AllUpper(letters) && IsDigits(digits)
    ensures IsReference(letters + digits)
    ensures RowLetters(letters + digits) == letters && ColumnDigits(letters + digits) == digits
    ensures Decode(columns, letters + digits)
            == (RowOrdinal(letters) - 1) * columns + DigitsValue(digits) - 1
  {
    LayoutSplit(letters, digits);
  }

  lemma LayoutSplit(letters: string, digits: string)
    requires AllUpper(letters) && IsDigits(digits)
    ensures FirstDigit(letters + digits) == |letters|
    ensures (letters + digits)[..|letters|] == letters && (letters + digits)[|letters|..] == digits
  {
    FirstDigitAfterLetters(letters, digits);
  }

  lemma {:induction false} FirstDigitAfterLetters(letters: string, digits: string)
    requires AllUpper(letters) && IsDigits(digits)
    ensures FirstDigit(letters + digits) == |letters|
    decreases |letters|
  {
    if letters != [] {
      assert (letters + digits)[1..] == letters[1..] + digits;
      assert !IsDigit(letters[0]);
      FirstDigitAfterLetters(letters[1..], digits);
    } else {
      assert letters + digits == digits && IsDigit(digits[0]);
    }
  }

  lemma LetterOrdinals()
    ensures AllUpper("A") && RowOrdinal("A") == 1
    ensures AllUpper("B") && RowOrdinal("B") == 2
    ensures AllUpper("C") && RowOrdinal("C") == 3
  {
    assert "A"[..0] == "" && "B"[..0] == "" && "C"[..0] == "";
  }

  /** A1 is slot 0 and B1 the first slot of the second row. */
  lemma DecodeFirstColumn(columns: int)
    ensures IsReference("A1") && Decode(columns, "A1") == 0
    ensures IsReference("B1") && Decode(columns, "B1") == columns
  {
    assert "A1" == "A" + "1" && "B1" == "B" + "1";
    assert IsDigits("1") && DigitsValue("1") == 1 by { assert "1"[..0] == ""; }
    LetterOrdinals();
    DecodeLayout(columns, "A", "1");
    DecodeLayout(columns, "B", "1");
  }

  /** C1 is the first slot of the third row. */
  lemma DecodeThirdRow(columns: int)
    ensures IsReference("C1") && Decode(columns, "C1") == 2 * columns
  {
    assert "C1" == "C" + "1";
    assert IsDigits("1") && DigitsValue("1") == 1 by { assert "1"[..0] == ""; }
    LetterOrdinals();
    DecodeLayout(columns, "C", "1");
  }

  /** A<columns> is the last slot of the first row. */
  lemma DecodeRowEnd(columns: nat)
    requires columns >= 1
    ensures IsReference("A" + ShowNat(columns)) && Decode(columns, "A" + ShowNat(columns)) == columns - 1
  {
    LetterOrdinals();
    DecodeLayout(columns, "A", ShowNat(columns));
    ShowNatRoundTrip(columns);
  }

  /**
   * A column number past the end of a row is not rejected: it names a slot of
   * a following row, column `columns + c` of one row being column `c` of the
   * next (whose letters RowName(RowOrdinal(letters) + 1) spells, by
   * RowNameRoundTrip), whatever digits spell the two column numbers.
   */
  lemma ColumnOverflowAliases(columns: nat, letters: string, next: string, wide: string, narrow: string)
    requires columns >= 1
    requires |letters| > 0 && AllUpper(letters) && |next| > 0 && AllUpper(next)
    requires RowOrdinal(next) == RowOrdinal(letters) + 1
    requires IsDigits(wide) && IsDigits(narrow) && DigitsValue(wide) == columns + DigitsValue(narrow)
    ensures IsReference(letters + wide) && IsReference(next + narrow)
    ensures Decode(columns, letters + wide) == Decode(columns, next + narrow)
  {
    DecodeLayout(columns, letters, wide);
    DecodeLayout(columns, next, narrow);
    NextRow(columns, letters, next);
  }

  /** The row after a row starts one row width further on. */
  lemma NextRow(columns: int, letters: string, next: string)
    requires AllUpper(letters) && AllUpper(next) && RowOrdinal(next) == RowOrdinal(letters) + 1
    ensures (RowOrdinal(next) - 1) * columns == (RowOrdinal(letters) - 1) * columns + columns
  {
    Distribute(RowOrdinal(letters) - 1, columns);
  }

  lemma Distribute(y: int, c: int)
    ensures (y + 1) * c == y * c + c
  {
  }

  /**
   * Within the grid's width, decoding is injective: two references that name
   * the same slot have the same row letters and the same column number.
   */
  lemma DecodeInjective(columns: int, s: string, t: string)
    requires columns >= 1 && IsReference(s) && IsReference(t)
    requires 1 <= DigitsValue(ColumnDigits(s)) <= columns
    requires 1 <= DigitsValue(ColumnDigits(t)) <= columns
    requires Decode(columns, s) == Decode(columns, t)
    ensures RowLetters(s) == RowLetters(t)
    ensures DigitsValue(ColumnDigits(s)) == DigitsValue(ColumnDigits(t))
  {
    var rs, rt := RowOrdinal(RowLetters(s)) - 1, RowOrdinal(RowLetters(t)) - 1;
    var cs, ct := DigitsValue(ColumnDigits(s)) - 1, DigitsValue(ColumnDigits(t)) - 1;
    assert rs * columns + cs == rt * columns + ct;
    SameQuotient(columns, rs, cs, rt, ct);
    RowOrdinalInjective(RowLetters(s), RowLetters(t));
  }

  lemma SameQuotient(n: int, q1: int, r1: int, q2: int, r2: int)
    requires n >= 1 && 0 <= r1 < n && 0 <= r2 < n
    requires q1 * n + r1 == q2 * n + r2
    ensures q1 == q2 && r1 == r2
  {
    var d := q1 - q2;
    assert d * n == q1 * n - q2 * n;
    assert d * n == r2 - r1;
    if d >= 1 {
      AtLeastOnce(d, n);
    } else if d <= -1 {
      assert (-d) * n == -(d * n);
      AtLeastOnce(-d, n);
    }
  }

  lemma AtLeastOnce(d: int, n: int)
    requires d >= 1 && n >= 1
    ensures d * n >= n
  {
    assert d * n == (d - 1) * n + n;
    assert (d - 1) * n >= 0;
  }
}
