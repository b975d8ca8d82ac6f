/**
 * The text-level building blocks the engine takes from the Java library:
 * splitting on a single space (String.split(" ")), Integer.parseInt on
 * decimal text, and two of the token classes the engine recognises with
 * regular expressions (number literal, operator; references are in module
 * References).  Each is written as a plain function on characters.
 * Splitting, parsing and the number class come with an inverse or a round
 * trip; the operator class is split into its binary and unary operators.
 */
module Lexical {

  datatype Option<T> = None | Some(value: T)

  predicate IsDigit(c: char) {
    '0' <= c <= '9'
  }

  predicate AllDigits(s: string) {
    forall k :: 0 <= k < |s| ==> IsDigit(s[k])
  }

  /** One or more decimal digits: `[0-9]+`. */
  predicate IsDigits(s: string) {
    |s| > 0 && AllDigits(s)
  }

  /** The value of a run of decimal digits, most significant first. */
  function DigitsValue(s: string): nat
    requires AllDigits(s)
  {
    if s == [] then 0 else 10 * DigitsValue(s[..|s| - 1]) + (s[|s| - 1] as int - '0' as int)
  }

  function DigitChar(d: nat): (c: char)
    requires d < 10
    ensures IsDigit(c) && c as int - '0' as int == d
  {
    ('0' as int + d) as char
  }

  /** The decimal digits of `n`, without leading zeros. */
  function ShowNat(n: nat): (s: string)
    ensures IsDigits(s)
  {
    if n < 10 then [DigitChar(n)] else ShowNat(n / 10) + [DigitChar(n % 10)]
  }

  lemma {:induction false} ShowNatRoundTrip(n: nat)
    ensures DigitsValue(ShowNat(n)) == n
  {
    if n >= 10 {
      var s := ShowNat(n);
      assert s[..|s| - 1] == ShowNat(n / 10);
      ShowNatRoundTrip(n / 10);
    }
  }

  // ---------------------------------------------------------------------
  // Integer.parseInt

  const MinInt: int := -0x8000_0000
  const MaxInt: int := 0x7fff_ffff

  /** The text after an optional leading '+' or '-'. */
  function Unsigned(s: string): (u: string)
    ensures |u| <= |s|
  {
    if |s| > 0 && (s[0] == '+' || s[0] == '-') then s[1..] else s
  }

  predicate IsNegative(s: string) {
    |s| > 0 && s[0] == '-'
  }

  /**
   * Integer.parseInt on ASCII text: an optional sign and one or more digits
   * whose value fits in 32 bits; anything else is the NumberFormatException.
   */
  function ParseInt(s: string): (r: Option<int>)
    ensures r.Some? ==> MinInt <= r.value <= MaxInt && IsDigits(Unsigned(s))
    ensures r.Some? && r.value < 0 ==> IsNegative(s)
  {
    var u := Unsigned(s);
    if !IsDigits(u) then None
    else
      var n: int := if IsNegative(s) then 0 - DigitsValue(u) as int else DigitsValue(u);
      if MinInt <= n <= MaxInt then Some(n) else None
  }

  /** Integer.toString: a '-' for negative numbers, then the digits. */
  function ShowInt(n: int): string {
    if n < 0 then "-" + ShowNat(-n) else ShowNat(n)
  }

  lemma ParseShowInt(n: int)
    requires MinInt <= n <= MaxInt
    ensures ParseInt(ShowInt(n)) == Some(n)
  {
    var m: nat := if n < 0 then -n else n;
    var d := ShowNat(m);
    ShowNatRoundTrip(m);
    if n < 0 {
      assert ShowInt(n) == "-" + d && ("-" + d)[1..] == d;
      assert Unsigned(ShowInt(n)) == d && IsNegative(ShowInt(n));
    } else {
      assert IsDigit(d[0]);
      assert ShowInt(n) == d && Unsigned(d) == d && !IsNegative(d);
    }
  }

  // ---------------------------------------------------------------------
  // String.split(" ")

  /** The pieces of `s` between single spaces, empty ones included. */
  function Fields(s: string): (r: seq<string>)
    ensures |r| >= 1
    ensures forall j :: 0 <= j < |r| ==> ' ' !in r[j] && |r[j]| <= |s|
    ensures ' ' !in s ==> r == [s]
    ensures ' ' in s ==> forall j :: 0 <= j < |r| ==> |r[j]| < |s|
  {
    if s == [] then [[]]
    else
      var rest := Fields(s[1..]);
      assert s == [s[0]] + s[1..];
      if s[0] == ' ' then [[]] + rest
      else [[s[0]] + rest[0]] + rest[1..]
  }

  /** Drops the empty strings at the end of a list of fields. */
  function DropTrailingEmpty(r: seq<string>): (q: seq<string>)
    ensures |q| <= |r| && q == r[..|q|]
    ensures q == [] || q[|q| - 1] != []
  {
    if r != [] && r[|r| - 1] == [] then DropTrailingEmpty(r[..|r| - 1]) else r
  }

  /**
   * String.split(" "): the whole text when it holds no space, otherwise its
   * fields with the trailing empty ones removed.  Every token is free of
   * spaces, and a token that is not the whole text is strictly shorter.
   */
  function Split(s: string): (r: seq<string>)
    ensures forall j :: 0 <= j < |r| ==> ' ' !in r[j]
    ensures forall j :: 0 <= j < |r| ==> r[j] == s || |r[j]| < |s|
    ensures ' ' !in s ==> r == [s]
  {
    if ' ' !in s then [s]
    else
      var f := Fields(s);
      var q := DropTrailingEmpty(f);
      q
  }

  /** The tokens written one after another with one space between them. */
  function Join(ts: seq<string>): string {
    if |ts| == 0 then ""
    else if |ts| == 1 then ts[0]
    else ts[0] + " " + Join(ts[1..])
  }

  lemma JoinPair(a: string, b: string)
    ensures Join([a, b]) == a + " " + b
  {
    assert [a, b][1..] == [b];
  }

  lemma JoinTriple(a: string, b: string, c: string)
    ensures Join([a, b, c]) == a + " " + (b + " " + c)
  {
    assert [a, b, c][1..] == [b, c];
    JoinPair(b, c);
  }

  lemma {:induction false} FieldsAfterWord(a: string, b: string)
    requires ' ' !in a
    ensures Fields(a + " " + b) == [a] + Fields(b)
  {
    if a == [] {
      assert (a + " " + b)[1..] == b;
    } else {
      assert (a + " " + b)[1..] == a[1..] + " " + b;
      FieldsAfterWord(a[1..], b);
      assert [a[0]] + a[1..] == a;
    }
  }

  lemma {:induction false} FieldsJoin(ts: seq<string>)
    requires |ts| >= 1
    requires forall j :: 0 <= j < |ts| ==> ' ' !in ts[j]
    ensures Fields(Join(ts)) == ts
  {
    if |ts| > 1 {
      FieldsJoin(ts[1..]);
      FieldsAfterWord(ts[0], Join(ts[1..]));
    }
  }

  /** Splitting undoes joining for non-empty tokens free of spaces. */
  lemma SplitJoin(ts: seq<string>)
    requires |ts| >= 1
    requires forall j :: 0 <= j < |ts| ==> ' ' !in ts[j] && ts[j] != []
    ensures Split(Join(ts)) == ts
  {
    if |ts| > 1 {
      FieldsJoin(ts);
      assert ' ' in Join(ts) by {
        assert Join(ts) == ts[0] + " " + Join(ts[1..]);
        assert Join(ts)[|ts[0]|] == ' ';
      }
    }
  }

  // ---------------------------------------------------------------------
  // Token classes

  /**
   * The operators of the postfix language: `[\+\-\/\*]|[\+]{2}|[\-]{2}`,
   * one of four single characters or a doubled `+` or `-`.
   */
  function IsOperator(t: string): (b: bool)
    ensures b ==> 1 <= |t| <= 2 && !IsDigit(t[0]) && ' ' !in t
  {
    t == "+" || t == "-" || t == "*" || t == "/" || t == "++" || t == "--"
  }

  /** The position of the first `c` in `s`, or |s| when there is none. */
  function IndexOf(s: string, c: char): (k: nat)
    ensures k <= |s|
    ensures k < |s| ==> s[k] == c
    ensures c !in s[..k]
  {
    if s == [] then 0
    else if s[0] == c then 0
    else
      var k := 1 + IndexOf(s[1..], c);
      assert s[..k] == [s[0]] + s[1..][..k - 1];
      k
  }

  /** An unsigned decimal: digits, optionally followed by '.' and more digits. */
  predicate IsDecimal(u: string) {
    var k := IndexOf(u, '.');
    if k < |u| then IsDigits(u[..k]) && IsDigits(u[k + 1..]) else IsDigits(u)
  }

  /** A number literal: an optional sign and an unsigned decimal. */
  function IsLiteral(s: string): (b: bool)
    ensures b ==> |s| > 0 && IsDigit(s[|s| - 1])
  {
    IsDecimal(Unsigned(s))
  }

  function Pow10(n: nat): (p: nat)
    ensures p >= 1
  {
    if n == 0 then 1 else 10 * Pow10(n - 1)
  }

  function DecimalValue(u: string): (v: real)
    requires IsDecimal(u)
    ensures v >= 0.0
  {
    var k := IndexOf(u, '.');
    if k < |u| then
      var fraction := DigitsValue(u[k + 1..]) as real;
      var scale := Pow10(|u| - k - 1) as real;
      NonNegativeQuotient(fraction, scale);
      DigitsValue(u[..k]) as real + fraction / scale
    else DigitsValue(u) as real
  }

  lemma NonNegativeQuotient(x: real, y: real)
    requires x >= 0.0 && y > 0.0
    ensures x / y >= 0.0
  {
  }

  /** The exact value of a number literal (Double.parseDouble without rounding). */
  function LiteralValue(s: string): (r: real)
    requires IsLiteral(s)
    ensures IsNegative(s) ==> r <= 0.0
    ensures !IsNegative(s) ==> r >= 0.0
  {
    if IsNegative(s) then -DecimalValue(Unsigned(s)) else DecimalValue(Unsigned(s))
  }

  /** Every integer, written out, is a literal with that value. */
  lemma ShowIntLiteral(n: int)
    ensures IsLiteral(ShowInt(n)) && LiteralValue(ShowInt(n)) == n as real
  {
    var m: nat := if n < 0 then -n else n;
    var d := ShowNat(m);
    assert Unsigned(ShowInt(n)) == d;
    assert '.' !in d by {
      forall j | 0 <= j < |d| ensures d[j] != '.' { assert IsDigit(d[j]); }
    }
    ShowNatRoundTrip(m);
  }

  // ---------------------------------------------------------------------
  // The number pattern as the source writes it

  /** Java's `.` outside a character class: any character but a line terminator. */
  predicate IsLineTerminator(c: char) {
    c == '\n' || c == '\r' || c == '\U{85}' || c == '\U{2028}' || c == '\U{2029}'
  }

  /** `([0-9]+.)?[0-9]+` with the dot left unescaped. */
  predicate LooseDecimal(u: string) {
    IsDigits(u) ||
    exists k :: 0 < k < |u| - 1 && IsDigits(u[..k]) && !IsLineTerminator(u[k]) && IsDigits(u[k + 1..])
  }

  /** `[+-]?([0-9]+.)?[0-9]+`, the number pattern exactly as written. */
  predicate LooseLiteral(s: string) {
    LooseDecimal(Unsigned(s))
  }

  /**
   * The as-written pattern admits texts with any separator: `1x5`, which is
   * no number at all, the two numerals `3 4`, and the exponent form `1e5`.
   * None of them is an intended literal.
   */
  lemma LooseLiteralAdmitsNonNumber()
    ensures LooseLiteral("1x5") && !IsLiteral("1x5")
    ensures LooseLiteral("3 4") && !IsLiteral("3 4")
    ensures LooseLiteral("1e5") && !IsLiteral("1e5")
  {
    assert "1x5" == "1" + ['x'] + "5" && "3 4" == "3" + [' '] + "4" && "1e5" == "1" + ['e'] + "5";
    SeparatedDigits("1", 'x', "5");
    SeparatedDigits("3", ' ', "4");
    SeparatedDigits("1", 'e', "5");
  }

  /**
   * Digits, one non-digit `c` and digits: the as-written pattern accepts the
   * text exactly when `c` is no line terminator, and the intended pattern
   * exactly when `c` is a dot.  So the two disagree exactly when `c` is
   * neither a dot nor a line terminator.
   */
  lemma SeparatedDigits(p: string, c: char, q: string)
    requires IsDigits(p) && IsDigits(q) && !IsDigit(c)
    ensures LooseLiteral(p + [c] + q) <==> !IsLineTerminator(c)
    ensures IsLiteral(p + [c] + q) <==> c == '.'
  {
    var s := p + [c] + q;
    var n := |p|;
    assert s[0] == p[0] && Unsigned(s) == s;
    assert s[..n] == p && s[n] == c && s[n + 1..] == q;
    assert forall j :: 0 <= j < |s| && j != n ==> IsDigit(s[j]);
    if LooseDecimal(s) {
      assert !IsDigit(s[n]);
      var k :| 0 < k < |s| - 1 && IsDigits(s[..k]) && !IsLineTerminator(s[k]) && IsDigits(s[k + 1..]);
      OnlySeparator(s, n, k);
    }
    assert c != '.' ==> forall j :: 0 <= j < |s| ==> s[j] != '.';
  }

  /** In digits with one non-digit at `n`, a split around a non-digit can only be at `n`. */
  lemma OnlySeparator(s: string, n: int, k: int)
    requires 0 <= n < |s| && !IsDigit(s[n])
    requires 0 < k < |s| - 1 && IsDigits(s[..k]) && IsDigits(s[k + 1..])
    ensures k == n
  {
  }

  /**
   * The intended pattern is the as-written one with its separator restricted
   * to a literal '.': an unsigned decimal is exactly a loose decimal whose
   * only non-digits are dots.
   */
  lemma DecimalIsDottedLooseDecimal(u: string)
    ensures IsDecimal(u) <==>
            LooseDecimal(u) && forall j :: 0 <= j < |u| && !IsDigit(u[j]) ==> u[j] == '.'
  {
    var k := IndexOf(u, '.');
    if IsDecimal(u) {
      if k < |u| {
        assert u[..k] + [u[k]] + u[k + 1..] == u;
        assert forall j :: 0 <= j < |u| && j != k ==> IsDigit(u[j]) by {
          forall j | 0 <= j < |u| && j != k ensures IsDigit(u[j]) {
            if j < k { assert u[j] == u[..k][j]; } else { assert u[j] == u[k + 1..][j - k - 1]; }
          }
        }
      }
    }
    if LooseDecimal(u) && forall j :: 0 <= j < |u| && !IsDigit(u[j]) ==> u[j] == '.' {
      if !IsDigits(u) {
        var m :| 0 < m < |u| - 1 && IsDigits(u[..m]) && !IsLineTerminator(u[m]) && IsDigits(u[m + 1..]);
        assert u[m] == '.' by {
          if IsDigit(u[m]) {
            assert AllDigits(u) by {
              forall j | 0 <= j < |u| ensures IsDigit(u[j]) {
                if j < m { assert u[j] == u[..m][j]; }
                else if j > m { assert u[j] == u[m + 1..][j - m - 1]; }
              }
            }
          }
        }
        assert k == m by {
          assert '.' !in u[..m] by {
            forall j | 0 <= j < m ensures u[..m][j] != '.' { assert IsDigit(u[..m][j]); }
          }
        }
      } else {
        assert forall j :: 0 <= j < |u| ==> u[j] != '.';
      }
    }
  }
}
