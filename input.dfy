/**
 * Reading the input lines: the first line is "<columns> <rows>", every other
 * line is the source text of one slot, in row-major order.  The product of
 * the two counts is computed in 32-bit arithmetic, as the engine does.
 */
module Input {
  import opened Cells
  import opened Lexical

  /** What the constructor makes of the first line: the status and the two counts. */
  datatype Header = Header(status: Status, columns: int, rows: int)

  /** A product as a 32-bit `int` holds it: reduced into [MinInt, MaxInt] modulo 2^32. */
  function Wrap32(x: int): (w: int)
    ensures MinInt <= w <= MaxInt
    ensures MinInt <= x <= MaxInt ==> w == x
    ensures (w - x) % 0x1_0000_0000 == 0
  {
    (x - MinInt) % 0x1_0000_0000 + MinInt
  }

  /**
   * The header check: exactly two space-separated fields, both parsed as
   * ints, and (in 32-bit arithmetic) as many entries as there are lines
   * after the first.  A column count that parses is kept even when the row
   * count does not.
   */
  function ReadHeader(input: seq<string>): (h: Header)
    ensures h.status == Ok || h.status == IsInvalidFormat
    ensures h.status == Ok <==>
            |input| > 0 && |Split(input[0])| == 2 &&
            ParseInt(Split(input[0])[0]) == Some(h.columns) &&
            ParseInt(Split(input[0])[1]) == Some(h.rows) &&
            Wrap32(h.rows * h.columns) == |input| - 1
  {
    if |input| > 0 && |Split(input[0])| == 2 then
      var fields := Split(input[0]);
      match ParseInt(fields[0])
      case None => Header(IsInvalidFormat, 0, 0)
      case Some(c) =>
        match ParseInt(fields[1])
        case None => Header(IsInvalidFormat, c, 0)
        case Some(r) =>
          if Wrap32(r * c) != |input| - 1 then Header(IsInvalidFormat, c, r)
          else Header(Ok, c, r)
    else Header(IsInvalidFormat, 0, 0)
  }

  /** An integer written out is one non-empty token without spaces. */
  lemma ShowIntToken(n: int)
    ensures ShowInt(n) != [] && ' ' !in ShowInt(n)
  {
    var m: nat := if n < 0 then -n else n;
    var d := ShowNat(m);
    assert ' ' !in d by {
      forall j | 0 <= j < |d| ensures d[j] != ' ' { assert IsDigit(d[j]); }
    }
    if n < 0 {
      assert ShowInt(n) == ['-'] + d;
    }
  }

  /**
   * A header written from two ints is read back as those two counts, and it
   * is accepted exactly when their 32-bit product is the number of lines
   * that follow.
   */
  lemma ReadHeaderOfCounts(c: int, r: int, lines: seq<string>)
    requires MinInt <= c <= MaxInt && MinInt <= r <= MaxInt
    ensures ReadHeader([ShowInt(c) + " " + ShowInt(r)] + lines)
            == Header(if Wrap32(r * c) == |lines| then Ok else IsInvalidFormat, c, r)
  {
    var ts := [ShowInt(c), ShowInt(r)];
    ShowIntToken(c);
    ShowIntToken(r);
    assert Join(ts) == ShowInt(c) + " " + ShowInt(r);
    SplitJoin(ts);
    ParseShowInt(c);
    ParseShowInt(r);
  }

  /** A first line of one field, or no input at all, is rejected with both counts 0. */
  lemma ReadHeaderOneField(t: string, lines: seq<string>)
    requires ' ' !in t
    ensures ReadHeader([t] + lines) == Header(IsInvalidFormat, 0, 0)
    ensures ReadHeader([]) == Header(IsInvalidFormat, 0, 0)
  {
  }

  /** A row count that does not parse keeps the column count that did. */
  lemma ReadHeaderBadRows(c: int, t: string, lines: seq<string>)
    requires MinInt <= c <= MaxInt
    requires t != [] && ' ' !in t && ParseInt(t).None?
    ensures ReadHeader([ShowInt(c) + " " + t] + lines) == Header(IsInvalidFormat, c, 0)
  {
    ShowIntToken(c);
    JoinPair(ShowInt(c), t);
    SplitJoin([ShowInt(c), t]);
    ParseShowInt(c);
  }

  /** `2 x`: the column count 2 is kept. */
  lemma ReadHeaderBadRowsExample()
    ensures ReadHeader(["2 x"]) == Header(IsInvalidFormat, 2, 0)
  {
    assert ShowInt(2) == "2" && "2 x" == ShowInt(2) + " " + "x" && ["2 x"] == ["2 x"] + [];
    assert ParseInt("x") == None by { assert !IsDigit('x'); }
    ReadHeaderBadRows(2, "x", []);
  }

  /** The 32-bit product wraps: 65536 by 65536 reads as a grid of no entries. */
  lemma ReadHeaderProductWraps()
    ensures ReadHeader([ShowInt(65536) + " " + ShowInt(65536)]) == Header(Ok, 65536, 65536)
  {
    assert 65536 * 65536 == 0x1_0000_0000;
    assert Wrap32(0x1_0000_0000) == 0;
    ReadHeaderOfCounts(65536, 65536, []);
  }
}
