/**
 * Points and their hash strings (src/engine/point-hash.ts).
 *
 * Every set and map of the engine is keyed by the string "row,column". This
 * module models the encoder (a template literal of two integers) and the
 * decoder (indexOf + substring + parseInt), and proves that decoding undoes
 * encoding and hence that the encoding is injective. The other modules key
 * their sets and maps by `Point` directly; the two lemmas here are what makes
 * that the same thing.
 */
module PointHash {
  import opened Wrappers

  /** A grid coordinate. The grid uses non-negative rows and columns; the hash works for any integers. */
  datatype Point = Point(row: int, column: int)

  // ---------------------------------------------------------------------------
  // Decimal notation of integers, as JavaScript prints them

  predicate IsDigit(c: char) {
    '0' <= c <= '9'
  }

  predicate AllDigits(s: string) {
    forall i :: 0 <= i < |s| ==> IsDigit(s[i])
  }

  function DigitChar(d: nat): (c: char)
    requires d < 10
    ensures IsDigit(c) && (c as int) - ('0' as int) == d
  {
    (('0' as int) + d) as char
  }

  function DigitValue(c: char): nat
    requires IsDigit(c)
  {
    (c as int) - ('0' as int)
  }

  /** Decimal digits of `n`, most significant first, without leading zeros. */
  function NatToDecimal(n: nat): (s: string)
    ensures |s| >= 1 && AllDigits(s)
    ensures s[0] == '0' ==> n == 0
  {
    if n < 10 then [DigitChar(n)] else NatToDecimal(n / 10) + [DigitChar(n % 10)]
  }

  /** How a number prints in a template literal: a minus sign, then the digits of its magnitude. */
  function IntToDecimal(n: int): (s: string)
    ensures ',' !in s
  {
    if n < 0 then "-" + NatToDecimal(-n) else NatToDecimal(n)
  }

  /** The value of a string of decimal digits (most significant first). */
  function DigitsValue(s: string): nat
    requires AllDigits(s)
  {
    if s == [] then 0 else DigitsValue(s[..|s| - 1]) * 10 + DigitValue(s[|s| - 1])
  }

  // ---------------------------------------------------------------------------
  // The string operations the decoder uses

  /** `s.indexOf(c)`: the first index of `c`, or -1. */
  function IndexOf(s: string, c: char): (i: int)
    ensures -1 <= i < |s|
    ensures i == -1 <==> c !in s
    ensures 0 <= i ==> s[i] == c && c !in s[..i]
  {
    if s == [] then -1
    else if s[0] == c then 0
    else
      var j := IndexOf(s[1..], c);
      assert s[1..][..j + 1] == s[1..j + 2] by { assert j + 2 <= |s| || j == -1; }
      if j < 0 then -1 else j + 1
  }

  function Clamp(i: int, len: nat): nat {
    if i < 0 then 0 else if i > len then len else i
  }

  /** `s.substring(from, to)`: both ends clamped into range, and swapped when reversed. */
  function Substring(s: string, from: int, to: int): (r: string)
    ensures 0 <= from <= to <= |s| ==> r == s[from..to]
  {
    var a := Clamp(from, |s|);
    var b := Clamp(to, |s|);
    if a <= b then s[a..b] else s[b..a]
  }

  /** Length of the longest prefix of `s` made of decimal digits. */
  function DigitPrefixLength(s: string): (k: nat)
    ensures k <= |s| && AllDigits(s[..k])
    ensures k < |s| ==> !IsDigit(s[k])
  {
    if s == [] || !IsDigit(s[0]) then 0
    else
      var k := DigitPrefixLength(s[1..]);
      assert s[..k + 1] == [s[0]] + s[1..][..k];
      k + 1
  }

  /**
   * `parseInt(s, 10)`: an optional sign, then the longest run of digits; the
   * rest of the string is ignored. `None` stands for NaN (no digit at all).
   */
  function ParseInt(s: string): Option<int> {
    var signed := |s| > 0 && (s[0] == '-' || s[0] == '+');
    var body := if signed then s[1..] else s;
    var k := DigitPrefixLength(body);
    if k == 0 then None
    else
      var magnitude: int := DigitsValue(body[..k]);
      Some(if signed && s[0] == '-' then -magnitude else magnitude)
  }

  // ---------------------------------------------------------------------------
  // The encoder and the decoder

  /** `toString`: the hash string "row,column". */
  function ToString(p: Point): string {
    IntToDecimal(p.row) + "," + IntToDecimal(p.column)
  }

  /** The decoded point, or `None` when a coordinate parses to NaN. */
  function Combine(row: Option<int>, column: Option<int>): Option<Point> {
    if row.Some? && column.Some? then Some(Point(row.value, column.value)) else None
  }

  /**
   * `fromString`: the text before the first comma is the row, the text after
   * it the column. Without a comma `substring(0, -1)` is empty, so the row is NaN.
   */
  function FromString(hash: string): Option<Point> {
    var commaIndex := IndexOf(hash, ',');
    Combine(ParseInt(Substring(hash, 0, commaIndex)),
            ParseInt(Substring(hash, commaIndex + 1, |hash|)))
  }

  // ---------------------------------------------------------------------------
  // Properties

  lemma {:induction false} DigitsValueOfDecimal(n: nat)
    ensures DigitsValue(NatToDecimal(n)) == n
  {
    if n >= 10 {
      var s := NatToDecimal(n);
      assert s[..|s| - 1] == NatToDecimal(n / 10);
      DigitsValueOfDecimal(n / 10);
    }
  }

  /** `parseInt` reads back every integer `IntToDecimal` prints. */
  lemma ParseIntOfDecimal(n: int)
    ensures ParseInt(IntToDecimal(n)) == Some(n)
  {
    var digits := NatToDecimal(if n < 0 then -n else n);
    var s := IntToDecimal(n);
    var body := if n < 0 then s[1..] else s;
    assert body == digits;
    assert DigitPrefixLength(body) == |body|;
    assert body[..|body|] == digits;
    DigitsValueOfDecimal(if n < 0 then -n else n);
  }

  /** `ToString(p)` holds exactly one comma: the row's digits before it, the column's after it. */
  lemma ToStringShape(p: Point)
    ensures var h := ToString(p);
            var i := |IntToDecimal(p.row)|;
            && i < |h| && IndexOf(h, ',') == i
            && h[..i] == IntToDecimal(p.row)
            && h[i + 1..] == IntToDecimal(p.column)
            && forall j :: 0 <= j < |h| ==> (h[j] == ',' <==> j == i)
  {
    var h := ToString(p);
    var r, c := IntToDecimal(p.row), IntToDecimal(p.column);
    var i := |r|;
    assert h[..i] == r;
    assert h[i + 1..] == c;
    forall j | 0 <= j < |h|
      ensures h[j] == ',' <==> j == i
    {
      if j < i { assert h[j] == r[j]; }
      else if j > i { assert h[j] == c[j - i - 1]; }
    }
  }

  /** The decoder splits at the first comma and parses each side as an integer. */
  lemma FromStringSplitsAtFirstComma(before: string, after: string)
    requires ',' !in before
    ensures FromString(before + "," + after) == Combine(ParseInt(before), ParseInt(after))
  {
    var h := before + "," + after;
    var i := |before|;
    assert h[i] == ',';
    assert h[..i] == before;
    assert IndexOf(h, ',') == i by {
      assert h[..i + 1][i] == ',';
    }
    assert Substring(h, 0, i) == before;
    assert Substring(h, i + 1, |h|) == after;
  }

  /** A string without a comma decodes to a NaN row. */
  lemma FromStringWithoutComma(hash: string)
    requires ',' !in hash
    ensures FromString(hash) == None
  {
    assert Substring(hash, 0, -1) == "";
  }

  /** Decoding undoes encoding, for every point. */
  lemma RoundTrip(p: Point)
    ensures FromString(ToString(p)) == Some(p)
  {
    FromStringSplitsAtFirstComma(IntToDecimal(p.row), IntToDecimal(p.column));
    ParseIntOfDecimal(p.row);
    ParseIntOfDecimal(p.column);
  }

  /** Distinct points have distinct hashes, so a set of hashes is a set of points. */
  lemma Injective(p: Point, q: Point)
    ensures ToString(p) == ToString(q) ==> p == q
  {
    RoundTrip(p);
    RoundTrip(q);
  }
}
