/** The dictionary-key codec of the cell grid (`cellKey` and `getXYFromKey`
    in assets/js/hooks/three_scene.js), together with the three pieces of
    JavaScript it relies on: an integer printed inside a template literal,
    `String.prototype.split` on a one-character separator, and `parseInt`. */
module KeyCodec {

  /** A JavaScript number as `parseInt` produces it: an integer, or NaN when
      the text holds no digit where one is expected. */
  datatype JsInt = Int(value: int) | NaN

  /** The object `{ x, y }` returned by `getXYFromKey`. */
  datatype XY = XY(x: JsInt, y: JsInt)

  /** The delimiter between the two coordinates of a key. */
  const Separator: char := ','

  predicate IsDigit(c: char) {
    '0' <= c <= '9'
  }

  predicate AllDigits(s: string) {
    forall i :: 0 <= i < |s| ==> IsDigit(s[i])
  }

  function DigitValue(c: char): nat
    requires IsDigit(c)
  {
    c as int - '0' as int
  }

  function DigitChar(d: nat): (c: char)
    requires d < 10
    ensures IsDigit(c) && DigitValue(c) == d
  {
    ('0' as int + d) as char
  }

  // ---- number to text ----

  /** The decimal numeral of a non-negative integer, most significant digit
      first, without leading zeros. */
  function NatToDecimal(n: nat): (s: string)
    ensures |s| >= 1 && AllDigits(s)
    ensures |s| > 1 ==> s[0] != '0'
    decreases n
  {
    if n < 10 then [DigitChar(n)] else NatToDecimal(n / 10) + [DigitChar(n % 10)]
  }

  /** How JavaScript prints an integer-valued number in `${n}`: its decimal
      numeral, preceded by '-' when it is negative. */
  function IntToDecimal(n: int): (s: string)
    ensures |s| >= 1 && Separator !in s
    ensures (n < 0) == (s[0] == '-')
  {
    if n < 0 then "-" + NatToDecimal(-n) else NatToDecimal(n)
  }

  /** `cellKey(x, y)`: the template string "x,y". */
  function CellKey(x: int, y: int): string
  {
    IntToDecimal(x) + [Separator] + IntToDecimal(y)
  }

  // ---- text splitting ----

  /** `s.split(sep)` for a one-character separator: the maximal runs between
      separators, in order, including empty runs at either end. */
  function Split(s: string, sep: char): (parts: seq<string>)
    ensures |parts| >= 1
    ensures forall i :: 0 <= i < |parts| ==> sep !in parts[i]
  {
    if s == [] then [""]
    else
      var rest := Split(s[1..], sep);
      if s[0] == sep then [""] + rest
      else [[s[0]] + rest[0]] + rest[1..]
  }

  /** The inverse of Split: the parts glued back together with the separator. */
  function Join(parts: seq<string>, sep: char): string
    requires |parts| >= 1
  {
    if |parts| == 1 then parts[0] else parts[0] + [sep] + Join(parts[1..], sep)
  }

  lemma {:induction false} JoinSplit(s: string, sep: char)
    ensures Join(Split(s, sep), sep) == s
  {
    if s != [] {
      var rest := Split(s[1..], sep);
      JoinSplit(s[1..], sep);
      if s[0] == sep {
        assert Split(s, sep)[1..] == rest;
      } else if |rest| > 1 {
        assert Split(s, sep)[1..] == rest[1..];
        assert Join(rest, sep) == rest[0] + [sep] + Join(rest[1..], sep);
        assert [s[0]] + s[1..] == s;
      }
    }
  }

  /** Split yields a single part exactly when the separator does not occur. */
  lemma {:induction false} SplitSinglePart(s: string, sep: char)
    ensures |Split(s, sep)| == 1 <==> sep !in s
    ensures sep !in s ==> Split(s, sep) == [s]
  {
    if s != [] {
      SplitSinglePart(s[1..], sep);
      if s[0] != sep {
        assert s == [s[0]] + s[1..];
        assert sep in s <==> sep in s[1..];
      }
    }
  }

  /** Splitting at the first separator. */
  lemma {:induction false} SplitAtFirst(a: string, b: string, sep: char)
    requires sep !in a
    ensures Split(a + [sep] + b, sep) == [a] + Split(b, sep)
  {
    var s := a + [sep] + b;
    if a == [] {
      assert s[1..] == b;
    } else {
      assert s[1..] == a[1..] + [sep] + b;
      SplitAtFirst(a[1..], b, sep);
      assert [a[0]] + a[1..] == a;
    }
  }

  // ---- text to number ----

  /** The longest prefix of `s` made of decimal digits. */
  function DigitPrefix(s: string): (p: string)
    ensures p <= s && AllDigits(p)
    ensures |p| < |s| ==> !IsDigit(s[|p|])
  {
    if s == [] || !IsDigit(s[0]) then [] else [s[0]] + DigitPrefix(s[1..])
  }

  /** The value of a decimal numeral, read most significant digit first. */
  function DigitsValue(s: string): nat
    requires AllDigits(s)
  {
    if s == [] then 0 else DigitsValue(s[..|s| - 1]) * 10 + DigitValue(s[|s| - 1])
  }

  /** `parseInt(s)` on decimal text: an optional sign, then the longest run of
      digits; anything after the run is ignored, and no digit at all is NaN. */
  function ParseInt(s: string): (r: JsInt)
    ensures r.NaN? <==>
      var signed := |s| > 0 && (s[0] == '-' || s[0] == '+');
      |s| == (if signed then 1 else 0) || !IsDigit(s[if signed then 1 else 0])
  {
    var negative := |s| > 0 && s[0] == '-';
    var body := if |s| > 0 && (s[0] == '-' || s[0] == '+') then s[1..] else s;
    var digits := DigitPrefix(body);
    if digits == [] then NaN
    else if negative then Int(-(DigitsValue(digits) as int))
    else Int(DigitsValue(digits))
  }

  /** parseInt reads an optional sign and then a run of digits `d`; the
      text `t` after the run, which does not start with a digit, is ignored. */
  lemma ParseIntReadsLeadingNumber(d: string, t: string)
    requires AllDigits(d) && d != []
    requires t == [] || !IsDigit(t[0])
    ensures ParseInt(d + t) == Int(DigitsValue(d))
    ensures ParseInt("+" + d + t) == Int(DigitsValue(d))
    ensures ParseInt("-" + d + t) == Int(-(DigitsValue(d) as int))
  {
    DigitPrefixOfRun(d, t);
    ParseIntUnsigned(d + t, d);
    assert "+" + d + t == ['+'] + (d + t);
    ParseIntSigned(d + t, d, '+');
    assert "-" + d + t == ['-'] + (d + t);
    ParseIntSigned(d + t, d, '-');
  }

  lemma ParseIntUnsigned(body: string, d: string)
    requires AllDigits(d) && d != [] && DigitPrefix(body) == d
    ensures ParseInt(body) == Int(DigitsValue(d))
  {
    assert body[0] == d[0];
  }

  lemma ParseIntSigned(body: string, d: string, sign: char)
    requires AllDigits(d) && d != [] && DigitPrefix(body) == d
    requires sign == '+' || sign == '-'
    ensures ParseInt([sign] + body) == Int(if sign == '-' then -(DigitsValue(d) as int) else DigitsValue(d))
  {
    assert ([sign] + body)[1..] == body;
  }

  /** The digit prefix of a digit run followed by a non-digit is the run. */
  lemma {:induction false} DigitPrefixOfRun(d: string, t: string)
    requires AllDigits(d)
    requires t == [] || !IsDigit(t[0])
    ensures DigitPrefix(d + t) == d
  {
    if d != [] {
      assert (d + t)[1..] == d[1..] + t;
      DigitPrefixOfRun(d[1..], t);
    }
  }

  lemma {:induction false} DecimalValue(n: nat)
    ensures DigitsValue(NatToDecimal(n)) == n
  {
    if n >= 10 {
      var s := NatToDecimal(n);
      assert s[..|s| - 1] == NatToDecimal(n / 10);
      DecimalValue(n / 10);
    }
  }

  lemma DigitPrefixOfDigits(s: string)
    requires AllDigits(s)
    ensures DigitPrefix(s) == s
  {
    var p := DigitPrefix(s);
    assert |p| == |s|;
  }

  /** parseInt reads back exactly the integer that the template literal printed. */
  lemma ParseIntOfDecimal(n: int)
    ensures ParseInt(IntToDecimal(n)) == Int(n)
  {
    var s := IntToDecimal(n);
    if n < 0 {
      var digits := NatToDecimal(-n);
      assert s[1..] == digits;
      DigitPrefixOfDigits(digits);
      DecimalValue(-n);
    } else {
      var digits := NatToDecimal(n);
      assert IsDigit(s[0]);
      DigitPrefixOfDigits(digits);
      DecimalValue(n);
    }
  }

  // ---- the codec ----

  /** `getXYFromKey(key)`: split on ','; fewer than two parts decode to
      (0, 0), otherwise the first two parts go through parseInt. */
  function GetXYFromKey(key: string): XY
  {
    var pos := Split(key, Separator);
    if |pos| < 2 then XY(Int(0), Int(0)) else XY(ParseInt(pos[0]), ParseInt(pos[1]))
  }

  /** A key both of whose decoded coordinates are numbers (not NaN). */
  predicate DecodesToNumbers(key: string) {
    GetXYFromKey(key).x.Int? && GetXYFromKey(key).y.Int?
  }

  /** Round trip: decoding a key made by CellKey gives its coordinates back,
      for every integer pair (negative ones included). */
  lemma CodecRoundTrip(x: int, y: int)
    ensures Split(CellKey(x, y), Separator) == [IntToDecimal(x), IntToDecimal(y)]
    ensures GetXYFromKey(CellKey(x, y)) == XY(Int(x), Int(y))
  {
    SplitAtFirst(IntToDecimal(x), IntToDecimal(y), Separator);
    SplitSinglePart(IntToDecimal(y), Separator);
    ParseIntOfDecimal(x);
    ParseIntOfDecimal(y);
  }

  /** Distinct coordinates get distinct keys. */
  lemma CellKeyInjective(x1: int, y1: int, x2: int, y2: int)
    ensures CellKey(x1, y1) == CellKey(x2, y2) <==> x1 == x2 && y1 == y2
  {
    CodecRoundTrip(x1, y1);
    CodecRoundTrip(x2, y2);
  }

  /** The permissive fallback: a key splits into fewer than two parts exactly
      when it has no ',', and such a key decodes to (0, 0). */
  lemma DecodeFallback(key: string)
    ensures |Split(key, Separator)| < 2 <==> Separator !in key
    ensures Separator !in key ==> GetXYFromKey(key) == XY(Int(0), Int(0))
  {
    SplitSinglePart(key, Separator);
  }

  /** Parts after the second are ignored. */
  lemma DecodeIgnoresExtraParts(a: string, b: string, rest: string)
    requires Separator !in a && Separator !in b
    ensures GetXYFromKey(a + [Separator] + b + [Separator] + rest) == GetXYFromKey(a + [Separator] + b)
    ensures GetXYFromKey(a + [Separator] + b) == XY(ParseInt(a), ParseInt(b))
  {
    assert a + [Separator] + b + [Separator] + rest == a + [Separator] + (b + [Separator] + rest);
    SplitAtFirst(a, b + [Separator] + rest, Separator);
    SplitAtFirst(b, rest, Separator);
    SplitAtFirst(a, b, Separator);
    SplitSinglePart(b, Separator);
  }

  /** Two keys that are not cell keys: one with no ',' falls back to (0, 0),
      one with two empty parts decodes to a pair of NaNs. */
  lemma DecodeMalformedKeys()
    ensures GetXYFromKey("bad-key") == XY(Int(0), Int(0))
    ensures GetXYFromKey(",") == XY(NaN, NaN)
  {
    DecodeFallback("bad-key");
    SplitAtFirst("", "", Separator);
  }
}
