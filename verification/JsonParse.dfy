/** The cJSON parser as functions from the remaining text to a tree and the text after it (wifi/cJSON.c:97-116,
    179-253, 324-373, 409-435, 518-551). */
module JsonParse {
  import opened Wrappers
  import opened JsonText

  type Parsed<+T> = Option<(T, string)>

  function Skip(s: string): (r: string)
    ensures |r| <= |s|
    decreases |s|
  {
    if At(s, 0) != '\0' && At(s, 0) <= ' ' then Skip(s[1..]) else s
  }

  /** All characters up to the blank are skipped, up to the first other character or the end of the text. */
  lemma {:induction false} SkipsSpace(space: string, rest: string)
    requires (forall c | c in space :: '\0' < c <= ' ') && (At(rest, 0) == '\0' || At(rest, 0) > ' ')
    ensures Skip(space + rest) == rest
  {
    if space == "" {
      assert space + rest == rest;
    } else {
      assert (space + rest)[1..] == space[1..] + rest;
      assert space[0] in space && forall c | c in space[1..] :: c in space;
      SkipsSpace(space[1..], rest);
    }
  }

  // ----- Numbers -----

  /** Folds the leading digits into `acc`; `count` counts them. */
  function TakeDigits(s: string, acc: int, count: int): (r: (int, int, string))
    ensures |r.2| <= |s| && r.1 == count + |s| - |r.2|
    decreases |s|
  {
    if IsDigit(At(s, 0)) then TakeDigits(s[1..], acc * 10 + (s[0] as int - '0' as int), count + 1)
    else (acc, count, s)
  }

  /** The integer part: an optional zero, then digits only if they start with 1 to 9. */
  function TakeInteger(s: string): (r: (int, string))
    ensures |r.1| <= |s|
  {
    var s1 := if At(s, 0) == '0' then s[1..] else s;
    if '1' <= At(s1, 0) <= '9' then var (n, _, r) := TakeDigits(s1, 0, 0); (n, r) else (0, s1)
  }

  /** A fraction is taken only when a digit follows the point; each digit lowers the scale. */
  function TakeFraction(s: string, n: int): (r: (int, int, string))
    ensures |r.2| <= |s|
  {
    if At(s, 0) == '.' && IsDigit(At(s, 1)) then
      var (n1, count, rest) := TakeDigits(s[1..], n, 0); (n1, -count, rest)
    else (n, 0, s)
  }

  function TakeExponent(s: string): (r: (int, string))
    ensures |r.1| <= |s|
  {
    if At(s, 0) == 'e' || At(s, 0) == 'E' then
      var s1 := s[1..];
      var s2 := if At(s1, 0) == '+' || At(s1, 0) == '-' then s1[1..] else s1;
      var (x, _, rest) := TakeDigits(s2, 0, 0);
      (if At(s1, 0) == '-' then -x else x, rest)
    else (0, s)
  }

  function ParseNumber(s: string): (r: (Json, string))
    ensures |r.1| <= |s|
  {
    var s1 := if At(s, 0) == '-' then s[1..] else s;
    var (n, s2) := TakeInteger(s1);
    var (n1, scale, s3) := TakeFraction(s2, n);
    var (exponent, s4) := TakeExponent(s3);
    (Number(if At(s, 0) == '-' then -n1 else n1, scale + exponent), s4)
  }

  /** Digits are folded in from the left, and all of them are taken. */
  lemma {:induction false} TakeDigitsAll(ds: string, rest: string, acc: int, count: int)
    requires forall c | c in ds :: IsDigit(c)
    ensures TakeDigits(ds + rest, acc, count) == TakeDigits(rest, acc * Pow10(|ds|) + DecimalValue(ds), count + |ds|)
    decreases |ds|
  {
    if ds == "" {
      assert ds + rest == rest;
    } else {
      var front, d := ds[..|ds| - 1], ds[|ds| - 1];
      var more := [d] + rest;
      assert ds + rest == front + more && more[1..] == rest;
      TakeDigitsAll(front, more, acc, count);
      var a := acc * Pow10(|front|) + DecimalValue(front);
      assert TakeDigits(more, a, count + |front|) == TakeDigits(rest, a * 10 + (d as int - '0' as int), count + |ds|);
    }
  }

  /** The number grammar of JSON (section 6 of RFC 8259), read as an exact decimal: a sign, an integer part without a zero in
      front of other digits, the digits `fs` of a fraction if there are any, and an exponent with the digits `es` if `mark` is
      its letter. */
  lemma NumberGrammar(minus: bool, ds: string, fs: string, mark: string, sign: string, es: string, rest: string)
    requires ds != "" && (ds[0] == '0' ==> ds == "0")
    requires forall c | c in ds || c in fs || c in es :: IsDigit(c)
    requires if mark == "" then sign == es == "" else (mark == "e" || mark == "E") && (sign == "" || sign == "+" || sign == "-")
    requires !IsDigit(At(rest, 0)) && (mark == "" ==> At(rest, 0) !in "eE" && (fs == "" ==> At(rest, 0) != '.'))
    requires mark != "" && sign == "" && es == "" ==> At(rest, 0) !in "+-"
    ensures var x := if sign == "-" then -DecimalValue(es) else DecimalValue(es);
      var amount := DecimalValue(ds + fs);
      ParseNumber((if minus then "-" else "") + (ds + ((if fs == "" then "" else "." + fs) + (mark + (sign + (es + rest))))))
        == (Number(if minus then -amount else amount, x - |fs|), rest)
  {
    hide TakeInteger, TakeFraction, TakeExponent, DecimalValue, Pow10, ParseNumber;
    var s3 := mark + (sign + (es + rest));
    var s2 := (if fs == "" then "" else "." + fs) + s3;
    assert mark == "" ==> s3 == rest;
    assert At(s3, 0) == if mark == "" then At(rest, 0) else mark[0];
    assert At(s2, 0) == if fs == "" then At(s3, 0) else '.';
    IntegerPart(ds, s2);
    FractionPart(ds, fs, s3);
    ExponentPart(mark, sign, es, rest);
    NumberParts(minus, ds + s2, DecimalValue(ds), s2, DecimalValue(ds + fs), -|fs|, s3,
                if sign == "-" then -DecimalValue(es) else DecimalValue(es), rest);
  }

  lemma NumberParts(minus: bool, body: string, n: int, s2: string, n1: int, scale: int, s3: string, x: int, rest: string)
    requires body != "" && IsDigit(body[0]) && TakeInteger(body) == (n, s2)
    requires TakeFraction(s2, n) == (n1, scale, s3) && TakeExponent(s3) == (x, rest)
    ensures ParseNumber((if minus then "-" else "") + body) == (Number(if minus then -n1 else n1, scale + x), rest)
  {
    hide TakeInteger, TakeFraction, TakeExponent;
    var s := (if minus then "-" else "") + body;
    if minus {
      assert s[1..] == body;
    } else {
      assert s == body;
    }
  }

  lemma IntegerPart(ds: string, rest: string)
    requires ds != "" && (ds[0] == '0' ==> ds == "0") && (forall c | c in ds :: IsDigit(c)) && !IsDigit(At(rest, 0))
    ensures TakeInteger(ds + rest) == (DecimalValue(ds), rest)
  {
    var s := ds + rest;
    assert IsDigit(ds[0]);
    if ds[0] == '0' {
      assert s[1..] == rest && ds[..0] == "";
    } else {
      TakeDigitsAll(ds, rest, 0, 0);
    }
  }

  lemma FractionPart(ds: string, fs: string, rest: string)
    requires (forall c | c in fs :: IsDigit(c)) && !IsDigit(At(rest, 0)) && (fs == "" ==> At(rest, 0) != '.')
    ensures TakeFraction((if fs == "" then "" else "." + fs) + rest, DecimalValue(ds)) == (DecimalValue(ds + fs), -|fs|, rest)
  {
    hide TakeDigits, DecimalValue, Pow10;
    var n := DecimalValue(ds);
    if fs == "" {
      assert "" + rest == rest && ds + "" == ds;
    } else {
      var s := ("." + fs) + rest;
      assert s[1..] == fs + rest && IsDigit(fs[0]);
      DecimalAppend(ds, fs);
      TakeDigitsAll(fs, rest, n, 0);
      TakeNoDigits(rest, n * Pow10(|fs|) + DecimalValue(fs), |fs|);
    }
  }

  lemma {:induction false} DecimalAppend(a: string, b: string)
    ensures DecimalValue(a + b) == DecimalValue(a) * Pow10(|b|) + DecimalValue(b)
    decreases |b|
  {
    if b == "" {
      assert a + b == a;
    } else {
      var front := b[..|b| - 1];
      assert (a + b)[..|a + b| - 1] == a + front;
      DecimalAppend(a, front);
    }
  }

  lemma NoDigits()
    ensures DecimalValue("") == 0
  {
  }

  lemma TakeNoDigits(s: string, acc: int, count: int)
    requires !IsDigit(At(s, 0))
    ensures TakeDigits(s, acc, count) == (acc, count, s)
  {
  }

  lemma ExponentPart(mark: string, sign: string, es: string, rest: string)
    requires (forall c | c in es :: IsDigit(c)) && !IsDigit(At(rest, 0))
    requires if mark == "" then sign == es == "" && At(rest, 0) !in "eE"
      else (mark == "e" || mark == "E") && (sign == "" || sign == "+" || sign == "-")
    requires mark != "" && sign == "" && es == "" ==> At(rest, 0) !in "+-"
    ensures TakeExponent(mark + (sign + (es + rest))) == (if sign == "-" then -DecimalValue(es) else DecimalValue(es), rest)
  {
    NoDigits();
    hide TakeDigits, DecimalValue, Pow10;
    var s := mark + (sign + (es + rest));
    if mark == "" {
      assert s == rest;
    } else {
      assert s[1..] == sign + (es + rest);
      if sign == "" {
        assert s[1..] == es + rest;
        assert es != "" ==> IsDigit(es[0]);
      } else {
        assert s[1..][1..] == es + rest;
      }
      TakeDigitsAll(es, rest, 0, 0);
      TakeNoDigits(rest, DecimalValue(es), |es|);
    }
  }

  // ----- Strings -----

  function HexDigit(c: char): (d: int)
    ensures -1 <= d < 16
  {
    if '0' <= c <= '9' then c as int - '0' as int
    else if 'A' <= c <= 'F' then 10 + c as int - 'A' as int
    else if 'a' <= c <= 'f' then 10 + c as int - 'a' as int
    else -1
  }

  /** Four hexadecimal digits, or 0 when one of them is not. */
  function Hex4(s: string): (h: nat)
    ensures h < 0x10000
  {
    var a, b, c, d := HexDigit(At(s, 0)), HexDigit(At(s, 1)), HexDigit(At(s, 2)), HexDigit(At(s, 3));
    if a < 0 || b < 0 || c < 0 || d < 0 then 0 else ((a * 16 + b) * 16 + c) * 16 + d
  }

  function Low6(uc: nat): (c: char) {
    (0x80 + uc % 64) as char
  }

  /** The bytes the transcoder stores for one code point. */
  function Utf8(uc: nat): (s: string)
    requires uc < 0x110000
  {
    if uc < 0x80 then [uc as char]
    else if uc < 0x800 then [(0xC0 + uc / 64) as char, Low6(uc)]
    else if uc < 0x10000 then [(0xE0 + uc / 4096) as char, Low6(uc / 64), Low6(uc)]
    else [(0xF0 + uc / 262144) as char, Low6(uc / 4096), Low6(uc / 64), Low6(uc)]
  }

  /** What follows `\u`: the characters produced and how many text characters are used, counted from the backslash. */
  function Unicode(s: string): (r: (string, nat))
    ensures r.1 == 6 || r.1 == 12
  {
    var uc := Hex4(Drop(s, 2));
    if 0xDC00 <= uc <= 0xDFFF || uc == 0 then ("", 6)
    else if 0xD800 <= uc <= 0xDBFF then
      if At(s, 6) != '\\' || At(s, 7) != 'u' then ("", 6)
      else
        var uc2 := Hex4(Drop(s, 8));
        if uc2 < 0xDC00 || uc2 > 0xDFFF then ("", 12)
        else (Utf8(0x10000 + (uc - 0xD800) * 1024 + (uc2 - 0xDC00)), 12)
    else (Utf8(uc), 6)
  }

  /** One escape sequence starting at a backslash. */
  function Unescape(s: string): (r: (string, nat))
    requires At(s, 0) == '\\'
    ensures r.1 >= 2
  {
    match At(s, 1)
    case 'b' => ([BACKSPACE], 2)
    case 'f' => ([FORM_FEED], 2)
    case 'n' => ("\n", 2)
    case 'r' => ("\r", 2)
    case 't' => ("\t", 2)
    case 'u' => Unicode(s)
    case '\0' => ("", 2)
    case c => ([c], 2)
  }

  /** The bytes are the encoding of the code point (section 3 of RFC 3629): as short as its size allows, the length in the
      first byte, six bits in each byte behind it. */
  lemma Utf8Encodes(uc: nat)
    requires uc < 0x110000
    ensures var s := Utf8(uc);
      && |s| == (if uc < 0x80 then 1 else if uc < 0x800 then 2 else if uc < 0x10000 then 3 else 4)
      && (forall k | 1 <= k < |s| :: 0x80 <= s[k] as int < 0xC0)
      && (|s| == 1 ==> s[0] as int == uc)
      && (|s| == 2 ==> 0xC0 <= s[0] as int < 0xE0 && (s[0] as int - 0xC0) * 64 + (s[1] as int - 0x80) == uc)
      && (|s| == 3 ==> 0xE0 <= s[0] as int < 0xF0
                       && ((s[0] as int - 0xE0) * 64 + (s[1] as int - 0x80)) * 64 + (s[2] as int - 0x80) == uc)
      && (|s| == 4 ==> 0xF0 <= s[0] as int < 0xF8
                       && (((s[0] as int - 0xF0) * 64 + (s[1] as int - 0x80)) * 64 + (s[2] as int - 0x80)) * 64 + (s[3] as int - 0x80) == uc)
  {
    assert uc / 64 / 64 == uc / 4096 && uc / 4096 / 64 == uc / 262144;
  }

  const LOWER: string := "0123456789abcdef"
  const UPPER: string := "0123456789ABCDEF"

  /** Four hexadecimal digits in either case stand for their number in base 16; a character that is none makes it 0. */
  lemma FourDigits(a: nat, b: nat, c: nat, d: nat, lower: bool, x: char, rest: string)
    requires a < 16 && b < 16 && c < 16 && d < 16
    ensures var digits := if lower then LOWER else UPPER;
      Hex4([digits[a], digits[b], digits[c], digits[d]] + rest) == ((a * 16 + b) * 16 + c) * 16 + d
    ensures x !in LOWER && x !in UPPER ==> Hex4([x] + rest) == 0
  {
    assert forall k: nat | k < 16 :: HexDigit(LOWER[k]) == HexDigit(UPPER[k]) == k;
    if HexDigit(x) >= 0 {
      assert x == LOWER[HexDigit(x)] || x == UPPER[HexDigit(x)];
    }
  }

  /** A `\u` escape gives the encoding of its code point, and two of them that are halves of a pair the encoding of the code
      point of the pair (section 7 of RFC 8259); a half on its own and the code point 0 are dropped. */
  lemma UnicodeEscape(h: string, l: string, rest: string)
    requires |h| == 4 && |l| == 4
    ensures var hi, lo := Hex4(h), Hex4(l);
      && (0 < hi < 0xD800 || 0xE000 <= hi ==> Unescape("\\u" + (h + rest)) == (Utf8(hi), 6))
      && (hi == 0 || 0xDC00 <= hi < 0xE000 ==> Unescape("\\u" + (h + rest)) == ("", 6))
      && (0xD800 <= hi < 0xDC00 && !("\\u" <= rest) ==> Unescape("\\u" + (h + rest)) == ("", 6))
      && (0xD800 <= hi < 0xDC00 ==>
            Unescape("\\u" + (h + ("\\u" + (l + rest)))) ==
              if 0xDC00 <= lo < 0xE000 then (Utf8(0x10000 + (hi - 0xD800) * 0x400 + (lo - 0xDC00)), 12) else ("", 12))
  {
    hide HexDigit, Utf8;
    var s := "\\u" + (h + rest);
    assert Drop(s, 2) == h + rest && Hex4(h + rest) == Hex4(h);
    assert At(s, 6) == At(rest, 0) && At(s, 7) == At(rest, 1);
    var t := "\\u" + (h + ("\\u" + (l + rest)));
    assert Drop(t, 2) == h + ("\\u" + (l + rest)) && Drop(t, 8) == l + rest;
    assert Hex4(Drop(t, 2)) == Hex4(h) && Hex4(l + rest) == Hex4(l);
  }

  /** Other escapes: five letters stand for control characters, every other character for itself. */
  lemma PlainEscape(c: char, rest: string)
    requires c != '\0' && c != 'u'
    ensures var k := if c == 'b' then 8 else if c == 'f' then 12 else if c == 'n' then 10 else if c == 'r' then 13 else if c == 't' then 9 else c as int;
      Unescape(['\\', c] + rest) == ([k as char], 2)
  {
  }

  function Brace(c: char): int {
    if c == '{' then 1 else if c == '}' then -1 else 0
  }

  /** The string loop: it stops at a quote only while `nest` is zero, and at the end of the text. */
  function StringBody(s: string, nest: int): (r: (string, string))
    ensures |r.1| <= |s|
    decreases |s|
  {
    var c := At(s, 0);
    if (c == '\"' && nest == 0) || c == '\0' then ("", s)
    else if c != '\\' then
      var (out, rest) := StringBody(s[1..], nest + Brace(c)); ([c] + out, rest)
    else
      var (chars, used) := Unescape(s);
      var (out, rest) := StringBody(Drop(s, used), nest); (chars + out, rest)
  }

  function Ahead(out: string, r: (string, string)): (string, string) {
    (out + r.0, r.1)
  }

  lemma BodyStops(s: string, nest: int)
    requires At(s, 0) == '\0' || (At(s, 0) == '\"' && nest == 0)
    ensures StringBody(s, nest) == ("", s)
  {
  }

  /** One round of the string loop. */
  lemma BodyRound(s: string, nest: int)
    requires At(s, 0) != '\0' && (At(s, 0) != '\"' || nest != 0)
    ensures At(s, 0) != '\\' ==> StringBody(s, nest) == Ahead([s[0]], StringBody(Drop(s, 1), nest + Brace(s[0])))
    ensures At(s, 0) == '\\' ==> StringBody(s, nest) == Ahead(Unescape(s).0, StringBody(Drop(s, Unescape(s).1), nest))
  {
    hide Unescape;
  }

  /** A string literal; a missing closing quote is not an error. */
  function ParseString(s: string): (r: Parsed<string>)
    ensures r.Some? ==> |r.value.1| < |s|
  {
    if At(s, 0) != '\"' then None
    else
      var (out, rest) := StringBody(s[1..], 0);
      Some((out, if At(rest, 0) == '\"' then rest[1..] else rest))
  }

  // ----- Values -----

  function ParseValue(s: string): (r: Parsed<Json>)
    ensures r.Some? ==> |r.value.1| <= |s|
    decreases |s|, 1
  {
    if "null" <= s then Some((Null, s[4..]))
    else if "false" <= s then Some((False, s[5..]))
    else if "true" <= s then Some((True, s[4..]))
    else if At(s, 0) == '\"' then
      var p := ParseString(s);
      if p.None? then None else Some((String(p.value.0), p.value.1))
    else if At(s, 0) == '-' || IsDigit(At(s, 0)) then Some(ParseNumber(s))
    else if At(s, 0) == '[' then ParseArray(s)
    else if At(s, 0) == '{' then ParseObject(s)
    else None
  }

  function ParseArray(s: string): (r: Parsed<Json>)
    requires At(s, 0) == '['
    ensures r.Some? ==> |r.value.1| <= |s|
    decreases |s|, 0
  {
    var s1 := Skip(s[1..]);
    if At(s1, 0) == ']' then Some((Array([]), s1[1..]))
    else
      var p := ParseItems(s1);
      if p.None? then None
      else if At(p.value.1, 0) == ']' then Some((Array(p.value.0), p.value.1[1..]))
      else None
  }

  /** One value, then more values as long as commas follow. */
  function ParseItems(s: string): (r: Parsed<seq<Json>>)
    ensures r.Some? ==> |r.value.1| <= |s| && |r.value.0| > 0
    decreases |s|, 2
  {
    var p := ParseValue(Skip(s));
    if p.None? then None
    else
      var rest := Skip(p.value.1);
      if At(rest, 0) == ',' then
        var q := ParseItems(rest[1..]);
        if q.None? then None else Some(([p.value.0] + q.value.0, q.value.1))
      else Some(([p.value.0], rest))
  }

  function ParseObject(s: string): (r: Parsed<Json>)
    requires At(s, 0) == '{'
    ensures r.Some? ==> |r.value.1| <= |s|
    decreases |s|, 0
  {
    var s1 := Skip(s[1..]);
    if At(s1, 0) == '}' then Some((Object([]), s1[1..]))
    else
      var p := ParseMembers(s1);
      if p.None? then None
      else if At(p.value.1, 0) == '}' then Some((Object(p.value.0), p.value.1[1..]))
      else None
  }

  function ParseMember(s: string): (r: Parsed<Member>)
    ensures r.Some? ==> |r.value.1| <= |s|
    decreases |s|, 2
  {
    var name := ParseString(Skip(s));
    if name.None? then None
    else
      var s1 := Skip(name.value.1);
      if At(s1, 0) != ':' then None
      else
        var v := ParseValue(Skip(s1[1..]));
        if v.None? then None else Some((Member(name.value.0, v.value.0), Skip(v.value.1)))
  }

  function ParseMembers(s: string): (r: Parsed<seq<Member>>)
    ensures r.Some? ==> |r.value.1| <= |s| && |r.value.0| > 0
    decreases |s|, 3
  {
    var p := ParseMember(s);
    if p.None? then None
    else if At(p.value.1, 0) == ',' then
      var q := ParseMembers(p.value.1[1..]);
      if q.None? then None else Some(([p.value.0] + q.value.0, q.value.1))
    else Some(([p.value.0], p.value.1))
  }
}
