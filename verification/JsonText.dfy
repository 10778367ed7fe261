/** JSON trees and the text cJSON prints for them (wifi/cJSON.c, the two printers). */
module JsonText {
  /** A cJSON tree. A number is kept as `mantissa * 10^exponent`, which is what the parser accumulates. */
  datatype Json =
    | Null
    | False
    | True
    | Number(mantissa: int, exponent: int)
    | String(text: string)
    | Array(items: seq<Json>)
    | Object(members: seq<Member>)

  datatype Member = Member(name: string, value: Json)

  // ----- Reading a C string: everything from the terminator on reads as NUL -----

  function At(s: string, k: nat): (c: char)
  {
    if k < |s| then s[k] else '\0'
  }

  function Drop(s: string, k: nat): (r: string)
    ensures |r| <= |s|
    ensures |s| > 0 && k > 0 ==> |r| < |s|
  {
    if k <= |s| then s[k..] else ""
  }

  lemma AtDrop(text: string, p: nat, k: nat)
    ensures At(Drop(text, p), k) == At(text, p + k)
    ensures Drop(Drop(text, p), k) == Drop(text, p + k)
    ensures At(text, p) != '\0' ==> Drop(text, p) != "" && Drop(text, p)[1..] == Drop(text, p + 1)
  {
  }

  predicate IsDigit(c: char) {
    '0' <= c <= '9'
  }

  // ----- What the printers write -----

  const INT_MAX := 0x7FFF_FFFF
  const INT_MIN := -0x8000_0000

  function DigitChar(d: nat): (c: char)
    requires d < 10
    ensures IsDigit(c) && c as int - '0' as int == d
  {
    ('0' as int + d) as char
  }

  /** `%d` of a natural number. */
  function Digits(n: nat): (s: string)
    ensures s != "" && forall c | c in s :: IsDigit(c)
  {
    if n < 10 then [DigitChar(n)] else Digits(n / 10) + [DigitChar(n % 10)]
  }

  function IntText(n: int): (s: string)
    ensures s != "" && forall c | c in s :: IsDigit(c) || c == '-'
  {
    if n < 0 then "-" + Digits(-n) else Digits(n)
  }

  /** The number a row of digits stands for. */
  function DecimalValue(s: string): int {
    if s == "" then 0 else DecimalValue(s[..|s| - 1]) * 10 + (s[|s| - 1] as int - '0' as int)
  }

  lemma {:induction false} DigitsValue(n: nat)
    ensures DecimalValue(Digits(n)) == n
    ensures n > 0 ==> '1' <= Digits(n)[0] <= '9'
  {
    if n < 10 {
      assert Digits(n)[..0] == "";
    } else {
      DigitsValue(n / 10);
      assert Digits(n)[..|Digits(n)| - 1] == Digits(n / 10);
    }
  }

  /** A printed number is a sign exactly for negative numbers and then the digits of its amount, without a zero in front. */
  lemma IntTextValue(n: int)
    ensures IntText(0) == "0" && (IntText(n)[0] == '-' <==> n < 0)
    ensures var digits := if n < 0 then IntText(n)[1..] else IntText(n);
      && digits != "" && (forall c | c in digits :: '0' <= c <= '9')
      && (n != 0 ==> digits[0] != '0')
      && DecimalValue(digits) == if n < 0 then -n else n
  {
    assert IntText(0) == "0";
    DigitsValue(if n < 0 then -n else n);
    assert IsDigit(Digits(if n < 0 then -n else n)[0]);
    hide Digits, DecimalValue;
    assert n < 0 ==> IntText(n)[1..] == Digits(-n);
  }

  function Pow10(n: nat): (p: nat)
    ensures p > 0
  {
    if n == 0 then 1 else 10 * Pow10(n - 1)
  }

  /** A number has at most `k` digits exactly when it is below the `k`-th power of ten. */
  lemma {:induction false} DigitsLength(n: nat, k: nat)
    requires k > 0
    ensures |Digits(n)| <= k <==> n < Pow10(k)
  {
    if n < 10 {
      Pow10AtLeast(k);
    } else if k == 1 {
      assert Pow10(1) == 10 * Pow10(0) == 10;
    } else {
      DigitsLength(n / 10, k - 1);
    }
  }

  lemma {:induction false} Pow10AtLeast(k: nat)
    requires k > 0
    ensures Pow10(k) >= 10
  {
    if k > 1 {
      Pow10AtLeast(k - 1);
    }
  }

  function HexChar(d: nat): (c: char)
    requires d < 16
  {
    if d < 10 then ('0' as int + d) as char else ('a' as int + d - 10) as char
  }

  const BACKSPACE := 8 as char
  const FORM_FEED := 12 as char

  /** A character the printer writes as it is. */
  predicate IsPlain(c: char) {
    c > 31 as char && c != '\"' && c != '\\'
  }

  function Escape(c: char): (s: string)
    requires !IsPlain(c)
  {
    if c == '\\' then "\\\\"
    else if c == '\"' then "\\\""
    else if c == BACKSPACE then "\\b"
    else if c == FORM_FEED then "\\f"
    else if c == '\n' then "\\n"
    else if c == '\r' then "\\r"
    else if c == '\t' then "\\t"
    else "\\u00" + [HexChar(c as int / 16), HexChar(c as int % 16)]
  }

  function EscapeAll(s: string): string {
    if s == "" then ""
    else (if IsPlain(s[0]) then [s[0]] else Escape(s[0])) + EscapeAll(s[1..])
  }

  function Quoted(s: string): string {
    "\"" + EscapeAll(s) + "\""
  }

  function Tabs(n: int): (s: string)
    ensures |s| == if n < 0 then 0 else n
    ensures forall c | c in s :: c == '\t'
  {
    if n <= 0 then "" else seq(n, _ => '\t')
  }

  /** The text of a tree printed at nesting `depth`, formatted or not. */
  function Text(t: Json, depth: nat, fmt: bool): string
    decreases t, 0
  {
    match t
    case Null => "null"
    case False => "false"
    case True => "true"
    case Number(m, _) => IntText(m)
    case String(s) => Quoted(s)
    case Array(items) =>
      if items == [] then "[]" else "[" + ItemsText(items, depth + 1, fmt) + "]"
    case Object(members) =>
      if members == [] then "{" + (if fmt then "\n" + Tabs(depth - 1) else "") + "}"
      else "{" + (if fmt then "\n" else "") + MembersText(members, depth + 1, fmt) + (if fmt then Tabs(depth) else "") + "}"
  }

  function Comma(fmt: bool): string {
    if fmt then ", " else ","
  }

  function ItemsText(items: seq<Json>, depth: nat, fmt: bool): string
    decreases items, 1
  {
    if items == [] then ""
    else Text(items[0], depth, fmt) + (if |items| == 1 then "" else Comma(fmt)) + ItemsText(items[1..], depth, fmt)
  }

  function MemberText(m: Member, depth: nat, fmt: bool): string
    decreases m, 1
  {
    (if fmt then Tabs(depth) else "") + Quoted(m.name) + (if fmt then ":\t" else ":") + Text(m.value, depth, fmt)
  }

  function MemberEnd(last: bool, fmt: bool): string {
    (if last then "" else ",") + (if fmt then "\n" else "")
  }

  function MembersText(members: seq<Member>, depth: nat, fmt: bool): string
    decreases members, 2
  {
    if members == [] then ""
    else MemberText(members[0], depth, fmt) + MemberEnd(|members| == 1, fmt) + MembersText(members[1..], depth, fmt)
  }

  // ----- Which trees the statements are about -----

  predicate NulFree(s: string) {
    '\0' !in s
  }

  /** Trees of null, booleans, 32-bit integers, C strings, arrays and objects. */
  predicate Printable(t: Json)
    decreases t
  {
    match t
    case Number(m, e) => e == 0 && INT_MIN <= m <= INT_MAX
    case String(s) => NulFree(s)
    case Array(items) => forall i | 0 <= i < |items| :: Printable(items[i])
    case Object(members) => forall i | 0 <= i < |members| :: NulFree(members[i].name) && Printable(members[i].value)
    case _ => true
  }

  /** Opening minus closing braces: the count `str_nest` the parser keeps inside a string. */
  function Nesting(s: string): int {
    if s == "" then 0
    else (if s[0] == '{' then 1 else if s[0] == '}' then -1 else 0) + Nesting(s[1..])
  }

  /** Every string and every name has as many `{` as `}`. */
  predicate Balanced(t: Json)
    decreases t
  {
    match t
    case String(s) => Nesting(s) == 0
    case Array(items) => forall i | 0 <= i < |items| :: Balanced(items[i])
    case Object(members) => forall i | 0 <= i < |members| :: Nesting(members[i].name) == 0 && Balanced(members[i].value)
    case _ => true
  }

  // ----- What the text looks like -----

  /** The characters with a letter of their own for an escape, and the letters. */
  const SPECIAL: string := ['\"', '\\', 8 as char, 12 as char, '\n', '\r', '\t']
  const LETTERS: string := "\"\\bfnrt"
  const HEX: string := "0123456789abcdef"

  /** Seven characters are escaped by a letter, the other ones below 32 by four hexadecimal digits, and all others are
      printed as they are. */
  lemma EscapedExactly(c: char, k: nat)
    ensures k < 7 ==> EscapeAll([SPECIAL[k]]) == ['\\', LETTERS[k]]
    ensures c < ' ' && c !in SPECIAL ==> EscapeAll([c]) == "\\u00" + [HEX[c as int / 16], HEX[c as int % 16]]
    ensures c >= ' ' && c !in SPECIAL ==> EscapeAll([c]) == [c]
  {
    assert EscapeAll([c][1..]) == "";
    if k < 7 {
      assert EscapeAll([SPECIAL[k]][1..]) == "";
    }
  }

  lemma {:induction false} EscapeAllAppend(a: string, b: string)
    ensures EscapeAll(a + b) == EscapeAll(a) + EscapeAll(b)
  {
    if a == "" {
      assert a + b == b;
    } else {
      assert (a + b)[1..] == a[1..] + b;
      EscapeAllAppend(a[1..], b);
    }
  }

  // ----- Sequence facts used by every proof about text -----

  lemma Glue(a: string, b: string, c: string)
    ensures (a + b) + c == a + (b + c)
  {
  }
}
