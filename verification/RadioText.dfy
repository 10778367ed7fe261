/** The text frames of the radio: formatted numbers, their scan, and frames with a checksum
    (radio/Radio_Encoder.c:50-68, 91-98, radio/Radio_Decoder.c:67). */
module RadioText {
  import opened Wrappers
  import opened JsonText
  import opened Words
  import opened SerialFrames

  // ----- Formatting numbers -----

  function ZeroDigits(n: nat): (s: string)
    ensures |s| == n && forall c | c in s :: c == '0'
  {
    seq(n, _ => '0')
  }

  function Pad(digits: string, width: nat): string {
    ZeroDigits(if |digits| < width then width - |digits| else 0) + digits
  }

  datatype Field = Field(value: int, width: nat)

  /** `%0*d`: the sign counts for the width. */
  function Format(f: Field): string {
    if f.value >= 0 then Pad(Digits(f.value), f.width)
    else "-" + Pad(Digits(-f.value), if f.width > 0 then f.width - 1 else 0)
  }

  function Fields(fs: seq<Field>): string {
    if fs == [] then "" else if |fs| == 1 then Format(fs[0]) else Format(fs[0]) + "," + Fields(fs[1..])
  }

  function Braced(fs: seq<Field>): string {
    "{" + Fields(fs) + "}"
  }

  /** `%ld` reads the 32 bits of an identifier as a signed number. */
  function Signed(id: uint32): int {
    if id < 0x8000_0000 then id else id - 0x1_0000_0000
  }

  // ----- Scanning numbers -----

  predicate IsSpace(c: char) {
    c == ' ' || 9 <= c as int <= 13
  }

  function SkipBlanks(s: string): (r: string)
    ensures |r| <= |s|
  {
    if s != "" && IsSpace(s[0]) then SkipBlanks(s[1..]) else s
  }

  function ScanDigits(s: string, acc: nat): (nat, string) {
    if s != "" && IsDigit(s[0]) then ScanDigits(s[1..], acc * 10 + (s[0] as int - '0' as int)) else (acc, s)
  }

  /** `%d` and `%ld`: blanks, a sign, at least one digit. */
  function ScanInt(s: string): Option<(int, string)> {
    var t := SkipBlanks(s);
    var u := if t != "" && (t[0] == '-' || t[0] == '+') then t[1..] else t;
    if u == "" || !IsDigit(u[0]) then None
    else
      var r := ScanDigits(u, 0);
      Some((if t[0] == '-' then -(r.0 as int) else r.0 as int, r.1))
  }

  /** `n` numbers with a comma between any two. */
  function ScanInts(s: string, n: nat): Option<seq<int>>
    decreases n
  {
    if n == 0 then Some([])
    else
      var first := ScanInt(s);
      if first.None? then None
      else if n == 1 then Some([first.value.0])
      else if first.value.1 == "" || first.value.1[0] != ',' then None
      else
        var more := ScanInts(first.value.1[1..], n - 1);
        if more.None? then None else Some([first.value.0] + more.value)
  }

  function ScanBraced(s: string, n: nat): Option<seq<int>> {
    if s == "" || s[0] != '{' then None else ScanInts(s[1..], n)
  }

  // ----- Scanning undoes formatting -----

  function Value(acc: nat, s: string): nat
    requires forall c | c in s :: IsDigit(c)
    decreases s
  {
    if s == "" then acc
    else
      assert IsDigit(s[0]);
      Value(acc * 10 + (s[0] as int - '0' as int), s[1..])
  }

  predicate EndsNumber(rest: string) {
    rest == "" || !IsDigit(rest[0])
  }

  lemma {:induction false} ScanDigitsValue(s: string, acc: nat, rest: string)
    requires (forall c | c in s :: IsDigit(c)) && EndsNumber(rest)
    ensures ScanDigits(s + rest, acc) == (Value(acc, s), rest)
    decreases s
  {
    if s == "" {
      assert s + rest == rest;
    } else {
      assert s[0] in s && (s + rest)[1..] == s[1..] + rest;
      ScanDigitsValue(s[1..], acc * 10 + (s[0] as int - '0' as int), rest);
    }
  }

  lemma {:induction false} ValueAppend(acc: nat, s: string, c: char)
    requires (forall x | x in s :: IsDigit(x)) && IsDigit(c)
    ensures Value(acc, s + [c]) == Value(acc, s) * 10 + (c as int - '0' as int)
    decreases s
  {
    if s == "" {
      assert s + [c] == [c] && [c][1..] == "";
    } else {
      assert s[0] in s && (s + [c])[0] == s[0] && (s + [c])[1..] == s[1..] + [c];
      ValueAppend(acc * 10 + (s[0] as int - '0' as int), s[1..], c);
    }
  }

  lemma {:induction false} ValueDigits(n: nat)
    ensures Value(0, Digits(n)) == n
  {
    if n < 10 {
      assert [DigitChar(n)][1..] == "";
    } else {
      ValueDigits(n / 10);
      ValueAppend(0, Digits(n / 10), DigitChar(n % 10));
    }
  }

  lemma {:induction false} ValuePadded(k: nat, s: string)
    requires forall c | c in s :: IsDigit(c)
    ensures Value(0, ZeroDigits(k) + s) == Value(0, s)
  {
    if k == 0 {
      assert ZeroDigits(k) + s == s;
    } else {
      assert (ZeroDigits(k) + s)[1..] == ZeroDigits(k - 1) + s;
      ValuePadded(k - 1, s);
    }
  }

  lemma ScanPad(n: nat, width: nat, rest: string)
    requires EndsNumber(rest)
    ensures ScanDigits(Pad(Digits(n), width) + rest, 0) == (n, rest)
    ensures Pad(Digits(n), width) != "" && IsDigit((Pad(Digits(n), width) + rest)[0])
  {
    var digits := Digits(n);
    var k := if |digits| < width then width - |digits| else 0;
    ValueDigits(n);
    ValuePadded(k, digits);
    ScanDigitsValue(ZeroDigits(k) + digits, 0, rest);
    assert Pad(digits, width)[0] in Pad(digits, width);
  }

  lemma ScanFormat(f: Field, rest: string)
    requires EndsNumber(rest)
    ensures ScanInt(Format(f) + rest) == Some((f.value, rest))
  {
    hide Digits, Pad, ScanDigits;
    if f.value >= 0 {
      ScanPad(f.value, f.width, rest);
    } else {
      var width := if f.width > 0 then f.width - 1 else 0;
      ScanPad(-f.value, width, rest);
      assert (Format(f) + rest)[1..] == Pad(Digits(-f.value), width) + rest;
    }
  }

  function Values(fs: seq<Field>): seq<int> {
    seq(|fs|, i requires 0 <= i < |fs| => fs[i].value)
  }

  /** Any list of numbers, whatever their signs and widths, is read back. */
  lemma {:induction false} ScanFields(fs: seq<Field>, rest: string)
    requires fs != [] && EndsNumber(rest)
    ensures ScanInts(Fields(fs) + rest, |fs|) == Some(Values(fs))
  {
    hide ScanInt, Format;
    if |fs| == 1 {
      ScanFormat(fs[0], rest);
      assert Values(fs) == [fs[0].value];
    } else {
      var more := "," + Fields(fs[1..]) + rest;
      ScanFormat(fs[0], more);
      assert Fields(fs) + rest == Format(fs[0]) + more;
      assert more[1..] == Fields(fs[1..]) + rest;
      ScanFields(fs[1..], rest);
      assert Values(fs) == [fs[0].value] + Values(fs[1..]);
    }
  }

  lemma BracedRoundTrip(fs: seq<Field>, rest: string)
    requires fs != []
    ensures ScanBraced(Braced(fs) + rest, |fs|) == Some(Values(fs))
  {
    hide Fields, ScanInts, Values;
    ScanFields(fs, "}" + rest);
    assert (Braced(fs) + rest)[1..] == Fields(fs) + ("}" + rest);
  }

  // ----- Widths -----

  /** A number takes exactly its width unless it has too many digits. */
  lemma FormatLength(f: Field)
    requires f.width > 1 || (f.width == 1 && f.value >= 0)
    ensures |Format(f)| >= f.width
    ensures |Format(f)| == f.width <==> (if f.value >= 0 then f.value < Pow10(f.width) else -f.value < Pow10(f.width - 1))
  {
    if f.value >= 0 {
      DigitsLength(f.value, f.width);
    } else {
      DigitsLength(-f.value, f.width - 1);
    }
  }

  // ----- The normal frame -----

  const BODY := 28

  function Next(counter: byte): byte {
    if counter < 255 then counter + 1 else 0
  }

  function NormalFields(target: uint32, self: uint32, counter: byte, command: byte, data: byte): seq<Field> {
    [Field(Signed(target), 8), Field(Signed(self), 8), Field(Next(counter), 3), Field(command, 2), Field(data, 1)]
  }

  function NormalText(target: uint32, self: uint32, counter: byte, command: byte, data: byte): string {
    Braced(NormalFields(target, self, counter, command, data))
  }

  predicate Eight(id: uint32) {
    -10_000_000 < Signed(id) < 100_000_000
  }

  lemma Powers()
    ensures Pow10(1) == 10 && Pow10(2) == 100 && Pow10(3) == 1000 && Pow10(7) == 10_000_000 && Pow10(8) == 100_000_000
  {
    assert Pow10(4) == 10 * Pow10(3) && Pow10(5) == 10 * Pow10(4) && Pow10(6) == 10 * Pow10(5);
  }

  /** The body is never shorter than 28 characters, and it is exactly that long when the numbers fit. */
  lemma NormalLength(target: uint32, self: uint32, counter: byte, command: byte, data: byte)
    ensures |NormalText(target, self, counter, command, data)| >= BODY
    ensures |NormalText(target, self, counter, command, data)| == BODY
      <==> Eight(target) && Eight(self) && command < 100 && data < 10
  {
    var fs := NormalFields(target, self, counter, command, data);
    Powers();
    FormatLength(fs[0]);
    FormatLength(fs[1]);
    FormatLength(fs[2]);
    FormatLength(fs[3]);
    FormatLength(fs[4]);
    hide Format, Pow10;
    FieldsOfFive(fs);
  }

  lemma FieldsOfFive(fs: seq<Field>)
    requires |fs| == 5
    ensures |Fields(fs)| == |Format(fs[0])| + |Format(fs[1])| + |Format(fs[2])| + |Format(fs[3])| + |Format(fs[4])| + 4
  {
    hide Format;
    var a, b, c, d := fs[1..], fs[2..], fs[3..], fs[4..];
    assert a[1..] == b && b[1..] == c && c[1..] == d;
    assert |Fields(d)| == |Format(fs[4])|;
    assert |Fields(c)| == |Format(fs[3])| + 1 + |Fields(d)|;
    assert |Fields(b)| == |Format(fs[2])| + 1 + |Fields(c)|;
    assert |Fields(a)| == |Format(fs[1])| + 1 + |Fields(b)|;
  }

  /** A text as the bytes that are added up. */
  function Codes(s: string): seq<byte> {
    seq(|s|, i requires 0 <= i < |s| => s[i] as int % 0x100)
  }

  function UpperHex(d: nat): char
    requires d < 16
  {
    if d < 10 then ('0' as int + d) as char else ('A' as int + d - 10) as char
  }

  /** What goes out: 28 characters of the text, their sum as two digits, and the end of the line. */
  function NormalFrame(target: uint32, self: uint32, counter: byte, command: byte, data: byte): (s: string)
    ensures |s| == BODY + 4
  {
    NormalLength(target, self, counter, command, data);
    var body := NormalText(target, self, counter, command, data)[..BODY];
    var check := CheckSum(Codes(body));
    body + [UpperHex(check / 16), UpperHex(check % 16), '\r', '\n']
  }

  function UpperHexValue(c: char): nat {
    if '0' <= c <= '9' then c as int - '0' as int else if 'A' <= c <= 'F' then c as int - 'A' as int + 10 else 0
  }

  /** The two check digits are the sum of the body as a hexadecimal number, and one changed character of the body no
      longer matches them. */
  lemma CheckDigits(target: uint32, self: uint32, counter: byte, command: byte, data: byte, i: nat, c: char)
    ensures var s := NormalFrame(target, self, counter, command, data);
      var check := UpperHexValue(s[BODY]) * 16 + UpperHexValue(s[BODY + 1]);
      && check == CheckSum(Codes(s[..BODY])) && s[BODY + 2..] == "\r\n"
      && (i < BODY && c as int % 0x100 != s[i] as int % 0x100 ==> CheckSum(Codes(s[..BODY][i := c])) != check)
  {
    hide NormalText, CheckSum, Codes, UpperHex, UpperHexValue;
    NormalLength(target, self, counter, command, data);
    var s := NormalFrame(target, self, counter, command, data);
    var body := NormalText(target, self, counter, command, data)[..BODY];
    assert s[..BODY] == body;
    HexPair(CheckSum(Codes(body)));
    if i < BODY && c as int % 0x100 != s[i] as int % 0x100 {
      SumChanged(body, i, c);
    }
  }

  lemma HexPair(check: byte)
    ensures UpperHexValue(UpperHex(check / 16)) * 16 + UpperHexValue(UpperHex(check % 16)) == check
  {
  }

  lemma SumChanged(body: string, i: nat, c: char)
    requires i < |body| && c as int % 0x100 != body[i] as int % 0x100
    ensures CheckSum(Codes(body[i := c])) != CheckSum(Codes(body))
  {
    assert Codes(body[i := c]) == Codes(body)[i := c as int % 0x100];
    SumUpdate(Codes(body), i, c as int % 0x100);
    hide Codes, Sum;
  }

  /** `sprintf` into a buffer: the text and a terminator. */
  method Print(buf: array<char>, text: string)
    requires |text| < buf.Length
    modifies buf
    ensures buf[..|text|] == text
  {
    forall i | 0 <= i < |text| {
      buf[i] := text[i];
    }
    buf[|text|] := '\0';
  }

  lemma {:induction false} FieldsBound(fs: seq<Field>)
    requires forall i | 0 <= i < |fs| :: -0x8000_0000 <= fs[i].value < 0x8000_0000 && fs[i].width <= 8
    ensures |Fields(fs)| <= 12 * |fs|
  {
    hide Format;
    if fs != [] {
      FormatBound(fs[0]);
      FieldsBound(fs[1..]);
    }
  }

  lemma FormatBound(f: Field)
    requires -0x8000_0000 <= f.value < 0x8000_0000 && f.width <= 8
    ensures |Format(f)| <= 11
  {
    Powers();
    assert Pow10(10) == 10 * Pow10(9) == 100 * Pow10(8);
    DigitsLength(if f.value >= 0 then f.value else -f.value, 10);
  }

  method Check(buf: array<char>, n: nat) returns (check: byte)
    requires n <= buf.Length
    ensures check == CheckSum(Codes(buf[..n]))
  {
    check := 0;
    var i := 0;
    while i < n
      invariant i <= n && check == CheckSum(Codes(buf[..i]))
    {
      assert Codes(buf[..i + 1])[..i] == Codes(buf[..i]);
      check := (check + buf[i] as int) % 0x100;
      i := i + 1;
    }
  }

  method Finish(buf: array<char>, check: byte)
    requires buf.Length >= BODY + 4
    modifies buf
    ensures buf[..BODY + 4] == old(buf[..BODY]) + [UpperHex(check / 16), UpperHex(check % 16), '\r', '\n']
  {
    buf[28] := UpperHex(check / 16);
    buf[29] := UpperHex(check % 16);
    buf[30] := '\r';
    buf[31] := '\n';
  }

  method RadioSend(target: uint32, self: uint32, counter: byte, command: byte, data: byte) returns (frame: string)
    ensures frame == NormalFrame(target, self, counter, command, data)
  {
    var buf := new char[64](_ => '\0');
    var next: byte := counter;
    if next < 255 {
      next := next + 1;
    } else {
      next := 0;
    }
    var fs := [Field(Signed(target), 8), Field(Signed(self), 8), Field(next, 3), Field(command, 2), Field(data, 1)];
    FieldsBound(fs);
    NormalLength(target, self, counter, command, data);
    hide Fields, CheckSum, UpperHex, Codes, Signed;
    var text := Braced(fs);
    Print(buf, text);
    assert buf[..BODY] == text[..BODY];
    var check := Check(buf, BODY);
    Finish(buf, check);
    frame := buf[..32];
  }

  // ----- The gateway frame -----

  const GATEWAY := 41

  function GatewayFields(target: uint32, self: uint32, device: uint32, rssi: byte, control: byte, value: byte): seq<Field> {
    [Field(Signed(target), 8), Field(Signed(self), 8), Field(Signed(device), 8), Field(rssi, 3), Field(control, 3), Field(value, 2)]
  }

  function GatewayText(target: uint32, self: uint32, device: uint32, rssi: byte, control: byte, value: byte): string {
    "G" + Braced(GatewayFields(target, self, device, rssi, control, value)) + "G"
  }

  lemma FieldsOfSix(fs: seq<Field>)
    requires |fs| == 6
    ensures |Fields(fs)|
      == |Format(fs[0])| + |Format(fs[1])| + |Format(fs[2])| + |Format(fs[3])| + |Format(fs[4])| + |Format(fs[5])| + 5
  {
    hide Format;
    FieldsOfFive(fs[1..]);
  }

  lemma GatewayLength(target: uint32, self: uint32, device: uint32, rssi: byte, control: byte, value: byte)
    ensures |GatewayText(target, self, device, rssi, control, value)| >= GATEWAY
    ensures |GatewayText(target, self, device, rssi, control, value)| == GATEWAY
      <==> Eight(target) && Eight(self) && Eight(device) && value < 100
  {
    var fs := GatewayFields(target, self, device, rssi, control, value);
    Powers();
    FormatLength(fs[0]);
    FormatLength(fs[1]);
    FormatLength(fs[2]);
    FormatLength(fs[3]);
    FormatLength(fs[4]);
    FormatLength(fs[5]);
    hide Format, Pow10;
    FieldsOfSix(fs);
  }

  lemma FormatByte(value: byte, width: nat)
    requires width <= 3
    ensures |Format(Field(value, width))| <= 3
  {
    Powers();
    DigitsLength(value, 3);
  }

  /** The text fits a buffer of 64 characters. */
  lemma GatewayBound(target: uint32, self: uint32, device: uint32, rssi: byte, control: byte, value: byte)
    ensures |GatewayText(target, self, device, rssi, control, value)| < 64
  {
    var fs := GatewayFields(target, self, device, rssi, control, value);
    FormatBound(fs[0]);
    FormatBound(fs[1]);
    FormatBound(fs[2]);
    FormatByte(rssi, 3);
    FormatByte(control, 3);
    FormatByte(value, 2);
    hide Format;
    FieldsOfSix(fs);
  }

  /** What goes out: the first 41 characters. */
  function GatewayFrame(target: uint32, self: uint32, device: uint32, rssi: byte, control: byte, value: byte): (s: string)
    ensures |s| == GATEWAY
  {
    GatewayLength(target, self, device, rssi, control, value);
    GatewayText(target, self, device, rssi, control, value)[..GATEWAY]
  }

  /** When everything fits, the frame is complete and its numbers can be scanned from behind the first letter. */
  lemma GatewayRoundTrip(target: uint32, self: uint32, device: uint32, rssi: byte, control: byte, value: byte)
    requires Eight(target) && Eight(self) && Eight(device) && value < 100
    ensures var s := GatewayFrame(target, self, device, rssi, control, value);
      && s[0] == 'G' == s[GATEWAY - 1]
      && ScanBraced(s[1..], 6) == Some([Signed(target), Signed(self), Signed(device), rssi as int, control as int, value as int])
  {
    GatewayLength(target, self, device, rssi, control, value);
    var fs := GatewayFields(target, self, device, rssi, control, value);
    var s := GatewayText(target, self, device, rssi, control, value);
    hide Braced, ScanBraced;
    BracedRoundTrip(fs, "G");
    assert s[..GATEWAY] == s && s[1..] == Braced(fs) + "G";
    assert Values(fs) == [Signed(target), Signed(self), Signed(device), rssi as int, control as int, value as int];
  }
}
