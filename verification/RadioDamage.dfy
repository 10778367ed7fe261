/** Which damage to a normal radio frame the receiver notices: it scans the numbers and ignores the check digits
    (radio/Radio_Decoder.c:62-68). */
module RadioDamage {
  import opened Wrappers
  import opened Words
  import opened JsonText
  import opened SerialFrames
  import opened RadioText
  import opened RadioReceive

  // ----- Scanning a number in front of other text -----

  /** Text that neither continues a number nor starts one. */
  predicate Barrier(rest: string) {
    rest != "" && !IsDigit(rest[0]) && !IsSpace(rest[0]) && rest[0] != '+' && rest[0] != '-'
  }

  lemma {:induction false} SkipBlanksAppend(p: string, rest: string)
    requires Barrier(rest)
    ensures SkipBlanks(p + rest) == SkipBlanks(p) + rest
  {
    if p == "" {
      assert p + rest == rest;
    } else if IsSpace(p[0]) {
      assert (p + rest)[1..] == p[1..] + rest;
      SkipBlanksAppend(p[1..], rest);
    }
  }

  lemma {:induction false} ScanDigitsAppend(p: string, acc: nat, rest: string)
    requires EndsNumber(rest)
    ensures ScanDigits(p + rest, acc) == (ScanDigits(p, acc).0, ScanDigits(p, acc).1 + rest)
    decreases p
  {
    if p == "" {
      assert p + rest == rest;
    } else if IsDigit(p[0]) {
      assert (p + rest)[1..] == p[1..] + rest;
      ScanDigitsAppend(p[1..], acc * 10 + (p[0] as int - '0' as int), rest);
    }
  }

  lemma ScanIntAppend(p: string, rest: string)
    requires Barrier(rest)
    ensures ScanInt(p).None? ==> ScanInt(p + rest).None?
    ensures ScanInt(p).Some? ==> ScanInt(p + rest) == Some((ScanInt(p).value.0, ScanInt(p).value.1 + rest))
  {
    hide SkipBlanks, ScanDigits;
    SkipBlanksAppend(p, rest);
    var t := SkipBlanks(p);
    var u := if t != "" && (t[0] == '-' || t[0] == '+') then t[1..] else t;
    if t != "" && (t[0] == '-' || t[0] == '+') {
      assert (t + rest)[1..] == u + rest;
    }
    ScanDigitsAppend(u, 0, rest);
  }

  // ----- Lists of numbers -----

  function Joined(ps: seq<string>): string {
    if ps == [] then "" else if |ps| == 1 then ps[0] else ps[0] + "," + Joined(ps[1..])
  }

  /** The text is one number to its end. */
  predicate Whole(p: string) {
    ScanInt(p).Some? && ScanInt(p).value.1 == ""
  }

  lemma {:induction false} SkipBlanksWithin(p: string)
    ensures forall c | c in SkipBlanks(p) :: c in p
  {
    if p != "" && IsSpace(p[0]) {
      SkipBlanksWithin(p[1..]);
    }
  }

  lemma {:induction false} ScanDigitsWithin(p: string, acc: nat)
    ensures forall c | c in ScanDigits(p, acc).1 :: c in p
    decreases p
  {
    if p != "" && IsDigit(p[0]) {
      ScanDigitsWithin(p[1..], acc * 10 + (p[0] as int - '0' as int));
    }
  }

  lemma ScanIntWithin(p: string)
    requires ScanInt(p).Some?
    ensures forall c | c in ScanInt(p).value.1 :: c in p
  {
    hide SkipBlanks, ScanDigits;
    SkipBlanksWithin(p);
    var t := SkipBlanks(p);
    var u := if t != "" && (t[0] == '-' || t[0] == '+') then t[1..] else t;
    assert forall c | c in u :: c in t;
    ScanDigitsWithin(u, 0);
  }

  /** `n` numbers are scanned from parts without commas exactly when there are that many parts, all before the last of
      them are numbers to their end, and the last of them starts with one. */
  lemma {:induction false} ScanJoined(ps: seq<string>, rest: string, n: nat)
    requires ps != [] && n > 0 && Barrier(rest) && rest[0] != ','
    requires forall k | 0 <= k < |ps| :: ',' !in ps[k]
    ensures ScanInts(Joined(ps) + rest, n).Some?
      <==> n <= |ps| && (forall k | 0 <= k < n - 1 :: Whole(ps[k])) && ScanInt(ps[n - 1]).Some?
    decreases n
  {
    hide ScanInt;
    var p, last := ps[0], |ps| == 1;
    var tail := if last then rest else "," + (Joined(ps[1..]) + rest);
    assert Joined(ps) + rest == p + tail;
    ScanIntAppend(p, tail);
    if ScanInt(p).Some? && n > 1 {
      var q := ScanInt(p).value.1;
      ScanIntWithin(p);
      if q != "" {
        assert q[0] in q && (q + tail)[0] == q[0];
      } else {
        assert q + tail == tail;
        if !last {
          assert tail[1..] == Joined(ps[1..]) + rest;
          ScanJoined(ps[1..], rest, n - 1);
          assert forall k | 1 <= k < |ps| :: ps[1..][k - 1] == ps[k];
        }
      }
    }
  }

  // ----- The parts of a frame -----

  /** Digits, possibly behind a minus sign. */
  predicate Numeral(p: string) {
    && p != "" && (IsDigit(p[0]) || (p[0] == '-' && |p| > 1))
    && forall k | 1 <= k < |p| :: IsDigit(p[k])
  }

  lemma {:induction false} ScanDigitsAll(p: string, acc: nat)
    ensures ScanDigits(p, acc).1 == "" <==> forall k | 0 <= k < |p| :: IsDigit(p[k])
    decreases p
  {
    if p != "" && IsDigit(p[0]) {
      ScanDigitsAll(p[1..], acc * 10 + (p[0] as int - '0' as int));
      assert forall k | 1 <= k < |p| :: p[k] == p[1..][k - 1];
    }
  }

  /** Of the texts without blanks in front, the numbers are the digits, possibly behind a sign. */
  lemma WholeIff(p: string)
    requires p != "" && !IsSpace(p[0])
    ensures Whole(p) <==>
      var from := if p[0] == '-' || p[0] == '+' then 1 else 0;
      from < |p| && forall k | from <= k < |p| :: IsDigit(p[k])
  {
    assert SkipBlanks(p) == p;
    hide SkipBlanks, ScanDigits;
    var u := if p[0] == '-' || p[0] == '+' then p[1..] else p;
    ScanDigitsAll(u, 0);
    if p[0] == '-' || p[0] == '+' {
      assert forall k | 1 <= k < |p| :: p[k] == p[1..][k - 1];
    }
  }

  /** One character of a numeral changed into anything but a comma. */
  lemma WholeAltered(p: string, j: nat, c: char)
    requires Numeral(p) && j < |p| && c != ','
    ensures Whole(p[j := c]) <==> IsDigit(c) || (j == 0 && |p| > 1 && (IsSpace(c) || c == '+' || c == '-'))
    ensures |p| == 1 ==> (ScanInt(p[j := c]).Some? <==> IsDigit(c))
  {
    var q := p[j := c];
    if j == 0 && IsSpace(c) {
      assert q[1..] == p[1..];
      if |p| > 1 {
        WholeIff(p[1..]);
      } else {
        assert q[1..] == "";
      }
    } else {
      WholeIff(q);
      assert forall k | 0 <= k < |p| && k != j :: q[k] == p[k];
      assert q[j] == c;
      hide Whole;
      if |p| == 1 {
        assert q == [c];
      }
    }
  }

  /** A numeral cut in two by a comma. */
  lemma WholePieces(p: string, j: nat)
    requires Numeral(p) && j < |p|
    ensures Whole(p[..j]) && Whole(p[j + 1..]) <==> 1 <= j < |p| - 1 && p[j - 1] != '-'
    ensures |p| <= 2 ==> !Whole(p[..j]) || ScanInt(p[j + 1..]).None?
  {
    var a, b := p[..j], p[j + 1..];
    NoNumber();
    if a != "" {
      WholeIff(a);
      assert a[0] == p[0];
    }
    if b != "" {
      WholeIff(b);
      assert b[0] == p[j + 1];
    }
  }

  lemma NoNumber()
    ensures ScanInt("").None? && !Whole("")
  {
  }

  // ----- Changing one character between the braces -----

  /** Where part `k` starts. */
  function Start(ps: seq<string>, k: nat): nat
    requires k < |ps|
  {
    if k == 0 then 0 else |ps[0]| + 1 + Start(ps[1..], k - 1)
  }

  lemma {:induction false} InPart(ps: seq<string>, k: nat, j: nat, c: char)
    requires k < |ps| && j < |ps[k]|
    ensures Start(ps, k) + j < |Joined(ps)| && Joined(ps)[Start(ps, k) + j] == ps[k][j]
    ensures Joined(ps)[Start(ps, k) + j := c] == Joined(ps[k := ps[k][j := c]])
  {
    var qs := ps[k := ps[k][j := c]];
    if k > 0 {
      InPart(ps[1..], k - 1, j, c);
      assert qs[1..] == ps[1..][k - 1 := ps[k][j := c]];
    } else if |ps| > 1 {
      assert qs[1..] == ps[1..];
    }
  }

  /** A comma inside a part makes two parts of it. */
  lemma {:induction false} SplitPart(ps: seq<string>, k: nat, j: nat)
    requires k < |ps| && j < |ps[k]|
    ensures Joined(ps[k := ps[k][j := ',']]) == Joined(ps[..k] + [ps[k][..j], ps[k][j + 1..]] + ps[k + 1..])
  {
    var qs := ps[k := ps[k][j := ',']];
    var rs := ps[..k] + [ps[k][..j], ps[k][j + 1..]] + ps[k + 1..];
    if k > 0 {
      SplitPart(ps[1..], k - 1, j);
      assert qs[1..] == ps[1..][k - 1 := ps[k][j := ',']];
      assert rs[1..] == ps[1..][..k - 1] + [ps[1..][k - 1][..j], ps[1..][k - 1][j + 1..]] + ps[1..][k..];
    } else {
      assert qs[1..] == ps[1..] && rs[1..][1..] == ps[1..];
      assert ps[0][j := ','] == ps[0][..j] + "," + ps[0][j + 1..];
    }
  }

  /** Another character in place of a comma makes one part of two. */
  lemma {:induction false} MergeParts(ps: seq<string>, k: nat, c: char)
    requires k + 1 < |ps|
    ensures Start(ps, k) + |ps[k]| < |Joined(ps)| && Joined(ps)[Start(ps, k) + |ps[k]|] == ','
    ensures Joined(ps)[Start(ps, k) + |ps[k]| := c] == Joined(ps[..k] + [ps[k] + [c] + ps[k + 1]] + ps[k + 2..])
  {
    var rs := ps[..k] + [ps[k] + [c] + ps[k + 1]] + ps[k + 2..];
    if k > 0 {
      MergeParts(ps[1..], k - 1, c);
      assert rs[1..] == ps[1..][..k - 1] + [ps[1..][k - 1] + [c] + ps[1..][k]] + ps[1..][k + 1..];
    } else {
      assert rs[1..] == ps[2..] && ps[1..][1..] == ps[2..];
    }
  }

  // ----- Five numbers -----

  /** The widths of a normal frame whose numbers fit. */
  predicate Laid(ps: seq<string>) {
    && |ps| == 5
    && |ps[0]| == 8 && |ps[1]| == 8 && |ps[2]| == 3 && |ps[3]| == 2 && |ps[4]| == 1
    && forall k | 0 <= k < 5 :: Numeral(ps[k])
  }

  lemma NumeralFacts(p: string)
    requires Numeral(p)
    ensures Whole(p) && ',' !in p
  {
    WholeIff(p);
    assert forall c | c in p :: IsDigit(c) || c == '-';
  }

  lemma LaidFacts(ps: seq<string>)
    requires Laid(ps)
    ensures forall k | 0 <= k < 5 :: Whole(ps[k]) && ',' !in ps[k]
    ensures Start(ps, 0) == 0 && Start(ps, 1) == 9 && Start(ps, 2) == 18 && Start(ps, 3) == 22 && Start(ps, 4) == 25
    ensures |Joined(ps)| == 26
  {
    hide Whole, Numeral;
    forall k | 0 <= k < 5
      ensures Whole(ps[k]) && ',' !in ps[k]
    {
      NumeralFacts(ps[k]);
    }
    var a, b, c, d := ps[1..], ps[2..], ps[3..], ps[4..];
    assert a[1..] == b && b[1..] == c && c[1..] == d;
    assert Start(d, 0) == Start(c, 0) == Start(b, 0) == Start(a, 0) == 0;
    assert Start(c, 1) == 3 && Start(b, 1) == 4 && Start(a, 1) == 9;
    assert Start(b, 2) == 7 && Start(a, 2) == 13 && Start(a, 3) == 16;
    assert |Joined(d)| == 1 && |Joined(c)| == 4 && |Joined(b)| == 8 && |Joined(a)| == 17;
  }

  lemma AlteredPart(ps: seq<string>, k: nat, j: nat, c: char, rest: string)
    requires Laid(ps) && k < 5 && j < |ps[k]| && c != ',' && Barrier(rest) && rest[0] != ','
    ensures ScanInts(Joined(ps[k := ps[k][j := c]]) + rest, 5).Some?
      <==> IsDigit(c) || (j == 0 && k < 4 && (IsSpace(c) || c == '+' || c == '-'))
  {
    LaidFacts(ps);
    WholeAltered(ps[k], j, c);
    hide Whole, Numeral, ScanInt, ScanInts, Joined;
    var qs := ps[k := ps[k][j := c]];
    assert ',' !in qs[k] by {
      assert forall i | 0 <= i < |ps[k]| && i != j :: qs[k][i] == ps[k][i] && ps[k][i] in ps[k];
    }
    ScanJoined(qs, rest, 5);
    assert forall i | 0 <= i < 5 && i != k :: qs[i] == ps[i];
    WholeSome(ps[4]);
  }

  lemma WholeSome(p: string)
    ensures Whole(p) ==> ScanInt(p).Some?
  {
  }

  lemma SplitByComma(ps: seq<string>, k: nat, j: nat, rest: string)
    requires Laid(ps) && k < 5 && j < |ps[k]| && Barrier(rest) && rest[0] != ','
    ensures ScanInts(Joined(ps[k := ps[k][j := ',']]) + rest, 5).Some?
      <==> 1 <= j < |ps[k]| - 1 && ps[k][j - 1] != '-'
  {
    hide Whole, Numeral, ScanInt, ScanInts, Joined, Start, Laid, Barrier;
    LaidFacts(ps);
    LaidWidths(ps);
    WholePieces(ps[k], j);
    NoNumber();
    SplitPart(ps, k, j);
    var p := ps[k];
    var rs := ps[..k] + [p[..j], p[j + 1..]] + ps[k + 1..];
    ScanJoined(rs, rest, 5);
    WholeSome(rs[4]);
    if k == 4 {
      assert rs[4] == "";
    } else if k == 3 {
      assert rs[3] == p[..j] && rs[4] == p[j + 1..];
    } else {
      assert rs[k] == p[..j] && rs[k + 1] == p[j + 1..];
    }
  }

  lemma MergedAtComma(ps: seq<string>, k: nat, c: char, rest: string)
    requires Laid(ps) && k < 4 && c != ',' && Barrier(rest) && rest[0] != ','
    ensures Start(ps, k) + |ps[k]| < |Joined(ps)|
    ensures ScanInts(Joined(ps)[Start(ps, k) + |ps[k]| := c] + rest, 5).None?
  {
    hide Whole, Numeral, ScanInt, ScanInts, Joined, Start, Laid, Barrier;
    LaidFacts(ps);
    LaidWidths(ps);
    MergeParts(ps, k, c);
    var rs := ps[..k] + [ps[k] + [c] + ps[k + 1]] + ps[k + 2..];
    MergedPlain(ps, rs, k, c);
    ScanJoined(rs, rest, 5);
  }

  lemma MergedPlain(ps: seq<string>, rs: seq<string>, k: nat, c: char)
    requires |ps| == 5 && k < 4 && c != ',' && forall i | 0 <= i < 5 :: ',' !in ps[i]
    requires rs == ps[..k] + [ps[k] + [c] + ps[k + 1]] + ps[k + 2..]
    ensures |rs| == 4 && forall i | 0 <= i < 4 :: ',' !in rs[i]
  {
    forall i | 0 <= i < 4
      ensures ',' !in rs[i]
    {
      if i != k {
        assert rs[i] == ps[if i < k then i else i + 1];
      }
    }
  }

  /** After five numerals anything may follow. */
  lemma {:induction false} ScanNumerals(ps: seq<string>, rest: string)
    requires ps != [] && forall k | 0 <= k < |ps| :: Numeral(ps[k])
    ensures ScanInts(Joined(ps) + rest, |ps|).Some?
    decreases |ps|
  {
    hide ScanInt, Numeral;
    assert Numeral(ps[0]);
    if |ps| == 1 {
      ScanNumeral(ps[0], rest);
    } else {
      var tail := "," + (Joined(ps[1..]) + rest);
      assert Joined(ps) + rest == ps[0] + tail;
      NumeralFacts(ps[0]);
      ScanIntAppend(ps[0], tail);
      assert "" + tail == tail && tail[1..] == Joined(ps[1..]) + rest;
      ScanNumerals(ps[1..], rest);
    }
  }

  lemma ScanNumeral(p: string, rest: string)
    requires Numeral(p)
    ensures ScanInt(p + rest).Some?
  {
    assert (p + rest)[0] == p[0] && SkipBlanks(p + rest) == p + rest;
    if p[0] == '-' {
      assert (p + rest)[1..][0] == p[1];
    }
  }

  // ----- Frames -----

  function Texts(fs: seq<Field>): seq<string> {
    seq(|fs|, i requires 0 <= i < |fs| => Format(fs[i]))
  }

  lemma {:induction false} FieldsJoined(fs: seq<Field>)
    ensures Fields(fs) == Joined(Texts(fs))
  {
    hide Format;
    if |fs| > 1 {
      FieldsJoined(fs[1..]);
      assert Texts(fs)[1..] == Texts(fs[1..]);
    }
  }

  lemma FormatNumeral(f: Field)
    ensures Numeral(Format(f))
  {
    var digits := Digits(if f.value >= 0 then f.value else -f.value);
    var width := if f.value >= 0 then f.width else if f.width > 0 then f.width - 1 else 0;
    var padded := Pad(digits, width);
    forall k | 0 <= k < |padded|
      ensures IsDigit(padded[k])
    {
      assert padded[k] in padded;
    }
    hide Digits, Pad;
    assert Format(f) == (if f.value >= 0 then padded else "-" + padded);
    assert forall k | 1 <= k < |Format(f)| :: Format(f)[k] == if f.value >= 0 then padded[k] else padded[k - 1];
  }

  lemma FrameParts(target: uint32, self: uint32, counter: byte, command: byte, data: byte)
    requires Eight(target) && Eight(self) && command < 100 && data < 10
    ensures var ps := Texts(NormalFields(target, self, counter, command, data));
      && Laid(ps)
      && NormalText(target, self, counter, command, data) == "{" + Joined(ps) + "}"
      && NormalFrame(target, self, counter, command, data)[..BODY] == "{" + Joined(ps) + "}"
  {
    var fs := NormalFields(target, self, counter, command, data);
    Powers();
    NormalLength(target, self, counter, command, data);
    FieldsJoined(fs);
    forall k | 0 <= k < 5
      ensures Numeral(Format(fs[k])) && |Format(fs[k])| == fs[k].width
    {
      FormatNumeral(fs[k]);
      FormatLength(fs[k]);
    }
    hide Format, Pow10, Numeral, CheckSum;
    assert Texts(fs)[0] == Format(fs[0]) && Texts(fs)[1] == Format(fs[1]) && Texts(fs)[2] == Format(fs[2]);
    assert Texts(fs)[3] == Format(fs[3]) && Texts(fs)[4] == Format(fs[4]);
  }

  const COMMAS := {9, 18, 22, 25}
  const SIGNS := {1, 10, 19, 23}

  /** A frame with `c` in place of character `i` of its body is still received. */
  predicate Survives(body: string, i: nat, c: char)
    requires i < BODY <= |body|
  {
    || c == body[i]
    || i == 27
    || (&& i != 0 && i !in COMMAS
        && (|| '0' <= c <= '9'
            || (i in SIGNS && (c == ' ' || 9 <= c as int <= 13 || c == '+' || c == '-'))
            || (c == ',' && (2 <= i <= 7 || 11 <= i <= 16 || i == 20) && body[i - 1] != '-')))
  }

  /** A frame damaged in one character of its body is still received, as some message, exactly when the character is the
      closing brace, or a digit took the place of a digit, or a blank or sign that of the first digit of a number of more
      than one, or a comma cut a number in two. The check digits would have shown the damage in all these cases. */
  lemma AlteredFrame(length: char, target: uint32, self: uint32, counter: byte, command: byte, data: byte, i: nat, c: char)
    requires Eight(target) && Eight(self) && command < 100 && data < 10 && i < BODY
    ensures var s := NormalFrame(target, self, counter, command, data);
      Receive([length] + s[i := c], BODY + 4).Some? <==> Survives(s, i, c)
  {
    var s := NormalFrame(target, self, counter, command, data);
    if c == s[i] {
      RadioRoundTrip(length, target, self, counter, command, data);
      assert s[i := c] == s;
    } else {
      FrameParts(target, self, counter, command, data);
      hide NormalFrame;
      ReceiveAltered(length, s, i, c);
      AlteredBody(Texts(NormalFields(target, self, counter, command, data)), s, i, c);
    }
  }

  lemma ReceiveAltered(length: char, s: string, i: nat, c: char)
    requires |s| == BODY + 4 && i < BODY && s[BODY + 2] == '\r' && s[BODY + 3] == '\n'
    ensures Receive([length] + s[i := c], BODY + 4).Some? <==> ScanBraced(s[i := c], 5).Some?
  {
    hide ScanInts;
    var rx := [length] + s[i := c];
    assert rx[1..] == s[i := c];
    if ScanBraced(rx[1..], 5).Some? {
      ScanCount(rx[1..][1..], 5);
    }
  }

  lemma {:induction false} ScanCount(s: string, n: nat)
    ensures ScanInts(s, n).Some? ==> |ScanInts(s, n).value| == n
    decreases n
  {
    hide ScanInt;
    if n > 1 && ScanInt(s).Some? && ScanInt(s).value.1 != "" {
      ScanCount(ScanInt(s).value.1[1..], n - 1);
    }
  }

  lemma AlteredBody(ps: seq<string>, s: string, i: nat, c: char)
    requires Laid(ps) && |s| == BODY + 4 && s[..BODY] == "{" + Joined(ps) + "}" && i < BODY && c != s[i]
    ensures ScanBraced(s[i := c], 5).Some? <==> Survives(s, i, c)
  {
    LaidFacts(ps);
    LaidWidths(ps);
    hide Laid, Joined, ScanInts, Numeral, Whole, Survives;
    var rest := "}" + s[BODY..];
    assert s == "{" + (Joined(ps) + rest);
    if i == 27 {
      AtBrace(ps, s, c);
    } else if i > 0 {
      assert s[i := c][1..] == Joined(ps)[i - 1 := c] + rest;
      if i in COMMAS {
        AtComma(ps, s, i, c, rest);
      } else {
        InNumber(ps, s, i, c, rest);
      }
    }
  }

  lemma AtBrace(ps: seq<string>, s: string, c: char)
    requires |ps| == 5 && (forall k | 0 <= k < 5 :: Numeral(ps[k])) && |Joined(ps)| == 26
    requires |s| == BODY + 4 && s[..BODY] == "{" + Joined(ps) + "}"
    ensures ScanBraced(s[27 := c], 5).Some?
  {
    hide Joined, ScanInts, Numeral;
    ScanNumerals(ps, [c] + s[BODY..]);
    var t := s[27 := c];
    assert t[..27] == s[..BODY][..27] == "{" + Joined(ps);
    assert t == t[..27] + ([c] + s[BODY..]);
    assert t[1..] == Joined(ps) + ([c] + s[BODY..]);
  }

  lemma AtComma(ps: seq<string>, s: string, i: nat, c: char, rest: string)
    requires Laid(ps) && |Joined(ps)| == 26 && |s| == BODY + 4 && s == "{" + (Joined(ps) + rest) && Barrier(rest) && rest[0] != ','
    requires i in COMMAS && c != s[i]
    ensures ScanInts(Joined(ps)[i - 1 := c] + rest, 5).None? && !Survives(s, i, c)
  {
    LaidFacts(ps);
    LaidWidths(ps);
    hide Laid, Joined, Start, ScanInts, Numeral, Whole, Survives, Barrier;
    var k := if i == 9 then 0 else if i == 18 then 1 else if i == 22 then 2 else 3;
    LaidComma(ps, k);
    assert s[i] == Joined(ps)[i - 1] == ',';
    MergedAtComma(ps, k, c, rest);
  }

  lemma InNumber(ps: seq<string>, s: string, i: nat, c: char, rest: string)
    requires Laid(ps) && |Joined(ps)| == 26 && |s| == BODY + 4 && s == "{" + (Joined(ps) + rest) && Barrier(rest) && rest[0] != ','
    requires 1 <= i <= 26 && i !in COMMAS && c != s[i]
    ensures ScanInts(Joined(ps)[i - 1 := c] + rest, 5).Some? <==> Survives(s, i, c)
  {
    LaidFacts(ps);
    LaidWidths(ps);
    hide Start;
    hide Laid, Joined, ScanInts, Numeral, Whole, Survives, Barrier, IsDigit, IsSpace;
    var k := if i < 9 then 0 else if i < 18 then 1 else if i < 22 then 2 else if i < 25 then 3 else 4;
    var j := i - 1 - Start(ps, k);
    assert At5(i, k, j);
    InPart(ps, k, j, c);
    assert s[i] == ps[k][j];
    if c == ',' {
      InNumberComma(ps, s, i, k, j, rest);
    } else {
      AlteredPart(ps, k, j, c, rest);
      SurvivesOther(s, i, k, j, c);
    }
  }

  lemma InNumberComma(ps: seq<string>, s: string, i: nat, k: nat, j: nat, rest: string)
    requires Laid(ps) && |ps| == 5 && |s| == BODY + 4 && s == "{" + (Joined(ps) + rest) && Barrier(rest) && rest[0] != ','
    requires At5(i, k, j) && i == Start(ps, k) + j + 1 && j < |ps[k]| && s[i] != ','
    ensures ScanInts(Joined(ps[k := ps[k][j := ',']]) + rest, 5).Some? <==> Survives(s, i, ',')
  {
    LaidWidths(ps);
    hide Start, Laid, Joined, ScanInts, Numeral, Whole, Survives, Barrier;
    SplitByComma(ps, k, j, rest);
    if j > 0 {
      InPart(ps, k, j - 1, ',');
      assert s[i - 1] == Joined(ps)[i - 2];
    }
    SurvivesComma(s, i, k, j);
  }

  /** The condition in terms of the number and the place in it. */
  predicate At5(i: nat, k: nat, j: nat) {
    && k < 5 && i == j + (if k == 0 then 1 else if k == 1 then 10 else if k == 2 then 19 else if k == 3 then 23 else 26)
    && j < (if k < 2 then 8 else if k == 2 then 3 else if k == 3 then 2 else 1)
  }

  lemma SurvivesComma(s: string, i: nat, k: nat, j: nat)
    requires |s| >= BODY && At5(i, k, j) && s[i] != ','
    ensures Survives(s, i, ',') <==> k < 3 && 1 <= j < (if k < 2 then 7 else 2) && s[i - 1] != '-'
  {
  }

  lemma SurvivesOther(s: string, i: nat, k: nat, j: nat, c: char)
    requires |s| >= BODY && At5(i, k, j) && s[i] != c && c != ','
    ensures Survives(s, i, c) <==> IsDigit(c) || (j == 0 && k < 4 && (IsSpace(c) || c == '+' || c == '-'))
  {
  }

  lemma LaidWidths(ps: seq<string>)
    requires Laid(ps)
    ensures |ps| == 5 && |ps[0]| == 8 && |ps[1]| == 8 && |ps[2]| == 3 && |ps[3]| == 2 && |ps[4]| == 1
    ensures forall k | 0 <= k < 5 :: Numeral(ps[k])
  {
  }

  lemma LaidComma(ps: seq<string>, k: nat)
    requires Laid(ps) && k < 4
    ensures Start(ps, k) + |ps[k]| < |Joined(ps)| && Joined(ps)[Start(ps, k) + |ps[k]|] == ','
  {
    MergeParts(ps, k, 'x');
  }

  // ----- Received as another message -----

  lemma CommandText(command: byte)
    requires command < 10
    ensures Format(Field(command, 2)) == ['0', DigitChar(command)]
  {
    assert ZeroDigits(1) == "0";
  }

  /** The damage can change what is received: with the second digit of a command replaced, the message of the other
      command arrives, under the check digits of the first. */
  lemma ChangedCommand(length: char, target: uint32, self: uint32, counter: byte, command: byte, other: byte, data: byte)
    requires Eight(target) && Eight(self) && command < 10 && other < 10 && data < 10
    ensures var s := NormalFrame(target, self, counter, command, data)[24 := DigitChar(other)];
      Receive([length] + s, BODY + 4) == Some(Message(Signed(target), Signed(self), (counter as int + 1) % 256, other, data))
  {
    FrameParts(target, self, counter, command, data);
    FrameParts(target, self, counter, other, data);
    var s, r := NormalFrame(target, self, counter, command, data), NormalFrame(target, self, counter, other, data);
    var ps := Texts(NormalFields(target, self, counter, command, data));
    var qs := Texts(NormalFields(target, self, counter, other, data));
    FrameTail(target, self, counter, command, data);
    FrameTail(target, self, counter, other, data);
    LaidFacts(ps);
    LaidWidths(ps);
    hide Laid, Numeral, Whole, NormalFrame, NormalText, Format, Receive;
    InPart(ps, 3, 1, DigitChar(other));
    OtherCommand(target, self, counter, command, other, data);
    hide Joined, Start, Texts;
    AnyCheckDigits(length, target, self, counter, other, data, s[BODY], s[BODY + 1]);
    SameBody(s, r, Joined(ps), Joined(qs), DigitChar(other));
  }

  lemma OtherCommand(target: uint32, self: uint32, counter: byte, command: byte, other: byte, data: byte)
    requires command < 10 && other < 10
    ensures var ps := Texts(NormalFields(target, self, counter, command, data));
      |ps[3]| == 2 && Texts(NormalFields(target, self, counter, other, data)) == ps[3 := ps[3][1 := DigitChar(other)]]
  {
    CommandText(command);
    CommandText(other);
    hide Format;
    var ps, qs := Texts(NormalFields(target, self, counter, command, data)), Texts(NormalFields(target, self, counter, other, data));
    assert qs[3] == ps[3][1 := DigitChar(other)];
    assert qs[0] == ps[0] && qs[1] == ps[1] && qs[2] == ps[2] && qs[4] == ps[4];
  }

  lemma FrameTail(target: uint32, self: uint32, counter: byte, command: byte, data: byte)
    ensures NormalFrame(target, self, counter, command, data)[BODY + 2..] == "\r\n"
  {
  }

  lemma SameBody(s: string, r: string, p: string, q: string, c: char)
    requires |s| == |r| == BODY + 4 && |p| == 26 && q == p[23 := c]
    requires s[..BODY] == "{" + p + "}" && r[..BODY] == "{" + q + "}" && s[BODY + 2..] == r[BODY + 2..]
    ensures r[BODY := s[BODY]][BODY + 1 := s[BODY + 1]] == s[24 := c]
  {
    var a, b := r[BODY := s[BODY]][BODY + 1 := s[BODY + 1]], s[24 := c];
    forall k | 0 <= k < BODY + 4
      ensures a[k] == b[k]
    {
      if k < BODY {
        assert r[k] == r[..BODY][k] && s[k] == s[..BODY][k];
      } else if k >= BODY + 2 {
        assert s[k] == s[BODY + 2..][k - BODY - 2] && r[k] == r[BODY + 2..][k - BODY - 2];
      }
    }
  }
}
