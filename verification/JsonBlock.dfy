/** The two passes of parse_string: the first measures the block for the string, the second fills it. Only the second
    counts braces (wifi/cJSON.c:193-253). */
module JsonBlock {
  import opened Wrappers
  import opened JsonText
  import opened JsonParse
  import opened JsonRoundTrip

  /** The first pass, from behind the opening quote: how many characters it counts, an escape as one, and the text from
      the first quote that is not escaped. */
  function Measured(s: string): (r: (nat, string))
    ensures |r.1| <= |s|
    decreases |s|
  {
    var c := At(s, 0);
    if c == '\"' || c == '\0' then (0, s)
    else
      var r := Measured(Drop(s, if c == '\\' then 2 else 1));
      (r.0 + 1, r.1)
  }

  /** One round of the first pass. */
  lemma MeasuredStep(s: string)
    ensures var c := At(s, 0); var r := Measured(Drop(s, if c == '\\' then 2 else 1));
      Measured(s) == if c == '\"' || c == '\0' then (0, s) else (r.0 + 1, r.1)
  {
  }

  lemma DropSizes(s: string)
    ensures Drop(s, 0) == s && forall k: nat :: |Drop(s, k)| == if k <= |s| then |s| - k else 0
  {
  }

  // ----- A fit -----

  /** The first pass over the next `j` characters, provided it gets past them: it counts at least one for every two, and
      may end one further on, behind a backslash and the character it protects. */
  lemma {:induction false} MeasureOver(s: string, j: nat) returns (u: nat, ahead: bool)
    requires j <= |s| && |Measured(s).1| <= |s| - j
    ensures 2 * u >= j + if ahead then 1 else 0
    ensures var r := Measured(Drop(s, j + if ahead then 1 else 0)); Measured(s) == (u + r.0, r.1)
    ensures ahead ==> j > 0
    decreases j
  {
    hide Measured, Drop;
    DropSizes(s);
    MeasuredStep(s);
    if j == 0 {
      u, ahead := 0, false;
    } else {
      var k := if At(s, 0) == '\\' then 2 else 1;
      if k > j {
        u, ahead := 1, true;
      } else {
        u, ahead := MeasureOver(Drop(s, k), j - k);
        AtDrop(s, k, j - k + if ahead then 1 else 0);
        u := u + 1;
      }
    }
  }

  lemma EscapeSizes(s: string)
    requires At(s, 0) == '\\'
    ensures var e := Unescape(s);
      && (e.1 == 2 || e.1 == 6 || e.1 == 12)
      && 2 * |e.0| <= e.1
      && (e.1 > |s| ==> e.0 == "")
  {
  }

  /** From the same place: a second pass that ends where the first one did writes no more than was counted. */
  lemma {:induction false} FitsFrom(s: string, nest: int)
    requires |StringBody(s, nest).1| == |Measured(s).1|
    ensures |StringBody(s, nest).0| <= Measured(s).0
    decreases |s|
  {
    hide StringBody, Unescape, Drop;
    if At(s, 0) == '\0' || (At(s, 0) == '\"' && nest == 0) {
      BodyStops(s, nest);
    } else {
      BodyRound(s, nest);
      DropSizes(s);
      if At(s, 0) == '\\' {
        FitsEscape(s, nest);
      } else {
        FitsFrom(Drop(s, 1), nest + Brace(s[0]));
      }
    }
  }

  lemma FitsEscape(s: string, nest: int)
    requires At(s, 0) == '\\' && |StringBody(s, nest).1| == |Measured(s).1|
    ensures |StringBody(s, nest).0| <= Measured(s).0
    decreases |s|, 0
  {
    hide StringBody, Unescape, Drop;
    BodyRound(s, nest);
    EscapeSizes(s);
    DropSizes(s);
    var e := Unescape(s);
    var r := StringBody(Drop(s, e.1), nest);
    if e.1 > |s| {
      assert Drop(s, e.1) == "";
      BodyStops("", nest);
    } else {
      var u, ahead := MeasureOver(s, e.1);
      if ahead {
        FitsBehind(Drop(s, e.1), nest, s, e.1);
      } else {
        FitsFrom(Drop(s, e.1), nest);
      }
    }
  }

  /** From one place behind the first pass: at most one character more. */
  lemma {:induction false} FitsBehind(s: string, nest: int, whole: string, k: nat)
    requires k > 0 && k <= |whole| && s == Drop(whole, k) && |StringBody(s, nest).1| == |Measured(Drop(whole, k + 1)).1|
    ensures |StringBody(s, nest).0| <= Measured(Drop(whole, k + 1)).0 + 1
    decreases |s|
  {
    hide StringBody, Unescape, Drop;
    AtDrop(whole, k, 1);
    DropSizes(whole);
    DropSizes(s);
    if At(s, 0) == '\0' || (At(s, 0) == '\"' && nest == 0) {
      BodyStops(s, nest);
    } else {
      BodyRound(s, nest);
      if At(s, 0) != '\\' {
        FitsFrom(Drop(s, 1), nest + Brace(s[0]));
      } else {
        EscapeSizes(s);
        var e := Unescape(s);
        if e.1 > |s| {
          assert Drop(s, e.1) == "";
          BodyStops("", nest);
        } else {
          var u, ahead := MeasureOver(Drop(s, 1), e.1 - 1);
          AtDrop(s, 1, e.1 - 1);
          AtDrop(s, 1, e.1);
          if ahead {
            FitsBehind(Drop(s, e.1), nest, s, e.1);
          } else {
            FitsFrom(Drop(s, e.1), nest);
          }
        }
      }
    }
  }

  /** The block the first pass asks for holds the string the second pass reads, and its terminator. */
  predicate BlockFits(s: string)
    requires At(s, 0) == '\"'
  {
    |StringBody(s[1..], 0).0| + 1 <= Measured(s[1..]).0 + 1
  }

  /** For every text, escapes cut short included: when the second pass ends at the first plain quote, it stays inside the
      block. */
  lemma SecondPassFits(s: string)
    requires At(s, 0) == '\"' && StringBody(s[1..], 0).1 == Measured(s[1..]).1
    ensures BlockFits(s)
  {
    FitsFrom(s[1..], 0);
  }

  // ----- Printed strings -----

  /** How many characters need the six-character escape. */
  function Long(s: string): nat {
    if s == "" then 0 else (if !IsPlain(s[0]) && |Escape(s[0])| == 6 then 1 else 0) + Long(s[1..])
  }

  lemma MeasuredPlain(c: char, more: string)
    requires c != '\"' && c != '\\' && c != '\0'
    ensures Measured([c] + more) == (1 + Measured(more).0, Measured(more).1)
  {
    assert Drop([c] + more, 1) == more;
  }

  lemma MeasuredPair(c: char, more: string)
    ensures Measured(['\\', c] + more) == (1 + Measured(more).0, Measured(more).1)
  {
    assert Drop(['\\', c] + more, 2) == more;
  }

  lemma MeasuredPiece(c: char, more: string)
    requires c != '\0'
    ensures var piece := if IsPlain(c) then [c] else Escape(c);
      Measured(piece + more) == ((if |piece| == 6 then 5 else 1) + Measured(more).0, Measured(more).1)
  {
    var piece := if IsPlain(c) then [c] else Escape(c);
    if IsPlain(c) {
      MeasuredPlain(c, more);
    } else if |piece| == 2 {
      MeasuredPair(piece[1], more);
      assert piece == ['\\', piece[1]];
    } else {
      MeasuredHex(piece[4], piece[5], more);
      assert piece == "\\u00" + [piece[4], piece[5]];
    }
  }

  lemma MeasuredHex(x: char, y: char, more: string)
    requires x !in "\"\\\0" && y !in "\"\\\0"
    ensures Measured("\\u00" + [x, y] + more) == (5 + Measured(more).0, Measured(more).1)
  {
    hide Measured;
    var a := [y] + more;
    var b := [x] + a;
    var c := ['0'] + b;
    var d := ['0'] + c;
    MeasuredPlain(y, more);
    MeasuredPlain(x, a);
    MeasuredPlain('0', b);
    MeasuredPlain('0', c);
    MeasuredPair('u', d);
    assert "\\u00" + [x, y] + more == ['\\', 'u'] + d;
  }

  /** The first pass over a printed string stops at its closing quote and counts every character once, those with a
      six-character escape five times. */
  lemma {:induction false} MeasuredPrint(s: string, rest: string)
    requires NulFree(s)
    ensures Measured(EscapeAll(s) + ("\"" + rest)) == (|s| + 4 * Long(s), "\"" + rest)
  {
    hide EscapeAll, Escape, Measured;
    EscapeAllFirst(s, "\"" + rest);
    if s == "" {
      MeasuredAtQuote(rest);
    } else {
      var c, more := s[0], EscapeAll(s[1..]) + ("\"" + rest);
      MeasuredPiece(c, more);
      MeasuredPrint(s[1..], rest);
    }
  }

  lemma MeasuredAtQuote(rest: string)
    ensures Measured("\"" + rest) == (0, "\"" + rest)
  {
  }

  /** A printed string is read into its block if and only if what is read on from its closing quote, with the braces it left
      open, is no longer than the room that its six-character escapes leave. So it fits when the braces balance, and without
      such escapes only then: an unbalanced string is read past its closing quote and written past the end of the block. */
  lemma PrintedBlock(s: string, rest: string)
    requires NulFree(s)
    ensures BlockFits(Quoted(s) + rest) <==> |StringBody("\"" + rest, Nesting(s)).0| <= 4 * Long(s)
    ensures Nesting(s) == 0 ==> BlockFits(Quoted(s) + rest)
    ensures Long(s) == 0 ==> (BlockFits(Quoted(s) + rest) <==> Nesting(s) == 0)
  {
    hide StringBody, Measured, EscapeAll, Long, Nesting;
    var q := "\"" + rest;
    assert (Quoted(s) + rest)[1..] == EscapeAll(s) + q;
    MeasuredPrint(s, rest);
    BodyRoundTrip(s, 0, q);
    if Nesting(s) == 0 {
      BodyStops(q, 0);
    } else {
      BodyPastQuote(rest, Nesting(s));
    }
  }

  /** The smallest such string: the print of a single opening brace asks for a block of two, and three are written. */
  lemma OverrunByBrace()
    ensures Quoted("{") == "\"{\"" && Measured("{\"").0 + 1 == 2 && |StringBody("{\"", 0).0| + 1 == 3
    ensures !BlockFits(Quoted("{"))
  {
    assert EscapeAll("{"[1..]) == "";
    assert EscapeAll("{") == "{";
    assert Drop("{\"", 1) == "\"" && "{\""[1..] == "\"" && "\""[1..] == "";
    BodyStops("", 1);
    BodyRound("\"", 1);
    assert Drop("\"", 1) == "" && ['\"'] + "" == "\"";
    BodyRound("{\"", 0);
    assert Measured("\"") == (0, "\"");
  }
}
