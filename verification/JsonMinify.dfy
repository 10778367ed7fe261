/** cJSON_Minify: white space and comments are removed in place (wifi/cJSON.c:739-754). */
module JsonMinify {
  import opened Wrappers
  import opened JsonText
  import opened JsonParse
  import opened JsonRoundTrip

  predicate IsBlank(c: char) {
    c == ' ' || c == '\t' || c == '\r' || c == '\n'
  }

  function SkipLine(s: string): (r: string)
    ensures |r| <= |s|
    decreases |s|
  {
    if At(s, 0) != '\0' && At(s, 0) != '\n' then SkipLine(s[1..]) else s
  }

  /** The text from the closing `*` and `/`; None when the text ends first. */
  function SkipBlock(s: string): (r: Option<string>)
    ensures r.Some? ==> 2 <= |r.value| <= |s|
    decreases |s|
  {
    if At(s, 0) == '\0' then None
    else if At(s, 0) == '*' && At(s, 1) == '/' then Some(s)
    else SkipBlock(s[1..])
  }

  /** The rest of a string literal with its closing quote, and the text after it; None when the text ends first. */
  function Literal(s: string): (r: Option<(string, string)>)
    ensures r.Some? ==> |r.value.1| < |s|
    decreases |s|
  {
    var c := At(s, 0);
    if c == '\0' then None
    else if c == '\"' then Some(("\"", s[1..]))
    else
      var used := if c == '\\' then 2 else 1;
      if At(s, used - 1) == '\0' then None
      else
        var r := Literal(s[used..]);
        if r.None? then None else Some((s[..used] + r.value.0, r.value.1))
  }

  function Prepend(a: string, r: Option<string>): Option<string> {
    if r.None? then None else Some(a + r.value)
  }

  /** The minified text; None when a string literal or block comment is cut off by the end of the text, where the
      C code reads past its terminator. */
  function Minify(s: string): (r: Option<string>)
    ensures r.Some? ==> |r.value| <= |s|
    decreases |s|
  {
    var c := At(s, 0);
    if c == '\0' then Some("")
    else if IsBlank(c) then Minify(s[1..])
    else if c == '/' && At(s, 1) == '/' then Minify(SkipLine(s[1..]))
    else if c == '/' && At(s, 1) == '*' then
      var r := SkipBlock(s);
      if r.None? then None else Minify(r.value[2..])
    else if c == '\"' then
      var lit := Literal(s[1..]);
      if lit.None? then None else LiteralFits(s[1..]); Prepend("\"" + lit.value.0, Minify(lit.value.1))
    else Prepend([c], Minify(s[1..]))
  }

  lemma {:induction false} LiteralFits(s: string)
    requires Literal(s).Some?
    ensures s == Literal(s).value.0 + Literal(s).value.1
    decreases |s|
  {
    if At(s, 0) != '\"' {
      var used := if At(s, 0) == '\\' then 2 else 1;
      LiteralFits(s[used..]);
    }
  }

  // ----- White space and comments -----

  /** A comment up to the end of its line is removed, the end of the line included. */
  lemma {:induction false} LineComment(line: string, rest: string)
    requires '\n' !in line && '\0' !in line
    ensures Minify("//" + (line + ("\n" + rest))) == Minify(rest)
  {
    var s := "//" + (line + ("\n" + rest));
    assert s[1..] == "/" + (line + ("\n" + rest));
    assert ("/" + line) + ("\n" + rest) == s[1..];
    SkipLineTo("/" + line, "\n" + rest);
    assert ("\n" + rest)[1..] == rest;
    hide SkipLine;
    assert Minify("\n" + rest) == Minify(rest);
  }

  lemma {:induction false} SkipLineTo(line: string, rest: string)
    requires '\n' !in line && '\0' !in line && At(rest, 0) == '\n'
    ensures SkipLine(line + rest) == rest
  {
    if line == "" {
      assert line + rest == rest;
    } else {
      assert (line + rest)[1..] == line[1..] + rest;
      SkipLineTo(line[1..], rest);
    }
  }

  /** A block comment is removed up to the first star with a slash behind it; the star that opens the comment counts too. */
  lemma BlockComment(body: string, rest: string)
    requires '\0' !in body && (body != "" ==> body[0] != '/')
    requires forall i | 0 <= i < |body| - 1 :: !(body[i] == '*' && body[i + 1] == '/')
    ensures Minify("/*" + (body + ("*/" + rest))) == Minify(rest)
  {
    hide SkipBlock, Minify;
    var starred, close := "*" + body, "*/" + rest;
    Glue("*", body, close);
    Glue("/", "*", body + close);
    var s := "/" + (starred + close);
    assert "/*" + (body + close) == s;
    assert s[1..] == starred + close && close[2..] == rest;
    SkipBlockTo(starred, close);
    BlockRemoved(s, close);
  }

  lemma BlockRemoved(s: string, close: string)
    requires At(s, 0) == '/' && At(s, 1) == '*' && SkipBlock(s[1..]) == Some(close) && |close| >= 2
    ensures Minify(s) == Minify(close[2..])
  {
    assert SkipBlock(s) == SkipBlock(s[1..]);
    hide SkipBlock;
  }

  lemma {:induction false} SkipBlockTo(body: string, rest: string)
    requires '\0' !in body && "*/" <= rest
    requires forall i | 0 <= i < |body| - 1 :: !(body[i] == '*' && body[i + 1] == '/')
    ensures SkipBlock(body + rest) == Some(rest)
  {
    if body == "" {
      assert body + rest == rest;
    } else {
      assert (body + rest)[1..] == body[1..] + rest;
      assert At(body + rest, 1) == if |body| > 1 then body[1] else rest[0];
      SkipBlockTo(body[1..], rest);
    }
  }

  /** Blanks, tabs and both kinds of line ends are removed; any other character that opens no string or comment is kept. */
  lemma OneCharacter(c: char, rest: string)
    requires c != '\0' && c != '\"' && (c == '/' ==> At(rest, 0) != '/' && At(rest, 0) != '*')
    ensures Minify([c] + rest) == if c in " \t\r\n" then Minify(rest) else Prepend([c], Minify(rest))
  {
    assert ([c] + rest)[1..] == rest;
  }

  // ----- Minifying printed trees -----

  /** A literal with `a` put in front of its characters. */
  function Before(a: string, r: Option<(string, string)>): Option<(string, string)> {
    if r.None? then None else Some((a + r.value.0, r.value.1))
  }

  lemma BeforeBefore(a: string, b: string, r: Option<(string, string)>)
    ensures Before(a, Before(b, r)) == Before(a + b, r)
  {
    if r.Some? {
      Glue(a, b, r.value.0);
    }
  }

  lemma LiteralPlain(c: char, more: string)
    requires c != '\0' && c != '\\' && c != '\"'
    ensures Literal([c] + more) == Before([c], Literal(more))
  {
    assert ([c] + more)[1..] == more && ([c] + more)[..1] == [c];
  }

  lemma LiteralEscaped(c: char, more: string)
    requires c != '\0'
    ensures Literal(['\\', c] + more) == Before(['\\', c], Literal(more))
  {
    var s := ['\\', c] + more;
    assert s[2..] == more && s[..2] == ['\\', c];
  }

  lemma LiteralHex(x: char, y: char, more: string)
    requires x != '\0' && x != '\\' && x != '\"' && y != '\0' && y != '\\' && y != '\"'
    ensures Literal(("\\u00" + [x, y]) + more) == Before("\\u00" + [x, y], Literal(more))
  {
    hide Literal, Before;
    LiteralPlain(y, more);
    LiteralPlain(x, [y] + more);
    BeforeBefore([x], [y], Literal(more));
    LiteralPlain('0', [x] + ([y] + more));
    BeforeBefore("0", [x] + [y], Literal(more));
    LiteralPlain('0', "0" + ([x] + ([y] + more)));
    BeforeBefore("0", "0" + ([x] + [y]), Literal(more));
    LiteralEscaped('u', "0" + ("0" + ([x] + ([y] + more))));
    BeforeBefore("\\u", "0" + ("0" + ([x] + [y])), Literal(more));
    assert ("\\u00" + [x, y]) + more == "\\u" + ("0" + ("0" + ([x] + ([y] + more))));
    assert "\\u00" + [x, y] == "\\u" + ("0" + ("0" + ([x] + [y])));
  }

  lemma LiteralPiece(c: char, more: string)
    requires c != '\0'
    ensures var piece := if IsPlain(c) then [c] else Escape(c);
            Literal(piece + more) == Before(piece, Literal(more))
  {
    hide Literal, Before;
    if IsPlain(c) {
      LiteralPlain(c, more);
    } else if |Escape(c)| == 2 {
      assert Escape(c) == ['\\', Escape(c)[1]];
      LiteralEscaped(Escape(c)[1], more);
    } else {
      LiteralHex(HexChar(c as int / 16), HexChar(c as int % 16), more);
    }
  }

  lemma {:induction false} LiteralOfEscaped(s: string, rest: string)
    requires NulFree(s)
    ensures Literal(EscapeAll(s) + ("\"" + rest)) == Some((EscapeAll(s) + "\"", rest))
  {
    hide Literal, Escape;
    var tail := "\"" + rest;
    if s == "" {
      assert EscapeAll(s) + tail == tail && EscapeAll(s) + "\"" == "\"";
      LiteralAtQuote(rest);
    } else {
      var piece := if IsPlain(s[0]) then [s[0]] else Escape(s[0]);
      LiteralOfEscaped(s[1..], rest);
      Glue(piece, EscapeAll(s[1..]), tail);
      LiteralPiece(s[0], EscapeAll(s[1..]) + tail);
      Glue(piece, EscapeAll(s[1..]), "\"");
    }
  }

  lemma LiteralAtQuote(rest: string)
    ensures Literal("\"" + rest) == Some(("\"", rest))
  {
    assert ("\"" + rest)[1..] == rest;
  }

  /** Characters other than quotes, slashes and blanks pass through one by one. */
  predicate Passes(s: string) {
    forall c | c in s :: c != '\0' && c != '\"' && c != '/' && !IsBlank(c)
  }

  lemma {:induction false} MinifyPlain(s: string, rest: string)
    requires Passes(s)
    ensures Minify(s + rest) == Prepend(s, Minify(rest))
  {
    if s == "" {
      assert s + rest == rest;
      assert Minify(rest).Some? ==> "" + Minify(rest).value == Minify(rest).value;
    } else {
      assert s[0] in s;
      assert forall c | c in s[1..] :: c in s;
      MinifyPlain(s[1..], rest);
      assert (s + rest)[1..] == s[1..] + rest;
      assert Minify(rest).Some? ==> [s[0]] + (s[1..] + Minify(rest).value) == s + Minify(rest).value;
    }
  }

  lemma {:induction false} MinifyBlanks(s: string, rest: string)
    requires forall c | c in s :: IsBlank(c)
    ensures Minify(s + rest) == Minify(rest)
  {
    if s == "" {
      assert s + rest == rest;
    } else {
      assert s[0] in s;
      MinifyBlanks(s[1..], rest);
      assert (s + rest)[1..] == s[1..] + rest;
    }
  }

  lemma MinifyQuoted(s: string, rest: string)
    requires NulFree(s)
    ensures Minify(Quoted(s) + rest) == Prepend(Quoted(s), Minify(rest))
  {
    hide EscapeAll, Literal;
    LiteralOfEscaped(s, rest);
    assert (Quoted(s) + rest)[1..] == EscapeAll(s) + ("\"" + rest);
    assert "\"" + (EscapeAll(s) + "\"") == Quoted(s);
  }

  lemma PrependPrepend(a: string, b: string, r: Option<string>)
    ensures Prepend(a, Prepend(b, r)) == Prepend(a + b, r)
  {
    if r.Some? {
      Glue(a, b, r.value);
    }
  }

  /** Minifying the print of any tree, formatted or not, gives exactly its unformatted print. */
  lemma {:induction false} MinifyText(t: Json, depth: nat, flat: nat, fmt: bool, rest: string)
    requires Printable(t)
    ensures Minify(Text(t, depth, fmt) + rest) == Prepend(Text(t, flat, false), Minify(rest))
    decreases t, 1
  {
    hide Minify, Prepend, EscapeAll;
    match t
    case Null => MinifyPlain("null", rest);
    case False => MinifyPlain("false", rest);
    case True => MinifyPlain("true", rest);
    case Number(m, _) => MinifyPlain(IntText(m), rest);
    case String(s) => MinifyQuoted(s, rest);
    case Array(items) =>
      if items == [] {
        MinifyPlain("[]", rest);
      } else {
        var inner := ItemsText(items, depth + 1, fmt);
        assert Text(t, depth, fmt) + rest == "[" + (inner + ("]" + rest));
        MinifyPlain("[", inner + ("]" + rest));
        MinifyItems(items, depth + 1, flat + 1, fmt, "]" + rest);
        MinifyPlain("]", rest);
        PrependPrepend(ItemsText(items, flat + 1, false), "]", Minify(rest));
        PrependPrepend("[", ItemsText(items, flat + 1, false) + "]", Minify(rest));
        assert Text(t, flat, false) == "[" + (ItemsText(items, flat + 1, false) + "]");
      }
    case Object(members) => MinifyObject(t, depth, flat, fmt, rest);
  }

  lemma {:induction false} MinifyItems(items: seq<Json>, depth: nat, flat: nat, fmt: bool, rest: string)
    requires forall i | 0 <= i < |items| :: Printable(items[i])
    ensures Minify(ItemsText(items, depth, fmt) + rest) == Prepend(ItemsText(items, flat, false), Minify(rest))
    decreases items, 0
  {
    hide Minify, Prepend, Text, Printable;
    if items == [] {
      MinifyPlain("", rest);
      assert ItemsText(items, depth, fmt) + rest == "" + rest;
    } else {
      var more := ItemsText(items[1..], depth, fmt) + rest;
      var flatMore := ItemsText(items[1..], flat, false);
      ItemsText1(items, depth, fmt, rest);
      if |items| == 1 {
        MinifyText(items[0], depth, flat, fmt, rest);
        assert ItemsText(items, flat, false) == Text(items[0], flat, false);
      } else {
        MinifyText(items[0], depth, flat, fmt, Comma(fmt) + more);
        MinifyItems(items[1..], depth, flat, fmt, rest);
        MinifyComma(fmt, more);
        PrependPrepend(",", flatMore, Minify(rest));
        PrependPrepend(Text(items[0], flat, false), "," + flatMore, Minify(rest));
        assert ItemsText(items, flat, false) == Text(items[0], flat, false) + ("," + flatMore);
      }
    }
  }

  lemma MinifyComma(fmt: bool, rest: string)
    ensures Minify(Comma(fmt) + rest) == Prepend(",", Minify(rest))
  {
    hide Minify, Prepend;
    if fmt {
      assert Comma(fmt) + rest == "," + (" " + rest);
      MinifyPlain(",", " " + rest);
      MinifyBlanks(" ", rest);
    } else {
      MinifyPlain(",", rest);
    }
  }

  lemma {:induction false} MinifyObject(t: Json, depth: nat, flat: nat, fmt: bool, rest: string)
    requires Printable(t) && t.Object?
    ensures Minify(Text(t, depth, fmt) + rest) == Prepend(Text(t, flat, false), Minify(rest))
    decreases t, 0
  {
    hide Minify, Prepend, EscapeAll, MembersText;
    var open := if fmt then "\n" else "";
    if t.members == [] {
      var tabs := if fmt then "\n" + Tabs(depth - 1) else "";
      assert Text(t, depth, fmt) + rest == "{" + (tabs + ("}" + rest));
      MinifyPlain("{", tabs + ("}" + rest));
      MinifyBlanks(tabs, "}" + rest);
      MinifyPlain("}", rest);
      PrependPrepend("{", "}", Minify(rest));
      assert Text(t, flat, false) == "{" + "}";
    } else {
      var tabs := if fmt then Tabs(depth) else "";
      var inner := MembersText(t.members, depth + 1, fmt);
      var flatInner := MembersText(t.members, flat + 1, false);
      assert Text(t, depth, fmt) + rest == "{" + (open + (inner + (tabs + ("}" + rest))));
      MinifyPlain("{", open + (inner + (tabs + ("}" + rest))));
      MinifyBlanks(open, inner + (tabs + ("}" + rest)));
      MinifyMembers(t.members, depth + 1, flat + 1, fmt, tabs + ("}" + rest));
      MinifyBlanks(tabs, "}" + rest);
      MinifyPlain("}", rest);
      PrependPrepend(flatInner, "}", Minify(rest));
      PrependPrepend("{", flatInner + "}", Minify(rest));
      assert Text(t, flat, false) == "{" + (flatInner + "}");
    }
  }

  lemma {:induction false} MinifyMember(m: Member, depth: nat, flat: nat, fmt: bool, rest: string)
    requires NulFree(m.name) && Printable(m.value)
    ensures Minify(MemberText(m, depth, fmt) + rest) == Prepend(MemberText(m, flat, false), Minify(rest))
    decreases m, 1
  {
    hide Minify, Prepend, Quoted, Text, Printable;
    var tabs := if fmt then Tabs(depth) else "";
    var sep := if fmt then ":\t" else ":";
    var value := Text(m.value, depth, fmt) + rest;
    MemberText1(m, depth, fmt, rest);
    MinifyBlanks(tabs, Quoted(m.name) + (sep + value));
    MinifyQuoted(m.name, sep + value);
    if fmt {
      assert sep + value == ":" + ("\t" + value);
      MinifyPlain(":", "\t" + value);
      MinifyBlanks("\t", value);
    } else {
      MinifyPlain(":", value);
    }
    MinifyText(m.value, depth, flat, fmt, rest);
    PrependPrepend(":", Text(m.value, flat, false), Minify(rest));
    PrependPrepend(Quoted(m.name), ":" + Text(m.value, flat, false), Minify(rest));
    assert MemberText(m, flat, false) == Quoted(m.name) + (":" + Text(m.value, flat, false));
  }

  lemma {:induction false} MinifyMembers(members: seq<Member>, depth: nat, flat: nat, fmt: bool, rest: string)
    requires forall i | 0 <= i < |members| :: NulFree(members[i].name) && Printable(members[i].value)
    ensures Minify(MembersText(members, depth, fmt) + rest) == Prepend(MembersText(members, flat, false), Minify(rest))
    decreases members, 2
  {
    hide Minify, Prepend, MemberText, MemberEnd, Printable, MembersText;
    if members == [] {
      MinifyPlain("", rest);
      MembersText0(depth, fmt, rest);
      MembersText0(flat, false, rest);
    } else {
      var more := MembersText(members[1..], depth, fmt) + rest;
      var flatMore := MembersText(members[1..], flat, false);
      var last := |members| == 1;
      MembersText1(members, depth, fmt, rest);
      MembersText1(members, flat, false, "");
      MinifyMember(members[0], depth, flat, fmt, MemberEnd(last, fmt) + more);
      MinifyMembers(members[1..], depth, flat, fmt, rest);
      MinifyMemberEnd(last, fmt, more);
      PrependPrepend(MemberEnd(last, false), flatMore, Minify(rest));
      PrependPrepend(MemberText(members[0], flat, false), MemberEnd(last, false) + flatMore, Minify(rest));
      assert flatMore + "" == flatMore && MembersText(members, flat, false) + "" == MembersText(members, flat, false);
    }
  }

  lemma MinifyMemberEnd(last: bool, fmt: bool, rest: string)
    ensures Minify(MemberEnd(last, fmt) + rest) == Prepend(MemberEnd(last, false), Minify(rest))
  {
    hide Minify, Prepend;
    var nl := if fmt then "\n" else "";
    assert MemberEnd(last, fmt) + rest == MemberEnd(last, false) + (nl + rest);
    MinifyPlain(MemberEnd(last, false), nl + rest);
    MinifyBlanks(nl, rest);
  }

  /** Formatting then minifying then parsing gives the tree back exactly when its braces balance. */
  lemma MinifiedRoundTrip(t: Json, fmt: bool)
    requires Printable(t)
    ensures Minify(Text(t, 0, fmt)) == Some(Text(t, 0, false))
    ensures ReadsIff(ParseValue(Minify(Text(t, 0, fmt)).value), t, "", Balanced(t))
  {
    MinifyText(t, 0, 0, fmt, "");
    assert Text(t, 0, fmt) + "" == Text(t, 0, fmt) && Text(t, 0, false) + "" == Text(t, 0, false);
    RoundTrip(t, 0, false, "");
  }

  // ----- The loop that works in place -----

  method LineEnd(json: array<char>, pos: nat, ghost end: nat) returns (p: nat)
    requires pos < end < json.Length && json[end] == '\0' && NulFree(json[pos..end]) && json[pos] == '/'
    ensures pos < p <= end && json[p..end] == SkipLine(json[pos + 1..end])
  {
    p := pos + 1;
    while json[p] != '\0' && json[p] != '\n'
      invariant pos < p <= end
      invariant SkipLine(json[p..end]) == SkipLine(json[pos + 1..end])
      decreases end - p
    {
      assert json[p..end][1..] == json[p + 1..end];
      p := p + 1;
    }
  }

  method BlockEnd(json: array<char>, pos: nat, ghost end: nat) returns (p: nat)
    requires pos < end < json.Length && json[end] == '\0' && NulFree(json[pos..end])
    requires SkipBlock(json[pos..end]).Some?
    ensures pos < p <= end && json[p..end] == SkipBlock(json[pos..end]).value[2..]
  {
    p := pos;
    while json[p] != '\0' && !(json[p] == '*' && json[p + 1] == '/')
      invariant pos <= p <= end
      invariant SkipBlock(json[p..end]) == SkipBlock(json[pos..end])
      decreases end - p
    {
      assert At(json[p..end], 1) == json[p + 1];
      assert json[p..end][1..] == json[p + 1..end];
      p := p + 1;
    }
    assert p < end ==> At(json[p..end], 1) == json[p + 1];
    p := p + 2;
  }

  /** Copies a string literal towards the front; the write position stays at or before the read position. */
  method CopyLiteral(json: array<char>, into0: nat, pos0: nat, ghost end: nat) returns (into: nat, pos: nat)
    requires into0 <= pos0 < end < json.Length && json[end] == '\0' && NulFree(json[pos0..end]) && json[pos0] == '\"'
    requires Literal(json[pos0 + 1..end]).Some?
    modifies json
    ensures into <= pos <= end && pos0 < pos
    ensures forall k | pos <= k < json.Length :: json[k] == old(json[k])
    ensures var lit := Literal(old(json[pos0 + 1..end])).value;
            json[..into] == old(json[..into0]) + ("\"" + lit.0) && json[pos..end] == lit.1
  {
    hide Literal, Before;
    ghost var front, lit := json[..into0] + "\"", Literal(json[pos0 + 1..end]);
    CopyChar(json, into0, pos0, end);
    into, pos := into0 + 1, pos0 + 1;
    assert json[pos..end] == old(json[pos0 + 1..end]);
    while json[pos] != '\0' && json[pos] != '\"'
      invariant into <= pos <= end && pos0 < pos
      invariant forall k | pos <= k < json.Length :: json[k] == old(json[k])
      invariant Literal(json[pos..end]).Some?
      invariant Before(json[..into], Literal(json[pos..end])) == Before(front, lit)
      decreases end - pos
    {
      ghost var s, done := json[pos..end], json[..into];
      assert At(s, 0) == json[pos];
      LiteralStep(s);
      into, pos := CopyEscape(json, into, pos, end);
      ghost var used := if At(s, 0) == '\\' then 2 else 1;
      BeforeBefore(done, s[..used], Literal(s[used..]));
    }
    ghost var s, done := json[pos..end], json[..into];
    assert s[1..] == json[pos + 1..end];
    LiteralEnd(s, done, front, lit);
    CopyChar(json, into, pos, end);
    into, pos := into + 1, pos + 1;
    assert json[..into] == done + "\"" && json[pos..end] == s[1..];
    Glue(old(json[..into0]), "\"", lit.value.0);
  }

  /** One character of a literal, or a backslash with the character behind it. */
  method CopyEscape(json: array<char>, into0: nat, pos0: nat, ghost end: nat) returns (into: nat, pos: nat)
    requires into0 <= pos0 < end < json.Length && (json[pos0] == '\\' ==> pos0 + 2 <= end)
    modifies json
    ensures var s := old(json[pos0..end]); var used := if At(s, 0) == '\\' then 2 else 1;
      && used <= |s| && into == into0 + used && pos == pos0 + used <= end
      && json[..into] == old(json[..into0]) + s[..used] && json[pos..end] == s[used..]
    ensures forall k | pos <= k < json.Length :: json[k] == old(json[k])
  {
    ghost var s, front := json[pos0..end], json[..into0];
    into, pos := into0, pos0;
    if json[pos] == '\\' {
      CopyChar(json, into, pos, end);
      into, pos := into + 1, pos + 1;
      assert json[..into] == front + s[..1];
    }
    ghost var done := json[..into];
    CopyChar(json, into, pos, end);
    into, pos := into + 1, pos + 1;
    assert json[..into] == done + [s[pos - 1 - pos0]];
    assert json[pos..end] == s[pos - pos0..];
  }

  lemma LiteralEnd(s: string, done: string, front: string, lit: Option<(string, string)>)
    requires At(s, 0) == '\"' || At(s, 0) == '\0'
    requires Literal(s).Some? && lit.Some? && Before(done, Literal(s)) == Before(front, lit)
    ensures At(s, 0) == '\"' && done + "\"" == front + lit.value.0 && s[1..] == lit.value.1
  {
  }

  lemma LiteralStep(s: string)
    requires Literal(s).Some? && At(s, 0) != '\"'
    ensures var used := if At(s, 0) == '\\' then 2 else 1;
            used <= |s| && Literal(s[used..]).Some? && Literal(s) == Before(s[..used], Literal(s[used..]))
  {
  }

  /** The step `*into++ = *json++`. */
  method CopyChar(json: array<char>, into: nat, pos: nat, ghost end: nat)
    requires into <= pos < end <= json.Length
    modifies json
    ensures json[..into + 1] == old(json[..into] + [json[pos]])
    ensures forall k | pos < k < json.Length :: json[k] == old(json[k])
    ensures json[pos + 1..end] == old(json[pos + 1..end])
  {
    json[into] := json[pos];
  }

  lemma MinifyEmpty()
    ensures Minify("") == Some("")
  {
  }

  lemma MinifyStep(s: string)
    requires s != "" && s[0] != '\0'
    ensures IsBlank(s[0]) ==> Minify(s) == Minify(s[1..])
    ensures s[0] == '/' && At(s, 1) == '/' ==> Minify(s) == Minify(SkipLine(s[1..]))
    ensures s[0] == '/' && At(s, 1) == '*' ==>
      Minify(s) == if SkipBlock(s).None? then None else Minify(SkipBlock(s).value[2..])
    ensures s[0] == '\"' ==>
      Minify(s) == if Literal(s[1..]).None? then None
                   else Prepend("\"" + Literal(s[1..]).value.0, Minify(Literal(s[1..]).value.1))
    ensures !IsBlank(s[0]) && s[0] != '\"' && !(s[0] == '/' && (At(s, 1) == '/' || At(s, 1) == '*')) ==>
      Minify(s) == Prepend([s[0]], Minify(s[1..]))
  {
  }

  method MinifyInPlace(json: array<char>, ghost end: nat)
    requires end < json.Length && json[end] == '\0' && NulFree(json[..end])
    requires Minify(json[..end]).Some?
    modifies json
    ensures var m := Minify(old(json[..end])).value;
            |m| <= end && json[..|m|] == m && json[|m|] == '\0'
    ensures forall k | end < k < json.Length :: json[k] == old(json[k])
  {
    hide SkipBlock, SkipLine, Literal, Minify;
    MinifyEmpty();
    var into, pos := 0, 0;
    ghost var goal := Minify(json[..end]).value;
    while json[pos] != '\0'
      invariant 0 <= into <= pos <= end
      invariant forall k | pos <= k < json.Length :: json[k] == old(json[k])
      invariant Minify(json[pos..end]) != None && json[..into] + Minify(json[pos..end]).value == goal
      decreases end - pos
    {
      ghost var s, done := json[pos..end], json[..into];
      assert At(s, 0) == json[pos] && At(s, 1) == json[pos + 1];
      assert s[1..] == json[pos + 1..end];
      MinifyStep(s);
      if json[pos] == ' ' {
        pos := pos + 1;
      } else if json[pos] == '\t' {
        pos := pos + 1;
      } else if json[pos] == '\r' {
        pos := pos + 1;
      } else if json[pos] == '\n' {
        pos := pos + 1;
      } else if json[pos] == '/' && json[pos + 1] == '/' {
        pos := LineEnd(json, pos, end);
      } else if json[pos] == '/' && json[pos + 1] == '*' {
        pos := BlockEnd(json, pos, end);
      } else if json[pos] == '\"' {
        ghost var lit := Literal(s[1..]).value;
        into, pos := CopyLiteral(json, into, pos, end);
        Glue(done, "\"" + lit.0, Minify(lit.1).value);
      } else {
        ghost var next := json[pos + 1..end];
        CopyChar(json, into, pos, end);
        into, pos := into + 1, pos + 1;
        assert json[pos..end] == next;
        Glue(done, [s[0]], Minify(next).value);
      }
    }
    json[into] := '\0';
  }
}
