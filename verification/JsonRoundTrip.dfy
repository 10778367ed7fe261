/** Printing and parsing are inverse exactly on trees whose strings balance their braces. */
module JsonRoundTrip {
  import opened Wrappers
  import opened JsonText
  import opened JsonParse

  /** Text that cannot be read as more of a number ending just before it. */
  predicate CannotExtend(rest: string) {
    var c := At(rest, 0);
    !IsDigit(c) && c != 'e' && c != 'E' && !(c == '.' && IsDigit(At(rest, 1)))
  }

  // ----- Numbers -----

  lemma {:induction false} TakeDigitsOfDigits(n: nat, rest: string)
    ensures exists k :: TakeDigits(Digits(n) + rest, 0, 0) == TakeDigits(rest, n, k)
  {
    if n < 10 {
      assert (Digits(n) + rest)[1..] == rest;
      assert TakeDigits(Digits(n) + rest, 0, 0) == TakeDigits(rest, n, 1);
    } else {
      var d := [DigitChar(n % 10)];
      Glue(Digits(n / 10), d, rest);
      TakeDigitsOfDigits(n / 10, d + rest);
      var k :| TakeDigits(Digits(n / 10) + (d + rest), 0, 0) == TakeDigits(d + rest, n / 10, k);
      assert (d + rest)[1..] == rest;
      assert TakeDigits(d + rest, n / 10, k) == TakeDigits(rest, n, k + 1);
    }
  }

  lemma {:induction false} DigitsHead(n: nat)
    ensures n > 0 ==> Digits(n)[0] != '0'
    ensures n == 0 ==> Digits(n) == "0"
  {
    if n >= 10 {
      DigitsHead(n / 10);
    }
  }

  lemma TakeIntegerOfDigits(n: nat, rest: string)
    requires CannotExtend(rest)
    ensures TakeInteger(Digits(n) + rest) == (n as int, rest)
  {
    DigitsHead(n);
    if n == 0 {
      assert (Digits(n) + rest)[1..] == rest;
    } else {
      TakeDigitsOfDigits(n, rest);
    }
  }

  lemma NumberRoundTrip(m: int, rest: string)
    requires CannotExtend(rest)
    ensures ParseNumber(IntText(m) + rest) == (Number(m, 0), rest)
  {
    hide TakeInteger, Digits;
    if m < 0 {
      assert (IntText(m) + rest)[1..] == Digits(-m) + rest;
      TakeIntegerOfDigits(-m, rest);
    } else {
      assert IsDigit(Digits(m)[0]);
      TakeIntegerOfDigits(m, rest);
    }
  }

  // ----- Strings -----

  lemma UnescapeEscape(c: char, rest: string)
    requires !IsPlain(c) && c != '\0'
    ensures At(Escape(c), 0) == '\\'
    ensures Unescape(Escape(c) + rest) == ([c], |Escape(c)|)
  {
    var e := Escape(c) + rest;
    if |Escape(c)| == 6 {
      assert Drop(e, 2)[0] == '0' && Drop(e, 2)[1] == '0';
      assert Drop(e, 2)[2] == HexChar(c as int / 16) && Drop(e, 2)[3] == HexChar(c as int % 16);
      assert Hex4(Drop(e, 2)) == c as int;
    }
  }

  lemma BodyPlain(c: char, more: string, nest: int)
    requires IsPlain(c)
    ensures StringBody([c] + more, nest) == ([c] + StringBody(more, nest + Brace(c)).0, StringBody(more, nest + Brace(c)).1)
  {
    assert ([c] + more)[1..] == more;
  }

  lemma BodyEscape(c: char, more: string, nest: int)
    requires !IsPlain(c) && c != '\0'
    ensures StringBody(Escape(c) + more, nest) == ([c] + StringBody(more, nest).0, StringBody(more, nest).1)
  {
    UnescapeEscape(c, more);
    assert Drop(Escape(c) + more, |Escape(c)|) == more;
  }

  lemma EscapeAllFirst(s: string, rest: string)
    ensures EscapeAll(s) + rest ==
      if s == "" then rest
      else (if IsPlain(s[0]) then [s[0]] else Escape(s[0])) + (EscapeAll(s[1..]) + rest)
  {
  }

  /** Reading back the escaped characters leaves the reader at the following text with the nesting they had. */
  lemma {:induction false} BodyRoundTrip(s: string, nest: int, rest: string)
    requires NulFree(s)
    ensures var tail := StringBody(rest, nest + Nesting(s));
            StringBody(EscapeAll(s) + rest, nest) == (s + tail.0, tail.1)
  {
    hide StringBody, Escape, EscapeAll;
    var tail := StringBody(rest, nest + Nesting(s));
    EscapeAllFirst(s, rest);
    if s == "" {
      assert s + tail.0 == tail.0;
    } else {
      var c, more := s[0], EscapeAll(s[1..]) + rest;
      BodyRoundTrip(s[1..], nest + Brace(c), rest);
      assert [c] + (s[1..] + tail.0) == s + tail.0;
      if IsPlain(c) {
        BodyPlain(c, more, nest);
      } else {
        BodyEscape(c, more, nest);
      }
    }
  }

  /** The nesting of a string is the number of its opening braces minus that of its closing ones. */
  lemma {:induction false} NestingCounts(s: string)
    ensures Nesting(s) == multiset(s)['{'] as int - multiset(s)['}']
  {
    if s != "" {
      assert s == [s[0]] + s[1..];
      NestingCounts(s[1..]);
    }
  }

  /** A missing closing quote at the end of the text is not an error, balanced or not. */
  lemma UnclosedString(s: string)
    requires NulFree(s)
    ensures ParseString("\"" + EscapeAll(s)) == Some((s, ""))
  {
    hide StringBody, EscapeAll, Nesting;
    BodyRoundTrip(s, 0, "");
    BodyStops("", 0 + Nesting(s));
    assert EscapeAll(s) + "" == EscapeAll(s) && s + "" == s;
    assert ("\"" + EscapeAll(s))[1..] == EscapeAll(s);
  }

  /** A printed string is read back exactly when its braces balance; otherwise a longer string comes back. */
  lemma StringRoundTrip(s: string, rest: string)
    requires NulFree(s)
    ensures ParseString(Quoted(s) + rest).Some?
    ensures Nesting(s) == 0 ==> ParseString(Quoted(s) + rest) == Some((s, rest))
    ensures Nesting(s) != 0 ==> |ParseString(Quoted(s) + rest).value.0| > |s|
  {
    hide StringBody;
    var q := "\"" + rest;
    assert (Quoted(s) + rest)[1..] == EscapeAll(s) + q;
    BodyRoundTrip(s, 0, q);
    assert q[1..] == rest;
    if Nesting(s) == 0 {
      BodyStops(q, 0);
      assert s + "" == s;
    } else {
      BodyPastQuote(rest, Nesting(s));
    }
  }

  lemma BodyPastQuote(rest: string, nest: int)
    requires nest != 0
    ensures |StringBody("\"" + rest, nest).0| > 0
  {
  }

  // ----- Trees -----

  /** `p` is exactly `t` and `rest` when `good`; otherwise it is a failure or some other result. */
  ghost predicate ReadsIff<T>(p: Parsed<T>, t: T, rest: string, good: bool) {
    if good then p == Some((t, rest)) else p.Some? ==> p.value.0 != t
  }

  ghost predicate AllBalanced(items: seq<Json>) {
    forall i | 0 <= i < |items| :: Balanced(items[i])
  }

  ghost predicate MembersBalanced(members: seq<Member>) {
    forall i | 0 <= i < |members| :: Nesting(members[i].name) == 0 && Balanced(members[i].value)
  }

  lemma SkipTabs(n: int, rest: string)
    ensures Skip(Tabs(n) + rest) == Skip(rest)
    decreases n
  {
    if n <= 0 {
      assert Tabs(n) + rest == rest;
    } else {
      assert (Tabs(n) + rest)[1..] == Tabs(n - 1) + rest;
      SkipTabs(n - 1, rest);
    }
  }

  lemma SkipOne(c: char, rest: string)
    requires c != '\0' && c <= ' '
    ensures Skip([c] + rest) == Skip(rest)
  {
    assert ([c] + rest)[1..] == rest;
  }

  lemma {:induction false} SkipTwice(s: string)
    ensures Skip(Skip(s)) == Skip(s)
    decreases |s|
  {
    if At(s, 0) != '\0' && At(s, 0) <= ' ' {
      SkipTwice(s[1..]);
    }
  }

  lemma SkipNone(s: string)
    requires ' ' < At(s, 0)
    ensures Skip(s) == s
  {
  }

  /** The first character of a printed value: it is not white space and it selects the branch of the parser. */
  lemma TextHead(t: Json, depth: nat, fmt: bool)
    requires Printable(t)
    ensures Text(t, depth, fmt) != "" && ' ' < Text(t, depth, fmt)[0] && Text(t, depth, fmt)[0] != ']'
    ensures t.Array? ==> Text(t, depth, fmt)[0] == '['
    ensures t.Object? ==> Text(t, depth, fmt)[0] == '{'
    ensures t.String? ==> Text(t, depth, fmt)[0] == '\"'
    ensures t.Number? ==> Text(t, depth, fmt)[0] == '-' || IsDigit(Text(t, depth, fmt)[0])
  {
    if t.Number? {
      assert IntText(t.mantissa)[0] in IntText(t.mantissa);
    }
  }

  /** Printing any tree and parsing the text, whatever follows it, gives the tree back and stops at the end of the
      text exactly when every string and name balances its braces. */
  lemma {:induction false} RoundTrip(t: Json, depth: nat, fmt: bool, rest: string)
    requires Printable(t)
    requires t.Number? ==> CannotExtend(rest)
    ensures ReadsIff(ParseValue(Text(t, depth, fmt) + rest), t, rest, Balanced(t))
    decreases t, 1
  {
    hide StringBody, ParseNumber, ParseItems, ParseMembers;
    TextHead(t, depth, fmt);
    match t
    case Null => assert ("null" + rest)[4..] == rest;
    case False => assert ("false" + rest)[5..] == rest;
    case True => assert ("true" + rest)[4..] == rest;
    case Number(m, e) =>
      NumberRoundTrip(m, rest);
      var s := Text(t, depth, fmt) + rest;
      assert At(s, 0) == '-' || IsDigit(At(s, 0));
      assert ParseValue(s) == Some(ParseNumber(s));
      assert Balanced(t);
    case String(str) => StringRoundTrip(str, rest);
    case Array(items) => ArrayRoundTrip(t, depth, fmt, rest);
    case Object(members) => ObjectRoundTrip(t, depth, fmt, rest);
  }

  lemma {:induction false} ArrayRoundTrip(t: Json, depth: nat, fmt: bool, rest: string)
    requires Printable(t) && t.Array?
    ensures At(Text(t, depth, fmt) + rest, 0) == '['
    ensures ReadsIff(ParseArray(Text(t, depth, fmt) + rest), t, rest, Balanced(t))
    decreases t, 0
  {
    hide ParseValue, ParseItems;
    var s := Text(t, depth, fmt) + rest;
    if t.items == [] {
      assert s[1..] == "]" + rest && ("]" + rest)[1..] == rest;
    } else {
      var inner, close := ItemsText(t.items, depth + 1, fmt), "]" + rest;
      assert s[1..] == inner + close;
      TextHead(t.items[0], depth + 1, fmt);
      assert Skip(s[1..]) == s[1..];
      ItemsRoundTrip(t.items, depth + 1, fmt, close);
      assert close[1..] == rest;
    }
  }

  lemma ItemsText1(items: seq<Json>, depth: nat, fmt: bool, rest: string)
    requires items != []
    ensures ItemsText(items, depth, fmt) + rest
         == Text(items[0], depth, fmt) + (if |items| == 1 then rest else Comma(fmt) + (ItemsText(items[1..], depth, fmt) + rest))
  {
  }

  lemma SkipComma(fmt: bool, rest: string)
    ensures At(Comma(fmt) + rest, 0) == ',' && Skip((Comma(fmt) + rest)[1..]) == Skip(rest)
  {
    if fmt {
      assert (Comma(fmt) + rest)[1..] == " " + rest;
      SkipOne(' ', rest);
    } else {
      assert (Comma(fmt) + rest)[1..] == rest;
    }
  }

  lemma ParseItemsSkips(s: string)
    ensures ParseItems(s) == ParseItems(Skip(s))
  {
    hide ParseValue;
    SkipTwice(s);
  }

  /** The last element: no comma follows. */
  lemma ItemsLast(s: string, t: Json, tail: string, good: bool)
    requires Skip(s) == s && At(Skip(tail), 0) != ','
    requires ReadsIff(ParseValue(s), t, tail, good)
    ensures ReadsIff(ParseItems(s), [t], Skip(tail), good)
  {
    hide ParseValue, Skip;
  }

  lemma ItemsAhead(s: string, t: Json, tail: string, good: bool, items: seq<Json>, rest: string, all: bool)
    requires Skip(s) == s && Skip(tail) == tail && At(tail, 0) == ','
    requires ReadsIff(ParseValue(s), t, tail, good) && ReadsIff(ParseItems(tail[1..]), items, rest, all)
    ensures ReadsIff(ParseItems(s), [t] + items, rest, good && all)
  {
    hide ParseValue, Skip;
    var p, q := ParseValue(s), ParseItems(tail[1..]);
    assert ([t] + items)[0] == t && ([t] + items)[1..] == items;
    assert ParseItems(s).Some? ==> ParseItems(s).value.0[0] == p.value.0;
    if p.Some? && p.value.1 == tail && q.Some? {
      assert ParseItems(s) == Some(([p.value.0] + q.value.0, q.value.1));
      assert ([p.value.0] + q.value.0)[1..] == q.value.0;
    }
  }

  lemma {:induction false} ItemsRoundTrip(items: seq<Json>, depth: nat, fmt: bool, rest: string)
    requires items != [] && forall i | 0 <= i < |items| :: Printable(items[i])
    requires CannotExtend(rest) && At(Skip(rest), 0) != ','
    ensures ReadsIff(ParseItems(ItemsText(items, depth, fmt) + rest), items, Skip(rest), AllBalanced(items))
    decreases items, 0
  {
    hide ParseValue, ParseItems, ReadsIff, Text, ItemsText, Printable, Balanced, Comma, Skip;
    var s := ItemsText(items, depth, fmt) + rest;
    var more := ItemsText(items[1..], depth, fmt) + rest;
    var tail := if |items| == 1 then rest else Comma(fmt) + more;
    ItemsText1(items, depth, fmt, rest);
    TextHead(items[0], depth, fmt);
    SkipComma(fmt, more);
    RoundTrip(items[0], depth, fmt, tail);
    SkipNone(s);
    if |items| > 1 {
      SkipNone(tail);
      ItemsRoundTrip(items[1..], depth, fmt, rest);
      ParseItemsSkips(tail[1..]);
      ParseItemsSkips(more);
      ItemsAhead(s, items[0], tail, Balanced(items[0]), items[1..], Skip(rest), AllBalanced(items[1..]));
      assert items == [items[0]] + items[1..];
    } else {
      ItemsLast(s, items[0], tail, Balanced(items[0]));
      assert items == [items[0]];
    }
  }

  lemma ObjectAround(s: string, members: seq<Member>, rest: string, good: bool)
    requires At(s, 0) == '{' && At(Skip(s[1..]), 0) == '\"'
    requires ReadsIff(ParseMembers(Skip(s[1..])), members, "}" + rest, good)
    ensures ReadsIff(ParseObject(s), Object(members), rest, good)
  {
    hide ParseMembers, Skip;
    assert ("}" + rest)[1..] == rest;
  }

  lemma EmptyAround(s: string, rest: string)
    requires At(s, 0) == '{' && Skip(s[1..]) == "}" + rest
    ensures ParseObject(s) == Some((Object([]), rest))
  {
    hide ParseMembers, Skip;
    assert ("}" + rest)[1..] == rest;
  }

  lemma EmptyRoundTrip(depth: nat, fmt: bool, rest: string)
    ensures ReadsIff(ParseObject(Text(Object([]), depth, fmt) + rest), Object([]), rest, true)
  {
    hide ParseObject;
    var s := Text(Object([]), depth, fmt) + rest;
    var tabs, close := if fmt then Tabs(depth - 1) else "", "}" + rest;
    assert s[1..] == (if fmt then "\n" + (tabs + close) else close);
    if fmt {
      SkipOne('\n', tabs + close);
      SkipTabs(depth - 1, close);
    }
    SkipNone(close);
    EmptyAround(s, rest);
  }

  lemma {:induction false} ObjectRoundTrip(t: Json, depth: nat, fmt: bool, rest: string)
    requires Printable(t) && t.Object?
    ensures At(Text(t, depth, fmt) + rest, 0) == '{'
    ensures ReadsIff(ParseObject(Text(t, depth, fmt) + rest), t, rest, Balanced(t))
    decreases t, 0
  {
    hide ParseObject, ParseMembers, MembersText, ReadsIff, Skip, Text, Tabs;
    ObjectHead(t, depth, fmt, rest);
    if t.members == [] {
      EmptyRoundTrip(depth, fmt, rest);
      assert t == Object([]);
    } else {
      var s, close := Text(t, depth, fmt) + rest, "}" + rest;
      var inner, after := MembersText(t.members, depth + 1, fmt), (if fmt then Tabs(depth) else "") + close;
      SkipClose(depth, fmt, close);
      MembersHead(t.members, depth + 1, fmt, after);
      MembersRoundTrip(t.members, depth + 1, fmt, after, close);
      ParseMembersSkips(inner + after);
      ObjectAround(s, t.members, rest, MembersBalanced(t.members));
    }
  }

  /** What the parser sees behind the brace of an object with members. */
  lemma ObjectHead(t: Json, depth: nat, fmt: bool, rest: string)
    requires t.Object?
    ensures var s := Text(t, depth, fmt) + rest;
      && At(s, 0) == '{'
      && (t.members != [] ==>
            Skip(s[1..]) == Skip(MembersText(t.members, depth + 1, fmt) + ((if fmt then Tabs(depth) else "") + ("}" + rest))))
  {
    hide MembersText, Tabs, Skip;
    if t.members != [] {
      var s, inner := Text(t, depth, fmt) + rest, MembersText(t.members, depth + 1, fmt);
      var after := (if fmt then Tabs(depth) else "") + ("}" + rest);
      assert s[1..] == (if fmt then "\n" + (inner + after) else inner + after);
      SkipOne('\n', inner + after);
    }
  }

  lemma SkipClose(depth: nat, fmt: bool, close: string)
    requires At(close, 0) == '}'
    ensures Skip((if fmt then Tabs(depth) else "") + close) == close
  {
    SkipTabs(depth, close);
    SkipNone(close);
    hide Tabs, Skip;
    assert "" + close == close;
  }

  lemma MembersText0(depth: nat, fmt: bool, rest: string)
    ensures MembersText([], depth, fmt) == "" && MembersText([], depth, fmt) + rest == "" + rest
  {
  }

  lemma MembersText1(members: seq<Member>, depth: nat, fmt: bool, rest: string)
    requires members != []
    ensures MembersText(members, depth, fmt) + rest
         == MemberText(members[0], depth, fmt) + (MemberEnd(|members| == 1, fmt) + (MembersText(members[1..], depth, fmt) + rest))
  {
    hide MemberText, MemberEnd;
    var first, end, more := MemberText(members[0], depth, fmt), MemberEnd(|members| == 1, fmt), MembersText(members[1..], depth, fmt);
    Glue(first + end, more, rest);
    Glue(first, end, more + rest);
  }

  lemma MemberText1(m: Member, depth: nat, fmt: bool, rest: string)
    ensures MemberText(m, depth, fmt) + rest
         == (if fmt then Tabs(depth) else "")
          + (Quoted(m.name) + ((if fmt then ":\t" else ":") + (Text(m.value, depth, fmt) + rest)))
  {
  }

  lemma MembersHead(members: seq<Member>, depth: nat, fmt: bool, rest: string)
    requires members != []
    ensures At(Skip(MembersText(members, depth, fmt) + rest), 0) == '\"'
  {
    hide EscapeAll;
    var m := members[0];
    var more := MemberEnd(|members| == 1, fmt) + (MembersText(members[1..], depth, fmt) + rest);
    MembersText1(members, depth, fmt, rest);
    MemberText1(m, depth, fmt, more);
    if fmt {
      SkipTabs(depth, Quoted(m.name) + (":\t" + (Text(m.value, depth, fmt) + more)));
    }
  }

  lemma ParseMembersSkips(s: string)
    ensures ParseMembers(s) == ParseMembers(Skip(s))
  {
    hide ParseValue, ParseString;
    SkipTwice(s);
  }

  lemma {:induction false} MemberRoundTrip(m: Member, depth: nat, fmt: bool, rest: string, last: string)
    requires NulFree(m.name) && Printable(m.value)
    requires Skip(rest) == last && CannotExtend(rest)
    ensures ReadsIff(ParseMember(MemberText(m, depth, fmt) + rest), m, last, Nesting(m.name) == 0 && Balanced(m.value))
    decreases m, 1
  {
    hide ParseValue, ParseString, EscapeAll;
    var colon := (if fmt then ":\t" else ":") + (Text(m.value, depth, fmt) + rest);
    var s := MemberText(m, depth, fmt) + rest;
    MemberText1(m, depth, fmt, rest);
    if fmt {
      SkipTabs(depth, Quoted(m.name) + colon);
    }
    assert Skip(s) == Quoted(m.name) + colon;
    StringRoundTrip(m.name, colon);
    if Nesting(m.name) == 0 {
      assert Skip(colon) == colon;
      TextHead(m.value, depth, fmt);
      var v := Text(m.value, depth, fmt) + rest;
      assert Skip(v) == v;
      if fmt {
        assert colon[1..] == "\t" + v;
        SkipOne('\t', v);
      } else {
        assert colon[1..] == v;
      }
      RoundTrip(m.value, depth, fmt, rest);
    }
  }

  lemma {:induction false} MembersRoundTrip(members: seq<Member>, depth: nat, fmt: bool, rest: string, last: string)
    requires members != [] && forall i | 0 <= i < |members| :: NulFree(members[i].name) && Printable(members[i].value)
    requires Skip(rest) == last && CannotExtend(last) && At(last, 0) != ','
    ensures ReadsIff(ParseMembers(MembersText(members, depth, fmt) + rest), members, last, MembersBalanced(members))
    decreases members, 2
  {
    hide ParseMember, MemberText, MembersText, Text, Printable, Balanced, Nesting;
    var more := MembersText(members[1..], depth, fmt) + rest;
    var end := MemberEnd(|members| == 1, fmt) + more;
    MembersText1(members, depth, fmt, rest);
    if |members| == 1 {
      MembersText0(depth, fmt, rest);
      assert members[1..] == [] && "" + rest == rest;
      assert more == rest;
      SkipMemberEnd(true, fmt, rest);
      CannotExtendSpace(end, last);
      MemberRoundTrip(members[0], depth, fmt, end, last);
      assert members == [members[0]];
    } else {
      SkipMemberEnd(false, fmt, more);
      MemberRoundTrip(members[0], depth, fmt, end, end);
      MembersRoundTrip(members[1..], depth, fmt, rest, last);
      ParseMembersSkips(end[1..]);
      ParseMembersSkips(more);
      assert members == [members[0]] + members[1..];
    }
  }

  lemma SkipMemberEnd(last: bool, fmt: bool, rest: string)
    ensures last ==> Skip(MemberEnd(last, fmt) + rest) == Skip(rest)
    ensures !last ==> At(MemberEnd(last, fmt) + rest, 0) == ',' && Skip(MemberEnd(last, fmt) + rest) == MemberEnd(last, fmt) + rest
    ensures !last ==> Skip((MemberEnd(last, fmt) + rest)[1..]) == Skip(rest) && CannotExtend(MemberEnd(last, fmt) + rest)
  {
    if fmt {
      SkipOne('\n', rest);
    }
    assert !last ==> (MemberEnd(last, fmt) + rest)[1..] == if fmt then "\n" + rest else rest;
    assert last ==> MemberEnd(last, fmt) + rest == if fmt then "\n" + rest else rest;
  }

  lemma CannotExtendSpace(rest: string, last: string)
    requires Skip(rest) == last && CannotExtend(last)
    ensures CannotExtend(rest)
  {
  }

  // ----- What is refused -----

  /** A list of printed elements that neither goes on with a comma nor ends with a bracket is refused, the text that ends
      behind the last element included. */
  lemma UnclosedArray(items: seq<Json>, depth: nat, fmt: bool, rest: string)
    requires items != [] && AllBalanced(items) && forall i | 0 <= i < |items| :: Printable(items[i])
    requires CannotExtend(rest) && At(Skip(rest), 0) != ',' && At(Skip(rest), 0) != ']'
    ensures ParseValue("[" + (ItemsText(items, depth, fmt) + rest)) == None
  {
    hide ParseItems, ItemsText, AllBalanced, Skip;
    ItemsText1(items, depth, fmt, rest);
    TextHead(items[0], depth, fmt);
    var inner := ItemsText(items, depth, fmt) + rest;
    var s := "[" + inner;
    assert s[1..] == inner;
    SkipNone(inner);
    ItemsRoundTrip(items, depth, fmt, rest);
  }

  /** The same for the members of an object. */
  lemma UnclosedObject(members: seq<Member>, depth: nat, fmt: bool, rest: string)
    requires members != [] && MembersBalanced(members)
    requires forall i | 0 <= i < |members| :: NulFree(members[i].name) && Printable(members[i].value)
    requires CannotExtend(Skip(rest)) && At(Skip(rest), 0) != ',' && At(Skip(rest), 0) != '}'
    ensures ParseValue("{" + (MembersText(members, depth, fmt) + rest)) == None
  {
    hide ParseMembers, MembersText, MembersBalanced, Skip;
    var inner := MembersText(members, depth, fmt) + rest;
    var s := "{" + inner;
    assert s[1..] == inner;
    MembersHead(members, depth, fmt, rest);
    MembersRoundTrip(members, depth, fmt, rest, Skip(rest));
    ParseMembersSkips(inner);
    assert ParseMembers(Skip(inner)) == Some((members, Skip(rest)));
    assert ParseObject(s) == None;
  }

  /** A member needs a name in quotes, and a colon behind it. */
  lemma NoMember(name: string, rest: string)
    requires NulFree(name) && Nesting(name) == 0
    ensures At(Skip(rest), 0) != '\"' ==> ParseMember(rest) == None
    ensures At(Skip(rest), 0) != ':' ==> ParseMember(Quoted(name) + rest) == None
  {
    hide StringBody, EscapeAll;
    StringRoundTrip(name, rest);
    assert At(Quoted(name) + rest, 0) == '\"';
    SkipNone(Quoted(name) + rest);
  }

  /** A value starts with one of its words, a quote, a bracket, a brace, a minus or a digit. */
  lemma NoValue(s: string)
    requires !("null" <= s || "true" <= s || "false" <= s) && At(s, 0) !in "\"[{-0123456789"
    ensures ParseValue(s) == None
  {
  }
}
