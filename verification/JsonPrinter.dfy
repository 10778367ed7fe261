/** The unbuffered printer: every value is measured, allocated and then written (wifi/cJSON.c:148-176, 256-311, 438-662). */
module JsonPrinter {
  import opened JsonText
  import opened JsonItem

  /** A C string in an allocated block. */
  ghost predicate Holds(out: array<char>, text: string)
    reads out
  {
    |text| < out.Length && out[..|text|] == text && out[|text|] == '\0'
  }

  method StrLen(out: array<char>, from: nat, ghost text: string) returns (n: nat)
    requires from + |text| < out.Length && NulFree(text)
    requires out[from..from + |text|] == text && out[from + |text|] == '\0'
    ensures n == |text|
  {
    forall k | from <= k < from + |text| ensures out[k] != '\0' {
      assert out[k] == out[from..from + |text|][k - from] && text[k - from] in text;
    }
    n := 0;
    while out[from + n] != '\0'
      invariant n <= |text|
      decreases |text| - n
    {
      n := n + 1;
    }
  }

  /** strcpy, memcpy and sprintf: the characters of `s` from position `at` on. */
  method Store(out: array<char>, at: nat, s: string)
    requires at + |s| <= out.Length
    modifies out
    ensures out[..at + |s|] == old(out[..at]) + s
    ensures forall k | at + |s| <= k < out.Length :: out[k] == old(out[k])
  {
    forall i | 0 <= i < |s| {
      out[at + i] := s[i];
    }
  }

  method Copy(out: array<char>, at: nat, src: array<char>, n: nat)
    requires out != src && n <= src.Length && at + n <= out.Length
    modifies out
    ensures out[..at + n] == old(out[..at]) + src[..n]
    ensures forall k | at + n <= k < out.Length :: out[k] == old(out[k])
  {
    forall i | 0 <= i < n {
      out[at + i] := src[i];
    }
  }

  // ----- Numbers -----

  /** A 32-bit integer and its terminator fit into the 21 bytes set aside for them. */
  lemma IntTextLength(m: int)
    requires INT_MIN <= m <= INT_MAX
    ensures |IntText(m)| <= 11
  {
    assert Pow10(10) == 10_000_000_000 by {
      assert Pow10(5) == 100_000;
    }
    DigitsLength(if m < 0 then -m else m, 10);
  }

  /** The text of a printable tree has no NUL inside, so it is a C string. */
  lemma TextNulFree(t: Json, depth: nat, fmt: bool)
    requires Printable(t)
    ensures NulFree(Text(t, depth, fmt))
    decreases t, 0
  {
    hide ItemsText, MembersText, Quoted;
    match t
    case Array(items) => ItemsNulFree(items, depth + 1, fmt);
    case Object(members) => MembersNulFree(members, depth + 1, fmt);
    case String(s) => EscapeNulFree(s);
    case _ =>
  }

  lemma EscapeNulFree(s: string)
    requires NulFree(s)
    ensures NulFree(EscapeAll(s)) && NulFree(Quoted(s))
  {
    if s != "" {
      EscapeNulFree(s[1..]);
      assert s[0] in s;
    }
  }

  lemma ItemsNulFree(items: seq<Json>, depth: nat, fmt: bool)
    requires forall i | 0 <= i < |items| :: Printable(items[i])
    ensures NulFree(ItemsText(items, depth, fmt))
    decreases items, 1
  {
    if items != [] {
      TextNulFree(items[0], depth, fmt);
      ItemsNulFree(items[1..], depth, fmt);
    }
  }

  lemma MembersNulFree(members: seq<Member>, depth: nat, fmt: bool)
    requires forall i | 0 <= i < |members| :: NulFree(members[i].name) && Printable(members[i].value)
    ensures NulFree(MembersText(members, depth, fmt))
    decreases members, 1
  {
    if members != [] {
      TextNulFree(members[0].value, depth, fmt);
      EscapeNulFree(members[0].name);
      MembersNulFree(members[1..], depth, fmt);
    }
  }

  // ----- Strings -----

  /** The first pass: does any character need an escape? */
  method NeedsEscape(s: string) returns (flag: bool)
    requires NulFree(s)
    ensures !flag ==> EscapeAll(s) == s
    ensures flag <==> exists c | c in s :: !IsPlain(c)
  {
    flag := false;
    var i := 0;
    while i < |s|
      invariant i <= |s|
      invariant flag <==> exists k | 0 <= k < i :: !IsPlain(s[k])
    {
      assert s[i] in s;
      flag := flag || (s[i] > 0 as char && s[i] < 32 as char) || s[i] == '\"' || s[i] == '\\';
      i := i + 1;
    }
    if !flag {
      PlainEscapes(s);
    }
  }

  lemma {:induction false} PlainEscapes(s: string)
    requires forall i | 0 <= i < |s| :: IsPlain(s[i])
    ensures EscapeAll(s) == s
  {
    if s != "" {
      PlainEscapes(s[1..]);
    }
  }

  /** The second pass: the exact number of characters the escaped string takes. */
  method MeasureEscaped(s: string) returns (len: nat)
    requires NulFree(s)
    ensures len == |EscapeAll(s)|
  {
    len := 0;
    var i := 0;
    while i < |s|
      invariant i <= |s| && len + |EscapeAll(s[i..])| == |EscapeAll(s)|
    {
      var token := s[i];
      assert s[i..][1..] == s[i + 1..] && token in s;
      len := len + 1;
      if token == '\"' || token == '\\' || token == BACKSPACE || token == FORM_FEED || token == '\n' || token == '\r' || token == '\t' {
        len := len + 1;
      } else if token < 32 as char {
        len := len + 5;
      }
      i := i + 1;
    }
  }

  /** The third pass: writes the quoted string at `at`; the space measured is used up exactly. */
  method WriteQuoted(out: array<char>, at: nat, s: string)
    requires NulFree(s) && at + |Quoted(s)| + 1 <= out.Length
    modifies out
    ensures out[..at + |Quoted(s)|] == old(out[..at]) + Quoted(s) && out[at + |Quoted(s)|] == '\0'
    ensures forall k | at + |Quoted(s)| < k < out.Length :: out[k] == old(out[k])
  {
    hide EscapeAll, Escape;
    ghost var front, end := out[..at], at + |Quoted(s)|;
    Store(out, at, "\"");
    var p: nat, i: nat := at + 1, 0;
    EscapeFrom(s, 0);
    while i < |s|
      invariant i <= |s| && p < end < out.Length && p + |EscapeAll(s[i..])| + 1 == end
      invariant out[..p] + EscapeAll(s[i..]) == front + ("\"" + EscapeAll(s))
      invariant forall k | end < k < out.Length :: out[k] == old(out[k])
    {
      ghost var done := out[..p];
      EscapeFrom(s, i);
      assert s[i] in s;
      if s[i] > 31 as char && s[i] != '\"' && s[i] != '\\' {
        Store(out, p, [s[i]]);
        p := p + 1;
      } else {
        p := WriteEscape(out, p, s[i]);
      }
      Glue(done, if IsPlain(s[i]) then [s[i]] else Escape(s[i]), EscapeAll(s[i + 1..]));
      i := i + 1;
    }
    EscapeFrom(s, |s|);
    assert out[..p] + "" == out[..p];
    Store(out, p, "\"");
    out[p + 1] := '\0';
    Glue(front, "\"" + EscapeAll(s), "\"");
  }

  lemma EscapeFrom(s: string, i: nat)
    requires i <= |s|
    ensures i == |s| ==> EscapeAll(s[i..]) == ""
    ensures i == 0 ==> s[i..] == s
    ensures i < |s| ==> EscapeAll(s[i..]) == (if IsPlain(s[i]) then [s[i]] else Escape(s[i])) + EscapeAll(s[i + 1..])
    ensures i < |s| && s[i] != '\0' ==> 1 <= |if IsPlain(s[i]) then [s[i]] else Escape(s[i])| <= 6
  {
    if i < |s| {
      assert s[i..][1..] == s[i + 1..];
    }
  }

  function HexEscape(token: char): (s: string)
    requires token < 256 as char
    ensures |s| == 5
  {
    "u00" + [HexChar(token as int / 16), HexChar(token as int % 16)]
  }

  /** `sprintf(ptr2,"u%04x",token)` */
  method WriteHex(out: array<char>, at: nat, token: char)
    requires token < 256 as char && at + 6 <= out.Length
    modifies out
    ensures out[..at + 5] == old(out[..at]) + HexEscape(token)
    ensures forall k | at + 6 <= k < out.Length :: out[k] == old(out[k])
  {
    hide HexEscape;
    Store(out, at, HexEscape(token) + "\0");
    assert out[..at + 5] == out[..at + 6][..at + 5];
  }

  /** The escape of one character; `sprintf` also leaves a terminator behind the hexadecimal form. */
  method WriteEscape(out: array<char>, at: nat, token: char) returns (p: nat)
    requires !IsPlain(token) && token != '\0' && at + |Escape(token)| < out.Length
    modifies out
    ensures p == at + |Escape(token)| && out[..p] == old(out[..at]) + Escape(token)
    ensures forall k | p < k < out.Length :: out[k] == old(out[k])
  {
    ghost var front := out[..at];
    Store(out, at, "\\");
    p := at + 2;
    if token == '\\' {
      Store(out, at + 1, "\\");
    } else if token == '\"' {
      Store(out, at + 1, "\"");
    } else if token == BACKSPACE {
      Store(out, at + 1, "b");
    } else if token == FORM_FEED {
      Store(out, at + 1, "f");
    } else if token == '\n' {
      Store(out, at + 1, "n");
    } else if token == '\r' {
      Store(out, at + 1, "r");
    } else if token == '\t' {
      Store(out, at + 1, "t");
    } else {
      WriteHex(out, at + 1, token);
      p := at + 6;
      Glue(front, "\\", HexEscape(token));
      assert "\\" + HexEscape(token) == Escape(token);
      return;
    }
    Glue(front, "\\", [Escape(token)[1]]);
    assert Escape(token) == "\\" + [Escape(token)[1]];
  }

  method PrintStringPtr(s: string) returns (out: array<char>)
    requires NulFree(s)
    ensures fresh(out) && Holds(out, Quoted(s)) && out.Length == |Quoted(s)| + 1
  {
    hide EscapeAll;
    var flag := NeedsEscape(s);
    if !flag {
      var len := |s|;
      out := new char[len + 3];
      out[0] := '\"';
      Store(out, 1, s);
      out[len + 1] := '\"';
      out[len + 2] := '\0';
      assert out[..len + 2] == Quoted(s);
      return;
    }
    var len := MeasureEscaped(s);
    out := new char[len + 3];
    WriteQuoted(out, 0, s);
    assert out[..0] == "";
  }

  // ----- Values -----

  method PrintNumber(item: Item) returns (out: array<char>)
    requires item.exponent == 0 && INT_MIN <= item.mantissa <= INT_MAX
    ensures fresh(out) && Holds(out, IntText(item.mantissa))
  {
    if item.mantissa == 0 {
      out := new char[2];
      Store(out, 0, "0\0");
      assert out[..1] == "0";
    } else {
      IntTextLength(item.mantissa);
      out := new char[21];
      out := Sprintf(out, IntText(item.mantissa));
    }
  }

  method Sprintf(buffer: array<char>, s: string) returns (out: array<char>)
    requires |s| < buffer.Length
    modifies buffer
    ensures out == buffer && Holds(out, s)
  {
    out := buffer;
    Store(out, 0, s);
    out[|s|] := '\0';
    assert out[..0] == "" && out[..|s|] == s;
  }

  method Strdup(s: string) returns (out: array<char>)
    ensures fresh(out) && Holds(out, s)
  {
    out := new char[|s| + 1];
    out := Sprintf(out, s);
  }

  /** cJSON_Print and cJSON_PrintUnformatted start here with depth 0. */
  method PrintValue(item: Item, depth: nat, fmt: bool) returns (out: array<char>)
    requires item.Valid() && Printable(item.tree)
    ensures fresh(out) && Holds(out, Text(item.tree, depth, fmt))
    decreases item.Repr, 2
  {
    match item.kind
    case IsNull => out := Strdup("null");
    case IsFalse => out := Strdup("false");
    case IsTrue => out := Strdup("true");
    case IsNumber => out := PrintNumber(item);
    case IsString => out := PrintStringPtr(item.valuestring);
    case IsArray => out := PrintArray(item, depth, fmt);
    case IsObject => out := PrintObject(item, depth, fmt);
  }

  // ----- Arrays -----

  /** The printed text of the children from position `i` on. */
  function ItemsFrom(items: seq<Json>, i: nat, depth: nat, fmt: bool): string
    requires i <= |items|
  {
    ItemsText(items[i..], depth, fmt)
  }

  function Separator(last: bool, fmt: bool): string {
    if last then "" else Comma(fmt)
  }

  lemma ItemsFromStep(items: seq<Json>, i: nat, depth: nat, fmt: bool)
    requires i <= |items|
    ensures i == 0 ==> ItemsFrom(items, i, depth, fmt) == ItemsText(items, depth, fmt)
    ensures i == |items| ==> ItemsFrom(items, i, depth, fmt) == ""
    ensures i < |items| ==>
      ItemsFrom(items, i, depth, fmt)
        == Text(items[i], depth, fmt) + (Separator(i == |items| - 1, fmt) + ItemsFrom(items, i + 1, depth, fmt))
  {
    hide ItemsText, Text, Comma;
    ItemsFirst(items[i..], depth, fmt);
    assert i == 0 ==> items[i..] == items;
    assert i < |items| ==> items[i..][1..] == items[i + 1..];
  }

  lemma ItemsFirst(items: seq<Json>, depth: nat, fmt: bool)
    ensures ItemsText(items, depth, fmt) ==
      if items == [] then ""
      else Text(items[0], depth, fmt) + (Separator(|items| == 1, fmt) + ItemsText(items[1..], depth, fmt))
  {
    hide Text, Comma;
    if items != [] {
      Glue(Text(items[0], depth, fmt), Separator(|items| == 1, fmt), ItemsText(items[1..], depth, fmt));
    }
  }

  lemma ChildFacts(item: Item, i: nat)
    requires item.Valid() && i < |item.Kids| && Printable(item.tree)
    ensures item.Kids[i].Valid() && item.Kids[i].Repr < item.Repr && item.Linked() && item.Denotes()
    ensures item.tree.Array? ==> |item.tree.items| == |item.Kids| && item.Kids[i].tree == item.tree.items[i]
    ensures item.tree.Object? ==>
      |item.tree.members| == |item.Kids| && Member(item.Kids[i].name, item.Kids[i].tree) == item.tree.members[i]
      && NulFree(item.Kids[i].name)
    ensures Printable(item.Kids[i].tree)
  {
  }

  /** The tree of a container has as many children as the list. */
  lemma ContainerFacts(item: Item)
    requires item.Valid() && item.IsContainer()
    ensures |item.Kids| == Size(item.tree)
    ensures if item.kind == IsArray then item.tree.Array? else item.tree.Object?
  {
  }

  method PrintArray(item: Item, depth: nat, fmt: bool) returns (out: array<char>)
    requires item.Valid() && Printable(item.tree) && item.kind == IsArray
    ensures fresh(out) && Holds(out, Text(item.tree, depth, fmt))
    decreases item.Repr, 1
  {
    ghost var items := item.tree.items;
    var numentries := GetArraySize(item);
    if numentries == 0 {
      out := Strdup("[]");
      return;
    }
    ChildFacts(item, 0);
    var entries, len := PrintItems(item, numentries, depth, fmt);
    out := new char[len];
    ComposeArray(out, entries, items, depth, fmt);
  }

  /** First pass over the children: print each into its own block and add up the room for all of them. */
  method PrintItems(item: Item, numentries: nat, depth: nat, fmt: bool) returns (entries: array<array?<char>>, len: nat)
    requires item.Valid() && Printable(item.tree) && item.tree.Array? && numentries == |item.Kids| > 0
    ensures entries.Length == |item.tree.items|
    ensures forall j | 0 <= j < entries.Length ::
      entries[j] != null && Holds(entries[j], Text(item.tree.items[j], depth + 1, fmt))
    ensures len >= |ItemsText(item.tree.items, depth + 1, fmt)| + 5
    decreases item.Repr, 0
  {
    hide Item.Valid, Text, ItemsText, Printable, Item.Denotes;
    ghost var items := item.tree.items;
    ChildFacts(item, 0);
    ItemsFromStep(items, 0, depth + 1, fmt);
    entries := new array?<char>[numentries](_ => null);
    var child, i := item.child, 0;
    len := 5;
    while child != null
      invariant item.Valid() && i <= |items| == |item.Kids| && child == if i < |item.Kids| then item.Kids[i] else null
      invariant forall j | 0 <= j < i :: entries[j] != null && Holds(entries[j], Text(items[j], depth + 1, fmt))
      invariant len + |ItemsFrom(items, i, depth + 1, fmt)| >= |ItemsText(items, depth + 1, fmt)| + 5
      decreases |items| - i
    {
      ChildFacts(item, i);
      ItemsFromStep(items, i, depth + 1, fmt);
      TextNulFree(items[i], depth + 1, fmt);
      var ret := PrintValue(child, depth + 1, fmt);
      entries[i] := ret;
      var n := StrLen(ret, 0, Text(items[i], depth + 1, fmt));
      len := len + n + 2 + if fmt then 1 else 0;
      i := i + 1;
      child := child.next;
    }
    ItemsFromStep(items, i, depth + 1, fmt);
  }

  /** Second pass: the entries are copied into the block, which is never exceeded. */
  method ComposeArray(out: array<char>, entries: array<array?<char>>, ghost items: seq<Json>, ghost depth: nat, fmt: bool)
    requires items != [] && entries.Length == |items| && forall i | 0 <= i < |items| :: Printable(items[i])
    requires forall j | 0 <= j < entries.Length ::
      entries[j] != null && entries[j] != out && Holds(entries[j], Text(items[j], depth + 1, fmt))
    requires out.Length >= |ItemsText(items, depth + 1, fmt)| + 5
    modifies out
    ensures Holds(out, Text(Array(items), depth, fmt))
  {
    hide ItemsText, Printable, Text;
    var numentries := entries.Length;
    ghost var whole := "[" + ItemsText(items, depth + 1, fmt);
    Store(out, 0, "[\0");
    var ptr: nat, i: nat := 1, 0;
    ItemsFromStep(items, 0, depth + 1, fmt);
    assert out[..1] == "[";
    while i < numentries
      invariant i <= numentries && ptr + |ItemsFrom(items, i, depth + 1, fmt)| == |whole|
      invariant out[..ptr] + ItemsFrom(items, i, depth + 1, fmt) == whole
      invariant forall j | 0 <= j < numentries :: Holds(entries[j], Text(items[j], depth + 1, fmt))
    {
      ItemsFromStep(items, i, depth + 1, fmt);
      ghost var done, rest := out[..ptr], ItemsFrom(items, i + 1, depth + 1, fmt);
      ghost var text, sep := Text(items[i], depth + 1, fmt), Separator(i == |items| - 1, fmt);
      Glue(done, text, sep + rest);
      Glue(done + text, sep, rest);
      ptr := ComposeItem(out, ptr, entries[i], items[i], depth + 1, i == numentries - 1, fmt);
      i := i + 1;
    }
    ItemsFromStep(items, i, depth + 1, fmt);
    assert out[..ptr] + "" == out[..ptr];
    Store(out, ptr, "]\0");
    assert out[..ptr + 1] == whole + "]";
    ArrayText(items, depth, fmt);
  }

  lemma ArrayText(items: seq<Json>, depth: nat, fmt: bool)
    ensures Text(Array(items), depth, fmt) == if items == [] then "[]" else "[" + ItemsText(items, depth + 1, fmt) + "]"
  {
  }

  method ComposeItem(out: array<char>, at: nat, entry: array<char>, ghost item: Json, ghost depth: nat, last: bool, fmt: bool)
    returns (ptr: nat)
    requires entry != out && Printable(item) && Holds(entry, Text(item, depth, fmt))
    requires at + |Text(item, depth, fmt)| + |Separator(last, fmt)| < out.Length
    modifies out
    ensures ptr == at + |Text(item, depth, fmt)| + |Separator(last, fmt)|
    ensures out[..ptr] == old(out[..at]) + Text(item, depth, fmt) + Separator(last, fmt)
  {
    hide Text, Printable;
    ghost var front := out[..at];
    TextNulFree(item, depth, fmt);
    var tmplen := StrLen(entry, 0, Text(item, depth, fmt));
    Copy(out, at, entry, tmplen);
    ptr := at + tmplen;
    if !last {
      Store(out, ptr, if fmt then ", \0" else ",\0");
      ptr := ptr + if fmt then 2 else 1;
    }
    assert out[..ptr] == front + Text(item, depth, fmt) + Separator(last, fmt);
  }

  // ----- Objects -----

  function MembersFrom(members: seq<Member>, i: nat, depth: nat, fmt: bool): string
    requires i <= |members|
  {
    MembersText(members[i..], depth, fmt)
  }

  lemma MembersFromStep(members: seq<Member>, i: nat, depth: nat, fmt: bool)
    requires i <= |members|
    ensures i == 0 ==> MembersFrom(members, i, depth, fmt) == MembersText(members, depth, fmt)
    ensures i == |members| ==> MembersFrom(members, i, depth, fmt) == ""
    ensures i < |members| ==>
      MembersFrom(members, i, depth, fmt)
        == MemberText(members[i], depth, fmt) + (MemberEnd(i == |members| - 1, fmt) + MembersFrom(members, i + 1, depth, fmt))
  {
    hide MembersText, MemberText, MemberEnd;
    MembersFirst(members[i..], depth, fmt);
    assert i == 0 ==> members[i..] == members;
    assert i < |members| ==> members[i..][1..] == members[i + 1..];
  }

  lemma MembersFirst(members: seq<Member>, depth: nat, fmt: bool)
    ensures MembersText(members, depth, fmt) ==
      if members == [] then ""
      else MemberText(members[0], depth, fmt) + (MemberEnd(|members| == 1, fmt) + MembersText(members[1..], depth, fmt))
  {
    hide MemberText, MemberEnd;
    if members != [] {
      Glue(MemberText(members[0], depth, fmt), MemberEnd(|members| == 1, fmt), MembersText(members[1..], depth, fmt));
    }
  }

  /** `for (j=0;j<n;j++) *ptr++='\t'`, for a count that may be negative. */
  method WriteTabs(out: array<char>, at: nat, n: int)
    requires at + |Tabs(n)| <= out.Length
    modifies out
    ensures out[..at + |Tabs(n)|] == old(out[..at]) + Tabs(n)
    ensures forall k | at + |Tabs(n)| <= k < out.Length :: out[k] == old(out[k])
  {
    var j := 0;
    while j < n
      invariant 0 <= j <= |Tabs(n)|
      invariant out[..at] == old(out[..at]) && forall k | at <= k < at + j :: out[k] == '\t'
      invariant forall k | at + j <= k < out.Length :: out[k] == old(out[k])
    {
      out[at + j] := '\t';
      j := j + 1;
    }
    assert forall k | 0 <= k < |Tabs(n)| :: Tabs(n)[k] in Tabs(n);
  }

  method WriteEmptyObject(out: array<char>, at: nat, depth: nat, fmt: bool)
    requires at + |Text(Object([]), depth, fmt)| < out.Length
    modifies out
    ensures var text := Text(Object([]), depth, fmt);
      out[..at + |text|] == old(out[..at]) + text && out[at + |text|] == '\0'
  {
    hide Text, Tabs;
    EmptyObjectText(depth, fmt);
    ghost var front := out[..at];
    Store(out, at, if fmt then "{\n" else "{");
    var ptr: nat := at + if fmt then 2 else 1;
    if fmt {
      WriteTabs(out, ptr, depth - 1);
      ptr := ptr + if depth > 0 then depth - 1 else 0;
    }
    Store(out, ptr, "}\0");
    assert out[..ptr + 1] == front + ((if fmt then "{\n" + Tabs(depth - 1) else "{") + "}");
  }

  lemma EmptyObjectText(depth: nat, fmt: bool)
    ensures Text(Object([]), depth, fmt) == (if fmt then "{\n" + Tabs(depth - 1) else "{") + "}"
    ensures |Text(Object([]), depth, fmt)| < if fmt then depth + 4 else 3
  {
  }

  lemma MembersPrintable(t: Json)
    requires Printable(t) && t.Object?
    ensures forall i | 0 <= i < |t.members| :: NulFree(t.members[i].name) && Printable(t.members[i].value)
  {
  }

  method PrintObject(item: Item, depth: nat, fmt: bool) returns (out: array<char>)
    requires item.Valid() && Printable(item.tree) && item.kind == IsObject
    ensures fresh(out) && Holds(out, Text(item.tree, depth, fmt))
    decreases item.Repr, 1
  {
    hide Item.Valid, Item.Denotes, Text, MembersText, Printable;
    ContainerFacts(item);
    ghost var members := item.tree.members;
    assert item.tree == Object(members);
    var numentries := GetArraySize(item);
    if numentries == 0 {
      EmptyObjectText(depth, fmt);
      out := new char[if fmt then depth + 4 else 3];
      WriteEmptyObject(out, 0, depth, fmt);
      assert out[..0] == "";
      return;
    }
    MembersPrintable(item.tree);
    var names, entries, len := PrintMembers(item, numentries, depth + 1, fmt);
    out := new char[len];
    ComposeObject(out, names, entries, members, depth + 1, fmt);
  }

  /** The printed name and value of one member, each in a block of its own. */
  ghost predicate Slot(name: array?<char>, entry: array?<char>, m: Member, depth: nat, fmt: bool)
    reads name, entry
  {
    name != null && entry != null && Holds(name, Quoted(m.name)) && Holds(entry, Text(m.value, depth, fmt))
  }

  lemma EndLengths(fmt: bool)
    ensures |MemberEnd(true, fmt)| <= |MemberEnd(false, fmt)|
  {
  }

  /** One round: the blocks of one member go into its places. */
  method PrintInto(names: array<array?<char>>, entries: array<array?<char>>, i: nat,
                   child: Item, ghost m: Member, depth: nat, fmt: bool) returns (size: nat)
    requires child.Valid() && m == Member(child.name, child.tree) && NulFree(m.name) && Printable(m.value)
    requires names != entries && i < names.Length == entries.Length
    modifies names, entries
    ensures Slot(names[i], entries[i], m, depth, fmt) && size >= |MemberText(m, depth, fmt)| + |MemberEnd(false, fmt)|
    ensures forall j | 0 <= j < names.Length && j != i :: names[j] == old(names[j]) && entries[j] == old(entries[j])
    decreases child.Repr, 4
  {
    hide Item.Valid, Text, MemberText, Quoted, Printable, Holds, MemberEnd;
    var str, ret;
    str, ret, size := PrintMember(child, m, depth, fmt);
    names[i] := str;
    entries[i] := ret;
  }

  method PrintMembers(item: Item, numentries: nat, depth: nat, fmt: bool)
    returns (names: array<array?<char>>, entries: array<array?<char>>, len: nat)
    requires item.Valid() && Printable(item.tree) && item.tree.Object? && numentries == |item.Kids| > 0
    ensures entries.Length == names.Length == |item.tree.members|
    ensures forall j | 0 <= j < entries.Length :: Slot(names[j], entries[j], item.tree.members[j], depth, fmt)
    ensures len >= |MembersText(item.tree.members, depth, fmt)| + 7 + if fmt then depth else 0
    decreases item.Repr, 0
  {
    hide Item.Valid, Text, MembersText, MemberText, MembersFrom, Quoted, Printable, Item.Denotes, Holds, Slot, MemberEnd;
    ghost var members := item.tree.members;
    ChildFacts(item, 0);
    MembersFromStep(members, 0, depth, fmt);
    entries := new array?<char>[numentries](_ => null);
    names := new array?<char>[numentries](_ => null);
    var child, i := item.child, 0;
    len := 7 + if fmt then depth else 0;
    ghost var goal := |MembersText(members, depth, fmt)| + len;
    while child != null
      invariant item.Valid() && i <= |members| == |item.Kids| && child == if i < |item.Kids| then item.Kids[i] else null
      invariant names != entries && fresh(names) && fresh(entries)
      invariant forall j | 0 <= j < i :: Slot(names[j], entries[j], members[j], depth, fmt)
      invariant len + |MembersFrom(members, i, depth, fmt)| >= goal
      decreases |members| - i
    {
      ChildFacts(item, i);
      MembersFromStep(members, i, depth, fmt);
      var size := PrintInto(names, entries, i, child, members[i], depth, fmt);
      EndLengths(fmt);
      len := len + size;
      i := i + 1;
      child := child.next;
    }
    MembersFromStep(members, i, depth, fmt);
  }

  method PrintMember(child: Item, ghost m: Member, depth: nat, fmt: bool)
    returns (str: array<char>, ret: array<char>, size: nat)
    requires child.Valid() && m == Member(child.name, child.tree) && NulFree(m.name) && Printable(m.value)
    ensures fresh(str) && fresh(ret) && Holds(str, Quoted(m.name)) && Holds(ret, Text(m.value, depth, fmt))
    ensures size >= |MemberText(m, depth, fmt)| + |MemberEnd(false, fmt)|
    decreases child.Repr, 3
  {
    hide Item.Valid, Text, Quoted, Printable;
    TextNulFree(m.value, depth, fmt);
    EscapeNulFree(m.name);
    str := PrintStringPtr(child.name);
    ret := PrintValue(child, depth, fmt);
    var n := StrLen(ret, 0, Text(m.value, depth, fmt));
    var k := StrLen(str, 0, Quoted(m.name));
    size := n + k + 2 + if fmt then 2 + depth else 0;
  }

  method ComposeObject(out: array<char>, names: array<array?<char>>, entries: array<array?<char>>,
                       ghost members: seq<Member>, depth: nat, fmt: bool)
    requires members != [] && entries.Length == names.Length == |members| && depth > 0
    requires forall i | 0 <= i < |members| :: NulFree(members[i].name) && Printable(members[i].value)
    requires forall j | 0 <= j < entries.Length ::
      names[j] != out && entries[j] != out && Slot(names[j], entries[j], members[j], depth, fmt)
    requires out.Length >= |MembersText(members, depth, fmt)| + 7 + if fmt then depth else 0
    modifies out
    ensures Holds(out, Text(Object(members), depth - 1, fmt))
  {
    hide MembersText, Printable, Quoted, MemberText, Text, MemberEnd;
    var numentries := entries.Length;
    ghost var whole := (if fmt then "{\n" else "{") + MembersText(members, depth, fmt);
    Store(out, 0, if fmt then "{\n\0" else "{\0");
    var ptr: nat, i: nat := if fmt then 2 else 1, 0;
    MembersFromStep(members, 0, depth, fmt);
    assert out[..ptr] == if fmt then "{\n" else "{";
    while i < numentries
      invariant i <= numentries && ptr + |MembersFrom(members, i, depth, fmt)| == |whole|
      invariant out[..ptr] + MembersFrom(members, i, depth, fmt) == whole
      invariant forall j | 0 <= j < numentries :: Slot(names[j], entries[j], members[j], depth, fmt)
    {
      MembersFromStep(members, i, depth, fmt);
      ghost var done, rest := out[..ptr], MembersFrom(members, i + 1, depth, fmt);
      ghost var text, end := MemberText(members[i], depth, fmt), MemberEnd(i == |members| - 1, fmt);
      Glue(done, text, end + rest);
      Glue(done + text, end, rest);
      ptr := ComposeMember(out, ptr, names[i], entries[i], members[i], depth, fmt);
      ptr := EndMember(out, ptr, i == numentries - 1, fmt);
      i := i + 1;
    }
    MembersFromStep(members, i, depth, fmt);
    assert out[..ptr] + "" == out[..ptr];
    CloseObject(out, ptr, whole, depth, fmt);
    ObjectText(members, depth, fmt);
  }

  lemma ObjectText(members: seq<Member>, depth: nat, fmt: bool)
    requires members != [] && depth > 0
    ensures Text(Object(members), depth - 1, fmt)
         == (if fmt then "{\n" else "{") + MembersText(members, depth, fmt) + ((if fmt then Tabs(depth - 1) else "") + "}")
  {
  }

  method EndMember(out: array<char>, at: nat, last: bool, fmt: bool) returns (ptr: nat)
    requires at + |MemberEnd(last, fmt)| < out.Length
    modifies out
    ensures ptr == at + |MemberEnd(last, fmt)| && out[..ptr] == old(out[..at]) + MemberEnd(last, fmt)
  {
    ptr := at;
    if !last {
      Store(out, ptr, ",");
      ptr := ptr + 1;
    }
    Store(out, ptr, if fmt then "\n\0" else "\0");
    ptr := ptr + if fmt then 1 else 0;
    assert out[..ptr] == old(out[..at]) + MemberEnd(last, fmt);
  }

  method CloseObject(out: array<char>, at: nat, ghost whole: string, depth: nat, fmt: bool)
    requires depth > 0 && at == |whole| && at + (if fmt then depth else 0) + 2 <= out.Length && out[..at] == whole
    modifies out
    ensures Holds(out, whole + ((if fmt then Tabs(depth - 1) else "") + "}"))
  {
    var ptr := at;
    if fmt {
      WriteTabs(out, ptr, depth - 1);
      ptr := ptr + (depth - 1);
    }
    Store(out, ptr, "}\0");
    assert out[..ptr + 1] == whole + ((if fmt then Tabs(depth - 1) else "") + "}");
  }

  lemma HeldText(block: array<char>, text: string)
    requires Holds(block, text)
    ensures |text| < block.Length && block[0..|text|] == text && block[..|text|] == text && block[|text|] == '\0'
  {
  }

  method ComposeName(out: array<char>, at: nat, name: array<char>, ghost n: string, depth: nat, fmt: bool)
    returns (ptr: nat)
    requires name != out && NulFree(n) && Holds(name, Quoted(n))
    requires at + (if fmt then depth + 1 else 0) + |Quoted(n)| + 1 < out.Length
    modifies out
    ensures ptr == at + (if fmt then depth + 1 else 0) + |Quoted(n)| + 1
    ensures out[..ptr] == old(out[..at]) + ((if fmt then Tabs(depth) else "") + Quoted(n) + (if fmt then ":\t" else ":"))
  {
    hide Quoted, Tabs, Holds;
    EscapeNulFree(n);
    HeldText(name, Quoted(n));
    hide NulFree;
    ghost var front, tabs := out[..at], if fmt then Tabs(depth) else "";
    ptr := at;
    if fmt {
      WriteTabs(out, ptr, depth);
      ptr := ptr + depth;
    }
    assert out[..ptr] == front + tabs;
    var k := StrLen(name, 0, Quoted(n));
    Copy(out, ptr, name, k);
    ptr := ptr + k;
    assert out[..ptr] == front + tabs + Quoted(n);
    var colon := if fmt then ":\t" else ":";
    Store(out, ptr, colon);
    ptr := ptr + |colon|;
    Glue(front, tabs, Quoted(n));
    Glue(front, tabs + Quoted(n), colon);
  }

  method ComposeMember(out: array<char>, at: nat, name: array<char>, entry: array<char>, ghost m: Member, depth: nat, fmt: bool)
    returns (ptr: nat)
    requires name != out && entry != out && NulFree(m.name) && Printable(m.value)
    requires Holds(name, Quoted(m.name)) && Holds(entry, Text(m.value, depth, fmt))
    requires at + |MemberText(m, depth, fmt)| < out.Length
    modifies out
    ensures ptr == at + |MemberText(m, depth, fmt)| && out[..ptr] == old(out[..at]) + MemberText(m, depth, fmt)
  {
    hide Quoted, Printable, Text, Tabs;
    TextNulFree(m.value, depth, fmt);
    ghost var front := out[..at];
    ghost var head := (if fmt then Tabs(depth) else "") + Quoted(m.name) + (if fmt then ":\t" else ":");
    ptr := ComposeName(out, at, name, m.name, depth, fmt);
    var n := StrLen(entry, 0, Text(m.value, depth, fmt));
    Copy(out, ptr, entry, n);
    ptr := ptr + n;
    Glue(front, head, Text(m.value, depth, fmt));
  }

  // ----- The layout -----

  /** The formatted text of an object has each member on a line of its own, indented by its depth, with a colon and a tab
      behind the name; the flat text has no white space. */
  lemma ObjectLayout(a: Member, b: Member, depth: nat, fmt: bool)
    ensures var first := if fmt then Tabs(depth + 1) + Quoted(a.name) + ":\t" + Text(a.value, depth + 1, true)
                         else Quoted(a.name) + ":" + Text(a.value, depth + 1, false);
      var second := if fmt then Tabs(depth + 1) + Quoted(b.name) + ":\t" + Text(b.value, depth + 1, true)
                    else Quoted(b.name) + ":" + Text(b.value, depth + 1, false);
      Text(Object([a, b]), depth, fmt)
        == (if fmt then "{\n" else "{") + (first + ((if fmt then ",\n" else ",") + (second + (if fmt then "\n" else ""))))
           + ((if fmt then Tabs(depth) else "") + "}")
    ensures Text(Object([]), depth, fmt) == (if fmt then "{\n" + Tabs(depth - 1) else "{") + "}"
  {
    MemberTexts(a, depth + 1, fmt);
    MemberTexts(b, depth + 1, fmt);
    EmptyObjectText(depth, fmt);
    hide Text, MembersText, MemberText, Tabs, Quoted;
    TwoMembers(a, b, depth + 1, fmt);
    ObjectText([a, b], depth + 1, fmt);
  }

  lemma MemberTexts(m: Member, depth: nat, fmt: bool)
    ensures MemberText(m, depth, fmt) ==
      if fmt then Tabs(depth) + Quoted(m.name) + ":\t" + Text(m.value, depth, true) else Quoted(m.name) + ":" + Text(m.value, depth, false)
  {
    hide Text, Quoted;
    assert "" + Quoted(m.name) == Quoted(m.name);
  }

  lemma TwoMembers(a: Member, b: Member, depth: nat, fmt: bool)
    ensures MembersText([a, b], depth, fmt)
      == MemberText(a, depth, fmt) + ((if fmt then ",\n" else ",") + (MemberText(b, depth, fmt) + (if fmt then "\n" else "")))
  {
    hide MembersText, MemberText;
    assert [a, b][1..] == [b] && [b][1..] == [];
    MembersFirst([a, b], depth, fmt);
    MembersFirst([b], depth, fmt);
    MembersFirst([], depth, fmt);
    assert MemberEnd(true, fmt) + "" == MemberEnd(true, fmt);
  }

  /** Elements of an array are separated by a comma, and by a blank in the formatted text. */
  lemma ArrayLayout(a: Json, b: Json, depth: nat, fmt: bool)
    ensures Text(Array([a, b]), depth, fmt)
      == "[" + (Text(a, depth + 1, fmt) + ((if fmt then ", " else ",") + Text(b, depth + 1, fmt))) + "]"
    ensures Text(Array([]), depth, fmt) == "[]"
  {
    hide Text, ItemsText;
    assert [a, b][1..] == [b] && [b][1..] == [];
    ItemsFirst([a, b], depth + 1, fmt);
    ItemsFirst([b], depth + 1, fmt);
    ItemsFirst([], depth + 1, fmt);
    assert "" + "" == "" && Text(b, depth + 1, fmt) + "" == Text(b, depth + 1, fmt);
    ArrayText([a, b], depth, fmt);
    ArrayText([], depth, fmt);
  }
}
