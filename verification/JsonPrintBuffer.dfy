/** The buffered printer: text is appended to one block that grows (wifi/cJSON.c:120-145, 349-357, 438-662). */
module JsonPrintBuffer {
  import opened JsonText
  import opened JsonItem
  import opened JsonPrinter
  import opened PowerOfTwo

  class PrintBuffer {
    var buffer: array<char>
    var length: nat
    var offset: nat

    ghost predicate Valid()
      reads this
    {
      offset <= length == buffer.Length
    }

    /** The text written so far. */
    ghost function Front(): string
      requires Valid()
      reads this, buffer
    {
      buffer[..offset]
    }

    constructor (prebuffer: nat)
      ensures Valid() && Front() == "" && fresh(buffer) && offset == 0
    {
      buffer := new char[prebuffer];
      length, offset := prebuffer, 0;
    }

    /** Makes room for `needed` more characters; growing keeps everything written so far. */
    method Ensure(needed: nat)
      requires Valid()
      modifies this`buffer, this`length
      ensures Valid() && offset + needed <= length && Front() == old(Front())
      ensures buffer == old(buffer) || fresh(buffer)
    {
      var total := needed + offset;
      if total <= length {
        return;
      }
      var newsize := Pow2Gt(total);
      var newbuffer := new char[newsize];
      Copy(newbuffer, 0, buffer, length);
      assert newbuffer[..offset] == newbuffer[..length][..offset] == buffer[..length][..offset];
      length := newsize;
      buffer := newbuffer;
    }

    /** Steps over the string that starts at the offset. */
    method Update(ghost front: string, ghost text: string)
      requires Wrote(front, text) && NulFree(text)
      modifies this`offset
      ensures Valid() && Front() == front + text && offset == |front| + |text|
    {
      ghost var rest := text[offset - |front|..];
      assert buffer[offset..|front| + |text|] == (front + text)[offset..] == rest;
      assert forall c | c in rest :: c in text;
      var n := StrLen(buffer, offset, rest);
      offset := offset + n;
    }

    /** `text` stands behind `front` as a C string and the offset is somewhere inside it. */
    ghost predicate Wrote(front: string, text: string)
      reads this, buffer
    {
      && Valid() && |front| <= offset <= |front| + |text| < length
      && buffer[..|front| + |text|] == front + text && buffer[|front| + |text|] == '\0'
    }

    lemma Regroup(front: string, a: string, b: string)
      requires Wrote(front + a, b)
      ensures Wrote(front, a + b)
    {
      Glue(front, a, b);
    }

    /** Stores at the offset, then moves the offset behind what was stored. */
    method Append(s: string)
      requires Valid() && offset + |s| <= length
      modifies this`offset, buffer
      ensures Valid() && Front() == old(Front()) + s && length == old(length)
      ensures forall k | offset <= k < length :: buffer[k] == old(buffer[k])
    {
      Store(buffer, offset, s);
      offset := offset + |s|;
    }

    /** The same with a terminator behind it, which the offset does not pass. */
    method AppendTerminated(s: string)
      requires Valid() && offset + |s| < length
      modifies this`offset, buffer
      ensures Valid() && Front() == old(Front()) + s && length == old(length)
    {
      Append(s);
      ghost var front := Front();
      buffer[offset] := '\0';
      assert buffer[..offset] == front;
    }

    method PutEmptyObject(depth: nat, fmt: bool)
      requires Valid() && offset + |Text(Object([]), depth, fmt)| < length
      modifies buffer
      ensures Wrote(old(Front()), Text(Object([]), depth, fmt))
    {
      WriteEmptyObject(buffer, offset, depth, fmt);
    }

    /** `depth` tabs, as far as the text is formatted at all. */
    method AppendTabs(depth: nat)
      requires Valid() && offset + depth <= length
      modifies this`offset, buffer
      ensures Valid() && Front() == old(Front()) + Tabs(depth) && length == old(length)
    {
      WriteTabs(buffer, offset, depth);
      offset := offset + depth;
    }

    /** A short text with its terminator, at the offset. */
    method Put(s: string)
      requires Valid() && offset + |s| < length
      modifies buffer
      ensures Wrote(old(Front()), s) && Front() == old(Front())
    {
      ghost var front := Front();
      Store(buffer, offset, s + "\0");
      assert buffer[..offset + |s|] == front + s;
      assert buffer[..offset] == (front + s)[..offset];
    }
  }

  method BufferString(p: PrintBuffer, s: string) returns (out: nat)
    requires p.Valid() && NulFree(s)
    modifies p, p.buffer
    ensures p.Wrote(old(p.Front()), Quoted(s)) && out == old(p.offset)
    ensures p.buffer == old(p.buffer) || fresh(p.buffer)
  {
    hide EscapeAll;
    out := p.offset;
    ghost var front := p.Front();
    var flag := NeedsEscape(s);
    if !flag {
      var len := |s|;
      p.Ensure(len + 3);
      p.Put("\"" + s + "\"");
      return;
    }
    var len := MeasureEscaped(s);
    p.Ensure(len + 3);
    WriteQuoted(p.buffer, p.offset, s);
    assert p.buffer[..|front|] == (front + Quoted(s))[..|front|];
  }

  method BufferNumber(p: PrintBuffer, item: Item) returns (out: nat)
    requires p.Valid() && item.exponent == 0 && INT_MIN <= item.mantissa <= INT_MAX
    modifies p, p.buffer
    ensures p.Wrote(old(p.Front()), IntText(item.mantissa)) && out == old(p.offset)
    ensures p.buffer == old(p.buffer) || fresh(p.buffer)
  {
    out := p.offset;
    if item.mantissa == 0 {
      p.Ensure(2);
      p.Put("0");
    } else {
      p.Ensure(21);
      IntTextLength(item.mantissa);
      p.Put(IntText(item.mantissa));
    }
  }

  method BufferText(p: PrintBuffer, s: string) returns (out: nat)
    requires p.Valid()
    modifies p, p.buffer
    ensures p.Wrote(old(p.Front()), s) && out == old(p.offset)
    ensures p.buffer == old(p.buffer) || fresh(p.buffer)
  {
    out := p.offset;
    p.Ensure(|s| + 1);
    p.Put(s);
  }

  /** Where the pointer returned for a value points: at its text, except that a formatted object with members reuses the
      variable that held the position and points at the offset that is its depth. */
  function Returned(t: Json, depth: nat, fmt: bool, start: nat): nat {
    if t.Object? && t.members != [] && fmt then depth else start
  }

  /** The pointer is right unless the value is a formatted object with members whose text does not start at its depth. */
  lemma ReturnedRight(t: Json, depth: nat, fmt: bool, start: nat)
    ensures Returned(t, depth, fmt, start) == start <==> !(t.Object? && t.members != [] && fmt) || depth == start
  {
  }

  /** Inputs with a wrong pointer: every object with members behind an empty array in a list. Its text starts at 5, the
      pointer is 1. */
  lemma ReturnedOff(members: seq<Member>)
    requires members != []
    ensures var inner := Object(members);
      && Text(Array([Array([]), inner]), 0, true) == "[[], " + Text(inner, 1, true) + "]"
      && Returned(inner, 1, true, |"[[], "|) == 1 && (Text(inner, 1, true) + "]")[0] != "[[], "[1]
  {
    hide Text, MembersText, ItemsText, Separator;
    var inner := Object(members);
    var items := [Array([]), inner];
    ObjectText(members, 2, true);
    ArrayText(items, 0, true);
    ArrayText([], 1, true);
    ItemsFirst(items, 1, true);
    ItemsFirst([inner], 1, true);
    ItemsFirst([], 1, true);
    SeparatorTexts();
    Wrapped(Text(inner, 1, true));
    assert items[1..] == [inner] && [inner][1..] == [];
  }

  lemma SeparatorTexts()
    ensures Separator(true, true) == "" && Separator(false, true) == ", "
  {
  }

  lemma Wrapped(mine: string)
    ensures "[" + ("[]" + (", " + (mine + ("" + "")))) + "]" == "[[], " + mine + "]"
  {
  }

  method BufferValue(p: PrintBuffer, item: Item, depth: nat, fmt: bool) returns (out: nat)
    requires p.Valid() && item.Valid() && Printable(item.tree)
    modifies p, p.buffer
    ensures p.Wrote(old(p.Front()), Text(item.tree, depth, fmt)) && out == Returned(item.tree, depth, fmt, old(p.offset))
    ensures p.buffer == old(p.buffer) || fresh(p.buffer)
    decreases item.Repr, 2
  {
    match item.kind
    case IsNull => out := BufferText(p, "null");
    case IsFalse => out := BufferText(p, "false");
    case IsTrue => out := BufferText(p, "true");
    case IsNumber => out := BufferNumber(p, item);
    case IsString => out := BufferString(p, item.valuestring);
    case IsArray => out := BufferArray(p, item, depth, fmt);
    case IsObject => out := BufferObject(p, item, depth, fmt);
  }

  method BufferArray(p: PrintBuffer, item: Item, depth: nat, fmt: bool) returns (out: nat)
    requires p.Valid() && item.Valid() && Printable(item.tree) && item.kind == IsArray
    modifies p, p.buffer
    ensures p.Wrote(old(p.Front()), Text(item.tree, depth, fmt)) && out == old(p.offset)
    ensures p.buffer == old(p.buffer) || fresh(p.buffer)
    decreases item.Repr, 1
  {
    hide Item.Valid, Item.Denotes, Text, ItemsText, Printable, PrintBuffer.Front, PrintBuffer.Wrote;
    ContainerFacts(item);
    ghost var items, front := item.tree.items, p.Front();
    assert item.tree == Array(items);
    ArrayText(items, depth, fmt);
    var numentries := GetArraySize(item);
    if numentries == 0 {
      out := BufferText(p, "[]");
      return;
    }
    out := p.offset;
    ChildFacts(item, 0);
    p.Ensure(1);
    p.Append("[");
    BufferItems(p, item, front + "[", depth + 1, fmt);
    Glue(front, "[", ItemsText(items, depth + 1, fmt));
    p.Ensure(2);
    p.Put("]");
    p.Regroup(front, "[" + ItemsText(items, depth + 1, fmt), "]");
  }

  method BufferItems(p: PrintBuffer, item: Item, ghost front: string, depth: nat, fmt: bool)
    requires p.Valid() && item.Valid() && Printable(item.tree) && item.tree.Array? && |item.Kids| > 0 && p.Front() == front
    modifies p, p.buffer
    ensures p.Valid() && p.Front() == front + ItemsText(item.tree.items, depth, fmt)
    ensures p.buffer == old(p.buffer) || fresh(p.buffer)
    decreases item.Repr, 0
  {
    hide Item.Valid, Text, ItemsText, Printable, Item.Denotes;
    ghost var items := item.tree.items;
    ghost var goal := front + ItemsText(items, depth, fmt);
    ChildFacts(item, 0);
    ItemsFromStep(items, 0, depth, fmt);
    var child, i := item.child, 0;
    while child != null
      invariant p.Valid() && (p.buffer == old(p.buffer) || fresh(p.buffer))
      invariant item.Valid() && i <= |items| == |item.Kids| && child == if i < |item.Kids| then item.Kids[i] else null
      invariant p.Front() + ItemsFrom(items, i, depth, fmt) == goal
      decreases |items| - i
    {
      ChildFacts(item, i);
      ItemsFromStep(items, i, depth, fmt);
      ghost var done, rest := p.Front(), ItemsFrom(items, i + 1, depth, fmt);
      ghost var text, sep := Text(items[i], depth, fmt), Separator(i == |items| - 1, fmt);
      Glue(done, text, sep + rest);
      Glue(done + text, sep, rest);
      BufferItem(p, child, depth, child.next == null, fmt);
      i := i + 1;
      child := child.next;
    }
    ItemsFromStep(items, i, depth, fmt);
    assert p.Front() + "" == p.Front();
  }

  method BufferItem(p: PrintBuffer, child: Item, depth: nat, last: bool, fmt: bool)
    requires p.Valid() && child.Valid() && Printable(child.tree)
    modifies p, p.buffer
    ensures p.Valid() && p.Front() == old(p.Front()) + Text(child.tree, depth, fmt) + Separator(last, fmt)
    ensures p.buffer == old(p.buffer) || fresh(p.buffer)
    decreases child.Repr, 3
  {
    hide Item.Valid, Text, Printable;
    ghost var front, text := p.Front(), Text(child.tree, depth, fmt);
    TextNulFree(child.tree, depth, fmt);
    var _ := BufferValue(p, child, depth, fmt);
    p.Update(front, text);
    if !last {
      var len := if fmt then 2 else 1;
      p.Ensure(len + 1);
      p.AppendTerminated(Comma(fmt));
    } else {
      assert front + text + "" == front + text;
    }
  }

  method BufferObject(p: PrintBuffer, item: Item, depth: nat, fmt: bool) returns (out: nat)
    requires p.Valid() && item.Valid() && Printable(item.tree) && item.kind == IsObject
    modifies p, p.buffer
    ensures p.Wrote(old(p.Front()), Text(item.tree, depth, fmt)) && out == Returned(item.tree, depth, fmt, old(p.offset))
    ensures p.buffer == old(p.buffer) || fresh(p.buffer)
    decreases item.Repr, 1
  {
    hide Item.Valid, Item.Denotes, Text, MembersText, Printable, PrintBuffer.Front, PrintBuffer.Wrote;
    ContainerFacts(item);
    ghost var members, front := item.tree.members, p.Front();
    assert item.tree == Object(members);
    var numentries := GetArraySize(item);
    if numentries == 0 {
      EmptyObjectText(depth, fmt);
      out := p.offset;
      p.Ensure(if fmt then depth + 4 else 3);
      p.PutEmptyObject(depth, fmt);
      return;
    }
    var i := p.offset;
    ChildFacts(item, 0);
    p.Ensure(if fmt then 3 else 2);
    p.AppendTerminated(if fmt then "{\n" else "{");
    BufferMembers(p, item, front + (if fmt then "{\n" else "{"), depth + 1, fmt);
    Glue(front, if fmt then "{\n" else "{", MembersText(members, depth + 1, fmt));
    p.Ensure(if fmt then depth + 2 else 2);
    PutClose(p, depth, fmt);
    p.Regroup(front, (if fmt then "{\n" else "{") + MembersText(members, depth + 1, fmt), (if fmt then Tabs(depth) else "") + "}");
    ObjectText(members, depth + 1, fmt);
    if fmt {
      i := depth;
    }
    out := i;
  }

  method PutClose(p: PrintBuffer, depth: nat, fmt: bool)
    requires p.Valid() && p.offset + (if fmt then depth + 2 else 2) <= p.length
    modifies p.buffer
    ensures p.Wrote(old(p.Front()), (if fmt then Tabs(depth) else "") + "}")
  {
    ghost var front := p.Front();
    var ptr := p.offset;
    if fmt {
      WriteTabs(p.buffer, ptr, depth);
      ptr := ptr + depth;
    }
    Store(p.buffer, ptr, "}\0");
    assert p.buffer[..ptr + 1] == front + ((if fmt then Tabs(depth) else "") + "}");
  }

  method BufferMembers(p: PrintBuffer, item: Item, ghost front: string, depth: nat, fmt: bool)
    requires p.Valid() && item.Valid() && Printable(item.tree) && item.tree.Object? && |item.Kids| > 0 && p.Front() == front
    modifies p, p.buffer
    ensures p.Valid() && p.Front() == front + MembersText(item.tree.members, depth, fmt)
    ensures p.buffer == old(p.buffer) || fresh(p.buffer)
    decreases item.Repr, 0
  {
    hide Item.Valid, Text, MembersText, MemberText, Printable, Item.Denotes;
    ghost var members := item.tree.members;
    ghost var goal := front + MembersText(members, depth, fmt);
    ChildFacts(item, 0);
    MembersFromStep(members, 0, depth, fmt);
    var child, i := item.child, 0;
    while child != null
      invariant p.Valid() && (p.buffer == old(p.buffer) || fresh(p.buffer))
      invariant item.Valid() && i <= |members| == |item.Kids| && child == if i < |item.Kids| then item.Kids[i] else null
      invariant p.Front() + MembersFrom(members, i, depth, fmt) == goal
      decreases |members| - i
    {
      ChildFacts(item, i);
      MembersFromStep(members, i, depth, fmt);
      ghost var done, rest := p.Front(), MembersFrom(members, i + 1, depth, fmt);
      ghost var text, end := MemberText(members[i], depth, fmt), MemberEnd(i == |members| - 1, fmt);
      Glue(done, text, end + rest);
      Glue(done + text, end, rest);
      BufferMember(p, child, depth, child.next == null, fmt);
      i := i + 1;
      child := child.next;
    }
    MembersFromStep(members, i, depth, fmt);
    assert p.Front() + "" == p.Front();
  }

  method BufferName(p: PrintBuffer, name: string, depth: nat, fmt: bool)
    requires p.Valid() && NulFree(name)
    modifies p, p.buffer
    ensures p.Valid()
    ensures p.Front() == old(p.Front()) + ((if fmt then Tabs(depth) else "") + Quoted(name) + (if fmt then ":\t" else ":"))
    ensures p.buffer == old(p.buffer) || fresh(p.buffer)
  {
    hide Quoted, Tabs, PrintBuffer.Front, PrintBuffer.Wrote;
    ghost var front, tabs := p.Front(), if fmt then Tabs(depth) else "";
    EscapeNulFree(name);
    if fmt {
      p.Ensure(depth);
      p.AppendTabs(depth);
    }
    assert p.Front() == front + tabs;
    var _ := BufferString(p, name);
    p.Update(front + tabs, Quoted(name));
    p.Ensure(if fmt then 2 else 1);
    p.Append(if fmt then ":\t" else ":");
    assert p.Front() == front + (tabs + Quoted(name) + (if fmt then ":\t" else ":"));
  }

  method BufferMember(p: PrintBuffer, child: Item, depth: nat, last: bool, fmt: bool)
    requires p.Valid() && child.Valid() && NulFree(child.name) && Printable(child.tree)
    modifies p, p.buffer
    ensures p.Valid()
    ensures p.Front() == old(p.Front()) + MemberText(Member(child.name, child.tree), depth, fmt) + MemberEnd(last, fmt)
    ensures p.buffer == old(p.buffer) || fresh(p.buffer)
    decreases child.Repr, 3
  {
    hide Item.Valid, Text, Quoted, Printable, Tabs, PrintBuffer.Front, PrintBuffer.Wrote;
    ghost var front, text := p.Front(), Text(child.tree, depth, fmt);
    TextNulFree(child.tree, depth, fmt);
    BufferName(p, child.name, depth, fmt);
    ghost var before := p.Front();
    var _ := BufferValue(p, child, depth, fmt);
    p.Update(before, text);
    var len := (if fmt then 1 else 0) + if last then 0 else 1;
    p.Ensure(len + 1);
    p.AppendTerminated((if last then "" else ",") + (if fmt then "\n" else ""));
    assert p.Front() == front + MemberText(Member(child.name, child.tree), depth, fmt) + MemberEnd(last, fmt);
  }

  /** cJSON_PrintBuffered: whatever the first guess of the size, the block holds the text the unbuffered printer gives. */
  method PrintBuffered(item: Item, prebuffer: nat, fmt: bool) returns (buffer: array<char>, out: nat)
    requires item.Valid() && Printable(item.tree)
    ensures fresh(buffer) && out == 0 && Holds(buffer, Text(item.tree, 0, fmt))
  {
    var p := new PrintBuffer(prebuffer);
    out := BufferValue(p, item, 0, fmt);
    buffer := p.buffer;
    assert "" + Text(item.tree, 0, fmt) == Text(item.tree, 0, fmt);
  }
}
