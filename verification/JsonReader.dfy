/** The parser as it runs: a cursor over the text, loops, and nodes built on the heap (wifi/cJSON.c:97-116, 193-253,
    324-373, 409-435, 518-551). */
module JsonReader {
  import opened Wrappers
  import opened JsonText
  import opened JsonParse
  import opened JsonBlock
  import opened JsonItem

  lemma SliceDrop(text: string, p: nat, k: nat)
    requires k <= |Drop(text, p)|
    ensures Drop(text, p)[k..] == Drop(text, p + k)
  {
  }

  method SkipSpace(text: string, from: nat) returns (p: nat)
    ensures p >= from && Drop(text, p) == Skip(Drop(text, from))
  {
    p := from;
    while At(text, p) != '\0' && At(text, p) <= ' '
      invariant p >= from && Skip(Drop(text, p)) == Skip(Drop(text, from))
      decreases |text| - p
    {
      AtDrop(text, p, 0);
      AtDrop(text, p, 1);
      p := p + 1;
    }
    AtDrop(text, p, 0);
  }

  // ----- Numbers -----

  method ReadDigits(text: string, from: nat, n0: int, count0: int) returns (n: int, count: int, p: nat)
    ensures p >= from && TakeDigits(Drop(text, from), n0, count0) == (n, count, Drop(text, p))
  {
    hide TakeDigits, Drop;
    n, count, p := n0, count0, from;
    while IsDigit(At(text, p))
      invariant p >= from && TakeDigits(Drop(text, p), n, count) == TakeDigits(Drop(text, from), n0, count0)
      decreases |text| - p
    {
      TakeDigitsStep(Drop(text, p), n, count);
      AtDrop(text, p, 0);
      AtDrop(text, p, 1);
      n, count, p := n * 10 + (text[p] as int - '0' as int), count + 1, p + 1;
    }
    AtDrop(text, p, 0);
    TakeDigitsStep(Drop(text, p), n, count);
  }

  lemma TakeDigitsStep(s: string, n: int, count: int)
    ensures TakeDigits(s, n, count) ==
      if IsDigit(At(s, 0)) then TakeDigits(Drop(s, 1), n * 10 + (s[0] as int - '0' as int), count + 1) else (n, count, s)
  {
  }

  method ReadInteger(text: string, from: nat) returns (n: int, p: nat)
    ensures p >= from && TakeInteger(Drop(text, from)) == (n, Drop(text, p))
  {
    hide TakeDigits, Drop;
    AtDrop(text, from, 0);
    AtDrop(text, from, 1);
    n, p := 0, from;
    if At(text, p) == '0' {
      p := p + 1;
    }
    AtDrop(text, p, 0);
    if '1' <= At(text, p) <= '9' {
      var count;
      n, count, p := ReadDigits(text, p, 0, 0);
    }
  }

  method ReadFraction(text: string, from: nat, n0: int) returns (n: int, scale: int, p: nat)
    ensures p >= from && TakeFraction(Drop(text, from), n0) == (n, scale, Drop(text, p))
  {
    hide TakeDigits, Drop;
    AtDrop(text, from, 0);
    AtDrop(text, from, 1);
    n, scale, p := n0, 0, from;
    if At(text, p) == '.' && IsDigit(At(text, p + 1)) {
      var count;
      n, count, p := ReadDigits(text, p + 1, n, 0);
      scale := -count;
    }
  }

  method ReadExponent(text: string, from: nat) returns (e: int, p: nat)
    ensures p >= from && TakeExponent(Drop(text, from)) == (e, Drop(text, p))
  {
    hide TakeDigits, Drop;
    AtDrop(text, from, 0);
    AtDrop(text, from, 1);
    e, p := 0, from;
    if At(text, p) == 'e' || At(text, p) == 'E' {
      var sign, count := 1, 0;
      p := p + 1;
      AtDrop(text, p, 0);
      AtDrop(text, p, 1);
      if At(text, p) == '+' {
        p := p + 1;
      } else if At(text, p) == '-' {
        sign, p := -1, p + 1;
      }
      e, count, p := ReadDigits(text, p, 0, 0);
      e := sign * e;
    }
  }

  method ReadNumber(text: string, from: nat) returns (mantissa: int, exponent: int, p: nat)
    ensures p >= from && ParseNumber(Drop(text, from)) == (Number(mantissa, exponent), Drop(text, p))
  {
    hide TakeInteger, TakeFraction, TakeExponent, Drop;
    AtDrop(text, from, 0);
    AtDrop(text, from, 1);
    var sign, scale := 1, 0;
    p := from;
    if At(text, p) == '-' {
      sign, p := -1, p + 1;
    }
    mantissa, p := ReadInteger(text, p);
    mantissa, scale, p := ReadFraction(text, p, mantissa);
    exponent, p := ReadExponent(text, p);
    mantissa, exponent := sign * mantissa, scale + exponent;
  }

  // ----- Strings -----

  lemma AheadNothing(out: string, r: (string, string))
    ensures Ahead("", r) == r && forall rest :: Ahead(out, ("", rest)) == (out, rest)
  {
    assert "" + r.0 == r.0 && out + "" == out;
  }

  lemma AheadAhead(a: string, b: string, r: (string, string))
    ensures Ahead(a, Ahead(b, r)) == Ahead(a + b, r)
  {
    Glue(a, b, r.0);
  }

  /** The first pass: how long the block for a string is, without its terminator. */
  method MeasureString(text: string, from: nat) returns (len: nat)
    ensures len == Measured(Drop(text, from)).0
  {
    hide Drop;
    len := 0;
    var p := from;
    while At(text, p) != '\"' && At(text, p) != '\0'
      invariant len + Measured(Drop(text, p)).0 == Measured(Drop(text, from)).0
      decreases |text| - p
    {
      AtDrop(text, p, 0);
      AtDrop(text, p, if At(text, p) == '\\' then 2 else 1);
      len := len + 1;
      if At(text, p) == '\\' {
        p := p + 1;
      }
      p := p + 1;
    }
    AtDrop(text, p, 0);
  }

  /** `size` is the size of the block that is allocated for the string and its terminator. */
  method ReadString(text: string, from: nat) returns (ok: bool, out: string, p: nat, size: nat)
    ensures p >= from && (ok <==> At(text, from) == '\"')
    ensures ParseString(Drop(text, from)) == if ok then Some((out, Drop(text, p))) else None
    ensures ok ==> size == Measured(Drop(text, from + 1)).0 + 1 && (|out| + 1 <= size <==> BlockFits(Drop(text, from)))
  {
    hide StringBody, Unescape, Ahead, Drop, Measured;
    size := 0;
    AtDrop(text, from, 0);
    AtDrop(text, from, 1);
    ok, out, p := false, "", from;
    if At(text, from) != '\"' {
      return;
    }
    var len := MeasureString(text, from + 1);
    size := len + 1;
    ok, p := true, from + 1;
    var nest := 0;
    ghost var goal := StringBody(Drop(text, p), 0);
    AheadNothing("", goal);
    while (At(text, p) != '\"' || nest != 0) && At(text, p) != '\0'
      invariant p > from && Ahead(out, StringBody(Drop(text, p), nest)) == goal
      decreases |text| - p
    {
      ghost var s := Drop(text, p);
      AtDrop(text, p, 0);
      BodyRound(s, nest);
      if At(text, p) == '{' {
        nest := nest + 1;
      } else if At(text, p) == '}' {
        nest := nest - 1;
      }
      if At(text, p) != '\\' {
        AtDrop(text, p, 1);
        AheadAhead(out, [s[0]], StringBody(Drop(s, 1), nest));
        out, p := out + [text[p]], p + 1;
      } else {
        var e := Unescape(Drop(text, p));
        AtDrop(text, p, e.1);
        AheadAhead(out, e.0, StringBody(Drop(s, e.1), nest));
        out, p := out + e.0, p + e.1;
      }
    }
    AtDrop(text, p, 0);
    AtDrop(text, p, 1);
    BodyStops(Drop(text, p), nest);
    AheadNothing(out, goal);
    if At(text, p) == '\"' {
      p := p + 1;
    }
  }

  // ----- Values -----

  /** The answer of a reading method agrees with the parser function: a new tree and the position after it, or null. */
  twostate predicate Answers(new p: Parsed<Json>, new item: Item?, new text: string, new end: nat)
    reads if item == null then {} else {item} + item.Repr
  {
    if p.None? then item == null
    else
      && item != null && fresh(item) && fresh(item.Repr) && item.Valid()
      && item.next == null && item.prev == null && item.name == ""
      && item.tree == p.value.0 && Drop(text, end) == p.value.1
  }

  method NewLeaf(kind: Kind, mantissa: int, exponent: int, valuestring: string) returns (item: Item)
    requires kind != IsArray && kind != IsObject
    ensures fresh(item) && item.Repr == {item} && item.Valid() && item.next == null && item.prev == null && item.name == ""
    ensures item.tree == match kind
      case IsFalse => False
      case IsTrue => True
      case IsNull => Null
      case IsNumber => Number(mantissa, exponent)
      case IsString => String(valuestring)
      case _ => Null
  {
    item := new Item();
    item.kind, item.mantissa, item.exponent, item.valuestring := kind, mantissa, exponent, valuestring;
    item.tree := match kind
      case IsFalse => False
      case IsTrue => True
      case IsNull => Null
      case IsNumber => Number(mantissa, exponent)
      case IsString => String(valuestring)
      case _ => Null;
  }

  method ReadValue(text: string, value: nat) returns (item: Item?, end: nat)
    ensures Answers(ParseValue(Drop(text, value)), item, text, end)
    decreases |Drop(text, value)|, 1
  {
    hide ParseNumber, ParseString, ParseArray, ParseObject, Drop, Item.Valid;
    AtDrop(text, value, 0);
    item, end := null, value;
    if "null" <= Drop(text, value) {
      SliceDrop(text, value, 4);
      item := NewLeaf(IsNull, 0, 0, "");
      end := value + 4;
    } else if "false" <= Drop(text, value) {
      SliceDrop(text, value, 5);
      item := NewLeaf(IsFalse, 0, 0, "");
      end := value + 5;
    } else if "true" <= Drop(text, value) {
      SliceDrop(text, value, 4);
      item := NewLeaf(IsTrue, 0, 0, "");
      end := value + 4;
    } else if At(text, value) == '\"' {
      var ok, out;
      var size;
      ok, out, end, size := ReadString(text, value);
      assert ok;
      item := NewLeaf(IsString, 0, 0, out);
    } else if At(text, value) == '-' || IsDigit(At(text, value)) {
      var mantissa, exponent;
      mantissa, exponent, end := ReadNumber(text, value);
      item := NewLeaf(IsNumber, mantissa, exponent, "");
    } else if At(text, value) == '[' {
      item, end := ReadArray(text, value);
    } else if At(text, value) == '{' {
      item, end := ReadObject(text, value);
    }
  }

  // ----- Containers -----

  method NewContainer(kind: Kind) returns (item: Item)
    requires kind == IsArray || kind == IsObject
    ensures fresh(item) && item.Repr == {item} && item.Valid() && item.next == null && item.prev == null && item.name == ""
    ensures item.kind == kind && item.Kids == [] && Growing(item, null, item.tree) && item.tree == if kind == IsArray then Array([]) else Object([])
  {
    item := new Item();
    item.kind := kind;
    item.tree := if kind == IsArray then Array([]) else Object([]);
  }

  /** A container under construction, its newest child being `last`. */
  ghost predicate Growing(item: Item, last: Item?, tree: Json)
    reads item, item.Repr
  {
    && item.Valid() && item.IsContainer() && item.tree == tree && item in item.Repr && item !in item.Kids
    && last == if item.Kids == [] then null else item.Kids[|item.Kids| - 1]
  }

  lemma GrowingSize(item: Item, last: Item?, tree: Json)
    requires Growing(item, last, tree)
    ensures |item.Kids| == Size(tree) && (tree.Array? || tree.Object?) && item.Valid() && item.tree == tree
  {
  }

  method Link(item: Item, last: Item?, child: Item, ghost tree: Json)
    requires Growing(item, last, tree) && child.Valid() && item.Repr !! child.Repr && child.next == null && child.prev == null
    modifies item`child, item`tree, item`Kids, item`Repr, item.Kids`next, child`prev
    ensures |old(item.Kids)| == Size(tree) && (tree.Array? || tree.Object?)
    ensures Growing(item, child, InsertChild(tree, Size(tree), child.name, old(child.tree)))
    ensures item.Kids == old(item.Kids) + [child] && item.Repr == old(item.Repr + child.Repr)
  {
    hide Item.Valid, InsertChild, InsertAt;
    Unfold(item, child);
    GrowingSize(item, last, tree);
    AppendAfter(item, last, child);
  }

  /** Elements already read, put in front of what is still to be read. */
  function Then<T>(done: seq<T>, p: Parsed<seq<T>>): Parsed<seq<T>> {
    if p.None? then None else Some((done + p.value.0, p.value.1))
  }

  function Element(s: string): (r: Parsed<Json>)
    ensures r.Some? ==> |r.value.1| <= |s|
  {
    var p := ParseValue(Skip(s));
    if p.None? then None else Some((p.value.0, Skip(p.value.1)))
  }

  /** Where the array loop stands after the elements `done`, with `s` the text from the next comma or bracket on. */
  ghost predicate AfterItems(goal: Parsed<seq<Json>>, done: seq<Json>, s: string) {
    goal == if At(s, 0) == ',' then Then(done, ParseItems(s[1..])) else Some((done, s))
  }

  lemma FirstItem(s: string)
    ensures Element(s).None? ==> ParseItems(s).None?
    ensures Element(s).Some? ==> AfterItems(ParseItems(s), [Element(s).value.0], Element(s).value.1)
  {
    hide ParseValue;
  }

  lemma NextItem(goal: Parsed<seq<Json>>, done: seq<Json>, s: string)
    requires AfterItems(goal, done, s) && At(s, 0) == ','
    ensures Element(s[1..]).None? ==> goal.None?
    ensures Element(s[1..]).Some? ==> AfterItems(goal, done + [Element(s[1..]).value.0], Element(s[1..]).value.1)
  {
    hide ParseValue;
    FirstItem(s[1..]);
    var e := Element(s[1..]);
    if e.Some? && At(e.value.1, 0) == ',' {
      var q := ParseItems(e.value.1[1..]);
      if q.Some? {
        assert done + ([e.value.0] + q.value.0) == (done + [e.value.0]) + q.value.0;
      }
    }
  }

  method ReadElement(text: string, from: nat) returns (child: Item?, end: nat)
    ensures Answers(Element(Drop(text, from)), child, text, end)
    decreases |Drop(text, from)|, 2
  {
    hide ParseValue, Skip, Item.Valid;
    var p := SkipSpace(text, from);
    child, end := ReadValue(text, p);
    end := SkipSpace(text, end);
  }

  method ReadArray(text: string, value: nat) returns (item: Item?, end: nat)
    requires At(Drop(text, value), 0) == '['
    ensures Answers(ParseArray(Drop(text, value)), item, text, end)
    decreases |Drop(text, value)|, 0
  {
    hide ParseValue, ParseItems, Item.Valid, AfterItems, Element, Skip, InsertChild, Growing, Drop;
    AtDrop(text, value, 0);
    var node := NewContainer(IsArray);
    end := SkipSpace(text, value + 1);
    AtDrop(text, end, 0);
    if At(text, end) == ']' {
      return node, end + 1;
    }
    var read;
    read, end := ReadItems(text, end, node);
    AtDrop(text, end, 0);
    if read && At(text, end) == ']' {
      return node, end + 1;
    }
    return null, end;
  }

  /** The elements, linked one behind the other as children of `node`. */
  method ReadItems(text: string, from: nat, node: Item) returns (ok: bool, end: nat)
    requires Growing(node, null, Array([])) && node.Kids == [] && node.Repr == {node}
    modifies node
    ensures ok <==> ParseItems(Drop(text, from)).Some?
    ensures ok ==> node.Valid() && node.tree == Array(ParseItems(Drop(text, from)).value.0)
    ensures ok ==> Drop(text, end) == ParseItems(Drop(text, from)).value.1
    ensures fresh(node.Repr - {node}) && node.next == old(node.next) && node.prev == old(node.prev) && node.name == old(node.name)
    decreases |Drop(text, from)|, 3
  {
    hide ParseValue, ParseItems, Item.Valid, AfterItems, Element, InsertChild, Growing, Drop;
    ghost var goal, items := ParseItems(Drop(text, from)), [];
    FirstItem(Drop(text, from));
    var child, last: Item?;
    child, end := ReadElement(text, from);
    if child == null {
      return false, end;
    }
    items := [child.tree];
    assert [] + items == items;
    InsertLast(Array([]), child.name, child.tree);
    Link(node, null, child, Array([]));
    last := child;
    while At(text, end) == ','
      invariant Growing(node, last, Array(items)) && AfterItems(goal, items, Drop(text, end))
      invariant fresh(node.Repr - {node})
      invariant node.next == old(node.next) && node.prev == old(node.prev) && node.name == old(node.name)
      invariant node !in node.Kids && forall i | 0 <= i < |node.Kids| :: fresh(node.Kids[i])
      invariant |Drop(text, end)| <= |Drop(text, from)|
      decreases |Drop(text, end)|
    {
      AtDrop(text, end, 0);
      NextItem(goal, items, Drop(text, end));
      child, end := ReadElement(text, end + 1);
      if child == null {
        return false, end;
      }
      InsertLast(Array(items), child.name, child.tree);
      ghost var v := child.tree;
      Link(node, last, child, Array(items));
      items := items + [v];
      last := child;
    }
    ok := true;
    AtDrop(text, end, 0);
    ItemsDone(goal, items, Drop(text, end));
    GrowingSize(node, last, Array(items));
  }

  lemma ItemsDone(goal: Parsed<seq<Json>>, done: seq<Json>, s: string)
    requires AfterItems(goal, done, s) && At(s, 0) != ','
    ensures goal == Some((done, s))
  {
  }

  lemma InsertLast(t: Json, name: string, v: Json)
    requires t.Array? || t.Object?
    ensures t.Array? ==> InsertChild(t, Size(t), name, v) == Array(t.items + [v])
    ensures t.Object? ==> InsertChild(t, Size(t), name, v) == Object(t.members + [Member(name, v)])
  {
  }

  method ReadObject(text: string, value: nat) returns (item: Item?, end: nat)
    requires At(Drop(text, value), 0) == '{'
    ensures Answers(ParseObject(Drop(text, value)), item, text, end)
    decreases |Drop(text, value)|, 0
  {
    hide ParseValue, ParseMembers, Item.Valid, Skip, InsertChild, Growing, Drop;
    AtDrop(text, value, 0);
    var node := NewContainer(IsObject);
    end := SkipSpace(text, value + 1);
    AtDrop(text, end, 0);
    if At(text, end) == '}' {
      return node, end + 1;
    }
    var read;
    read, end := ReadMembers(text, end, node);
    AtDrop(text, end, 0);
    if read && At(text, end) == '}' {
      return node, end + 1;
    }
    return null, end;
  }

  /** A name, a colon and a value; the name is kept in the node of the value. */
  method ReadMember(text: string, from: nat) returns (child: Item?, end: nat)
    ensures var p := ParseMember(Drop(text, from));
      if p.None? then child == null
      else
        && child != null && fresh(child) && fresh(child.Repr) && child.Valid() && child.next == null && child.prev == null
        && Member(child.name, child.tree) == p.value.0 && Drop(text, end) == p.value.1
    decreases |Drop(text, from)|, 2
  {
    hide ParseValue, ParseString, Skip, Drop;
    var p := SkipSpace(text, from);
    var ok, name;
    var size;
    ok, name, end, size := ReadString(text, p);
    if !ok {
      return null, end;
    }
    end := SkipSpace(text, end);
    AtDrop(text, end, 0);
    if At(text, end) != ':' {
      return null, end;
    }
    end := SkipSpace(text, end + 1);
    child, end := ReadValue(text, end);
    if child == null {
      return null, end;
    }
    Rename(child, name);
    end := SkipSpace(text, end);
  }

  /** The parsed name moves into the item, whose value was read after it. */
  method Rename(child: Item, name: string)
    requires child.Valid()
    modifies child`name
    ensures child.Valid() && child.name == name
  {
    child.name := name;
  }

  /** Where the object loop stands after the members `done`, with `s` the text from the next comma or brace on. */
  ghost predicate AfterMembers(goal: Parsed<seq<Member>>, done: seq<Member>, s: string) {
    goal == if At(s, 0) == ',' then Then(done, ParseMembers(s[1..])) else Some((done, s))
  }

  lemma FirstMember(s: string)
    ensures ParseMember(s).None? ==> ParseMembers(s).None?
    ensures ParseMember(s).Some? ==> AfterMembers(ParseMembers(s), [ParseMember(s).value.0], ParseMember(s).value.1)
  {
    hide ParseMember;
  }

  lemma NextMember(goal: Parsed<seq<Member>>, done: seq<Member>, s: string)
    requires AfterMembers(goal, done, s) && At(s, 0) == ','
    ensures ParseMember(s[1..]).None? ==> goal.None?
    ensures ParseMember(s[1..]).Some? ==> AfterMembers(goal, done + [ParseMember(s[1..]).value.0], ParseMember(s[1..]).value.1)
  {
    hide ParseMember;
    FirstMember(s[1..]);
    var e := ParseMember(s[1..]);
    if e.Some? && At(e.value.1, 0) == ',' {
      var q := ParseMembers(e.value.1[1..]);
      if q.Some? {
        assert done + ([e.value.0] + q.value.0) == (done + [e.value.0]) + q.value.0;
      }
    }
  }

  lemma MembersDone(goal: Parsed<seq<Member>>, done: seq<Member>, s: string)
    requires AfterMembers(goal, done, s) && At(s, 0) != ','
    ensures goal == Some((done, s))
  {
  }

  /** The members, linked one behind the other as children of `node`. */
  method ReadMembers(text: string, from: nat, node: Item) returns (ok: bool, end: nat)
    requires Growing(node, null, Object([])) && node.Kids == [] && node.Repr == {node}
    modifies node
    ensures ok <==> ParseMembers(Drop(text, from)).Some?
    ensures ok ==> node.Valid() && node.tree == Object(ParseMembers(Drop(text, from)).value.0)
    ensures ok ==> Drop(text, end) == ParseMembers(Drop(text, from)).value.1
    ensures fresh(node.Repr - {node}) && node.next == old(node.next) && node.prev == old(node.prev) && node.name == old(node.name)
    decreases |Drop(text, from)|, 3
  {
    hide ParseMember, ParseMembers, Item.Valid, AfterMembers, InsertChild, Growing, Drop;
    ghost var goal, members := ParseMembers(Drop(text, from)), [];
    FirstMember(Drop(text, from));
    var child, last: Item?;
    child, end := ReadMember(text, from);
    if child == null {
      return false, end;
    }
    members := [Member(child.name, child.tree)];
    assert [] + members == members;
    InsertLast(Object([]), child.name, child.tree);
    Link(node, null, child, Object([]));
    last := child;
    while At(text, end) == ','
      invariant Growing(node, last, Object(members)) && AfterMembers(goal, members, Drop(text, end))
      invariant fresh(node.Repr - {node})
      invariant node.next == old(node.next) && node.prev == old(node.prev) && node.name == old(node.name)
      invariant node !in node.Kids && forall i | 0 <= i < |node.Kids| :: fresh(node.Kids[i])
      invariant |Drop(text, end)| <= |Drop(text, from)|
      decreases |Drop(text, end)|
    {
      AtDrop(text, end, 0);
      NextMember(goal, members, Drop(text, end));
      child, end := ReadMember(text, end + 1);
      if child == null {
        return false, end;
      }
      ghost var m := Member(child.name, child.tree);
      InsertLast(Object(members), child.name, child.tree);
      Link(node, last, child, Object(members));
      members := members + [m];
      last := child;
    }
    ok := true;
    AtDrop(text, end, 0);
    MembersDone(goal, members, Drop(text, end));
    GrowingSize(node, last, Object(members));
  }

  // ----- Entry points -----

  /** cJSON_ParseWithOpts: white space in front is skipped; with `terminated`, only white space may follow. */
  method ParseWithOpts(text: string, terminated: bool) returns (item: Item?, end: nat)
    ensures var p := ParseValue(Skip(text));
      if p.None? || (terminated && At(Skip(p.value.1), 0) != '\0') then item == null
      else
        && item != null && fresh(item.Repr) && item.Valid() && item.tree == p.value.0
        && Drop(text, end) == if terminated then Skip(p.value.1) else p.value.1
  {
    hide ParseValue, Item.Valid;
    assert Drop(text, 0) == text;
    end := SkipSpace(text, 0);
    item, end := ReadValue(text, end);
    if item != null && terminated {
      end := SkipSpace(text, end);
      AtDrop(text, end, 0);
      if At(text, end) != '\0' {
        item := null;
      }
    }
  }
}
