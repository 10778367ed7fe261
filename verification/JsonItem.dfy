/** cJSON nodes on the heap: the doubly linked child list, its edits and duplication (wifi/cJSON.c:670-693, 712-737). */
module JsonItem {
  import opened JsonText

  datatype Kind = IsFalse | IsTrue | IsNull | IsNumber | IsString | IsArray | IsObject

  /** Following `next` from `first` visits exactly `kids`, and `prev` goes back the same way. */
  ghost predicate Chain(kids: seq<Item>, first: Item?)
    reads kids
  {
    && first == (if kids == [] then null else kids[0])
    && (forall i {:trigger kids[i].next} | 0 <= i < |kids| ::
          kids[i].next == if i + 1 < |kids| then kids[i + 1] else null)
    && (forall i {:trigger kids[i].prev} | 0 <= i < |kids| ::
          kids[i].prev == if i > 0 then kids[i - 1] else null)
  }

  class Item {
    var kind: Kind
    var mantissa: int
    var exponent: int
    var valuestring: string
    var name: string
    var next: Item?
    var prev: Item?
    var child: Item?

    ghost var Kids: seq<Item>  // the child list, first to last
    ghost var Repr: set<Item>  // this node and everything below it
    ghost var tree: Json       // the tree this node stands for

    /** cJSON_New_Item: all fields zero. */
    constructor ()
      ensures Valid() && fresh(Repr) && Repr == {this}
      ensures kind == IsFalse && tree == False && Kids == [] && next == null && prev == null
      ensures name == "" && valuestring == "" && mantissa == 0 && exponent == 0
    {
      kind, mantissa, exponent, valuestring, name := IsFalse, 0, 0, "", "";
      next, prev, child := null, null, null;
      Kids, Repr, tree := [], {this}, False;
    }

    /** `child`, `next` and `prev` spell out exactly the list `Kids`. */
    ghost predicate Linked()
      reads this, Kids
    {
      Chain(Kids, child)
    }

    /** `tree` is what the fields and the children's trees say. */
    ghost predicate Denotes()
      reads this, Kids
    {
      match kind
      case IsFalse => tree == False && Kids == []
      case IsTrue => tree == True && Kids == []
      case IsNull => tree == Null && Kids == []
      case IsNumber => tree == Number(mantissa, exponent) && Kids == []
      case IsString => tree == String(valuestring) && Kids == []
      case IsArray =>
        (&& tree.Array? && |tree.items| == |Kids|
         && forall i | 0 <= i < |Kids| :: tree.items[i] == Kids[i].tree)
      case IsObject =>
        (&& tree.Object? && |tree.members| == |Kids|
         && forall i | 0 <= i < |Kids| :: tree.members[i] == Member(Kids[i].name, Kids[i].tree))
    }

    /** The children own pairwise disjoint parts of this node's representation. */
    ghost predicate Owns()
      reads this, Kids
    {
      && this in Repr
      && (forall i | 0 <= i < |Kids| :: Kids[i] in Repr && Kids[i] in Kids[i].Repr && Kids[i].Repr <= Repr - {this})
      && forall i, j | 0 <= i < j < |Kids| :: Kids[i].Repr !! Kids[j].Repr
    }

    ghost predicate Valid()
      reads this, Repr
      decreases Repr
    {
      && this in Repr
      && (forall i | 0 <= i < |Kids| :: Kids[i] in Repr)
      && Owns() && Linked() && Denotes()
      && forall i | 0 <= i < |Kids| :: Kids[i].Valid()
    }

    ghost predicate IsContainer()
      reads this
    {
      kind == IsArray || kind == IsObject
    }
  }

  // ----- What the links give -----

  /** `n` steps along `next`. */
  ghost function Follow(c: Item?, n: nat, kids: seq<Item>): Item?
    reads kids
    decreases n
  {
    if n == 0 || c == null || c !in kids then c else Follow(c.next, n - 1, kids)
  }

  lemma {:induction false} FollowFrom(kids: seq<Item>, first: Item?, k: nat, n: nat)
    requires Chain(kids, first) && k + n <= |kids|
    ensures Follow(if k < |kids| then kids[k] else null, n, kids) == if k + n < |kids| then kids[k + n] else null
    decreases n
  {
    if n > 0 {
      assert kids[k].next == if k + 1 < |kids| then kids[k + 1] else null;
      FollowFrom(kids, first, k + 1, n - 1);
    }
  }

  /** The child list of a valid node is acyclic and doubly linked: its nodes are distinct, `next` and `prev` are inverse
      to each other, and following `next` visits the children in order and ends after the last one. */
  lemma ListShape(parent: Item)
    requires parent.Valid()
    ensures forall i, j | 0 <= i < j < |parent.Kids| :: parent.Kids[i] != parent.Kids[j]
    ensures forall c | c in parent.Kids :: c.next != null ==> c.next in parent.Kids && c.next.prev == c
    ensures forall c | c in parent.Kids :: c.prev != null ==> c.prev in parent.Kids && c.prev.next == c
    ensures forall n | 0 <= n <= |parent.Kids| ::
      Follow(parent.child, n, parent.Kids) == if n < |parent.Kids| then parent.Kids[n] else null
  {
    var kids := parent.Kids;
    assert Chain(kids, parent.child) && parent.Owns();
    hide Item.Valid, Item.Denotes, Chain, Follow;
    forall n | 0 <= n <= |kids|
      ensures Follow(parent.child, n, kids) == if n < |kids| then kids[n] else null
    {
      FollowFrom(kids, parent.child, 0, n);
    }
    forall c | c in kids
      ensures c.next != null ==> c.next in kids && c.next.prev == c
      ensures c.prev != null ==> c.prev in kids && c.prev.next == c
    {
      var i :| 0 <= i < |kids| && kids[i] == c;
    }
  }

  // ----- The tree a container denotes after one edit of its child list -----

  function InsertAt<T>(s: seq<T>, k: nat, x: T): (r: seq<T>)
    requires k <= |s|
    ensures |r| == |s| + 1
    ensures forall i {:trigger r[i]} | 0 <= i < |r| :: r[i] == if i < k then s[i] else if i == k then x else s[i - 1]
  {
    s[..k] + [x] + s[k..]
  }

  function RemoveAt<T>(s: seq<T>, k: nat): (r: seq<T>)
    requires k < |s|
    ensures |r| == |s| - 1
    ensures forall i {:trigger r[i]} | 0 <= i < |r| :: r[i] == if i < k then s[i] else s[i + 1]
  {
    s[..k] + s[k + 1..]
  }

  function Size(t: Json): nat {
    match t
    case Array(items) => |items|
    case Object(members) => |members|
    case _ => 0
  }

  function InsertChild(t: Json, k: nat, name: string, value: Json): Json
    requires (t.Array? || t.Object?) && k <= Size(t)
  {
    match t
    case Array(items) => Array(InsertAt(items, k, value))
    case Object(members) => Object(InsertAt(members, k, Member(name, value)))
  }

  function RemoveChild(t: Json, k: nat): Json
    requires (t.Array? || t.Object?) && k < Size(t)
  {
    match t
    case Array(items) => Array(RemoveAt(items, k))
    case Object(members) => Object(RemoveAt(members, k))
  }

  /** At most the neighbours of `k` have changed. */
  twostate predicate OnlyRelinked(k: Item)
    reads k
  {
    && k.kind == old(k.kind) && k.mantissa == old(k.mantissa) && k.exponent == old(k.exponent)
    && k.valuestring == old(k.valuestring) && k.name == old(k.name) && k.child == old(k.child)
    && k.Kids == old(k.Kids) && k.Repr == old(k.Repr) && k.tree == old(k.tree)
  }

  /** Moving a node to other neighbours does not disturb what it stands for. */
  twostate lemma Relinked(k: Item)
    requires old(k.Valid()) && OnlyRelinked(k)
    requires forall o | o in k.Repr && o != k :: unchanged(o)
    ensures k.Valid()
  {
    forall i | 0 <= i < |k.Kids| ensures k.Kids[i].Valid() {
      assert old(k.Kids[i].Valid()) && old(k.Kids[i].Repr) <= k.Repr - {k};
    }
  }

  lemma Assemble(parent: Item)
    requires parent.Owns() && parent.Linked() && parent.Denotes()
    requires forall i | 0 <= i < |parent.Kids| :: parent.Kids[i].Valid()
    ensures parent.Valid()
  {
  }

  /** After an edit that relinks only children, the parent is valid again once its own three conditions hold. */
  twostate lemma Edited(parent: Item, new kids: seq<Item>)
    requires kids == parent.Kids && old(allocated(kids)) && forall i | 0 <= i < |kids| :: old(kids[i].Valid())
    requires parent.Owns() && parent.Linked() && parent.Denotes()
    requires forall i | 0 <= i < |kids| :: OnlyRelinked(kids[i])
    requires forall i, o | 0 <= i < |kids| && o in old(kids[i].Repr) && o !in kids :: unchanged(o)
    ensures parent.Valid()
  {
    hide Item.Valid;
    forall i | 0 <= i < |kids| ensures kids[i].Valid() {
      assert forall j | 0 <= j < |kids| && j != i :: kids[j] in kids[j].Repr && kids[j] !in kids[i].Repr;
      assert forall o | o in kids[i].Repr && o != kids[i] :: o !in kids;
      Relinked(kids[i]);
    }
    Assemble(parent);
  }

  /** What validity says about two separate nodes, spelled out one level deep. */
  lemma Unfold(parent: Item, item: Item)
    requires parent.Valid() && item.Valid() && parent.Repr !! item.Repr
    ensures parent.Owns() && parent.Linked() && parent.Denotes()
    ensures forall i, j | 0 <= i < j < |parent.Kids| :: parent.Kids[i] != parent.Kids[j]
    ensures item in item.Repr && parent != item && item !in parent.Kids && parent !in parent.Kids
    ensures forall i | 0 <= i < |parent.Kids| :: parent.Kids[i].Valid() && parent.Kids[i].Repr !! item.Repr
  {
  }

  twostate lemma InsertedOwns(parent: Item, new k: nat, new item: Item)
    requires old(allocated(item)) && old(parent.Owns()) && old(parent.Repr !! item.Repr) && item in item.Repr
    requires k <= |old(parent.Kids)| && parent.Kids == InsertAt(old(parent.Kids), k, item)
    requires parent.Repr == old(parent.Repr) + item.Repr && item.Repr == old(item.Repr)
    requires forall x | x in old(parent.Kids) :: x.Repr == old(x.Repr)
    ensures parent.Owns()
  {
    var kids: seq<Item> := old(parent.Kids);
    assert forall i | 0 <= i < |kids| :: kids[i] in kids;
    forall i | 0 <= i < |parent.Kids| ensures parent.Kids[i] == if i < k then kids[i] else if i == k then item else kids[i - 1] {
    }
  }

  twostate lemma InsertedDenotes(parent: Item, new k: nat, new item: Item)
    requires old(allocated(item)) && old(parent.Denotes()) && old(parent.IsContainer())
    requires k <= |old(parent.Kids)| && parent.Kids == InsertAt(old(parent.Kids), k, item)
    requires parent.kind == old(parent.kind)
    requires parent.tree == InsertChild(old(parent.tree), k, item.name, item.tree)
    requires forall x | x in old(parent.Kids) :: x.tree == old(x.tree) && x.name == old(x.name)
    ensures parent.Denotes()
  {
    var kids: seq<Item> := old(parent.Kids);
    hide InsertAt;
    forall i | 0 <= i < |parent.Kids|
      ensures parent.kind == IsArray ==> parent.tree.items[i] == parent.Kids[i].tree
      ensures parent.kind == IsObject ==> parent.tree.members[i] == Member(parent.Kids[i].name, parent.Kids[i].tree)
    {
      if i != k {
        var j := if i < k then i else i - 1;
        assert parent.Kids[i] == kids[j] && kids[j] in kids;
      }
    }
  }

  twostate lemma Inserted(parent: Item, new k: nat, new item: Item)
    requires old(allocated(item)) && old(parent.Valid()) && old(item.Valid())
    requires old(parent.Repr !! item.Repr) && old(parent.IsContainer())
    requires k <= |old(parent.Kids)| && parent.Kids == InsertAt(old(parent.Kids), k, item)
    requires parent.Repr == old(parent.Repr + item.Repr) && parent.kind == old(parent.kind)
    requires parent.tree == InsertChild(old(parent.tree), k, item.name, old(item.tree))
    requires parent.Linked()
    requires OnlyRelinked(item) && forall x | x in old(parent.Kids) :: OnlyRelinked(x)
    requires forall o | o in old(parent.Repr + item.Repr) && o != parent && o !in parent.Kids :: unchanged(o)
    ensures parent.Valid()
  {
    hide Item.Valid, Item.Linked, Item.Denotes, Item.Owns, InsertAt;
    UnfoldOld(parent);
    UnfoldOld(item);
    InsertedOwns(parent, k, item);
    InsertedDenotes(parent, k, item);
    var kids := parent.Kids;
    InsertAtIn(old(parent.Kids), k, item);
    Edited(parent, kids);
  }

  lemma InsertAtEnd<T>(s: seq<T>, x: T)
    ensures InsertAt(s, |s|, x) == s + [x]
  {
  }

  lemma InsertAtIn<T>(s: seq<T>, k: nat, x: T)
    requires k <= |s|
    ensures forall y :: y in InsertAt(s, k, x) <==> y in s || y == x
  {
    assert forall i | 0 <= i < |s| :: s[i] == InsertAt(s, k, x)[if i < k then i else i + 1];
  }

  twostate lemma UnfoldOld(parent: Item)
    requires old(parent.Valid())
    ensures old(parent.Owns()) && old(parent.Linked()) && old(parent.Denotes()) && parent in old(parent.Repr)
    ensures forall x | x in old(parent.Kids) :: old(x.Valid()) && old(x.Repr) <= old(parent.Repr) - {parent}
    ensures forall x | x in old(parent.Kids) :: x in old(x.Repr)
  {
  }

  twostate lemma RemovedOwns(parent: Item, new k: nat)
    requires old(parent.Owns()) && k < |old(parent.Kids)| && parent.Kids == RemoveAt(old(parent.Kids), k)
    requires parent.Repr == old(parent.Repr) - old(parent.Kids[k].Repr)
    requires forall x | x in old(parent.Kids) :: x.Repr == old(x.Repr)
    ensures parent.Owns()
  {
    var kids: seq<Item> := old(parent.Kids);
    assert forall i | 0 <= i < |kids| :: kids[i] in kids;
    forall i | 0 <= i < |parent.Kids| ensures parent.Kids[i] == if i < k then kids[i] else kids[i + 1] {
    }
  }

  twostate lemma RemovedDenotes(parent: Item, new k: nat)
    requires old(parent.Denotes()) && old(parent.IsContainer())
    requires k < |old(parent.Kids)| && parent.Kids == RemoveAt(old(parent.Kids), k)
    requires parent.kind == old(parent.kind) && parent.tree == RemoveChild(old(parent.tree), k)
    requires forall x | x in old(parent.Kids) :: x.tree == old(x.tree) && x.name == old(x.name)
    ensures parent.Denotes()
  {
    var kids: seq<Item> := old(parent.Kids);
    hide RemoveAt;
    forall i | 0 <= i < |parent.Kids|
      ensures var x := kids[if i < k then i else i + 1];
        parent.Kids[i] == x && x.tree == old(x.tree) && x.name == old(x.name)
    {
      assert kids[if i < k then i else i + 1] in kids;
    }
  }

  lemma RemoveAtIn<T>(s: seq<T>, k: nat)
    requires k < |s|
    ensures forall y | y in RemoveAt(s, k) :: y in s
  {
  }

  twostate lemma Removed(parent: Item, new k: nat)
    requires old(parent.Valid()) && old(parent.IsContainer())
    requires k < |old(parent.Kids)| && parent.Kids == RemoveAt(old(parent.Kids), k)
    requires parent.Repr == old(parent.Repr) - old(parent.Kids[k].Repr) && parent.kind == old(parent.kind)
    requires parent.tree == RemoveChild(old(parent.tree), k)
    requires parent.Linked()
    requires forall x | x in old(parent.Kids) :: OnlyRelinked(x)
    requires forall o | o in old(parent.Repr) && o != parent && o !in old(parent.Kids) :: unchanged(o)
    ensures parent.Valid() && old(parent.Kids)[k].Valid() && parent.Repr !! old(parent.Kids)[k].Repr
  {
    hide Item.Valid, Item.Linked, Item.Denotes, Item.Owns, RemoveAt;
    UnfoldOld(parent);
    RemovedOwns(parent, k);
    RemovedDenotes(parent, k);
    var kids: seq<Item> := old(parent.Kids);
    assert parent.Kids == RemoveAt<Item>(kids, k);
    RemoveAtIn(kids, k);
    OldApart(parent);
    forall x | x in kids ensures x.Valid() {
      Relinked(x);
    }
    forall i | 0 <= i < |parent.Kids| ensures parent.Kids[i].Valid() {
      assert parent.Kids[i] in RemoveAt(kids, k);
    }
    Assemble(parent);
  }

  /** No child lies inside another child. */
  twostate lemma OldApart(parent: Item)
    requires old(parent.Owns())
    ensures forall x, y | x in old(parent.Kids) && y in old(parent.Kids) && x != y :: y !in old(x.Repr)
    ensures forall x | x in old(parent.Kids) :: old(x.Repr) <= old(parent.Repr) - {parent}
  {
  }

  // ----- Walking and editing the list -----

  /** The item at position `which`, counted from zero; negative positions mean the first, positions past the end none. */
  method GetArrayItem(parent: Item, which: int) returns (c: Item?, ghost k: nat)
    requires parent.Valid()
    ensures k == if which < 0 then 0 else which
    ensures c == var j := if which < 0 then 0 else which; if j < |parent.Kids| then parent.Kids[j] else null
  {
    c := parent.child;
    var w := which;
    k := 0;
    while c != null && w > 0
      invariant k <= |parent.Kids| && c == if k < |parent.Kids| then parent.Kids[k] else null
      invariant if which < 0 then w == which && k == 0 else w == which - k && w >= 0
      decreases w
    {
      c := c.next;
      w := w - 1;
      k := k + 1;
    }
    k := if which < 0 then 0 else which;
  }

  method GetArraySize(parent: Item) returns (n: nat)
    requires parent.Valid()
    ensures n == |parent.Kids|
  {
    var c := parent.child;
    n := 0;
    while c != null
      invariant n <= |parent.Kids| && c == if n < |parent.Kids| then parent.Kids[n] else null
      decreases |parent.Kids| - n
    {
      c := c.next;
      n := n + 1;
    }
  }

  method AddItemToArray(parent: Item, item: Item)
    requires parent.Valid() && parent.IsContainer() && item.Valid()
    requires parent.Repr !! item.Repr && item.next == null && item.prev == null
    modifies parent, parent.Kids, item
    ensures parent.Valid() && parent.kind == old(parent.kind)
    ensures parent.Kids == old(parent.Kids) + [item] && parent.Repr == old(parent.Repr + item.Repr)
    ensures parent.tree == InsertChild(old(parent.tree), |old(parent.Kids)|, old(item.name), old(item.tree))
    ensures parent.next == old(parent.next) && parent.prev == old(parent.prev)
  {
    hide Item.Valid, Item.Owns, Item.Denotes, Chain, InsertAt;
    Unfold(parent, item);
    InsertAtEnd(parent.Kids, item);
    ghost var n := |parent.Kids|;
    LinkLast(parent, item);
    parent.tree := InsertChild(parent.tree, n, item.name, item.tree);
    parent.Kids := InsertAt(parent.Kids, n, item);
    parent.Repr := parent.Repr + item.Repr;
    Inserted(parent, n, item);
  }

  /** The pointer part of appending: the last child and the new item refer to each other. */
  method LinkLast(parent: Item, item: Item)
    requires parent.Valid() && item !in parent.Kids && item != parent && parent !in parent.Kids
    requires item.next == null && item.prev == null
    modifies parent`child, parent.Kids`next, item`prev
    ensures Chain(old(parent.Kids) + [item], parent.child)
  {
    hide Item.Valid, Item.Owns, Item.Denotes;
    Unfold1(parent);
    if parent.child == null {
      parent.child := item;
    } else {
      var c := LastChild(parent);
      c.next := item;
      item.prev := c;
    }
  }

  method LastChild(parent: Item) returns (c: Item)
    requires parent.Valid() && parent.child != null
    ensures |parent.Kids| > 0 && c == parent.Kids[|parent.Kids| - 1]
  {
    c := parent.child;
    ghost var k := 0;
    while c.next != null
      invariant k < |parent.Kids| && c == parent.Kids[k]
      decreases |parent.Kids| - k
    {
      c := c.next;
      k := k + 1;
    }
  }

  method InsertItemInArray(parent: Item, which: int, newitem: Item)
    requires parent.Valid() && parent.IsContainer() && newitem.Valid()
    requires parent.Repr !! newitem.Repr && newitem.next == null && newitem.prev == null
    modifies parent, parent.Kids, newitem
    ensures parent.Valid() && parent.kind == old(parent.kind) && parent.Repr == old(parent.Repr + newitem.Repr)
    ensures var n := |old(parent.Kids)|; var k := if which < 0 then 0 else if which < n then which else n;
            && parent.Kids == InsertAt(old(parent.Kids), k, newitem)
            && parent.tree == InsertChild(old(parent.tree), k, old(newitem.name), old(newitem.tree))
  {
    hide Item.Valid, Item.Owns, Item.Denotes, Chain, InsertAt;
    Unfold(parent, newitem);
    var c, k := GetArrayItem(parent, which);
    if c == null {
      InsertAtEnd(parent.Kids, newitem);
      AddItemToArray(parent, newitem);
      return;
    }
    InsertAtIn(parent.Kids, k, newitem);
    LinkBefore(parent, c, k, newitem);
    parent.tree := InsertChild(parent.tree, k, newitem.name, newitem.tree);
    parent.Kids := InsertAt(parent.Kids, k, newitem);
    parent.Repr := parent.Repr + newitem.Repr;
    Inserted(parent, k, newitem);
  }

  method LinkBefore(parent: Item, c: Item, ghost k: nat, newitem: Item)
    requires parent.Linked() && newitem !in parent.Kids && newitem != parent && parent !in parent.Kids
    requires forall i, j | 0 <= i < j < |parent.Kids| :: parent.Kids[i] != parent.Kids[j]
    requires k < |parent.Kids| && c == parent.Kids[k]
    modifies parent`child, parent.Kids`next, parent.Kids`prev, newitem`next, newitem`prev
    ensures Chain(InsertAt(old(parent.Kids), k, newitem), parent.child)
  {
    newitem.next := c;
    newitem.prev := c.prev;
    c.prev := newitem;
    if c == parent.child {
      parent.child := newitem;
    } else {
      newitem.prev.next := newitem;
    }
  }

  method DetachItemFromArray(parent: Item, which: int) returns (c: Item?)
    requires parent.Valid() && parent.IsContainer()
    modifies parent, parent.Kids
    ensures parent.Valid() && parent.kind == old(parent.kind)
    ensures var k := if which < 0 then 0 else which; var kids := old(parent.Kids);
      if k >= |kids| then c == null && parent.Kids == kids && parent.tree == old(parent.tree)
      else
        && c == kids[k] && c.Valid() && c.next == null && c.prev == null && c.tree == old(kids[k].tree) && c.name == old(kids[k].name)
        && parent.Kids == RemoveAt(kids, k) && parent.tree == RemoveChild(old(parent.tree), k)
        && parent.Repr !! c.Repr
  {
    hide Item.Valid, Item.Owns, Item.Denotes, Chain, RemoveAt;
    ghost var k;
    c, k := GetArrayItem(parent, which);
    if c == null {
      return null;
    }
    Unfold1(parent);
    ghost var repr := parent.Repr - c.Repr;
    RemoveAtIn(parent.Kids, k);
    Unlink(parent, c, k);
    parent.tree := RemoveChild(parent.tree, k);
    parent.Kids := RemoveAt(parent.Kids, k);
    parent.Repr := repr;
    Removed(parent, k);
  }

  lemma Unfold1(parent: Item)
    requires parent.Valid()
    ensures parent.Owns() && parent.Linked() && parent.Denotes() && parent !in parent.Kids
    ensures forall i, j | 0 <= i < j < |parent.Kids| :: parent.Kids[i] != parent.Kids[j]
    ensures forall x | x in parent.Kids :: x.Valid() && x.Repr < parent.Repr && x in parent.Repr
    ensures parent in parent.Repr
  {
  }

  method Unlink(parent: Item, c: Item, ghost k: nat)
    requires parent.Linked() && parent !in parent.Kids && k < |parent.Kids| && c == parent.Kids[k]
    requires forall i, j | 0 <= i < j < |parent.Kids| :: parent.Kids[i] != parent.Kids[j]
    modifies parent`child, parent.Kids`next, parent.Kids`prev
    ensures Chain(RemoveAt(old(parent.Kids), k), parent.child) && c.next == null && c.prev == null
  {
    if c.prev != null {
      c.prev.next := c.next;
    }
    if c.next != null {
      c.next.prev := c.prev;
    }
    if c == parent.child {
      parent.child := c.next;
    }
    c.prev, c.next := null, null;
  }

  twostate lemma ReplacedOwns(parent: Item, new k: nat, new item: Item)
    requires old(allocated(item)) && old(parent.Owns()) && old(parent.Repr !! item.Repr) && item in item.Repr
    requires k < |old(parent.Kids)| && parent.Kids == old(parent.Kids)[k := item]
    requires parent.Repr == old(parent.Repr) - old(parent.Kids[k].Repr) + item.Repr && item.Repr == old(item.Repr)
    requires forall x | x in old(parent.Kids) :: x.Repr == old(x.Repr)
    ensures parent.Owns()
  {
    var kids: seq<Item> := old(parent.Kids);
    assert forall i | 0 <= i < |kids| :: kids[i] in kids;
    forall i | 0 <= i < |parent.Kids| ensures parent.Kids[i] == if i == k then item else kids[i] {
    }
  }

  function ReplaceChild(t: Json, k: nat, name: string, value: Json): Json
    requires (t.Array? || t.Object?) && k < Size(t)
  {
    match t
    case Array(items) => Array(items[k := value])
    case Object(members) => Object(members[k := Member(name, value)])
  }

  twostate lemma ReplacedDenotes(parent: Item, new k: nat, new item: Item)
    requires old(allocated(item)) && old(parent.Denotes()) && old(parent.IsContainer())
    requires k < |old(parent.Kids)| && parent.Kids == old(parent.Kids)[k := item]
    requires parent.kind == old(parent.kind) && parent.tree == ReplaceChild(old(parent.tree), k, item.name, item.tree)
    requires forall x | x in old(parent.Kids) :: x.tree == old(x.tree) && x.name == old(x.name)
    ensures parent.Denotes()
  {
    var kids: seq<Item> := old(parent.Kids);
    assert forall i | 0 <= i < |kids| :: kids[i] in kids;
    forall i | 0 <= i < |parent.Kids| ensures parent.Kids[i] == if i == k then item else kids[i] {
    }
  }

  twostate lemma Replaced(parent: Item, new k: nat, new item: Item)
    requires old(allocated(item)) && old(parent.Valid()) && old(item.Valid())
    requires old(parent.Repr !! item.Repr) && old(parent.IsContainer())
    requires k < |old(parent.Kids)| && parent.Kids == old(parent.Kids)[k := item]
    requires parent.Repr == old(parent.Repr - parent.Kids[k].Repr + item.Repr) && parent.kind == old(parent.kind)
    requires parent.tree == ReplaceChild(old(parent.tree), k, item.name, old(item.tree))
    requires parent.Linked()
    requires OnlyRelinked(item) && forall x | x in old(parent.Kids) :: OnlyRelinked(x)
    requires forall o | (o in old(parent.Repr) || o in old(item.Repr)) && o != parent && o !in old(parent.Kids) && o != item :: unchanged(o)
    ensures parent.Valid() && old(parent.Kids)[k].Valid()
  {
    hide Item.Valid, Item.Linked, Item.Denotes, Item.Owns;
    UnfoldOld(parent);
    UnfoldOld(item);
    ReplacedOwns(parent, k, item);
    ReplacedDenotes(parent, k, item);
    OldApart(parent);
    var kids: seq<Item> := old(parent.Kids);
    forall x | x in kids ensures x.Valid() {
      Relinked(x);
    }
    Relinked(item);
    Assemble(parent);
  }

  /** The item that is replaced ends up unlinked and intact; the C code then frees it. */
  method ReplaceItemInArray(parent: Item, which: int, newitem: Item) returns (ghost c: Item?)
    requires parent.Valid() && parent.IsContainer() && newitem.Valid()
    requires parent.Repr !! newitem.Repr && newitem.next == null && newitem.prev == null
    modifies parent, parent.Kids, newitem
    ensures parent.Valid() && parent.kind == old(parent.kind)
    ensures var k := if which < 0 then 0 else which; var kids := old(parent.Kids);
      if k >= |kids| then c == null && parent.Kids == kids && parent.tree == old(parent.tree) && newitem.next == null && newitem.prev == null
      else
        && c == kids[k] && c.Valid() && c.next == null && c.prev == null
        && parent.Kids == kids[k := newitem]
        && parent.tree == ReplaceChild(old(parent.tree), k, old(newitem.name), old(newitem.tree))
  {
    hide Item.Valid, Item.Owns, Item.Denotes, Chain;
    Unfold(parent, newitem);
    var d, k := GetArrayItem(parent, which);
    c := d;
    if d == null {
      return;
    }
    Unfold1(parent);
    ghost var repr := parent.Repr - d.Repr + newitem.Repr;
    Exchange(parent, d, k, newitem);
    parent.tree := ReplaceChild(parent.tree, k, newitem.name, newitem.tree);
    parent.Kids := parent.Kids[k := newitem];
    parent.Repr := repr;
    Replaced(parent, k, newitem);
  }

  method Exchange(parent: Item, c: Item, ghost k: nat, newitem: Item)
    requires parent.Linked() && parent !in parent.Kids && k < |parent.Kids| && c == parent.Kids[k]
    requires forall i, j | 0 <= i < j < |parent.Kids| :: parent.Kids[i] != parent.Kids[j]
    requires newitem !in parent.Kids && newitem != parent
    modifies parent`child, parent.Kids`next, parent.Kids`prev, newitem`next, newitem`prev
    ensures Chain(old(parent.Kids)[k := newitem], parent.child) && c.next == null && c.prev == null
  {
    newitem.next := c.next;
    newitem.prev := c.prev;
    if newitem.next != null {
      newitem.next.prev := newitem;
    }
    if c == parent.child {
      parent.child := newitem;
    } else {
      newitem.prev.next := newitem;
    }
    c.next, c.prev := null, null;
  }

  // ----- Duplication -----

  /** The tree with only its first `n` children. */
  function FirstChildren(t: Json, n: nat): Json
    requires n <= Size(t)
  {
    match t
    case Array(items) => Array(items[..n])
    case Object(members) => Object(members[..n])
    case _ => t
  }

  lemma FirstChildrenNext(item: Item, n: nat)
    requires item.Denotes() && n < |item.Kids|
    ensures n < Size(item.tree) && item.IsContainer()
    ensures InsertChild(FirstChildren(item.tree, n), n, item.Kids[n].name, item.Kids[n].tree) == FirstChildren(item.tree, n + 1)
  {
  }

  /** Appends behind a last child that the caller already holds. */
  method AppendAfter(parent: Item, last: Item?, item: Item)
    requires parent.Valid() && parent.IsContainer() && item.Valid()
    requires parent.Repr !! item.Repr && item.next == null && item.prev == null
    requires last == if parent.Kids == [] then null else parent.Kids[|parent.Kids| - 1]
    modifies parent`child, parent`tree, parent`Kids, parent`Repr, parent.Kids`next, item`prev
    ensures parent.Valid()
    ensures parent.Kids == old(parent.Kids) + [item] && parent.Repr == old(parent.Repr + item.Repr)
    ensures parent.tree == InsertChild(old(parent.tree), |old(parent.Kids)|, item.name, old(item.tree))
  {
    hide Item.Valid, Item.Owns, Item.Denotes, Chain, InsertAt;
    Unfold(parent, item);
    InsertAtEnd(parent.Kids, item);
    ghost var n := |parent.Kids|;
    LinkAfter(parent, last, item);
    parent.tree := InsertChild(parent.tree, n, item.name, item.tree);
    parent.Kids := InsertAt(parent.Kids, n, item);
    parent.Repr := parent.Repr + item.Repr;
    Inserted(parent, n, item);
  }

  method LinkAfter(parent: Item, last: Item?, item: Item)
    requires parent.Linked() && item !in parent.Kids && item != parent && parent !in parent.Kids
    requires item.next == null && item.prev == null
    requires last == if parent.Kids == [] then null else parent.Kids[|parent.Kids| - 1]
    requires forall i, j | 0 <= i < j < |parent.Kids| :: parent.Kids[i] != parent.Kids[j]
    modifies parent`child, parent.Kids`next, item`prev
    ensures Chain(old(parent.Kids) + [item], parent.child)
  {
    if last != null {
      last.next, item.prev := item, last;
    } else {
      parent.child := item;
    }
  }

  method CopyNode(item: Item) returns (copy: Item)
    requires item.Valid()
    ensures copy.Valid() && fresh(copy) && copy.Repr == {copy} && copy.Kids == [] && item.Repr !! copy.Repr
    ensures copy.next == null && copy.prev == null && copy.name == item.name && copy.kind == item.kind
    ensures copy.tree == FirstChildren(item.tree, 0)
  {
    copy := new Item();
    copy.kind, copy.mantissa, copy.exponent := item.kind, item.mantissa, item.exponent;
    copy.valuestring, copy.name := item.valuestring, item.name;
    copy.tree := FirstChildren(item.tree, 0);
  }

  /** The loop of cJSON_Duplicate after `n` children: `copy` stands for the tree with only those. */
  ghost predicate Copying(item: Item, copy: Item, cptr: Item?, nptr: Item?, n: nat)
    reads item, item.Repr, copy, copy.Repr
  {
    && item.Valid() && copy.Valid() && copy.kind == item.kind && item.Repr !! copy.Repr
    && n <= |item.Kids| && cptr == (if n < |item.Kids| then item.Kids[n] else null)
    && |copy.Kids| == n && nptr == (if n == 0 then null else copy.Kids[n - 1])
    && n <= Size(item.tree) && copy.tree == FirstChildren(item.tree, n)
  }

  /** cJSON_Duplicate: a copy that stands for the same tree and shares no node with the original. Without `recurse`
      only the node itself is copied. */
  method Duplicate(item: Item, recurse: bool) returns (copy: Item)
    requires item.Valid()
    ensures copy.Valid() && fresh(copy) && fresh(copy.Repr)
    ensures copy.next == null && copy.prev == null && copy.name == item.name
    ensures recurse ==> copy.tree == item.tree
    ensures !recurse ==> copy.Kids == [] && copy.tree == FirstChildren(item.tree, 0)
    decreases item.Repr, 2
  {
    hide Copying, Item.Valid;
    copy := CopyNode(item);
    if !recurse {
      return;
    }
    CopyingStart(item, copy);
    var cptr, nptr: Item? := item.child, null;
    ghost var n := 0;
    while cptr != null
      invariant Copying(item, copy, cptr, nptr, n)
      invariant fresh(copy) && fresh(copy.Repr) && copy.next == null && copy.prev == null && copy.name == item.name
      invariant copy !in copy.Kids && forall i | 0 <= i < |copy.Kids| :: fresh(copy.Kids[i])
      decreases |item.Kids| - n
    {
      cptr, nptr := DuplicateChild(item, copy, cptr, nptr, n);
      n := n + 1;
    }
    CopyingDone(item, copy, nptr, n);
  }

  lemma CopyingStart(item: Item, copy: Item)
    requires item.Valid() && copy.Valid() && copy.kind == item.kind && copy.Kids == [] && item.Repr !! copy.Repr
    requires copy.tree == FirstChildren(item.tree, 0)
    ensures Copying(item, copy, item.child, null, 0)
  {
    Unfold1(item);
  }

  lemma CopyingDone(item: Item, copy: Item, nptr: Item?, n: nat)
    requires Copying(item, copy, null, nptr, n)
    ensures copy.Valid() && copy.tree == item.tree
  {
    Unfold1(item);
  }

  /** One round of the loop: copy a child, link the copy behind the previous one, move on. */
  method DuplicateChild(item: Item, copy: Item, cptr: Item, nptr: Item?, ghost n: nat)
    returns (cptr': Item?, nptr': Item)
    requires Copying(item, copy, cptr, nptr, n)
    modifies copy`child, copy`tree, copy`Kids, copy`Repr, copy.Kids`next
    ensures n < |item.Kids| && Copying(item, copy, cptr', nptr', n + 1)
    ensures copy.Kids == old(copy.Kids) + [nptr'] && fresh(nptr')
    ensures copy.Repr >= old(copy.Repr) && fresh(copy.Repr - old(copy.Repr))
    decreases item.Repr, 1
  {
    hide Item.Valid, Item.Owns, Item.Denotes, InsertAt, FirstChildren, InsertChild;
    Unfold(item, copy);
    Unfold1(item);
    Unfold1(copy);
    FirstChildrenNext(item, n);
    assert item.Kids[n] in item.Kids;
    nptr' := Duplicate(cptr, true);
    AppendAfter(copy, nptr, nptr');
    cptr' := cptr.next;
  }
}
