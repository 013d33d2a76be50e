// The children of a cJSON array or object: a doubly linked list whose head's `prev` is the tail.
module CjsonList {

  import opened CjsonText

  /** An item in memory: its links, and its name and value. */
  class Node {
    var next: Node?
    var prev: Node?
    var child: Node?
    var name: seq<byte>
    var value: Item

    constructor ()
      ensures next == null && prev == null && child == null && name == [] && value == Null
    {
      next, prev, child, name, value := null, null, null, [], Null;
    }
  }

  /** The values of some nodes, in order. */
  ghost function Values(s: seq<Node>): (r: seq<Item>)
    reads s
    ensures |r| == |s| && forall i :: 0 <= i < |s| ==> r[i] == s[i].value
  {
    seq(|s|, i requires 0 <= i < |s| reads s => s[i].value)
  }

  /** The named values of some nodes, in order. */
  ghost function Named(s: seq<Node>): (r: seq<Member>)
    reads s
    ensures |r| == |s| && forall i :: 0 <= i < |s| ==> r[i] == Member(s[i].name, s[i].value)
  {
    seq(|s|, i requires 0 <= i < |s| reads s => Member(s[i].name, s[i].value))
  }

  /** The children of `parent` are exactly the nodes of `s`, in that order. */
  ghost predicate Children(parent: Node, s: seq<Node>)
    reads parent, s
  {
    && parent !in s
    && (forall i, j :: 0 <= i < j < |s| ==> s[i] != s[j])
    && parent.child == (if s == [] then null else s[0])
    && Linked(s)
  }

  ghost predicate Linked(s: seq<Node>)
    reads s
  {
    && (forall i {:trigger s[i].next} :: 0 <= i < |s| ==> s[i].next == After(s, i))
    && (forall i {:trigger s[i].prev} :: 0 <= i < |s| ==> s[i].prev == Before(s, i))
  }

  ghost function After(s: seq<Node>, i: int): Node?
    requires 0 <= i < |s|
  {
    if i + 1 < |s| then s[i + 1] else null
  }

  ghost function Before(s: seq<Node>, i: int): Node?
    requires 0 <= i < |s|
  {
    if i > 0 then s[i - 1] else s[|s| - 1]
  }

  /** A node that is in no list, as it is after creation or detachment. */
  ghost predicate Detached(x: Node)
    reads x
  {
    x.next == null && x.prev == null
  }

  /** The pointers determine the children. */
  lemma ChildrenAreUnique(parent: Node, s: seq<Node>, t: seq<Node>)
    requires Children(parent, s) && Children(parent, t)
    ensures s == t
  {
    var n := if |s| < |t| then |s| else |t|;
    CommonStart(parent, s, t, n);
    if n > 0 {
      assert s[n - 1] == s[..n][n - 1] == t[..n][n - 1] == t[n - 1];
      assert s[n - 1].next == After(s, n - 1) && t[n - 1].next == After(t, n - 1);
    }
  }

  lemma {:induction false} CommonStart(parent: Node, s: seq<Node>, t: seq<Node>, n: nat)
    requires Children(parent, s) && Children(parent, t) && n <= |s| && n <= |t|
    ensures s[..n] == t[..n]
  {
    if n == 1 {
      assert s[0] == parent.child == t[0];
    } else if n > 1 {
      CommonStart(parent, s, t, n - 1);
      assert s[n - 2] == s[..n - 1][n - 2] == t[..n - 1][n - 2] == t[n - 2];
      assert s[n - 1] == s[n - 2].next == t[n - 1];
    }
  }

  /** The node, if there is one. */
  function Only(x: Node?): set<Node> {
    if x == null then {} else {x}
  }

  method SuffixObject(prev: Node, item: Node)
    modifies prev`next, item`prev
    ensures prev.next == item && item.prev == prev
  {
    prev.next := item;
    item.prev := prev;
  }

  /** Appends; behind other children an item that still has a successor does not end the list. */
  method AddItemToArray(parent: Node?, item: Node?, ghost s: seq<Node>) returns (ok: bool)
    requires parent != null ==> Children(parent, s)
    requires item != null ==> item !in s
    modifies Only(parent)`child, Only(item)`next, Only(item)`prev, s`next, s`prev
    ensures ok <==> parent != null && item != null && parent != item
    ensures ok ==> (Children(parent, s + [item]) <==> s == [] || old(item.next) == null)
    ensures !ok && parent != null ==> Children(parent, s)
  {
    if item == null || parent == null || parent == item {
      return false;
    }
    var child := parent.child;
    if child == null {
      parent.child := item;
      item.prev := item;
      item.next := null;
    } else {
      if child.prev != null {
        assert child.prev == s[|s| - 1];
        SuffixObject(child.prev, item);
        parent.child.prev := item;
      }
    }
    assert (s + [item])[|s|].next == item.next && After(s + [item], |s|) == null;
    ok := true;
  }

  /** The child at `index`, or null beyond the end. */
  method GetArrayItem(parent: Node?, index: int, ghost s: seq<Node>) returns (r: Node?)
    requires parent != null ==> Children(parent, s)
    ensures r == if parent != null && 0 <= index < |s| then s[index] else null
  {
    if index < 0 || parent == null {
      return null;
    }
    var left := index;
    r := parent.child;
    while r != null && left > 0
      invariant 0 <= left <= index
      invariant r == if index - left < |s| then s[index - left] else null
    {
      left := left - 1;
      r := r.next;
    }
  }

  method GetArraySize(parent: Node?, ghost s: seq<Node>) returns (size: nat)
    requires parent != null ==> Children(parent, s)
    ensures size == if parent == null then 0 else |s|
  {
    size := 0;
    if parent == null {
      return;
    }
    var child := parent.child;
    while child != null
      invariant size <= |s| && child == if size < |s| then s[size] else null
      decreases |s| - size
    {
      size := size + 1;
      child := child.next;
    }
  }

  lemma LinksAfterRemoval(s: seq<Node>, k: nat, i: nat)
    requires k < |s| && i < |s| - 1
    ensures var t := s[..k] + s[k + 1..]; var j := if i < k then i else i + 1;
            t[i] == s[j] && After(t, i) == (if j + 1 == k then After(s, k) else After(s, j))
            && Before(t, i) == if j == k + 1 || (j == 0 && k == |s| - 1) then Before(s, k) else Before(s, j)
  {
  }

  /** Takes the child at position `k` out; what is left keeps its order. */
  method DetachItemViaPointer(parent: Node?, item: Node?, ghost s: seq<Node>, ghost k: nat) returns (r: Node?)
    requires parent != null ==> Children(parent, s)
    requires parent != null && item != null ==> k < |s| && s[k] == item
    modifies Only(parent)`child, s`next, s`prev
    ensures r == if parent == null then null else item
    ensures r != null ==> Detached(r) && Children(parent, s[..k] + s[k + 1..])
    ensures r == null && parent != null ==> Children(parent, s)
  {
    if parent == null || item == null {
      return null;
    }
    assert item.next == After(s, k) && item.prev == Before(s, k);
    assert parent.child == item <==> k == 0;
    if item != parent.child {
      item.prev.next := item.next;
    }
    if item.next != null {
      item.next.prev := item.prev;
    }
    if item == parent.child {
      parent.child := item.next;
    } else if item.next == null {
      parent.child.prev := item.prev;
    }
    item.prev := null;
    item.next := null;
    r := item;
    ghost var t := s[..k] + s[k + 1..];
    assert forall i :: 0 <= i < |t| ==> t[i] == s[if i < k then i else i + 1] && t[i] != item;
    forall i {:trigger t[i].next} | 0 <= i < |t| ensures t[i].next == After(t, i) {
      LinksAfterRemoval(s, k, i);
    }
    forall i {:trigger t[i].prev} | 0 <= i < |t| ensures t[i].prev == Before(t, i) {
      LinksAfterRemoval(s, k, i);
    }
  }

  method DetachItemFromArray(parent: Node?, which: int, ghost s: seq<Node>) returns (r: Node?)
    requires parent != null ==> Children(parent, s)
    modifies Only(parent)`child, s`next, s`prev
    ensures r == if parent != null && 0 <= which < |s| then s[which] else null
    ensures r != null ==> Detached(r) && Children(parent, s[..which] + s[which + 1..])
    ensures r == null && parent != null ==> Children(parent, s)
  {
    if which < 0 {
      return null;
    }
    var item := GetArrayItem(parent, which, s);
    r := DetachItemViaPointer(parent, item, s, which);
  }

  lemma LinksAfterInsertion(s: seq<Node>, k: nat, x: Node, i: nat)
    requires k < |s| && i <= |s|
    ensures var t := s[..k] + [x] + s[k..];
            t[i] == (if i < k then s[i] else if i == k then x else s[i - 1])
            && After(t, i) == (if i == k then s[k] else if i + 1 == k then x else After(s, if i < k then i else i - 1))
            && Before(t, i) == if i == k then Before(s, k) else if i == k + 1 then x
                               else Before(s, if i < k then i else i - 1)
  {
  }

  /** Puts a new item in front of the child at `which`, or at the end when there is none. */
  method InsertItemInArray(parent: Node?, which: int, newItem: Node?, ghost s: seq<Node>) returns (ok: bool)
    requires parent != null ==> Children(parent, s)
    requires newItem != null ==> newItem !in s && newItem != parent && Detached(newItem)
    requires newItem == null ==> parent == null || which < 0 || which >= |s|
    modifies Only(parent)`child, Only(newItem)`next, Only(newItem)`prev, s`next, s`prev
    ensures ok <==> which >= 0 && parent != null && newItem != null
    ensures ok ==>
              var k := if which < |s| then which else |s|;
              Children(parent, s[..k] + [newItem] + s[k..])
    ensures !ok && parent != null ==> Children(parent, s)
  {
    if which < 0 {
      return false;
    }
    var afterInserted := GetArrayItem(parent, which, s);
    if afterInserted == null {
      ok := AddItemToArray(parent, newItem, s);
      assert ok ==> s[..|s|] + [newItem] + s[|s|..] == s + [newItem];
      return;
    }
    assert afterInserted.prev == Before(s, which);
    assert afterInserted == parent.child <==> which == 0;
    newItem.next := afterInserted;
    newItem.prev := afterInserted.prev;
    afterInserted.prev := newItem;
    if afterInserted == parent.child {
      parent.child := newItem;
    } else {
      newItem.prev.next := newItem;
    }
    ok := true;
    ghost var t := s[..which] + [newItem] + s[which..];
    assert forall i :: 0 <= i < |t| && i != which ==> t[i] == s[if i < which then i else i - 1] && t[i] != newItem;
    forall i {:trigger t[i].next} | 0 <= i < |t| ensures t[i].next == After(t, i) {
      LinksAfterInsertion(s, which, newItem, i);
    }
    forall i {:trigger t[i].prev} | 0 <= i < |t| ensures t[i].prev == Before(t, i) {
      LinksAfterInsertion(s, which, newItem, i);
    }
  }

  lemma LinksAfterUpdate(s: seq<Node>, k: nat, x: Node, i: nat)
    requires k < |s| && i < |s|
    ensures After(s[k := x], i) == if i + 1 == k then x else After(s, i)
    ensures Before(s[k := x], i) == if i == k + 1 || (i == 0 && k == |s| - 1) then x else Before(s, i)
  {
  }

  /** Puts `replacement` in the place of the child at position `k`. */
  method ReplaceItemViaPointer(parent: Node?, item: Node?, replacement: Node?, ghost s: seq<Node>, ghost k: nat)
    returns (ok: bool)
    requires parent != null ==> Children(parent, s)
    requires parent != null && item != null ==> k < |s| && s[k] == item
    requires parent != null && replacement != null && replacement != item ==> replacement !in s && replacement != parent
    modifies Only(parent)`child, Only(replacement)`next, Only(replacement)`prev, s`next, s`prev
    ensures ok <==> parent != null && replacement != null && item != null
    ensures ok ==> Children(parent, s[k := replacement]) && (replacement != item ==> Detached(item))
    ensures !ok && parent != null ==> Children(parent, s)
  {
    if parent == null || replacement == null || item == null {
      return false;
    }
    if replacement == item {
      assert s[k := replacement] == s;
      return true;
    }
    assert item.next == After(s, k) && item.prev == Before(s, k);
    assert parent.child == item <==> k == 0;
    replacement.next := item.next;
    replacement.prev := item.prev;
    if replacement.next != null {
      replacement.next.prev := replacement;
    }
    if parent.child == item {
      if parent.child.prev == parent.child {
        replacement.prev := replacement;
      }
      parent.child := replacement;
    } else {
      if replacement.prev != null {
        replacement.prev.next := replacement;
      }
      if replacement.next == null {
        parent.child.prev := replacement;
      }
    }
    item.next := null;
    item.prev := null;
    ok := true;
    ghost var t := s[k := replacement];
    assert forall i :: 0 <= i < |s| && i != k ==> t[i] == s[i] && s[i] != item && s[i] != replacement;
    forall i {:trigger t[i].next} | 0 <= i < |s| ensures t[i].next == After(t, i) {
      LinksAfterUpdate(s, k, replacement, i);
    }
    forall i {:trigger t[i].prev} | 0 <= i < |s| ensures t[i].prev == Before(t, i) {
      LinksAfterUpdate(s, k, replacement, i);
    }
  }

  method ReplaceItemInArray(parent: Node?, which: int, newItem: Node?, ghost s: seq<Node>) returns (ok: bool)
    requires parent != null ==> Children(parent, s)
    requires parent != null && newItem != null ==>
               newItem != parent && (newItem !in s || (0 <= which < |s| && s[which] == newItem))
    modifies Only(parent)`child, Only(newItem)`next, Only(newItem)`prev, s`next, s`prev
    ensures ok <==> parent != null && newItem != null && 0 <= which < |s|
    ensures ok ==> Children(parent, s[which := newItem])
    ensures !ok && parent != null ==> Children(parent, s)
  {
    if which < 0 {
      return false;
    }
    var item := GetArrayItem(parent, which, s);
    ok := ReplaceItemViaPointer(parent, item, newItem, s, which);
  }

  /** The list of `item` holds the elements or members of its value, in order. */
  ghost predicate Holds(item: Node, children: seq<Node>)
    reads item, children
  {
    match item.value
    case Array(items) => Children(item, children) && Values(children) == items
    case Object(members) => Children(item, children) && Named(children) == members
    case _ => true
  }

  /** The list that the parser links as items come: forward and back, and the head to the tail only at the end. */
  class Chain {
    var head: Node?
    var current: Node?
    ghost var nodes: seq<Node>

    constructor ()
      ensures Valid() && nodes == []
    {
      head, current, nodes := null, null, [];
    }

    ghost predicate Valid()
      reads this, nodes
    {
      && (forall i, j :: 0 <= i < j < |nodes| ==> nodes[i] != nodes[j])
      && head == (if nodes == [] then null else nodes[0])
      && current == (if nodes == [] then null else nodes[|nodes| - 1])
      && (forall i {:trigger nodes[i].next} :: 0 <= i < |nodes| ==> nodes[i].next == After(nodes, i))
      && (forall i {:trigger nodes[i].prev} :: 0 < i < |nodes| ==> nodes[i].prev == Before(nodes, i))
    }

    /** A new item at the end. */
    method Add()
      requires Valid()
      modifies this, nodes`next, nodes`prev
      ensures Valid() && nodes == old(nodes) + [current]
      ensures current != null && fresh(current)
      ensures forall x :: x in old(nodes) ==> x.name == old(x.name) && x.value == old(x.value)
    {
      var newItem := new Node();
      if head == null {
        head, current := newItem, newItem;
      } else {
        assert nodes[|nodes| - 1] in nodes;
        current.next := newItem;
        newItem.prev := current;
        current := newItem;
      }
      nodes := nodes + [newItem];
    }

    /** The items become the children of `parent`, and `value` its value. */
    method Close(parent: Node, value: Item)
      requires Valid() && parent !in nodes
      requires value == Array(Values(nodes)) || value == Object(Named(nodes))
      modifies parent`child, parent`value, nodes`next, nodes`prev
      ensures Children(parent, nodes) && Holds(parent, nodes) && parent.value == value
    {
      if head != null {
        assert nodes[0] in nodes;
        head.prev := current;
      }
      parent.value, parent.child := value, head;
    }
  }
}
