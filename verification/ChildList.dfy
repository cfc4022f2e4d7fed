/**
 The child list of a cJSON array or object (cJSON.c): doubly linked, with the
 head's prev naming the tail and the tail's next NULL.
 */
module ChildList {

  /** The links of a cJSON item. */
  class Item {
    var next: Item?
    var prev: Item?

    /** cJSON_New_Item. */
    constructor ()
      ensures next == null && prev == null
    {
      next, prev := null, null;
    }
  }

  predicate Distinct(s: seq<Item>) {
    forall i, j :: 0 <= i < j < |s| ==> s[i] != s[j]
  }

  /** The i-th item links its neighbours; the head's prev is the tail. */
  predicate LinksAt(s: seq<Item>, i: nat)
    requires i < |s|
    reads s[i]
  {
    && s[i].next == (if i + 1 < |s| then s[i + 1] else null)
    && s[i].prev == (if i > 0 then s[i - 1] else s[|s| - 1])
  }

  predicate Linked(s: seq<Item>)
    reads s
  {
    forall i :: 0 <= i < |s| ==> LinksAt(s, i)
  }

  function InsertAt<T>(s: seq<T>, k: nat, x: T): seq<T>
    requires k <= |s|
  {
    s[..k] + [x] + s[k..]
  }

  function RemoveAt<T>(s: seq<T>, k: nat): seq<T>
    requires k < |s|
  {
    s[..k] + s[k + 1..]
  }

  /** A size_t cut to a 32-bit int. */
  function ToInt(n: nat): int {
    var low := n % 0x1_0000_0000;
    if low < 0x8000_0000 then low else low - 0x1_0000_0000
  }

  /** An array or object, as far as its children go. */
  class Parent {
    var child: Item?
    /** The children in order. */
    ghost var items: seq<Item>

    constructor ()
      ensures Valid() && items == []
    {
      child, items := null, [];
    }

    ghost predicate Valid()
      reads this, items
    {
      && Distinct(items) && Linked(items)
      && child == (if items == [] then null else items[0])
    }

    /** get_array_item. */
    method GetItem(index: nat) returns (current: Item?)
      requires Valid()
      ensures current == if index < |items| then items[index] else null
    {
      current := child;
      var left := index;
      ghost var at := 0;
      while current != null && left > 0
        invariant 0 <= at <= |items| && at + left == index
        invariant current == if at < |items| then items[at] else null
        decreases left
      {
        assert LinksAt(items, at);
        left := left - 1;
        current := current.next;
        at := at + 1;
      }
    }

    /** cJSON_GetArraySize: the count as an int, which is the count itself as long as
        that has no more than 31 bits. */
    method Size() returns (r: int)
      requires Valid()
      ensures r == ToInt(|items|)
      ensures r == |items| <==> |items| < 0x8000_0000
    {
      var c := child;
      var size := 0;
      while c != null
        invariant 0 <= size <= |items| && c == if size < |items| then items[size] else null
        decreases |items| - size
      {
        assert LinksAt(items, size);
        size := size + 1;
        c := c.next;
      }
      r := ToInt(size);
    }

    /** add_item_to_array: item must not be linked anywhere. */
    method Append(item: Item)
      requires Valid() && item !in items && item.next == null
      modifies this, items, item
      ensures Valid() && items == old(items) + [item]
    {
      ghost var s := items;
      if child == null {
        child := item;
        item.prev := item;
        item.next := null;
      } else {
        assert LinksAt(s, 0) && LinksAt(s, |s| - 1);
        var tail := child.prev;
        if tail != null {
          tail.next := item;
          item.prev := tail;
          child.prev := item;
        }
      }
      items := s + [item];
      forall i | 0 <= i < |items| ensures LinksAt(items, i) {
        if i < |s| { assert old(LinksAt(s, i)); }
      }
    }

    /** cJSON_DetachItemViaPointer.  k says where item is; an unlinked item that is
        not the first child is refused. */
    method Detach(item: Item?, ghost k: nat) returns (detached: Item?)
      requires Valid()
      requires item != null ==> if k < |items| then item == items[k] else item !in items && item.prev == null
      modifies this, items
      ensures Valid()
      ensures if item == null || k >= old(|items|) then detached == null && items == old(items)
              else detached == item && items == RemoveAt(old(items), k) && item.next == null && item.prev == null
    {
      if k < |items| { assert LinksAt(items, k); }
      if item == null || (item != child && item.prev == null) { return null; }
      ghost var s := items;
      assert LinksAt(s, k) && LinksAt(s, 0);
      if k > 0 { assert LinksAt(s, k - 1); }
      if k + 1 < |s| { assert LinksAt(s, k + 1); }
      if item != child { item.prev.next := item.next; }
      if item.next != null { item.next.prev := item.prev; }
      if item == child {
        child := item.next;
      } else if item.next == null {
        child.prev := item.prev;
      }
      item.prev := null;
      item.next := null;
      items := RemoveAt(s, k);
      forall i | 0 <= i < |items| ensures LinksAt(items, i) {
        var j := if i < k then i else i + 1;
        assert items[i] == s[j] && old(LinksAt(s, j));
      }
      return item;
    }

    /** cJSON_DetachItemFromArray. */
    method DetachFromArray(which: int) returns (detached: Item?)
      requires Valid()
      modifies this, items
      ensures Valid()
      ensures if 0 <= which < old(|items|) then detached == old(items)[which] && items == RemoveAt(old(items), which)
              else detached == null && items == old(items)
    {
      if which < 0 { return null; }
      var item := GetItem(which);
      detached := Detach(item, which);
    }

    /** cJSON_InsertItemInArray: behind the end it appends. */
    method Insert(which: int, newitem: Item) returns (ok: bool)
      requires Valid() && newitem !in items && newitem.next == null
      modifies this, items, newitem
      ensures Valid() && ok == (which >= 0)
      ensures items == if which < 0 then old(items)
                       else if which < old(|items|) then InsertAt(old(items), which, newitem)
                       else old(items) + [newitem]
    {
      if which < 0 { return false; }
      var after := GetItem(which);
      if after == null {
        Append(newitem);
        return true;
      }
      ghost var s := items;
      assert LinksAt(s, which) && LinksAt(s, 0) && LinksAt(s, |s| - 1);
      if which > 0 { assert LinksAt(s, which - 1); }
      if after != child && after.prev == null { return false; }
      newitem.next := after;
      newitem.prev := after.prev;
      after.prev := newitem;
      if after == child {
        child := newitem;
      } else {
        newitem.prev.next := newitem;
      }
      items := InsertAt(s, which, newitem);
      forall i | 0 <= i < |items| ensures LinksAt(items, i) {
        if i != which {
          var j := if i < which then i else i - 1;
          assert items[i] == s[j] && old(LinksAt(s, j));
        }
      }
      return true;
    }

    /** cJSON_ReplaceItemViaPointer on the k-th child; the old item ends unlinked. */
    method Replace(item: Item, replacement: Item, ghost k: nat) returns (ok: bool)
      requires Valid() && k < |items| && items[k] == item
      requires replacement == item || replacement !in items
      modifies this, items, replacement
      ensures Valid() && ok && items == old(items)[k := replacement]
      ensures replacement != item ==> item.next == null && item.prev == null
    {
      if child == null { return false; }
      if replacement == item { return true; }
      ghost var s := items;
      assert LinksAt(s, k) && LinksAt(s, 0) && LinksAt(s, |s| - 1);
      if k > 0 { assert LinksAt(s, k - 1); }
      if k + 1 < |s| { assert LinksAt(s, k + 1); }
      replacement.next := item.next;
      replacement.prev := item.prev;
      if replacement.next != null { replacement.next.prev := replacement; }
      if child == item {
        if child.prev == child { replacement.prev := replacement; }
        child := replacement;
      } else {
        if replacement.prev != null { replacement.prev.next := replacement; }
        if replacement.next == null { child.prev := replacement; }
      }
      item.next := null;
      item.prev := null;
      items := s[k := replacement];
      forall i | 0 <= i < |items| ensures LinksAt(items, i) { assert old(LinksAt(s, i)); }
      return true;
    }
  }

  /** Detaching what was inserted, and inserting what was detached, change nothing. */
  lemma {:induction false} InsertRemove<T>(s: seq<T>, k: nat, x: T)
    ensures k <= |s| ==> RemoveAt(InsertAt(s, k, x), k) == s
    ensures k < |s| ==> InsertAt(RemoveAt(s, k), k, s[k]) == s
  {
    if k <= |s| {
      var t := InsertAt(s, k, x);
      assert t[..k] == s[..k] && t[k + 1..] == s[k..];
    }
    if k < |s| {
      var t := RemoveAt(s, k);
      assert t[..k] == s[..k] && t[k..] == s[k + 1..];
    }
  }
}
