// The intrusive circular doubly linked list (amdgpu/util_double_list.h): a ring of links,
// each embedded in the entry it chains; one of them is the list head, whose entry is
// never read.
module IntrusiveLists {

  class Node<T> {
    var prev: Node<T>
    var next: Node<T>
    var entry: T

    // list_inithead
    constructor (entry: T)
      ensures prev == this && next == this && this.entry == entry
    {
      prev, next := this, this;
      this.entry := entry;
    }
  }

  ghost predicate Distinct<T>(r: seq<Node<T>>) {
    forall i, j :: 0 <= i < j < |r| ==> r[i] != r[j]
  }

  lemma DistinctInsert<T>(r: seq<Node<T>>, i: nat, item: Node<T>)
    requires Distinct(r) && i <= |r| && item !in r
    ensures Distinct(r[..i] + [item] + r[i..])
  {
  }

  // r lists the nodes of one ring in next-order, the head first: next and prev are
  // inverse to each other all the way around.
  ghost predicate Ring<T>(r: seq<Node<T>>)
    reads r
  {
    && |r| > 0
    && Distinct(r)
    && (forall i :: 0 <= i < |r| - 1 ==> r[i].next == r[i + 1])
    && (forall i :: 1 <= i < |r| ==> r[i].prev == r[i - 1])
    && r[|r| - 1].next == r[0]
    && r[0].prev == r[|r| - 1]
  }

  lemma Links<T>(r: seq<Node<T>>, i: int)
    requires Ring(r) && 0 <= i < |r|
    ensures r[i].next == (if i + 1 < |r| then r[i + 1] else r[0]) && r[i].next in r
    ensures r[i].prev == (if i > 0 then r[i - 1] else r[|r| - 1]) && r[i].prev in r
  {
  }

  // Insert item behind the element at position i.
  method ListAdd<T>(item: Node<T>, list: Node<T>, ghost r: seq<Node<T>>, ghost i: nat)
    requires Ring(r) && i < |r| && r[i] == list && item !in r
    modifies item`prev, item`next, list`next, list.next`prev
    ensures Ring(r[..i + 1] + [item] + r[i + 1..])
  {
    ghost var s := r[..i + 1] + [item] + r[i + 1..];
    assert forall k :: 0 <= k < |s| ==> s[k] == if k <= i then r[k] else if k == i + 1 then item else r[k - 1];
    Links(r, i);
    DistinctInsert(r, i + 1, item);
    item.prev := list;
    item.next := list.next;
    list.next.prev := item;
    list.next := item;
    forall k | 0 <= k < |s| - 1 ensures s[k].next == s[k + 1] && s[k + 1].prev == s[k] {
      if k > i + 1 {
        assert s[k] == r[k - 1] && s[k + 1] == r[k] && r[k - 1] != r[i] && r[k] != r[i + 1];
        assert old(r[k - 1].next) == r[k] && old(r[k].prev) == r[k - 1];
      } else if k < i {
        assert s[k] == r[k] && s[k + 1] == r[k + 1] && r[k] != r[i];
        assert old(r[k].next) == r[k + 1] && old(r[k + 1].prev) == r[k];
      } else if k == i {
        assert s[k] == list && s[k + 1] == item;
      } else {
        assert s[k] == item && s[k + 1] == r[i + 1];
      }
    }
    assert s[|s| - 1].next == s[0] && s[0].prev == s[|s| - 1] by {
      assert i + 1 < |r| ==> r[|r| - 1] != r[i] && r[0] != r[i + 1];
    }
  }

  // Unlink the element at position i; its own links are left as they were.
  method ListDel<T>(item: Node<T>, ghost r: seq<Node<T>>, ghost i: nat)
    requires Ring(r) && 0 < i < |r| && r[i] == item
    modifies item.prev`next, item.next`prev
    ensures Ring(r[..i] + r[i + 1..])
    ensures item.prev == r[i - 1] && item.next == if i + 1 < |r| then r[i + 1] else r[0]
  {
    item.prev.next := item.next;
    item.next.prev := item.prev;
    ghost var s := r[..i] + r[i + 1..];
    assert forall k :: 0 <= k < |s| ==> s[k] == if k < i then r[k] else r[k + 1];
    forall k | 0 <= k < |s| - 1 ensures s[k].next == s[k + 1] && s[k + 1].prev == s[k] {
      if k >= i {
        assert old(r[k + 1].next) == r[k + 2] && old(r[k + 2].prev) == r[k + 1];
        assert r[k + 1] != r[i - 1] && r[k + 2] != r[i + 1];
      } else if k < i - 1 {
        assert r[k] != r[i - 1];
        assert i + 1 < |r| ==> r[k + 1] != r[i + 1];
      }
    }
    assert s[|s| - 1].next == s[0] && s[0].prev == s[|s| - 1] by {
      assert i + 1 < |r| ==> r[|r| - 1] != r[i - 1] && r[0] != r[i + 1];
      assert i > 1 ==> r[0] != r[i - 1];
    }
  }

  // LIST_FOR_EACH_ENTRY_SAFE with a body that deletes: the walk keeps the successor
  // before each deletion, meets every element once in order, and leaves an empty ring.
  method DrainForward<T>(head: Node<T>, ghost r: seq<Node<T>>) returns (visited: seq<Node<T>>)
    requires Ring(r) && r[0] == head
    modifies r
    ensures visited == r[1..]
    ensures Ring([head]) && head.next == head && head.prev == head
  {
    visited := [];
    var pos := head.next;
    var storage := pos.next;
    ghost var rest := r;
    while pos != head
      invariant Ring(rest) && rest[0] == head && |visited| <= |r| - 1
      invariant visited == r[1..1 + |visited|] && rest[1..] == r[1 + |visited|..]
      invariant pos == if |rest| > 1 then rest[1] else head
      invariant pos != head ==> storage == pos.next
      decreases |rest|
    {
      assert rest[1] == rest[1..][0] && (|rest| > 2 ==> rest[2] == rest[1..][1]);
      ListDel(pos, rest, 1);
      visited := visited + [pos];
      rest := rest[..1] + rest[2..];
      pos := storage;
      storage := storage.next;
    }
    assert rest == [head];
  }

  // LIST_FOR_EACH_ENTRY_SAFE_REV: the same elements, last one first.
  method WalkBackward<T>(head: Node<T>, ghost r: seq<Node<T>>) returns (visited: seq<Node<T>>)
    requires Ring(r) && r[0] == head
    ensures |visited| == |r| - 1
    ensures forall k :: 0 <= k < |visited| ==> visited[k] == r[|r| - 1 - k]
  {
    visited := [];
    var pos := head.prev;
    var storage := pos.prev;
    ghost var i := |r| - 1;
    while pos != head
      invariant 0 <= i < |r| && pos == r[i] && storage == pos.prev
      invariant |visited| == |r| - 1 - i
      invariant forall k :: 0 <= k < |visited| ==> visited[k] == r[|r| - 1 - k]
      decreases i
    {
      visited := visited + [pos];
      pos := storage;
      storage := storage.prev;
      i := i - 1;
    }
  }

  // LIST_FOR_EACH_ENTRY with a body that deletes: the walk goes on from the link of the entry
  // it has just unlinked. Since list_del leaves that link as it was, the walk meets the same
  // elements as the SAFE one, as long as the entry may still be read.
  method DrainUnsafe<T>(head: Node<T>, ghost r: seq<Node<T>>) returns (visited: seq<Node<T>>)
    requires Ring(r) && r[0] == head
    modifies r
    ensures visited == r[1..]
    ensures Ring([head]) && head.next == head && head.prev == head
  {
    visited := [];
    var pos := head.next;
    ghost var rest := r;
    while pos != head
      invariant Ring(rest) && rest[0] == head && |visited| <= |r| - 1
      invariant visited == r[1..1 + |visited|] && rest[1..] == r[1 + |visited|..]
      invariant pos == if |rest| > 1 then rest[1] else head
      decreases |rest|
    {
      assert rest[1] == rest[1..][0] && (|rest| > 2 ==> rest[2] == rest[1..][1]);
      ListDel(pos, rest, 1);
      visited := visited + [pos];
      rest := rest[..1] + rest[2..];
      pos := pos.next;
    }
    assert rest == [head];
  }

  // LIST_FOR_EACH_ENTRY with a body that only counts.
  method Count<T>(head: Node<T>, ghost r: seq<Node<T>>) returns (n: nat)
    requires Ring(r) && r[0] == head
    ensures n == |r| - 1
  {
    n := 0;
    var pos := head.next;
    while pos != head
      invariant n <= |r| - 1 && pos == if n + 1 < |r| then r[n + 1] else head
      decreases |r| - n
    {
      pos := pos.next;
      n := n + 1;
    }
  }
}
