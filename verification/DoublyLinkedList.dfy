/** The intrusive doubly linked list (lib/datastruct/doubly_linked_list.c). */
module DoublyLinkedLists {
  import opened Sequences

  // The owner's fields sit in `data`, which no list operation touches.
  class Node<D> {
    var prev: Node?<D>
    var next: Node?<D>
    var data: D

    constructor (d: D)
      ensures data == d && prev == null && next == null
    {
      data := d;
      prev, next := null, null;
    }
  }

  class List<D> {
    var size: nat
    var head: Node?<D>
    var tail: Node?<D>
    ghost var nodes: seq<Node<D>>  // the members, head first

    ghost predicate Valid()
      reads this, nodes`prev, nodes`next
    {
      && size == |nodes|
      && (nodes == [] ==> head == null && tail == null)
      && (nodes != [] ==> head == nodes[0] && tail == nodes[|nodes| - 1])
      && Linked(nodes)
      && Distinct(nodes)
    }

    // `prev` and `next` are inverse to each other along the sequence, and null at its ends.
    static ghost predicate Linked(s: seq<Node<D>>)
      reads s`prev, s`next
    {
      && (forall i {:trigger s[i].prev} :: 0 <= i < |s| ==> s[i].prev == if i == 0 then null else s[i - 1])
      && (forall i {:trigger s[i].next} :: 0 <= i < |s| ==> s[i].next == if i == |s| - 1 then null else s[i + 1])
    }

    constructor ()
      ensures Valid() && nodes == []
    {
      size, head, tail, nodes := 0, null, null, [];
    }

    method Push(node: Node<D>)
      requires Valid() && node !in nodes
      modifies this, nodes`prev, nodes`next, node`prev, node`next
      ensures Valid() && nodes == old(nodes) + [node]
    {
      node.prev := tail;
      node.next := null;
      if tail != null {
        tail.next := node;
      } else {
        head := node;
      }
      tail := node;
      size := size + 1;
      nodes := nodes + [node];
    }

    method PushFront(node: Node<D>)
      requires Valid() && node !in nodes
      modifies this, nodes`prev, nodes`next, node`prev, node`next
      ensures Valid() && nodes == [node] + old(nodes)
    {
      node.prev := null;
      node.next := head;
      if head != null {
        head.prev := node;
      } else {
        tail := node;
      }
      head := node;
      size := size + 1;
      nodes := [node] + nodes;
    }

    /** Inserts `node` behind the member `after`, or at the front when `after` is null. */
    method InsertAfter(after: Node?<D>, node: Node<D>, ghost i: int)
      requires Valid() && node !in nodes
      requires if after == null then i == -1 else 0 <= i < |nodes| && nodes[i] == after
      modifies this, nodes`prev, nodes`next, node`prev, node`next
      ensures Valid() && nodes == old(nodes)[..i + 1] + [node] + old(nodes)[i + 1..]
    {
      if after == null {
        PushFront(node);
        return;
      }
      ghost var was := nodes;
      node.prev := after;
      node.next := after.next;
      if after.next != null {
        after.next.prev := node;
      } else {
        tail := node;
      }
      after.next := node;
      size := size + 1;
      nodes := was[..i + 1] + [node] + was[i + 1..];
      InsertedLinks(was, i + 1, node, nodes);
    }

    // What the `prev` and `next` fields of member `k` say in the order `s`.
    static ghost function Before(s: seq<Node<D>>, k: nat): Node?<D>
      requires k <= |s|
    {
      if k == 0 then null else s[k - 1]
    }

    static ghost function Behind(s: seq<Node<D>>, k: nat): Node?<D>
      requires k < |s|
    {
      if k == |s| - 1 then null else s[k + 1]
    }

    // Every field is as the order says, but for `next` of member `n` and `prev` of member `p`.
    static ghost predicate LinkedBut(s: seq<Node<D>>, n: int, p: int)
      reads s`prev, s`next
    {
      && (forall k {:trigger s[k].next} :: 0 <= k < |s| && k != n ==> s[k].next == Behind(s, k))
      && (forall k {:trigger s[k].prev} :: 0 <= k < |s| && k != p ==> s[k].prev == Before(s, k))
    }

    /** Pointing the neighbours at a new node, and it at them, gives the linked longer order. */
    static lemma InsertedLinks(s: seq<Node<D>>, i: nat, x: Node<D>, t: seq<Node<D>>)
      requires 0 < i <= |s| && t == s[..i] + [x] + s[i..] && Distinct(s) && x !in s
      requires LinkedBut(s, i - 1, i)
      requires s[i - 1].next == x && x.prev == s[i - 1]
      requires if i < |s| then s[i].prev == x && x.next == s[i] else x.next == null
      ensures Linked(t) && Distinct(t) && t[0] == s[0] && t[|t| - 1] == if i < |s| then s[|s| - 1] else x
    {
      forall k | 0 <= k < |t|
        ensures t[k].prev == (if k == 0 then null else t[k - 1])
        ensures t[k].next == (if k == |t| - 1 then null else t[k + 1])
      {
        if k < i {
          assert t[k] == s[k];
        } else if k > i {
          assert t[k] == s[k - 1];
        }
      }
    }

    /** Pointing the neighbours of member `i` at each other links the order without it. */
    static lemma RemovedLinks(s: seq<Node<D>>, i: nat, t: seq<Node<D>>)
      requires i < |s| && t == s[..i] + s[i + 1..] && Distinct(s)
      requires forall k {:trigger s[k].next} :: 0 <= k < |s| && k != i && k != i - 1 ==> s[k].next == Behind(s, k)
      requires forall k {:trigger s[k].prev} :: 0 <= k < |s| && k != i && k != i + 1 ==> s[k].prev == Before(s, k)
      requires i > 0 ==> s[i - 1].next == Behind(s, i)
      requires i + 1 < |s| ==> s[i + 1].prev == Before(s, i)
      ensures Linked(t) && Distinct(t) && s[i] !in t
    {
      forall k | 0 <= k < |t|
        ensures t[k].prev == (if k == 0 then null else t[k - 1])
        ensures t[k].next == (if k == |t| - 1 then null else t[k + 1])
      {
        if k < i {
          assert t[k] == s[k];
        } else {
          assert t[k] == s[k + 1];
        }
      }
    }

    method PopLeft() returns (node: Node?<D>)
      requires Valid()
      modifies this, nodes`prev, nodes`next
      ensures Valid()
      ensures old(nodes) == [] ==> node == null && nodes == []
      ensures old(nodes) != [] ==> node == old(nodes[0]) && nodes == old(nodes)[1..]
      ensures node != null ==> node.prev == null && node.next == null
    {
      if head == null {
        return null;
      }
      node := head;
      head := node.next;
      if head != null {
        head.prev := null;
      } else {
        tail := null;
      }
      node.prev := null;
      node.next := null;
      size := size - 1;
      nodes := nodes[1..];
    }

    method PopBack() returns (node: Node?<D>)
      requires Valid()
      modifies this, nodes`prev, nodes`next
      ensures Valid()
      ensures old(nodes) == [] ==> node == null && nodes == []
      ensures old(nodes) != [] ==> node == old(nodes[|nodes| - 1]) && nodes == old(nodes)[..old(|nodes|) - 1]
      ensures node != null ==> node.prev == null && node.next == null
    {
      if tail == null {
        return null;
      }
      node := tail;
      tail := node.prev;
      if tail != null {
        tail.next := null;
      } else {
        head := null;
      }
      node.prev := null;
      node.next := null;
      size := size - 1;
      nodes := nodes[..|nodes| - 1];
    }

    /** Unlinks the member `node`; its position `i` is needed by the proof only. */
    method Remove(node: Node<D>, ghost i: nat)
      requires Valid() && i < |nodes| && nodes[i] == node
      modifies this, nodes`prev, nodes`next
      ensures Valid() && nodes == old(nodes)[..i] + old(nodes)[i + 1..]
      ensures node !in nodes && node.prev == null && node.next == null
    {
      ghost var was := nodes;
      if node.prev != null {
        node.prev.next := node.next;
      } else {
        head := node.next;
      }
      if node.next != null {
        node.next.prev := node.prev;
      } else {
        tail := node.prev;
      }
      node.prev := null;
      node.next := null;
      size := size - 1;
      nodes := was[..i] + was[i + 1..];
      RemovedLinks(was, i, nodes);
    }
  }
}
