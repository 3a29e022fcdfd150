/** The kernel's circular doubly-linked list, as src/jraid5.c uses it for inactive_list and
    handle_list: one node is embedded in each stripe, and deleting it does not name its list. */
module LruList {
  import opened Lists

  /** entry is what list_entry computes: the structure around the node, or a null for a list head. */
  class ListNode<T> {
    var next: ListNode<T>
    var prev: ListNode<T>
    var entry: T

    /** INIT_LIST_HEAD. */
    constructor (entry: T)
      ensures Alone() && this.entry == entry
    {
      this.entry := entry;
      next, prev := this, this;
    }

    predicate Alone()
      reads `next, `prev
    {
      next == this && prev == this
    }
  }

  /** Position i of the ring; the head closes it at both ends. */
  ghost function Nth<T>(head: ListNode<T>, nodes: seq<ListNode<T>>, i: int): ListNode<T> {
    if 0 <= i < |nodes| then nodes[i] else head
  }

  /** The neighbours i - 1 and i point at each other. */
  ghost predicate LinkAt<T>(head: ListNode<T>, nodes: seq<ListNode<T>>, i: int)
    reads head`next, head`prev, (set n | n in nodes)`next, (set n | n in nodes)`prev
  {
    Nth(head, nodes, i - 1).next == Nth(head, nodes, i) && Nth(head, nodes, i).prev == Nth(head, nodes, i - 1)
  }

  /** Following next from head visits exactly nodes, in order, and prev leads back. */
  ghost predicate Ring<T>(head: ListNode<T>, nodes: seq<ListNode<T>>)
    reads head`next, head`prev, (set n | n in nodes)`next, (set n | n in nodes)`prev
  {
    && Distinct(nodes) && head !in nodes
    && forall i :: 0 <= i <= |nodes| ==> LinkAt(head, nodes, i)
  }

  method AddTail<T>(node: ListNode<T>, head: ListNode<T>, ghost nodes: seq<ListNode<T>>)
    requires Ring(head, nodes) && node !in nodes && node != head
    modifies node`next, node`prev, head`prev, head.prev`next
    ensures Ring(head, nodes + [node])
  {
    var last := head.prev;
    assert LinkAt(head, nodes, |nodes|);
    head.prev := node;
    node.next, node.prev := head, last;
    last.next := node;
    ghost var after := nodes + [node];
    forall i | 0 <= i <= |after| ensures LinkAt(head, after, i) {
      assert i <= |nodes| ==> old(LinkAt(head, nodes, i));
    }
  }

  method DelInit<T>(node: ListNode<T>, ghost head: ListNode<T>, ghost nodes: seq<ListNode<T>>)
    requires Ring(head, nodes) && node in nodes
    modifies node`next, node`prev, node.next`prev, node.prev`next
    ensures Ring(head, Without(nodes, node))
    ensures node.Alone()
  {
    ghost var k :| 0 <= k < |nodes| && nodes[k] == node;
    assert LinkAt(head, nodes, k) && LinkAt(head, nodes, k + 1);
    var next, prev := node.next, node.prev;
    next.prev := prev;
    prev.next := next;
    node.next, node.prev := node, node;
    ghost var after := nodes[..k] + nodes[k + 1..];
    forall i | 0 <= i <= |after| ensures LinkAt(head, after, i) {
      assert i <= k ==> old(LinkAt(head, nodes, i));
      assert i >= k ==> old(LinkAt(head, nodes, i + 1));
    }
    WithoutAt(nodes, k);
    WithoutKeeps(nodes, node);
  }

  /** A ring is empty exactly when its head is alone, and its first node is next to the head. */
  lemma FirstOfRing<T>(head: ListNode<T>, nodes: seq<ListNode<T>>)
    requires Ring(head, nodes)
    ensures head.next == head <==> nodes == []
    ensures head.next == if nodes == [] then head else nodes[0]
  {
    assert LinkAt(head, nodes, 0);
  }

  /** Where the pointers changed by AddTail and DelInit are. */
  lemma Neighbours<T>(head: ListNode<T>, nodes: seq<ListNode<T>>, node: ListNode<T>)
    requires Ring(head, nodes) && (node in nodes || node == head)
    ensures node.next in nodes || node.next == head
    ensures node.prev in nodes || node.prev == head
  {
    if node == head {
      assert LinkAt(head, nodes, 0) && LinkAt(head, nodes, |nodes|);
    } else {
      var k :| 0 <= k < |nodes| && nodes[k] == node;
      assert LinkAt(head, nodes, k) && LinkAt(head, nodes, k + 1);
    }
  }
}
