/** A node of the ordered key index (include/util/impl/ListNode.hpp), and the link shape nodes form. */
module ListNodes {
  import opened KeyOrder

  class ListNode<K> {
    var prev: ListNode?<K>
    var next: ListNode?<K>
    /** Stored once, right after allocation, and never written again. */
    const value: K

    /** `new ListNode()` value-initialises both links to null; the key is then stored. */
    constructor (key: K)
      ensures value == key && prev == null && next == null
    {
      value := key;
      prev := null;
      next := null;
    }
  }

  /**
   * The nodes are doubly linked in this order: each node's `next` is the
   * following node and each node's `prev` the preceding one, and the last
   * node's `next` is null. The first node's `prev` is not constrained.
   */
  ghost predicate Chain<K>(nodes: seq<ListNode<K>>)
    reads nodes
  {
    && (forall i :: 0 <= i < |nodes| - 1 ==> nodes[i].next == nodes[i + 1])
    && (forall i :: 0 < i < |nodes| ==> nodes[i].prev == nodes[i - 1])
    && (|nodes| > 0 ==> nodes[|nodes| - 1].next == null)
  }

  /** Dropping the first node of a chain leaves a chain. */
  lemma ChainDropFirst<K>(nodes: seq<ListNode<K>>)
    requires Chain(nodes) && |nodes| > 0
    ensures Chain(nodes[1..])
  {
    var rest := nodes[1..];
    forall i | 0 <= i < |rest| - 1 ensures rest[i].next == rest[i + 1] {
      assert rest[i] == nodes[i + 1] && rest[i + 1] == nodes[i + 2];
    }
    forall i | 0 < i < |rest| ensures rest[i].prev == rest[i - 1] {
      assert rest[i] == nodes[i + 1] && rest[i - 1] == nodes[i];
    }
  }

  /**
   * `node->next = nullptr` on the node that becomes the last one: cuts the
   * last node off the chain. On a one-node chain `node` is some node outside
   * it, and the (empty) rest is trivially a chain.
   */
  method ClearNext<K>(node: ListNode<K>, ghost nodes: seq<ListNode<K>>)
    requires Chain(nodes) && Distinct(nodes) && |nodes| > 0
    requires if |nodes| >= 2 then node == nodes[|nodes| - 2] else node != nodes[0]
    modifies node`next
    ensures node.next == null
    ensures Chain(nodes[..|nodes| - 1])
  {
    node.next := null;
    ghost var n := |nodes|;
    ghost var rest := nodes[..n - 1];
    forall j | 0 <= j < |rest| - 1 ensures rest[j].next == rest[j + 1] {
      assert rest[j] == nodes[j] && rest[j + 1] == nodes[j + 1];
    }
    forall j | 0 < j < |rest| ensures rest[j].prev == rest[j - 1] {
      assert rest[j] == nodes[j] && rest[j - 1] == nodes[j - 1];
    }
  }

  /** Splices the node at position i, neither the first nor the last, out of the chain. */
  method Unlink<K>(node: ListNode<K>, ghost nodes: seq<ListNode<K>>, ghost i: nat)
    requires Chain(nodes) && Distinct(nodes) && 0 < i < |nodes| - 1 && node == nodes[i]
    modifies (nodes[i - 1] as ListNode<K>)`next, (nodes[i + 1] as ListNode<K>)`prev
    ensures Chain(nodes[..i] + nodes[i + 1..])
  {
    node.next.prev := node.prev;
    node.prev.next := node.next;
    ghost var rest := nodes[..i] + nodes[i + 1..];
    forall j | 0 <= j < |rest| - 1 ensures rest[j].next == rest[j + 1] {
      if j < i - 1 {
        assert rest[j] == nodes[j] && rest[j + 1] == nodes[j + 1];
      } else if j == i - 1 {
        assert rest[j] == nodes[i - 1] && rest[j + 1] == nodes[i + 1];
      } else {
        assert rest[j] == nodes[j + 1] && rest[j + 1] == nodes[j + 2];
      }
    }
    forall j | 0 < j < |rest| ensures rest[j].prev == rest[j - 1] {
      if j < i {
        assert rest[j] == nodes[j] && rest[j - 1] == nodes[j - 1];
      } else if j == i {
        assert rest[j] == nodes[i + 1] && rest[j - 1] == nodes[i - 1];
      } else {
        assert rest[j] == nodes[j + 1] && rest[j - 1] == nodes[j];
      }
    }
    assert rest[|rest| - 1] == nodes[|nodes| - 1];
  }
}
