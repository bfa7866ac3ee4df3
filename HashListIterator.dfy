/** The bidirectional iterator over the ordered key index (include/util/impl/HashListIterator.hpp). */
module HashListIterators {
  import opened ListNodes

  class HashListIterator<K> {
    /** The node the iterator stands on; null is the end position. */
    var node: ListNode?<K>

    constructor (front: ListNode?<K>)
      ensures node == front
    {
      node := front;
    }

    /** The default-constructed iterator stands at the end. */
    constructor Default()
      ensures node == null
    {
      node := null;
    }

    /** Prefix `++`: moves to the next node; at the end it stays at the end. */
    method Increment()
      modifies this
      ensures node == if old(node) == null then null else old(node.next)
    {
      if node != null {
        node := node.next;
      }
    }

    /** Postfix `++`: moves like prefix `++` and returns a copy of the prior position. */
    method PostIncrement() returns (prior: HashListIterator<K>)
      modifies this
      ensures fresh(prior) && prior.node == old(node)
      ensures node == if old(node) == null then null else old(node.next)
    {
      prior := new HashListIterator(node);
      if node != null {
        node := node.next;
      }
    }

    /** Prefix `--`: moves to the previous node; at null it stays null. */
    method Decrement()
      modifies this
      ensures node == if old(node) == null then null else old(node.prev)
    {
      if node != null {
        node := node.prev;
      }
    }

    /** Postfix `--`: moves like prefix `--` and returns a copy of the prior position. */
    method PostDecrement() returns (prior: HashListIterator<K>)
      modifies this
      ensures fresh(prior) && prior.node == old(node)
      ensures node == if old(node) == null then null else old(node.prev)
    {
      prior := new HashListIterator(node);
      if node != null {
        node := node.prev;
      }
    }

    /** `==` compares node identity only (`!=` is its negation). */
    predicate Equals(other: HashListIterator<K>)
      reads this, other
    {
      node == other.node
    }

    /** Dereference: the key stored in the current node; the source does not guard against null. */
    function Deref(): K
      reads this, node
      requires node != null
    {
      node.value
    }
  }
}
