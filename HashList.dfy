/**
 * The ordered key index (include/util/HashList.hpp): a doubly linked list of
 * distinct keys plus a hash map from each key to its node.
 *
 * The abstract value is the ghost sequence `Keys`, front first; `Nodes` holds
 * the node of each key at the same position. `Repr` only grows: a node that
 * was unlinked stays in it, so that a write through a stale link is still a
 * write the method is allowed to make.
 */
module HashLists {
  import opened Options
  import opened KeyOrder
  import opened ListNodes
  import opened HashListIterators

  /**
   * The map and the nodes agree with the key sequence: the node at each
   * position stores the key there, belongs to `repr`, and is what the map
   * gives for that key; and the map has no more entries than there are keys
   * (so, by `IndexHas`, no other key).
   */
  ghost predicate IndexOk<K>(keys: seq<K>, nodes: seq<ListNode<K>>, cache: map<K, ListNode<K>>, repr: set<object>)
  {
    && |nodes| == |keys|
    && Distinct(keys)
    && (forall i :: 0 <= i < |keys| ==> keys[i] in cache && cache[keys[i]] == nodes[i])
    && (forall i :: 0 <= i < |nodes| ==> nodes[i] in repr && nodes[i].value == keys[i])
    && |cache| == |keys|
  }

  /** Under `IndexOk` the map holds exactly the listed keys. */
  lemma IndexHas<K>(keys: seq<K>, nodes: seq<ListNode<K>>, cache: map<K, ListNode<K>>, repr: set<object>, k: K)
    requires IndexOk(keys, nodes, cache, repr)
    ensures k in cache <==> k in keys
  {
    if k in keys {
      var i :| 0 <= i < |keys| && keys[i] == k;
    } else if k in cache {
      var listed := set x | x in keys;
      DistinctCard(keys);
      forall x | x in listed ensures x in cache.Keys - {k} {
        var i :| 0 <= i < |keys| && keys[i] == x;
      }
      SubsetCard(listed, cache.Keys - {k});
    }
  }

  /** Distinct keys stored in the nodes make the nodes distinct. */
  lemma IndexNodesDistinct<K>(keys: seq<K>, nodes: seq<ListNode<K>>, cache: map<K, ListNode<K>>, repr: set<object>)
    requires IndexOk(keys, nodes, cache, repr)
    ensures Distinct(nodes)
  {
    forall a, b | 0 <= a < b < |nodes| ensures nodes[a] != nodes[b] {
      assert nodes[a].value == keys[a] && nodes[b].value == keys[b];
    }
  }

  /** Adding a new key with its new node at either end keeps the index right. */
  lemma IndexAdd<K>(keys: seq<K>, nodes: seq<ListNode<K>>, cache: map<K, ListNode<K>>, repr: set<object>,
                    k: K, n: ListNode<K>, atFront: bool)
    requires IndexOk(keys, nodes, cache, repr) && k !in keys && n.value == k
    ensures atFront ==> IndexOk([k] + keys, [n] + nodes, cache[k := n], repr + {n})
    ensures !atFront ==> IndexOk(keys + [k], nodes + [n], cache[k := n], repr + {n})
  {
    IndexHas(keys, nodes, cache, repr, k);
    var ks := if atFront then [k] + keys else keys + [k];
    var ns := if atFront then [n] + nodes else nodes + [n];
    var c := cache[k := n];
    forall a, b | 0 <= a < b < |ks| ensures ks[a] != ks[b] {
      if atFront && a == 0 {
        assert ks[b] == keys[b - 1];
      } else if atFront {
        assert ks[a] == keys[a - 1] && ks[b] == keys[b - 1];
      } else if b == |keys| {
        assert ks[a] == keys[a];
      } else {
        assert ks[a] == keys[a] && ks[b] == keys[b];
      }
    }
    forall i | 0 <= i < |ks|
      ensures ks[i] in c && c[ks[i]] == ns[i] && ns[i] in repr + {n} && ns[i].value == ks[i]
    {
      if atFront && i > 0 {
        assert ks[i] == keys[i - 1] && ns[i] == nodes[i - 1];
      } else if !atFront && i < |keys| {
        assert ks[i] == keys[i] && ns[i] == nodes[i];
      }
    }
  }

  /** Taking out the key at position i, with its node and its map entry, keeps the index right. */
  lemma IndexRemove<K>(keys: seq<K>, nodes: seq<ListNode<K>>, cache: map<K, ListNode<K>>, repr: set<object>, i: nat)
    requires IndexOk(keys, nodes, cache, repr) && i < |keys|
    ensures IndexOk(keys[..i] + keys[i + 1..], nodes[..i] + nodes[i + 1..], cache - {keys[i]}, repr)
  {
    var ks := keys[..i] + keys[i + 1..];
    var ns := nodes[..i] + nodes[i + 1..];
    var c := cache - {keys[i]};
    SpliceDistinct(keys, i);
    forall j | 0 <= j < |ks|
      ensures ks[j] in c && c[ks[j]] == ns[j] && ns[j] in repr && ns[j].value == ks[j]
    {
      if j < i {
        assert ks[j] == keys[j] && ns[j] == nodes[j];
      } else {
        assert ks[j] == keys[j + 1] && ns[j] == nodes[j + 1];
      }
    }
  }

  /** Taking out the first key keeps the index right. */
  lemma IndexDropFirst<K>(keys: seq<K>, nodes: seq<ListNode<K>>, cache: map<K, ListNode<K>>, repr: set<object>)
    requires IndexOk(keys, nodes, cache, repr) && |keys| > 0
    ensures IndexOk(keys[1..], nodes[1..], cache - {keys[0]}, repr)
  {
    IndexRemove(keys, nodes, cache, repr, 0);
    assert keys[..0] + keys[1..] == keys[1..];
    assert nodes[..0] + nodes[1..] == nodes[1..];
  }

  /** Taking out the last key keeps the index right. */
  lemma IndexDropLast<K>(keys: seq<K>, nodes: seq<ListNode<K>>, cache: map<K, ListNode<K>>, repr: set<object>)
    requires IndexOk(keys, nodes, cache, repr) && |keys| > 0
    ensures IndexOk(keys[..|keys| - 1], nodes[..|keys| - 1], cache - {keys[|keys| - 1]}, repr)
  {
    var n := |keys|;
    IndexRemove(keys, nodes, cache, repr, n - 1);
    assert keys[..n - 1] + keys[n..] == keys[..n - 1];
    assert nodes[..n - 1] + nodes[n..] == nodes[..n - 1];
  }

  /** Moving the key at position i, with its node, to the front or to the back keeps the index right. */
  lemma IndexMove<K>(keys: seq<K>, nodes: seq<ListNode<K>>, cache: map<K, ListNode<K>>, repr: set<object>,
                     i: nat, toFront: bool)
    requires IndexOk(keys, nodes, cache, repr) && i < |keys|
    ensures toFront ==> IndexOk([keys[i]] + (keys[..i] + keys[i + 1..]), [nodes[i]] + (nodes[..i] + nodes[i + 1..]), cache, repr)
    ensures !toFront ==> IndexOk(keys[..i] + keys[i + 1..] + [keys[i]], nodes[..i] + nodes[i + 1..] + [nodes[i]], cache, repr)
  {
    IndexRemove(keys, nodes, cache, repr, i);
    var ks := keys[..i] + keys[i + 1..];
    var ns := nodes[..i] + nodes[i + 1..];
    var c := cache - {keys[i]};
    SpliceDistinct(keys, i);
    IndexAdd(ks, ns, c, repr, keys[i], nodes[i], toFront);
    assert c[keys[i] := nodes[i]] == cache;
    assert repr + {nodes[i]} == repr;
  }

  class HashList<K(==)> {
    var front: ListNode?<K>
    var back: ListNode?<K>
    var nodeCache: map<K, ListNode<K>>
    /** Number of nodes created and not yet deleted. */
    var memWatch: nat

    ghost var Keys: seq<K>
    ghost var Nodes: seq<ListNode<K>>
    ghost var Repr: set<object>

    /** The nodes, the map and the counter agree with the abstract sequence. */
    ghost predicate CacheOk()
      reads this, Repr
    {
      && this in Repr
      && IndexOk(Keys, Nodes, nodeCache, Repr)
      && memWatch == |Keys|
    }

    /** The links follow the sequence; the front node's `prev` may be a node no longer listed. */
    ghost predicate LinksOk()
      reads this, Repr
      requires CacheOk()
    {
      && front == (if |Nodes| == 0 then null else Nodes[0])
      && back == (if |Nodes| == 0 then null else Nodes[|Nodes| - 1])
      && Chain(Nodes)
      && (front != null && front.prev != null ==> front.prev in Repr && front.prev !in Nodes)
    }

    /** Every invariant except that the front node's `prev` is null. */
    ghost predicate Linked()
      reads this, Repr
    {
      CacheOk() && LinksOk()
    }

    /** The object invariant: the list is linked and its front has no predecessor. */
    ghost predicate Valid()
      reads this, Repr
    {
      Linked() && (front != null ==> front.prev == null)
    }

    lemma NodesDistinct()
      requires CacheOk()
      ensures Distinct(Nodes)
    {
      IndexNodesDistinct(Keys, Nodes, nodeCache, Repr);
    }

    constructor ()
      ensures Valid() && fresh(Repr) && Keys == []
    {
      front := null;
      back := null;
      nodeCache := map[];
      memWatch := 0;
      Keys := [];
      Nodes := [];
      Repr := {this};
    }

    /** The number of keys, read off the map. */
    function Size(): (n: nat)
      reads this, Repr
      ensures CacheOk() ==> n == |Keys|
    {
      |nodeCache|
    }

    /** Membership, answered by the map. */
    function Contains(key: K): (r: bool)
      reads this, Repr
      requires CacheOk()
      ensures r <==> key in Keys
    {
      IndexHas(Keys, Nodes, nodeCache, Repr, key);
      key in nodeCache
    }

    /** Allocates the node for a key, registers it in the map unless the key is there, and counts it. */
    method CreateListNode(key: K) returns (node: ListNode<K>)
      modifies this`nodeCache, this`memWatch
      ensures fresh(node) && node.value == key && node.prev == null && node.next == null
      ensures nodeCache == if key in old(nodeCache) then old(nodeCache) else old(nodeCache)[key := node]
      ensures memWatch == old(memWatch) + 1
    {
      node := new ListNode(key);
      memWatch := memWatch + 1;
      if key !in nodeCache {
        nodeCache := nodeCache[key := node];
      }
    }

    /** Releases a node; only the allocation counter is modelled. */
    method DeleteNode(node: ListNode<K>)
      requires memWatch > 0
      modifies this`memWatch
      ensures memWatch == old(memWatch) - 1
    {
      memWatch := memWatch - 1;
    }

    /**
     * Pushes `key` to the front: a new key is added there, a present key is
     * moved there, and pushing the current front changes nothing.
     */
    method PushFront(key: K)
      requires Valid()
      modifies Repr
      ensures Valid() && fresh(Repr - old(Repr))
      ensures Keys == MoveToFront(old(Keys), key)
    {
      if Contains(key) {
        var node := nodeCache[key];
        ghost var i :| 0 <= i < |Keys| && Keys[i] == key;
        NodesDistinct();
        assert node == Nodes[i];
        if node == front {
          assert i == 0;
          MoveToFrontOfFront(Keys);
          return;
        }
        WithoutAt(Keys, i);
        MoveToFrontAt(node, i);
      } else {
        WithoutAbsent(Keys, key);
        AddNew(key, true);
      }
    }

    /**
     * Pushes `key` to the back: a new key is added there, a present key is
     * moved there, and pushing the current back changes nothing.
     */
    method PushBack(key: K)
      requires Valid()
      modifies Repr
      ensures Valid() && fresh(Repr - old(Repr))
      ensures Keys == MoveToBack(old(Keys), key)
    {
      if Contains(key) {
        var node := nodeCache[key];
        ghost var i :| 0 <= i < |Keys| && Keys[i] == key;
        NodesDistinct();
        assert node == Nodes[i];
        if node == back {
          assert i == |Keys| - 1;
          MoveToBackOfBack(Keys);
          return;
        }
        WithoutAt(Keys, i);
        MoveToBackAt(node, i);
      } else {
        WithoutAbsent(Keys, key);
        AddNew(key, false);
      }
    }

    /** Links a node that is not in the chain `nodes` in front of it; `nodes` starts at the current front. */
    method LinkFront(node: ListNode<K>, ghost nodes: seq<ListNode<K>>)
      requires Chain(nodes) && Distinct(nodes) && |nodes| > 0 && front == nodes[0] && node !in nodes
      modifies this`front, node`next, node`prev, front`prev
      ensures front == node && node.prev == null
      ensures Chain([node] + nodes)
    {
      node.next := front;
      node.prev := null;
      front.prev := node;
      front := node;
      ghost var all := [node] + nodes;
      forall j | 0 <= j < |all| - 1 ensures all[j].next == all[j + 1] {
        if j > 0 {
          assert all[j] == nodes[j - 1] && all[j + 1] == nodes[j];
        }
      }
      forall j | 0 < j < |all| ensures all[j].prev == all[j - 1] {
        if j > 1 {
          assert all[j] == nodes[j - 1] && all[j - 1] == nodes[j - 2];
        }
      }
      assert all[|all| - 1] == nodes[|nodes| - 1];
    }

    /** Links a node that is not in the chain `nodes` behind it; `nodes` ends at the current back. */
    method LinkBack(node: ListNode<K>, ghost nodes: seq<ListNode<K>>)
      requires Chain(nodes) && Distinct(nodes) && |nodes| > 0 && back == nodes[|nodes| - 1] && node !in nodes
      modifies this`back, node`next, node`prev, back`next
      ensures back == node
      ensures Chain(nodes + [node])
    {
      node.prev := back;
      back.next := node;
      node.next := null;
      back := node;
      ghost var all := nodes + [node];
      forall j | 0 <= j < |all| - 1 ensures all[j].next == all[j + 1] {
        if j < |nodes| - 1 {
          assert all[j] == nodes[j] && all[j + 1] == nodes[j + 1];
        }
      }
      forall j | 0 < j < |all| ensures all[j].prev == all[j - 1] {
        if j < |nodes| {
          assert all[j] == nodes[j] && all[j - 1] == nodes[j - 1];
        }
      }
    }

    /**
     * The unlinking half of moving the node at position i > 0 to the front:
     * its predecessor skips it, and its successor points back past it, or,
     * when it is the back, `back` steps back to the predecessor.
     */
    method DetachForFront(node: ListNode<K>, ghost nodes: seq<ListNode<K>>, ghost i: nat)
      requires Chain(nodes) && Distinct(nodes) && 0 < i < |nodes| && node == nodes[i]
      requires back == nodes[|nodes| - 1]
      modifies this`back, (nodes[i - 1] as ListNode<K>)`next, (nodes[if i < |nodes| - 1 then i + 1 else i] as ListNode<K>)`prev
      ensures Chain(nodes[..i] + nodes[i + 1..])
      ensures back == (nodes[..i] + nodes[i + 1..])[|nodes| - 2]
    {
      node.prev.next := node.next;
      if node != back {
        node.next.prev := node.prev;
      } else {
        back := node.prev;
      }
      ghost var rest := nodes[..i] + nodes[i + 1..];
      forall j | 0 <= j < |rest| - 1 ensures rest[j].next == rest[j + 1] {
        if j < i - 1 {
          assert rest[j] == nodes[j] && rest[j + 1] == nodes[j + 1];
        } else if j == i - 1 {
          assert rest[j] == nodes[i - 1] && rest[j + 1] == nodes[i + 1];
        } else {
          assert rest[j] == nodes[j + 1] && rest[j + 1] == nodes[j + 2];
        }
      }
      forall j | 0 < j < |rest| ensures rest[j].prev == rest[j - 1] {
        if j < i {
          assert rest[j] == nodes[j] && rest[j - 1] == nodes[j - 1];
        } else if j == i {
          assert rest[j] == nodes[i + 1] && rest[j - 1] == nodes[i - 1];
        } else {
          assert rest[j] == nodes[j + 1] && rest[j - 1] == nodes[j];
        }
      }
      if i < |nodes| - 1 {
        assert rest[|rest| - 1] == nodes[|nodes| - 1];
      } else {
        assert rest[|rest| - 1] == nodes[i - 1];
      }
    }

    /**
     * The unlinking half of moving the node at position i, not the back, to
     * the back: its successor points back past it, and its predecessor skips
     * it, or, when it is the front, `front` steps on to the successor.
     */
    method DetachForBack(node: ListNode<K>, ghost nodes: seq<ListNode<K>>, ghost i: nat)
      requires Chain(nodes) && Distinct(nodes) && i < |nodes| - 1 && node == nodes[i]
      requires front == nodes[0] && nodes[0].prev == null
      modifies this`front, (nodes[i + 1] as ListNode<K>)`prev, (nodes[if i > 0 then i - 1 else i] as ListNode<K>)`next
      ensures Chain(nodes[..i] + nodes[i + 1..])
      ensures front == (nodes[..i] + nodes[i + 1..])[0] && front.prev == null
    {
      node.next.prev := node.prev;
      if node != front {
        node.prev.next := node.next;
      } else {
        front := node.next;
      }
      ghost var rest := nodes[..i] + nodes[i + 1..];
      forall j | 0 <= j < |rest| - 1 ensures rest[j].next == rest[j + 1] {
        if j < i - 1 {
          assert rest[j] == nodes[j] && rest[j + 1] == nodes[j + 1];
        } else if j == i - 1 {
          assert rest[j] == nodes[i - 1] && rest[j + 1] == nodes[i + 1];
        } else {
          assert rest[j] == nodes[j + 1] && rest[j + 1] == nodes[j + 2];
        }
      }
      forall j | 0 < j < |rest| ensures rest[j].prev == rest[j - 1] {
        if j < i {
          assert rest[j] == nodes[j] && rest[j - 1] == nodes[j - 1];
        } else if j == i {
          assert rest[j] == nodes[i + 1] && rest[j - 1] == nodes[i - 1];
        } else {
          assert rest[j] == nodes[j + 1] && rest[j - 1] == nodes[j];
        }
      }
      assert rest[|rest| - 1] == nodes[|nodes| - 1];
      assert rest[0] == if i == 0 then nodes[1] else nodes[0];
    }

    /** The branch of both pushes for a key not yet listed: a new node at the front or at the back. */
    method AddNew(key: K, atFront: bool)
      requires Valid() && key !in Keys
      modifies Repr
      ensures Valid() && fresh(Repr - old(Repr))
      ensures Keys == if atFront then [key] + old(Keys) else old(Keys) + [key]
    {
      if Size() == 0 {
        AddFirst(key);
        assert [key] + old(Keys) == old(Keys) + [key];
      } else if atFront {
        AddNewFront(key);
      } else {
        AddNewBack(key);
      }
    }

    /** A key pushed onto an empty list becomes both its front and its back. */
    method AddFirst(key: K)
      requires Valid() && |Keys| == 0
      modifies Repr
      ensures Valid() && fresh(Repr - old(Repr))
      ensures Keys == [key]
    {
      ghost var K0, N, R := Keys, Nodes, Repr;
      IndexHas(K0, N, nodeCache, R, key);
      var node := CreateListNode(key);
      IndexAdd(K0, N, old(nodeCache), R, key, node, true);
      Repr := R + {node};
      front := node;
      back := node;
      assert [key] + K0 == [key];
      assert [node] + N == [node];
      Keys, Nodes := [key], [node];
    }

    /** A new key becomes the front of a non-empty list. */
    method AddNewFront(key: K)
      requires Valid() && key !in Keys && |Keys| > 0
      modifies Repr
      ensures Valid() && fresh(Repr - old(Repr))
      ensures Keys == [key] + old(Keys)
    {
      ghost var K0, N, R := Keys, Nodes, Repr;
      IndexHas(K0, N, nodeCache, R, key);
      NodesDistinct();
      var node := CreateListNode(key);
      IndexAdd(K0, N, old(nodeCache), R, key, node, true);
      Repr := R + {node};
      LinkFront(node, N);
      Keys, Nodes := [key] + K0, [node] + N;
    }

    /** A new key becomes the back of a non-empty list. */
    method AddNewBack(key: K)
      requires Valid() && key !in Keys && |Keys| > 0
      modifies Repr
      ensures Valid() && fresh(Repr - old(Repr))
      ensures Keys == old(Keys) + [key]
    {
      ghost var K0, N, R := Keys, Nodes, Repr;
      IndexHas(K0, N, nodeCache, R, key);
      NodesDistinct();
      var node := CreateListNode(key);
      IndexAdd(K0, N, old(nodeCache), R, key, node, false);
      Repr := R + {node};
      LinkBack(node, N);
      Keys, Nodes := K0 + [key], N + [node];
    }

    /** The branch of `PushFront` for a listed key that is not the front: unlink it, relink it in front. */
    method MoveToFrontAt(node: ListNode<K>, ghost i: nat)
      requires Valid() && 0 < i < |Keys| && node == Nodes[i]
      modifies Repr
      ensures Valid() && Repr == old(Repr)
      ensures Keys == [old(Keys)[i]] + (old(Keys)[..i] + old(Keys)[i + 1..])
    {
      ghost var K0, N, R := Keys, Nodes, Repr;
      NodesDistinct();
      IndexMove(K0, N, nodeCache, R, i, true);
      SpliceDistinct(N, i);
      DetachForFront(node, N, i);
      ghost var rest := N[..i] + N[i + 1..];
      LinkFront(node, rest);
      Keys, Nodes := [K0[i]] + (K0[..i] + K0[i + 1..]), [node] + rest;
    }

    /** The branch of `PushBack` for a listed key that is not the back: unlink it, relink it behind. */
    method MoveToBackAt(node: ListNode<K>, ghost i: nat)
      requires Valid() && i < |Keys| - 1 && node == Nodes[i]
      modifies Repr
      ensures Valid() && Repr == old(Repr)
      ensures Keys == old(Keys)[..i] + old(Keys)[i + 1..] + [old(Keys)[i]]
    {
      ghost var K0, N, R := Keys, Nodes, Repr;
      NodesDistinct();
      IndexMove(K0, N, nodeCache, R, i, false);
      SpliceDistinct(N, i);
      DetachForBack(node, N, i);
      ghost var rest := N[..i] + N[i + 1..];
      LinkBack(node, rest);
      Keys, Nodes := K0[..i] + K0[i + 1..] + [K0[i]], rest + [node];
    }

    /**
     * `PopFront` as the source writes it: the front key is removed and
     * returned, but the node that becomes the front keeps its `prev` link to
     * the node just deleted.
     */
    method PopFrontAsWritten() returns (output: Option<K>)
      requires Linked()
      modifies this
      ensures Linked() && Repr == old(Repr)
      ensures |old(Keys)| == 0 ==> output == None && |Keys| == 0
      ensures |old(Keys)| > 0 ==> output == Some(old(Keys)[0]) && Keys == old(Keys)[1..]
      ensures |old(Keys)| >= 2 ==> front.prev == old(front)
    {
      if Size() == 0 {
        return None;
      }
      ghost var K0, N, R := Keys, Nodes, Repr;
      IndexDropFirst(K0, N, nodeCache, R);
      ChainDropFirst(N);
      NodesDistinct();
      var node := front;
      front := front.next;
      if node == back {
        back := null;
      }
      nodeCache := nodeCache - {node.value};
      output := Some(node.value);
      DeleteNode(node);
      Keys, Nodes := K0[1..], N[1..];
    }

    /** Removes and returns the front key; the node that becomes the front gets a null `prev`. */
    method PopFront() returns (output: Option<K>)
      requires Linked()
      modifies this, Repr
      ensures Valid() && Repr == old(Repr)
      ensures |old(Keys)| == 0 ==> output == None && |Keys| == 0
      ensures |old(Keys)| > 0 ==> output == Some(old(Keys)[0]) && Keys == old(Keys)[1..]
    {
      output := PopFrontAsWritten();
      if front != null {
        front.prev := null;
      }
    }

    /**
     * Removes and returns the back key. The node that becomes the back is the
     * old back's `prev`: on a one-key list whose front still links to a
     * deleted node, that deleted node becomes `back`.
     */
    method PopBack() returns (output: Option<K>)
      requires Linked()
      modifies this, Repr
      ensures CacheOk() && Repr == old(Repr)
      ensures |old(Keys)| == 0 ==> output == None && |Keys| == 0
      ensures |old(Keys)| > 0 ==> output == Some(old(Keys)[|old(Keys)| - 1]) && Keys == old(Keys)[..|old(Keys)| - 1]
      ensures old(Valid()) ==> Valid()
      ensures |old(Keys)| != 1 ==> Linked()
      ensures |old(Keys)| == 1 ==> front == null && back == old(front.prev)
    {
      if Size() == 0 {
        return None;
      }
      if Size() == 1 {
        output := PopBackOnly();
      } else {
        output := PopBackOfMany();
      }
    }

    /**
     * `PopBack` on a one-key list: the node is both front and back, so
     * `front` becomes null and `back` becomes the node's `prev`, which is
     * null unless the front still links to a deleted node.
     */
    method PopBackOnly() returns (output: Option<K>)
      requires Linked() && |Keys| == 1
      modifies this, Repr
      ensures CacheOk() && Repr == old(Repr) && |Keys| == 0
      ensures output == Some(old(Keys)[0])
      ensures front == null && back == old(front.prev)
    {
      ghost var K0, N, R := Keys, Nodes, Repr;
      IndexDropLast(K0, N, nodeCache, R);
      var node := back;
      back := node.prev;
      if back != null {
        back.next := null;
      }
      front := null;
      nodeCache := nodeCache - {node.value};
      output := Some(node.value);
      DeleteNode(node);
      Keys, Nodes := [], [];
    }

    /**
     * `PopBack` on a list of two or more keys: `back` steps back to the
     * previous node, whose `next` is cleared; the front is untouched.
     */
    method PopBackOfMany() returns (output: Option<K>)
      requires Linked() && |Keys| >= 2
      modifies this, Repr
      ensures Linked() && Repr == old(Repr)
      ensures output == Some(old(Keys)[|old(Keys)| - 1]) && Keys == old(Keys)[..|old(Keys)| - 1]
      ensures front == old(front) && front.prev == old(front.prev)
    {
      ghost var K0, N, R := Keys, Nodes, Repr;
      ghost var n := |N|;
      IndexDropLast(K0, N, nodeCache, R);
      NodesDistinct();
      var node := back;
      back := node.prev;
      nodeCache := nodeCache - {node.value};
      output := Some(node.value);
      DeleteNode(node);
      Keys, Nodes := K0[..n - 1], N[..n - 1];
      assert CacheOk();
      assert back == N[n - 2];
      ClearNext(back, N);
    }

    /**
     * `RemoveKey` as the source writes it: the back and the front are removed
     * by `PopBack` and the source's `PopFront`; any other node is unlinked in
     * place. Removing the front of two or more keys leaves the new front's
     * `prev` on the deleted node, and removing the last key of a list in that
     * state makes `back` that deleted node.
     */
    method RemoveKeyAsWritten(key: K) returns (removed: bool)
      requires Linked()
      modifies this, Repr
      ensures CacheOk() && Repr == old(Repr)
      ensures removed <==> key in old(Keys)
      ensures Keys == Without(old(Keys), key)
      ensures !(key in old(Keys) && |old(Keys)| == 1) ==> Linked()
      ensures key in old(Keys) && |old(Keys)| == 1 ==> front == null && back == old(front.prev)
      ensures |old(Keys)| >= 2 && key == old(Keys)[0] ==> front != null && front.prev == old(front)
      ensures old(Valid()) && !(|old(Keys)| >= 2 && key == old(Keys)[0]) ==> Valid()
    {
      if Size() == 0 {
        return false;
      }
      IndexHas(Keys, Nodes, nodeCache, Repr, key);
      if key !in nodeCache {
        WithoutAbsent(Keys, key);
        return false;
      }
      var node := nodeCache[key];
      ghost var i :| 0 <= i < |Keys| && Keys[i] == key;
      NodesDistinct();
      WithoutAt(Keys, i);
      if node == back {
        assert Keys[i + 1..] == [];
        var r := PopBack();
        removed := r.Some?;
      } else if node == front {
        var r := PopFrontAsWritten();
        removed := r.Some?;
      } else {
        RemoveAt(node, i);
        removed := true;
      }
    }

    /**
     * Removes `key` if it is listed and reports whether it was, with the
     * corrected `PopFront` for the front node, so the list stays valid.
     */
    method RemoveKey(key: K) returns (removed: bool)
      requires Valid()
      modifies this, Repr
      ensures Valid() && Repr == old(Repr)
      ensures removed <==> key in old(Keys)
      ensures Keys == Without(old(Keys), key)
    {
      if Size() == 0 {
        return false;
      }
      IndexHas(Keys, Nodes, nodeCache, Repr, key);
      if key !in nodeCache {
        WithoutAbsent(Keys, key);
        return false;
      }
      var node := nodeCache[key];
      ghost var i :| 0 <= i < |Keys| && Keys[i] == key;
      NodesDistinct();
      WithoutAt(Keys, i);
      if node == back {
        assert Keys[i + 1..] == [];
        var r := PopBack();
        removed := r.Some?;
      } else if node == front {
        var r := PopFront();
        removed := r.Some?;
      } else {
        RemoveAt(node, i);
        removed := true;
      }
    }

    /** The branch of `RemoveKey` for a node strictly between front and back. */
    method RemoveAt(node: ListNode<K>, ghost i: nat)
      requires Linked() && 0 < i < |Keys| - 1 && node == Nodes[i]
      modifies this, Repr
      ensures Linked() && Repr == old(Repr)
      ensures Keys == old(Keys)[..i] + old(Keys)[i + 1..]
      ensures front == old(front) && front.prev == old(front.prev)
    {
      ghost var K0, N, R := Keys, Nodes, Repr;
      NodesDistinct();
      IndexRemove(K0, N, nodeCache, R, i);
      Unlink(node, N, i);
      nodeCache := nodeCache - {node.value};
      DeleteNode(node);
      Keys, Nodes := K0[..i] + K0[i + 1..], N[..i] + N[i + 1..];
    }

    /**
     * The destructor: deletes every node the map holds; afterwards no node is left allocated.
     * It needs only the index, so it also runs on lists the written `PopFront` left linked.
     */
    method Destroy()
      requires CacheOk()
      modifies this`memWatch
      ensures memWatch == 0
    {
      var pending := nodeCache.Keys;
      while pending != {}
        invariant memWatch == |pending|
        decreases |pending|
      {
        var k :| k in pending;
        pending := pending - {k};
        memWatch := memWatch - 1;
      }
    }

    /** `begin()`: an iterator on the front node (the end position when empty). */
    method Begin() returns (it: HashListIterator<K>)
      ensures fresh(it) && it.node == front
    {
      it := new HashListIterator(front);
    }

    /** `end()`: the iterator on null. */
    method End() returns (it: HashListIterator<K>)
      ensures fresh(it) && it.node == null
    {
      it := new HashListIterator.Default();
    }
  }

  /**
   * The forward walk of the iterator test: `*itr++` from `begin()` until
   * `end()` yields every key, front to back.
   */
  method CollectForward<K>(list: HashList<K>) returns (visited: seq<K>)
    requires list.Valid()
    ensures visited == list.Keys
  {
    var it := list.Begin();
    var stop := list.End();
    visited := [];
    while !it.Equals(stop)
      invariant stop.node == null
      invariant |visited| <= |list.Keys| && visited == list.Keys[..|visited|]
      invariant it.node == if |visited| < |list.Keys| then list.Nodes[|visited|] else null
      decreases |list.Keys| - |visited|
    {
      var prior := it.PostIncrement();
      visited := visited + [prior.Deref()];
    }
  }

  /**
   * The backward walk of the iterator test: advance from `begin()` to the last
   * key, then read and `--` until `end()`; it yields every key, back to front.
   * It stops only because the front node's `prev` is null.
   */
  method CollectBackward<K>(list: HashList<K>) returns (visited: seq<K>)
    requires list.Valid()
    ensures visited == Reverse(list.Keys)
  {
    var n := list.Size();
    var it := list.Begin();
    var steps := 0;
    while steps < n - 1
      invariant n == |list.Keys|
      invariant 0 <= steps && (n > 0 ==> steps <= n - 1)
      invariant it.node == if n == 0 then null else list.Nodes[steps]
    {
      it.Increment();
      steps := steps + 1;
    }
    var stop := list.End();
    visited := [];
    while !it.Equals(stop)
      invariant stop.node == null
      invariant |visited| <= n
      invariant forall j :: 0 <= j < |visited| ==> visited[j] == list.Keys[n - 1 - j]
      invariant it.node == if |visited| < n then list.Nodes[n - 1 - |visited|] else null
      decreases n - |visited|
    {
      visited := visited + [it.Deref()];
      it.Decrement();
    }
    forall j | 0 <= j < n ensures visited[j] == Reverse(list.Keys)[j] {
      ReverseAt(list.Keys, j);
    }
  }

  /**
   * The source's `PopFront` on the list [1, 2], then a backward step from
   * `begin()`: the walk should reach `end()`, but it lands on the deleted node.
   */
  method BackwardStepAfterPopFrontAsWritten() returns (reachedEnd: bool)
    ensures !reachedEnd
  {
    var list := new HashList<int>();
    list.PushBack(1);
    list.PushBack(2);
    var popped := list.PopFrontAsWritten();
    var it := list.Begin();
    it.Decrement();
    var stop := list.End();
    reachedEnd := it.Equals(stop);
  }

  /** The same walk with the corrected `PopFront` reaches `end()`. */
  method BackwardStepAfterPopFront() returns (reachedEnd: bool)
    ensures reachedEnd
  {
    var list := new HashList<int>();
    list.PushBack(1);
    list.PushBack(2);
    var popped := list.PopFront();
    var it := list.Begin();
    it.Decrement();
    var stop := list.End();
    reachedEnd := it.Equals(stop);
  }

  /**
   * The source's `PopFront` on [1, 2], then `PopBack`: the list is empty, yet
   * `back` is the deleted node rather than null, so a later `PushBack` would
   * write through it.
   */
  method PopBackAfterPopFrontAsWritten() returns (size: nat, backIsNull: bool)
    ensures size == 0 && !backIsNull
  {
    var list := new HashList<int>();
    list.PushBack(1);
    assert list.Keys == [1];
    list.PushBack(2);
    assert Without([1], 2) == [1];
    assert list.Keys == [1, 2];
    var first := list.PopFrontAsWritten();
    assert list.front.prev != null;
    var second := list.PopBack();
    size := list.Size();
    backIsNull := list.back == null;
  }

  /**
   * The last two removals of the `RemoveInPlace` test with the source's
   * `RemoveKey`: 127 and then 255 from [127, 255]. Removing 127 goes through
   * `PopFront`, removing 255 through `PopBack`; the list ends empty with
   * `back` on the deleted node of 127.
   */
  method RemoveInPlaceAsWritten() returns (size: nat, backIsNull: bool, leftover: nat)
    ensures size == 0 && !backIsNull && leftover == 0
  {
    var list := new HashList<int>();
    list.PushBack(127);
    assert list.Keys == [127];
    list.PushBack(255);
    assert Without([127], 255) == [127];
    assert list.Keys == [127, 255];
    var first := list.RemoveKeyAsWritten(127);
    assert Without([127, 255], 127) == [255];
    var second := list.RemoveKeyAsWritten(255);
    size := list.Size();
    backIsNull := list.back == null;
    list.Destroy();
    leftover := list.memWatch;
  }

  /** The same removals with the corrected `RemoveKey` leave an empty, valid list. */
  method RemoveInPlace() returns (size: nat, backIsNull: bool, leftover: nat)
    ensures size == 0 && backIsNull && leftover == 0
  {
    var list := new HashList<int>();
    list.PushBack(127);
    assert list.Keys == [127];
    list.PushBack(255);
    assert Without([127], 255) == [127];
    assert list.Keys == [127, 255];
    var first := list.RemoveKey(127);
    assert Without([127, 255], 127) == [255];
    var second := list.RemoveKey(255);
    assert Without([255], 255) == [];
    size := list.Size();
    backIsNull := list.back == null;
    list.Destroy();
    leftover := list.memWatch;
  }
}
