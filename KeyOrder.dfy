/**
 * The abstract value of the ordered key index: a sequence of distinct keys,
 * front first. The list operations of HashList and the recency updates of
 * LRUCache are specified by the functions here, and what they promise
 * (order kept, sizes, idempotence) is proved here once.
 */
module KeyOrder {

  /** No key occurs twice. */
  ghost predicate Distinct<K>(s: seq<K>)
  {
    forall i, j :: 0 <= i < j < |s| ==> s[i] != s[j]
  }

  /** `s` with every occurrence of `k` taken out, the other keys in their order. */
  function Without<K(==)>(s: seq<K>, k: K): seq<K>
  {
    if s == [] then []
    else if s[0] == k then Without(s[1..], k)
    else [s[0]] + Without(s[1..], k)
  }

  /** The order after `k` is pushed to the front (moved there if present). */
  function MoveToFront<K(==)>(s: seq<K>, k: K): seq<K>
  {
    [k] + Without(s, k)
  }

  /** The order after `k` is pushed to the back (moved there if present). */
  function MoveToBack<K(==)>(s: seq<K>, k: K): seq<K>
  {
    Without(s, k) + [k]
  }

  function Reverse<K>(s: seq<K>): (r: seq<K>)
    ensures |r| == |s|
  {
    if s == [] then [] else Reverse(s[1..]) + [s[0]]
  }

  /** `p` is the first part of `s`. */
  ghost predicate IsPrefix<K>(p: seq<K>, s: seq<K>)
  {
    |p| <= |s| && s[..|p|] == p
  }

  /** Taking `k` out leaves exactly the other keys. */
  lemma {:induction false} WithoutMembers<K>(s: seq<K>, k: K)
    ensures forall x :: x in Without(s, k) <==> x in s && x != k
    ensures |Without(s, k)| <= |s|
  {
    if s != [] {
      WithoutMembers(s[1..], k);
      assert s == [s[0]] + s[1..];
    }
  }

  /**
   * Position by position: each key of `Without(s, k)` is a key of `s` other
   * than `k`. (Stated over indices, so that it applies to keys read out of the
   * result, whatever the key type.)
   */
  lemma {:induction false} WithoutFrom<K>(s: seq<K>, k: K)
    ensures forall j :: 0 <= j < |Without(s, k)| ==> Without(s, k)[j] in s && Without(s, k)[j] != k
  {
    if s != [] {
      WithoutFrom(s[1..], k);
      var w := Without(s[1..], k);
      assert s == [s[0]] + s[1..];
      forall j | 0 <= j < |Without(s, k)| ensures Without(s, k)[j] in s && Without(s, k)[j] != k {
        if s[0] == k {
          assert Without(s, k)[j] == w[j] && w[j] in s[1..];
        } else if j > 0 {
          assert Without(s, k)[j] == w[j - 1] && w[j - 1] in s[1..];
        }
      }
    }
  }

  /** Every key behind the front of `MoveToFront(s, k)` is a key of `s` other than `k`. */
  lemma MoveToFrontRest<K>(s: seq<K>, k: K)
    ensures forall i :: 1 <= i < |MoveToFront(s, k)| ==> MoveToFront(s, k)[i] in s && MoveToFront(s, k)[i] != k
  {
    WithoutFrom(s, k);
    forall i | 1 <= i < |MoveToFront(s, k)| ensures MoveToFront(s, k)[i] in s && MoveToFront(s, k)[i] != k {
      assert MoveToFront(s, k)[i] == Without(s, k)[i - 1];
    }
  }

  /** A sequence of distinct keys has as many members as positions. */
  lemma {:induction false} DistinctCard<K>(s: seq<K>)
    requires Distinct(s)
    ensures |set x | x in s| == |s|
  {
    if s != [] {
      var rest := s[1..];
      assert Distinct(rest) by {
        forall i, j | 0 <= i < j < |rest| ensures rest[i] != rest[j] {
          assert rest[i] == s[i + 1] && rest[j] == s[j + 1];
        }
      }
      DistinctCard(rest);
      assert s[0] !in rest by {
        forall i | 0 <= i < |rest| ensures rest[i] != s[0] {
          assert rest[i] == s[i + 1];
        }
      }
      assert (set x | x in s) == {s[0]} + (set x | x in rest) by {
        assert s == [s[0]] + rest;
      }
    }
  }

  /** A subset has no more members than its superset. */
  lemma {:induction false} SubsetCard<K>(a: set<K>, b: set<K>)
    requires a <= b
    ensures |a| <= |b|
  {
    if a != {} {
      var x :| x in a;
      SubsetCard(a - {x}, b - {x});
    }
  }

  /** A prefix of a sequence of distinct keys is distinct. */
  lemma DistinctPrefix<K>(s: seq<K>, n: nat)
    requires Distinct(s) && n <= |s|
    ensures Distinct(s[..n])
  {
    var p := s[..n];
    forall i, j | 0 <= i < j < |p| ensures p[i] != p[j] {
      assert p[i] == s[i] && p[j] == s[j];
    }
  }

  /** Taking out an absent key changes nothing. */
  lemma {:induction false} WithoutAbsent<K>(s: seq<K>, k: K)
    requires k !in s
    ensures Without(s, k) == s
  {
    if s != [] {
      WithoutAbsent(s[1..], k);
      assert s == [s[0]] + s[1..];
    }
  }

  /** In a sequence of distinct keys, taking out the key at position i splices it out. */
  lemma {:induction false} WithoutAt<K>(s: seq<K>, i: nat)
    requires Distinct(s) && i < |s|
    ensures Without(s, s[i]) == s[..i] + s[i + 1..]
  {
    if i == 0 {
      WithoutAbsent(s[1..], s[0]);
    } else {
      WithoutAt(s[1..], i - 1);
      assert s[1..][i - 1] == s[i];
      assert s[1..][..i - 1] == s[1..i];
      assert s[1..][i - 1 + 1..] == s[i + 1..];
      assert s[..i] == [s[0]] + s[1..i];
    }
  }

  /** Splicing one key out of a distinct sequence leaves it distinct. */
  lemma SpliceDistinct<K>(s: seq<K>, i: nat)
    requires Distinct(s) && i < |s|
    ensures Distinct(s[..i] + s[i + 1..])
    ensures forall x :: x in s[..i] + s[i + 1..] <==> x in s && x != s[i]
  {
    var t := s[..i] + s[i + 1..];
    forall a, b | 0 <= a < b < |t| ensures t[a] != t[b] {
      var a' := if a < i then a else a + 1;
      var b' := if b < i then b else b + 1;
      assert t[a] == s[a'] && t[b] == s[b'];
    }
    forall x ensures x in t <==> x in s && x != s[i] {
      if x in t {
        var a :| 0 <= a < |t| && t[a] == x;
        assert x == s[if a < i then a else a + 1];
      }
      if x in s && x != s[i] {
        var a :| 0 <= a < |s| && s[a] == x;
        assert x == t[if a < i then a else a - 1];
      }
    }
  }

  /** Taking a key out of a distinct sequence keeps it distinct and shortens it by one if present. */
  lemma WithoutDistinct<K>(s: seq<K>, k: K)
    requires Distinct(s)
    ensures Distinct(Without(s, k))
    ensures k in s ==> |Without(s, k)| == |s| - 1
    ensures k !in s ==> Without(s, k) == s
  {
    if k in s {
      var i :| 0 <= i < |s| && s[i] == k;
      WithoutAt(s, i);
      SpliceDistinct(s, i);
    } else {
      WithoutAbsent(s, k);
    }
  }

  /**
   * Pushing to the front: the key becomes the front, the keys stay distinct,
   * the length grows by one exactly when the key was absent, and every other
   * key keeps its relative order.
   */
  lemma MoveToFrontFacts<K>(s: seq<K>, k: K)
    requires Distinct(s)
    ensures MoveToFront(s, k)[0] == k
    ensures Distinct(MoveToFront(s, k))
    ensures |MoveToFront(s, k)| == if k in s then |s| else |s| + 1
    ensures forall x :: x in MoveToFront(s, k) <==> x in s || x == k
    ensures Without(MoveToFront(s, k), k) == Without(s, k)
  {
    WithoutDistinct(s, k);
    WithoutMembers(s, k);
    var t := MoveToFront(s, k);
    assert t[1..] == Without(s, k);
    WithoutAbsent(Without(s, k), k);
  }

  /** Pushing the key that is already in front leaves the order unchanged. */
  lemma MoveToFrontOfFront<K>(s: seq<K>)
    requires Distinct(s) && s != []
    ensures MoveToFront(s, s[0]) == s
  {
    WithoutAt(s, 0);
  }

  /**
   * Pushing to the back: the key becomes the back, the keys stay distinct,
   * the length grows by one exactly when the key was absent, and every other
   * key keeps its relative order.
   */
  lemma MoveToBackFacts<K>(s: seq<K>, k: K)
    requires Distinct(s)
    ensures MoveToBack(s, k)[|MoveToBack(s, k)| - 1] == k
    ensures Distinct(MoveToBack(s, k))
    ensures |MoveToBack(s, k)| == if k in s then |s| else |s| + 1
    ensures forall x :: x in MoveToBack(s, k) <==> x in s || x == k
    ensures Without(MoveToBack(s, k), k) == Without(s, k)
  {
    WithoutDistinct(s, k);
    WithoutMembers(s, k);
    var w := Without(s, k);
    WithoutAppend(w, [k], k);
    WithoutAbsent(w, k);
    assert Without([k], k) == [];
  }

  /** Pushing the key that is already at the back leaves the order unchanged. */
  lemma MoveToBackOfBack<K>(s: seq<K>)
    requires Distinct(s) && s != []
    ensures MoveToBack(s, s[|s| - 1]) == s
  {
    WithoutAt(s, |s| - 1);
    assert s[..|s| - 1] + [s[|s| - 1]] == s;
  }

  /** Taking a key out distributes over concatenation. */
  lemma {:induction false} WithoutAppend<K>(a: seq<K>, b: seq<K>, k: K)
    ensures Without(a + b, k) == Without(a, k) + Without(b, k)
  {
    if a == [] {
      assert a + b == b;
    } else {
      WithoutAppend(a[1..], b, k);
      assert (a + b)[1..] == a[1..] + b;
      assert (a + b)[0] == a[0];
    }
  }

  /** Reversal distributes over concatenation, swapping the parts. */
  lemma {:induction false} ReverseAppend<K>(a: seq<K>, b: seq<K>)
    ensures Reverse(a + b) == Reverse(b) + Reverse(a)
  {
    if a == [] {
      assert a + b == b;
    } else {
      ReverseAppend(a[1..], b);
      assert (a + b)[1..] == a[1..] + b;
      assert (a + b)[0] == a[0];
    }
  }

  /** Reversing `s` in front of `d` is reversing its tail in front of its head and `d`. */
  lemma ReverseInFront<K>(s: seq<K>, d: seq<K>)
    requires s != []
    ensures Reverse(s) + d == Reverse(s[1..]) + ([s[0]] + d)
  {
    assert (Reverse(s[1..]) + [s[0]]) + d == Reverse(s[1..]) + ([s[0]] + d);
  }

  /** Position k of a reversal is position |s| - 1 - k of the original. */
  lemma {:induction false} ReverseAt<K>(s: seq<K>, k: nat)
    requires k < |s|
    ensures Reverse(s)[k] == s[|s| - 1 - k]
  {
    if k < |s| - 1 {
      ReverseAt(s[1..], k);
    }
  }

  /**
   * Pushing a key that is not in the prefix `p` to the front keeps `k` followed
   * by `p` at the front; cutting off the last key afterwards keeps it too as
   * long as the sequence is longer than that prefix. This is the step that
   * keeps the chunks of one traversal at the front of the cache.
   */
  lemma {:induction false} PrefixAfterMoveToFront<K>(p: seq<K>, s: seq<K>, k: K, cut: bool)
    requires IsPrefix(p, s) && k !in p
    requires cut ==> |p| + 1 < |MoveToFront(s, k)|
    ensures var t := MoveToFront(s, k);
            IsPrefix([k] + p, if cut then t[..|t| - 1] else t)
  {
    WithoutAppend(p, s[|p|..], k);
    assert s == p + s[|p|..];
    WithoutAbsent(p, k);
    var t := MoveToFront(s, k);
    assert t == [k] + p + Without(s[|p|..], k);
    assert t[..|p| + 1] == [k] + p;
    if cut {
      assert t[..|t| - 1][..|p| + 1] == t[..|p| + 1];
    }
  }

  /** Two distinct sequences with no key in common concatenate to a distinct sequence. */
  lemma DistinctAppend<K>(a: seq<K>, b: seq<K>)
    requires Distinct(a) && Distinct(b)
    requires forall k :: k in a ==> k !in b
    ensures Distinct(a + b)
  {
    var c := a + b;
    forall i, j | 0 <= i < j < |c| ensures c[i] != c[j] {
      if j < |a| {
        assert c[i] == a[i] && c[j] == a[j];
      } else if i >= |a| {
        assert c[i] == b[i - |a|] && c[j] == b[j - |a|];
      } else {
        assert c[i] == a[i] && a[i] in a && c[j] == b[j - |a|];
      }
    }
  }

  /** Both parts of a distinct concatenation are distinct, and they share no key. */
  lemma DistinctParts<K>(a: seq<K>, b: seq<K>)
    requires Distinct(a + b)
    ensures Distinct(a) && Distinct(b)
    ensures forall k :: k in a ==> k !in b
  {
    var c := a + b;
    forall i, j | 0 <= i < j < |a| ensures a[i] != a[j] {
      assert a[i] == c[i] && a[j] == c[j];
    }
    forall i, j | 0 <= i < j < |b| ensures b[i] != b[j] {
      assert b[i] == c[i + |a|] && b[j] == c[j + |a|];
    }
    forall k | k in a ensures k !in b {
      var i :| 0 <= i < |a| && a[i] == k;
      forall j | 0 <= j < |b| ensures b[j] != k {
        assert c[i] == k && c[j + |a|] == b[j];
      }
    }
  }
}
