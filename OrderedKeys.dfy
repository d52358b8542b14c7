/**
 * Ascending iteration over integer-keyed maps, as std::map iterates.
 * Every stage of the pipeline walks stations and years in this order.
 */
module OrderedKeys {

  import opened GhcnHeader

  predicate StrictlyIncreasing(xs: seq<int32>) {
    forall i, j :: 0 <= i < j < |xs| ==> xs[i] < xs[j]
  }

  /** `m` is the least element of `s`. */
  predicate IsLeast(m: int32, s: set<int32>) {
    m in s && forall x :: x in s ==> m <= x
  }

  /** Adding an element to a set with a least element: the smaller of the two is least. */
  lemma LeastOfAdded(rest: set<int32>, m: int32, x: int32)
    requires IsLeast(m, rest)
    ensures IsLeast(if x < m then x else m, rest + {x})
  {
  }

  lemma {:induction false} MinExists(s: set<int32>)
    requires s != {}
    ensures exists m :: IsLeast(m, s)
  {
    var x :| x in s;
    if s == {x} {
      assert IsLeast(x, s);
    } else {
      var rest := s - {x};
      MinExists(rest);
      var m :| IsLeast(m, rest);
      LeastOfAdded(rest, m, x);
      assert rest + {x} == s;
      assert IsLeast(if x < m then x else m, s);
    }
  }

  /** The smallest key of a non-empty set: a member (the lemma MinKeyLeast says it is the least). */
  function MinKey(s: set<int32>): (m: int32)
    requires s != {}
    ensures m in s
  {
    MinExists(s);
    var m :| IsLeast(m, s);
    m
  }

  lemma MinKeyLeast(s: set<int32>)
    requires s != {}
    ensures forall x :: x in s ==> MinKey(s) <= x
  {
    MinExists(s);
  }

  /**
   * The elements of `s` in ascending order: the order in which std::map
   * visits its keys. What the keys are, how many and in what order are
   * the lemmas below, kept out of this function's contract so that proofs
   * which walk the keys only pay for the facts they use.
   */
  function SortedKeys(s: set<int32>): seq<int32>
    decreases |s|
  {
    if s == {} then []
    else
      var m := MinKey(s);
      [m] + SortedKeys(s - {m})
  }

  /** The keys are exactly the elements of the set. */
  lemma {:induction false} SortedKeysMembers(s: set<int32>)
    ensures forall x :: x in s <==> x in SortedKeys(s)
    decreases |s|
  {
    if s != {} {
      var m := MinKey(s);
      SortedKeysMembers(s - {m});
      assert SortedKeys(s) == [m] + SortedKeys(s - {m});
    }
  }

  /** Each key comes from the set. */
  lemma SortedKeysIn(s: set<int32>, i: int)
    requires 0 <= i < |SortedKeys(s)|
    ensures SortedKeys(s)[i] in s
  {
    SortedKeysMembers(s);
    assert SortedKeys(s)[i] in SortedKeys(s);
  }

  /** There are as many keys as elements of the set. */
  lemma {:induction false} SortedKeysLength(s: set<int32>)
    ensures |SortedKeys(s)| == |s|
    decreases |s|
  {
    if s != {} {
      SortedKeysLength(s - {MinKey(s)});
    }
  }

  /**
   * The keys come out in strictly ascending order. (Kept, like the
   * length, out of the contract of SortedKeys so that loops over the keys
   * that need neither do not pay for them.)
   */
  lemma {:induction false} SortedKeysIncreasing(s: set<int32>)
    ensures StrictlyIncreasing(SortedKeys(s))
    decreases |s|
  {
    if s != {} {
      var m := MinKey(s);
      var rest := SortedKeys(s - {m});
      SortedKeysIncreasing(s - {m});
      SortedKeysMembers(s - {m});
      MinKeyLeast(s);
      assert forall x :: x in rest ==> m < x;
      var r := [m] + rest;
      assert SortedKeys(s) == r;
      forall i, j | 0 <= i < j < |r| ensures r[i] < r[j] {
        if i == 0 {
          assert r[j] == rest[j - 1];
          assert rest[j - 1] in rest;
        } else {
          assert r[i] == rest[i - 1] && r[j] == rest[j - 1];
        }
      }
    }
  }

  /** A prefix is the prefix one shorter followed by its last element. */
  lemma TakeLast<T>(xs: seq<T>, i: int)
    requires 0 < i <= |xs|
    ensures xs[..i] == xs[..i - 1] + [xs[i - 1]]
  {
  }

  /** One more element of a prefix: the prefix gains exactly that element. */
  lemma PrefixStep(xs: seq<int32>, i: int, x: int32)
    requires 0 < i <= |xs|
    ensures x in xs[..i] <==> x in xs[..i - 1] || x == xs[i - 1]
  {
    TakeLast(xs, i);
  }

  /** In an ascending sequence an element does not occur before its own position. */
  lemma NotBefore(xs: seq<int32>, i: int)
    requires StrictlyIncreasing(xs) && 0 < i <= |xs|
    ensures xs[i - 1] !in xs[..i - 1]
  {
    forall k | 0 <= k < i - 1 ensures xs[k] != xs[i - 1] {
      assert xs[k] < xs[i - 1];
    }
  }
}
