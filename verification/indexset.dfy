/**
 * The compressed 64-bit integer set the relation stores its indices in, abstracted as a
 * finite set of naturals; its native union, intersection, difference and symmetric
 * difference are Dafny's set operations.  What remains to model is its ascending iteration.
 */
module IndexSet {
  import opened Common

  /** `m` is the least element of `s`. */
  predicate IsLeast(m: nat, s: set<nat>)
  {
    m in s && forall i | i in s :: m <= i
  }

  /** Every non-empty set of naturals has a least element. */
  lemma {:induction false} HasMinimum(s: set<nat>)
    requires s != {}
    ensures exists m :: IsLeast(m, s)
    decreases s
  {
    var x :| x in s;
    if s == {x} {
      assert IsLeast(x, s);
    } else {
      HasMinimum(s - {x});
      var m :| IsLeast(m, s - {x});
      var least := if x < m then x else m;
      forall i | i in s
        ensures least <= i
      {
        if i != x {
          assert i in s - {x};
        }
      }
      assert IsLeast(least, s);
    }
  }

  /** Strictly increasing, hence without repetition. */
  predicate Increasing(s: seq<nat>)
  {
    forall j, k | 0 <= j < k < |s| :: s[j] < s[k]
  }

  /** The state of an ascending iteration: `order` lists s - rest, increasing, below all of rest. */
  predicate AscendingPrefix(s: set<nat>, order: seq<nat>, rest: set<nat>)
  {
    && rest <= s
    && |order| + |rest| == |s|
    && SetOf(order) == s - rest
    && Increasing(order)
    && forall k, i | 0 <= k < |order| && i in rest :: order[k] < i
  }

  /** Appending an element above every element keeps a sequence increasing. */
  lemma IncreasingSnoc(order: seq<nat>, m: nat)
    requires Increasing(order)
    requires forall k | 0 <= k < |order| :: order[k] < m
    ensures Increasing(order + [m])
  {
    var next := order + [m];
    forall j, k | 0 <= j < k < |next|
      ensures next[j] < next[k]
    {
      assert next[j] == order[j];
    }
  }

  /** Emitting the least remaining element keeps the iteration ascending. */
  lemma AscendingStep(s: set<nat>, order: seq<nat>, rest: set<nat>, m: nat)
    requires AscendingPrefix(s, order, rest) && IsLeast(m, rest)
    ensures AscendingPrefix(s, order + [m], rest - {m})
  {
    var next := order + [m];
    assert forall k | 0 <= k < |order| :: order[k] < m;
    IncreasingSnoc(order, m);
    assert SetOf(next) == SetOf(order) + {m};
    forall k, i | 0 <= k < |next| && i in rest - {m}
      ensures next[k] < i
    {
      if k < |order| {
        assert next[k] == order[k];
      }
    }
  }

  /** Ascending iteration over the set: every element exactly once, in increasing order. */
  method AscendingIndices(s: set<nat>) returns (order: seq<nat>)
    ensures SetOf(order) == s && |order| == |s|
    ensures forall k | 0 <= k < |order| :: order[k] in s
    ensures Increasing(order)
  {
    order := [];
    var rest := s;
    while rest != {}
      invariant AscendingPrefix(s, order, rest)
      decreases |rest|
    {
      HasMinimum(rest);
      var m :| IsLeast(m, rest);
      AscendingStep(s, order, rest, m);
      order, rest := order + [m], rest - {m};
    }
    assert forall k | 0 <= k < |order| :: order[k] in SetOf(order);
  }
}
