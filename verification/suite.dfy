/**
 * The behaviour the test suite of the relation asserts, stated for every shape and every
 * set of entries instead of sampled ones.  Each test function becomes a method that runs
 * the same operations on the model and returns whether every assertion of the test holds;
 * its postcondition is that they all do.  `Entries()` plays the part of `frozenset(rel)`.
 */
module RelSuite {
  import opened Common
  import opened Codec
  import opened RelEngine

  /** `entries` is what `sorted(frozenset)` yields: strictly increasing lexicographically. */
  predicate SortedEntries(entries: seq<Entry>)
  {
    forall j, k | 0 <= j < k < |entries| :: LexLess(entries[j], entries[k])
  }

  /** The checks the suite repeats on every relation it builds from `entryset`. */
  predicate Represents(rel: Rel, shape: Shape, entryset: set<Entry>, allEntries: set<Entry>)
    reads rel
    requires rel.Valid()
  {
    && rel.shape == shape
    && rel.Cardinality() == |entryset|
    && rel.Entries() == entryset
    && (forall e | e in entryset :: rel.Contains(e) == Success(true))
    && (forall e | e in allEntries - entryset :: rel.Contains(e) == Success(false))
    && (forall e | e in allEntries :: ValidEntry(rel.shape, e))
  }

  /** Represents holds of any relation whose shape and entries are the expected ones. */
  lemma RepresentsEntries(rel: Rel, shape: Shape, entryset: set<Entry>)
    requires rel.Valid() && rel.shape == shape && rel.Entries() == entryset
    ensures Represents(rel, shape, entryset, SetOf(IterEntries(shape)))
  {
    IterEntriesIndexed(shape);
  }

  /** test_constructor. */
  method TestConstructor(shape: Shape, entries: seq<Entry>) returns (passed: bool)
    requires AllValid(shape, SetOf(entries))
    ensures passed
  {
    var entryset := SetOf(entries);
    var allEntries := SetOf(IterEntries(shape));
    var built := Rel.FromEntries(shape, entries);
    var rel := built.value;
    RepresentsEntries(rel, shape, entryset);
    var iterated := rel.Iterate();
    var rejected := Rel.FromIndices(shape, {TotalSize(shape)});
    passed :=
      && Represents(rel, shape, entryset, allEntries)
      && SetOf(iterated) == entryset
      && |iterated| == |entryset|
      && rejected == Failure(DomainError);
  }

  /** test_copy: copy(), the copy constructor and the raw-index-set constructor. */
  method TestCopy(shape: Shape, entries: seq<Entry>) returns (passed: bool)
    requires AllValid(shape, SetOf(entries))
    ensures passed
  {
    var entryset := SetOf(entries);
    var allEntries := SetOf(IterEntries(shape));
    var built := Rel.FromEntries(shape, entries);
    var rel := built.value;
    var copy1 := rel.Copy();
    var copied := Rel.FromRel(shape, rel);
    var copy2 := copied.value;
    var adopted := Rel.FromIndices(shape, rel.data);
    var copy3 := adopted.value;
    RepresentsEntries(copy1, shape, entryset);
    RepresentsEntries(copy2, shape, entryset);
    RepresentsEntries(copy3, shape, entryset);
    passed :=
      && Represents(copy1, shape, entryset, allEntries) && rel.Equals(copy1)
      && Represents(copy2, shape, entryset, allEntries) && rel.Equals(copy2)
      && Represents(copy3, shape, entryset, allEntries) && rel.Equals(copy3);
  }

  /** test_invert. */
  method TestInvert(shape: Shape, entries: seq<Entry>) returns (passed: bool)
    requires AllValid(shape, SetOf(entries))
    ensures passed
  {
    var entryset := SetOf(entries);
    var allEntries := SetOf(IterEntries(shape));
    IterEntriesIndexed(shape);
    var built := Rel.FromEntries(shape, entries);
    var rel := built.value;
    var inverse := rel.Complement();
    RepresentsEntries(inverse, shape, allEntries - entryset);
    passed := Represents(inverse, shape, allEntries - entryset, allEntries);
  }

  /** test_binops: the allocating &, |, ^ and -. */
  method TestBinops(shape: Shape, lhsEntries: seq<Entry>, rhsEntries: seq<Entry>) returns (passed: bool)
    requires AllValid(shape, SetOf(lhsEntries)) && AllValid(shape, SetOf(rhsEntries))
    ensures passed
  {
    var lhsSet, rhsSet := SetOf(lhsEntries), SetOf(rhsEntries);
    var lhsBuilt := Rel.FromEntries(shape, lhsEntries);
    var rhsBuilt := Rel.FromEntries(shape, rhsEntries);
    var lhs, rhs := lhsBuilt.value, rhsBuilt.value;
    var both := lhs.Intersection(rhs);
    var either := lhs.Union(rhs);
    var one := lhs.SymmetricDiff(rhs);
    var left := lhs.Difference(rhs);
    passed :=
      && both.Success? && both.value.Entries() == lhsSet * rhsSet
      && either.Success? && either.value.Entries() == lhsSet + rhsSet
      && one.Success? && one.value.Entries() == SymmetricDifference(lhsSet, rhsSet)
      && left.Success? && left.value.Entries() == lhsSet - rhsSet;
  }

  /** The four binary operators of the suite, for the checks it repeats per operator. */
  datatype BinOp = And | Or | Xor | Sub

  /** The operator on Python sets: &, |, ^ and -. */
  function Apply<T>(op: BinOp, a: set<T>, b: set<T>): set<T>
  {
    match op
    case And => a * b
    case Or => a + b
    case Xor => SymmetricDifference(a, b)
    case Sub => a - b
  }

  /** `res = lhs.copy(); _res = res; res op= rhs; assert res is _res and frozenset(_res) == lhs op rhs`. */
  method InPlaceCase(lhs: Rel, rhs: Rel, op: BinOp) returns (ok: bool)
    requires lhs.Valid() && rhs.Valid() && lhs.shape == rhs.shape
    ensures ok
  {
    var res := lhs.Copy();
    var alias := res;
    var returned: Result<Rel>;
    match op {
      case And => returned := res.InPlaceIntersection(rhs);
      case Or => returned := res.InPlaceUnion(rhs);
      case Xor => returned := res.InPlaceSymmetricDiff(rhs);
      case Sub => returned := res.InPlaceDifference(rhs);
    }
    ok := returned == Success(alias) && alias.Entries() == Apply(op, lhs.Entries(), rhs.Entries());
  }

  /** test_inplace_binops: &=, |=, ^= and -= mutate and return the receiver itself. */
  method TestInplaceBinops(shape: Shape, lhsEntries: seq<Entry>, rhsEntries: seq<Entry>) returns (passed: bool)
    requires AllValid(shape, SetOf(lhsEntries)) && AllValid(shape, SetOf(rhsEntries))
    ensures passed
  {
    var lhsBuilt := Rel.FromEntries(shape, lhsEntries);
    var rhsBuilt := Rel.FromEntries(shape, rhsEntries);
    var lhs, rhs := lhsBuilt.value, rhsBuilt.value;
    var ok1 := InPlaceCase(lhs, rhs, And);
    var ok2 := InPlaceCase(lhs, rhs, Or);
    var ok3 := InPlaceCase(lhs, rhs, Xor);
    var ok4 := InPlaceCase(lhs, rhs, Sub);
    passed := ok1 && ok2 && ok3 && ok4;
  }

  /** `res = lhs.copy(); _res = res; res.<op>_update(rhs); assert res is _res and frozenset(_res) == lhs op rhs`. */
  method UpdateCase(lhs: Rel, rhsEntries: seq<Entry>, op: BinOp) returns (ok: bool)
    requires lhs.Valid() && AllValid(lhs.shape, SetOf(rhsEntries)) && op != And
    ensures ok
  {
    var res := lhs.Copy();
    var alias := res;
    var outcome: Outcome;
    match op {
      case Or => outcome := res.Update(rhsEntries);
      case Xor => outcome := res.SymmetricDifferenceUpdate(rhsEntries);
      case Sub => outcome := res.DifferenceUpdate(rhsEntries);
    }
    ok := outcome == Pass && res == alias && alias.Entries() == Apply(op, lhs.Entries(), SetOf(rhsEntries));
  }

  /** test_inplace_updates: update, symmetric_difference_update and difference_update. */
  method TestInplaceUpdates(shape: Shape, lhsEntries: seq<Entry>, rhsEntries: seq<Entry>) returns (passed: bool)
    requires AllValid(shape, SetOf(lhsEntries)) && AllValid(shape, SetOf(rhsEntries))
    ensures passed
  {
    var lhsBuilt := Rel.FromEntries(shape, lhsEntries);
    var lhs := lhsBuilt.value;
    var ok1 := UpdateCase(lhs, rhsEntries, Or);
    var ok2 := UpdateCase(lhs, rhsEntries, Xor);
    var ok3 := UpdateCase(lhs, rhsEntries, Sub);
    passed := ok1 && ok2 && ok3;
  }

  /** The loop `for entry in sorted(rhs): res.add(entry)`; `ok` says that no call raised. */
  method AddEach(res: Rel, entries: seq<Entry>) returns (ok: bool)
    requires res.Valid() && AllValid(res.shape, SetOf(entries))
    modifies res
    ensures res.Valid() && res.Entries() == old(res.Entries()) + SetOf(entries)
    ensures ok
  {
    ghost var start := res.Entries();
    ok := true;
    var k := 0;
    while k < |entries|
      invariant 0 <= k <= |entries|
      invariant res.Valid() && res.Entries() == start + SetOf(entries[..k])
      invariant ok
    {
      assert entries[k] in SetOf(entries);
      var outcome := res.Add(entries[k]);
      ok := ok && outcome == Pass;
      SetOfPrefix(entries, k);
      k := k + 1;
    }
    assert entries[..k] == entries;
  }

  /** The loop `for entry in sorted(rhs): res.flip(entry)`; `ok` says that no call raised. */
  method FlipEach(res: Rel, entries: seq<Entry>) returns (ok: bool)
    requires res.Valid() && AllValid(res.shape, SetOf(entries)) && SortedEntries(entries)
    modifies res
    ensures res.Valid() && res.Entries() == SymmetricDifference(old(res.Entries()), SetOf(entries))
    ensures ok
  {
    ghost var start := res.Entries();
    ok := true;
    var k := 0;
    while k < |entries|
      invariant 0 <= k <= |entries|
      invariant res.Valid() && res.Entries() == SymmetricDifference(start, SetOf(entries[..k]))
      invariant ok
    {
      assert entries[k] in SetOf(entries);
      assert entries[k] !in SetOf(entries[..k]) by {
        forall j | 0 <= j < k
          ensures entries[j] != entries[k]
        {
          LexIrreflexive(entries[k]);
        }
      }
      var outcome := res.Flip(entries[k]);
      ok := ok && outcome == Pass;
      SetOfPrefix(entries, k);
      k := k + 1;
    }
    assert entries[..k] == entries;
  }

  /**
   * The loop `for entry in sorted(rhs)`: remove members, which must not raise; for
   * non-members, remove must raise KeyError.  `ok` says that every call behaved so.
   */
  method RemoveEach(res: Rel, entries: seq<Entry>) returns (ok: bool)
    requires res.Valid() && AllValid(res.shape, SetOf(entries))
    modifies res
    ensures res.Valid() && res.Entries() == old(res.Entries()) - SetOf(entries)
    ensures ok
  {
    ghost var start := res.Entries();
    ok := true;
    var k := 0;
    while k < |entries|
      invariant 0 <= k <= |entries|
      invariant res.Valid() && res.Entries() == start - SetOf(entries[..k])
      invariant ok
    {
      assert entries[k] in SetOf(entries);
      var present := res.Contains(entries[k]);
      var outcome := res.Remove(entries[k]);
      if present.value {
        ok := ok && outcome == Pass;
      } else {
        ok := ok && outcome == Fail(KeyNotFound);
      }
      SetOfPrefix(entries, k);
      k := k + 1;
    }
    assert entries[..k] == entries;
  }

  /** One loop of test_inplace_entrywise_update on a fresh copy of `lhs`: add, flip or remove. */
  method EntrywiseCase(lhs: Rel, rhsSorted: seq<Entry>, op: BinOp) returns (ok: bool)
    requires lhs.Valid() && AllValid(lhs.shape, SetOf(rhsSorted)) && SortedEntries(rhsSorted)
    requires op != And
    ensures ok
  {
    var res := lhs.Copy();
    var alias := res;
    var noneFailed: bool;
    match op {
      case Or => noneFailed := AddEach(res, rhsSorted);
      case Xor => noneFailed := FlipEach(res, rhsSorted);
      case Sub => noneFailed := RemoveEach(res, rhsSorted);
    }
    ok := noneFailed && res == alias && alias.Entries() == Apply(op, lhs.Entries(), SetOf(rhsSorted));
  }

  /** test_inplace_entrywise_update: add, flip and remove one entry at a time. */
  method TestInplaceEntrywiseUpdate(shape: Shape, lhsEntries: seq<Entry>, rhsSorted: seq<Entry>)
    returns (passed: bool)
    requires AllValid(shape, SetOf(lhsEntries)) && AllValid(shape, SetOf(rhsSorted))
    requires SortedEntries(rhsSorted)
    ensures passed
  {
    var lhsBuilt := Rel.FromEntries(shape, lhsEntries);
    var lhs := lhsBuilt.value;
    var ok1 := EntrywiseCase(lhs, rhsSorted, Or);
    var ok2 := EntrywiseCase(lhs, rhsSorted, Xor);
    var ok3 := EntrywiseCase(lhs, rhsSorted, Sub);
    passed := ok1 && ok2 && ok3;
  }

  /** The first two lines of test_containment: every relation lies between empty and full. */
  method BoundsCase(shape: Shape, lhs: Rel, rhs: Rel) returns (ok: bool)
    requires lhs.Valid() && rhs.Valid() && lhs.shape == shape && rhs.shape == shape
    ensures ok
  {
    var empty := new Rel.Empty(shape);
    IterEntriesIndexed(shape);
    var fullBuilt := Rel.FromEntries(shape, IterEntries(shape));
    var full := fullBuilt.value;
    assert lhs.Entries() <= full.Entries() && rhs.Entries() <= full.Entries();
    ok :=
      && empty.IsSubset(lhs) == Success(true) && empty.IsSubset(rhs) == Success(true)
      && lhs.IsSubset(full) == Success(true) && rhs.IsSubset(full) == Success(true);
  }

  /** The last three lines of test_containment: the results of &, | and - against their operands. */
  method OperandsCase(lhs: Rel, rhs: Rel) returns (ok: bool)
    requires lhs.Valid() && rhs.Valid() && lhs.shape == rhs.shape
    ensures ok
  {
    var both := lhs.Intersection(rhs);
    var either := lhs.Union(rhs);
    var meet, join := both.value, either.value;
    var ok1 := meet.IsSubset(lhs) == Success(true) && meet.IsSubset(rhs) == Success(true);
    var ok2 := lhs.IsSubset(join) == Success(true) && rhs.IsSubset(join) == Success(true);
    var lhsOnly := lhs.Difference(rhs);
    var rhsOnly := rhs.Difference(lhs);
    var ok3 := lhsOnly.value.IsSubset(lhs) == Success(true) && rhsOnly.value.IsSubset(rhs) == Success(true);
    ok := ok1 && ok2 && ok3;
  }

  /** test_containment: the subset laws checked with <=. */
  method TestContainment(shape: Shape, lhsEntries: seq<Entry>, rhsEntries: seq<Entry>) returns (passed: bool)
    requires AllValid(shape, SetOf(lhsEntries)) && AllValid(shape, SetOf(rhsEntries))
    ensures passed
  {
    var lhsBuilt := Rel.FromEntries(shape, lhsEntries);
    var rhsBuilt := Rel.FromEntries(shape, rhsEntries);
    var lhs, rhs := lhsBuilt.value, rhsBuilt.value;
    var ok1 := BoundsCase(shape, lhs, rhs);
    var ok2 := OperandsCase(lhs, rhs);
    passed := ok1 && ok2;
  }
}
