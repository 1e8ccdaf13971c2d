/**
 * The shape/entry model and the index codec of a relation.
 *
 * A shape (d0, ..., d{k-1}) defines a universe of entries: tuples whose component i
 * lies in [0, d_i).  Each entry is flattened row-major (last coordinate varying fastest)
 * to a linear index in [0, prod(shape)); the relation stores these indices.
 */
module Codec {
  import opened Common

  /** Per-dimension sizes; the arity is the length. */
  type Shape = seq<nat>

  /** One candidate member of a relation: one coordinate per dimension. */
  type Entry = seq<int>

  /** prod(shape), the number of entries in the universe; the empty product is 1. */
  function TotalSize(shape: Shape): nat
  {
    if |shape| == 0 then 1 else shape[0] * TotalSize(shape[1..])
  }

  /** An entry belongs to the universe of `shape`: right arity, every component in range. */
  predicate ValidEntry(shape: Shape, entry: Entry)
  {
    |entry| == |shape| && forall i | 0 <= i < |shape| :: 0 <= entry[i] < shape[i]
  }

  /** validate_entry: checks the arity and every component in one pass; DomainError otherwise. */
  method ValidateEntry(shape: Shape, entry: Entry) returns (r: Outcome)
    ensures r.Pass? <==> ValidEntry(shape, entry)
    ensures r.Fail? ==> r.error == DomainError
  {
    if |entry| != |shape| {
      return Fail(DomainError);
    }
    var i := 0;
    while i < |shape|
      invariant 0 <= i <= |shape|
      invariant forall j | 0 <= j < i :: 0 <= entry[j] < shape[j]
    {
      if !(0 <= entry[i] < shape[i]) {
        return Fail(DomainError);
      }
      i := i + 1;
    }
    return Pass;
  }

  // ---------------------------------------------------------------------------
  // Arithmetic facts about one mixed-radix digit

  lemma MulMonotone(a: int, b: int, c: nat)
    requires a <= b
    ensures a * c <= b * c
  {}

  lemma DigitBound(digit: int, base: nat, rest: int, weight: nat)
    requires 0 <= digit < base && 0 <= rest < weight
    ensures 0 <= digit * weight + rest < base * weight
  {
    MulMonotone(0, digit, weight);
    MulMonotone(digit + 1, base, weight);
  }

  lemma QuotientBound(index: nat, outer: nat, size: nat)
    requires index < outer * size
    ensures size > 0 && index / size < outer
  {
    if size > 0 && index / size >= outer {
      MulMonotone(outer, index / size, size);
      assert false;
    }
  }

  lemma DivModDigit(high: int, size: nat, digit: int)
    requires 0 <= digit < size
    ensures (high * size + digit) / size == high
    ensures (high * size + digit) % size == digit
  {
    var n := high * size + digit;
    var q, r := n / size, n % size;
    assert n == q * size + r;
    if q < high {
      MulMonotone(q + 1, high, size);
      assert false;
    } else if q > high {
      MulMonotone(high + 1, q, size);
      assert false;
    }
  }

  lemma DivModSplit(index: nat, size: nat)
    requires size > 0
    ensures index == (index / size) * size + index % size
  {}

  /** Regrouping one Horner step: d * (a * s) + (b * s + x) == (d * a + b) * s + x. */
  lemma Regroup(d: int, a: int, b: int, s: int, x: int)
    ensures d * (a * s) + (b * s + x) == (d * a + b) * s + x
  {}

  // ---------------------------------------------------------------------------
  // The codec

  /**
   * encode(entry) = sum of entry[i] * w_i, where the weight w_i is the product of the
   * sizes after dimension i (row-major, last coordinate varying fastest).
   */
  function Encode(shape: Shape, entry: Entry): (index: nat)
    requires ValidEntry(shape, entry)
    ensures index < TotalSize(shape)
  {
    if |shape| == 0 then 0
    else
      assert ValidEntry(shape[1..], entry[1..]);
      var weight := TotalSize(shape[1..]);
      var rest := Encode(shape[1..], entry[1..]);
      DigitBound(entry[0], shape[0], rest, weight);
      entry[0] * weight + rest
  }

  lemma {:induction false} TotalSizeSnoc(shape: Shape)
    requires |shape| > 0
    ensures TotalSize(shape) == TotalSize(shape[..|shape| - 1]) * shape[|shape| - 1]
  {
    var n := |shape|;
    if n == 1 {
      assert shape[..0] == [];
    } else {
      TotalSizeSnoc(shape[1..]);
      assert shape[1..][..n - 2] == shape[..n - 1][1..];
      var a := TotalSize(shape[..n - 1][1..]);
      calc {
        TotalSize(shape);
        shape[0] * TotalSize(shape[1..]);
        shape[0] * (a * shape[n - 1]);
        (shape[0] * a) * shape[n - 1];
        TotalSize(shape[..n - 1]) * shape[n - 1];
      }
    }
  }

  /**
   * decode(index): the coordinates are recovered by successive division and remainder
   * by the dimension sizes, from the last dimension to the first.
   */
  function Decode(shape: Shape, index: nat): (entry: Entry)
    requires index < TotalSize(shape)
    ensures ValidEntry(shape, entry)
  {
    if |shape| == 0 then []
    else
      var n := |shape|;
      var size := shape[n - 1];
      TotalSizeSnoc(shape);
      QuotientBound(index, TotalSize(shape[..n - 1]), size);
      Decode(shape[..n - 1], index / size) + [index % size]
  }

  /** The weighted sum seen from the last dimension: Horner's rule. */
  lemma {:induction false} EncodeSnoc(shape: Shape, entry: Entry)
    requires ValidEntry(shape, entry) && |shape| > 0
    ensures ValidEntry(shape[..|shape| - 1], entry[..|shape| - 1])
    ensures Encode(shape, entry)
         == Encode(shape[..|shape| - 1], entry[..|shape| - 1]) * shape[|shape| - 1] + entry[|shape| - 1]
  {
    var n := |shape|;
    assert ValidEntry(shape[..n - 1], entry[..n - 1]);
    if n == 1 {
      assert shape[..0] == [] && entry[..0] == [];
    } else {
      var tailShape, tailEntry := shape[1..], entry[1..];
      assert ValidEntry(tailShape, tailEntry);
      EncodeSnoc(tailShape, tailEntry);
      TotalSizeSnoc(tailShape);
      assert tailShape[..n - 2] == shape[..n - 1][1..];
      assert tailEntry[..n - 2] == entry[..n - 1][1..];
      var size := shape[n - 1];
      var a := TotalSize(tailShape[..n - 2]);
      var b := Encode(tailShape[..n - 2], tailEntry[..n - 2]);
      Regroup(entry[0], a, b, size, entry[n - 1]);
      assert Encode(shape[..n - 1], entry[..n - 1]) == entry[0] * a + b;
    }
  }

  /** decode(encode(e)) == e for every entry of the universe. */
  lemma {:induction false} DecodeEncode(shape: Shape, entry: Entry)
    requires ValidEntry(shape, entry)
    ensures Decode(shape, Encode(shape, entry)) == entry
  {
    if |shape| > 0 {
      var n := |shape|;
      var size := shape[n - 1];
      EncodeSnoc(shape, entry);
      var high := Encode(shape[..n - 1], entry[..n - 1]);
      DivModDigit(high, size, entry[n - 1]);
      DecodeEncode(shape[..n - 1], entry[..n - 1]);
      assert entry == entry[..n - 1] + [entry[n - 1]];
    }
  }

  /** encode(decode(i)) == i for every index in [0, prod(shape)). */
  lemma {:induction false} EncodeDecode(shape: Shape, index: nat)
    requires index < TotalSize(shape)
    ensures Encode(shape, Decode(shape, index)) == index
  {
    if |shape| > 0 {
      var n := |shape|;
      var size := shape[n - 1];
      TotalSizeSnoc(shape);
      QuotientBound(index, TotalSize(shape[..n - 1]), size);
      var high, digit := index / size, index % size;
      var prefix := Decode(shape[..n - 1], high);
      var entry := Decode(shape, index);
      assert entry[..n - 1] == prefix && entry[n - 1] == digit by {
        assert entry == prefix + [digit];
      }
      EncodeSnoc(shape, entry);
      EncodeDecode(shape[..n - 1], high);
      DivModSplit(index, size);
    }
  }

  /** Distinct entries of the universe have distinct indices. */
  lemma EncodeInjective(shape: Shape, a: Entry, b: Entry)
    requires ValidEntry(shape, a) && ValidEntry(shape, b)
    ensures Encode(shape, a) == Encode(shape, b) <==> a == b
  {
    DecodeEncode(shape, a);
    DecodeEncode(shape, b);
  }

  /** Every index in [0, prod(shape)) is the index of some entry of the universe. */
  lemma EncodeSurjective(shape: Shape, index: nat)
    requires index < TotalSize(shape)
    ensures exists entry :: ValidEntry(shape, entry) && Encode(shape, entry) == index
  {
    EncodeDecode(shape, index);
  }

  // ---------------------------------------------------------------------------
  // Index sets and entry sets

  /** Every index of `indices` lies in [0, prod(shape)). */
  predicate InRange(shape: Shape, indices: set<nat>)
  {
    forall i | i in indices :: i < TotalSize(shape)
  }

  /** Every entry of `entries` belongs to the universe of `shape`. */
  predicate AllValid(shape: Shape, entries: set<Entry>)
  {
    forall e | e in entries :: ValidEntry(shape, e)
  }

  /** The indices [0, n). */
  function Range(n: nat): (indices: set<nat>)
    ensures forall i: nat :: i in indices <==> i < n
  {
    if n == 0 then {} else Range(n - 1) + {n - 1}
  }

  lemma {:induction false} RangeSize(n: nat)
    ensures |Range(n)| == n
  {
    if n > 0 {
      RangeSize(n - 1);
    }
  }

  /** The entries an index set stands for. */
  function DecodeSet(shape: Shape, indices: set<nat>): (entries: set<Entry>)
    requires InRange(shape, indices)
    ensures AllValid(shape, entries)
  {
    set i | i in indices :: Decode(shape, i)
  }

  /** The index set that stands for a set of entries. */
  function EncodeSet(shape: Shape, entries: set<Entry>): (indices: set<nat>)
    requires AllValid(shape, entries)
    ensures InRange(shape, indices)
  {
    set e | e in entries :: Encode(shape, e)
  }

  /** An entry is represented by an index set exactly when it is valid and its index is in the set. */
  lemma DecodeSetMembers(shape: Shape, indices: set<nat>)
    requires InRange(shape, indices)
    ensures forall e :: e in DecodeSet(shape, indices) <==> ValidEntry(shape, e) && Encode(shape, e) in indices
  {
    forall e
      ensures e in DecodeSet(shape, indices) <==> ValidEntry(shape, e) && Encode(shape, e) in indices
    {
      if e in DecodeSet(shape, indices) {
        var i :| i in indices && Decode(shape, i) == e;
        EncodeDecode(shape, i);
      }
      if ValidEntry(shape, e) && Encode(shape, e) in indices {
        DecodeEncode(shape, e);
      }
    }
  }

  /** Encoding and decoding sets are inverse to each other. */
  lemma SetRoundTrip(shape: Shape, entries: set<Entry>, indices: set<nat>)
    requires AllValid(shape, entries) && InRange(shape, indices)
    ensures DecodeSet(shape, EncodeSet(shape, entries)) == entries
    ensures EncodeSet(shape, DecodeSet(shape, indices)) == indices
  {
    DecodeSetMembers(shape, EncodeSet(shape, entries));
    forall e | e in entries
      ensures e in DecodeSet(shape, EncodeSet(shape, entries))
    {
      assert Encode(shape, e) in EncodeSet(shape, entries);
    }
    forall e | e in DecodeSet(shape, EncodeSet(shape, entries))
      ensures e in entries
    {
      var f :| f in entries && Encode(shape, f) == Encode(shape, e);
      EncodeInjective(shape, e, f);
    }
    DecodeSetMembers(shape, indices);
    forall i | i in indices
      ensures i in EncodeSet(shape, DecodeSet(shape, indices))
    {
      EncodeDecode(shape, i);
      assert Decode(shape, i) in DecodeSet(shape, indices);
    }
  }

  /** An index set and the entry set it stands for have the same size. */
  lemma {:induction false} DecodeSetSize(shape: Shape, indices: set<nat>)
    requires InRange(shape, indices)
    ensures |DecodeSet(shape, indices)| == |indices|
    decreases indices
  {
    if indices != {} {
      var i :| i in indices;
      var rest := indices - {i};
      DecodeSetSize(shape, rest);
      var e := Decode(shape, i);
      EncodeDecode(shape, i);
      assert e !in DecodeSet(shape, rest) by {
        if e in DecodeSet(shape, rest) {
          var j :| j in rest && Decode(shape, j) == e;
          EncodeDecode(shape, j);
          assert false;
        }
      }
      assert indices == rest + {Encode(shape, e)};
      DecodeSetSingle(shape, rest, e);
    }
  }

  /**
   * Set algebra on index sets is set algebra on the entries they stand for: this is why
   * the relation can delegate every operation to its integer set.
   */
  lemma DecodeSetAlgebra(shape: Shape, a: set<nat>, b: set<nat>)
    requires InRange(shape, a) && InRange(shape, b)
    ensures DecodeSet(shape, a * b) == DecodeSet(shape, a) * DecodeSet(shape, b)
    ensures DecodeSet(shape, a + b) == DecodeSet(shape, a) + DecodeSet(shape, b)
    ensures DecodeSet(shape, a - b) == DecodeSet(shape, a) - DecodeSet(shape, b)
    ensures DecodeSet(shape, SymmetricDifference(a, b))
         == SymmetricDifference(DecodeSet(shape, a), DecodeSet(shape, b))
  {
    DecodeSetMembers(shape, a);
    DecodeSetMembers(shape, b);
    DecodeSetMembers(shape, a * b);
    DecodeSetMembers(shape, a + b);
    DecodeSetMembers(shape, a - b);
    DecodeSetMembers(shape, SymmetricDifference(a, b));
  }

  /** Inclusion and equality of index sets are inclusion and equality of the entry sets. */
  lemma DecodeSetOrder(shape: Shape, a: set<nat>, b: set<nat>)
    requires InRange(shape, a) && InRange(shape, b)
    ensures a <= b <==> DecodeSet(shape, a) <= DecodeSet(shape, b)
    ensures a == b <==> DecodeSet(shape, a) == DecodeSet(shape, b)
  {
    DecodeSetIncluded(shape, a, b);
    DecodeSetIncluded(shape, b, a);
  }

  lemma DecodeSetIncluded(shape: Shape, a: set<nat>, b: set<nat>)
    requires InRange(shape, a) && InRange(shape, b)
    ensures DecodeSet(shape, a) <= DecodeSet(shape, b) ==> a <= b
  {
    if DecodeSet(shape, a) <= DecodeSet(shape, b) {
      forall i | i in a
        ensures i in b
      {
        var e := Decode(shape, i);
        assert e in DecodeSet(shape, b);
        var j :| j in b && Decode(shape, j) == e;
        EncodeDecode(shape, i);
        EncodeDecode(shape, j);
      }
    }
  }

  /** Adding or removing one index adds or removes exactly its entry. */
  lemma DecodeSetSingle(shape: Shape, indices: set<nat>, entry: Entry)
    requires InRange(shape, indices) && ValidEntry(shape, entry)
    ensures DecodeSet(shape, indices + {Encode(shape, entry)}) == DecodeSet(shape, indices) + {entry}
    ensures DecodeSet(shape, indices - {Encode(shape, entry)}) == DecodeSet(shape, indices) - {entry}
  {
    DecodeSetMembers(shape, indices);
    DecodeSetMembers(shape, indices + {Encode(shape, entry)});
    DecodeSetMembers(shape, indices - {Encode(shape, entry)});
    forall e | ValidEntry(shape, e)
      ensures Encode(shape, e) == Encode(shape, entry) <==> e == entry
    {
      EncodeInjective(shape, e, entry);
    }
  }

  /**
   * Validates and encodes an iterable of entries, as the entry-accepting constructor and
   * the bulk updates do before touching any state; an invalid entry aborts with DomainError.
   */
  method EncodeEntries(shape: Shape, entries: seq<Entry>) returns (r: Result<set<nat>>)
    ensures r.Success? <==> AllValid(shape, SetOf(entries))
    ensures r.Failure? ==> r.error == DomainError
    ensures r.Success? ==> r.value == EncodeSet(shape, SetOf(entries))
  {
    var indices: set<nat> := {};
    var k := 0;
    while k < |entries|
      invariant 0 <= k <= |entries|
      invariant AllValid(shape, SetOf(entries[..k]))
      invariant indices == EncodeSet(shape, SetOf(entries[..k]))
    {
      var checked := ValidateEntry(shape, entries[k]);
      if checked.Fail? {
        assert entries[k] in SetOf(entries);
        return Failure(checked.error);
      }
      assert SetOf(entries[..k + 1]) == SetOf(entries[..k]) + {entries[k]} by {
        assert entries[..k + 1] == entries[..k] + [entries[k]];
      }
      indices := indices + {Encode(shape, entries[k])};
      k := k + 1;
    }
    assert entries[..k] == entries;
    return Success(indices);
  }

  // ---------------------------------------------------------------------------
  // The universe and its enumeration

  /** All entries of `shape`: exactly the valid ones, prod(shape) of them. */
  function Universe(shape: Shape): (entries: set<Entry>)
    ensures forall e :: e in entries <==> ValidEntry(shape, e)
    ensures |entries| == TotalSize(shape)
  {
    var all := Range(TotalSize(shape));
    DecodeSetMembers(shape, all);
    DecodeSetSize(shape, all);
    RangeSize(TotalSize(shape));
    DecodeSet(shape, all)
  }

  /** The complement of an index set within the universe stands for the missing entries. */
  lemma DecodeSetComplement(shape: Shape, indices: set<nat>)
    requires InRange(shape, indices)
    ensures DecodeSet(shape, Range(TotalSize(shape)) - indices) == Universe(shape) - DecodeSet(shape, indices)
    ensures |Range(TotalSize(shape)) - indices| == TotalSize(shape) - |indices|
  {
    var all := Range(TotalSize(shape));
    DecodeSetAlgebra(shape, all, indices);
    RangeSize(TotalSize(shape));
    assert indices <= all;
    assert all == (all - indices) + indices;
  }

  /**
   * iter_entries(shape): every entry of the universe, in increasing index order.
   * Arity 0 yields the single empty entry.
   */
  function IterEntries(shape: Shape): (entries: seq<Entry>)
    ensures |entries| == TotalSize(shape)
    ensures forall k | 0 <= k < |entries| :: ValidEntry(shape, entries[k])
  {
    seq(TotalSize(shape), k requires 0 <= k < TotalSize(shape) => Decode(shape, k))
  }

  /** The k-th entry yielded by iter_entries has index k, and every valid entry is yielded. */
  lemma IterEntriesIndexed(shape: Shape)
    ensures forall k | 0 <= k < |IterEntries(shape)| :: Encode(shape, IterEntries(shape)[k]) == k
    ensures SetOf(IterEntries(shape)) == Universe(shape)
  {
    var entries := IterEntries(shape);
    forall k | 0 <= k < |entries|
      ensures Encode(shape, entries[k]) == k
    {
      EncodeDecode(shape, k);
    }
    forall e | ValidEntry(shape, e)
      ensures e in entries
    {
      DecodeEncode(shape, e);
      assert entries[Encode(shape, e)] == e;
    }
  }

  /** The arity-0 universe is the single empty entry, at index 0. */
  lemma ArityZero()
    ensures TotalSize([]) == 1
    ensures IterEntries([]) == [[]]
    ensures Encode([], []) == 0
  {
    assert IterEntries([])[0] == [];
  }

  // ---------------------------------------------------------------------------
  // Lexicographic order (Python's tuple comparison, for entries of one arity)

  predicate LexLess(a: Entry, b: Entry)
    decreases |a|
  {
    |a| > 0 && |b| > 0 && (a[0] < b[0] || (a[0] == b[0] && LexLess(a[1..], b[1..])))
  }

  /** Lexicographic order is total on entries of equal length. */
  lemma {:induction false} LexTrichotomy(a: Entry, b: Entry)
    requires |a| == |b|
    ensures a == b || LexLess(a, b) || LexLess(b, a)
    decreases |a|
  {
    if |a| > 0 && a[0] == b[0] {
      LexTrichotomy(a[1..], b[1..]);
      if a[1..] == b[1..] {
        assert a == [a[0]] + a[1..] && b == [b[0]] + b[1..];
      }
    }
  }

  /** No entry precedes itself, so a strictly sorted sequence has no repeats. */
  lemma {:induction false} LexIrreflexive(a: Entry)
    ensures !LexLess(a, a)
    decreases |a|
  {
    if |a| > 0 {
      LexIrreflexive(a[1..]);
    }
  }

  lemma {:induction false} EncodeMonotone(shape: Shape, a: Entry, b: Entry)
    requires ValidEntry(shape, a) && ValidEntry(shape, b) && LexLess(a, b)
    ensures Encode(shape, a) < Encode(shape, b)
    decreases |shape|
  {
    assert ValidEntry(shape[1..], a[1..]) && ValidEntry(shape[1..], b[1..]);
    var weight := TotalSize(shape[1..]);
    var restA, restB := Encode(shape[1..], a[1..]), Encode(shape[1..], b[1..]);
    assert Encode(shape, a) == a[0] * weight + restA;
    assert Encode(shape, b) == b[0] * weight + restB;
    if a[0] < b[0] {
      MulMonotone(a[0] + 1, b[0], weight);
      assert (a[0] + 1) * weight == a[0] * weight + weight;
    } else {
      EncodeMonotone(shape[1..], a[1..], b[1..]);
    }
  }

  /** Index order is lexicographic order: sorting entries sorts their indices. */
  lemma EncodeOrder(shape: Shape, a: Entry, b: Entry)
    requires ValidEntry(shape, a) && ValidEntry(shape, b)
    ensures LexLess(a, b) <==> Encode(shape, a) < Encode(shape, b)
  {
    LexTrichotomy(a, b);
    if LexLess(a, b) {
      EncodeMonotone(shape, a, b);
    } else if LexLess(b, a) {
      EncodeMonotone(shape, b, a);
    }
  }

  /** iter_entries yields the universe in strictly increasing lexicographic order. */
  lemma IterEntriesSorted(shape: Shape)
    ensures forall j, k | 0 <= j < k < |IterEntries(shape)| :: LexLess(IterEntries(shape)[j], IterEntries(shape)[k])
  {
    var entries := IterEntries(shape);
    IterEntriesIndexed(shape);
    forall j, k | 0 <= j < k < |entries|
      ensures LexLess(entries[j], entries[k])
    {
      EncodeOrder(shape, entries[j], entries[k]);
    }
  }
}
