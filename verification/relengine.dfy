/**
 * The relation engine: a `Rel` owns an immutable shape and a set of linear indices
 * (an abstraction of the compressed 64-bit integer set), and exposes validated,
 * shape-aware set algebra over the entries those indices stand for.
 */
module RelEngine {
  import opened Common
  import opened Codec
  import opened IndexSet

  /**
   * The entries decoded from an ascending enumeration of an index set are that set's
   * entries, each once, in ascending index and lexicographic order.
   */
  lemma DecodedAscending(shape: Shape, indices: set<nat>, emitted: seq<nat>, entries: seq<Entry>)
    requires InRange(shape, indices)
    requires |emitted| == |entries| == |indices|
    requires SetOf(emitted) == indices && Increasing(emitted)
    requires forall k | 0 <= k < |emitted| :: emitted[k] in indices
    requires forall k | 0 <= k < |emitted| :: entries[k] == Decode(shape, emitted[k])
    ensures SetOf(entries) == DecodeSet(shape, indices)
    ensures |entries| == |DecodeSet(shape, indices)|
    ensures forall k | 0 <= k < |entries| :: ValidEntry(shape, entries[k])
    ensures forall j, k | 0 <= j < k < |entries| ::
              Encode(shape, entries[j]) < Encode(shape, entries[k]) && LexLess(entries[j], entries[k])
  {
    forall k | 0 <= k < |entries|
      ensures ValidEntry(shape, entries[k]) && Encode(shape, entries[k]) == emitted[k]
    {
      EncodeDecode(shape, emitted[k]);
    }
    forall j, k | 0 <= j < k < |entries|
      ensures LexLess(entries[j], entries[k])
    {
      EncodeOrder(shape, entries[j], entries[k]);
    }
    forall e | e in DecodeSet(shape, indices)
      ensures e in entries
    {
      var i :| i in indices && Decode(shape, i) == e;
      var k :| 0 <= k < |emitted| && emitted[k] == i;
      assert entries[k] == e;
    }
    DecodeSetSize(shape, indices);
  }

  class Rel {
    const shape: Shape
    var data: set<nat>

    /** Every stored index lies in [0, prod(shape)). */
    ghost predicate Valid()
      reads this
    {
      InRange(shape, data)
    }

    /** The entries of the relation, frozenset(rel): the stored indices decoded. */
    function Entries(): (entries: set<Entry>)
      reads this
      requires Valid()
      ensures AllValid(shape, entries)
    {
      DecodeSet(shape, data)
    }

    // -------------------------------------------------------------------------
    // Construction

    /** Rel(shape): the empty relation. */
    constructor Empty(shape: Shape)
      ensures Valid() && this.shape == shape
      ensures data == {} && Entries() == {}
    {
      this.shape := shape;
      data := {};
    }

    /** Adopts an index set already known to lie in the universe of `shape`. */
    constructor Adopt(shape: Shape, indices: set<nat>)
      requires InRange(shape, indices)
      ensures Valid() && this.shape == shape && data == indices
    {
      this.shape := shape;
      data := indices;
    }

    /** Rel(shape, entries): every entry is validated and encoded; duplicates collapse. */
    static method FromEntries(shape: Shape, entries: seq<Entry>) returns (r: Result<Rel>)
      ensures r.Failure? <==> !AllValid(shape, SetOf(entries))
      ensures r.Failure? ==> r.error == DomainError
      ensures r.Success? ==> fresh(r.value) && r.value.Valid() && r.value.shape == shape
      ensures r.Success? ==> r.value.data == EncodeSet(shape, SetOf(entries))
      ensures r.Success? ==> r.value.Entries() == SetOf(entries)
    {
      var encoded := EncodeEntries(shape, entries);
      if encoded.Failure? {
        return Failure(encoded.error);
      }
      SetRoundTrip(shape, SetOf(entries), {});
      var rel := new Rel.Adopt(shape, encoded.value);
      return Success(rel);
    }

    /** Rel(shape, other): a deep copy of a relation of the same shape. */
    static method FromRel(shape: Shape, other: Rel) returns (r: Result<Rel>)
      requires other.Valid()
      ensures r.Failure? <==> other.shape != shape
      ensures r.Failure? ==> r.error == ShapeMismatch
      ensures r.Success? ==> fresh(r.value) && r.value.Valid() && r.value.shape == shape
      ensures r.Success? ==> r.value.data == other.data && r.value.Entries() == other.Entries()
    {
      if other.shape != shape {
        return Failure(ShapeMismatch);
      }
      var rel := new Rel.Adopt(shape, other.data);
      return Success(rel);
    }

    /** Rel(shape, bitmap): adopts a copy of a raw index set; any index >= prod(shape) is a DomainError. */
    static method FromIndices(shape: Shape, indices: set<nat>) returns (r: Result<Rel>)
      ensures r.Failure? <==> exists i | i in indices :: i >= TotalSize(shape)
      ensures r.Failure? ==> r.error == DomainError
      ensures r.Success? ==> fresh(r.value) && r.value.Valid() && r.value.shape == shape
      ensures r.Success? ==> r.value.data == indices && r.value.Entries() == DecodeSet(shape, indices)
    {
      if exists i | i in indices :: i >= TotalSize(shape) {
        return Failure(DomainError);
      }
      var rel := new Rel.Adopt(shape, indices);
      return Success(rel);
    }

    /** copy(): an independent relation with the same shape and entries. */
    method Copy() returns (r: Rel)
      requires Valid()
      ensures fresh(r) && r.Valid() && r.shape == shape
      ensures r.data == data && r.Entries() == Entries()
    {
      r := new Rel.Adopt(shape, data);
    }

    // -------------------------------------------------------------------------
    // Queries

    /** len(rel): the number of stored indices, which is the number of entries. */
    function Cardinality(): (n: nat)
      reads this
      requires Valid()
      ensures n == |Entries()|
    {
      DecodeSetSize(shape, data);
      |data|
    }

    /** entry in rel: validates the entry (DomainError otherwise), then tests its index. */
    function Contains(entry: Entry): (r: Result<bool>)
      reads this
      requires Valid()
      ensures r.Failure? <==> !ValidEntry(shape, entry)
      ensures r.Failure? ==> r.error == DomainError
      ensures r.Success? ==> (r.value <==> entry in Entries())
    {
      if !ValidEntry(shape, entry) then Failure(DomainError)
      else
        DecodeSetMembers(shape, data);
        Success(Encode(shape, entry) in data)
    }

    /** rel == other: same shape and same index set, that is, same shape and same entries. */
    function Equals(other: Rel): (r: bool)
      reads this, other
      requires Valid() && other.Valid()
      ensures r <==> shape == other.shape && Entries() == other.Entries()
    {
      if shape != other.shape then false
      else
        DecodeSetOrder(shape, data, other.data);
        data == other.data
    }

    /** rel <= other: every entry of this relation is in the other; ShapeMismatch otherwise. */
    function IsSubset(other: Rel): (r: Result<bool>)
      reads this, other
      requires Valid() && other.Valid()
      ensures r.Failure? <==> shape != other.shape
      ensures r.Failure? ==> r.error == ShapeMismatch
      ensures r.Success? ==> (r.value <==> Entries() <= other.Entries())
    {
      if shape != other.shape then Failure(ShapeMismatch)
      else
        DecodeSetOrder(shape, data, other.data);
        Success(data <= other.data)
    }

    /**
     * iter(rel): the stored indices in ascending order, each decoded; this is lexicographic
     * order of the entries, and each entry comes once.
     */
    method Iterate() returns (entries: seq<Entry>)
      requires Valid()
      ensures SetOf(entries) == Entries()
      ensures |entries| == Cardinality()
      ensures forall k | 0 <= k < |entries| :: ValidEntry(shape, entries[k])
      ensures forall j, k | 0 <= j < k < |entries| ::
                Encode(shape, entries[j]) < Encode(shape, entries[k]) && LexLess(entries[j], entries[k])
    {
      var order := AscendingIndices(data);
      entries := seq(|order|, k requires 0 <= k < |order| => Decode(shape, order[k]));
      DecodedAscending(shape, data, order, entries);
    }

    // -------------------------------------------------------------------------
    // Allocating algebra: a new relation over the same shape

    /** rel & other. */
    method Intersection(other: Rel) returns (r: Result<Rel>)
      requires Valid() && other.Valid()
      ensures r.Failure? <==> shape != other.shape
      ensures r.Failure? ==> r.error == ShapeMismatch
      ensures r.Success? ==> fresh(r.value) && r.value.Valid() && r.value.shape == shape
      ensures r.Success? ==> r.value.data == data * other.data
      ensures r.Success? ==> r.value.Entries() == Entries() * other.Entries()
    {
      if shape != other.shape {
        return Failure(ShapeMismatch);
      }
      DecodeSetAlgebra(shape, data, other.data);
      var rel := new Rel.Adopt(shape, data * other.data);
      return Success(rel);
    }

    /** rel | other. */
    method Union(other: Rel) returns (r: Result<Rel>)
      requires Valid() && other.Valid()
      ensures r.Failure? <==> shape != other.shape
      ensures r.Failure? ==> r.error == ShapeMismatch
      ensures r.Success? ==> fresh(r.value) && r.value.Valid() && r.value.shape == shape
      ensures r.Success? ==> r.value.data == data + other.data
      ensures r.Success? ==> r.value.Entries() == Entries() + other.Entries()
    {
      if shape != other.shape {
        return Failure(ShapeMismatch);
      }
      DecodeSetAlgebra(shape, data, other.data);
      var rel := new Rel.Adopt(shape, data + other.data);
      return Success(rel);
    }

    /** rel ^ other. */
    method SymmetricDiff(other: Rel) returns (r: Result<Rel>)
      requires Valid() && other.Valid()
      ensures r.Failure? <==> shape != other.shape
      ensures r.Failure? ==> r.error == ShapeMismatch
      ensures r.Success? ==> fresh(r.value) && r.value.Valid() && r.value.shape == shape
      ensures r.Success? ==> r.value.data == SymmetricDifference(data, other.data)
      ensures r.Success? ==> r.value.Entries() == SymmetricDifference(Entries(), other.Entries())
    {
      if shape != other.shape {
        return Failure(ShapeMismatch);
      }
      DecodeSetAlgebra(shape, data, other.data);
      var rel := new Rel.Adopt(shape, SymmetricDifference(data, other.data));
      return Success(rel);
    }

    /** rel - other. */
    method Difference(other: Rel) returns (r: Result<Rel>)
      requires Valid() && other.Valid()
      ensures r.Failure? <==> shape != other.shape
      ensures r.Failure? ==> r.error == ShapeMismatch
      ensures r.Success? ==> fresh(r.value) && r.value.Valid() && r.value.shape == shape
      ensures r.Success? ==> r.value.data == data - other.data
      ensures r.Success? ==> r.value.Entries() == Entries() - other.Entries()
    {
      if shape != other.shape {
        return Failure(ShapeMismatch);
      }
      DecodeSetAlgebra(shape, data, other.data);
      var rel := new Rel.Adopt(shape, data - other.data);
      return Success(rel);
    }

    /** ~rel: the universe minus this relation, over the same shape. */
    method Complement() returns (r: Rel)
      requires Valid()
      ensures fresh(r) && r.Valid() && r.shape == shape
      ensures r.data == Range(TotalSize(shape)) - data
      ensures r.Entries() == Universe(shape) - Entries()
      ensures r.Cardinality() == TotalSize(shape) - Cardinality()
    {
      DecodeSetComplement(shape, data);
      r := new Rel.Adopt(shape, Range(TotalSize(shape)) - data);
    }

    // -------------------------------------------------------------------------
    // In-place algebra: the receiver is mutated and returned

    /** rel &= other. */
    method InPlaceIntersection(other: Rel) returns (r: Result<Rel>)
      requires Valid() && other.Valid()
      modifies this
      ensures Valid()
      ensures r.Failure? <==> shape != other.shape
      ensures r.Failure? ==> r.error == ShapeMismatch && data == old(data)
      ensures r.Success? ==> r.value == this && data == old(data) * old(other.data)
      ensures r.Success? ==> Entries() == old(Entries()) * old(other.Entries())
    {
      if shape != other.shape {
        return Failure(ShapeMismatch);
      }
      DecodeSetAlgebra(shape, data, other.data);
      data := data * other.data;
      return Success(this);
    }

    /** rel |= other. */
    method InPlaceUnion(other: Rel) returns (r: Result<Rel>)
      requires Valid() && other.Valid()
      modifies this
      ensures Valid()
      ensures r.Failure? <==> shape != other.shape
      ensures r.Failure? ==> r.error == ShapeMismatch && data == old(data)
      ensures r.Success? ==> r.value == this && data == old(data) + old(other.data)
      ensures r.Success? ==> Entries() == old(Entries()) + old(other.Entries())
    {
      if shape != other.shape {
        return Failure(ShapeMismatch);
      }
      DecodeSetAlgebra(shape, data, other.data);
      data := data + other.data;
      return Success(this);
    }

    /** rel ^= other. */
    method InPlaceSymmetricDiff(other: Rel) returns (r: Result<Rel>)
      requires Valid() && other.Valid()
      modifies this
      ensures Valid()
      ensures r.Failure? <==> shape != other.shape
      ensures r.Failure? ==> r.error == ShapeMismatch && data == old(data)
      ensures r.Success? ==> r.value == this && data == SymmetricDifference(old(data), old(other.data))
      ensures r.Success? ==> Entries() == SymmetricDifference(old(Entries()), old(other.Entries()))
    {
      if shape != other.shape {
        return Failure(ShapeMismatch);
      }
      DecodeSetAlgebra(shape, data, other.data);
      data := SymmetricDifference(data, other.data);
      return Success(this);
    }

    /** rel -= other. */
    method InPlaceDifference(other: Rel) returns (r: Result<Rel>)
      requires Valid() && other.Valid()
      modifies this
      ensures Valid()
      ensures r.Failure? <==> shape != other.shape
      ensures r.Failure? ==> r.error == ShapeMismatch && data == old(data)
      ensures r.Success? ==> r.value == this && data == old(data) - old(other.data)
      ensures r.Success? ==> Entries() == old(Entries()) - old(other.Entries())
    {
      if shape != other.shape {
        return Failure(ShapeMismatch);
      }
      DecodeSetAlgebra(shape, data, other.data);
      data := data - other.data;
      return Success(this);
    }

    // -------------------------------------------------------------------------
    // Bulk updates from an iterable of entries: all entries are validated first

    /** update(entries): union with the given entries. */
    method Update(entries: seq<Entry>) returns (r: Outcome)
      requires Valid()
      modifies this
      ensures Valid()
      ensures r.Fail? <==> !AllValid(shape, SetOf(entries))
      ensures r.Fail? ==> r.error == DomainError && data == old(data)
      ensures r.Pass? ==> data == old(data) + EncodeSet(shape, SetOf(entries))
      ensures r.Pass? ==> Entries() == old(Entries()) + SetOf(entries)
    {
      var encoded := EncodeEntries(shape, entries);
      if encoded.Failure? {
        return Fail(encoded.error);
      }
      SetRoundTrip(shape, SetOf(entries), {});
      assert InRange(shape, data + encoded.value);
      DecodeSetAlgebra(shape, data, encoded.value);
      data := data + encoded.value;
      return Pass;
    }

    /** symmetric_difference_update(entries). */
    method SymmetricDifferenceUpdate(entries: seq<Entry>) returns (r: Outcome)
      requires Valid()
      modifies this
      ensures Valid()
      ensures r.Fail? <==> !AllValid(shape, SetOf(entries))
      ensures r.Fail? ==> r.error == DomainError && data == old(data)
      ensures r.Pass? ==> data == SymmetricDifference(old(data), EncodeSet(shape, SetOf(entries)))
      ensures r.Pass? ==> Entries() == SymmetricDifference(old(Entries()), SetOf(entries))
    {
      var encoded := EncodeEntries(shape, entries);
      if encoded.Failure? {
        return Fail(encoded.error);
      }
      SetRoundTrip(shape, SetOf(entries), {});
      assert InRange(shape, SymmetricDifference(data, encoded.value));
      DecodeSetAlgebra(shape, data, encoded.value);
      data := SymmetricDifference(data, encoded.value);
      return Pass;
    }

    /** difference_update(entries). */
    method DifferenceUpdate(entries: seq<Entry>) returns (r: Outcome)
      requires Valid()
      modifies this
      ensures Valid()
      ensures r.Fail? <==> !AllValid(shape, SetOf(entries))
      ensures r.Fail? ==> r.error == DomainError && data == old(data)
      ensures r.Pass? ==> data == old(data) - EncodeSet(shape, SetOf(entries))
      ensures r.Pass? ==> Entries() == old(Entries()) - SetOf(entries)
    {
      var encoded := EncodeEntries(shape, entries);
      if encoded.Failure? {
        return Fail(encoded.error);
      }
      SetRoundTrip(shape, SetOf(entries), {});
      DecodeSetAlgebra(shape, data, encoded.value);
      data := data - encoded.value;
      return Pass;
    }

    // -------------------------------------------------------------------------
    // Single-entry mutation

    /** add(entry): inserts the entry; a no-op when it is already a member. */
    method Add(entry: Entry) returns (r: Outcome)
      requires Valid()
      modifies this
      ensures Valid()
      ensures r.Fail? <==> !ValidEntry(shape, entry)
      ensures r.Fail? ==> r.error == DomainError && data == old(data)
      ensures r.Pass? ==> data == old(data) + {Encode(shape, entry)}
      ensures r.Pass? ==> Entries() == old(Entries()) + {entry}
    {
      var checked := ValidateEntry(shape, entry);
      if checked.Fail? {
        return checked;
      }
      DecodeSetSingle(shape, data, entry);
      data := data + {Encode(shape, entry)};
      return Pass;
    }

    /** remove(entry): removes a member; KeyNotFound, with nothing changed, for a non-member. */
    method Remove(entry: Entry) returns (r: Outcome)
      requires Valid()
      modifies this
      ensures Valid()
      ensures r.Fail? <==> !ValidEntry(shape, entry) || entry !in old(Entries())
      ensures r.Fail? ==> data == old(data)
      ensures r.Fail? ==> r.error == (if ValidEntry(shape, entry) then KeyNotFound else DomainError)
      ensures r.Pass? ==> data == old(data) - {Encode(shape, entry)}
      ensures r.Pass? ==> Entries() == old(Entries()) - {entry}
    {
      var checked := ValidateEntry(shape, entry);
      if checked.Fail? {
        return checked;
      }
      DecodeSetMembers(shape, data);
      var index := Encode(shape, entry);
      if index !in data {
        return Fail(KeyNotFound);
      }
      DecodeSetSingle(shape, data, entry);
      data := data - {index};
      return Pass;
    }

    /** flip(entry): removes the entry if it is a member, inserts it otherwise. */
    method Flip(entry: Entry) returns (r: Outcome)
      requires Valid()
      modifies this
      ensures Valid()
      ensures r.Fail? <==> !ValidEntry(shape, entry)
      ensures r.Fail? ==> r.error == DomainError && data == old(data)
      ensures r.Pass? ==> data == SymmetricDifference(old(data), {Encode(shape, entry)})
      ensures r.Pass? ==> Entries() == SymmetricDifference(old(Entries()), {entry})
    {
      var checked := ValidateEntry(shape, entry);
      if checked.Fail? {
        return checked;
      }
      DecodeSetMembers(shape, data);
      DecodeSetSingle(shape, data, entry);
      var index := Encode(shape, entry);
      if index in data {
        data := data - {index};
      } else {
        data := data + {index};
      }
      return Pass;
    }
  }
}
