# roaringrel: a verified model of `Rel`

`roaringrel` stores a finite n-ary relation as a `Rel`. A relation is a set of integer
tuples ("entries"), all of the same arity. Component `i` of each entry lies in `[0, shape[i])`.
Each entry is flattened to a linear index in `[0, prod(shape))`. The flattening is mixed-radix,
row-major, with the last coordinate varying fastest. The indices are kept in a compressed
64-bit integer set (`pyroaring.BitMap64`). Every set operation on relations is the same
operation on those index sets.

The model states the behaviour that `test/test_00_rel.py` asserts, for every shape and every
set of entries rather than for sampled ones.

- `common.dfy` (module `Common`) holds shared pieces:
  - the error kinds: `ValueError` on an out-of-domain entry or index is `DomainError`; `KeyError` on removal is `KeyNotFound`; a shape conflict between operands is `ShapeMismatch`;
  - `Result` and `Outcome`, for operations that may raise;
  - `SetOf`, which models `frozenset(iterable)`.
- `codec.dfy` (module `Codec`) models shapes, entries and the index codec:
  - `validate_entry`, `Encode` and `Decode`;
  - the proof that encoding is a bijection from valid entries onto `[0, prod(shape))`;
  - the lifting of that bijection to sets, where union, intersection, difference, symmetric difference, complement, inclusion and size carry over;
  - `iter_entries` and lexicographic order.
- `indexset.dfy` (module `IndexSet`) models the one behaviour of the compressed integer set that set algebra does not cover: ascending iteration.
- `relengine.dfy` (module `RelEngine`) holds the class `Rel`:
  - an immutable `shape` and a mutable `data: set<nat>` of stored indices;
  - `Entries()`, which is `frozenset(rel)`;
  - constructors and queries;
  - allocating, in-place, bulk and single-entry updates.
- `suite.dfy` (module `RelSuite`) turns each test function into a method:
  - the method performs the test's operations on the model and returns the conjunction of the test's asserts;
  - its postcondition `ensures passed` says every assert holds for all inputs;
  - the helpers `InPlaceCase`, `UpdateCase`, `EntrywiseCase`, `BoundsCase` and `OperandsCase` each run one section of a test, so that the test becomes a conjunction of its sections.

Python's constructor dispatch, `Rel(shape)`, `Rel(shape, entries)`, `Rel(shape, rel)` and
`Rel(shape, bitmap)`, becomes the constructor `Empty` plus three static methods returning
`Result<Rel>`. A second constructor, `Adopt`, takes an index set already known to be in range
without checking it; every validated construction and every allocating operation goes through it. Python operators become named methods. Object identity (`res is _res`) is
reference equality: the in-place methods modify `this` and return it.

## Model

| member | source | states |
|---|---|---|
| `Codec.ValidateEntry` | test/test_00_rel.py:60-61 | passes exactly when the entry has the shape's arity and every component lies in `[0, shape[i])`; otherwise fails with DomainError |
| `Codec.Encode` | test/test_00_rel.py:62-64 | the linear index of a valid entry is below `prod(shape)`, so the index `prod(shape)` stands for no entry |
| `Codec.Decode` | test/test_00_rel.py:62-64 | every index below `prod(shape)` decodes to a valid entry |
| `Codec.DecodeEncode` | test/test_00_rel.py:54-57 | decoding the index of a valid entry gives the entry back |
| `Codec.EncodeDecode` | test/test_00_rel.py:54-57 | encoding the decoded entry of an in-range index gives the index back |
| `Codec.EncodeInjective` | test/test_00_rel.py:56-59 | two valid entries have the same index if and only if they are equal |
| `Codec.EncodeSurjective` | test/test_00_rel.py:62-64 | every index below `prod(shape)` is the index of some valid entry |
| `Codec.DecodeSetMembers` | test/test_00_rel.py:58-59 | an entry belongs to the entries of an index set if and only if it is valid and its index is in the set |
| `Codec.SetRoundTrip` | test/test_00_rel.py:54-57 | encoding a set of valid entries and decoding it gives the same set, and decoding then encoding an in-range index set gives the same set |
| `Codec.DecodeSetSize` | test/test_00_rel.py:56 | an index set and the entry set it stands for have the same size |
| `Codec.DecodeSetAlgebra` | test/test_00_rel.py:166-169 | decoding commutes with intersection, union, difference and symmetric difference |
| `Codec.DecodeSetOrder` | test/test_00_rel.py:277-281 | index sets are included in (equal to) each other if and only if the entry sets they stand for are |
| `Codec.DecodeSetSingle` | test/test_00_rel.py:243-259 | adding (removing) one entry's index adds (removes) exactly that entry |
| `Codec.EncodeEntries` | test/test_00_rel.py:54 | succeeds exactly when every given entry is valid; otherwise fails with DomainError; on success, yields the index set of the given entries |
| `Codec.Universe` | test/test_00_rel.py:52 | the universe holds exactly the valid entries, and there are `prod(shape)` of them |
| `Codec.DecodeSetComplement` | test/test_00_rel.py:122-125 | the entries of the index complement are the universe minus the entries, and there are `prod(shape) - n` of them |
| `Codec.IterEntries` | test/test_00_rel.py:29-30 | `iter_entries(shape)` yields `prod(shape)` entries, all of them valid |
| `Codec.IterEntriesIndexed` | test/test_00_rel.py:52 | the k-th entry yielded has index k, and the entries yielded are exactly the universe |
| `Codec.ArityZero` | test/test_00_rel.py:10 | with arity 0 the total size is 1, the only entry is `()`, and its index is 0 |
| `Codec.LexTrichotomy` | test/test_00_rel.py:243 | two distinct entries of equal length are ordered lexicographically one way or the other, which is what makes `sorted` well defined |
| `Codec.EncodeOrder` | test/test_00_rel.py:243 | for valid entries, lexicographic order is index order |
| `Codec.IterEntriesSorted` | test/test_00_rel.py:29-30 | `iter_entries(shape)` yields the universe in strictly increasing lexicographic order |
| `IndexSet.AscendingIndices` | test/test_00_rel.py:57 | enumerates an index set: each element exactly once, in strictly increasing order |
| `RelEngine.DecodedAscending` | test/test_00_rel.py:56-57 | decoding an ascending enumeration of an index set gives that set's entries, each once, in increasing index and lexicographic order |
| `RelEngine.Rel.Entries` | test/test_00_rel.py:57-61 | every entry of a relation is valid for its shape |
| `RelEngine.Rel.Empty` | test/test_00_rel.py:275 | `Rel(shape)` has the given shape and no entries |
| `RelEngine.Rel.FromEntries` | test/test_00_rel.py:54-59 | `Rel(shape, entries)` fails with DomainError if and only if some entry is invalid; otherwise its entries are exactly the given ones |
| `RelEngine.Rel.FromRel` | test/test_00_rel.py:90-98 | `Rel(shape, rel)` is a fresh relation with the same shape and entries; a different shape fails with ShapeMismatch |
| `RelEngine.Rel.FromIndices` | test/test_00_rel.py:62-64 | `Rel(shape, bitmap)` fails with DomainError if and only if some index is at least `prod(shape)`; otherwise it holds exactly those indices |
| `RelEngine.Rel.Copy` | test/test_00_rel.py:80-88 | `copy()` is a fresh relation with the same shape, index set and entries |
| `RelEngine.Rel.Cardinality` | test/test_00_rel.py:56 | `len(rel)` is the number of entries |
| `RelEngine.Rel.Contains` | test/test_00_rel.py:58-59 | `entry in rel` holds exactly for the relation's entries; an invalid entry fails with DomainError |
| `RelEngine.Rel.Equals` | test/test_00_rel.py:88 | `rel == other` holds exactly when the shapes and the entry sets are equal |
| `RelEngine.Rel.IsSubset` | test/test_00_rel.py:277-281 | `rel <= other` holds exactly when the entries are included; different shapes fail with ShapeMismatch |
| `RelEngine.Rel.Iterate` | test/test_00_rel.py:57 | iteration yields each entry exactly once, `len(rel)` of them, in increasing index order, which is lexicographic order |
| `RelEngine.Rel.Intersection` | test/test_00_rel.py:166 | `rel & other` is a fresh relation whose entries are the intersection; different shapes fail with ShapeMismatch |
| `RelEngine.Rel.Union` | test/test_00_rel.py:167 | the union operator gives a fresh relation whose entries are the union; different shapes fail with ShapeMismatch |
| `RelEngine.Rel.SymmetricDiff` | test/test_00_rel.py:168 | `rel ^ other` is a fresh relation whose entries are the symmetric difference; different shapes fail with ShapeMismatch |
| `RelEngine.Rel.Difference` | test/test_00_rel.py:169 | `rel - other` is a fresh relation whose entries are the difference; different shapes fail with ShapeMismatch |
| `RelEngine.Rel.Complement` | test/test_00_rel.py:122-127 | `~rel` has the same shape, the universe minus the entries, and `prod(shape) - len(rel)` of them |
| `RelEngine.Rel.InPlaceIntersection` | test/test_00_rel.py:185-188 | `&=` mutates and returns the receiver itself, leaving the intersection; on a shape mismatch, nothing changes |
| `RelEngine.Rel.InPlaceUnion` | test/test_00_rel.py:189-192 | in-place union mutates and returns the receiver itself, leaving the union; on a shape mismatch, nothing changes |
| `RelEngine.Rel.InPlaceSymmetricDiff` | test/test_00_rel.py:193-196 | `^=` mutates and returns the receiver itself, leaving the symmetric difference; on a shape mismatch, nothing changes |
| `RelEngine.Rel.InPlaceDifference` | test/test_00_rel.py:197-200 | `-=` mutates and returns the receiver itself, leaving the difference; on a shape mismatch, nothing changes |
| `RelEngine.Rel.Update` | test/test_00_rel.py:215-218 | `update(entries)` adds the given entries; if any entry is invalid, it fails with DomainError and changes nothing |
| `RelEngine.Rel.SymmetricDifferenceUpdate` | test/test_00_rel.py:219-222 | `symmetric_difference_update(entries)` toggles the given entries; if any entry is invalid, it fails with DomainError and changes nothing |
| `RelEngine.Rel.DifferenceUpdate` | test/test_00_rel.py:223-226 | `difference_update(entries)` removes the given entries; if any entry is invalid, it fails with DomainError and changes nothing |
| `RelEngine.Rel.Add` | test/test_00_rel.py:243-244 | `add(entry)` adds exactly that entry; an invalid entry fails with DomainError and changes nothing |
| `RelEngine.Rel.Flip` | test/test_00_rel.py:248-249 | `flip(entry)` toggles exactly that entry; an invalid entry fails with DomainError and changes nothing |
| `RelEngine.Rel.Remove` | test/test_00_rel.py:253-258 | `remove(entry)` removes a member; a non-member fails with KeyNotFound (KeyError), an invalid entry with DomainError, and both leave the relation unchanged |
| `RelSuite.RepresentsEntries` | test/test_00_rel.py:55-61 | a relation with the expected shape and entries passes every per-relation assert: shape, `len`, `frozenset`, membership of members and non-members, and validity of the universe |
| `RelSuite.TestConstructor` | test/test_00_rel.py:51-64 | every assert of test_constructor holds, for every shape and every set of valid entries |
| `RelSuite.TestCopy` | test/test_00_rel.py:75-108 | every assert of test_copy holds for the three copies |
| `RelSuite.TestInvert` | test/test_00_rel.py:118-129 | every assert of test_invert holds |
| `RelSuite.TestBinops` | test/test_00_rel.py:161-169 | every assert of test_binops holds |
| `RelSuite.InPlaceCase` | test/test_00_rel.py:185-188 | one section of test_inplace_binops holds for the given operator |
| `RelSuite.TestInplaceBinops` | test/test_00_rel.py:180-200 | every assert of test_inplace_binops holds |
| `RelSuite.UpdateCase` | test/test_00_rel.py:215-218 | one section of test_inplace_updates holds for the given update |
| `RelSuite.TestInplaceUpdates` | test/test_00_rel.py:211-226 | every assert of test_inplace_updates holds |
| `RelSuite.AddEach` | test/test_00_rel.py:243-244 | adding the entries one at a time leaves the old entries united with them, and no call fails |
| `RelSuite.FlipEach` | test/test_00_rel.py:248-249 | flipping the entries of a strictly sorted sequence one at a time leaves the symmetric difference, and no call fails |
| `RelSuite.RemoveEach` | test/test_00_rel.py:253-258 | removing members and attempting non-members leaves the difference; every removal of a member passes and every attempt on a non-member raises KeyNotFound |
| `RelSuite.EntrywiseCase` | test/test_00_rel.py:241-245 | one loop of test_inplace_entrywise_update holds for add, flip or remove |
| `RelSuite.TestInplaceEntrywiseUpdate` | test/test_00_rel.py:237-259 | every assert of test_inplace_entrywise_update holds |
| `RelSuite.BoundsCase` | test/test_00_rel.py:277-278 | the empty relation is below every relation, and the full relation is above every relation |
| `RelSuite.OperandsCase` | test/test_00_rel.py:279-281 | `A & B <= A`, `A & B <= B`, each operand is below their union, `A - B <= A` and `B - A <= B` |
| `RelSuite.TestContainment` | test/test_00_rel.py:270-281 | every assert of test_containment holds |

## Left out

- Three behaviours the tests do not exercise are modelled as follows:
  - the copy constructor fails with ShapeMismatch on a different shape;
  - membership of an invalid entry fails with DomainError;
  - bulk updates validate every entry before they change anything.
- The internals of `pyroaring.BitMap64` are abstracted as `set<nat>` with Dafny's set operations. This covers its run compression, its word layout and its 64-bit index bound, which are not modelled. A shape whose total size exceeds 2^64 is therefore not rejected.
- Iteration is not lazy and cannot be restarted. It is a method that returns the whole ascending sequence at once.
- NumPy random sampling of shapes and entry sets, and pytest parametrisation, are test scaffolding. They are replaced by universally quantified inputs: every shape, and every sequence of valid entries.
- Access to the private attribute `rel._Rel__data` is modelled as `FromIndices` applied to the relation's index set.
- `sorted(rhs_entryset)` is not computed. The entrywise test takes the sorted sequence as input, with the `SortedEntries` precondition. Only its set of elements and its lack of repetition matter to the asserts.
- Bulk updates that take another `Rel` rather than an iterable of entries are not modelled separately. The tests pass only entry sets to them, and a `Rel` argument coincides with the in-place operators.
- `pytest.raises` is modelled as the failure value of a `Result` or `Outcome`, not as an exception.
- Error paths that need a second relation of a different shape are specified in the engine's contracts. The suite does not exercise them, just as the tests do not.
