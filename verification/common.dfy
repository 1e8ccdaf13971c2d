/** Error kinds and failure-carrying results shared by the codec and the relation engine. */
module Common {

  /** The three ways an operation on a relation can fail. */
  datatype Error =
    | ShapeMismatch  // operands of a binary operation have different shapes
    | DomainError    // an entry outside the universe, or a raw index >= the total size
    | KeyNotFound    // removal of an entry that is not a member

  /** The value of an operation that may raise instead of returning. */
  datatype Result<+T> = Success(value: T) | Failure(error: Error)

  /** The outcome of an operation that returns nothing but may raise. */
  datatype Outcome = Pass | Fail(error: Error)

  /** The elements of a sequence, as a set (Python's `frozenset(iterable)`). */
  function SetOf<T>(s: seq<T>): set<T>
  {
    set x | x in s
  }

  /** Set symmetric difference (Python's `^` on sets). */
  function SymmetricDifference<T>(a: set<T>, b: set<T>): set<T>
  {
    (a - b) + (b - a)
  }

  /** Extending a prefix by one element adds that element to its set. */
  lemma SetOfPrefix<T>(s: seq<T>, k: nat)
    requires k < |s|
    ensures SetOf(s[..k + 1]) == SetOf(s[..k]) + {s[k]}
  {
    assert s[..k + 1] == s[..k] + [s[k]];
  }
}
