/**
  The dictionary object over a sequence of mutator calls. A call that throws
  leaves the contents as they were, so the state after a call is either the
  mutator's new contents or the old contents unchanged.
*/
module Session {
  import opened Wrappers
  import opened MultiValueDictionary

  /** One call of a mutating method on the dictionary object. */
  datatype Call =
    | AddCall(key: string, member: string)
    | RemoveCall(key: string, member: string)
    | RemoveAllCall(key: string)
    | ClearCall

  /** What the call returns: the new contents, or the exception it throws. */
  function Outcome(d: Dict, c: Call): Result<Dict, StoreError> {
    match c
    case AddCall(k, m) => Add(d, k, m)
    case RemoveCall(k, m) => Remove(d, k, m)
    case RemoveAllCall(k) => RemoveAll(d, k)
    case ClearCall => Success(Clear(d))
  }

  /** The contents after one call; a call that throws changes nothing. */
  function Apply(d: Dict, c: Call): (r: Dict)
    ensures Outcome(d, c).Failure? ==> r == d
    ensures Valid(d) ==> Valid(r)
    ensures c.ClearCall? ==> r == map[]
    ensures (c.AddCall? || c.RemoveCall? || c.RemoveAllCall?) ==> SameExcept(d, r, c.key)
  {
    match Outcome(d, c)
    case Success(d') => d'
    case Failure(_) => d
  }

  /** The contents after a sequence of calls, made in order. */
  function Run(d: Dict, calls: seq<Call>): (r: Dict)
    ensures Valid(d) ==> Valid(r)
    decreases |calls|
  {
    if calls == [] then d else Run(Apply(d, calls[0]), calls[1..])
  }

  /** Running two sequences one after the other is running their concatenation. */
  lemma {:induction false} RunConcat(d: Dict, first: seq<Call>, second: seq<Call>)
    ensures Run(d, first + second) == Run(Run(d, first), second)
    decreases |first|
  {
    if first == [] {
      assert first + second == second;
    } else {
      assert (first + second)[1..] == first[1..] + second;
      RunConcat(Apply(d, first[0]), first[1..], second);
    }
  }

  /**
    A call that throws in the middle of a session leaves no trace: the session
    ends exactly as if the call had never been made.
  */
  lemma FailedCallIsNoOp(d: Dict, first: seq<Call>, c: Call, second: seq<Call>)
    requires Outcome(Run(d, first), c).Failure?
    ensures Run(d, first + [c] + second) == Run(d, first + second)
  {
    RunConcat(d, first + [c], second);
    RunConcat(d, first, [c]);
    RunConcat(d, first, second);
    assert Run(Run(d, first), [c]) == Apply(Run(d, first), c);
  }

  /** Every dictionary built from the empty one keeps the non-empty-set invariant. */
  lemma ReachableIsValid(calls: seq<Call>)
    ensures Valid(Run(New(), calls))
  {
  }
}
