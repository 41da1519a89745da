/**
 * The fan-in half of `validate` in src/form/src/Form.tsx: once every field
 * promise has settled, the ordered outcomes are reduced to one report.
 */
module Aggregation {
  import opened Wrappers

  /** One entry of async-validator's `ErrorList`. */
  datatype ValidateError = ValidateError(message: string, field: string)

  type ErrorList = seq<ValidateError>

  /** What a form item's `internalValidate` settles with. */
  datatype ValidationOutcome = ValidationOutcome(valid: bool, errors: Option<ErrorList>)

  /** The promise that `validate` returns, as it stands after the fan-in step. */
  datatype PromiseState = Pending | Fulfilled | RejectedWith(reason: seq<ErrorList>)

  /**
   * Everything one call of `validate` reports: the state of the returned
   * promise and the argument of every invocation of the callback
   * (`None` when the callback is invoked with no argument).
   */
  datatype Report = Report(promise: PromiseState, callbackCalls: seq<Option<seq<ErrorList>>>)

  predicate AllValid(results: seq<ValidationOutcome>) {
    forall i :: 0 <= i < |results| ==> results[i].valid
  }

  /** The caller sees success: the promise fulfilled, or the callback invoked without argument. */
  predicate Succeeded(r: Report) {
    r.promise == Fulfilled || r.callbackCalls == [None]
  }

  /**
   * `results.filter((result) => result.errors)`: an outcome is kept when its
   * `errors` is truthy, i.e. present; an empty list is truthy in JavaScript
   * and is kept too.
   */
  function WithErrors(results: seq<ValidationOutcome>): (kept: seq<ValidationOutcome>)
    ensures |kept| <= |results|
    ensures forall i :: 0 <= i < |kept| ==> kept[i].errors.Some? && kept[i] in results
  {
    if results == [] then []
    else
      var n := |results| - 1;
      WithErrors(results[..n]) + (if results[n].errors.Some? then [results[n]] else [])
  }

  /** `.map((result) => result.errors)` applied to the kept outcomes: the failure payload. */
  function FailurePayload(results: seq<ValidationOutcome>): (payload: seq<ErrorList>)
    ensures |payload| <= |results|
    ensures forall i :: 0 <= i < |payload| ==> Some(payload[i]) in set o | o in results :: o.errors
  {
    var kept := WithErrors(results);
    seq(|kept|, i requires 0 <= i < |kept| => kept[i].errors.value)
  }

  /**
   * The `.then` step of `validate`: failure when some outcome is invalid,
   * reported through the callback when there is one and otherwise by
   * rejecting; success reported the same way. With a callback the promise
   * is never settled.
   */
  function Aggregate(results: seq<ValidationOutcome>, hasCallback: bool): (r: Report)
    // exactly one reporting action per call
    ensures |r.callbackCalls| + (if r.promise == Pending then 0 else 1) == 1
    // the callback is used if and only if one was supplied; then the promise stays pending
    ensures hasCallback <==> r.promise == Pending
    ensures hasCallback <==> |r.callbackCalls| == 1
    // success if and only if no outcome is invalid
    ensures Succeeded(r) <==> AllValid(results)
    // on failure, the payload is the present errors in iteration order
    ensures !AllValid(results) ==>
      if hasCallback then r.callbackCalls == [Some(FailurePayload(results))]
      else r.promise == RejectedWith(FailurePayload(results))
  {
    if exists i :: 0 <= i < |results| && !results[i].valid then
      var errors := FailurePayload(results);
      if hasCallback then Report(Pending, [Some(errors)]) else Report(RejectedWith(errors), [])
    else
      if hasCallback then Report(Pending, [None]) else Report(Fulfilled, [])
  }

  /** What one outcome contributes to the failure payload. */
  function Contribution(o: ValidationOutcome): seq<ErrorList> {
    if o.errors.Some? then [o.errors.value] else []
  }

  lemma {:induction false} WithErrorsAppend(a: seq<ValidationOutcome>, b: seq<ValidationOutcome>)
    ensures WithErrors(a + b) == WithErrors(a) + WithErrors(b)
    decreases |b|
  {
    if b == [] {
      assert a + b == a;
    } else {
      var n := |b| - 1;
      assert (a + b)[..|a + b| - 1] == a + b[..n];
      WithErrorsAppend(a, b[..n]);
    }
  }

  /** The filter keeps each outcome with present `errors` as often as it occurs, and nothing else. */
  lemma {:induction false} WithErrorsCounts(results: seq<ValidationOutcome>, o: ValidationOutcome)
    ensures multiset(WithErrors(results))[o] == if o.errors.Some? then multiset(results)[o] else 0
  {
    if results != [] {
      var n := |results| - 1;
      assert results == results[..n] + [results[n]];
      WithErrorsCounts(results[..n], o);
    }
  }

  /** The payload is built outcome by outcome, in iteration order. */
  lemma {:induction false} FailurePayloadAppend(a: seq<ValidationOutcome>, b: seq<ValidationOutcome>)
    ensures FailurePayload(a + b) == FailurePayload(a) + FailurePayload(b)
  {
    WithErrorsAppend(a, b);
  }

  /** A single outcome contributes its `errors` exactly when they are present. */
  lemma FailurePayloadSingle(o: ValidationOutcome)
    ensures FailurePayload([o]) == Contribution(o)
  {
    assert [o][..0] == [];
    assert WithErrors([o]) == if o.errors.Some? then [o] else [];
  }

  /**
   * Reference definition of the payload, one outcome at a time from the
   * front, and its agreement with the filter/map pipeline.
   */
  function PayloadByOutcome(results: seq<ValidationOutcome>): seq<ErrorList> {
    if results == [] then [] else Contribution(results[0]) + PayloadByOutcome(results[1..])
  }

  lemma {:induction false} FailurePayloadMatchesReference(results: seq<ValidationOutcome>)
    ensures FailurePayload(results) == PayloadByOutcome(results)
  {
    if results != [] {
      assert results == [results[0]] + results[1..];
      FailurePayloadAppend([results[0]], results[1..]);
      FailurePayloadSingle(results[0]);
      FailurePayloadMatchesReference(results[1..]);
    }
  }

  /** Every present `errors` value, even an empty list, even from a valid outcome, is in the payload. */
  lemma PresentErrorsAreReported(results: seq<ValidationOutcome>, i: nat)
    requires i < |results| && results[i].errors.Some?
    ensures results[i].errors.value in FailurePayload(results)
  {
    var kept := WithErrors(results);
    WithErrorsCounts(results, results[i]);
    assert multiset(results)[results[i]] > 0;
    assert results[i] in multiset(kept);
    var j :| 0 <= j < |kept| && kept[j] == results[i];
    assert FailurePayload(results)[j] == results[i].errors.value;
  }

  /** The payload has one entry per outcome whose `errors` is present, and no other. */
  lemma {:induction false} FailurePayloadLength(results: seq<ValidationOutcome>)
    ensures |FailurePayload(results)| == |set i | 0 <= i < |results| && results[i].errors.Some?|
  {
    if results != [] {
      var n := |results| - 1;
      assert results == results[..n] + [results[n]];
      FailurePayloadAppend(results[..n], [results[n]]);
      FailurePayloadSingle(results[n]);
      FailurePayloadLength(results[..n]);
      var s := set i | 0 <= i < |results| && results[i].errors.Some?;
      var s' := set i | 0 <= i < n && results[..n][i].errors.Some?;
      assert s == if results[n].errors.Some? then s' + {n} else s';
    }
  }

  /** Outcomes whose `errors` is absent contribute nothing: an invalid field without errors yields an empty payload. */
  lemma AbsentErrorsContributeNothing(results: seq<ValidationOutcome>)
    requires forall i :: 0 <= i < |results| ==> results[i].errors.None?
    ensures FailurePayload(results) == []
  {
    FailurePayloadLength(results);
    assert (set i | 0 <= i < |results| && results[i].errors.Some?) == {};
  }
}
