/** Classification of one candidate against the control: `matching`,
    `ignoring` and `processObservation`, together with the semantic
    definitions they are proved against. */
module Classifier {
  import opened Wrappers
  import opened Model

  /** The three outcomes of classifying a candidate. */
  datatype Class = Matched | Ignored | Mismatched

  /** When a candidate counts as equivalent to the control: with no errors on
      either side, the comparator says true without an error; with errors on
      both sides, the error texts are equal; otherwise never. */
  predicate Agree<V>(cmp: Check<V>, control: Observation<V>, candidate: Observation<V>)
  {
    if control.err.None? && candidate.err.None? then
      cmp(control.value, candidate.value) == Verdict(true, None)
    else
      control.err.Some? && candidate.err.Some? && Message(control.err.value) == Message(candidate.err.value)
  }

  /** An ignore predicate lets evaluation continue: false, no error. */
  predicate Passes(v: Verdict)
  {
    v == Verdict(false, None)
  }

  /** Predicate `i` is the first one that does not pass, and it accepts. */
  ghost predicate AcceptedAt<V>(ps: seq<Check<V>>, a: Option<V>, b: Option<V>, i: int)
  {
    && 0 <= i < |ps|
    && ps[i](a, b) == Verdict(true, None)
    && forall j :: 0 <= j < i ==> Passes(ps[j](a, b))
  }

  /** Predicate `i` is the first one that does not pass, and it fails. */
  ghost predicate FailsAt<V>(ps: seq<Check<V>>, a: Option<V>, b: Option<V>, i: int)
  {
    && 0 <= i < |ps|
    && ps[i](a, b).err.Some?
    && forall j :: 0 <= j < i ==> Passes(ps[j](a, b))
  }

  /** Some predicate accepts the pair before any predicate fails. */
  ghost predicate Excused<V>(ps: seq<Check<V>>, a: Option<V>, b: Option<V>)
  {
    exists i :: AcceptedAt(ps, a, b, i)
  }

  /** Some predicate fails before any predicate accepts the pair. */
  ghost predicate IgnoreFails<V>(ps: seq<Check<V>>, a: Option<V>, b: Option<V>)
  {
    exists i :: FailsAt(ps, a, b, i)
  }

  /** The error of the predicate that stopped the evaluation. */
  ghost function FirstFailure<V>(ps: seq<Check<V>>, a: Option<V>, b: Option<V>): Error
    requires IgnoreFails(ps, a, b)
  {
    var i :| FailsAt(ps, a, b, i);
    ps[i](a, b).err.value
  }

  /** `matching`: the three-way rule on errors, delegating to the
      comparator only when neither side has an error. */
  function Matching<V>(cmp: Check<V>, control: Observation<V>, candidate: Observation<V>): (r: Verdict)
    ensures (r.ok && r.err.None?) <==> Agree(cmp, control, candidate)
    ensures control.err.None? && candidate.err.None? ==> r == cmp(control.value, candidate.value)
    ensures r.err.Some? ==> control.err.None? && candidate.err.None?
  {
    if control.err.None? && candidate.err.None? then
      cmp(control.value, candidate.value)
    else if control.err.Some? && candidate.err.Some? then
      Verdict(Message(control.err.value) == Message(candidate.err.value), None)
    else
      Verdict(false, None)
  }

  /** Moving past a predicate that passes shifts every index by one. */
  lemma {:induction false} SkipPassing<V>(ps: seq<Check<V>>, a: Option<V>, b: Option<V>)
    requires |ps| > 0 && Passes(ps[0](a, b))
    ensures Excused(ps, a, b) <==> Excused(ps[1..], a, b)
    ensures forall i :: FailsAt(ps, a, b, i) ==> FailsAt(ps[1..], a, b, i - 1)
    ensures IgnoreFails(ps, a, b) <==> IgnoreFails(ps[1..], a, b)
  {
    var tail := ps[1..];
    forall i | AcceptedAt(ps, a, b, i)
      ensures AcceptedAt(tail, a, b, i - 1)
    {
      assert i != 0;
      forall j | 0 <= j < i - 1
        ensures Passes(tail[j](a, b))
      {
        assert tail[j] == ps[j + 1];
      }
    }
    forall i | AcceptedAt(tail, a, b, i)
      ensures AcceptedAt(ps, a, b, i + 1)
    {
      forall j | 0 <= j < i + 1
        ensures Passes(ps[j](a, b))
      {
        if j > 0 {
          assert ps[j] == tail[j - 1];
        }
      }
    }
    forall i | FailsAt(ps, a, b, i)
      ensures FailsAt(tail, a, b, i - 1)
    {
      assert i != 0;
      forall j | 0 <= j < i - 1
        ensures Passes(tail[j](a, b))
      {
        assert tail[j] == ps[j + 1];
      }
    }
    forall i | FailsAt(tail, a, b, i)
      ensures FailsAt(ps, a, b, i + 1)
    {
      forall j | 0 <= j < i + 1
        ensures Passes(ps[j](a, b))
      {
        if j > 0 {
          assert ps[j] == tail[j - 1];
        }
      }
    }
  }

  /** `ignoring`: the predicates are evaluated in order; the first one that
      errs stops evaluation with that error, the first one that says true
      without an error makes the result true, and otherwise the result is
      false with no error. */
  function Ignoring<V>(ps: seq<Check<V>>, a: Option<V>, b: Option<V>): (r: Verdict)
    ensures r == Verdict(true, None) <==> Excused(ps, a, b)
    ensures forall i :: FailsAt(ps, a, b, i) ==> r == Verdict(false, ps[i](a, b).err)
    ensures !Excused(ps, a, b) && !IgnoreFails(ps, a, b) ==> r == Verdict(false, None)
    ensures r.ok ==> r.err.None?
    decreases |ps|
  {
    if |ps| == 0 then
      Verdict(false, None)
    else
      var v := ps[0](a, b);
      if v.err.Some? then
        assert FailsAt(ps, a, b, 0);
        assert forall i :: FailsAt(ps, a, b, i) ==> i == 0;
        Verdict(false, v.err)
      else if v.ok then
        assert AcceptedAt(ps, a, b, 0);
        assert forall i :: FailsAt(ps, a, b, i) ==> i == 0;
        Verdict(true, None)
      else
        SkipPassing(ps, a, b);
        Ignoring(ps[1..], a, b)
  }

  /** The class the engine assigns a candidate. */
  ghost function ClassOf<V>(e: Experiment<V>, control: Observation<V>, candidate: Observation<V>): Class
  {
    if Agree(e.comparator, control, candidate) then Matched
    else if Excused(e.ignores, control.value, candidate.value) then Ignored
    else Mismatched
  }

  /** The comparator failed: both sides are error-free and it returned an error. */
  predicate CompareFails<V>(e: Experiment<V>, control: Observation<V>, candidate: Observation<V>)
  {
    control.err.None? && candidate.err.None? && e.comparator(control.value, candidate.value).err.Some?
  }

  /** The operation errors classifying one candidate records, in order: the
      comparator's error, then the error of the ignore predicate that stopped
      evaluation, the latter only when the candidate did not match. */
  ghost function ExpectedErrors<V>(e: Experiment<V>, control: Observation<V>, candidate: Observation<V>): seq<ResultError>
  {
    (if CompareFails(e, control, candidate)
     then [ResultError(Compare, e.name, e.comparator(control.value, candidate.value).err.value)]
     else [])
    + (if !Agree(e.comparator, control, candidate) && IgnoreFails(e.ignores, control.value, candidate.value)
       then [ResultError(Ignore, e.name, FirstFailure(e.ignores, control.value, candidate.value))]
       else [])
  }

  /** `processObservation`: appends the candidate to `ignored` or
      `mismatched` according to its class (to neither when it matched),
      appends the operation errors met on the way, and changes nothing else. */
  function ProcessObservation<V>(e: Experiment<V>, r: Result<V>, control: Observation<V>, candidate: Observation<V>): (r': Result<V>)
    ensures r'.control == r.control && r'.observations == r.observations && r'.candidates == r.candidates
    ensures r'.ignored == r.ignored + (if ClassOf(e, control, candidate) == Ignored then [candidate] else [])
    ensures r'.mismatched == r.mismatched + (if ClassOf(e, control, candidate) == Mismatched then [candidate] else [])
    ensures r'.errors == r.errors + ExpectedErrors(e, control, candidate)
  {
    var m := Matching(e.comparator, control, candidate);
    var afterCompare := if m.err.Some? then r.errors + [ResultError(Compare, e.name, m.err.value)] else r.errors;
    if m.ok && m.err.None? then
      r.(errors := afterCompare)
    else
      var ig := Ignoring(e.ignores, control.value, candidate.value);
      var errors := if ig.err.Some? then afterCompare + [ResultError(Ignore, e.name, ig.err.value)] else afterCompare;
      if ig.ok && ig.err.None? then
        r.(ignored := r.ignored + [candidate], errors := errors)
      else
        r.(mismatched := r.mismatched + [candidate], errors := errors)
  }

  /** When either side carries an error the comparator is never consulted:
      any two comparators give the same verdict, which has no error and is
      true exactly when both sides erred with the same text. */
  lemma ErrorsDecideMatching<V>(cmp1: Check<V>, cmp2: Check<V>, control: Observation<V>, candidate: Observation<V>)
    requires control.err.Some? || candidate.err.Some?
    ensures Matching(cmp1, control, candidate) == Matching(cmp2, control, candidate)
    ensures Matching(cmp1, control, candidate).err.None?
    ensures Matching(cmp1, control, candidate).ok <==>
              control.err.Some? && candidate.err.Some? && Message(control.err.value) == Message(candidate.err.value)
  {
  }

  /** With a symmetric comparator, matching does not depend on which side is the control. */
  lemma MatchingSymmetric<V>(cmp: Check<V>, x: Observation<V>, y: Observation<V>)
    requires forall a, b :: cmp(a, b) == cmp(b, a)
    ensures Matching(cmp, x, y) == Matching(cmp, y, x)
  {
  }

  /** First true wins: once a predicate accepts the pair or fails, the
      predicates after it are never evaluated, so appending more leaves the
      verdict unchanged. */
  lemma {:induction false} IgnoringStopsAtDecision<V>(ps: seq<Check<V>>, qs: seq<Check<V>>, a: Option<V>, b: Option<V>)
    requires Excused(ps, a, b) || IgnoreFails(ps, a, b)
    ensures Ignoring(ps + qs, a, b) == Ignoring(ps, a, b)
  {
    var all := ps + qs;
    if Excused(ps, a, b) {
      var i :| AcceptedAt(ps, a, b, i);
      forall j | 0 <= j <= i
        ensures all[j] == ps[j]
      {
      }
      assert AcceptedAt(all, a, b, i);
    } else {
      var i :| FailsAt(ps, a, b, i);
      forall j | 0 <= j <= i
        ensures all[j] == ps[j]
      {
      }
      assert FailsAt(all, a, b, i);
    }
  }

  /** No predicates, or predicates that all pass, never ignore and never err. */
  lemma {:induction false} AllPassingNeverIgnores<V>(ps: seq<Check<V>>, a: Option<V>, b: Option<V>)
    requires forall i :: 0 <= i < |ps| ==> Passes(ps[i](a, b))
    ensures Ignoring(ps, a, b) == Verdict(false, None)
  {
    assert !Excused(ps, a, b);
    assert !IgnoreFails(ps, a, b);
  }

  /** A comparator error and an ignore error on the same candidate are both
      recorded, compare first, and the candidate lands in `mismatched`,
      whichever ignore predicate it is that fails. */
  lemma CompoundingErrors<V>(e: Experiment<V>, r: Result<V>, control: Observation<V>, candidate: Observation<V>, ce: Error)
    requires control.err.None? && candidate.err.None?
    requires e.comparator(control.value, candidate.value).err == Some(ce)
    requires IgnoreFails(e.ignores, control.value, candidate.value)
    ensures ProcessObservation(e, r, control, candidate).errors
              == r.errors + [ResultError(Compare, e.name, ce),
                             ResultError(Ignore, e.name, FirstFailure(e.ignores, control.value, candidate.value))]
    ensures ProcessObservation(e, r, control, candidate).mismatched == r.mismatched + [candidate]
    ensures ProcessObservation(e, r, control, candidate).ignored == r.ignored
  {
    var i :| FailsAt(e.ignores, control.value, candidate.value, i);
    var _ := Ignoring(e.ignores, control.value, candidate.value);
  }
}
