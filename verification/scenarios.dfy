/** The classification cases exercised by the engine's tests, stated over
    two-behaviour experiments with integer values. */
module Scenarios {
  import opened Wrappers
  import opened Model
  import opened Classifier
  import opened Executor

  /** The names `Use` and `Try` register behaviours under. */
  const ControlName := "control"
  const CandidateName := "candidate"

  function Equal(a: Option<int>, b: Option<int>): Verdict
  {
    Verdict(a == b, None)
  }

  function AlwaysTrue(a: Option<int>, b: Option<int>): Verdict
  {
    Verdict(true, None)
  }

  /** A control and a candidate, no hooks that fail. */
  function Pair(control: Outcome<int>, candidate: Outcome<int>, cmp: Check<int>, ignores: seq<Check<int>>): (e: Experiment<int>)
    ensures UniqueNames(e.behaviors) && HasBehavior(e.behaviors, ControlName)
  {
    var e := Experiment("experiment", [Behavior(ControlName, Some(control)), Behavior(CandidateName, Some(candidate))],
                        cmp, ignores, None, (r: Result<int>) => None);
    assert e.behaviors[0].name == ControlName;
    e
  }

  /** The single candidate of a pair, as the run records it. */
  lemma PairRun(control: Outcome<int>, candidate: Outcome<int>, cmp: Check<int>, ignores: seq<Check<int>>)
    ensures var e := Pair(control, candidate, cmp, ignores);
      var r := Run(e, ControlName).result;
      && r.candidates == [Observation(CandidateName, candidate.value, candidate.err)]
      && r.ignored == (if ClassOf(e, r.control, r.candidates[0]) == Ignored then r.candidates else [])
      && r.mismatched == (if ClassOf(e, r.control, r.candidates[0]) == Mismatched then r.candidates else [])
  {
    SingleCandidate(Pair(control, candidate, cmp, ignores), ControlName, CandidateName, control, candidate);
  }

  /** Equal values with the equality comparator: matched, nothing ignored. */
  lemma ExperimentMatch()
    ensures var r := Run(Pair(Outcome(Some(1), None), Outcome(Some(1), None), Equal, []), ControlName).result;
      IsMatched(r) && !IsMismatched(r) && !IsIgnored(r)
  {
    IdenticalOutcomesMatch(Pair(Outcome(Some(1), None), Outcome(Some(1), None), Equal, []), ControlName, Some(1));
  }

  /** Different values with the equality comparator: mismatched, not ignored. */
  lemma ExperimentMismatch()
    ensures var r := Run(Pair(Outcome(Some(1), None), Outcome(Some(2), None), Equal, []), ControlName).result;
      !IsMatched(r) && IsMismatched(r) && !IsIgnored(r)
  {
    var e := Pair(Outcome(Some(1), None), Outcome(Some(2), None), Equal, []);
    PairRun(Outcome(Some(1), None), Outcome(Some(2), None), Equal, []);
    var r := Run(e, ControlName).result;
    assert !Excused(e.ignores, r.control.value, r.candidates[0].value);
  }

  /** A comparator that accepts everything hides differing values. */
  lemma SkipCompareMismatchedValues()
    ensures !IsMismatched(Run(Pair(Outcome(Some(1), None), Outcome(Some(2), None), AlwaysTrue, []), ControlName).result)
  {
    PairRun(Outcome(Some(1), None), Outcome(Some(2), None), AlwaysTrue, []);
  }

  /** An error on the candidate side only is never a match, whatever the comparator says. */
  lemma SkipCompareMismatchedErrors()
    ensures !IsMatched(Run(Pair(Outcome(Some(1), None), Outcome(Some(1), Some(Raised("try"))), AlwaysTrue, []), ControlName).result)
  {
    PairRun(Outcome(Some(1), None), Outcome(Some(1), Some(Raised("try"))), AlwaysTrue, []);
  }

  /** Errors with the same text match for every comparator: the values are never compared. */
  lemma SkipCompareSameErrors(cmp: Check<int>)
    ensures IsMatched(Run(Pair(Outcome(Some(1), Some(Raised("ok"))), Outcome(Some(2), Some(Raised("ok"))), cmp, []), ControlName).result)
  {
    PairRun(Outcome(Some(1), Some(Raised("ok"))), Outcome(Some(2), Some(Raised("ok"))), cmp, []);
  }

  /** Ignore predicates run in order: a predicate that passes is skipped, the
      first that accepts wins, and a failing one after it is never reached. */
  lemma FirstTrueWins(err: Error)
    ensures Ignoring([(a: Option<int>, b: Option<int>) => Verdict(false, None),
                      AlwaysTrue,
                      (a: Option<int>, b: Option<int>) => Verdict(false, Some(err))], Some(1), Some(2))
            == Verdict(true, None)
    ensures Ignoring([(a: Option<int>, b: Option<int>) => Verdict(false, Some(err)),
                      AlwaysTrue], Some(1), Some(2))
            == Verdict(false, Some(err))
  {
  }
}
