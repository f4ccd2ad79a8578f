/** The sequential path of `Run`: observe the control, then every other
    behaviour in iteration order, classifying each candidate as soon as it is
    observed; then publish and report. */
module Executor {
  import opened Wrappers
  import opened Model
  import opened Classifier

  /** `observe`: returns an observation whenever the behaviour returns; a
      behaviour's error is captured, not propagated. A nil behaviour is looked
      up by name; if it is still nil, the observation carries the "not found"
      error and no value. */
  function Observe<V>(e: Experiment<V>, name: string, b: Option<Outcome<V>>): (o: Observation<V>)
    ensures o.name == name
    ensures b.Some? ==> o.value == b.value.value && o.err == b.value.err
    ensures b.None? && Lookup(e.behaviors, name).None? ==> o.value.None? && o.err == Some(NotFound(name, e.name))
    ensures b.None? && Lookup(e.behaviors, name).Some? ==>
              o.value == Lookup(e.behaviors, name).value.value && o.err == Lookup(e.behaviors, name).value.err
  {
    var found := if b.None? then Lookup(e.behaviors, name) else b;
    match found
    case None => Observation(name, None, Some(NotFound(name, e.name)))
    case Some(out) => Observation(name, out.value, out.err)
  }

  /** Reference definition of the candidates: the observations of every
      behaviour not named `name`, in iteration order. */
  function ObserveOthers<V>(e: Experiment<V>, name: string, bs: seq<Behavior<V>>): (cs: seq<Observation<V>>)
    ensures |cs| <= |bs|
    ensures forall i :: 0 <= i < |cs| ==> cs[i].name != name
    decreases |bs|
  {
    if |bs| == 0 then []
    else
      var last := bs[|bs| - 1];
      var rest := ObserveOthers(e, name, bs[..|bs| - 1]);
      if last.name == name then rest
      else rest + [Observe(e, last.name, last.run)]
  }

  /** The candidates are exactly the observations of the non-control
      behaviours: each candidate comes from one, and each one yields a candidate. */
  lemma {:induction false} CandidatesAreOthers<V>(e: Experiment<V>, name: string, bs: seq<Behavior<V>>)
    ensures forall c :: c in ObserveOthers(e, name, bs) ==>
              exists k :: 0 <= k < |bs| && bs[k].name == c.name && c == Observe(e, bs[k].name, bs[k].run)
    ensures forall k :: 0 <= k < |bs| && bs[k].name != name ==> Observe(e, bs[k].name, bs[k].run) in ObserveOthers(e, name, bs)
    decreases |bs|
  {
    if |bs| > 0 {
      var prefix := bs[..|bs| - 1];
      CandidatesAreOthers(e, name, prefix);
      assert forall k :: 0 <= k < |prefix| ==> prefix[k] == bs[k];
    }
  }

  /** The candidates of a given class, in order. */
  ghost function Select<V>(e: Experiment<V>, control: Observation<V>, cs: seq<Observation<V>>, k: Class): seq<Observation<V>>
    decreases |cs|
  {
    if |cs| == 0 then []
    else
      Select(e, control, cs[..|cs| - 1], k)
      + (if ClassOf(e, control, cs[|cs| - 1]) == k then [cs[|cs| - 1]] else [])
  }

  /** The classification errors of the candidates, in candidate order. */
  ghost function AllErrors<V>(e: Experiment<V>, control: Observation<V>, cs: seq<Observation<V>>): seq<ResultError>
    decreases |cs|
  {
    if |cs| == 0 then []
    else AllErrors(e, control, cs[..|cs| - 1]) + ExpectedErrors(e, control, cs[|cs| - 1])
  }

  /** The body of the sequential loop, as a left fold over the behaviours:
      skip the control, observe the others, record and classify each. */
  function Sweep<V>(e: Experiment<V>, name: string, bs: seq<Behavior<V>>, r0: Result<V>): (r: Result<V>)
    ensures r.control == r0.control
    ensures r.candidates == r0.candidates + ObserveOthers(e, name, bs)
    ensures r.observations == r0.observations + ObserveOthers(e, name, bs)
    ensures r.ignored == r0.ignored + Select(e, r0.control, ObserveOthers(e, name, bs), Ignored)
    ensures r.mismatched == r0.mismatched + Select(e, r0.control, ObserveOthers(e, name, bs), Mismatched)
    ensures r.errors == r0.errors + AllErrors(e, r0.control, ObserveOthers(e, name, bs))
    decreases |bs|
  {
    if |bs| == 0 then r0
    else
      var r := Sweep(e, name, bs[..|bs| - 1], r0);
      var b := bs[|bs| - 1];
      if b.name == name then r
      else
        var c := Observe(e, b.name, b.run);
        var prev := ObserveOthers(e, name, bs[..|bs| - 1]);
        var cs := prev + [c];
        assert ObserveOthers(e, name, bs) == cs;
        var recorded := r.(candidates := r.candidates + [c], observations := r.observations + [c]);
        var r' := ProcessObservation(e, recorded, r0.control, c);
        assert r'.ignored == r0.ignored + Select(e, r0.control, cs, Ignored) by {
          var x := if ClassOf(e, r0.control, c) == Ignored then [c] else [];
          SelectSnoc(e, r0.control, prev, c, Ignored);
          Associative(r0.ignored, Select(e, r0.control, prev, Ignored), x);
        }
        assert r'.mismatched == r0.mismatched + Select(e, r0.control, cs, Mismatched) by {
          var x := if ClassOf(e, r0.control, c) == Mismatched then [c] else [];
          SelectSnoc(e, r0.control, prev, c, Mismatched);
          Associative(r0.mismatched, Select(e, r0.control, prev, Mismatched), x);
        }
        assert r'.errors == r0.errors + AllErrors(e, r0.control, cs) by {
          AllErrorsSnoc(e, r0.control, prev, c);
          Associative(r0.errors, AllErrors(e, r0.control, prev), ExpectedErrors(e, r0.control, c));
        }
        assert r'.candidates == r0.candidates + cs by {
          Associative(r0.candidates, prev, [c]);
        }
        assert r'.observations == r0.observations + cs by {
          Associative(r0.observations, prev, [c]);
        }
        r'
  }

  lemma Associative<T>(a: seq<T>, b: seq<T>, c: seq<T>)
    ensures (a + b) + c == a + (b + c)
  {
  }

  lemma SelectSnoc<V>(e: Experiment<V>, control: Observation<V>, cs: seq<Observation<V>>, c: Observation<V>, k: Class)
    ensures Select(e, control, cs + [c], k) == Select(e, control, cs, k) + (if ClassOf(e, control, c) == k then [c] else [])
  {
    assert (cs + [c])[..|cs|] == cs;
  }

  lemma AllErrorsSnoc<V>(e: Experiment<V>, control: Observation<V>, cs: seq<Observation<V>>, c: Observation<V>)
    ensures AllErrors(e, control, cs + [c]) == AllErrors(e, control, cs) + ExpectedErrors(e, control, c)
  {
    assert (cs + [c])[..|cs|] == cs;
  }

  /** What a run produces: the final result, the result handed to the
      publish hook (before a publish error is appended), and the errors handed
      to the error reporter, `None` when the reporter is not invoked. */
  datatype Trace<V> = Trace(result: Result<V>, published: Result<V>, reported: Option<seq<ResultError>>)

  function BeforeErrors<V>(e: Experiment<V>): seq<ResultError>
  {
    if e.beforeRun.Some? then [ResultError(BeforeRun, e.name, e.beforeRun.value)] else []
  }

  function PublishErrors<V>(e: Experiment<V>, r: Result<V>): seq<ResultError>
  {
    if e.publish(r).Some? then [ResultError(Publish, e.name, e.publish(r).value)] else []
  }

  /** The sequential `Run`. The control must be registered: otherwise the
      Go code fails, either in `make` with length -1 when there are no
      behaviours, or by writing past the end of `Candidates`. */
  function Run<V>(e: Experiment<V>, name: string): (t: Trace<V>)
    requires UniqueNames(e.behaviors) && HasBehavior(e.behaviors, name)
    ensures forall k :: 0 <= k < |e.behaviors| && e.behaviors[k].name == name ==>
              t.result.control == Observe(e, name, e.behaviors[k].run)
    ensures |t.result.observations| == |e.behaviors| && t.result.observations[0] == t.result.control
    ensures |t.result.candidates| == |e.behaviors| - 1
    ensures forall i :: 0 <= i < |t.result.candidates| ==> t.result.observations[i + 1] == t.result.candidates[i]
    ensures t.result.candidates == ObserveOthers(e, name, e.behaviors)
    ensures t.result.ignored == Select(e, t.result.control, t.result.candidates, Ignored)
    ensures t.result.mismatched == Select(e, t.result.control, t.result.candidates, Mismatched)
    ensures t.published.errors == BeforeErrors(e) + AllErrors(e, t.result.control, t.result.candidates)
    ensures t.result == t.published.(errors := t.published.errors + PublishErrors(e, t.published))
    ensures t.reported.Some? <==> |t.result.errors| > 0
    ensures t.reported.Some? ==> t.reported.value == t.result.errors
  {
    var control := Observe(e, name, Lookup(e.behaviors, name));
    var r0 := Result(control, [control], [], [], [], BeforeErrors(e));
    var r := Sweep(e, name, e.behaviors, r0);
    var cs := ObserveOthers(e, name, e.behaviors);
    assert r.candidates == cs && r.observations == [control] + cs by {
      assert [] + cs == cs;
    }
    assert r.ignored == Select(e, control, cs, Ignored) by {
      assert [] + Select(e, control, cs, Ignored) == Select(e, control, cs, Ignored);
    }
    assert r.mismatched == Select(e, control, cs, Mismatched) by {
      assert [] + Select(e, control, cs, Mismatched) == Select(e, control, cs, Mismatched);
    }
    CandidateCount(e, name, e.behaviors);
    var pubErr := e.publish(r);
    var final := if pubErr.Some? then r.(errors := r.errors + [ResultError(Publish, e.name, pubErr.value)]) else r;
    Trace(final, r, if |final.errors| > 0 then Some(final.errors) else None)
  }

  /** Without the control among them, every behaviour becomes a candidate. */
  lemma {:induction false} NoControlKeepsAll<V>(e: Experiment<V>, name: string, bs: seq<Behavior<V>>)
    requires forall k :: 0 <= k < |bs| ==> bs[k].name != name
    ensures |ObserveOthers(e, name, bs)| == |bs|
    decreases |bs|
  {
    if |bs| > 0 {
      NoControlKeepsAll(e, name, bs[..|bs| - 1]);
    }
  }

  /** With unique names and the control present, there is one candidate per
      behaviour other than the control. */
  lemma {:induction false} CandidateCount<V>(e: Experiment<V>, name: string, bs: seq<Behavior<V>>)
    requires UniqueNames(bs) && HasBehavior(bs, name)
    ensures |ObserveOthers(e, name, bs)| == |bs| - 1
    decreases |bs|
  {
    var prefix := bs[..|bs| - 1];
    if bs[|bs| - 1].name == name {
      NoControlKeepsAll(e, name, prefix);
    } else {
      var k :| 0 <= k < |bs| && bs[k].name == name;
      assert prefix[k].name == name;
      CandidateCount(e, name, prefix);
    }
  }

  /** A candidate is selected for a class exactly when it is a candidate of that class. */
  lemma {:induction false} SelectMembers<V>(e: Experiment<V>, control: Observation<V>, cs: seq<Observation<V>>, k: Class)
    ensures forall x :: x in Select(e, control, cs, k) <==> x in cs && ClassOf(e, control, x) == k
    decreases |cs|
  {
    if |cs| > 0 {
      var prefix := cs[..|cs| - 1];
      SelectMembers(e, control, prefix, k);
      assert cs == prefix + [cs[|cs| - 1]];
    }
  }

  /** Every candidate lands in exactly one of the three classes, so the
      matched, ignored and mismatched candidates together number the candidates. */
  lemma {:induction false} SelectSizes<V>(e: Experiment<V>, control: Observation<V>, cs: seq<Observation<V>>)
    ensures |Select(e, control, cs, Matched)| + |Select(e, control, cs, Ignored)| + |Select(e, control, cs, Mismatched)| == |cs|
    decreases |cs|
  {
    if |cs| > 0 {
      SelectSizes(e, control, cs[..|cs| - 1]);
    }
  }

  /** The ignored and mismatched selections are disjoint sub-collections of
      the candidates, and a candidate in neither is one that matched. */
  lemma Partition<V>(e: Experiment<V>, control: Observation<V>, cs: seq<Observation<V>>)
    ensures forall x :: x in Select(e, control, cs, Ignored) ==> x in cs && x !in Select(e, control, cs, Mismatched)
    ensures forall x :: x in Select(e, control, cs, Mismatched) ==> x in cs && x !in Select(e, control, cs, Ignored)
    ensures forall x :: x in cs && x !in Select(e, control, cs, Ignored) && x !in Select(e, control, cs, Mismatched) ==>
              ClassOf(e, control, x) == Matched
    ensures |Select(e, control, cs, Ignored)| + |Select(e, control, cs, Mismatched)| <= |cs|
  {
    SelectMembers(e, control, cs, Ignored);
    SelectMembers(e, control, cs, Mismatched);
    SelectSizes(e, control, cs);
  }

  /** No candidate of a class is selected exactly when the selection is empty. */
  lemma NoneSelected<V>(e: Experiment<V>, control: Observation<V>, cs: seq<Observation<V>>, k: Class)
    ensures Select(e, control, cs, k) == [] <==> forall i :: 0 <= i < |cs| ==> ClassOf(e, control, cs[i]) != k
  {
    SelectMembers(e, control, cs, k);
    var sel := Select(e, control, cs, k);
    if sel != [] {
      assert sel[0] in sel;
    }
  }

  /** In a run's result, `ignored` and `mismatched` are disjoint
      sub-collections of the candidates, and a candidate in neither matched. */
  lemma RunPartition<V>(e: Experiment<V>, name: string)
    requires UniqueNames(e.behaviors) && HasBehavior(e.behaviors, name)
    ensures var r := Run(e, name).result;
      forall x :: x in r.ignored ==> x in r.candidates && x !in r.mismatched
    ensures var r := Run(e, name).result;
      forall x :: x in r.mismatched ==> x in r.candidates && x !in r.ignored
    ensures var r := Run(e, name).result;
      forall x :: x in r.candidates && x !in r.ignored && x !in r.mismatched ==> ClassOf(e, r.control, x) == Matched
  {
    var r := Run(e, name).result;
    Partition(e, r.control, r.candidates);
  }

  /** A run is matched exactly when every candidate matched the control. */
  lemma RunMatchedIff<V>(e: Experiment<V>, name: string)
    requires UniqueNames(e.behaviors) && HasBehavior(e.behaviors, name)
    ensures var r := Run(e, name).result;
      IsMatched(r) <==> forall i :: 0 <= i < |r.candidates| ==> ClassOf(e, r.control, r.candidates[i]) == Matched
  {
    var r := Run(e, name).result;
    var cs := r.candidates;
    assert IsMatched(r) <==> Select(e, r.control, cs, Ignored) == [] && Select(e, r.control, cs, Mismatched) == [];
    NoneSelected(e, r.control, cs, Ignored);
    NoneSelected(e, r.control, cs, Mismatched);
  }

  /** When every behaviour returns the same value without an error and the
      comparator accepts a value against itself, the run is matched. */
  lemma IdenticalOutcomesMatch<V>(e: Experiment<V>, name: string, v: Option<V>)
    requires UniqueNames(e.behaviors) && HasBehavior(e.behaviors, name)
    requires forall k :: 0 <= k < |e.behaviors| ==> e.behaviors[k].run == Some(Outcome(v, None))
    requires e.comparator(v, v) == Verdict(true, None)
    ensures IsMatched(Run(e, name).result)
  {
    var r := Run(e, name).result;
    var k0 :| 0 <= k0 < |e.behaviors| && e.behaviors[k0].name == name;
    assert r.control.value == v && r.control.err.None?;
    CandidatesAreOthers(e, name, e.behaviors);
    forall i | 0 <= i < |r.candidates|
      ensures ClassOf(e, r.control, r.candidates[i]) == Matched
    {
      assert r.candidates[i] in r.candidates;
      var k :| 0 <= k < |e.behaviors| && e.behaviors[k].name == r.candidates[i].name
                && r.candidates[i] == Observe(e, e.behaviors[k].name, e.behaviors[k].run);
      assert Agree(e.comparator, r.control, r.candidates[i]);
    }
    RunMatchedIff(e, name);
  }

  /** Classification records only compare and ignore errors. */
  lemma {:induction false} ClassificationErrorOps<V>(e: Experiment<V>, control: Observation<V>, cs: seq<Observation<V>>)
    ensures forall i :: 0 <= i < |AllErrors(e, control, cs)| ==>
              AllErrors(e, control, cs)[i].operation in {Compare, Ignore}
    decreases |cs|
  {
    if |cs| > 0 {
      ClassificationErrorOps(e, control, cs[..|cs| - 1]);
    }
  }

  /** Errors accumulate in order: the before-run failure first, then the
      classification errors, then the publish failure last. */
  lemma ErrorOrder<V>(e: Experiment<V>, name: string)
    requires UniqueNames(e.behaviors) && HasBehavior(e.behaviors, name)
    ensures var t := Run(e, name);
      e.beforeRun.Some? ==> t.result.errors[0] == ResultError(BeforeRun, e.name, e.beforeRun.value)
    ensures var t := Run(e, name);
      e.publish(t.published).Some? ==>
        t.result.errors[|t.result.errors| - 1] == ResultError(Publish, e.name, e.publish(t.published).value)
    ensures var t := Run(e, name);
      forall i :: |BeforeErrors(e)| <= i < |t.published.errors| ==> t.result.errors[i].operation in {Compare, Ignore}
  {
    var t := Run(e, name);
    ClassificationErrorOps(e, t.result.control, t.result.candidates);
  }

  /** A control and one other behaviour: the run records exactly that
      behaviour's observation as the candidate and files it by its class. */
  lemma {:induction false} SingleCandidate<V>(e: Experiment<V>, name: string, other: string, x: Outcome<V>, y: Outcome<V>)
    requires e.behaviors == [Behavior(name, Some(x)), Behavior(other, Some(y))] && other != name
    requires UniqueNames(e.behaviors) && HasBehavior(e.behaviors, name)
    ensures var r := Run(e, name).result;
      && r.control == Observation(name, x.value, x.err)
      && r.candidates == [Observation(other, y.value, y.err)]
      && r.ignored == (if ClassOf(e, r.control, r.candidates[0]) == Ignored then r.candidates else [])
      && r.mismatched == (if ClassOf(e, r.control, r.candidates[0]) == Mismatched then r.candidates else [])
  {
    var bs := e.behaviors;
    var c := Observation(other, y.value, y.err);
    assert ObserveOthers(e, name, bs[..1]) == [] by {
      assert bs[..1][..0] == [];
    }
    assert ObserveOthers(e, name, bs) == [c] by {
      assert Observe(e, other, Some(y)) == c;
      assert [] + [c] == [c];
    }
    var r := Run(e, name).result;
    assert r.control == Observation(name, x.value, x.err) by {
      assert bs[0].name == name;
    }
    assert r.candidates == [c];
    SelectSnoc(e, r.control, [], c, Ignored);
    SelectSnoc(e, r.control, [], c, Mismatched);
    assert [] + [c] == [c];
  }
}
