/** Data model of the experiment engine: errors, behaviours, observations,
    per-run results and the experiment configuration the engine reads. */
module Model {
  import opened Wrappers

  /** An error as the engine sees it. Behaviours and hooks raise errors that
      carry a message; `observe` produces the "behaviour not found" error. */
  datatype Error = Raised(text: string) | NotFound(behavior: string, experiment: string)

  /** The text `Error()` returns. Errors are compared by this text only. */
  function Message(e: Error): string
  {
    match e
    case Raised(text) => text
    case NotFound(b, x) => "Behavior \"" + b + "\" not found for experiment \"" + x + "\""
  }

  /** What one call of a behaviour returns: a value (`None` is Go's nil) and
      possibly an error. A behaviour may return a value together with an error. */
  datatype Outcome<V> = Outcome(value: Option<V>, err: Option<Error>)

  /** A registered behaviour; `run` is `None` when the registered function is nil. */
  datatype Behavior<V> = Behavior(name: string, run: Option<Outcome<V>>)

  /** The captured outcome of one behaviour. Timing fields are not modelled. */
  datatype Observation<V> = Observation(name: string, value: Option<V>, err: Option<Error>)

  /** The `(bool, error)` answer of a comparator or an ignore predicate. */
  datatype Verdict = Verdict(ok: bool, err: Option<Error>)

  /** A comparator or ignore predicate over the control and candidate values. */
  type Check<-V> = (Option<V>, Option<V>) -> Verdict

  /** The operations whose failures the sequential engine records. */
  datatype Operation = BeforeRun | Compare | Ignore | Publish

  datatype ResultError = ResultError(operation: Operation, experiment: string, err: Error)

  /** The per-run aggregate. `observations` is the control followed by the
      candidates; `ignored` and `mismatched` hold candidates. */
  datatype Result<V> = Result(
    control: Observation<V>,
    observations: seq<Observation<V>>,
    candidates: seq<Observation<V>>,
    ignored: seq<Observation<V>>,
    mismatched: seq<Observation<V>>,
    errors: seq<ResultError>)

  /** The experiment configuration the core reads. The before-run hook is
      represented by its outcome; the publish hook by a pure function. */
  datatype Experiment<!V> = Experiment(
    name: string,
    behaviors: seq<Behavior<V>>,
    comparator: Check<V>,
    ignores: seq<Check<V>>,
    beforeRun: Option<Error>,
    publish: Result<V> -> Option<Error>)

  function IsMismatched<V>(r: Result<V>): (mismatched: bool)
    ensures mismatched <==> r.mismatched != []
  {
    |r.mismatched| > 0
  }

  function IsIgnored<V>(r: Result<V>): (ignored: bool)
    ensures ignored <==> r.ignored != []
  {
    |r.ignored| > 0
  }

  /** A result is matched exactly when no candidate was mismatched or ignored. */
  function IsMatched<V>(r: Result<V>): (matched: bool)
    ensures matched <==> r.mismatched == [] && r.ignored == []
    ensures matched ==> !IsMismatched(r) && !IsIgnored(r)
  {
    if IsMismatched(r) || IsIgnored(r) then false else true
  }

  /** Behaviour names are keys of a Go map: no two are equal. */
  ghost predicate UniqueNames<V>(bs: seq<Behavior<V>>)
  {
    forall i, j :: 0 <= i < j < |bs| ==> bs[i].name != bs[j].name
  }

  ghost predicate HasBehavior<V>(bs: seq<Behavior<V>>, name: string)
  {
    exists k :: 0 <= k < |bs| && bs[k].name == name
  }

  /** The map lookup `e.behaviors[name]`: the registered function, or nil
      when the name is absent or bound to a nil function. */
  function Lookup<V>(bs: seq<Behavior<V>>, name: string): (b: Option<Outcome<V>>)
    ensures b.Some? ==> exists k :: 0 <= k < |bs| && bs[k].name == name && bs[k].run == b
    ensures UniqueNames(bs) ==> forall k :: 0 <= k < |bs| && bs[k].name == name ==> b == bs[k].run
    ensures !HasBehavior(bs, name) ==> b.None?
  {
    if |bs| == 0 then None
    else if bs[0].name == name then bs[0].run
    else
      var rest := Lookup(bs[1..], name);
      assert rest.Some? ==> exists k :: 0 <= k < |bs| && bs[k].name == name && bs[k].run == rest by {
        if rest.Some? {
          var k :| 0 <= k < |bs[1..]| && bs[1..][k].name == name && bs[1..][k].run == rest;
          assert bs[k + 1] == bs[1..][k];
        }
      }
      assert !HasBehavior(bs, name) ==> !HasBehavior(bs[1..], name) by {
        if HasBehavior(bs[1..], name) {
          var k :| 0 <= k < |bs[1..]| && bs[1..][k].name == name;
          assert bs[k + 1] == bs[1..][k];
        }
      }
      rest
  }
}
