# Scientist experiment engine — classification and sequential run

A Dafny model of the core of a Go "scientist" library (`scientist.go`). Each
experiment runs a trusted *control* behaviour and one or more *candidate*
behaviours. It records their observations and sorts every candidate into
matched, ignored or mismatched. Operation errors are accumulated rather than
raised.

What is modelled:

- **Data model** (`model.dfy`, module `Model`):
  - errors: `Raised(text)` for errors returned by behaviours and hooks, and `NotFound` for the error `behaviorNotFound` builds;
  - `Message`, the text errors are compared by;
  - behaviours, observations, `(bool, error)` verdicts, `ResultError`, `Result` and the experiment configuration;
  - the predicates `IsMatched`, `IsMismatched` and `IsIgnored`;
  - `Lookup`, the map lookup `e.behaviors[name]`.
- **Classifier** (`classifier.dfy`, module `Classifier`):
  - `Matching`, `Ignoring` and `ProcessObservation`;
  - semantic definitions the operations are proved against. `Agree` says when a candidate counts as equal to the control. `AcceptedAt`, `FailsAt`, `Excused` and `IgnoreFails` state "first deciding predicate wins". `ClassOf` is the class a candidate must get, and `ExpectedErrors` the operation errors it must record.
- **Executor** (`executor.dfy`, module `Executor`):
  - `Observe`;
  - the sequential branch of `Run`, written as a left fold (`Sweep`) over the behaviours in iteration order;
  - the publish and report tail of `Run`.
- **Scenarios** (`scenarios.dfy`): the classification cases of `experiment_test.go`, as lemmas over two-behaviour experiments.

Representation choices:

- Go's `nil` value is `None` of `Option<V>`. The value type `V` is a type parameter.
- A behaviour is a name plus its outcome. The outcome is `None` when the registered function is nil.
- The behaviour map is a sequence with unique names. Go's map iteration order is arbitrary, so the sequence stands for one iteration order. The candidate order proved is the order of that sequence.
- The comparator and the ignore predicates are pure functions. The before-run hook is given as its outcome. The publish hook is a pure function of the result it receives.
- The error reporter is an output of `Run`. It is the list of errors handed to it, or `None` when it is not invoked.
- `Run` also returns the `Result` it hands to the publish hook. That is the final result without the publish error.
- Go preallocates `Candidates` and `Observations` and fills them by index. The model appends to sequences instead. Under `Run`'s precondition the final contents are the same.
- `Run` requires the control's name to be registered. Otherwise the Go code fails at run time: `make` with length −1 when there are no behaviours, or an index past the end of `Candidates`. It also requires behaviour names to be unique, as map keys are.

The sequential loop (scientist.go:77) ranges over a Go map, so the order in which it visits behaviours is arbitrary. Candidates come in the order of the behaviour sequence, which stands for one such order.

## Model

| member | source | states |
|---|---|---|
| `Model.IsMatched` | scientist.go:44-49 | a result is matched exactly when both `mismatched` and `ignored` are empty |
| `Model.IsMismatched` | scientist.go:51-53 | true exactly when `mismatched` is non-empty |
| `Model.IsIgnored` | scientist.go:55-57 | true exactly when `ignored` is non-empty |
| `Model.Lookup` | scientist.go:241-243 | the map lookup yields the function registered under the name; with unique names it is that behaviour's; an absent name yields nil |
| `Classifier.Matching` | scientist.go:200-213 | the verdict is an error-free "true" exactly when the candidate agrees with the control; with no errors on either side it is the comparator's answer unchanged; an error in the verdict can only come from the comparator |
| `Classifier.ErrorsDecideMatching` | scientist.go:206-212 | when either side carries an error, the comparator is never consulted: every comparator gives the same error-free verdict, true exactly when both sides erred with equal text |
| `Classifier.MatchingSymmetric` | scientist.go:200-213 | with a symmetric comparator, swapping control and candidate does not change the verdict |
| `Classifier.Ignoring` | scientist.go:215-228 | the verdict is an error-free "true" exactly when some predicate accepts before any predicate fails or accepts; when the first deciding predicate fails, the verdict is false with that error; with no deciding predicate it is false with no error |
| `Classifier.IgnoringStopsAtDecision` | scientist.go:216-225 | once a predicate accepts or fails, later predicates are not evaluated: appending predicates leaves the verdict unchanged |
| `Classifier.AllPassingNeverIgnores` | scientist.go:215-228 | no predicates, or predicates that all return false without error, give false with no error |
| `Classifier.ProcessObservation` | scientist.go:176-198 | the candidate is appended to `ignored` exactly when its class is ignored, and to `mismatched` exactly when its class is mismatched, so to neither when it matched; the expected compare and ignore errors are appended in that order; existing entries and all other fields are unchanged |
| `Classifier.CompoundingErrors` | scientist.go:177-196 | a comparator error and an ignore error on one candidate are both recorded, compare first (the ignore error being that of the first failing predicate, at any position), and the candidate lands in `mismatched` |
| `Executor.Observe` | scientist.go:234-256 | whenever the behaviour returns, `observe` returns an observation with the given name rather than propagating the behaviour's error; it carries the behaviour's value and error, falling back to a lookup by name for a nil behaviour; a behaviour still missing yields no value and the "not found" error |
| `Executor.ObserveOthers` | scientist.go:76-81 | the candidates of a behaviour list are named differently from the control and are at most as many as the behaviours |
| `Executor.CandidatesAreOthers` | scientist.go:76-84 | every candidate is the observation of some behaviour with its name, and every non-control behaviour's observation is a candidate |
| `Executor.CandidateCount` | scientist.go:65-67 | with unique names and the control registered, there is exactly one candidate per non-control behaviour |
| `Executor.Sweep` | scientist.go:76-86 | the loop appends the candidates in iteration order to both `Candidates` and `Observations`; it appends to `ignored`/`mismatched` the candidates of that class in order, and to `errors` their classification errors in candidate order; the control is unchanged |
| `Executor.Run` | scientist.go:59-161 | sequential branch only (the concurrent branch is left out): the control is the observation of the named behaviour and `Observations[0]`; there are one fewer candidates than behaviours, with `Observations[i+1] == Candidates[i]`; `ignored`/`mismatched` hold the candidates of that class; the published result's errors are the before-run error, then classification errors; the final result adds the publish error; the reporter gets the errors exactly when there are any |
| `Executor.ErrorOrder` | scientist.go:153-159 | a before-run failure is the first error; a publish failure is the last; everything between is a compare or ignore error |
| `Executor.ClassificationErrorOps` | scientist.go:177-190 | classification records only compare and ignore errors |
| `Executor.Partition` | scientist.go:193-197 | the ignored and mismatched selections are disjoint sub-collections of the candidates, together at most as many as the candidates, and a candidate in neither matched |
| `Executor.RunPartition` | scientist.go:82-85 | in a run's result, `ignored` and `mismatched` are disjoint sub-collections of `candidates`, and a candidate in neither matched the control |
| `Executor.RunMatchedIff` | scientist.go:44-49 | a run's result is matched exactly when every candidate's class is matched |
| `Executor.IdenticalOutcomesMatch` | scientist.go:200-204 | when every behaviour returns the same value without error and the comparator accepts that value against itself, the run is matched |
| `Executor.SingleCandidate` | scientist.go:73-85 | for a control and one other behaviour, the control is the control's observation, the only candidate is the other behaviour's observation, and it is filed by its class |
| `Scenarios.ExperimentMatch` | experiment_test.go:26-62 | equal values under equality: matched, neither mismatched nor ignored |
| `Scenarios.ExperimentMismatch` | experiment_test.go:64-100 | differing values under equality with no ignore predicates: mismatched, not ignored |
| `Scenarios.SkipCompareMismatchedValues` | experiment_test.go:303-338 | a comparator accepting everything hides differing values |
| `Scenarios.SkipCompareMismatchedErrors` | experiment_test.go:340-375 | an error on the candidate side only is never a match, even when the comparator accepts everything |
| `Scenarios.SkipCompareSameErrors` | experiment_test.go:377-412 | two errors with text "ok" match under every comparator, even with differing values |
| `Scenarios.FirstTrueWins` | scientist.go:216-225 | a passing predicate is skipped; the first accepting one wins before a failing one; a failing one before an accepting one makes the verdict false with its error |

## Left out

- The concurrent branch of `Run` (scientist.go:87-151) and `createContext`: goroutines, channels, the wait group and the timeout race are concurrency and wall-clock timing. The `timeout` operation error is therefore not modelled either.
- The observation timing fields `Started` and `Runtime`: they come from the clock.
- The `Experiment` back-reference in observations and results: the experiment's name is kept in each `ResultError` instead.
- `CleanedValue` and the cleaner, `ResultError.Error` and `MismatchError.Error`: display and formatting over foreign calls.
- `Model.Message`: the "not found" text is rendered with plain quotes; Go's `%q` escaping of the two names is not modelled.
- The caller-level `Experiment.Run`: run-if gating, returning the control's value, and `ErrorOnMismatches`. `Use`/`Try`/`Compare`/`Publish` registration and the default comparator are also left out. They live in a file that is not part of this model.
- The behaviours, the comparator, the ignore predicates and the hooks are given as values or pure functions. Their side effects are not modelled.
- Panics and non-termination: a behaviour, comparator, ignore predicate, publisher or error reporter that panics or never returns aborts Go's `Run`, since nothing recovers (scientist.go:153, 158, 203, 217, 249). In the model, behaviour outcomes are given values and the callbacks are total functions, so every run completes.
