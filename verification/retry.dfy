/**
 * The generation loops of the bots: a list of model names is walked in
 * order, each model is tried a fixed number of times, and the sleep after
 * a failure depends on whether the API reported a quota error. The API is
 * an oracle; the returned trace records every try and the sleep after it.
 */
module Retry {
  import opened Common
  import opened PyStr
  import opened Discovery

  /** What one `generate_content` call gives back. */
  datatype Outcome =
    | Reply(text: string)   // a response; an empty `text` is falsy
    | Quota                 // `ResourceExhausted` (HTTP 429)
    | Failure               // any other exception, including reading `.text`

  /**
   * The generation API: whether `GenerativeModel(name)` can be built, and
   * the outcome of the n-th `generate_content` call of the run.
   */
  datatype Api = Api(builds: string -> bool, respond: nat -> Outcome)

  /** A try: either a call with its outcome, or a model that could not be built. */
  datatype Try = Called(answer: Outcome) | Refused

  /** One try of model `models[slot]` on attempt `attempt`, and the sleep that followed it. */
  datatype Step = Step(slot: nat, attempt: nat, model: string, got: Try, slept: Option<nat>)

  /** How a run ended: a returned response text (or None), or an escaping exception. */
  datatype Finish = Returned(value: Option<string>) | Raised

  datatype Run = Run(finish: Finish, trace: seq<Step>)

  /**
   * What distinguishes the loops: tries per model, whether names without
   * `gemini` are skipped, whether the model is built outside the `try`
   * (so that a build failure escapes), the sleep after a quota error and
   * whether the same model is retried then, and the sleep after any other
   * exception (which always moves on to the next model).
   */
  datatype Policy = Policy(
    attempts: nat,
    geminiOnly: bool,
    buildOutside: bool,
    quotaPause: Option<nat>,
    quotaStays: bool,
    otherPause: Option<nat>)

  predicate Eligible(p: Policy, name: string)
  {
    !p.geminiOnly || Contains(name, "gemini")
  }

  /** A try that produced a usable response. */
  predicate Answered(t: Try)
  {
    t.Called? && t.answer.Reply? && |t.answer.text| > 0
  }

  /** A try after which the same model is tried again, while attempts remain. */
  predicate Retries(p: Policy, t: Try)
  {
    t.Called? && ((t.answer.Reply? && |t.answer.text| == 0) || (t.answer.Quota? && p.quotaStays))
  }

  /** A try after which the loop stops. */
  predicate Stops(p: Policy, t: Try)
  {
    Answered(t) || (t.Refused? && p.buildOutside)
  }

  /** The `time.sleep` that follows a try. */
  function SleepFor(p: Policy, t: Try): Option<nat>
  {
    match t
    case Called(Reply(_)) => None
    case Called(Quota) => p.quotaPause
    case Called(Failure) => p.otherPause
    case Refused => if p.buildOutside then None else p.otherPause
  }

  /** Number of `generate_content` calls in a trace. */
  function CallsIn(tr: seq<Step>): (n: nat)
    ensures n <= |tr|
  {
    if |tr| == 0 then 0 else (if tr[0].got.Called? then 1 else 0) + CallsIn(tr[1..])
  }

  /**
   * The loop, from model `i` attempt `a`, with `calls` calls already made.
   * The first matching `if` below is the first statement the Python loop
   * would reach in that state.
   */
  function Go(p: Policy, api: Api, models: seq<string>, i: nat, a: nat, calls: nat): Run
    requires i <= |models| && a <= p.attempts
    decreases |models| - i, p.attempts - a
  {
    if i == |models| then Run(Returned(None), [])
    else if !Eligible(p, models[i]) || a == p.attempts then Go(p, api, models, i + 1, 0, calls)
    else if !api.builds(models[i]) then
      var step := Step(i, a, models[i], Refused, SleepFor(p, Refused));
      if p.buildOutside then Run(Raised, [step])
      else Then(step, Go(p, api, models, i + 1, 0, calls))
    else
      var got := Called(api.respond(calls));
      var step := Step(i, a, models[i], got, SleepFor(p, got));
      if Answered(got) then Run(Returned(Some(got.answer.text)), [step])
      else if Retries(p, got) then Then(step, Go(p, api, models, i, a + 1, calls + 1))
      else Then(step, Go(p, api, models, i + 1, 0, calls + 1))
  }

  function Then(step: Step, rest: Run): Run
  {
    Run(rest.finish, [step] + rest.trace)
  }

  // ---------------------------------------------------------------------
  // What a trace looks like

  /** No model in `models[from..to]` is tried. */
  predicate Skipped(p: Policy, models: seq<string>, from: int, to: int)
    requires 0 <= from && to <= |models|
  {
    forall s :: from <= s < to ==> !Eligible(p, models[s])
  }

  /** A step tries a listed, eligible model within its attempts and sleeps as the policy says. */
  predicate Placed(p: Policy, models: seq<string>, i: nat, e: Step)
  {
    i <= e.slot < |models| && e.model == models[e.slot] && e.attempt < p.attempts
    && Eligible(p, e.model) && e.slept == SleepFor(p, e.got)
  }

  /** `f` is the try that comes right after `e`. */
  predicate Follows(p: Policy, models: seq<string>, e: Step, f: Step)
    requires e.slot < |models| && f.slot <= |models|
  {
    if Retries(p, e.got) && e.attempt + 1 < p.attempts then f.slot == e.slot && f.attempt == e.attempt + 1
    else e.slot < f.slot && f.attempt == 0 && Skipped(p, models, e.slot + 1, f.slot)
  }

  /** `e` is the first try of a loop resumed at model `i`, attempt `a`. */
  predicate Begins(p: Policy, models: seq<string>, i: nat, a: nat, e: Step)
    requires i < |models| && e.slot <= |models|
  {
    if a < p.attempts && Eligible(p, models[i]) then e.slot == i && e.attempt == a
    else i < e.slot && e.attempt == 0 && Skipped(p, models, i + 1, e.slot)
  }

  /** The run ends after its last try `e` with `finish`. */
  predicate Ends(p: Policy, models: seq<string>, e: Step, finish: Finish)
    requires e.slot < |models|
  {
    match finish
    case Returned(Some(t)) => e.got == Called(Reply(t)) && |t| > 0
    case Raised => e.got.Refused? && p.buildOutside
    case Returned(None) =>
      !Stops(p, e.got) && !(Retries(p, e.got) && e.attempt + 1 < p.attempts)
      && Skipped(p, models, e.slot + 1, |models|)
  }

  /** Nothing was left to try from model `i`, attempt `a`. */
  predicate Exhausted(p: Policy, models: seq<string>, i: nat, a: nat)
    requires i <= |models|
  {
    i == |models| || p.attempts == 0
    || (!(a < p.attempts && Eligible(p, models[i])) && Skipped(p, models, i + 1, |models|))
  }

  /** Where a loop may be resumed: a later attempt only on an eligible model. */
  predicate Resumable(p: Policy, models: seq<string>, i: nat, a: nat)
  {
    i <= |models| && a <= p.attempts && (0 < a < p.attempts ==> i < |models| && Eligible(p, models[i]))
  }

  lemma SkippedJoin(p: Policy, models: seq<string>, a: int, b: int, c: int)
    requires 0 <= a <= b <= c <= |models|
    requires Skipped(p, models, a, b) && Skipped(p, models, b, c)
    ensures Skipped(p, models, a, c)
  {
  }

  /** Every try is placed, each follows the one before, and only the last may stop the loop. */
  predicate Shaped(p: Policy, models: seq<string>, i: nat, a: nat, tr: seq<Step>)
  {
    (forall k :: 0 <= k < |tr| ==> Placed(p, models, i, tr[k]))
    && (forall k :: 0 <= k < |tr| - 1 ==> !Stops(p, tr[k].got) && Follows(p, models, tr[k], tr[k + 1]))
    && (|tr| > 0 ==> i < |models| && Begins(p, models, i, a, tr[0]))
  }

  lemma {:induction false} GoShape(p: Policy, api: Api, models: seq<string>, i: nat, a: nat, calls: nat)
    requires Resumable(p, models, i, a)
    ensures Shaped(p, models, i, a, Go(p, api, models, i, a, calls).trace)
    decreases |models| - i, p.attempts - a
  {
    if i < |models| {
      if !Eligible(p, models[i]) || a == p.attempts {
        var tr := Go(p, api, models, i + 1, 0, calls).trace;
        assert Go(p, api, models, i, a, calls).trace == tr;
        GoShape(p, api, models, i + 1, 0, calls);
        ShapeSkip(p, models, i, a, tr);
      } else if !api.builds(models[i]) {
        if !p.buildOutside {
          var step := Step(i, a, models[i], Refused, SleepFor(p, Refused));
          var rest := Go(p, api, models, i + 1, 0, calls);
          assert Go(p, api, models, i, a, calls) == Then(step, rest);
          GoShape(p, api, models, i + 1, 0, calls);
          ShapeThen(p, models, i, i + 1, 0, step, rest.trace);
        }
      } else {
        var got := Called(api.respond(calls));
        var step := Step(i, a, models[i], got, SleepFor(p, got));
        if !Answered(got) {
          if Retries(p, got) {
            var rest := Go(p, api, models, i, a + 1, calls + 1);
            assert Go(p, api, models, i, a, calls) == Then(step, rest);
            GoShape(p, api, models, i, a + 1, calls + 1);
            ShapeThen(p, models, i, i, a + 1, step, rest.trace);
          } else {
            var rest := Go(p, api, models, i + 1, 0, calls + 1);
            assert Go(p, api, models, i, a, calls) == Then(step, rest);
            GoShape(p, api, models, i + 1, 0, calls + 1);
            ShapeThen(p, models, i, i + 1, 0, step, rest.trace);
          }
        } else {
          assert Go(p, api, models, i, a, calls).trace == [step];
          ShapeOne(p, models, step);
        }
      }
    }
  }

  lemma ShapeOne(p: Policy, models: seq<string>, step: Step)
    requires Placed(p, models, step.slot, step)
    ensures Shaped(p, models, step.slot, step.attempt, [step])
  {
  }

  /** A skipped model changes nothing about the shape of the rest of the run. */
  lemma ShapeSkip(p: Policy, models: seq<string>, i: nat, a: nat, tr: seq<Step>)
    requires i < |models| && (!Eligible(p, models[i]) || a == p.attempts)
    requires Shaped(p, models, i + 1, 0, tr)
    ensures Shaped(p, models, i, a, tr)
  {
    if |tr| > 0 {
      assert i + 1 < |models| && Begins(p, models, i + 1, 0, tr[0]);
    }
  }

  /** The shape of a trace `[step] + rest`, from the shape of `rest`. */
  lemma ShapeThen(p: Policy, models: seq<string>, i: nat, j: nat, b: nat, step: Step, rest: seq<Step>)
    requires i <= j && Placed(p, models, i, step) && !Stops(p, step.got)
    requires j == i ==> b == step.attempt + 1 && Retries(p, step.got)
    requires j > i ==> j == step.slot + 1 && b == 0 && !(Retries(p, step.got) && step.attempt + 1 < p.attempts)
    requires j == i ==> j == step.slot
    requires Shaped(p, models, j, b, rest) && step.slot == i
    ensures Shaped(p, models, i, step.attempt, [step] + rest)
  {
    var tr := [step] + rest;
    forall k | 0 <= k < |tr|
      ensures Placed(p, models, i, tr[k])
    {
      if k > 0 {
        assert tr[k] == rest[k - 1];
      }
    }
    forall k | 0 <= k < |tr| - 1
      ensures !Stops(p, tr[k].got) && Follows(p, models, tr[k], tr[k + 1])
    {
      if k > 0 {
        assert tr[k] == rest[k - 1] && tr[k + 1] == rest[k];
      } else {
        assert tr[1] == rest[0];
      }
    }
  }

  /**
   * The run ends with the last try: a usable response is returned, an
   * unbuildable model built outside the `try` escapes, and None comes only
   * once nothing is left to try.
   */
  predicate EndsWell(p: Policy, models: seq<string>, i: nat, a: nat, r: Run)
    requires i <= |models|
  {
    (|r.trace| == 0 ==> r.finish == Returned(None) && Exhausted(p, models, i, a))
    && (|r.trace| > 0 ==> r.trace[|r.trace| - 1].slot < |models| && Ends(p, models, r.trace[|r.trace| - 1], r.finish))
  }

  lemma {:induction false} GoEnds(p: Policy, api: Api, models: seq<string>, i: nat, a: nat, calls: nat)
    requires i <= |models| && a <= p.attempts
    ensures EndsWell(p, models, i, a, Go(p, api, models, i, a, calls))
    decreases |models| - i, p.attempts - a
  {
    if i < |models| {
      if !Eligible(p, models[i]) || a == p.attempts {
        var r := Go(p, api, models, i + 1, 0, calls);
        assert Go(p, api, models, i, a, calls) == r;
        GoEnds(p, api, models, i + 1, 0, calls);
        EndsSkip(p, models, i, a, r);
      } else if !api.builds(models[i]) {
        var step := Step(i, a, models[i], Refused, SleepFor(p, Refused));
        if !p.buildOutside {
          var rest := Go(p, api, models, i + 1, 0, calls);
          assert Go(p, api, models, i, a, calls) == Then(step, rest);
          GoEnds(p, api, models, i + 1, 0, calls);
          EndsThen(p, models, step, rest, i + 1, 0);
        } else {
          assert Go(p, api, models, i, a, calls) == Run(Raised, [step]);
          EndsOne(p, models, step, Raised);
        }
      } else {
        var got := Called(api.respond(calls));
        var step := Step(i, a, models[i], got, SleepFor(p, got));
        if !Answered(got) {
          if Retries(p, got) {
            var rest := Go(p, api, models, i, a + 1, calls + 1);
            assert Go(p, api, models, i, a, calls) == Then(step, rest);
            GoEnds(p, api, models, i, a + 1, calls + 1);
            EndsThen(p, models, step, rest, i, a + 1);
          } else {
            var rest := Go(p, api, models, i + 1, 0, calls + 1);
            assert Go(p, api, models, i, a, calls) == Then(step, rest);
            GoEnds(p, api, models, i + 1, 0, calls + 1);
            EndsThen(p, models, step, rest, i + 1, 0);
          }
        } else {
          assert Go(p, api, models, i, a, calls) == Run(Returned(Some(got.answer.text)), [step]);
          EndsOne(p, models, step, Returned(Some(got.answer.text)));
        }
      }
    }
  }

  /** A run of one try that stops the loop. */
  lemma EndsOne(p: Policy, models: seq<string>, step: Step, finish: Finish)
    requires step.slot < |models|
    requires finish == Raised ==> step.got.Refused? && p.buildOutside
    requires finish.Returned? ==> finish.value.Some? && step.got == Called(Reply(finish.value.value)) && |finish.value.value| > 0
    ensures EndsWell(p, models, step.slot, step.attempt, Run(finish, [step]))
  {
  }

  /** A model the loop skips changes nothing about how the run ends. */
  lemma EndsSkip(p: Policy, models: seq<string>, i: nat, a: nat, r: Run)
    requires i < |models| && a <= p.attempts && (!Eligible(p, models[i]) || a == p.attempts)
    requires EndsWell(p, models, i + 1, 0, r)
    ensures EndsWell(p, models, i, a, r)
  {
    if |r.trace| == 0 {
      ExhaustedSkip(p, models, i, a);
    }
  }

  /** A model the loop skips adds nothing left to try. */
  lemma ExhaustedSkip(p: Policy, models: seq<string>, i: nat, a: nat)
    requires i < |models| && a <= p.attempts && (!Eligible(p, models[i]) || a == p.attempts)
    requires Exhausted(p, models, i + 1, 0)
    ensures Exhausted(p, models, i, a)
  {
    if i + 1 < |models| && p.attempts > 0 {
      assert !Eligible(p, models[i + 1]) && Skipped(p, models, i + 2, |models|);
      assert Skipped(p, models, i + 1, |models|);
    }
  }

  /** How `[step] + rest` ends, from how `rest` ends. */
  lemma EndsThen(p: Policy, models: seq<string>, step: Step, rest: Run, j: nat, b: nat)
    requires step.slot < |models| && j <= |models| && step.attempt < p.attempts && Eligible(p, models[step.slot])
    requires !Stops(p, step.got)
    requires if Retries(p, step.got) then j == step.slot && b == step.attempt + 1 else j == step.slot + 1 && b == 0
    requires EndsWell(p, models, j, b, rest)
    ensures EndsWell(p, models, step.slot, step.attempt, Then(step, rest))
  {
    var r := Then(step, rest);
    if |rest.trace| > 0 {
      assert r.trace[|r.trace| - 1] == rest.trace[|rest.trace| - 1];
    } else {
      assert r.trace[|r.trace| - 1] == step;
    }
  }

  /** The n-th call of the run gets the oracle's n-th outcome. */
  predicate Consumes(api: Api, calls: nat, tr: seq<Step>)
  {
    forall k :: 0 <= k < |tr| && tr[k].got.Called? ==> tr[k].got.answer == api.respond(calls + CallsIn(tr[..k]))
  }

  lemma {:induction false} GoConsumes(p: Policy, api: Api, models: seq<string>, i: nat, a: nat, calls: nat)
    requires i <= |models| && a <= p.attempts
    ensures Consumes(api, calls, Go(p, api, models, i, a, calls).trace)
    decreases |models| - i, p.attempts - a
  {
    if i < |models| {
      if !Eligible(p, models[i]) || a == p.attempts {
        GoConsumes(p, api, models, i + 1, 0, calls);
      } else if !api.builds(models[i]) {
        if !p.buildOutside {
          var step := Step(i, a, models[i], Refused, SleepFor(p, Refused));
          var rest := Go(p, api, models, i + 1, 0, calls);
          assert Go(p, api, models, i, a, calls) == Then(step, rest);
          GoConsumes(p, api, models, i + 1, 0, calls);
          ConsumesThen(api, calls, step, rest.trace);
        }
      } else {
        var got := Called(api.respond(calls));
        var step := Step(i, a, models[i], got, SleepFor(p, got));
        if !Answered(got) {
          var rest := if Retries(p, got) then Go(p, api, models, i, a + 1, calls + 1)
                      else Go(p, api, models, i + 1, 0, calls + 1);
          assert Go(p, api, models, i, a, calls) == Then(step, rest);
          if Retries(p, got) {
            GoConsumes(p, api, models, i, a + 1, calls + 1);
          } else {
            GoConsumes(p, api, models, i + 1, 0, calls + 1);
          }
          ConsumesThen(api, calls, step, rest.trace);
        } else {
          assert Go(p, api, models, i, a, calls).trace == [step];
          ConsumesOne(api, calls, step);
        }
      }
    }
  }

  lemma ConsumesOne(api: Api, calls: nat, step: Step)
    requires step.got.Called? ==> step.got.answer == api.respond(calls)
    ensures Consumes(api, calls, [step])
  {
    assert [step][..0] == [];
  }

  /** The call facts for `[step] + rest`, from those for `rest`. */
  lemma ConsumesThen(api: Api, calls: nat, step: Step, rest: seq<Step>)
    requires step.got.Called? ==> step.got.answer == api.respond(calls)
    requires Consumes(api, calls + (if step.got.Called? then 1 else 0), rest)
    ensures Consumes(api, calls, [step] + rest)
  {
    var tr := [step] + rest;
    forall k | 0 <= k < |tr| && tr[k].got.Called?
      ensures tr[k].got.answer == api.respond(calls + CallsIn(tr[..k]))
    {
      if k == 0 {
        assert tr[..0] == [];
      } else {
        assert tr[..k][1..] == rest[..k - 1];
        assert tr[k] == rest[k - 1];
      }
    }
  }

  // ---------------------------------------------------------------------
  // Whole runs

  /** The loop over a whole model list, as the bots call it. */
  function Loop(p: Policy, api: Api, models: seq<string>): Run
  {
    Go(p, api, models, 0, 0, 0)
  }

  /** The tries of a run, in order, each following the one before. */
  predicate Chain(p: Policy, models: seq<string>, tr: seq<Step>)
  {
    (forall k :: 0 <= k < |tr| ==> Placed(p, models, 0, tr[k]))
    && (forall k :: 0 <= k < |tr| - 1 ==> !Stops(p, tr[k].got) && Follows(p, models, tr[k], tr[k + 1]))
  }

  /** The result is the first usable response, if any, and an escape only comes from a build outside the `try`. */
  predicate FirstAnswer(p: Policy, r: Run)
  {
    var tr := r.trace;
    (forall k :: 0 <= k < |tr| - 1 ==> !Answered(tr[k].got))
    && match r.finish
       case Returned(Some(t)) => |tr| > 0 && tr[|tr| - 1].got == Called(Reply(t)) && |t| > 0
       case Returned(None) => forall k :: 0 <= k < |tr| ==> !Answered(tr[k].got)
       case Raised => |tr| > 0 && tr[|tr| - 1].got.Refused? && p.buildOutside
  }

  /** Everything the loop promises about a whole run. */
  lemma LoopFacts(p: Policy, api: Api, models: seq<string>)
    ensures var r := Loop(p, api, models);
      Chain(p, models, r.trace) && FirstAnswer(p, r) && Consumes(api, 0, r.trace)
      && (|r.trace| > 0 ==> Begins(p, models, 0, 0, r.trace[0]))
      && (|r.trace| == 0 ==> r.finish == Returned(None) && (p.attempts == 0 || Skipped(p, models, 0, |models|)))
      && (|r.trace| > 0 ==> r.trace[|r.trace| - 1].slot < |models| && Ends(p, models, r.trace[|r.trace| - 1], r.finish))
  {
    GoShape(p, api, models, 0, 0, 0);
    GoEnds(p, api, models, 0, 0, 0);
    GoConsumes(p, api, models, 0, 0, 0);
  }

  /** Number of tries of the model in slot `s`. */
  function TriesAt(tr: seq<Step>, s: nat): (n: nat)
    ensures n <= |tr|
  {
    if |tr| == 0 then 0 else (if tr[0].slot == s then 1 else 0) + TriesAt(tr[1..], s)
  }

  lemma ChainTail(p: Policy, models: seq<string>, tr: seq<Step>)
    requires |tr| > 0 && Chain(p, models, tr)
    ensures Chain(p, models, tr[1..])
  {
    var t := tr[1..];
    forall k | 0 <= k < |t| - 1
      ensures !Stops(p, t[k].got) && Follows(p, models, t[k], t[k + 1])
    {
      assert t[k] == tr[k + 1] && t[k + 1] == tr[k + 2];
    }
  }

  /** Tries move forward: a slot's tries come together, on increasing attempts. */
  lemma {:induction false} TriesBound(p: Policy, models: seq<string>, tr: seq<Step>, s: nat)
    requires Chain(p, models, tr)
    ensures TriesAt(tr, s) <= p.attempts
    ensures |tr| > 0 && tr[0].slot == s ==> TriesAt(tr, s) <= p.attempts - tr[0].attempt
    ensures |tr| > 0 && tr[0].slot > s ==> TriesAt(tr, s) == 0
    decreases |tr|
  {
    if |tr| > 0 {
      assert Placed(p, models, 0, tr[0]);
      ChainTail(p, models, tr);
      TriesBound(p, models, tr[1..], s);
      if |tr| > 1 {
        assert Follows(p, models, tr[0], tr[1]);
        assert tr[1..][0] == tr[1];
      }
    }
  }

  /**
   * With one attempt per model and no name skipped, the k-th try is of
   * the k-th model, so no model is called twice; a run that returns None
   * has tried every model.
   */
  lemma {:induction false} OneEach(p: Policy, api: Api, models: seq<string>)
    requires p.attempts == 1 && !p.geminiOnly
    ensures var r := Loop(p, api, models);
      (forall k :: 0 <= k < |r.trace| ==> r.trace[k].slot == k)
      && (r.finish == Returned(None) ==> |r.trace| == |models|)
  {
    LoopFacts(p, api, models);
    var r := Loop(p, api, models);
    var tr := r.trace;
    if |tr| > 0 {
      assert tr[0].slot == 0;
    }
    forall k | 0 <= k < |tr|
      ensures tr[k].slot == k
    {
      SlotIsIndex(p, models, tr, k);
    }
    if r.finish == Returned(None) {
      if |tr| > 0 {
        assert Ends(p, models, tr[|tr| - 1], r.finish);
        assert tr[|tr| - 1].slot == |tr| - 1;
        assert |tr| - 1 + 1 >= |models| || !Eligible(p, models[|tr|]);
      }
    }
  }

  lemma {:induction false} SlotIsIndex(p: Policy, models: seq<string>, tr: seq<Step>, k: nat)
    requires p.attempts == 1 && !p.geminiOnly && Chain(p, models, tr)
    requires |tr| > 0 && tr[0].slot == 0 && k < |tr|
    ensures tr[k].slot == k
    decreases k
  {
    if k > 0 {
      SlotIsIndex(p, models, tr, k - 1);
      assert Follows(p, models, tr[k - 1], tr[k]);
      assert Placed(p, models, 0, tr[k]);
      assert tr[k].slot > k ==> !Eligible(p, models[k]);
    }
  }

  /** A try that reported a quota error, or an empty response. */
  predicate QuotaOrEmpty(t: Try)
  {
    t == Called(Quota) || t == Called(Reply(""))
  }

  /** A try that raised something other than a quota error. */
  predicate OtherException(t: Try)
  {
    t == Called(Failure) || t == Refused
  }

  /** A retrying try with attempts left is never the last one. */
  lemma RetryContinues(p: Policy, api: Api, models: seq<string>, k: nat)
    requires var tr := Loop(p, api, models).trace; k < |tr| && Retries(p, tr[k].got) && tr[k].attempt + 1 < p.attempts
    ensures k + 1 < |Loop(p, api, models).trace|
  {
    LoopFacts(p, api, models);
  }

  // ---------------------------------------------------------------------
  // bot_v51_architect.py: three tries per gemini model, 70 s after a quota error

  const V51Policy := Policy(attempts := 3, geminiOnly := true, buildOutside := false,
                            quotaPause := Some(70), quotaStays := true, otherPause := None)

  /** `generate_with_adaptive_retry` over the discovered models. */
  function AdaptiveRetry(api: Api, l: Listing): Run
  {
    Loop(V51Policy, api, WorkingModels(l))
  }

  /** Only listed gemini models are called, each at most three times. */
  lemma AdaptiveRetryCalls(api: Api, l: Listing)
    ensures var tr := AdaptiveRetry(api, l).trace; var models := WorkingModels(l);
      (forall k :: 0 <= k < |tr| ==>
         tr[k].slot < |models| && tr[k].model == models[tr[k].slot] && Contains(tr[k].model, "gemini"))
      && forall s: nat :: TriesAt(tr, s) <= 3
  {
    var tr := AdaptiveRetry(api, l).trace;
    var models := WorkingModels(l);
    LoopFacts(V51Policy, api, models);
    forall k | 0 <= k < |tr|
      ensures tr[k].slot < |models| && tr[k].model == models[tr[k].slot] && Contains(tr[k].model, "gemini")
    {
      assert Placed(V51Policy, models, 0, tr[k]);
    }
    forall s: nat
      ensures TriesAt(tr, s) <= 3
    {
      TriesBound(V51Policy, models, tr, s);
    }
  }

  /**
   * A quota error is followed by one 70 s sleep and, while attempts
   * remain, a retry of the same model; an empty response retries without
   * sleeping; any other exception moves to a later model without sleeping.
   */
  lemma AdaptiveRetryPauses(api: Api, l: Listing)
    ensures var tr := AdaptiveRetry(api, l).trace;
      (forall k :: 0 <= k < |tr| ==> tr[k].slept == if tr[k].got == Called(Quota) then Some(70) else None)
      && (forall k :: 0 <= k < |tr| && QuotaOrEmpty(tr[k].got) && tr[k].attempt < 2 ==>
            k + 1 < |tr| && tr[k + 1].slot == tr[k].slot && tr[k + 1].attempt == tr[k].attempt + 1)
      && (forall k :: 0 <= k < |tr| - 1 && OtherException(tr[k].got) ==> tr[k].slot < tr[k + 1].slot)
  {
    var models := WorkingModels(l);
    AdaptiveSleeps(api, models);
    AdaptiveRetries(api, models);
  }

  /** Under the v51 policy only a quota error sleeps, for 70 s. */
  lemma AdaptiveSleeps(api: Api, models: seq<string>)
    ensures var tr := Loop(V51Policy, api, models).trace;
      forall k :: 0 <= k < |tr| ==> tr[k].slept == if tr[k].got == Called(Quota) then Some(70) else None
  {
    var tr := Loop(V51Policy, api, models).trace;
    LoopFacts(V51Policy, api, models);
    forall k | 0 <= k < |tr|
      ensures tr[k].slept == if tr[k].got == Called(Quota) then Some(70) else None
    {
      assert Placed(V51Policy, models, 0, tr[k]);
    }
  }

  /** Under the v51 policy a quota error or empty response retries the model; other errors move on. */
  lemma AdaptiveRetries(api: Api, models: seq<string>)
    ensures var tr := Loop(V51Policy, api, models).trace;
      (forall k :: 0 <= k < |tr| && QuotaOrEmpty(tr[k].got) && tr[k].attempt < 2 ==>
            k + 1 < |tr| && tr[k + 1].slot == tr[k].slot && tr[k + 1].attempt == tr[k].attempt + 1)
      && (forall k :: 0 <= k < |tr| - 1 && OtherException(tr[k].got) ==> tr[k].slot < tr[k + 1].slot)
  {
    var tr := Loop(V51Policy, api, models).trace;
    LoopFacts(V51Policy, api, models);
    forall k | 0 <= k < |tr| && QuotaOrEmpty(tr[k].got) && tr[k].attempt < 2
      ensures k + 1 < |tr| && tr[k + 1].slot == tr[k].slot && tr[k + 1].attempt == tr[k].attempt + 1
    {
      RetryContinues(V51Policy, api, models, k);
      assert Follows(V51Policy, models, tr[k], tr[k + 1]);
    }
    forall k | 0 <= k < |tr| - 1 && OtherException(tr[k].got)
      ensures tr[k].slot < tr[k + 1].slot
    {
      assert Follows(V51Policy, models, tr[k], tr[k + 1]);
    }
  }

  /** The result is the first non-empty response, or None; nothing escapes. */
  lemma AdaptiveRetryResult(api: Api, l: Listing)
    ensures var r := AdaptiveRetry(api, l);
      r.finish.Returned? && FirstAnswer(V51Policy, r) && Consumes(api, 0, r.trace)
  {
    LoopFacts(V51Policy, api, WorkingModels(l));
  }

  // ---------------------------------------------------------------------
  // bot_v47_wait.py: a fixed list, three tries each, the model built outside the `try`

  const V47Models: seq<string> := ["gemini-flash-latest", "gemini-1.5-flash-latest", "gemini-pro"]

  const V47Policy := Policy(attempts := 3, geminiOnly := false, buildOutside := true,
                            quotaPause := Some(70), quotaStays := true, otherPause := None)

  /** `generate_with_retry` of bot_v47_wait.py. */
  function WaitRetry(api: Api): Run
  {
    Loop(V47Policy, api, V47Models)
  }

  /** The models are tried in list order, the first one first, each at most three times. */
  lemma WaitRetryCalls(api: Api)
    ensures var tr := WaitRetry(api).trace;
      (|tr| > 0 ==> tr[0].slot == 0 && tr[0].attempt == 0)
      && (forall k :: 0 <= k < |tr| ==> tr[k].slot < 3 && tr[k].model == V47Models[tr[k].slot])
      && (forall k :: 0 <= k < |tr| - 1 ==> tr[k].slot <= tr[k + 1].slot)
      && forall s: nat :: TriesAt(tr, s) <= 3
  {
    var tr := WaitRetry(api).trace;
    LoopFacts(V47Policy, api, V47Models);
    forall k | 0 <= k < |tr|
      ensures tr[k].slot < 3 && tr[k].model == V47Models[tr[k].slot]
    {
      assert Placed(V47Policy, V47Models, 0, tr[k]);
    }
    forall k | 0 <= k < |tr| - 1
      ensures tr[k].slot <= tr[k + 1].slot
    {
      assert Follows(V47Policy, V47Models, tr[k], tr[k + 1]);
    }
    forall s: nat
      ensures TriesAt(tr, s) <= 3
    {
      TriesBound(V47Policy, V47Models, tr, s);
    }
  }

  /**
   * A quota error is followed by one 70 s sleep and, while attempts
   * remain, a retry of the same model; an empty response retries without
   * sleeping; any other exception moves to a later model without sleeping.
   */
  lemma WaitRetryPauses(api: Api)
    ensures var tr := WaitRetry(api).trace;
      (forall k :: 0 <= k < |tr| ==> tr[k].slept == if tr[k].got == Called(Quota) then Some(70) else None)
      && (forall k :: 0 <= k < |tr| && QuotaOrEmpty(tr[k].got) && tr[k].attempt < 2 ==>
            k + 1 < |tr| && tr[k + 1].slot == tr[k].slot && tr[k + 1].attempt == tr[k].attempt + 1)
      && (forall k :: 0 <= k < |tr| - 1 && tr[k].got == Called(Failure) ==> tr[k].slot < tr[k + 1].slot)
  {
    WaitSleeps(api);
    WaitRetries(api);
  }

  lemma WaitSleeps(api: Api)
    ensures var tr := WaitRetry(api).trace;
      forall k :: 0 <= k < |tr| ==> tr[k].slept == if tr[k].got == Called(Quota) then Some(70) else None
  {
    var tr := WaitRetry(api).trace;
    LoopFacts(V47Policy, api, V47Models);
    forall k | 0 <= k < |tr|
      ensures tr[k].slept == if tr[k].got == Called(Quota) then Some(70) else None
    {
      assert Placed(V47Policy, V47Models, 0, tr[k]);
    }
  }

  lemma WaitRetries(api: Api)
    ensures var tr := WaitRetry(api).trace;
      (forall k :: 0 <= k < |tr| && QuotaOrEmpty(tr[k].got) && tr[k].attempt < 2 ==>
            k + 1 < |tr| && tr[k + 1].slot == tr[k].slot && tr[k + 1].attempt == tr[k].attempt + 1)
      && (forall k :: 0 <= k < |tr| - 1 && tr[k].got == Called(Failure) ==> tr[k].slot < tr[k + 1].slot)
  {
    var tr := WaitRetry(api).trace;
    LoopFacts(V47Policy, api, V47Models);
    forall k | 0 <= k < |tr| && QuotaOrEmpty(tr[k].got) && tr[k].attempt < 2
      ensures k + 1 < |tr| && tr[k + 1].slot == tr[k].slot && tr[k + 1].attempt == tr[k].attempt + 1
    {
      RetryContinues(V47Policy, api, V47Models, k);
      assert Follows(V47Policy, V47Models, tr[k], tr[k + 1]);
    }
    forall k | 0 <= k < |tr| - 1 && tr[k].got == Called(Failure)
      ensures tr[k].slot < tr[k + 1].slot
    {
      assert Follows(V47Policy, V47Models, tr[k], tr[k + 1]);
    }
  }

  /**
   * The result is the first non-empty response, or None; a model that
   * cannot be built ends the whole search with an exception.
   */
  lemma WaitRetryResult(api: Api)
    ensures var r := WaitRetry(api); var tr := r.trace;
      FirstAnswer(V47Policy, r) && Consumes(api, 0, r.trace)
      && (r.finish == Raised <==> |tr| > 0 && tr[|tr| - 1].got == Refused)
      && forall k :: 0 <= k < |tr| - 1 ==> tr[k].got != Refused
  {
    var r := WaitRetry(api);
    var tr := r.trace;
    LoopFacts(V47Policy, api, V47Models);
    if |tr| > 0 {
      assert Ends(V47Policy, V47Models, tr[|tr| - 1], r.finish);
    }
    forall k | 0 <= k < |tr| - 1
      ensures tr[k].got != Refused
    {
      assert !Stops(V47Policy, tr[k].got);
    }
  }

  // ---------------------------------------------------------------------
  // bot_v52_failover.py: one try per model, 5 s after a quota error, 2 s after others

  const V52Policy := Policy(attempts := 1, geminiOnly := false, buildOutside := false,
                            quotaPause := Some(5), quotaStays := false, otherPause := Some(2))

  /** `generate_with_fast_failover` over the merged, ranked list. */
  function FastFailover(api: Api, l: Listing): Run
  {
    Loop(V52Policy, api, OptimizedModels(l))
  }

  /**
   * The k-th try is of the k-th model, so each model is called at most
   * once and there are no more calls than models; the sleep is 5 s after
   * a quota error and 2 s after any other exception.
   */
  lemma FastFailoverCalls(api: Api, l: Listing)
    ensures var tr := FastFailover(api, l).trace; var models := OptimizedModels(l);
      |tr| <= |models|
      && (forall k :: 0 <= k < |tr| ==> tr[k].slot == k && tr[k].model == models[k])
      && (forall k :: 0 <= k < |tr| ==>
            tr[k].slept == if tr[k].got == Called(Quota) then Some(5)
                           else if OtherException(tr[k].got) then Some(2) else None)
  {
    FailoverCalls(api, OptimizedModels(l));
  }

  lemma FailoverCalls(api: Api, models: seq<string>)
    ensures var tr := Loop(V52Policy, api, models).trace;
      |tr| <= |models|
      && (forall k :: 0 <= k < |tr| ==> tr[k].slot == k && tr[k].model == models[k])
      && (forall k :: 0 <= k < |tr| ==>
            tr[k].slept == if tr[k].got == Called(Quota) then Some(5)
                           else if OtherException(tr[k].got) then Some(2) else None)
  {
    var tr := Loop(V52Policy, api, models).trace;
    LoopFacts(V52Policy, api, models);
    OneEach(V52Policy, api, models);
    forall k | 0 <= k < |tr|
      ensures tr[k].model == models[k]
      ensures tr[k].slept == if tr[k].got == Called(Quota) then Some(5)
                             else if OtherException(tr[k].got) then Some(2) else None
    {
      assert Placed(V52Policy, models, 0, tr[k]);
    }
    if |tr| > 0 {
      assert Placed(V52Policy, models, 0, tr[|tr| - 1]);
    }
  }

  /** The result is the first non-empty response; None only after every model was tried. */
  lemma FastFailoverResult(api: Api, l: Listing)
    ensures var r := FastFailover(api, l);
      r.finish.Returned? && FirstAnswer(V52Policy, r) && Consumes(api, 0, r.trace)
      && (r.finish == Returned(None) ==> |r.trace| == |OptimizedModels(l)|)
  {
    LoopFacts(V52Policy, api, OptimizedModels(l));
    OneEach(V52Policy, api, OptimizedModels(l));
  }

  // ---------------------------------------------------------------------
  // bot_v46_final.py: one try per model, 1 s after any exception

  const V46Models: seq<string> := ["gemini-pro", "gemini-1.5-flash", "gemini-flash-latest", "gemini-1.0-pro"]

  const V46Policy := Policy(attempts := 1, geminiOnly := false, buildOutside := false,
                            quotaPause := Some(1), quotaStays := false, otherPause := Some(1))

  /** `generate_with_retry` of bot_v46_final.py. */
  function NeverAbort(api: Api): Run
  {
    Loop(V46Policy, api, V46Models)
  }

  /**
   * Models are tried once each in list order; every exception, a failed
   * build included, gives one 1 s sleep; the result is the first non-empty
   * response, and None only after all four models were tried.
   */
  lemma NeverAbortFacts(api: Api)
    ensures var r := NeverAbort(api); var tr := r.trace;
      |tr| <= |V46Models|
      && (forall k :: 0 <= k < |tr| ==> tr[k].slot == k && tr[k].model == V46Models[k])
      && (forall k :: 0 <= k < |tr| ==> tr[k].slept == if tr[k].got.Called? && tr[k].got.answer.Reply? then None else Some(1))
      && r.finish.Returned? && FirstAnswer(V46Policy, r) && Consumes(api, 0, tr)
      && (r.finish == Returned(None) ==> |tr| == 4)
  {
    var tr := NeverAbort(api).trace;
    LoopFacts(V46Policy, api, V46Models);
    OneEach(V46Policy, api, V46Models);
    forall k | 0 <= k < |tr|
      ensures tr[k].model == V46Models[k]
      ensures tr[k].slept == if tr[k].got.Called? && tr[k].got.answer.Reply? then None else Some(1)
    {
      assert Placed(V46Policy, V46Models, 0, tr[k]);
    }
  }
}
