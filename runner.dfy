/** The offline experiment runner: every selected question is answered once
    with variant A's retrieval width and once with variant B's, and each answer
    is logged as an event of one run-wide session. */
module Runner {
  import opened Wrappers
  import opened Text
  import opened Rag
  import opened EventLog

  const TopKByVariant: map<string, int> := map["A" := 2, "B" := 4]
  const Variants: seq<string> := ["A", "B"]
  /** Stored answers are cut to this many characters. */
  const AnswerLimit: nat := 2000

  /** The five values the runner unpacks from the answer pipeline; `latencyMs`
      stands for `int(elapsed * 1000)`. */
  datatype PipelineOutput = PipelineOutput(
    answer: string,
    citations: string,
    sources: seq<Source>,
    latencyMs: int,
    sourcePages: seq<int>)

  /** The answer pipeline as the runner sees it: the `n`-th call of the run,
      with a question and a retrieval width, either returns or raises. */
  type Pipeline = (nat, string, int) -> Result<PipelineOutput, PipelineError>

  /** One pipeline call the run makes. */
  datatype Call = Call(question: string, variant: string, topK: int)

  /** The `--limit` option: a positive limit keeps that many leading questions, anything else keeps all. */
  function ApplyLimit(questions: seq<string>, limit: int): (selected: seq<string>)
    ensures limit > 0 ==> selected == questions[..Min(limit, |questions|)]
    ensures limit <= 0 ==> selected == questions
  {
    if limit > 0 then Prefix(questions, limit) else questions
  }

  /** The calls for one question: variant A, then variant B. */
  function PairCalls(q: string): seq<Call> {
    [Call(q, "A", TopKByVariant["A"]), Call(q, "B", TopKByVariant["B"])]
  }

  /** The calls of the nested question/variant loops, in order. */
  function Calls(questions: seq<string>): seq<Call>
    decreases |questions|
  {
    if questions == [] then []
    else Calls(questions[..|questions| - 1]) + PairCalls(questions[|questions| - 1])
  }

  /** Call `j` is question `j / 2` under variant `j % 2`, with that variant's width. */
  lemma {:induction false} CallsShape(questions: seq<string>)
    ensures |Calls(questions)| == 2 * |questions|
    ensures forall j :: 0 <= j < |Calls(questions)| ==>
      Calls(questions)[j] == Call(questions[j / 2], Variants[j % 2], TopKByVariant[Variants[j % 2]])
    decreases |questions|
  {
    if questions != [] {
      var n := |questions|;
      var init := questions[..n - 1];
      CallsShape(init);
      forall j | 0 <= j < |Calls(questions)|
        ensures Calls(questions)[j] == Call(questions[j / 2], Variants[j % 2], TopKByVariant[Variants[j % 2]])
      {
        if j < 2 * (n - 1) {
          assert Calls(questions)[j] == Calls(init)[j];
          assert init[j / 2] == questions[j / 2];
        } else {
          assert j / 2 == n - 1;
        }
      }
    }
  }

  lemma {:induction false} CallsAppend(a: seq<string>, b: seq<string>)
    ensures Calls(a + b) == Calls(a) + Calls(b)
    decreases |b|
  {
    if b == [] {
      assert a + b == a;
    } else {
      var n := |b|;
      assert (a + b)[..|a + b| - 1] == a + b[..n - 1];
      CallsAppend(a, b[..n - 1]);
    }
  }

  /** The event logged for one call that returned. */
  function EventOf(sessionId: string, c: Call, out: PipelineOutput): Event {
    Event(sessionId, OfflineExperiment, c.variant, c.question, c.topK,
          out.latencyMs, out.citations, out.sourcePages, Prefix(out.answer, AnswerLimit), None)
  }

  /** The events a run logs and the error it stops with, if any. */
  datatype RunOutcome = RunOutcome(events: seq<Event>, failure: Option<PipelineError>)

  /** What a run over `calls` logs: one event per call until the first call
      that raises, which ends the run. */
  function OfflineRun(sessionId: string, calls: seq<Call>, pipeline: Pipeline): RunOutcome
    decreases |calls|
  {
    if calls == [] then RunOutcome([], None)
    else
      var prior := OfflineRun(sessionId, calls[..|calls| - 1], pipeline);
      var c := calls[|calls| - 1];
      if prior.failure.Some? then prior
      else match pipeline(|calls| - 1, c.question, c.topK)
        case Failure(e) => RunOutcome(prior.events, Some(e))
        case Success(out) => RunOutcome(prior.events + [EventOf(sessionId, c, out)], None)
  }

  /** Event `j` comes from call `j`, which returned; a finished run logged every
      call, and an aborted one stops exactly at the call that raised. */
  lemma {:induction false} OfflineRunLogsEachCall(sessionId: string, calls: seq<Call>, pipeline: Pipeline)
    ensures var o := OfflineRun(sessionId, calls, pipeline);
      && |o.events| <= |calls|
      && (o.failure.None? ==> |o.events| == |calls|)
      && (o.failure.Some? ==>
            && |o.events| < |calls|
            && pipeline(|o.events|, calls[|o.events|].question, calls[|o.events|].topK) == Failure(o.failure.value))
      && forall j :: 0 <= j < |o.events| ==>
            pipeline(j, calls[j].question, calls[j].topK).Success? &&
            o.events[j] == EventOf(sessionId, calls[j], pipeline(j, calls[j].question, calls[j].topK).value)
    decreases |calls|
  {
    if calls != [] {
      var init := calls[..|calls| - 1];
      OfflineRunLogsEachCall(sessionId, init, pipeline);
      var prior := OfflineRun(sessionId, init, pipeline);
      forall j | 0 <= j < |prior.events| ensures calls[j] == init[j] { }
    }
  }

  /** Once a call has raised, later calls change nothing. */
  lemma {:induction false} AbortIsFinal(sessionId: string, calls: seq<Call>, more: seq<Call>, pipeline: Pipeline)
    requires OfflineRun(sessionId, calls, pipeline).failure.Some?
    ensures OfflineRun(sessionId, calls + more, pipeline) == OfflineRun(sessionId, calls, pipeline)
    decreases |more|
  {
    if more == [] {
      assert calls + more == calls;
    } else {
      var n := |more|;
      assert (calls + more)[..|calls + more| - 1] == calls + more[..n - 1];
      AbortIsFinal(sessionId, calls, more[..n - 1], pipeline);
    }
  }

  /** A call that returns extends the run by its event. */
  lemma OneMoreCall(sessionId: string, calls: seq<Call>, c: Call, pipeline: Pipeline)
    requires OfflineRun(sessionId, calls, pipeline).failure.None?
    ensures var r := pipeline(|calls|, c.question, c.topK);
      OfflineRun(sessionId, calls + [c], pipeline) ==
        if r.Failure? then RunOutcome(OfflineRun(sessionId, calls, pipeline).events, Some(r.error))
        else RunOutcome(OfflineRun(sessionId, calls, pipeline).events + [EventOf(sessionId, c, r.value)], None)
  {
    assert (calls + [c])[..|calls|] == calls;
  }

  /** Variant `vi` of question `q`, asked after the calls `done`. */
  lemma VariantCall(sessionId: string, done: seq<Call>, q: string, vi: nat, pipeline: Pipeline)
    requires vi < 2
    requires OfflineRun(sessionId, done + PairCalls(q)[..vi], pipeline).failure.None?
    ensures Variants[vi] in TopKByVariant
    ensures var c := Call(q, Variants[vi], TopKByVariant[Variants[vi]]);
      var r := pipeline(|done| + vi, q, c.topK);
      var before := OfflineRun(sessionId, done + PairCalls(q)[..vi], pipeline).events;
      && (r.Success? ==>
            OfflineRun(sessionId, done + PairCalls(q)[..vi + 1], pipeline) ==
              RunOutcome(before + [EventOf(sessionId, c, r.value)], None))
      && (r.Failure? ==>
            OfflineRun(sessionId, done + PairCalls(q), pipeline) == RunOutcome(before, Some(r.error)))
  {
    var c := Call(q, Variants[vi], TopKByVariant[Variants[vi]]);
    var made := done + PairCalls(q)[..vi];
    assert PairCalls(q)[vi] == c;
    assert done + PairCalls(q)[..vi + 1] == made + [c];
    OneMoreCall(sessionId, made, c, pipeline);
    if pipeline(|done| + vi, q, c.topK).Failure? {
      AbortIsFinal(sessionId, made + [c], PairCalls(q)[vi + 1..], pipeline);
      assert made + [c] + PairCalls(q)[vi + 1..] == done + PairCalls(q);
    }
  }

  /** The inner loop of the runner: asks question `q` under variant A, then
      variant B, logging each answer, and stops at the first call that raises.
      `done` are the calls the run made before, `first` their number. */
  method AskBothVariants(store: EventStore, q: string, sessionId: string, pipeline: Pipeline,
                         first: nat, ghost done: seq<Call>, ghost base: seq<Event>)
    returns (failure: Option<PipelineError>)
    requires first == |done|
    requires OfflineRun(sessionId, done, pipeline).failure.None?
    requires store.events == base + OfflineRun(sessionId, done, pipeline).events
    modifies store
    ensures store.events == base + OfflineRun(sessionId, done + PairCalls(q), pipeline).events
    ensures failure == OfflineRun(sessionId, done + PairCalls(q), pipeline).failure
  {
    assert done + PairCalls(q)[..0] == done;
    for vi := 0 to |Variants|
      invariant store.events == base + OfflineRun(sessionId, done + PairCalls(q)[..vi], pipeline).events
      invariant OfflineRun(sessionId, done + PairCalls(q)[..vi], pipeline).failure.None?
    {
      VariantCall(sessionId, done, q, vi, pipeline);
      var variant := Variants[vi];
      var topK := TopKByVariant[variant];
      var res := pipeline(first + vi, q, topK);
      if res.Failure? {
        return Some(res.error);
      }
      var out := res.value;
      store.LogEvent(Event(sessionId, OfflineExperiment, variant, q, topK, out.latencyMs,
                           out.citations, out.sourcePages, Prefix(out.answer, AnswerLimit), None));
    }
    assert PairCalls(q)[..2] == PairCalls(q);
    failure := None;
  }

  /** The calls up to question `i` are those before it and its pair; if they
      end in an abort, so does the whole run. */
  lemma QuestionDone(sessionId: string, qs: seq<string>, i: nat, pipeline: Pipeline)
    requires i < |qs|
    ensures Calls(qs[..i]) + PairCalls(qs[i]) == Calls(qs[..i + 1])
    ensures OfflineRun(sessionId, Calls(qs[..i + 1]), pipeline).failure.Some? ==>
      OfflineRun(sessionId, Calls(qs), pipeline) == OfflineRun(sessionId, Calls(qs[..i + 1]), pipeline)
  {
    assert qs[..i + 1][..i] == qs[..i];
    if OfflineRun(sessionId, Calls(qs[..i + 1]), pipeline).failure.Some? {
      assert qs == qs[..i + 1] + qs[i + 1..];
      CallsAppend(qs[..i + 1], qs[i + 1..]);
      AbortIsFinal(sessionId, Calls(qs[..i + 1]), Calls(qs[i + 1..]), pipeline);
    }
  }

  /** `main` of the runner after the JSON question file is read: applies the
      limit, then logs one event per question and variant into `store`, stopping
      at the first call that raises. */
  method RunExperiment(store: EventStore, questions: seq<string>, limit: int,
                       sessionId: string, pipeline: Pipeline)
    returns (failure: Option<PipelineError>)
    modifies store
    ensures var o := OfflineRun(sessionId, Calls(ApplyLimit(questions, limit)), pipeline);
      store.events == old(store.events) + o.events && failure == o.failure
  {
    var qs := questions;
    if limit > 0 {
      qs := qs[..Min(limit, |qs|)];
    }
    assert qs == ApplyLimit(questions, limit);
    for i := 0 to |qs|
      invariant store.events == old(store.events) + OfflineRun(sessionId, Calls(qs[..i]), pipeline).events
      invariant OfflineRun(sessionId, Calls(qs[..i]), pipeline).failure.None?
    {
      CallsShape(qs[..i]);
      failure := AskBothVariants(store, qs[i], sessionId, pipeline, 2 * i, Calls(qs[..i]), old(store.events));
      QuestionDone(sessionId, qs, i, pipeline);
      if failure.Some? {
        return;
      }
    }
    assert qs[..|qs|] == qs;
    failure := None;
  }

  /** What every event of a run says: it answers question `j / 2` of the
      selected questions under variant `j % 2` (A before B) with that variant's
      width, carries the run's session and the offline experiment name, has no
      vote, and stores the pipeline's answer cut to 2000 characters. A run that
      does not abort logs exactly two events per selected question. */
  lemma OfflineEvents(sessionId: string, questions: seq<string>, limit: int, pipeline: Pipeline)
    ensures var qs := ApplyLimit(questions, limit);
      var o := OfflineRun(sessionId, Calls(qs), pipeline);
      && (o.failure.None? ==> |o.events| == 2 * |qs|)
      && |o.events| <= 2 * |qs|
      && forall j :: 0 <= j < |o.events| ==>
          && o.events[j].question == qs[j / 2]
          && o.events[j].variant == Variants[j % 2]
          && o.events[j].variant in TopKByVariant
          && o.events[j].topK == TopKByVariant[o.events[j].variant]
          && o.events[j].sessionId == sessionId
          && o.events[j].experiment == OfflineExperiment
          && o.events[j].userVote == None
          && pipeline(j, o.events[j].question, o.events[j].topK).Success?
          && var answer := pipeline(j, o.events[j].question, o.events[j].topK).value.answer;
             o.events[j].answer == answer[..Min(|answer|, AnswerLimit)]
  {
    var qs := ApplyLimit(questions, limit);
    CallsShape(qs);
    OfflineRunLogsEachCall(sessionId, Calls(qs), pipeline);
  }

  /** One question, both calls returning: two events, A with width 2 then B
      with width 4, neither with a vote. */
  lemma SingleQuestionRun(sessionId: string, pipeline: Pipeline)
    requires pipeline(0, "What is the deadline?", 2).Success?
    requires pipeline(1, "What is the deadline?", 4).Success?
    ensures var o := OfflineRun(sessionId, Calls(["What is the deadline?"]), pipeline);
      && o.failure == None
      && |o.events| == 2
      && o.events[0].variant == "A" && o.events[0].topK == 2
      && o.events[1].variant == "B" && o.events[1].topK == 4
      && o.events[0].userVote == None && o.events[1].userVote == None
  {
    var qs := ["What is the deadline?"];
    assert qs[..0] == [];
    assert Calls(qs) == PairCalls(qs[0]);
    var calls := Calls(qs);
    assert calls[..1] == [calls[0]] && calls[..1][..0] == [];
  }
}
