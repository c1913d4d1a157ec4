/** `websocket_endpoint` (web_server.py): one client connection that receives
    task requests, builds an agent for each from the request's settings, and
    streams the agent's steps back as `info`, `step`, `finish` and `error`
    events.

    The agent itself is not part of this model: the results of its `step`
    calls (or the exceptions they raise) are an input, one entry per call in
    call order. The sequence may stop before the task does; the run is then
    still in progress. The socket is modelled by its events: what the client
    sends is a sequence of exchanges, and when they run out the client has
    disconnected. */
module Session {
  import opened Wrappers
  import opened Text

  const StartMessage: string := "Starting task..."
  const CompletedMessage: string := "Task completed"

  /** The defaults `data.get` falls back to when a key is absent. */
  const DefaultBaseUrl: string := "https://api-inference.modelscope.cn/v1"
  const DefaultApiKey: string := "ms-3dd3f247-aa7d-4586-b2bf-acee47e2d213"
  const DefaultModel: string := "ZhipuAI/AutoGLM-Phone-9B"
  const DefaultMaxSteps: int := 100

  /** What the unimported name `traceback` raises in the error handler. */
  const TracebackError: string := "NameError: name 'traceback' is not defined"

  // ---------------------------------------------------------------------------
  // Settings of one task request
  // ---------------------------------------------------------------------------

  /** The JSON value of `max_steps`, as far as `int()` tells values apart. */
  datatype StepsValue =
    | IntValue(n: int)
    | BoolValue(b: bool)
    | TextValue(s: string)
    | OtherValue   // null, a list or an object: `int()` raises TypeError

  /** One task request; `None` is an absent key. */
  datatype TaskRequest = TaskRequest(
    task: Option<string>,
    deviceId: Option<string>,
    baseUrl: Option<string>,
    apiKey: Option<string>,
    model: Option<string>,
    maxSteps: Option<StepsValue>)

  /** The `ModelConfig` and `AgentConfig` built for one request. */
  datatype AgentSettings = AgentSettings(
    task: Option<string>,
    deviceId: Option<string>,
    baseUrl: string,
    apiKey: string,
    modelName: string,
    maxSteps: int,
    verbose: bool)

  /** A decimal numeral as `int()` reads it: an optional sign, then at least
      one ASCII digit. */
  predicate IsNumeral(t: string) {
    && |t| > 0
    && (|| AllDigits(t)
        || ((t[0] == '+' || t[0] == '-') && |t| > 1 && AllDigits(t[1..])))
  }

  /** The information separators U+001C..U+001F. `str.isspace` holds for
      them, but `int()` does not skip them: CPython hands ASCII text to its
      numeral reader unchanged, and that reader skips only space and
      `\t`..`\r` (non-ASCII whitespace is first mapped to a space). */
  predicate IsInfoSeparator(c: char) {
    '\U{1c}' <= c <= '\U{1f}'
  }

  /** Whitespace that `int()` skips around a numeral. */
  predicate AllIntSpace(s: string) {
    forall k :: 0 <= k < |s| ==> IsSpace(s[k]) && !IsInfoSeparator(s[k])
  }

  /** `int()` on text without surrounding whitespace. */
  function ParseSigned(t: string): (r: Option<int>)
    ensures r.Some? <==> IsNumeral(t)
    ensures r.Some? ==> IsDigit(t[|t| - 1])
  {
    if |t| > 0 && (t[0] == '+' || t[0] == '-') then
      if |t| > 1 && AllDigits(t[1..]) then
        assert t[|t| - 1] == t[1..][|t| - 2];
        var v: int := DigitsValue(t[1..]);
        Some(if t[0] == '-' then -v else v)
      else None
    else if |t| > 0 && AllDigits(t) then Some(DigitsValue(t))
    else None
  }

  /** Python's `int(s)` on a string: whitespace around a signed or unsigned
      decimal numeral is ignored. An information separator can be neither
      skipped nor part of a numeral, so text containing one is rejected
      wherever it sits. */
  function ParseInt(s: string): (r: Option<int>)
    ensures r.Some? <==> IsNumeral(Strip(s)) && forall k :: 0 <= k < |s| ==> !IsInfoSeparator(s[k])
    ensures r.Some? ==> IsDigit(Strip(s)[|Strip(s)| - 1])
  {
    if exists k :: 0 <= k < |s| && IsInfoSeparator(s[k]) then None
    else ParseSigned(Strip(s))
  }

  /** `str(n)`: a numeral, with a sign only when `n` is negative. */
  function IntText(n: int): (s: string)
    ensures IsNumeral(s) && IsStripped(s)
    ensures s[0] == '-' <==> n < 0
  {
    var d := Decimal(if n < 0 then -n else n);
    assert IsDigit(d[0]) && IsDigit(d[|d| - 1]);
    if n < 0 then
      assert ("-" + d)[|d|] == d[|d| - 1];
      assert ("-" + d)[1..] == d;
      "-" + d
    else d
  }

  lemma ParseSignedIntText(n: int)
    ensures ParseSigned(IntText(n)) == Some(n)
  {
    var d := Decimal(if n < 0 then -n else n);
    assert AllDigits(d) && IsDigit(d[0]);
    DecimalRoundTrip(if n < 0 then -n else n);
    if n < 0 {
      var t := "-" + d;
      assert IntText(n) == t;
      assert t[0] == '-' && t[1..] == d;
    } else {
      assert IntText(n) == d;
    }
  }

  /** `int(str(n)) == n`, also with whitespace that `int()` skips around the
      number. */
  lemma ParseIntRoundTrip(n: int, before: string, after: string)
    requires AllIntSpace(before) && AllIntSpace(after)
    ensures ParseInt(before + IntText(n) + after) == Some(n)
  {
    var t := IntText(n);
    var s := before + t + after;
    forall k | 0 <= k < |s|
      ensures !IsInfoSeparator(s[k])
    {
      if |before| <= k < |before| + |t| {
        NumeralHasNoSeparator(t, k - |before|);
      }
    }
    StripUnique(before, t, after);
    ParseSignedIntText(n);
  }

  /** A numeral consists of digits and a sign, never an information separator. */
  lemma NumeralHasNoSeparator(t: string, k: int)
    requires IsNumeral(t) && 0 <= k < |t|
    ensures !IsInfoSeparator(t[k])
  {
    if !AllDigits(t) && k > 0 {
      assert t[k] == t[1..][k - 1];
    }
  }

  /** Padding that `strip()` removes but `int()` does not skip makes the
      conversion fail, although the stripped text is the numeral. */
  lemma ParseIntRejectsSeparatorPadding(n: int, c: char)
    requires IsInfoSeparator(c)
    ensures Strip([c] + IntText(n)) == IntText(n)
    ensures ParseInt([c] + IntText(n)) == None
  {
    StripUnique([c], IntText(n), "");
    assert [c] + IntText(n) + "" == [c] + IntText(n);
    assert ([c] + IntText(n))[0] == c;
  }

  /** A leading `+` is accepted too. */
  lemma ParseIntPlusSign(n: nat)
    ensures ParseInt("+" + Decimal(n)) == Some(n)
  {
    var s := "+" + Decimal(n);
    PlusSignedNumeral(n);
    StripOfStripped(s);
  }

  /** `+` followed by a numeral is stripped and reads as the numeral's value. */
  lemma PlusSignedNumeral(n: nat)
    ensures IsStripped("+" + Decimal(n))
    ensures ParseSigned("+" + Decimal(n)) == Some(n)
  {
    var d := Decimal(n);
    var s := "+" + d;
    assert s[|s| - 1] == d[|d| - 1];
    assert s[1..] == d;
    DecimalRoundTrip(n);
  }

  /** `int(value)`; the error is the exception it raises. */
  function IntOf(v: StepsValue): (r: Result<int>)
    ensures v.IntValue? ==> r == Success(v.n)
    ensures v.OtherValue? ==> r.Failure?
  {
    match v
    case IntValue(n) => Success(n)
    case BoolValue(b) => Success(if b then 1 else 0)
    case TextValue(s) =>
      (match ParseInt(s)
       case Some(n) => Success(n)
       case None => Failure("ValueError: invalid literal for int() with base 10"))
    case OtherValue => Failure("TypeError: int() argument must be a string or a number")
  }

  /** The configuration step of the handler: every absent key takes its
      default, every present key is used as sent (an empty string included),
      and only the `max_steps` conversion can fail. */
  function Settings(req: TaskRequest): (r: Result<AgentSettings>)
    ensures r.Failure? <==> req.maxSteps.Some? && IntOf(req.maxSteps.value).Failure?
    ensures r.Success? ==>
              && r.value.task == req.task && r.value.deviceId == req.deviceId
              && r.value.verbose
              && (req.baseUrl.None? ==> r.value.baseUrl == DefaultBaseUrl)
              && (req.baseUrl.Some? ==> r.value.baseUrl == req.baseUrl.value)
              && (req.apiKey.None? ==> r.value.apiKey == DefaultApiKey)
              && (req.apiKey.Some? ==> r.value.apiKey == req.apiKey.value)
              && (req.model.None? ==> r.value.modelName == DefaultModel)
              && (req.model.Some? ==> r.value.modelName == req.model.value)
              && (req.maxSteps.None? ==> r.value.maxSteps == DefaultMaxSteps)
              && (req.maxSteps.Some? ==> Success(r.value.maxSteps) == IntOf(req.maxSteps.value))
  {
    var steps := if req.maxSteps.None? then Success(DefaultMaxSteps) else IntOf(req.maxSteps.value);
    if steps.Failure? then Failure(steps.error)
    else
      Success(AgentSettings(
        req.task, req.deviceId,
        req.baseUrl.GetOr(DefaultBaseUrl), req.apiKey.GetOr(DefaultApiKey), req.model.GetOr(DefaultModel),
        steps.value, true))
  }

  /** A request that names only a task runs with all the defaults. */
  lemma DefaultSettings(task: Option<string>, deviceId: Option<string>)
    ensures Settings(TaskRequest(task, deviceId, None, None, None, None))
            == Success(AgentSettings(task, deviceId, DefaultBaseUrl, DefaultApiKey, DefaultModel, DefaultMaxSteps, true))
  {
  }

  /** Text without a decimal digit is never a number: `int("seven")` and
      `int("")` raise. */
  lemma ParseIntNeedsDigit(s: string)
    requires forall k :: 0 <= k < |s| ==> !IsDigit(s[k])
    ensures ParseInt(s) == None
  {
    StrippedHasNoDigit(s);
  }

  /** What `strip` keeps comes from its input, so it has no digit when the input has none. */
  lemma StrippedHasNoDigit(s: string)
    requires forall k :: 0 <= k < |s| ==> !IsDigit(s[k])
    ensures forall k :: 0 <= k < |Strip(s)| ==> !IsDigit(Strip(s)[k])
  {
    var t := Strip(s);
    StripKeepsInfix(s);
    var i :| StrippedAt(s, t, i);
    forall k | 0 <= k < |t|
      ensures !IsDigit(t[k])
    {
      assert t[k] == s[i + k];
    }
  }

  /** `max_steps` sent as the text `" 7 "` is accepted as 7. */
  lemma MaxStepsText()
    ensures Settings(TaskRequest(None, None, None, None, None, Some(TextValue(" 7 ")))).Success?
    ensures Settings(TaskRequest(None, None, None, None, None, Some(TextValue(" 7 ")))).value.maxSteps == 7
  {
    assert ParseInt(" 7 ") == Some(7) by {
      assert Decimal(7) == "7";
      assert " 7 " == " " + IntText(7) + " ";
      ParseIntRoundTrip(7, " ", " ");
    }
  }

  /** `max_steps` sent as text with no digit in it, such as `"seven"` or
      `""`, makes the conversion fail. */
  lemma MaxStepsTextRejected(text: string)
    requires forall k :: 0 <= k < |text| ==> !IsDigit(text[k])
    ensures Settings(TaskRequest(None, None, None, None, None, Some(TextValue(text)))).Failure?
  {
    ParseIntNeedsDigit(text);
  }

  // ---------------------------------------------------------------------------
  // The step loop of one task
  // ---------------------------------------------------------------------------

  /** The agent's `StepResult`, reduced to the fields the handler reads. */
  datatype StepResult = StepResult(finished: bool, message: Option<string>)

  /** What one `agent.step` call does: return a result or raise. */
  datatype StepOutcome = Returned(result: StepResult) | Raised(error: string)

  /** How `agent.step` is called: with the task the first time, without later. */
  datatype StepCall = FirstCall(task: Option<string>) | LaterCall

  /** The JSON messages sent to the client. */
  datatype Event =
    | Info(message: string)
    | StepEvent(data: StepResult)
    | Finish(message: string)
    | ErrorEvent(message: string)

  /** Where a task stands once the known outcomes are used up. */
  datatype TaskEnd = Finished | Errored | Pending

  /** The outcomes consumed by the step loop, the events it sent, and how it ended. */
  datatype Progress = Progress(consumed: nat, events: seq<Event>, end: TaskEnd)

  /** The calls made, the events sent, and how one task ended. */
  datatype TaskRun = TaskRun(calls: seq<StepCall>, events: seq<Event>, end: TaskEnd)

  /** An outcome after which no further step is taken. */
  predicate Terminal(o: StepOutcome) {
    o.Raised? || o.result.finished
  }

  predicate NoTerminalBefore(outcomes: seq<StepOutcome>, n: nat)
    requires n <= |outcomes|
  {
    forall k :: 0 <= k < n ==> !Terminal(outcomes[k])
  }

  /** `result.message or "Task completed"`: never empty. */
  function FinishMessage(message: Option<string>): (m: string)
    ensures |m| > 0
    ensures message.Some? && |message.value| > 0 ==> m == message.value
    ensures !(message.Some? && |message.value| > 0) ==> m == CompletedMessage
  {
    if message.Some? && |message.value| > 0 then message.value else CompletedMessage
  }

  /** The step loop: a `step` event per result, stopping at the first result
      with `finished` set (then a `finish` event) or the first exception (then
      one `error` event and nothing else). */
  function Steps(outcomes: seq<StepOutcome>): (p: Progress)
    ensures p.consumed <= |outcomes|
    ensures p.end == Pending ==> p.consumed == |outcomes|
    ensures |p.events| == p.consumed + (if p.end == Finished then 1 else 0)
    ensures forall k :: 0 <= k < |p.events| ==> !p.events[k].Info?
    decreases |outcomes|
  {
    if |outcomes| == 0 then Progress(0, [], Pending)
    else
      match outcomes[0]
      case Raised(e) => Progress(1, [ErrorEvent(e)], Errored)
      case Returned(res) =>
        if res.finished then Progress(1, [StepEvent(res), Finish(FinishMessage(res.message))], Finished)
        else
          var p := Steps(outcomes[1..]);
          Progress(p.consumed + 1, [StepEvent(res)] + p.events, p.end)
  }

  /** What the step loop sends: one `step` event per returned result in call
      order; it stops at the first terminal outcome, and only there, closing
      with `finish` after a finished result or with a single `error` in place
      of the step event after an exception; without a terminal outcome it is
      still running. */
  lemma {:induction false} StepsMeaning(outcomes: seq<StepOutcome>)
    ensures var p := Steps(outcomes);
            && (p.end == Pending <==> NoTerminalBefore(outcomes, |outcomes|))
            && (p.end != Pending ==>
                  && 0 < p.consumed
                  && Terminal(outcomes[p.consumed - 1])
                  && NoTerminalBefore(outcomes, p.consumed - 1)
                  && (p.end == Errored <==> outcomes[p.consumed - 1].Raised?))
            && (forall k :: 0 <= k < p.consumed && outcomes[k].Returned? ==> p.events[k] == StepEvent(outcomes[k].result))
            && (p.end == Errored ==> p.events[p.consumed - 1] == ErrorEvent(outcomes[p.consumed - 1].error))
            && (p.end == Finished ==> p.events[p.consumed] == Finish(FinishMessage(outcomes[p.consumed - 1].result.message)))
    decreases |outcomes|
  {
    if |outcomes| > 0 && outcomes[0].Returned? && !outcomes[0].result.finished {
      var rest := outcomes[1..];
      StepsMeaning(rest);
      assert forall k :: 1 <= k <= |rest| ==> outcomes[k] == rest[k - 1];
    }
  }

  /** The arguments of the first `n` step calls. */
  function CallsFor(task: Option<string>, n: nat): (calls: seq<StepCall>) {
    seq(n, k => if k == 0 then FirstCall(task) else LaterCall)
  }

  /** One task from the `info` event to the end of the step loop. */
  function RunTask(task: Option<string>, outcomes: seq<StepOutcome>): (run: TaskRun)
    ensures |run.events| >= 1 && run.events[0] == Info(StartMessage)
    ensures |run.calls| <= |outcomes|
    ensures forall k :: 0 <= k < |run.calls| ==> run.calls[k] == if k == 0 then FirstCall(task) else LaterCall
    ensures |run.calls| == |run.events| - 1 - (if run.end == Finished then 1 else 0)
    ensures forall k :: 1 <= k < |run.events| ==> !run.events[k].Info?
  {
    var p := Steps(outcomes);
    TaskRun(CallsFor(task, p.consumed), [Info(StartMessage)] + p.events, p.end)
  }

  /** The handler's `try` block as it is written: the first call with the
      task, then calls without it while the last result is not finished. */
  method DriveTask(task: Option<string>, outcomes: seq<StepOutcome>) returns (run: TaskRun)
    ensures run == RunTask(task, outcomes)
  {
    // the `info` event is sent first; `sent` collects the events after it
    if |outcomes| == 0 {
      return TaskRun([], [Info(StartMessage)], Pending);
    }
    var sent: seq<Event> := [];
    var calls: seq<StepCall> := [FirstCall(task)];
    var outcome := outcomes[0];
    var i := 1;
    assert outcomes[0..] == outcomes;
    while outcome.Returned? && !outcome.result.finished && i < |outcomes|
      invariant 1 <= i <= |outcomes|
      invariant outcome == outcomes[i - 1]
      invariant calls == CallsFor(task, i)
      invariant var q := Steps(outcomes[i - 1..]);
                Steps(outcomes) == Progress(i - 1 + q.consumed, sent + q.events, q.end)
    {
      assert outcomes[i - 1..][1..] == outcomes[i..];
      sent := sent + [StepEvent(outcome.result)];
      calls := calls + [LaterCall];
      outcome := outcomes[i];
      i := i + 1;
    }
    var tail := outcomes[i - 1..];
    assert |tail| > 0 && tail[0] == outcome;
    var rest: seq<Event>;
    var end: TaskEnd;
    match outcome {
      case Raised(e) =>
        rest := [ErrorEvent(e)];
        end := Errored;
      case Returned(result) =>
        if result.finished {
          rest := [StepEvent(result), Finish(FinishMessage(result.message))];
          end := Finished;
        } else {
          rest := [StepEvent(result)];
          end := Pending;
          assert tail[1..] == [];
          assert Steps(tail[1..]) == Progress(0, [], Pending);
          assert [StepEvent(result)] + [] == rest;
        }
    }
    assert Steps(tail) == Progress(1, rest, end);
    run := TaskRun(calls, [Info(StartMessage)] + (sent + rest), end);
  }

  /** The step loop stops after the first terminal outcome, or after the last
      outcome when none is terminal. */
  lemma {:induction false} StepsStopAt(outcomes: seq<StepOutcome>, i: nat)
    requires 1 <= i <= |outcomes| && NoTerminalBefore(outcomes, i - 1)
    requires Terminal(outcomes[i - 1]) || i == |outcomes|
    ensures Steps(outcomes).consumed == i
    ensures Steps(outcomes).end ==
              if outcomes[i - 1].Raised? then Errored
              else if outcomes[i - 1].result.finished then Finished
              else Pending
    decreases i
  {
    if i > 1 {
      var rest := outcomes[1..];
      assert !Terminal(outcomes[0]);
      assert NoTerminalBefore(rest, i - 2) by {
        forall k | 0 <= k < i - 2
          ensures !Terminal(rest[k])
        {
          assert rest[k] == outcomes[k + 1];
        }
      }
      assert rest[i - 2] == outcomes[i - 1];
      StepsStopAt(rest, i - 1);
    }
  }

  /** A step executor that returns unfinished results twice and then a
      finished one gives three `step` events in order and one `finish`
      event; whatever it would do afterwards is never asked. */
  lemma ThreeStepsThenFinish(task: Option<string>, r1: StepResult, r2: StepResult, r3: StepResult, later: seq<StepOutcome>)
    requires !r1.finished && !r2.finished && r3.finished
    ensures RunTask(task, [Returned(r1), Returned(r2), Returned(r3)] + later)
            == TaskRun([FirstCall(task), LaterCall, LaterCall],
                       [Info(StartMessage), StepEvent(r1), StepEvent(r2), StepEvent(r3), Finish(FinishMessage(r3.message))],
                       Finished)
  {
    var o := [Returned(r1), Returned(r2), Returned(r3)] + later;
    var o3 := [Returned(r3)] + later;
    var o2 := [Returned(r2)] + o3;
    assert o == [Returned(r1)] + o2;
    assert o2[1..] == o3 && o[1..] == o2;
    var fin := Finish(FinishMessage(r3.message));
    assert Steps(o3) == Progress(1, [StepEvent(r3), fin], Finished);
    assert Steps(o2) == Progress(2, [StepEvent(r2), StepEvent(r3), fin], Finished);
    assert Steps(o) == Progress(3, [StepEvent(r1), StepEvent(r2), StepEvent(r3), fin], Finished);
    assert CallsFor(task, 3) == [FirstCall(task), LaterCall, LaterCall];
  }

  /** A step executor that raises on its second call gives one `step` event
      and one `error` event, and no `finish`. */
  lemma RaiseOnSecondCall(task: Option<string>, r1: StepResult, e: string, later: seq<StepOutcome>)
    requires !r1.finished
    ensures RunTask(task, [Returned(r1), Raised(e)] + later)
            == TaskRun([FirstCall(task), LaterCall], [Info(StartMessage), StepEvent(r1), ErrorEvent(e)], Errored)
  {
    var o := [Returned(r1), Raised(e)] + later;
    assert o[1..] == [Raised(e)] + later;
    assert Steps(o[1..]) == Progress(1, [ErrorEvent(e)], Errored);
    assert Steps(o) == Progress(2, [StepEvent(r1), ErrorEvent(e)], Errored);
    assert CallsFor(task, 2) == [FirstCall(task), LaterCall];
  }

  /** Events are streamed: what was sent after some outcomes is a prefix of
      what is sent after more, and a finished or failed task takes no
      further step. */
  lemma {:induction false} StepsExtend(outcomes: seq<StepOutcome>, more: seq<StepOutcome>)
    ensures Steps(outcomes).events <= Steps(outcomes + more).events
    ensures Steps(outcomes).end != Pending ==> Steps(outcomes + more) == Steps(outcomes)
    decreases |outcomes|
  {
    if |outcomes| == 0 {
      assert outcomes + more == more;
    } else {
      assert (outcomes + more)[0] == outcomes[0];
      assert (outcomes + more)[1..] == outcomes[1..] + more;
      if outcomes[0].Returned? && !outcomes[0].result.finished {
        StepsExtend(outcomes[1..], more);
      }
    }
  }

  /** The run-level form of `StepsExtend`. */
  lemma RunExtends(task: Option<string>, outcomes: seq<StepOutcome>, more: seq<StepOutcome>)
    ensures RunTask(task, outcomes).events <= RunTask(task, outcomes + more).events
    ensures RunTask(task, outcomes).end != Pending ==> RunTask(task, outcomes + more) == RunTask(task, outcomes)
  {
    StepsExtend(outcomes, more);
  }

  /** A task sends exactly one terminal event, `finish` or `error`, as its
      last event, and none while it is still running. */
  lemma OneTerminalEvent(task: Option<string>, outcomes: seq<StepOutcome>)
    ensures var run := RunTask(task, outcomes);
            && (forall k :: 0 <= k < |run.events| - 1 ==> run.events[k].Info? || run.events[k].StepEvent?)
            && (run.end == Pending ==> run.events[|run.events| - 1].Info? || run.events[|run.events| - 1].StepEvent?)
            && (run.end == Finished ==> run.events[|run.events| - 1].Finish?)
            && (run.end == Errored ==> run.events[|run.events| - 1].ErrorEvent?)
  {
    var p := Steps(outcomes);
    StepsMeaning(outcomes);
    var run := RunTask(task, outcomes);
    forall k | 1 <= k < |run.events| - 1
      ensures run.events[k].StepEvent?
    {
      assert run.events[k] == p.events[k - 1];
      assert !Terminal(outcomes[k - 1]) || (p.end == Finished && k - 1 == p.consumed - 1);
    }
    if run.end == Pending && |run.events| > 1 {
      assert !Terminal(outcomes[p.consumed - 1]);
    }
  }

  // ---------------------------------------------------------------------------
  // The connection
  // ---------------------------------------------------------------------------

  /** One request received on the connection and the outcomes of the steps
      of the agent built for it. */
  datatype Exchange = Exchange(request: TaskRequest, outcomes: seq<StepOutcome>)

  /** How the handler stands after the exchanges: the client disconnected
      while it waited for a request, an exception other than a disconnect
      escaped it, or it is still inside a task. */
  datatype HandlerEnd = Disconnected | Crashed(error: string) | InTask

  /** The agents built, the events sent, and how the handler stands. */
  datatype Connection = Connection(agents: seq<AgentSettings>, events: seq<Event>, end: HandlerEnd)

  /** The receive loop. After an `error` event the handler evaluates
      `traceback.print_exc()`; with `tracebackImported` false, as in the
      source, that raises `NameError`, which the handler does not catch. */
  function Handle(tracebackImported: bool, exchanges: seq<Exchange>): (c: Connection)
    ensures |c.agents| <= |exchanges|
    ensures forall k :: 0 <= k < |c.agents| ==> Settings(exchanges[k].request) == Success(c.agents[k])
    ensures c.end == Disconnected ==> |c.agents| == |exchanges|
    decreases |exchanges|
  {
    if |exchanges| == 0 then Connection([], [], Disconnected)
    else
      var x := exchanges[0];
      match Settings(x.request)
      case Failure(e) => Connection([], [], Crashed(e))
      case Success(s) =>
        var run := RunTask(s.task, x.outcomes);
        if run.end == Pending then Connection([s], run.events, InTask)
        else if run.end == Errored && !tracebackImported then Connection([s], run.events, Crashed(TracebackError))
        else
          var rest := Handle(tracebackImported, exchanges[1..]);
          Connection([s] + rest.agents, run.events + rest.events, rest.end)
  }

  /** `websocket_endpoint` as written. */
  function Serve(exchanges: seq<Exchange>): (c: Connection)
    ensures |c.agents| <= |exchanges|
  {
    Handle(false, exchanges)
  }

  /** `websocket_endpoint` with `traceback` imported: a failed task is
      reported and the connection waits for the next request. */
  function ServeIntended(exchanges: seq<Exchange>): (c: Connection)
    ensures |c.agents| <= |exchanges|
  {
    Handle(true, exchanges)
  }

  /** The events of running every request's task, one after the other. */
  function AllEvents(exchanges: seq<Exchange>): seq<Event>
    decreases |exchanges|
  {
    if |exchanges| == 0 then []
    else RunTask(exchanges[0].request.task, exchanges[0].outcomes).events + AllEvents(exchanges[1..])
  }

  /** A request can be served to its end: its settings convert and its task
      finishes or fails within the known outcomes. */
  predicate Servable(x: Exchange) {
    Settings(x.request).Success? && RunTask(x.request.task, x.outcomes).end != Pending
  }

  /** With `traceback` imported, every servable request is served in order,
      whether its task finished or failed, and the handler ends only when the
      client disconnects. */
  lemma {:induction false} ServeIntendedServesAll(exchanges: seq<Exchange>)
    requires forall k :: 0 <= k < |exchanges| ==> Servable(exchanges[k])
    ensures ServeIntended(exchanges).end == Disconnected
    ensures |ServeIntended(exchanges).agents| == |exchanges|
    ensures ServeIntended(exchanges).events == AllEvents(exchanges)
    decreases |exchanges|
  {
    if |exchanges| > 0 {
      assert Servable(exchanges[0]);
      assert forall k :: 0 <= k < |exchanges| - 1 ==> exchanges[1..][k] == exchanges[k + 1];
      ServeIntendedServesAll(exchanges[1..]);
    }
  }

  /** The missing import matters only after a failed task: as long as no
      task fails, the handler as written behaves as intended. */
  lemma {:induction false} ServeMatchesIntendedWithoutErrors(exchanges: seq<Exchange>)
    requires forall k :: 0 <= k < |exchanges| ==> RunTask(exchanges[k].request.task, exchanges[k].outcomes).end != Errored
    ensures Serve(exchanges) == ServeIntended(exchanges)
    decreases |exchanges|
  {
    if |exchanges| > 0 {
      assert RunTask(exchanges[0].request.task, exchanges[0].outcomes).end != Errored;
      assert forall k :: 0 <= k < |exchanges| - 1 ==> exchanges[1..][k] == exchanges[k + 1];
      ServeMatchesIntendedWithoutErrors(exchanges[1..]);
    }
  }

  /** As written, the first failed task ends the connection: the requests
      before it are served to their `finish`, the failed task's events up to
      its `error` are sent, and the handler then dies of `NameError` without
      reading another request. */
  lemma {:induction false} FailedTaskCrashesHandler(exchanges: seq<Exchange>, k: nat)
    requires k < |exchanges|
    requires forall j :: 0 <= j < k ==>
               Settings(exchanges[j].request).Success?
               && RunTask(exchanges[j].request.task, exchanges[j].outcomes).end == Finished
    requires Settings(exchanges[k].request).Success?
    requires RunTask(exchanges[k].request.task, exchanges[k].outcomes).end == Errored
    ensures |Serve(exchanges).agents| == k + 1
    ensures Serve(exchanges).events == AllEvents(exchanges[..k + 1])
    ensures Serve(exchanges).end == Crashed(TracebackError)
    decreases k
  {
    var x := exchanges[0];
    var run := RunTask(x.request.task, x.outcomes);
    if k == 0 {
      assert exchanges[..1] == [x] && [x][1..] == [];
      assert AllEvents(exchanges[..1]) == run.events + [];
    } else {
      var tail := exchanges[1..];
      assert Settings(x.request).Success? && run.end == Finished;
      forall j | 0 <= j < k - 1
        ensures Settings(tail[j].request).Success?
                && RunTask(tail[j].request.task, tail[j].outcomes).end == Finished
      {
        assert tail[j] == exchanges[j + 1];
      }
      assert tail[k - 1] == exchanges[k];
      FailedTaskCrashesHandler(tail, k - 1);
      assert exchanges[..k + 1][0] == x;
      assert exchanges[..k + 1][1..] == tail[..k];
    }
  }

  /** The discrepancy: the first task fails on its first step, and the second
      request is never read. The handler as written sends the `error` event
      and then dies of `NameError`; with the import it goes on and runs the
      second task. */
  lemma FailedTaskEndsConnection(e: string, done: StepResult)
    requires done.finished
    ensures var req := TaskRequest(None, None, None, None, None, None);
            var xs := [Exchange(req, [Raised(e)]), Exchange(req, [Returned(done)])];
            && Serve(xs) == Connection([AgentSettings(None, None, DefaultBaseUrl, DefaultApiKey, DefaultModel, DefaultMaxSteps, true)],
                                       [Info(StartMessage), ErrorEvent(e)], Crashed(TracebackError))
            && ServeIntended(xs).end == Disconnected
            && ServeIntended(xs).events == [Info(StartMessage), ErrorEvent(e), Info(StartMessage), StepEvent(done), Finish(FinishMessage(done.message))]
  {
    var req := TaskRequest(None, None, None, None, None, None);
    var xs := [Exchange(req, [Raised(e)]), Exchange(req, [Returned(done)])];
    var settings := AgentSettings(None, None, DefaultBaseUrl, DefaultApiKey, DefaultModel, DefaultMaxSteps, true);
    DefaultSettings(None, None);
    assert Steps([Raised(e)]) == Progress(1, [ErrorEvent(e)], Errored);
    assert RunTask(None, [Raised(e)]).events == [Info(StartMessage), ErrorEvent(e)];
    assert RunTask(None, [Raised(e)]).end == Errored;
    assert Steps([Returned(done)]) == Progress(1, [StepEvent(done), Finish(FinishMessage(done.message))], Finished);
    assert xs[1..] == [Exchange(req, [Returned(done)])];
    assert xs[1..][1..] == [];
    var finishRun := TaskRun([FirstCall(None)], [Info(StartMessage), StepEvent(done), Finish(FinishMessage(done.message))], Finished);
    assert CallsFor(None, 1) == [FirstCall(None)];
    assert RunTask(None, [Returned(done)]) == finishRun;
    assert Handle(true, xs[1..][1..]) == Connection([], [], Disconnected);
    assert [settings] + [] == [settings];
    assert finishRun.events + [] == finishRun.events;
    var second := Handle(true, xs[1..]);
    assert second == Connection([settings], [Info(StartMessage), StepEvent(done), Finish(FinishMessage(done.message))], Disconnected);
  }

  /** A `max_steps` that `int()` rejects ends the connection before any event
      of that request is sent, with or without the import: the conversion is
      outside the `try` that reports errors to the client. */
  lemma BadMaxStepsEndsConnection(tracebackImported: bool, exchanges: seq<Exchange>)
    requires |exchanges| > 0 && Settings(exchanges[0].request).Failure?
    ensures Handle(tracebackImported, exchanges) == Connection([], [], Crashed(Settings(exchanges[0].request).error))
  {
  }
}
