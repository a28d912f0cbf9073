/** `PiRpcClient`: one prompt at a time over a line protocol whose `agent_end` lines carry
    no request number. A step is what runs between two returns to the event loop. */
module RpcClient {
  import opened Common

  datatype PendingPrompt = PendingPrompt(id: nat, responseReceived: bool)

  datatype Settlement = Resolved(text: string, cause: nat) | Rejected(reason: string)

  /** The promise chain `sequence`: free, waiting for the prompt `id`, or rejected for good. */
  datatype Chain = Free | Busy(id: nat) | Broken

  /** `extractTranslationResult`: the assistant text, or an error. */
  datatype Extraction = Text(text: string) | Error(reason: string)

  /** A parsed line. `cause` is the prompt for which the process wrote it: the client does
      not see it. */
  datatype Line = Response(id: nat, success: bool, error: string) | AgentEnd(extraction: Extraction, cause: nat) | Noise

  datatype Event =
    | PromptCalled(message: string)
    | ChainContinues
    | StdoutLine(line: Line)
    | TimerFires(id: nat)
    | WriteFails(id: nat, reason: string)
    | ProcessError(reason: string)
    | ProcessClosed
    | CloseCalled

  /** `queue`, `written`, `settled` and `ended` are the prompts not yet begun, the ids
      written to the process, the settled prompts, and the causes of past `agent_end` lines. */
  datatype Client = Client(
    closed: bool,
    pending: Option<PendingPrompt>,
    requestCount: nat,
    chain: Chain,
    queue: seq<string>,
    written: seq<nat>,
    settled: map<nat, Settlement>,
    ended: set<nat>)

  const FRESH := Client(false, None, 0, Free, [], [], map[], {})

  /** A promise settles once; a rejected prompt rejects the rest of the chain. */
  function Settle(c: Client, id: nat, s: Settlement): Client {
    if id in c.settled then c
    else c.(settled := c.settled[id := s],
            chain := if c.chain == Busy(id) then (if s.Resolved? then Free else Broken) else c.chain)
  }

  function RejectPending(c: Client, reason: string): Client {
    match c.pending
    case Some(p) => Settle(c.(pending := None), p.id, Rejected(reason))
    case None => c
  }

  function HandleLine(c: Client, line: Line): Client {
    match c.pending
    case None => c
    case Some(p) =>
      match line
      case Noise => c
      case Response(id, success, error) =>
        if id != p.id then c
        else if !success then Settle(c.(pending := None), p.id, Rejected(if error != "" then error else "pi prompt failed"))
        else c.(pending := Some(p.(responseReceived := true)))
      case AgentEnd(extraction, cause) =>
        Settle(c.(pending := None), p.id,
               if extraction.Text? then Resolved(extraction.text, cause) else Rejected(extraction.reason))
  }

  function Step(c: Client, e: Event): Client {
    match e
    case PromptCalled(message) => c.(queue := c.queue + [message])
    case ChainContinues =>
      if !c.chain.Free? || c.queue == [] then c
      else if c.closed then c.(queue := c.queue[1..], chain := Broken)
      else
        var id := c.requestCount + 1;
        c.(queue := c.queue[1..], requestCount := id, pending := Some(PendingPrompt(id, false)),
           chain := Busy(id), written := c.written + [id])
    case StdoutLine(line) =>
      HandleLine(c, line).(ended := if line.AgentEnd? then c.ended + {line.cause} else c.ended)
    case TimerFires(id) =>
      if c.pending.Some? && c.pending.value.id == id then
        Settle(c.(pending := None, closed := true), id, Rejected("translation prompt timed out"))
      else c
    case WriteFails(id, reason) =>
      if id !in c.written then c
      else Settle(if c.pending.Some? && c.pending.value.id == id then c.(pending := None) else c, id, Rejected(reason))
    case ProcessError(reason) => RejectPending(c, reason)
    case ProcessClosed => RejectPending(c.(closed := true), "pi process closed")
    case CloseCalled => c.(closed := true)
  }

  function Run(events: seq<Event>): Client {
    if events == [] then FRESH else Step(Run(events[..|events| - 1]), events[|events| - 1])
  }

  /** An `agent_end` comes for a prompt that was written and has not ended. */
  predicate Allowed(c: Client, e: Event) {
    e.StdoutLine? && e.line.AgentEnd? ==> e.line.cause in c.written && e.line.cause !in c.ended
  }

  // ----- the invariant -----

  ghost predicate Inv(c: Client) {
    && c.written == seq(c.requestCount, i => i + 1)
    && (c.pending.Some? ==> c.chain == Busy(c.pending.value.id))
    && (c.chain.Busy? ==> c.chain.id == c.requestCount && c.requestCount >= 1 && c.requestCount !in c.settled && c.pending.Some?)
    && (forall id :: id in c.settled ==> 1 <= id <= c.requestCount)
    && (forall id :: 1 <= id < c.requestCount ==> id in c.settled && c.settled[id].Resolved?)
    && (c.chain.Free? && c.requestCount >= 1 ==> c.requestCount in c.settled && c.settled[c.requestCount].Resolved?)
    && (c.chain.Broken? && c.requestCount >= 1 ==> c.requestCount in c.settled)
    && (c.chain.Broken? ==> c.closed || (c.requestCount in c.settled && c.settled[c.requestCount].Rejected?))
  }

  /** Every resolved prompt has had its `agent_end`. */
  ghost predicate OwnEnds(c: Client) {
    forall id :: id in c.settled && c.settled[id].Resolved? ==> id in c.ended && c.settled[id].cause == id
  }

  lemma BeginKeepsInv(c: Client)
    requires Inv(c)
    ensures Inv(Step(c, ChainContinues))
  {
    if c.chain.Free? && c.queue != [] && !c.closed {
      assert Step(c, ChainContinues).written == seq(c.requestCount + 1, i => i + 1);
    }
  }

  lemma SettleKeepsInv(c: Client, id: nat, s: Settlement)
    requires Inv(c) && 1 <= id <= c.requestCount
    ensures Inv(Settle(if c.pending.Some? && c.pending.value.id == id then c.(pending := None) else c, id, s))
  {
  }

  lemma StepKeepsInv(c: Client, e: Event)
    requires Inv(c)
    ensures Inv(Step(c, e))
  {
    match e
    case ChainContinues => BeginKeepsInv(c);
    case WriteFails(id, reason) =>
      if id in c.written { SettleKeepsInv(c, id, Rejected(reason)); }
    case StdoutLine(line) => LineKeepsInv(c, line);
    case _ =>
  }

  lemma LineKeepsInv(c: Client, line: Line)
    requires Inv(c)
    ensures Inv(Step(c, StdoutLine(line)))
  {
  }

  lemma StepKeepsOwnEnds(c: Client, e: Event)
    requires Inv(c) && OwnEnds(c) && Allowed(c, e)
    ensures OwnEnds(Step(c, e))
  {
    if e.StdoutLine? && e.line.AgentEnd? && c.pending.Some? {
      var cause := e.line.cause;
      assert cause in c.written;
      assert 1 <= cause <= c.requestCount;
    }
  }

  lemma {:induction false} RunKeepsInv(events: seq<Event>)
    ensures Inv(Run(events))
  {
    if events != [] {
      RunKeepsInv(events[..|events| - 1]);
      StepKeepsInv(Run(events[..|events| - 1]), events[|events| - 1]);
    } else {
      assert FRESH.written == seq(0, i => i + 1);
    }
  }

  // ----- what is asked of the process -----

  /** The process ends only prompts that it got. */
  ghost predicate EndsWritten(events: seq<Event>) {
    forall n :: 0 <= n < |events| && IsEnd(events[n]) ==> events[n].line.cause in Run(events[..n]).written
  }

  predicate IsEnd(e: Event) {
    e.StdoutLine? && e.line.AgentEnd?
  }

  /** How many `agent_end` lines the process wrote for one prompt. */
  function EndCount(events: seq<Event>, id: nat): nat {
    if events == [] then 0
    else
      var last := events[|events| - 1];
      EndCount(events[..|events| - 1], id) + if IsEnd(last) && last.line.cause == id then 1 else 0
  }

  ghost predicate EndsAtMost(events: seq<Event>, k: nat) {
    forall id :: EndCount(events, id) <= k
  }

  lemma {:induction false} EndedWhenCounted(events: seq<Event>, id: nat)
    ensures id in Run(events).ended <==> EndCount(events, id) > 0
  {
    if events != [] {
      EndedWhenCounted(events[..|events| - 1], id);
      EndedStep(Run(events[..|events| - 1]), events[|events| - 1]);
    }
  }

  lemma EndedStep(c: Client, e: Event)
    ensures Step(c, e).ended == if IsEnd(e) then c.ended + {e.line.cause} else c.ended
  {
  }

  /** Ending written prompts once each is what keeps every answer with its own prompt. */
  lemma LastEndIsAllowed(events: seq<Event>)
    requires events != [] && EndsWritten(events) && EndsAtMost(events, 1)
    ensures Allowed(Run(events[..|events| - 1]), events[|events| - 1])
    ensures EndsWritten(events[..|events| - 1]) && EndsAtMost(events[..|events| - 1], 1)
  {
    var front, last := events[..|events| - 1], events[|events| - 1];
    forall n | 0 <= n < |front| && IsEnd(front[n]) ensures front[n].line.cause in Run(front[..n]).written {
      assert front[..n] == events[..n] && front[n] == events[n];
    }
    forall id ensures EndCount(front, id) <= 1 {
      assert EndCount(events, id) <= 1;
    }
    if IsEnd(last) {
      assert EndCount(events, last.line.cause) <= 1;
      EndedWhenCounted(front, last.line.cause);
    }
  }

  lemma {:induction false} RunKeepsOwnEnds(events: seq<Event>)
    requires EndsWritten(events) && EndsAtMost(events, 1)
    ensures OwnEnds(Run(events))
  {
    if events != [] {
      var front := events[..|events| - 1];
      LastEndIsAllowed(events);
      hide EndsWritten, EndsAtMost;
      RunKeepsInv(front);
      RunKeepsOwnEnds(front);
      StepKeepsOwnEnds(Run(front), events[|events| - 1]);
    }
  }

  // ----- what every run keeps -----

  /** Prompts are written in order, one at a time: a prompt is written only when every
      earlier one has been resolved, and a pending prompt is the last one written. */
  lemma SingleFlight(events: seq<Event>)
    ensures var c := Run(events);
            && (forall i :: 0 <= i < |c.written| ==> c.written[i] == i + 1)
            && (forall i :: 0 <= i < |c.written| - 1 ==> c.written[i] in c.settled && c.settled[c.written[i]].Resolved?)
            && (c.pending.Some? ==> c.written != [] && c.pending.value.id == c.written[|c.written| - 1]
                                    && c.pending.value.id !in c.settled)
  {
    RunKeepsInv(events);
  }

  /** No prompt is answered by an `agent_end` that the process wrote for another one. */
  lemma AnswersBelong(events: seq<Event>, id: nat)
    requires EndsWritten(events) && EndsAtMost(events, 1)
    requires id in Run(events).settled && Run(events).settled[id].Resolved?
    ensures Run(events).settled[id].cause == id
  {
    RunKeepsOwnEnds(events);
  }

  lemma RunSnoc(events: seq<Event>, e: Event)
    ensures Run(events + [e]) == Step(Run(events), e)
  {
    assert (events + [e])[..|events|] == events;
  }

  // ----- what settles a prompt, and what it settles as -----

  /** The event ends the prompt `id` while that is the pending one. */
  predicate Ends(e: Event, id: nat) {
    match e
    case StdoutLine(Response(to, success, _)) => to == id && !success
    case StdoutLine(AgentEnd(_, _)) => true
    case TimerFires(of) => of == id
    case WriteFails(of, _) => of == id
    case ProcessError(_) => true
    case ProcessClosed => true
    case _ => false
  }

  /** What is left of a pending prompt after an event that ends it, or that does not. */
  ghost predicate PendingFate(c: Client, e: Event, p: PendingPrompt, d: Client) {
    if Ends(e, p.id) then
      && d.pending.None? && p.id in d.settled && d.settled == c.settled[p.id := d.settled[p.id]]
      && (match e
          case StdoutLine(AgentEnd(Text(text), cause)) => d.settled[p.id] == Resolved(text, cause)
          case StdoutLine(AgentEnd(Error(reason), _)) => d.settled[p.id] == Rejected(reason)
          case StdoutLine(Response(_, _, error)) => d.settled[p.id] == Rejected(if error == "" then "pi prompt failed" else error)
          case WriteFails(_, reason) => d.settled[p.id] == Rejected(reason)
          case ProcessError(reason) => d.settled[p.id] == Rejected(reason)
          case _ => d.settled[p.id].Rejected?)
    else
      && d.settled == c.settled
      && d.pending == Some(PendingPrompt(p.id, p.responseReceived || (e.StdoutLine? && e.line.Response? && e.line.id == p.id)))
  }

  /** In every reachable state the pending prompt is settled by exactly the events that must
      settle it, as they say, and is cleared in the same step. */
  lemma PendingIsSettled(before: seq<Event>, e: Event)
    requires Run(before).pending.Some?
    ensures PendingFate(Run(before), e, Run(before).pending.value, Run(before + [e]))
  {
    RunKeepsInv(before);
    RunSnoc(before, e);
    hide Step, Run, Inv, PendingFate;
    PendingStep(Run(before), e);
  }

  lemma WrittenMembers(c: Client)
    requires Inv(c)
    ensures forall id :: id in c.written <==> 1 <= id <= c.requestCount
    ensures c.pending.None? ==> forall id :: id in c.written ==> id in c.settled
  {
    forall id | 1 <= id <= c.requestCount ensures id in c.written {
      assert c.written[id - 1] == id;
    }
  }

  lemma IdleStep(c: Client, e: Event)
    requires Inv(c) && c.pending.None?
    ensures Step(c, e).settled == c.settled
  {
    WrittenMembers(c);
    hide Inv;
  }

  lemma ChainStep(c: Client)
    requires Inv(c) && c.pending.None? && c.queue != []
    requires forall id :: id in c.settled ==> c.settled[id].Resolved?
    ensures var d := Step(c, ChainContinues);
            && (!c.closed ==>
                  && d.written == c.written + [|c.written| + 1] && d.queue == c.queue[1..]
                  && d.pending == Some(PendingPrompt(|c.written| + 1, false)))
            && (c.closed ==> d.written == c.written && d.pending.None? && d.chain.Broken?)
  {
    assert !c.chain.Busy? && (c.chain.Broken? ==> c.closed) && |c.written| == c.requestCount;
    hide Inv;
  }

  lemma PendingStep(c: Client, e: Event)
    requires Inv(c) && c.pending.Some?
    ensures PendingFate(c, e, c.pending.value, Step(c, e))
  {
    WrittenMembers(c);
    if e.WriteFails? && e.id in c.written && e.id != c.pending.value.id {
      assert 1 <= e.id < c.requestCount;
    }
  }

  /** With nothing pending, nothing is settled. */
  lemma IdleSettlesNothing(before: seq<Event>, e: Event)
    requires Run(before).pending.None?
    ensures Run(before + [e]).settled == Run(before).settled
  {
    RunKeepsInv(before);
    RunSnoc(before, e);
    hide Step, Run, Inv;
    IdleStep(Run(before), e);
  }

  /** The client closes when asked to, when the process closes, and when its pending prompt times
      out; nothing opens it again. */
  lemma ClosesWhen(before: seq<Event>, e: Event)
    ensures Run(before + [e]).closed <==>
              || Run(before).closed || e.CloseCalled? || e.ProcessClosed?
              || (e.TimerFires? && Run(before).pending.Some? && Run(before).pending.value.id == e.id)
  {
    RunSnoc(before, e);
  }

  /** Calls queue up in order, and only the chain takes them from the queue. */
  lemma CallsQueueUp(before: seq<Event>, e: Event)
    ensures e.PromptCalled? ==> Run(before + [e]).queue == Run(before).queue + [e.message]
    ensures !e.PromptCalled? && !e.ChainContinues? ==> Run(before + [e]).queue == Run(before).queue
    ensures !e.ChainContinues? ==> Run(before + [e]).written == Run(before).written
  {
    RunSnoc(before, e);
  }

  /** With nothing pending and no failure so far, the chain sends the next call, unless the client
      is closed: then it drops that call and sends nothing more. */
  lemma ChainSendsNext(before: seq<Event>)
    requires Run(before).pending.None? && Run(before).queue != []
    requires forall id :: id in Run(before).settled ==> Run(before).settled[id].Resolved?
    ensures var c, d := Run(before), Run(before + [ChainContinues]);
            && (!c.closed ==>
                  && d.written == c.written + [|c.written| + 1] && d.queue == c.queue[1..]
                  && d.pending == Some(PendingPrompt(|c.written| + 1, false)))
            && (c.closed ==> d.written == c.written && d.pending.None? && HasFailed(d))
  {
    RunKeepsInv(before);
    RunSnoc(before, ChainContinues);
    hide Step, Run, Inv;
    ChainStep(Run(before));
  }

  ghost predicate HasFailed(c: Client) {
    c.chain.Broken? || exists id :: id in c.settled && c.settled[id].Rejected?
  }

  lemma FailureIsFinalStep(c: Client, e: Event)
    requires Inv(c) && HasFailed(c)
    ensures HasFailed(Step(c, e)) && Step(c, e).written == c.written
    ensures c.chain.Broken?
  {
  }

  /** After the first failed prompt nothing more is written, whatever follows. */
  lemma {:induction false} NothingWrittenAfterFailure(before: seq<Event>, after: seq<Event>)
    requires HasFailed(Run(before))
    ensures HasFailed(Run(before + after)) && Run(before + after).written == Run(before).written
    decreases |after|
  {
    if after == [] {
      assert before + after == before;
    } else {
      var front := after[..|after| - 1];
      assert (before + after)[..|before + after| - 1] == before + front;
      NothingWrittenAfterFailure(before, front);
      RunKeepsInv(before + front);
      FailureIsFinalStep(Run(before + front), after[|after| - 1]);
    }
  }

  lemma SettledStep(c: Client, e: Event, id: nat)
    requires id in c.settled
    ensures id in Step(c, e).settled && Step(c, e).settled[id] == c.settled[id]
  {
  }

  /** A prompt settles once: its outcome never changes again. */
  lemma {:induction false} SettledForGood(before: seq<Event>, after: seq<Event>, id: nat)
    requires id in Run(before).settled
    ensures id in Run(before + after).settled && Run(before + after).settled[id] == Run(before).settled[id]
    decreases |after|
  {
    if after == [] {
      assert before + after == before;
    } else {
      var front := after[..|after| - 1];
      assert (before + after)[..|before + after| - 1] == before + front;
      SettledForGood(before, front, id);
      SettledStep(Run(before + front), after[|after| - 1], id);
    }
  }

  /** Whenever a prompt settles, it is no longer the pending one in that same step. */
  lemma ClearedWhenSettled(events: seq<Event>, id: nat)
    requires id in Run(events).settled
    ensures Run(events).pending.Some? ==> Run(events).pending.value.id != id
  {
    RunKeepsInv(events);
  }

  // ----- the limit on `agent_end` lines, exactly -----

  ghost predicate OwnAnswers(events: seq<Event>) {
    forall id :: id in Run(events).settled && Run(events).settled[id].Resolved? ==> Run(events).settled[id].cause == id
  }

  lemma CountsOfTwoEnds(e: seq<Event>)
    requires |e| == 6 && !IsEnd(e[0]) && !IsEnd(e[1]) && !IsEnd(e[2]) && !IsEnd(e[4])
    requires IsEnd(e[3]) ==> e[3].line.cause in Run(e[..3]).written
    requires IsEnd(e[5]) ==> e[5].line.cause in Run(e[..5]).written
    ensures EndsWritten(e) && EndsAtMost(e, 2)
  {
    hide Run;
    forall id ensures EndCount(e, id) <= 2 {
      assert e[..5][..4] == e[..4] && e[..4][..3] == e[..3] && e[..3][..2] == e[..2] && e[..2][..1] == e[..1] && e[..1][..0] == [];
      assert EndCount(e[..1], id) == 0;
      assert EndCount(e[..3], id) == EndCount(e[..2], id) == 0;
      assert EndCount(e[..5], id) == EndCount(e[..4], id) <= 1;
    }
  }

  /** Two prompts are called, and the first one is written and ends. */
  function FirstPromptEnded(): seq<Event> {
    [PromptCalled("p"), PromptCalled("q"), ChainContinues, StdoutLine(AgentEnd(Text("a"), 1))]
  }

  lemma FirstPromptEnds()
    ensures var e := FirstPromptEnded();
            && |e| == 4 && !IsEnd(e[0]) && !IsEnd(e[1]) && !IsEnd(e[2]) && e[3] == StdoutLine(AgentEnd(Text("a"), 1))
            && Run(e[..3]).written == [1]
            && Run(e) == Client(false, None, 1, Free, ["q"], [1], map[1 := Resolved("a", 1)], {1})
  {
    var e := FirstPromptEnded();
    assert e[..1][..0] == [] && e[..2][..1] == e[..1] && e[..3][..2] == e[..2];
    assert Run(e[..1]) == FRESH.(queue := ["p"]) by { assert FRESH.queue + ["p"] == ["p"] && Run(e[..1][..0]) == FRESH; }
    assert Run(e[..2]) == FRESH.(queue := ["p", "q"]) by { assert ["p"] + ["q"] == ["p", "q"]; }
    assert Run(e[..3]) == Client(false, Some(PendingPrompt(1, false)), 1, Busy(1), ["q"], [1], map[], {});
  }

  /** A second `agent_end` for the first prompt answers the second prompt. */
  lemma DuplicateEndMisanswers() returns (events: seq<Event>, id: nat)
    ensures EndsWritten(events) && EndsAtMost(events, 2)
    ensures id in Run(events).settled && Run(events).settled[id].Resolved? && Run(events).settled[id].cause != id
  {
    FirstPromptEnds();
    var e4 := FirstPromptEnded();
    var e5 := e4 + [ChainContinues];
    var e6 := e5 + [e4[3]];
    assert e5[..4] == e4 && e6[..5] == e5 && e6[..3] == e4[..3];
    hide FirstPromptEnded;
    assert Run(e5).pending == Some(PendingPrompt(2, false)) && Run(e5).written == [1, 2];
    assert 2 in Run(e6).settled && Run(e6).settled[2] == Resolved("a", 1);
    events, id := e6, 2;
    CountsOfTwoEnds(e6);
  }

  /** As long as the process ends only prompts it got, answers always belong to their prompts
      if and only if it may end each of them at most once. */
  lemma AnswersBelongIff(k: nat)
    ensures (forall events :: EndsWritten(events) && EndsAtMost(events, k) ==> OwnAnswers(events)) <==> k <= 1
  {
    if k <= 1 {
      forall events | EndsWritten(events) && EndsAtMost(events, k) ensures OwnAnswers(events) {
        assert EndsAtMost(events, 1);
        RunKeepsOwnEnds(events);
      }
    } else {
      var events, id := DuplicateEndMisanswers();
      assert EndsAtMost(events, k) && !OwnAnswers(events);
    }
  }

  // ----- the client as an object -----

  /** `events` is what has happened to the client so far. */
  class PiRpcClient {
    var closed: bool
    var pending: Option<PendingPrompt>
    var requestCount: nat
    var sequence: Chain
    var queue: seq<string>
    var written: seq<nat>
    var settled: map<nat, Settlement>
    ghost var ended: set<nat>
    ghost var events: seq<Event>

    constructor ()
      ensures Valid() && events == []
    {
      closed, pending, requestCount, sequence := false, None, 0, Free;
      queue, written, settled, ended := [], [], map[], {};
      events := [];
    }

    ghost function Now(): Client
      reads this
    {
      Client(closed, pending, requestCount, sequence, queue, written, settled, ended)
    }

    /** The client is in the state that its history leads to. */
    ghost predicate Valid()
      reads this
    {
      Now() == Run(events)
    }

    ghost method Record(e: Event)
      modifies `events
      ensures events == old(events) + [e] && Run(events) == Step(Run(old(events)), e)
    {
      RunSnoc(events, e);
      events := events + [e];
    }

    /** `resolve` and `reject` of the prompt's promise. */
    method SettlePrompt(id: nat, s: Settlement)
      modifies `settled, `sequence
      ensures Now() == Settle(old(Now()), id, s)
    {
      if id in settled {
        return;
      }
      settled := settled[id := s];
      if sequence == Busy(id) {
        sequence := if s.Resolved? then Free else Broken;
      }
    }

    method RejectPendingPrompt(reason: string)
      modifies `pending, `settled, `sequence
      ensures Now() == RejectPending(old(Now()), reason)
    {
      var p := pending;
      pending := None;
      if p.Some? {
        SettlePrompt(p.value.id, Rejected(reason));
      }
    }

    method HandleStdoutLine(line: Line)
      requires Valid()
      modifies this
      ensures Valid() && events == old(events) + [StdoutLine(line)]
      ensures Now() == Step(old(Now()), StdoutLine(line))
    {
      Record(StdoutLine(line));
      if line.AgentEnd? {
        ended := ended + {line.cause};
      }
      var p := pending;
      if p.None? {
        return;
      }
      match line {
        case Response(id, success, error) =>
          if id != p.value.id {
            return;
          }
          if !success {
            pending := None;
            SettlePrompt(p.value.id, Rejected(if error != "" then error else "pi prompt failed"));
            return;
          }
          pending := Some(p.value.(responseReceived := true));
        case AgentEnd(extraction, cause) =>
          pending := None;
          if extraction.Text? {
            SettlePrompt(p.value.id, Resolved(extraction.text, cause));
          } else {
            SettlePrompt(p.value.id, Rejected(extraction.reason));
          }
        case Noise =>
      }
    }

    method Prompt(message: string)
      requires Valid()
      modifies this
      ensures Valid() && events == old(events) + [PromptCalled(message)]
      ensures Now() == Step(old(Now()), PromptCalled(message))
    {
      Record(PromptCalled(message));
      queue := queue + [message];
    }

    /** The body that `sequence.then` runs once the chain is free. */
    method BeginNext()
      requires Valid()
      modifies this
      ensures Valid() && events == old(events) + [ChainContinues]
      ensures Now() == Step(old(Now()), ChainContinues)
    {
      Record(ChainContinues);
      if sequence.Free? && queue != [] {
        BeginPrompt();
      }
    }

    /** The next prompt is written, or the chain breaks on a closed client. */
    method BeginPrompt()
      requires sequence.Free? && queue != []
      modifies `queue, `sequence, `requestCount, `pending, `written
      ensures Now() == Step(old(Now()), ChainContinues)
    {
      queue := queue[1..];
      if closed {
        sequence := Broken;
        return;
      }
      requestCount := requestCount + 1;
      pending := Some(PendingPrompt(requestCount, false));
      sequence := Busy(requestCount);
      written := written + [requestCount];
    }

    method OnTimer(id: nat)
      requires Valid()
      modifies this
      ensures Valid() && events == old(events) + [TimerFires(id)]
      ensures Now() == Step(old(Now()), TimerFires(id))
    {
      Record(TimerFires(id));
      if pending.Some? && pending.value.id == id {
        pending := None;
        Shut();
        SettlePrompt(id, Rejected("translation prompt timed out"));
      }
    }

    method OnWriteError(id: nat, reason: string)
      requires Valid()
      modifies this
      ensures Valid() && events == old(events) + [WriteFails(id, reason)]
      ensures Now() == Step(old(Now()), WriteFails(id, reason))
    {
      Record(WriteFails(id, reason));
      if id !in written {
        return;
      }
      if pending.Some? && pending.value.id == id {
        pending := None;
      }
      SettlePrompt(id, Rejected(reason));
    }

    method OnProcessError(reason: string)
      requires Valid()
      modifies this
      ensures Valid() && events == old(events) + [ProcessError(reason)]
      ensures Now() == Step(old(Now()), ProcessError(reason))
    {
      Record(ProcessError(reason));
      RejectPendingPrompt(reason);
    }

    method OnProcessClose()
      requires Valid()
      modifies this
      ensures Valid() && events == old(events) + [ProcessClosed]
      ensures Now() == Step(old(Now()), ProcessClosed)
    {
      Record(ProcessClosed);
      closed := true;
      RejectPendingPrompt("pi process closed");
    }

    /** The body of `close`. */
    method Shut()
      modifies `closed
      ensures closed
    {
      if closed {
        return;
      }
      closed := true;
    }

    method Close()
      requires Valid()
      modifies this
      ensures Valid() && events == old(events) + [CloseCalled]
      ensures Now() == Step(old(Now()), CloseCalled)
    {
      Record(CloseCalled);
      Shut();
    }
  }
}
