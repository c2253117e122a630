/** What every step of the shared memory communication keeps, and what follows for whole runs. */
module SharedMemorySafety {
  import opened Bytes
  import opened Sequences
  import opened Wrappers
  import opened SharedMemory

  // ----- what the areas and the copies mean -----

  /** The request area holds the bytes `x..y` of the message, in the form the client chose. */
  ghost predicate PartInArea(cfg: Config, s: State, m: seq<byte>, x: nat, y: nat)
  {
    && Usable(cfg) && x < y <= |m| && y == PartEnd(cfg, m, x) && |s.req| == cfg.requestPart
    && if |m| <= cfg.requestPart then x == 0 && s.reqFlag == NormalMsg && s.req[..y] == m
       else if cfg.improved then
         && s.reqFlag == PartWithLen
         && if x == 0 then s.req[..4] == EncodeU32(|m|) && s.req[4..] == m[..y] else s.req[..y - x] == m[x..y]
       else
         && s.reqFlag == (if y < |m| then NonfinalPartNoLen else NormalMsg)
         && s.req[..y - x] == m[x..y]
  }

  /** The server has collected the first `x` bytes of the message. */
  ghost predicate HasRequest(cfg: Config, v: Server, m: seq<byte>, x: nat)
  {
    && x <= |m|
    && if x == 0 then v.copy == None
       else |m| > cfg.requestPart && v.copy == Some(m[..x]) && (cfg.improved ==> v.rest == |m| - x)
  }

  /** The answer area holds the bytes `x..y` of the answer. */
  ghost predicate AnswerInArea(cfg: Config, s: State, a: Answer, x: nat, y: nat)
  {
    && Usable(cfg) && (x == 0 || x < y) && y <= |a.data| && s.ansCode == a.code && |s.ans| == cfg.answerPart
    && if s.ansFlag == PartWithLen then
         && |a.data| > cfg.answerPart && x < y
         && if x == 0 then
              && y == cfg.answerPart - LENGTH_SIZE
              && s.ans[..4] == EncodeU32(ANSWER_PREFIX_SIZE + |a.data|) && s.ans[4..] == a.data[..y]
            else y == x + Min(|a.data| - x, cfg.answerPart) && s.ans[..y - x] == a.data[x..y]
       else
         && y == x + Min(|a.data| - x, cfg.answerPart)
         && s.ansFlag == (if |a.data| - x > cfg.answerPart then NonfinalPartNoLen else NormalMsg)
         && s.ans[..y - x] == a.data[x..y]
  }

  /** The client has collected the first `x` bytes of the answer. */
  ghost predicate HasAnswer(s: State, a: Answer, x: nat)
  {
    && x <= |a.data| && s.ansCode == a.code
    && s.client.collected ==
       if x == 0 then Nothing
       else if s.ansFlag == PartWithLen then Multipart(a.data[..x], |a.data| - x)
       else Partial(a.data[..x])
  }

  // ----- the stages of a request -----

  ghost predicate NoEvent(s: State)
  {
    !s.dataEvent && !s.doneEvent
  }

  /** The right to use the areas is with the client, in the data event, with the server, or in the done event. */
  ghost predicate Passing(s: State, clientHas: ClientPc, waiting: ServerPc, serverHas: ServerPc)
  {
    || (s.client.pc == clientHas && s.server.pc == waiting && NoEvent(s))
    || (s.client.pc == CWait && s.server.pc == waiting && s.dataEvent && !s.doneEvent)
    || (s.client.pc == CWait && s.server.pc == serverHas && NoEvent(s))
  }

  ghost predicate Returning(s: State, serverHas: ServerPc, waiting: ServerPc, clientHas: ClientPc)
  {
    || (s.client.pc == CWait && s.server.pc == serverHas && NoEvent(s))
    || (s.client.pc == CWait && s.server.pc == waiting && !s.dataEvent && s.doneEvent)
    || (s.client.pc == clientHas && s.server.pc == waiting && NoEvent(s))
  }

  ghost predicate Idle(s: State)
  {
    && s.client.pc == CIdle && s.server.pc == SWaitReq && NoEvent(s)
    && s.client.collected == Nothing && s.server.copy == None
    && |s.begun| == |s.received|
  }

  ghost predicate InRequest(s: State)
  {
    && |s.begun| == |s.received| + 1 && s.begun[|s.received|] == s.client.message && s.client.message != []
    && |s.client.message| < UNS32_LIMIT
    && s.client.collected == Nothing && |s.processed| == |s.received|
  }

  /** Some of the message, perhaps nothing yet, has arrived at the server. */
  ghost predicate Sending(cfg: Config, s: State)
  {
    && InRequest(s)
    && ((s.client.pc == CPut && s.server.pc == SWaitReq && NoEvent(s)) || Returning(s, SSetReq, SWaitReq, CGot))
    && s.client.sent < |s.client.message| && HasRequest(cfg, s.server, s.client.message, s.client.sent)
  }

  /** A part of the message is in the area. */
  ghost predicate InFlight(cfg: Config, s: State)
  {
    && InRequest(s) && Passing(s, CSet, SWaitReq, SGotReq)
    && PartInArea(cfg, s, s.client.message, s.client.acked, s.client.sent)
    && HasRequest(cfg, s.server, s.client.message, s.client.acked)
  }

  ghost predicate Processing(cfg: Config, s: State)
  {
    && InRequest(s) && s.client.pc == CWait && s.server.pc == SProcess && NoEvent(s)
    && s.client.sent == |s.client.message| && Delivered(cfg, s.client.message, s.server.request)
  }

  ghost predicate Answered(s: State)
  {
    && |s.received| < |s.answers| == |s.processed|
    && |s.begun| == |s.received| + 1 && s.begun[|s.received|] == s.client.message
    && s.client.sent == |s.client.message|
    && |s.processed| == |s.begun| && s.server.answer == s.answers[|s.received|] && s.server.copy == None
    && ANSWER_PREFIX_SIZE + |s.server.answer.data| < UNS32_LIMIT
  }

  /** A part of the answer is in the area. */
  ghost predicate Answering(cfg: Config, s: State)
  {
    && Answered(s)
    && Returning(s, SSetAns, if s.server.ansSent < |s.server.answer.data| then SWaitAns else SWaitReq, CGot)
    && AnswerInArea(cfg, s, s.server.answer, s.server.ansPrev, s.server.ansSent)
    && HasAnswer(s, s.server.answer, s.server.ansPrev)
  }

  /** The client has copied a part of the answer and wants the next one. */
  ghost predicate Asking(cfg: Config, s: State)
  {
    && Answered(s)
    && Passing(s, CSet, SWaitAns, SGotAns)
    && 0 < s.server.ansSent < |s.server.answer.data| && s.ansFlag != NormalMsg
    && (s.ansFlag == PartWithLen ==> |s.server.answer.data| > cfg.answerPart)
    && HasAnswer(s, s.server.answer, s.server.ansSent)
  }

  // ----- the whole history -----

  /** The server got the message; one that is sent without its length may be followed by what is left of the last area. */
  ghost predicate Delivered(cfg: Config, m: seq<byte>, got: seq<byte>)
  {
    m <= got && |got| < |m| + cfg.requestPart && (cfg.improved && |m| > cfg.requestPart ==> got == m)
  }

  /** The same for an answer; an empty one is followed by one area. */
  ghost predicate AnswerDelivered(cfg: Config, a: Answer, got: Answer)
  {
    && a.code == got.code && a.data <= got.data
    && |got.data| < (if a.data == [] then 1 else |a.data|) + cfg.answerPart
  }

  ghost predicate History(cfg: Config, s: State)
  {
    && |s.received| <= |s.answers| == |s.processed| <= |s.begun| <= |s.received| + 1
    && (forall i :: 0 <= i < |s.processed| ==> Delivered(cfg, s.begun[i], s.processed[i]))
    && (forall i :: 0 <= i < |s.received| ==> AnswerDelivered(cfg, s.answers[i], s.received[i]))
  }

  ghost predicate InStage(cfg: Config, s: State)
  {
    Idle(s) || Sending(cfg, s) || InFlight(cfg, s) || Processing(cfg, s) || Answering(cfg, s) || Asking(cfg, s)
  }

  /** The invariant. A server that has seen its client die is out of the game. */
  ghost predicate Inv(cfg: Config, s: State)
  {
    && AreasFit(cfg, s) && History(cfg, s)
    && ((s.server.pc == SEnded && !s.client.alive) || InStage(cfg, s))
  }

  lemma InitialInv(cfg: Config, s: State)
    requires Initial(cfg, s)
    ensures Inv(cfg, s)
  {
  }

  // ----- the steps -----

  lemma BeginKeeps(cfg: Config, s: State, m: seq<byte>)
    requires Inv(cfg, s) && Enabled(s, Begin(m))
    ensures Inv(cfg, Next(cfg, s, Begin(m)))
  {
    assert Idle(s);
    assert Sending(cfg, Next(cfg, s, Begin(m)));
  }

  lemma HistoryDepends(cfg: Config, s: State, t: State)
    requires History(cfg, s)
    requires t.begun == s.begun && t.processed == s.processed && t.answers == s.answers && t.received == s.received
    ensures History(cfg, t)
  {
  }

  lemma StageOfPut(cfg: Config, s: State)
    requires Inv(cfg, s) && Enabled(s, Put)
    ensures Sending(cfg, s)
  {
  }

  lemma PutKeeps(cfg: Config, s: State)
    requires Inv(cfg, s) && Enabled(s, Put)
    ensures var s' := Next(cfg, s, Put);
      && Inv(cfg, s') && s'.client.acked == s.client.sent < s'.client.sent
      && PartInArea(cfg, s', s.client.message, s.client.sent, s'.client.sent)
  {
    hide Idle, Processing, Answering, Asking, History, PutAnswer, ReadRequestPart, ReadAnswerPart, PutNextAnswerPart;
    StageOfPut(cfg, s);
    var s' := Next(cfg, s, Put);
    assert PartInArea(cfg, s', s.client.message, s.client.sent, s'.client.sent);
    assert InFlight(cfg, s');
    HistoryDepends(cfg, s, s');
  }

  /** Setting an event or taking it. */
  lemma EventKeeps(cfg: Config, s: State, step: Step)
    requires Inv(cfg, s) && Enabled(s, step)
    requires step.ClientSet? || step.ClientWake? || step.ServerWake? || step.ServerSet?
    ensures Inv(cfg, Next(cfg, s, step))
  {
    var s' := Next(cfg, s, step);
    if Sending(cfg, s) { assert Sending(cfg, s'); }
    else if InFlight(cfg, s) { assert InFlight(cfg, s'); }
    else if Answering(cfg, s) { assert Answering(cfg, s'); }
    else { assert Asking(cfg, s'); }
  }

  lemma ContinueKeeps(cfg: Config, s: State)
    requires Inv(cfg, s) && Enabled(s, Continue)
    ensures Inv(cfg, Next(cfg, s, Continue))
  {
    assert Sending(cfg, s);
    assert Sending(cfg, Next(cfg, s, Continue));
  }

  /** Processes dying and waits that end because of it change neither the areas nor what was exchanged. */
  lemma DeathKeeps(cfg: Config, s: State, step: Step)
    requires Inv(cfg, s) && Enabled(s, step)
    requires step.ClientDies? || step.ServerDies? || step.ClientFails? || step.ServerEnds?
    ensures Inv(cfg, Next(cfg, s, step))
  {
    if !step.ServerEnds? {
      if Answering(cfg, s) || Asking(cfg, s) { DeathDuringAnswer(cfg, s, step); } else { DeathDuringRequest(cfg, s, step); }
    }
  }

  lemma DeathDuringRequest(cfg: Config, s: State, step: Step)
    requires AreasFit(cfg, s) && Enabled(s, step) && (step.ClientDies? || step.ServerDies? || step.ClientFails?)
    requires Idle(s) || Sending(cfg, s) || InFlight(cfg, s) || Processing(cfg, s)
        || (s.server.pc == SEnded && !s.client.alive)
    ensures var s' := Next(cfg, s, step); InStage(cfg, s') || (s'.server.pc == SEnded && !s'.client.alive)
  {
    var s' := Next(cfg, s, step);
    if Idle(s) { assert Idle(s'); }
    else if Sending(cfg, s) { assert Sending(cfg, s'); }
    else if InFlight(cfg, s) { assert InFlight(cfg, s'); }
    else if Processing(cfg, s) { assert Processing(cfg, s'); }
  }

  lemma DeathDuringAnswer(cfg: Config, s: State, step: Step)
    requires AreasFit(cfg, s) && Enabled(s, step) && (step.ClientDies? || step.ServerDies? || step.ClientFails?)
    requires Answering(cfg, s) || Asking(cfg, s)
    ensures InStage(cfg, Next(cfg, s, step))
  {
    var s' := Next(cfg, s, step);
    if Answering(cfg, s) { assert Answering(cfg, s'); } else { assert Asking(cfg, s'); }
  }

  lemma Joined(m: seq<byte>, x: nat, y: nat)
    requires x <= y <= |m|
    ensures m[..x] + m[x..y] == m[..y]
    ensures y == |m| ==> m[..y] == m
  {
  }

  lemma JoinedArea(m: seq<byte>, x: nat, y: nat, area: seq<byte>)
    requires x <= y == |m| && y - x <= |area| && area[..y - x] == m[x..y]
    ensures m <= m[..x] + area
  {
    Joined(m, x, y);
    var all := m[..x] + area;
    assert all[..y] == m[..x] + area[..y - x];
  }

  /** The newer form: the first part brings the length, the last one makes the copy complete. */
  lemma ReadMultipartRequest(cfg: Config, s: State)
    requires Inv(cfg, s) && Enabled(s, ReadRequest) && InFlight(cfg, s)
    requires cfg.improved && |s.client.message| > cfg.requestPart
    ensures Inv(cfg, Next(cfg, s, ReadRequest))
  {
    var s' := Next(cfg, s, ReadRequest);
    var m, x, y := s.client.message, s.client.acked, s.client.sent;
    if x == 0 {
      LengthWordRoundTrip(|m|);
      Minus32Exact(|m|, cfg.requestPart - LENGTH_SIZE);
      assert Sending(cfg, s');
    } else {
      Joined(m, x, y);
      if y < |m| { assert Sending(cfg, s'); } else { assert Processing(cfg, s'); }
    }
  }

  /** The older form: whole areas are appended until the flag says that a part is the last one. */
  lemma ReadPartialRequest(cfg: Config, s: State)
    requires Inv(cfg, s) && Enabled(s, ReadRequest) && InFlight(cfg, s)
    requires !cfg.improved && |s.client.message| > cfg.requestPart
    ensures Inv(cfg, Next(cfg, s, ReadRequest))
  {
    var s' := Next(cfg, s, ReadRequest);
    var m, x, y := s.client.message, s.client.acked, s.client.sent;
    Joined(m, x, y);
    if y < |m| {
      assert s.req == m[x..y];
      assert Sending(cfg, s');
    } else {
      JoinedArea(m, x, y, s.req);
      assert Processing(cfg, s');
    }
  }

  lemma ReadRequestKeeps(cfg: Config, s: State)
    requires Inv(cfg, s) && Enabled(s, ReadRequest)
    ensures Inv(cfg, Next(cfg, s, ReadRequest))
  {
    assert InFlight(cfg, s);
    if |s.client.message| <= cfg.requestPart {
      assert Processing(cfg, Next(cfg, s, ReadRequest));
    } else if cfg.improved {
      ReadMultipartRequest(cfg, s);
    } else {
      ReadPartialRequest(cfg, s);
    }
  }

  lemma ProcessKeeps(cfg: Config, s: State, a: Answer)
    requires Inv(cfg, s) && Enabled(s, Process(a))
    ensures var t := Next(cfg, s, Process(a));
      && Inv(cfg, t) && t.answers == s.answers + [a] && t.server.answer == a && t.processed == s.processed + [s.server.request]
      && Delivered(cfg, s.client.message, s.server.request) && AnswerInArea(cfg, t, a, 0, t.server.ansSent)
  {
    assert Processing(cfg, s);
    hide Sending, InFlight, Idle, Asking, PutPart, ReadRequestPart, ReadAnswerPart;
    var s' := Next(cfg, s, Process(a));
    assert AnswerInArea(cfg, s', a, 0, s'.server.ansSent);
    assert Answering(cfg, s');
  }

  lemma NextPartKeeps(cfg: Config, s: State)
    requires Inv(cfg, s) && Enabled(s, NextPart)
    ensures var s' := Next(cfg, s, NextPart);
      && Inv(cfg, s') && s'.server.ansPrev == s.server.ansSent < s'.server.ansSent
      && AnswerInArea(cfg, s', s.server.answer, s.server.ansSent, s'.server.ansSent)
  {
    assert Asking(cfg, s);
    var s' := Next(cfg, s, NextPart);
    assert AnswerInArea(cfg, s', s.server.answer, s.server.ansSent, s'.server.ansSent);
    assert Answering(cfg, s');
  }

  lemma Minus32Exact(a: nat, b: nat)
    requires b <= a < UNS32_LIMIT
    ensures Minus32(a, b) == a - b
  {
    assert a + UNS32_LIMIT - b == UNS32_LIMIT + (a - b);
  }

  lemma ReadFirstAnswerPart(cfg: Config, s: State)
    requires Inv(cfg, s) && Enabled(s, ReadAnswer) && Answering(cfg, s) && s.ansFlag == PartWithLen
    requires s.server.ansPrev == 0
    ensures Inv(cfg, Next(cfg, s, ReadAnswer))
  {
    var total := ANSWER_PREFIX_SIZE + |s.server.answer.data|;
    LengthWordRoundTrip(total);
    Minus32Exact(total, ANSWER_PREFIX_SIZE + cfg.answerPart - LENGTH_SIZE);
    assert Asking(cfg, Next(cfg, s, ReadAnswer));
  }

  lemma ReadLaterAnswerPart(cfg: Config, s: State)
    requires Inv(cfg, s) && Enabled(s, ReadAnswer) && Answering(cfg, s) && s.ansFlag == PartWithLen
    requires s.server.ansPrev > 0
    ensures Inv(cfg, Next(cfg, s, ReadAnswer))
  {
    var s' := Next(cfg, s, ReadAnswer);
    Joined(s.server.answer.data, s.server.ansPrev, s.server.ansSent);
    if s.server.ansSent < |s.server.answer.data| { assert Asking(cfg, s'); } else { assert Idle(s'); }
  }

  lemma ReadPartialAnswer(cfg: Config, s: State)
    requires Inv(cfg, s) && Enabled(s, ReadAnswer) && Answering(cfg, s) && s.ansFlag != PartWithLen
    ensures Inv(cfg, Next(cfg, s, ReadAnswer))
  {
    if s.server.ansSent < |s.server.answer.data| { ReadMiddleOfAnswer(cfg, s); } else { ReadEndOfAnswer(cfg, s); }
  }

  lemma ReadMiddleOfAnswer(cfg: Config, s: State)
    requires Inv(cfg, s) && Enabled(s, ReadAnswer) && Answering(cfg, s) && s.ansFlag != PartWithLen
    requires s.server.ansSent < |s.server.answer.data|
    ensures Inv(cfg, Next(cfg, s, ReadAnswer))
  {
    var a, x, y := s.server.answer, s.server.ansPrev, s.server.ansSent;
    Joined(a.data, x, y);
    assert s.ans == a.data[x..y];
    assert Asking(cfg, Next(cfg, s, ReadAnswer));
  }

  lemma ReadEndOfAnswer(cfg: Config, s: State)
    requires Inv(cfg, s) && Enabled(s, ReadAnswer) && Answering(cfg, s) && s.ansFlag != PartWithLen
    requires s.server.ansSent == |s.server.answer.data|
    ensures Inv(cfg, Next(cfg, s, ReadAnswer))
  {
    var a, x, y := s.server.answer, s.server.ansPrev, s.server.ansSent;
    JoinedArea(a.data, x, y, s.ans);
    assert a.data[..0] + s.ans == s.ans;
    assert Idle(Next(cfg, s, ReadAnswer));
  }

  lemma ReadAnswerKeeps(cfg: Config, s: State)
    requires Inv(cfg, s) && Enabled(s, ReadAnswer)
    ensures Inv(cfg, Next(cfg, s, ReadAnswer))
  {
    assert Answering(cfg, s);
    if s.ansFlag != PartWithLen { ReadPartialAnswer(cfg, s); }
    else if s.server.ansPrev == 0 { ReadFirstAnswerPart(cfg, s); }
    else { ReadLaterAnswerPart(cfg, s); }
  }

  /** Every step keeps the invariant. */
  lemma StepKeeps(cfg: Config, s: State, step: Step)
    requires Inv(cfg, s) && Enabled(s, step)
    ensures Inv(cfg, Next(cfg, s, step))
  {
    match step
    case Begin(m) => BeginKeeps(cfg, s, m);
    case Put => PutKeeps(cfg, s);
    case Continue => ContinueKeeps(cfg, s);
    case ReadAnswer => ReadAnswerKeeps(cfg, s);
    case ReadRequest => ReadRequestKeeps(cfg, s);
    case Process(a) => ProcessKeeps(cfg, s, a);
    case NextPart => NextPartKeeps(cfg, s);
    case ClientSet | ClientWake | ServerWake | ServerSet => EventKeeps(cfg, s, step);
    case ClientFails | ServerEnds | ClientDies | ServerDies => DeathKeeps(cfg, s, step);
  }

  // ----- whole runs -----

  ghost predicate ValidRun(cfg: Config, s: State, steps: seq<Step>)
    decreases steps
  {
    steps != [] ==> AreasFit(cfg, s) && Enabled(s, steps[0]) && ValidRun(cfg, Next(cfg, s, steps[0]), steps[1..])
  }

  function Run(cfg: Config, s: State, steps: seq<Step>): State
    requires ValidRun(cfg, s, steps)
    decreases steps
  {
    if steps == [] then s else Run(cfg, Next(cfg, s, steps[0]), steps[1..])
  }

  lemma {:induction false} RunKeeps(cfg: Config, s: State, steps: seq<Step>)
    requires Inv(cfg, s) && ValidRun(cfg, s, steps)
    ensures Inv(cfg, Run(cfg, s, steps))
    decreases steps
  {
    if steps != [] {
      StepKeeps(cfg, s, steps[0]);
      RunKeeps(cfg, Next(cfg, s, steps[0]), steps[1..]);
    }
  }

  // ----- the history is that of the steps -----

  /** The messages the client wanted to send, in the order of the steps. */
  function Asked(steps: seq<Step>): seq<seq<byte>>
  {
    if steps == [] then [] else (if steps[0].Begin? then [steps[0].message] else []) + Asked(steps[1..])
  }

  /** The answers that processing a request gave. */
  function Given(steps: seq<Step>): seq<Answer>
  {
    if steps == [] then [] else (if steps[0].Process? then [steps[0].answer] else []) + Given(steps[1..])
  }

  /** The requests that the server had in its hands when it processed them. */
  ghost function Handled(cfg: Config, s: State, steps: seq<Step>): seq<seq<byte>>
    requires ValidRun(cfg, s, steps)
    decreases steps
  {
    if steps == [] then []
    else (if steps[0].Process? then [s.server.request] else []) + Handled(cfg, Next(cfg, s, steps[0]), steps[1..])
  }

  lemma StepHistory(cfg: Config, s: State, step: Step)
    requires AreasFit(cfg, s) && Enabled(s, step)
    ensures var t := Next(cfg, s, step);
      && t.begun == s.begun + (if step.Begin? then [step.message] else [])
      && t.answers == s.answers + (if step.Process? then [step.answer] else [])
      && t.processed == s.processed + (if step.Process? then [s.server.request] else [])
  {
    match step
    case Process(a) => { hide PutPart, ReadRequestPart, ReadAnswerPart, PutNextAnswerPart, Overwrite; }
    case ReadRequest => { hide PutPart, PutAnswer, ReadAnswerPart, PutNextAnswerPart, Minus32; }
    case ReadAnswer => { hide PutPart, PutAnswer, ReadRequestPart, PutNextAnswerPart, Minus32; }
    case _ => { hide PutAnswer, ReadRequestPart, ReadAnswerPart, Overwrite, PartEnd; }
  }

  lemma {:induction false} RunHistory(cfg: Config, s: State, steps: seq<Step>)
    requires ValidRun(cfg, s, steps)
    ensures var t := Run(cfg, s, steps);
      && t.begun == s.begun + Asked(steps) && t.answers == s.answers + Given(steps)
      && t.processed == s.processed + Handled(cfg, s, steps)
    decreases steps
  {
    hide Next, Enabled, AreasFit;
    if steps != [] {
      var step, rest := steps[0], steps[1..];
      var next := Next(cfg, s, step);
      StepHistory(cfg, s, step);
      RunHistory(cfg, next, rest);
      hide Asked, Given, Handled;
      AppendAssociative(s.begun, if step.Begin? then [step.message] else [], Asked(rest));
      AppendAssociative(s.answers, if step.Process? then [step.answer] else [], Given(rest));
      AppendAssociative(s.processed, if step.Process? then [s.server.request] else [], Handled(cfg, next, rest));
      HistoryUnfolds(cfg, s, steps);
    }
  }

  lemma HistoryUnfolds(cfg: Config, s: State, steps: seq<Step>)
    requires ValidRun(cfg, s, steps) && steps != []
    ensures Asked(steps) == (if steps[0].Begin? then [steps[0].message] else []) + Asked(steps[1..])
    ensures Given(steps) == (if steps[0].Process? then [steps[0].answer] else []) + Given(steps[1..])
    ensures Handled(cfg, s, steps) ==
      (if steps[0].Process? then [s.server.request] else []) + Handled(cfg, Next(cfg, s, steps[0]), steps[1..])
  {
  }

  // ----- when answers are exact -----

  /** Among the first `n` messages there is one that is sent in the newer form of several parts: it shows the server that
      the client supports this form. */
  ghost predicate Shown(cfg: Config, asked: seq<seq<byte>>, n: nat)
  {
    cfg.improved && exists j :: 0 <= j < n && j < |asked| && |asked[j]| > cfg.requestPart
  }

  /** The server has the first part of such a message. */
  ghost predicate BeingShown(cfg: Config, s: State)
  {
    && s.client.pc != CIdle && |s.processed| < |s.begun| && cfg.improved && |s.client.message| > cfg.requestPart
    && (s.server.copy != None || s.server.pc == SProcess)
  }

  /** The server knows what has been shown, and uses the newer form for long answers then, and only then. */
  ghost predicate FormKnown(cfg: Config, s: State)
  {
    && (s.server.multipart ==> Shown(cfg, s.begun, |s.begun|))
    && (|s.received| < |s.answers| && s.ansFlag == PartWithLen ==> s.server.multipart && |s.server.answer.data| > cfg.answerPart)
    && (Shown(cfg, s.begun, |s.processed|) ==> s.server.multipart)
    && (BeingShown(cfg, s) ==> s.server.multipart)
    && (|s.received| < |s.answers| && s.server.multipart && |s.server.answer.data| > cfg.answerPart ==> s.ansFlag == PartWithLen)
  }

  /** Every long answer in that form was received without additional bytes. */
  ghost predicate LongAnswersExact(cfg: Config, s: State)
  {
    forall i :: 0 <= i < |s.received| && i < |s.answers| && |s.answers[i].data| > cfg.answerPart && Shown(cfg, s.begun, i + 1) ==>
      s.received[i] == s.answers[i]
  }

  lemma ShownNow(cfg: Config, asked: seq<seq<byte>>, j: nat)
    requires cfg.improved && j < |asked| && |asked[j]| > cfg.requestPart
    ensures Shown(cfg, asked, |asked|)
  {
  }

  lemma ShownLater(cfg: Config, asked: seq<seq<byte>>, m: seq<byte>)
    requires Shown(cfg, asked, |asked|)
    ensures Shown(cfg, asked + [m], |asked| + 1)
  {
    var j :| 0 <= j < |asked| && |asked[j]| > cfg.requestPart;
    assert (asked + [m])[j] == asked[j];
  }

  lemma RequestReadForm(cfg: Config, s: State)
    requires Inv(cfg, s) && Enabled(s, ReadRequest) && FormKnown(cfg, s) && LongAnswersExact(cfg, s)
    ensures var t := Next(cfg, s, ReadRequest); FormKnown(cfg, t) && LongAnswersExact(cfg, t)
  {
    hide Shown, Overwrite, Minus32, AnswerInArea, HasAnswer, Delivered, PutPart, PutAnswer, ReadAnswerPart;
    assert InFlight(cfg, s);
    if s.reqFlag == PartWithLen { ShownNow(cfg, s.begun, |s.received|); }
  }

  lemma ProcessForm(cfg: Config, s: State, a: Answer)
    requires Inv(cfg, s) && Enabled(s, Process(a)) && FormKnown(cfg, s) && LongAnswersExact(cfg, s)
    ensures var t := Next(cfg, s, Process(a)); FormKnown(cfg, t) && LongAnswersExact(cfg, t)
  {
    assert Processing(cfg, s);
    hide Overwrite, Minus32, PartInArea, AnswerInArea, HasAnswer, HasRequest, Delivered, PutPart, ReadRequestPart, ReadAnswerPart;
    assert s.client.message == s.begun[|s.processed|];
  }

  lemma AnswerReadForm(cfg: Config, s: State)
    requires Inv(cfg, s) && Enabled(s, ReadAnswer) && FormKnown(cfg, s) && LongAnswersExact(cfg, s)
    ensures var t := Next(cfg, s, ReadAnswer); FormKnown(cfg, t) && LongAnswersExact(cfg, t)
  {
    assert Answering(cfg, s);
    hide Shown, Overwrite, PartInArea, HasRequest, Delivered, History, PutPart, PutAnswer, ReadRequestPart, InFlight, Sending;
    if s.ansFlag == PartWithLen && s.server.ansPrev > 0 {
      Joined(s.server.answer.data, s.server.ansPrev, s.server.ansSent);
    }
  }

  lemma BeginForm(cfg: Config, s: State, m: seq<byte>)
    requires Inv(cfg, s) && Enabled(s, Begin(m)) && FormKnown(cfg, s) && LongAnswersExact(cfg, s)
    ensures var t := Next(cfg, s, Begin(m)); FormKnown(cfg, t) && LongAnswersExact(cfg, t)
  {
    assert Idle(s);
    hide InStage, Delivered;
    if s.server.multipart { ShownLater(cfg, s.begun, m); }
  }

  lemma OtherStepForm(cfg: Config, s: State, step: Step)
    requires AreasFit(cfg, s) && Enabled(s, step) && FormKnown(cfg, s) && LongAnswersExact(cfg, s)
    requires !step.Begin? && !step.ReadRequest? && !step.Process? && !step.ReadAnswer?
    ensures var t := Next(cfg, s, step); FormKnown(cfg, t) && LongAnswersExact(cfg, t)
  {
    hide Overwrite, Minus32, PutAnswer, ReadRequestPart, ReadAnswerPart;
  }

  /** Every step keeps this. */
  lemma FormKept(cfg: Config, s: State, step: Step)
    requires Inv(cfg, s) && Enabled(s, step) && FormKnown(cfg, s) && LongAnswersExact(cfg, s)
    ensures var t := Next(cfg, s, step); FormKnown(cfg, t) && LongAnswersExact(cfg, t)
  {
    hide InStage, Next, FormKnown, LongAnswersExact;
    match step
    case Begin(m) => BeginForm(cfg, s, m);
    case ReadRequest => RequestReadForm(cfg, s);
    case Process(a) => ProcessForm(cfg, s, a);
    case ReadAnswer => AnswerReadForm(cfg, s);
    case _ => OtherStepForm(cfg, s, step);
  }

  lemma {:induction false} RunForm(cfg: Config, s: State, steps: seq<Step>)
    requires Inv(cfg, s) && FormKnown(cfg, s) && LongAnswersExact(cfg, s) && ValidRun(cfg, s, steps)
    ensures FormKnown(cfg, Run(cfg, s, steps)) && LongAnswersExact(cfg, Run(cfg, s, steps))
    decreases steps
  {
    hide Inv, Next, FormKnown, LongAnswersExact, Enabled, AreasFit;
    if steps != [] {
      StepKeeps(cfg, s, steps[0]);
      FormKept(cfg, s, steps[0]);
      RunForm(cfg, Next(cfg, s, steps[0]), steps[1..]);
    }
  }

  /** In every interleaving, with processes dying or not, the server has in its hands the requests the client made, in order
      and byte by byte, and the client gets the answers that processing them gave, in order and byte by byte. Long answers
      are exact once the client has shown that it supports their form. */
  lemma EverythingDelivered(cfg: Config, s: State, steps: seq<Step>)
    requires Initial(cfg, s) && ValidRun(cfg, s, steps)
    ensures var asked, handled, given, t := Asked(steps), Handled(cfg, s, steps), Given(steps), Run(cfg, s, steps);
      && t.begun == asked && t.processed == handled && t.answers == given
      && |t.received| <= |given| == |handled| <= |asked| <= |t.received| + 1
      && (forall i :: 0 <= i < |handled| ==> Delivered(cfg, asked[i], handled[i]))
      && (forall i :: 0 <= i < |t.received| ==> AnswerDelivered(cfg, given[i], t.received[i]))
      && (forall i :: 0 <= i < |t.received| && |given[i].data| > cfg.answerPart && Shown(cfg, asked, i + 1) ==>
            t.received[i] == given[i])
  {
    hide Run, ValidRun, Asked, Given, Handled, Delivered, AnswerDelivered, InStage;
    InitialInv(cfg, s);
    RunKeeps(cfg, s, steps);
    RunHistory(cfg, s, steps);
    RunForm(cfg, s, steps);
  }

  predicate ClientHolds(s: State)
  {
    s.client.pc != CWait
  }

  predicate ServerHolds(s: State)
  {
    s.server.pc != SWaitReq && s.server.pc != SWaitAns
  }

  /** The token is in exactly one of four places. */
  ghost predicate OneHolder(s: State)
  {
    var places := [ClientHolds(s), s.dataEvent, ServerHolds(s), s.doneEvent];
    exists i :: 0 <= i < 4 && places[i] && forall j :: 0 <= j < 4 && j != i ==> !places[j]
  }

  lemma StageHasOneHolder(cfg: Config, s: State)
    requires InStage(cfg, s)
    ensures OneHolder(s)
  {
    var places := [ClientHolds(s), s.dataEvent, ServerHolds(s), s.doneEvent];
    var i := if ClientHolds(s) then 0 else if s.dataEvent then 1 else if ServerHolds(s) then 2 else 3;
    assert places[i] && forall j :: 0 <= j < 4 && j != i ==> !places[j];
  }

  /** As long as the server has not left because the client died, exactly one of the two processes and the two events
      has the right to use the shared areas. */
  lemma TokenUnique(cfg: Config, s: State, steps: seq<Step>)
    requires Initial(cfg, s) && ValidRun(cfg, s, steps)
    ensures var t := Run(cfg, s, steps); t.server.pc != SEnded ==> OneHolder(t)
  {
    InitialInv(cfg, s);
    RunKeeps(cfg, s, steps);
    if Run(cfg, s, steps).server.pc != SEnded { StageHasOneHolder(cfg, Run(cfg, s, steps)); }
  }

  /** When `SendAndWait` returns true to a living client, the server has completed exactly what was sent: it has taken
      over the part, or it has processed the whole message and the answer is in the area. */
  lemma WakeFollowsCompletion(cfg: Config, s: State)
    requires Inv(cfg, s) && Enabled(s, ClientWake)
    ensures
      if s.client.sent < |s.client.message| then HasRequest(cfg, s.server, s.client.message, s.client.sent)
      else
        && |s.processed| == |s.begun| == |s.answers| > 0
        && s.begun[|s.begun| - 1] == s.client.message
        && Delivered(cfg, s.client.message, s.processed[|s.processed| - 1])
        && AnswerInArea(cfg, s, s.answers[|s.answers| - 1], s.server.ansPrev, s.server.ansSent)
  {
    assert Sending(cfg, s) || Answering(cfg, s);
    if Answering(cfg, s) { assert Delivered(cfg, s.begun[|s.received|], s.processed[|s.received|]); }
  }

  // ----- progress -----

  predicate Ordinary(step: Step)
  {
    !step.ClientDies? && !step.ServerDies? && !step.ClientFails? && !step.ServerEnds?
  }

  /** The step that the processes can take. */
  function Successor(s: State): Step
  {
    match s.client.pc
    case CIdle => Begin([0])
    case CPut => Put
    case CSet => ClientSet
    case CGot => if s.client.sent < |s.client.message| then Continue else ReadAnswer
    case CWait =>
      if s.doneEvent then ClientWake else if s.dataEvent then ServerWake
      else match s.server.pc
        case SGotReq => ReadRequest
        case SProcess => Process(Answer(0, []))
        case SGotAns => NextPart
        case _ => ServerSet
  }

  /** Two living processes never block each other; an idle client may ask anything, any answer may be given, and a process
      may die at any moment. */
  lemma NoDeadlock(cfg: Config, s: State)
    requires Inv(cfg, s) && s.client.alive && s.server.alive && !s.client.failed
    ensures Enabled(s, Successor(s)) && Ordinary(Successor(s)) && s.server.pc != SEnded
    ensures s.client.pc == CIdle ==> forall m :: 0 < |m| < 0x1_0000_0000 ==> Enabled(s, Begin(m))
    ensures s.server.pc == SProcess ==> forall a: Answer :: |a.data| + 3 < 0x1_0000_0000 ==> Enabled(s, Process(a))
    ensures Enabled(s, ClientDies) && Enabled(s, ServerDies)
  {
    assert InStage(cfg, s);
  }

  /** How far a request has got: whether it is sent or answered, the bytes that are left, and the place of the token. */
  datatype Work = Work(stage: nat, bytes: nat, place: nat)

  ghost function Left(s: State): Work
  {
    var c, v := s.client, s.server;
    if c.pc == CIdle then Work(0, 0, 0)
    else if |s.processed| < |s.begun| then
      Work(2, if c.sent <= |c.message| then |c.message| - c.sent else 0,
           if c.pc == CPut then 0 else if c.pc == CGot then 1 else if s.doneEvent then 2
           else if v.pc == SSetReq || v.pc == SProcess then 3 else if v.pc == SGotReq then 4
           else if s.dataEvent then 5 else 6)
    else
      Work(1, if v.ansSent <= |v.answer.data| then |v.answer.data| - v.ansSent else 0,
           if v.pc == SGotAns then 0 else if s.dataEvent then 1 else if c.pc == CSet then 2
           else if c.pc == CGot then 3 else if s.doneEvent then 4 else 5)
  }

  predicate Less(a: Work, b: Work)
  {
    || a.stage < b.stage
    || (a.stage == b.stage && a.bytes < b.bytes)
    || (a.stage == b.stage && a.bytes == b.bytes && a.place < b.place)
  }

  /** Every step between the beginning of a request and the receipt of its answer brings it nearer to its end. */
  lemma Progress(cfg: Config, s: State, step: Step)
    requires Inv(cfg, s) && s.server.pc != SEnded && Enabled(s, step) && Ordinary(step) && !step.Begin?
    ensures Less(Left(Next(cfg, s, step)), Left(s))
  {
    StepKeeps(cfg, s, step);
    if Sending(cfg, s) || InFlight(cfg, s) { RequestProgress(cfg, s, step); }
    else if Processing(cfg, s) { }
    else { AnswerProgress(cfg, s, step); }
  }

  lemma RequestProgress(cfg: Config, s: State, step: Step)
    requires AreasFit(cfg, s) && Enabled(s, step) && Ordinary(step) && !step.Begin?
    requires Sending(cfg, s) || InFlight(cfg, s)
    ensures Less(Left(Next(cfg, s, step)), Left(s))
  {
    hide Overwrite, PutAnswer, PutNextAnswerPart, ReadAnswerPart, AnswerInArea, HasAnswer, Answering, Asking;
  }

  lemma AnswerProgress(cfg: Config, s: State, step: Step)
    requires AreasFit(cfg, s) && Enabled(s, step) && Ordinary(step) && !step.Begin?
    requires Answering(cfg, s) || Asking(cfg, s)
    ensures Less(Left(Next(cfg, s, step)), Left(s))
  {
    hide Overwrite, PutPart, PutAnswer, ReadRequestPart, PartInArea, HasRequest, Sending, InFlight, Delivered, Minus32;
  }

  /** There is no infinite run of ordinary steps in which no new request begins. */
  lemma {:induction false} NoInfiniteRun(cfg: Config, states: nat -> State, steps: nat -> Step, i: nat)
    requires Inv(cfg, states(i)) && states(i).server.pc != SEnded
    requires forall k :: i <= k ==> Enabled(states(k), steps(k)) && Ordinary(steps(k)) && !steps(k).Begin?
    requires forall k :: i <= k ==> AreasFit(cfg, states(k)) && states(k + 1) == Next(cfg, states(k), steps(k))
    ensures false
    decreases Left(states(i)).stage, Left(states(i)).bytes, Left(states(i)).place
  {
    StepKeeps(cfg, states(i), steps(i));
    Progress(cfg, states(i), steps(i));
    OrdinaryStepLasts(cfg, states(i), steps(i));
    NoInfiniteRun(cfg, states, steps, i + 1);
  }

  /** The processes live on, and an answer is received exactly when the client becomes idle. */
  ghost predicate Lasts(s: State, s': State)
  {
    && s'.server.pc != SEnded && s'.server.alive == s.server.alive
    && s'.client.alive == s.client.alive && s'.client.failed == s.client.failed
    && |s'.received| == |s.received| + (if s.client.pc != CIdle && s'.client.pc == CIdle then 1 else 0)
  }

  lemma ReadRequestLasts(cfg: Config, s: State)
    requires AreasFit(cfg, s) && Enabled(s, ReadRequest)
    ensures Lasts(s, ReadRequestPart(cfg, s))
  {
  }

  lemma ReadAnswerLasts(cfg: Config, s: State)
    requires AreasFit(cfg, s) && Enabled(s, ReadAnswer) && s.server.pc != SEnded
    ensures Lasts(s, ReadAnswerPart(cfg, s))
  {
  }

  lemma OrdinaryStepLasts(cfg: Config, s: State, step: Step)
    requires AreasFit(cfg, s) && Enabled(s, step) && Ordinary(step) && !step.Begin? && s.server.pc != SEnded
    ensures Lasts(s, Next(cfg, s, step))
  {
    match step
    case ReadRequest => ReadRequestLasts(cfg, s);
    case ReadAnswer => ReadAnswerLasts(cfg, s);
    case _ =>
  }

  lemma RunStep(cfg: Config, s: State, step: Step, rest: seq<Step>)
    requires AreasFit(cfg, s) && Enabled(s, step) && ValidRun(cfg, Next(cfg, s, step), rest)
    ensures ValidRun(cfg, s, [step] + rest) && Run(cfg, s, [step] + rest) == Run(cfg, Next(cfg, s, step), rest)
  {
    var all := [step] + rest;
    assert all[0] == step && all[1..] == rest;
  }

  /** A request ends: two living processes that take the steps they can take come to the point at which the client has the
      answer to exactly this request. */
  lemma {:induction false} RequestEnds(cfg: Config, s: State) returns (steps: seq<Step>)
    requires Inv(cfg, s) && s.client.alive && s.server.alive && !s.client.failed && s.client.pc != CIdle
    ensures ValidRun(cfg, s, steps) && forall i :: 0 <= i < |steps| ==> Ordinary(steps[i]) && !steps[i].Begin?
    ensures Run(cfg, s, steps).client.pc == CIdle && |Run(cfg, s, steps).received| == |s.received| + 1
    decreases Left(s).stage, Left(s).bytes, Left(s).place
  {
    hide Next, InStage, History, Left, Enabled;
    var step := Successor(s);
    NoDeadlock(cfg, s);
    StepKeeps(cfg, s, step);
    Progress(cfg, s, step);
    OrdinaryStepLasts(cfg, s, step);
    var s' := Next(cfg, s, step);
    steps := [];
    if s'.client.pc != CIdle { steps := RequestEnds(cfg, s'); }
    RunStep(cfg, s, step, steps);
    steps := [step] + steps;
  }
}
