/** The communication of a client with a local server through shared memory: two events pass the right to use the area
    to and fro, requests and answers longer than the area are sent in parts. Either process may die at any moment. */
module SharedMemory {
  import opened Bytes
  import opened Wrappers

  const LENGTH_SIZE := 4            // a length word in front of the first part
  const ANSWER_PREFIX_SIZE := 3     // return code and flags

  /** Sizes of the areas, and whether the client uses the newer form of multipart requests. */
  datatype Config = Config(requestPart: nat, answerPart: nat, improved: bool)

  ghost predicate Usable(cfg: Config)
  {
    cfg.requestPart > LENGTH_SIZE && cfg.answerPart > LENGTH_SIZE
  }

  datatype Flag = NormalMsg | NonfinalPartNoLen | PartWithLen

  datatype Answer = Answer(code: int, data: seq<byte>)

  // ----- the client -----

  datatype ClientPc =
    | CIdle      // no request
    | CPut       // about to write a part of the request
    | CSet       // about to set the data event
    | CWait      // waiting for the done event
    | CGot       // has the done event

  /** What the client has copied from the answer so far. */
  datatype Collected = Nothing | Partial(bytes: seq<byte>) | Multipart(bytes: seq<byte>, rest: nat)

  /** `sent` bytes of the message have been written to the area, `acked` of them were there before the last part. */
  datatype Client = Client(pc: ClientPc, alive: bool, failed: bool, message: seq<byte>, sent: nat, acked: nat,
                           collected: Collected)

  // ----- the server -----

  datatype ServerPc =
    | SWaitReq   // waiting for the data event: a part of a request
    | SWaitAns   // waiting for the data event: the client wants the next part of the answer
    | SGotReq
    | SGotAns
    | SProcess   // the request is complete
    | SSetReq    // about to set the done event: ready for the next part
    | SSetAns    // about to set the done event: a part of the answer is in the area
    | SEnded     // the client is gone

  datatype Server = Server(pc: ServerPc, alive: bool, multipart: bool, copy: Option<seq<byte>>, rest: nat,
                           request: seq<byte>, answer: Answer, ansSent: nat, ansPrev: nat)

  /** The events, the two areas, both processes, and what has happened so far. */
  datatype State = State(
    dataEvent: bool, doneEvent: bool,
    reqFlag: Flag, req: seq<byte>, ansFlag: Flag, ansCode: int, ans: seq<byte>,
    client: Client, server: Server,
    begun: seq<seq<byte>>, processed: seq<seq<byte>>, answers: seq<Answer>, received: seq<Answer>)

  datatype Step =
    | Begin(message: seq<byte>) | Put | ClientSet | ClientWake | ClientFails | Continue | ReadAnswer
    | ServerWake | ServerEnds | ReadRequest | Process(answer: Answer) | ServerSet | NextPart
    | ClientDies | ServerDies

  function Min(a: nat, b: nat): nat { if a < b then a else b }

  /** `memcpy` to the beginning of an area. */
  function Overwrite(area: seq<byte>, part: seq<byte>): (r: seq<byte>)
    requires |part| <= |area|
    ensures |r| == |area| && r[..|part|] == part
  {
    part + area[|part|..]
  }

  // ----- steps of the client (transmit_req, SendAndWait) -----

  /** The end of the part of the message that starts at `x`. */
  function PartEnd(cfg: Config, message: seq<byte>, x: nat): nat
    requires x <= |message|
  {
    if |message| <= cfg.requestPart then |message|
    else if cfg.improved && x == 0 && cfg.requestPart >= LENGTH_SIZE then cfg.requestPart - LENGTH_SIZE
    else x + Min(|message| - x, cfg.requestPart)
  }

  function PutPart(cfg: Config, s: State): State
    requires Usable(cfg) && |s.req| == cfg.requestPart && s.client.sent <= |s.client.message|
  {
    var m, x := s.client.message, s.client.sent;
    var y := PartEnd(cfg, m, x);
    var s := s.(client := s.client.(pc := CSet, sent := y, acked := x));
    if |m| <= cfg.requestPart then s.(reqFlag := NormalMsg, req := Overwrite(s.req, m))
    else if cfg.improved then
      s.(reqFlag := PartWithLen,
         req := Overwrite(s.req, if x == 0 then EncodeU32(|m|) + m[..y] else m[x..y]))
    else s.(reqFlag := if y < |m| then NonfinalPartNoLen else NormalMsg, req := Overwrite(s.req, m[x..y]))
  }

  function Finish(s: State, received: Answer): State
  {
    s.(client := s.client.(pc := CIdle, collected := Nothing), received := s.received + [received])
  }

  function Ask(s: State, collected: Collected): State
  {
    s.(client := s.client.(pc := CSet, collected := collected))
  }

  /** 32-bit subtraction of lengths. */
  function Minus32(a: nat, b: nat): nat
    requires b <= UNS32_LIMIT
  {
    (a + UNS32_LIMIT - b) % UNS32_LIMIT
  }

  function ReadAnswerPart(cfg: Config, s: State): State
    requires Usable(cfg) && |s.ans| == cfg.answerPart && cfg.answerPart <= UNS32_LIMIT
  {
    match s.client.collected
    case Nothing =>
      (match s.ansFlag
       case NormalMsg => Finish(s, Answer(s.ansCode, s.ans))
       case NonfinalPartNoLen => Ask(s, Partial(s.ans))
       case PartWithLen =>
         var total := DecodeU32(s.ans[..4]);
         Ask(s, Multipart(s.ans[4..], Minus32(total, ANSWER_PREFIX_SIZE + cfg.answerPart - LENGTH_SIZE))))
    case Partial(bytes) =>
      if s.ansFlag == NonfinalPartNoLen then Ask(s, Partial(bytes + s.ans))
      else Finish(s, Answer(s.ansCode, bytes + s.ans))
    case Multipart(bytes, rest) =>
      var n := Min(rest, cfg.answerPart);
      if rest - n == 0 then Finish(s, Answer(s.ansCode, bytes + s.ans[..n]))
      else Ask(s, Multipart(bytes + s.ans[..n], rest - n))
  }

  // ----- steps of the server (DirectSlaveThread) -----

  function Complete(s: State, request: seq<byte>): State
  {
    s.(server := s.server.(pc := SProcess, request := request))
  }

  function ReadRequestPart(cfg: Config, s: State): State
    requires Usable(cfg) && |s.req| == cfg.requestPart && cfg.requestPart <= UNS32_LIMIT
  {
    var v := s.server;
    if s.reqFlag == PartWithLen then
      var v := v.(multipart := true);
      if v.copy == None then
        var total := DecodeU32(s.req[..4]);
        s.(server := v.(pc := SSetReq, copy := Some(s.req[4..]), rest := Minus32(total, cfg.requestPart - LENGTH_SIZE)))
      else
        var n := Min(v.rest, cfg.requestPart);
        var v := v.(copy := Some(v.copy.value + s.req[..n]), rest := v.rest - n);
        if v.rest == 0 then Complete(s.(server := v), v.copy.value) else s.(server := v.(pc := SSetReq))
    else if s.reqFlag == NonfinalPartNoLen || v.copy != None then
      var copy := (if v.copy == None then [] else v.copy.value) + s.req;
      var v := v.(copy := Some(copy));
      if s.reqFlag != NonfinalPartNoLen then Complete(s.(server := v), copy) else s.(server := v.(pc := SSetReq))
    else Complete(s, s.req)
  }

  /** The first part of an answer. */
  function PutAnswer(cfg: Config, s: State, a: Answer): State
    requires Usable(cfg) && |s.ans| == cfg.answerPart
  {
    var s := s.(processed := s.processed + [s.server.request], answers := s.answers + [a], ansCode := a.code,
                server := s.server.(pc := SSetAns, answer := a, ansPrev := 0, copy := None));
    if |a.data| > cfg.answerPart && s.server.multipart then
      var y := cfg.answerPart - LENGTH_SIZE;
      s.(ansFlag := PartWithLen, ans := Overwrite(s.ans, EncodeU32(ANSWER_PREFIX_SIZE + |a.data|) + a.data[..y]),
         server := s.server.(ansSent := y))
    else
      var y := Min(|a.data|, cfg.answerPart);
      s.(ansFlag := if |a.data| > cfg.answerPart then NonfinalPartNoLen else NormalMsg,
         ans := Overwrite(s.ans, a.data[..y]), server := s.server.(ansSent := y))
  }

  function PutNextAnswerPart(cfg: Config, s: State): State
    requires |s.ans| == cfg.answerPart && s.server.ansSent <= |s.server.answer.data|
  {
    var a, x := s.server.answer, s.server.ansSent;
    var y := x + Min(|a.data| - x, cfg.answerPart);
    s.(ans := Overwrite(s.ans, a.data[x..y]),
       ansFlag := if s.ansFlag == PartWithLen then PartWithLen
                  else if |a.data| - x > cfg.answerPart then NonfinalPartNoLen else NormalMsg,
       server := s.server.(pc := SSetAns, ansSent := y, ansPrev := x))
  }

  // ----- the transition system -----

  predicate Enabled(s: State, step: Step)
  {
    var c, v := s.client, s.server;
    match step
    case Begin(m) => c.alive && c.pc == CIdle && m != [] && |m| < UNS32_LIMIT
    case Put => c.alive && c.pc == CPut
    case ClientSet => c.alive && c.pc == CSet
    case ClientWake => c.alive && !c.failed && c.pc == CWait && s.doneEvent
    case ClientFails => c.alive && !c.failed && c.pc == CWait && !s.doneEvent && !v.alive
    case Continue => c.alive && c.pc == CGot && c.sent < |c.message|
    case ReadAnswer => c.alive && c.pc == CGot && c.sent >= |c.message|
    case ServerWake => v.alive && (v.pc == SWaitReq || v.pc == SWaitAns) && s.dataEvent
    case ServerEnds => v.alive && (v.pc == SWaitReq || v.pc == SWaitAns) && !s.dataEvent && !c.alive
    case ReadRequest => v.alive && v.pc == SGotReq
    case Process(a) => v.alive && v.pc == SProcess && ANSWER_PREFIX_SIZE + |a.data| < UNS32_LIMIT
    case ServerSet => v.alive && (v.pc == SSetReq || v.pc == SSetAns)
    case NextPart => v.alive && v.pc == SGotAns
    case ClientDies => c.alive
    case ServerDies => v.alive
  }

  ghost predicate AreasFit(cfg: Config, s: State)
  {
    && Usable(cfg) && cfg.requestPart <= UNS32_LIMIT && cfg.answerPart <= UNS32_LIMIT
    && |s.req| == cfg.requestPart && |s.ans| == cfg.answerPart
    && s.client.sent <= |s.client.message| && s.server.ansSent <= |s.server.answer.data|
  }

  function Next(cfg: Config, s: State, step: Step): State
    requires AreasFit(cfg, s) && Enabled(s, step)
  {
    var c, v := s.client, s.server;
    match step
    case Begin(m) => s.(client := c.(pc := CPut, message := m, sent := 0, acked := 0), begun := s.begun + [m])
    case Put => PutPart(cfg, s)
    case ClientSet => s.(dataEvent := true, client := c.(pc := CWait))
    case ClientWake => s.(doneEvent := false, client := c.(pc := CGot))
    case ClientFails => s.(client := c.(failed := true))
    case Continue => s.(client := c.(pc := CPut))
    case ReadAnswer => ReadAnswerPart(cfg, s)
    case ServerWake => s.(dataEvent := false, server := v.(pc := if v.pc == SWaitReq then SGotReq else SGotAns))
    case ServerEnds => s.(doneEvent := true, server := v.(pc := SEnded))
    case ReadRequest => ReadRequestPart(cfg, s)
    case Process(a) => PutAnswer(cfg, s, a)
    case ServerSet =>
      s.(doneEvent := true,
         server := v.(pc := if v.pc == SSetAns && v.ansSent < |v.answer.data| then SWaitAns else SWaitReq))
    case NextPart => PutNextAnswerPart(cfg, s)
    case ClientDies => s.(client := c.(alive := false))
    case ServerDies => s.(server := v.(alive := false))
  }

  /** Both events not set, the server waiting. */
  ghost predicate Initial(cfg: Config, s: State)
  {
    && AreasFit(cfg, s) && !s.dataEvent && !s.doneEvent
    && s.client.pc == CIdle && !s.client.failed && s.client.collected == Nothing
    && s.server.pc == SWaitReq && s.server.copy == None && !s.server.multipart
    && s.begun == [] && s.processed == [] && s.answers == [] && s.received == []
  }
}
