/**
 The camera engine's two-phase command: a reply and then a management response must both arrive, each
 through a completion and a buffer that the receive callback overwrites whenever it likes. One sender at
 a time holds the command mutex; sender and callback interleave step by step.
 */
module MeiAce {
  import opened Bytes

  const IPU_OWN_CAMERA: byte := 0x13
  const ACE_OWN_CAMERA: byte := 0x14
  const GET_CAMERA_STATUS: byte := 0x15
  const GET_FW_ID: byte := 0x1A

  const NOTIFICATION := 27
  const MANAGEMENT_NOTIF := 16
  const CTRL_NOTIF := 2

  const ETIMEDOUT := -110
  const HDR_SIZE := 8
  const NOTIF_SIZE := 14
  const CAMERA_STATUS_SIZE := 5

  // The two header words; reply and response keep their command in different places.

  function Word(b: seq<byte>, k: nat): u32
    requires |b| >= HDR_SIZE && k < 2
  {
    Get32(b, 4 * k)
  }

  function Status(b: seq<byte>): nat
    requires |b| >= HDR_SIZE
  {
    Word(b, 0) % 0x100_0000
  }

  function CmdId(b: seq<byte>): nat
    requires |b| >= HDR_SIZE
  {
    Word(b, 1) / 0x10_0000 % 0x100
  }

  function RequestId(b: seq<byte>): nat
    requires |b| >= HDR_SIZE
  {
    Word(b, 1) / 0x40_0000 % 0x100
  }

  datatype Kind = FwId | Reply | Response | Ignored

  /** mei_ace_rx and handle_notify: what a message is taken for. */
  function Classify(b: seq<byte>): Kind
    requires |b| >= HDR_SIZE
  {
    var w := Word(b, 0);
    if w / 0x2000_0000 % 2 == 1 then
      if CmdId(b) == GET_FW_ID as int then FwId else Reply
    else if w / 0x4000_0000 % 2 != 0 || w / 0x100_0000 % 32 != NOTIFICATION then Ignored
    else if w / 0x1_0000 % 0x100 == MANAGEMENT_NOTIF && w % 0x1_0000 == CTRL_NOTIF
            && RequestId(b) in {IPU_OWN_CAMERA as int, ACE_OWN_CAMERA as int, GET_CAMERA_STATUS as int} then Response
    else Ignored
  }

  // The same, bit by bit in the bytes as they come.

  predicate ReplyBit(b: seq<byte>)
    requires |b| >= HDR_SIZE
  {
    b[3] / 0x20 % 2 == 1
  }

  function CommandField(b: seq<byte>): nat
    requires |b| >= HDR_SIZE
  {
    b[6] as int / 16 + b[7] as int % 16 * 16
  }

  function RequestField(b: seq<byte>): nat
    requires |b| >= HDR_SIZE
  {
    b[6] as int / 64 + b[7] as int % 64 * 4
  }

  /** A reply to GET_FW_ID. */
  predicate AnswersFwId(b: seq<byte>)
    requires |b| >= HDR_SIZE
  {
    ReplyBit(b) && CommandField(b) == 0x1A
  }

  /** A reply to any other command. */
  predicate AnswersCommand(b: seq<byte>)
    requires |b| >= HDR_SIZE
  {
    ReplyBit(b) && CommandField(b) != 0x1A
  }

  /** A notification of the firmware's management about control of the camera, for one of the three commands. */
  predicate NotifiesControl(b: seq<byte>)
    requires |b| >= HDR_SIZE
  {
    !ReplyBit(b) && b[3] / 0x40 % 2 == 0 && b[3] % 32 == 27 && b[2] == 16 && b[1] == 0 && b[0] == 2
    && RequestField(b) in {0x13, 0x14, 0x15}
  }

  /** What the callback makes of a message, field by field and kind by kind. */
  lemma ByTheBits(b: seq<byte>)
    requires |b| >= HDR_SIZE
    ensures CmdId(b) == CommandField(b) && RequestId(b) == RequestField(b)
    ensures Status(b) == b[0] as int + 0x100 * (b[1] as int) + 0x1_0000 * (b[2] as int)
    ensures Classify(b) == FwId <==> AnswersFwId(b)
    ensures Classify(b) == Reply <==> AnswersCommand(b)
    ensures Classify(b) == Response <==> NotifiesControl(b)
  {
    FirstWord(b[0], b[1], b[2], b[3]);
    SecondWord(b[4], b[5], b[6], b[7]);
  }

  lemma FirstWord(b0: byte, b1: byte, b2: byte, b3: byte)
    ensures var w := b0 as int + 0x100 * (b1 as int) + 0x1_0000 * (b2 as int) + 0x100_0000 * (b3 as int);
            && w / 0x2000_0000 % 2 == b3 as int / 0x20 % 2 && w / 0x4000_0000 % 2 == b3 as int / 0x40 % 2
            && w / 0x100_0000 % 32 == b3 as int % 32 && w / 0x1_0000 % 0x100 == b2 as int
            && w % 0x1_0000 == b0 as int + 0x100 * (b1 as int)
            && w % 0x100_0000 == b0 as int + 0x100 * (b1 as int) + 0x1_0000 * (b2 as int)
  {
    var w := b0 as int + 0x100 * (b1 as int) + 0x1_0000 * (b2 as int) + 0x100_0000 * (b3 as int);
    assert w / 0x100_0000 == b3 as int;
    assert w / 0x2000_0000 == b3 as int / 0x20 && w / 0x4000_0000 == b3 as int / 0x40;
    assert w / 0x1_0000 == b2 as int + 0x100 * (b3 as int);
  }

  lemma SecondWord(b4: byte, b5: byte, b6: byte, b7: byte)
    ensures var w := b4 as int + 0x100 * (b5 as int) + 0x1_0000 * (b6 as int) + 0x100_0000 * (b7 as int);
            && w / 0x10_0000 % 0x100 == b6 as int / 16 + b7 as int % 16 * 16
            && w / 0x40_0000 % 0x100 == b6 as int / 64 + b7 as int % 64 * 4
  {
    var q, r := b6 as int / 16, b6 as int % 16;
    var h, l := b7 as int / 16, b7 as int % 16;
    Field(b4 as int + 0x100 * (b5 as int) + 0x1_0000 * r, q + 16 * l, h, 0x10_0000);
    var q', r' := b6 as int / 64, b6 as int % 64;
    var h', l' := b7 as int / 64, b7 as int % 64;
    Field(b4 as int + 0x100 * (b5 as int) + 0x1_0000 * r', q' + 4 * l', h', 0x40_0000);
  }

  lemma Field(low: nat, field: nat, high: nat, unit: nat)
    requires unit in {0x10_0000, 0x40_0000} && low < unit && field < 0x100
    ensures (low + unit * (field + 0x100 * high)) / unit % 0x100 == field
  {
    var n := field + 0x100 * high;
    if unit == 0x10_0000 {
      assert (low + 0x10_0000 * n) / 0x10_0000 == n;
    } else {
      assert (low + 0x40_0000 * n) / 0x40_0000 == n;
    }
    assert n % 0x100 == field;
  }

  datatype Phase =
    | Free
    | Begun
    | ResponseReset
    | ReplyReset
    | Sent
    | Replied
    | IdRead
    | StatusRead
    | Responded
    | Leaving(ret: int)

  /** The callback: idle, or past the copy, or past a look at a completion that was not done. */
  datatype Rx = Idle | Copied(kind: Kind) | Completing(kind: Kind)

  datatype Event =
    | Begin(cmd: byte)
    | ResetResponse
    | ResetReply
    | Send(ret: int)
    | WaitReply(ret: int)
    | ReadId
    | ReadStatus
    | WaitResponse(ret: int)
    | ReadRequestId
    | Leave
    | RxCopy(buf: seq<byte>, len: int)    // what was received into the callback's buffer, and how much
    | RxCheck
    | RxComplete

  /**
   Moments are positions in `trace`; the `...From` fields say which copy the value last read came from,
   `clean` whether the resets of the command under way were, so far.
   */
  datatype State = State(
    reply: nat, response: nat, replyBuf: seq<byte>, respBuf: seq<byte>, moduleId: u16, woken: bool,
    phase: Phase, cmd: byte, rx: Rx, clean: bool,
    responseResetAt: int, replyResetAt: int, replyDoneAt: int, responseDoneAt: int,
    replyFrom: int, respFrom: int, idFrom: int, statusFrom: int, requestFrom: int,
    idAt: int, statusAt: int, requestAt: int,
    trace: seq<Event>)

  function Start(): State {
    State(0, 0, Zeros(NOTIF_SIZE), Zeros(NOTIF_SIZE), 0, false, Free, 0, Idle, true, -1, -1, -1, -1, -1, -1, -1, -1, -1, -1, -1, -1, [])
  }

  predicate Sized(s: State) {
    |s.replyBuf| == |s.respBuf| == NOTIF_SIZE
  }

  predicate Received(e: Event) {
    e.RxCopy? && |e.buf| == NOTIF_SIZE && HDR_SIZE <= e.len <= NOTIF_SIZE
  }

  predicate Copies(e: Event, kind: Kind) {
    Received(e) && Classify(e.buf) == kind
  }

  predicate Enabled(s: State, e: Event) {
    match e
    case Begin(_) => s.phase == Free
    case ResetResponse => s.phase == Begun
    case ResetReply => s.phase == ResponseReset
    case Send(_) => s.phase == ReplyReset
    case WaitReply(_) => s.phase == Sent
    case ReadId => s.phase == Replied
    case ReadStatus => s.phase == IdRead
    case WaitResponse(_) => s.phase == StatusRead
    case ReadRequestId => s.phase == Responded
    case Leave => s.phase.Leaving?
    case RxCopy(buf, len) => s.rx == Idle && |buf| == NOTIF_SIZE && len <= NOTIF_SIZE
    case RxCheck => s.rx.Copied?
    case RxComplete => s.rx.Completing?
  }

  function Failed(ret: int): Phase {
    Leaving(if ret < 0 then ret else ETIMEDOUT)
  }

  function Receive(s: State, buf: seq<byte>, len: int): State
    requires Sized(s) && |buf| == NOTIF_SIZE && len <= NOTIF_SIZE
  {
    if len < HDR_SIZE then s
    else
      match Classify(buf)
      case FwId => s.(moduleId := Get16(buf, HDR_SIZE), woken := true)
      case Reply => s.(replyBuf := buf[..len] + s.replyBuf[len..], replyFrom := |s.trace|, rx := Copied(Reply))
      case Response => s.(respBuf := buf[..len] + s.respBuf[len..], respFrom := |s.trace|, rx := Copied(Response))
      case Ignored => s
  }

  /** The callback holds a message of that kind which it has not completed. */
  predicate Busy(rx: Rx, kind: Kind) {
    rx != Idle && rx.kind == kind
  }

  /** A reset that comes while the callback still has to complete a message with the command's own id. */
  predicate Unclean(s: State, e: Event)
    requires Sized(s)
  {
    || (e.ResetReply? && Busy(s.rx, Reply) && CmdId(s.replyBuf) == s.cmd as int)
    || (e.ResetResponse? && Busy(s.rx, Response) && RequestId(s.respBuf) == s.cmd as int)
  }

  function Act(s: State, e: Event): State
    requires Sized(s) && Enabled(s, e)
  {
    var now := |s.trace|;
    match e
    case Begin(cmd) => s.(phase := Begun, cmd := cmd, clean := true)
    case ResetResponse => s.(phase := ResponseReset, response := 0, responseResetAt := now, clean := s.clean && !Unclean(s, e))
    case ResetReply => s.(phase := ReplyReset, reply := 0, replyResetAt := now, clean := s.clean && !Unclean(s, e))
    case Send(ret) => s.(phase := if ret < 0 then Leaving(ret) else Sent)
    case WaitReply(ret) => if s.reply > 0 then s.(phase := Replied, reply := s.reply - 1) else s.(phase := Failed(ret))
    case ReadId =>
      s.(phase := if CmdId(s.replyBuf) == s.cmd as int then IdRead else Leaving(-1), idFrom := s.replyFrom, idAt := now)
    case ReadStatus =>
      s.(phase := if Status(s.replyBuf) == 0 then StatusRead else Leaving(-1), statusFrom := s.replyFrom, statusAt := now)
    case WaitResponse(ret) =>
      if s.response > 0 then s.(phase := Responded, response := s.response - 1) else s.(phase := Failed(ret))
    case ReadRequestId =>
      s.(phase := Leaving(if RequestId(s.respBuf) == s.cmd as int then 0 else -1), requestFrom := s.respFrom, requestAt := now)
    case Leave => s.(phase := Free)
    case RxCopy(buf, len) => Receive(s, buf, len)
    case RxCheck =>
      var done := if s.rx.kind == Reply then s.reply > 0 else s.response > 0;
      s.(rx := if done then Idle else Completing(s.rx.kind))
    case RxComplete =>
      if s.rx.kind == Reply then s.(rx := Idle, reply := s.reply + 1, replyDoneAt := now)
      else s.(rx := Idle, response := s.response + 1, responseDoneAt := now)
  }

  function Next(s: State, e: Event): (s': State)
    requires Sized(s) && Enabled(s, e)
    ensures Sized(s')
  {
    Act(s, e).(trace := s.trace + [e])
  }

  ghost predicate IsRun(s: State, run: seq<Event>)
    requires Sized(s)
    decreases |run|
  {
    run != [] ==> Enabled(s, run[0]) && IsRun(Next(s, run[0]), run[1..])
  }

  function Exec(s: State, run: seq<Event>): (s': State)
    requires Sized(s) && IsRun(s, run)
    ensures Sized(s')
    decreases |run|
  {
    if run == [] then s else Exec(Next(s, run[0]), run[1..])
  }

  /** With what a command fails: the error of its send, that of a wait for a completion not counted, or else one for the timeout, or minus one for a reading. */
  lemma FailureCodes(s: State, e: Event)
    requires Sized(s) && Enabled(s, e) && !s.phase.Leaving? && Next(s, e).phase.Leaving?
    ensures var ret := Next(s, e).phase.ret;
            match e
            case Send(r) => r < 0 && ret == r
            case WaitReply(r) => s.reply == 0 && ret == if r < 0 then r else -110
            case WaitResponse(r) => s.response == 0 && ret == if r < 0 then r else -110
            case ReadId | ReadStatus => ret == -1
            case _ => e.ReadRequestId? && ret in {0, -1}
  {
    hide Classify, Get16, CmdId, RequestId, Status;
  }

  // What every step keeps.

  predicate PastReplyReset(p: Phase) {
    p in {ReplyReset, Sent, Replied, IdRead, StatusRead, Responded} || p == Leaving(0)
  }

  predicate PastReply(p: Phase) {
    p in {Replied, IdRead, StatusRead, Responded} || p == Leaving(0)
  }

  predicate PastId(p: Phase) {
    p in {IdRead, StatusRead, Responded} || p == Leaving(0)
  }

  predicate PastStatus(p: Phase) {
    p in {StatusRead, Responded} || p == Leaving(0)
  }

  predicate PastResponse(p: Phase) {
    p == Responded || p == Leaving(0)
  }

  /** Position `k` is a copy of a message of that kind. */
  predicate CopyAt(trace: seq<Event>, k: int, kind: Kind) {
    0 <= k < |trace| && Copies(trace[k], kind)
  }

  ghost predicate Counters(s: State) {
    && s.reply <= 1 && s.response <= 1
    && (s.rx == Completing(Reply) ==> s.reply == 0)
    && (s.rx == Completing(Response) ==> s.response == 0)
    && (s.rx.Copied? || s.rx.Completing? ==> s.rx.kind == Reply || s.rx.kind == Response)
  }

  /** `from` is the latest copy of that kind, if there was one, and `buf` has its header. */
  ghost predicate Latest(trace: seq<Event>, kind: Kind, from: int, buf: seq<byte>)
    requires |buf| == NOTIF_SIZE
  {
    && -1 <= from < |trace|
    && (from >= 0 ==> CopyAt(trace, from, kind) && buf[..HDR_SIZE] == trace[from].buf[..HDR_SIZE])
    && (forall k :: from < k < |trace| ==> !CopyAt(trace, k, kind))
  }

  /** The buffers' headers are those of the latest copies, and what is complete was copied. */
  ghost predicate Sources(s: State)
    requires Sized(s)
  {
    && Latest(s.trace, Reply, s.replyFrom, s.replyBuf)
    && Latest(s.trace, Response, s.respFrom, s.respBuf)
    && (s.reply > 0 || (s.rx != Idle && s.rx.kind == Reply) ==> s.replyFrom >= 0)
    && (s.response > 0 || (s.rx != Idle && s.rx.kind == Response) ==> s.respFrom >= 0)
  }

  predicate PastResponseReset(p: Phase) {
    p == ResponseReset || PastReplyReset(p)
  }

  /** The resets of the command under way. */
  ghost predicate Resets(s: State) {
    && (PastResponseReset(s.phase) ==> 0 <= s.responseResetAt < |s.trace| && s.trace[s.responseResetAt] == ResetResponse)
    && (PastReplyReset(s.phase) ==>
          s.responseResetAt < s.replyResetAt < |s.trace| && s.trace[s.replyResetAt] == ResetReply)
  }

  /** A reply completion that counts came after its reset. */
  ghost predicate ReplyDone(s: State) {
    && -1 <= s.replyDoneAt < |s.trace|
    && (s.replyDoneAt >= 0 ==> s.trace[s.replyDoneAt] == RxComplete)
    && (PastReplyReset(s.phase) && s.reply > 0 ==> s.replyResetAt < s.replyDoneAt)
    && (PastReply(s.phase) ==> s.replyResetAt < s.replyDoneAt && s.replyFrom >= 0)
  }

  /** And so did a response completion. */
  ghost predicate ResponseDone(s: State) {
    && -1 <= s.responseDoneAt < |s.trace|
    && (s.responseDoneAt >= 0 ==> s.trace[s.responseDoneAt] == RxComplete)
    && (PastResponseReset(s.phase) && s.response > 0 ==> s.responseResetAt < s.responseDoneAt)
    && (PastResponse(s.phase) ==> s.responseResetAt < s.responseDoneAt && s.respFrom >= 0)
  }

  /** At position `at` the sender read what the copy at `from` had put there, the latest by then. */
  ghost predicate ReadAt(trace: seq<Event>, kind: Kind, from: int, at: int, e: Event) {
    && 0 <= from < at < |trace| && trace[at] == e && CopyAt(trace, from, kind)
    && forall k :: from < k < at ==> !CopyAt(trace, k, kind)
  }

  ghost predicate IdReading(s: State) {
    PastId(s.phase) ==>
      && s.replyResetAt < s.idAt
      && ReadAt(s.trace, Reply, s.idFrom, s.idAt, ReadId) && CmdId(s.trace[s.idFrom].buf) == s.cmd as int
  }

  ghost predicate StatusReading(s: State) {
    PastStatus(s.phase) ==>
      && s.idAt < s.statusAt
      && ReadAt(s.trace, Reply, s.statusFrom, s.statusAt, ReadStatus) && Status(s.trace[s.statusFrom].buf) == 0
  }

  ghost predicate RequestReading(s: State) {
    s.phase == Leaving(0) ==>
      && s.statusAt < s.requestAt
      && ReadAt(s.trace, Response, s.requestFrom, s.requestAt, ReadRequestId) && RequestId(s.trace[s.requestFrom].buf) == s.cmd as int
  }

  ghost predicate Inv(s: State) {
    Sized(s) && Counters(s) && Sources(s) && Resets(s) && ReplyDone(s) && ResponseDone(s)
    && IdReading(s) && StatusReading(s) && RequestReading(s)
  }

  lemma InvStart()
    ensures Inv(Start())
  {
  }

  lemma CountersStep(s: State, e: Event)
    requires Sized(s) && Counters(s) && Enabled(s, e)
    ensures Counters(Next(s, e))
  {
    hide Classify, Get16, CmdId, Status, RequestId;
  }

  lemma LatestStays(trace: seq<Event>, e: Event, kind: Kind, from: int, buf: seq<byte>)
    requires |buf| == NOTIF_SIZE && Latest(trace, kind, from, buf) && !Copies(e, kind)
    ensures Latest(trace + [e], kind, from, buf)
  {
    hide Copies;
    forall k | from < k < |trace + [e]|
      ensures !CopyAt(trace + [e], k, kind)
    {
      assert k < |trace| ==> !CopyAt(trace, k, kind);
    }
  }

  lemma LatestMoves(trace: seq<Event>, e: Event, kind: Kind, was: seq<byte>)
    requires |was| == NOTIF_SIZE && Copies(e, kind)
    ensures |e.buf| == NOTIF_SIZE && HDR_SIZE <= e.len <= NOTIF_SIZE
    ensures Latest(trace + [e], kind, |trace|, e.buf[..e.len] + was[e.len..])
  {
    hide Classify;
  }

  lemma SourcesStep(s: State, e: Event)
    requires Sized(s) && Counters(s) && Sources(s) && Enabled(s, e)
    ensures Sources(Next(s, e))
  {
    if Copies(e, Reply) {
      LatestMoves(s.trace, e, Reply, s.replyBuf);
    } else {
      LatestStays(s.trace, e, Reply, s.replyFrom, s.replyBuf);
    }
    if Copies(e, Response) {
      LatestMoves(s.trace, e, Response, s.respBuf);
    } else {
      LatestStays(s.trace, e, Response, s.respFrom, s.respBuf);
    }
    hide Latest, Classify, Get16, CmdId, Status, RequestId, Get32;
  }

  lemma ResetsStep(s: State, e: Event)
    requires Sized(s) && Resets(s) && Enabled(s, e)
    ensures Resets(Next(s, e))
  {
    hide Classify, Get16, CmdId, Status, RequestId, Get32;
  }

  /** Which steps touch the record of readings. */
  lemma RecordAfter(s: State, e: Event)
    requires Sized(s) && Enabled(s, e)
    ensures var s' := Next(s, e);
            && s'.trace == s.trace + [e]
            && (s'.cmd == if e.Begin? then e.cmd else s.cmd)
            && (s'.replyResetAt == if e.ResetReply? then |s.trace| else s.replyResetAt)
            && (if e.ReadId? then s'.idFrom == s.replyFrom && s'.idAt == |s.trace| else s'.idFrom == s.idFrom && s'.idAt == s.idAt)
            && (if e.ReadStatus? then s'.statusFrom == s.replyFrom && s'.statusAt == |s.trace|
                else s'.statusFrom == s.statusFrom && s'.statusAt == s.statusAt)
            && (if e.ReadRequestId? then s'.requestFrom == s.respFrom && s'.requestAt == |s.trace|
                else s'.requestFrom == s.requestFrom && s'.requestAt == s.requestAt)
  {
    hide Classify, Get16, CmdId, Status, RequestId;
  }

  lemma ResetResponseAfter(s: State, e: Event)
    requires Sized(s) && Enabled(s, e)
    ensures Next(s, e).responseResetAt == if e.ResetResponse? then |s.trace| else s.responseResetAt
    ensures Next(s, e).phase == Leaving(0) ==> !e.ResetResponse?
  {
    hide Classify, Get16, CmdId, Status, RequestId;
  }

  /** What a step does to the reply, its completion and the callback's hold on it. */
  lemma ReplyAfter(s: State, e: Event)
    requires Sized(s) && Counters(s) && Enabled(s, e)
    ensures var s' := Next(s, e);
            && s'.replyFrom == (if Copies(e, Reply) then |s.trace| else s.replyFrom)
            && (!Copies(e, Reply) ==> s'.replyBuf == s.replyBuf)
            && (Busy(s'.rx, Reply) ==> Busy(s.rx, Reply) || Copies(e, Reply))
            && (s'.reply > 0 ==> !e.ResetReply? && (s.reply > 0 || (e.RxComplete? && Busy(s.rx, Reply))))
            && s'.replyDoneAt == (if e.RxComplete? && Busy(s.rx, Reply) then |s.trace| else s.replyDoneAt)
            && (PastReplyReset(s'.phase) ==> !e.Begin? && (e.ResetReply? || PastReplyReset(s.phase)))
            && (PastReply(s'.phase) ==> !e.ResetReply? && PastReplyReset(s.phase) && (s.reply > 0 || PastReply(s.phase)))
  {
    hide Classify, Get16, CmdId, Status, RequestId;
  }

  lemma ResponseAfter(s: State, e: Event)
    requires Sized(s) && Counters(s) && Enabled(s, e)
    ensures var s' := Next(s, e);
            && s'.respFrom == (if Copies(e, Response) then |s.trace| else s.respFrom)
            && (!Copies(e, Response) ==> s'.respBuf == s.respBuf)
            && (Busy(s'.rx, Response) ==> Busy(s.rx, Response) || Copies(e, Response))
            && (s'.response > 0 ==> !e.ResetResponse? && (s.response > 0 || (e.RxComplete? && Busy(s.rx, Response))))
            && s'.responseDoneAt == (if e.RxComplete? && Busy(s.rx, Response) then |s.trace| else s.responseDoneAt)
            && (PastResponseReset(s'.phase) ==> !e.Begin? && (e.ResetResponse? || PastResponseReset(s.phase)))
            && (PastResponse(s'.phase) ==>
                  !e.ResetResponse? && PastResponseReset(s.phase) && (s.response > 0 || PastResponse(s.phase)))
  {
    hide Classify, Get16, CmdId, Status, RequestId;
  }

  lemma ReplyDoneStep(s: State, e: Event)
    requires Sized(s) && Counters(s) && Sources(s) && Resets(s) && ReplyDone(s) && Enabled(s, e)
    ensures ReplyDone(Next(s, e))
  {
    assert s.replyFrom >= -1;
    RecordAfter(s, e);
    ReplyAfter(s, e);
    hide Act, Enabled, Copies, Latest;
  }

  lemma ResponseDoneStep(s: State, e: Event)
    requires Sized(s) && Counters(s) && Sources(s) && Resets(s) && ResponseDone(s) && Enabled(s, e)
    ensures ResponseDone(Next(s, e))
  {
    assert s.respFrom >= -1;
    RecordAfter(s, e);
    ResetResponseAfter(s, e);
    ResponseAfter(s, e);
    hide Act, Enabled, Copies, Latest;
  }

  lemma SameWords(a: seq<byte>, b: seq<byte>)
    requires |a| >= HDR_SIZE && |b| >= HDR_SIZE && a[..HDR_SIZE] == b[..HDR_SIZE]
    ensures CmdId(a) == CmdId(b) && Status(a) == Status(b) && RequestId(a) == RequestId(b)
  {
    assert forall k :: 0 <= k < HDR_SIZE ==> a[k] == a[..HDR_SIZE][k] && b[k] == b[..HDR_SIZE][k];
    assert Word(a, 0) == Word(b, 0) && Word(a, 1) == Word(b, 1);
  }

  lemma ReadAtStays(trace: seq<Event>, e: Event, kind: Kind, from: int, at: int, what: Event)
    requires ReadAt(trace, kind, from, at, what)
    ensures ReadAt(trace + [e], kind, from, at, what) && (trace + [e])[from] == trace[from]
  {
    hide Copies;
    forall k | from < k < at
      ensures !CopyAt(trace + [e], k, kind)
    {
      assert !CopyAt(trace, k, kind);
    }
  }

  lemma ReadsNow(trace: seq<Event>, e: Event, kind: Kind, from: int, buf: seq<byte>)
    requires |buf| == NOTIF_SIZE && Latest(trace, kind, from, buf) && from >= 0 && !e.RxCopy?
    ensures ReadAt(trace + [e], kind, from, |trace|, e)
    ensures CopyAt(trace, from, kind) && (trace + [e])[from] == trace[from]
    ensures CmdId(trace[from].buf) == CmdId(buf) && Status(trace[from].buf) == Status(buf) && RequestId(trace[from].buf) == RequestId(buf)
  {
    SameWords(buf, trace[from].buf);
    hide Copies, CmdId, Status, RequestId;
    forall k | from < k < |trace|
      ensures !CopyAt(trace + [e], k, kind)
    {
      assert !CopyAt(trace, k, kind);
    }
  }

  /** What Inv says of the sources of the next reading. */
  lemma NextReading(s: State)
    requires Inv(s)
    ensures Latest(s.trace, Reply, s.replyFrom, s.replyBuf) && Latest(s.trace, Response, s.respFrom, s.respBuf)
    ensures PastReplyReset(s.phase) ==> 0 <= s.replyResetAt < |s.trace|
    ensures PastReply(s.phase) ==> s.replyFrom >= 0
    ensures PastId(s.phase) ==> s.idAt < |s.trace|
    ensures PastStatus(s.phase) ==> s.statusAt < |s.trace|
    ensures PastResponse(s.phase) ==> s.respFrom >= 0
  {
  }

  /** How the later phases are entered. */
  lemma PhaseAfter(s: State, e: Event)
    requires Sized(s) && Enabled(s, e)
    ensures var p, p' := s.phase, Next(s, e).phase;
            && (PastId(p') ==> (PastId(p) && !e.Begin? && !e.ResetReply? && !e.ReadId?)
                               || (e.ReadId? && p == Replied && CmdId(s.replyBuf) == s.cmd as int))
            && (PastStatus(p') ==> (PastStatus(p) && !e.ReadId? && !e.ReadStatus?)
                                   || (e.ReadStatus? && p == IdRead && Status(s.replyBuf) == 0))
            && (p' == Leaving(0) ==> (p == Leaving(0) && !e.ReadStatus? && !e.ReadRequestId?)
                                     || (e.ReadRequestId? && p == Responded && RequestId(s.respBuf) == s.cmd as int))
  {
    hide Classify, Get16, CmdId, Status, RequestId;
  }

  lemma IdStep(s: State, e: Event)
    requires Inv(s) && Enabled(s, e)
    ensures IdReading(Next(s, e))
  {
    NextReading(s);
    RecordAfter(s, e);
    PhaseAfter(s, e);
    Readings(s);
    hide Inv, Act, Enabled, Latest, ReadAt, CmdId, Status, RequestId, CopyAt, Copies;
    if PastId(Next(s, e).phase) {
      if e.ReadId? {
        ReadsNow(s.trace, e, Reply, s.replyFrom, s.replyBuf);
      } else {
        ReadAtStays(s.trace, e, Reply, s.idFrom, s.idAt, ReadId);
      }
    }
  }

  lemma StatusStep(s: State, e: Event)
    requires Inv(s) && Enabled(s, e)
    ensures StatusReading(Next(s, e))
  {
    NextReading(s);
    RecordAfter(s, e);
    PhaseAfter(s, e);
    Readings(s);
    hide Inv, Act, Enabled, Latest, ReadAt, CmdId, Status, RequestId, CopyAt, Copies;
    if PastStatus(Next(s, e).phase) {
      if e.ReadStatus? {
        ReadsNow(s.trace, e, Reply, s.replyFrom, s.replyBuf);
      } else {
        ReadAtStays(s.trace, e, Reply, s.statusFrom, s.statusAt, ReadStatus);
      }
    }
  }

  lemma RequestStep(s: State, e: Event)
    requires Inv(s) && Enabled(s, e)
    ensures RequestReading(Next(s, e))
  {
    NextReading(s);
    RecordAfter(s, e);
    PhaseAfter(s, e);
    Readings(s);
    hide Inv, Act, Enabled, Latest, ReadAt, CmdId, Status, RequestId, CopyAt, Copies;
    if Next(s, e).phase == Leaving(0) {
      if e.ReadRequestId? {
        ReadsNow(s.trace, e, Response, s.respFrom, s.respBuf);
      } else {
        ReadAtStays(s.trace, e, Response, s.requestFrom, s.requestAt, ReadRequestId);
      }
    }
  }

  lemma Readings(s: State)
    requires Inv(s)
    ensures IdReading(s) && StatusReading(s) && RequestReading(s)
  {
  }

  lemma InvStep(s: State, e: Event)
    requires Inv(s) && Enabled(s, e)
    ensures Inv(Next(s, e))
  {
    hide Act, Counters, Sources, Resets, ReplyDone, ResponseDone, IdReading, StatusReading, RequestReading, Enabled;
    CountersStep(s, e);
    SourcesStep(s, e);
    ResetsStep(s, e);
    ReplyDoneStep(s, e);
    ResponseDoneStep(s, e);
    IdStep(s, e);
    StatusStep(s, e);
    RequestStep(s, e);
  }

  lemma {:induction false} InvRun(s: State, run: seq<Event>)
    requires Inv(s) && IsRun(s, run)
    ensures Inv(Exec(s, run)) && Exec(s, run).trace == s.trace + run
    decreases |run|
  {
    hide Act, Counters, Sources, Resets, ReplyDone, ResponseDone, IdReading, StatusReading, RequestReading, Enabled;
    if run != [] {
      InvStep(s, run[0]);
      InvRun(Next(s, run[0]), run[1..]);
      assert s.trace + run == s.trace + [run[0]] + run[1..];
    }
  }

  /**
   Safety over every interleaving of one sender after another with the callback: a command returns zero
   only if, since it reset the completions, a reply and a response were completed, in either order, and
   it read its own id and a zero status from replies and its own id from a response. Both counters stay
   zero or one. The two readings of the reply come from one message exactly when no reply was copied
   between them.
   */
  lemma CommandCompleted(run: seq<Event>)
    requires IsRun(Start(), run)
    ensures var s := Exec(Start(), run);
            && s.reply <= 1 && s.response <= 1
            && (s.phase == Leaving(0) ==>
                  && 0 <= s.responseResetAt < s.replyResetAt < s.replyDoneAt < |run| && s.responseResetAt < s.responseDoneAt < |run|
                  && run[s.responseResetAt] == ResetResponse && run[s.replyResetAt] == ResetReply
                  && run[s.replyDoneAt] == RxComplete && run[s.responseDoneAt] == RxComplete
                  && s.replyResetAt < s.idAt < s.statusAt < s.requestAt
                  && ReadAt(run, Reply, s.idFrom, s.idAt, ReadId) && CmdId(run[s.idFrom].buf) == s.cmd as int
                  && ReadAt(run, Reply, s.statusFrom, s.statusAt, ReadStatus) && Status(run[s.statusFrom].buf) == 0
                  && ReadAt(run, Response, s.requestFrom, s.requestAt, ReadRequestId) && RequestId(run[s.requestFrom].buf) == s.cmd as int
                  && (s.idFrom == s.statusFrom <==> forall k :: s.idAt < k < s.statusAt ==> !CopyAt(run, k, Reply)))
  {
    hide IsRun, Exec, Inv;
    InvStart();
    InvRun(Start(), run);
    var s := Exec(Start(), run);
    assert Start().trace + run == run;
    hide Start;
    Concluded(s);
  }

  lemma Concluded(s: State)
    requires Inv(s)
    ensures s.reply <= 1 && s.response <= 1
    ensures s.phase == Leaving(0) ==>
              && 0 <= s.responseResetAt < s.replyResetAt < s.replyDoneAt < |s.trace| && s.responseResetAt < s.responseDoneAt < |s.trace|
              && s.trace[s.responseResetAt] == ResetResponse && s.trace[s.replyResetAt] == ResetReply
              && s.trace[s.replyDoneAt] == RxComplete && s.trace[s.responseDoneAt] == RxComplete
              && s.replyResetAt < s.idAt < s.statusAt < s.requestAt
              && ReadAt(s.trace, Reply, s.idFrom, s.idAt, ReadId) && CmdId(s.trace[s.idFrom].buf) == s.cmd as int
              && ReadAt(s.trace, Reply, s.statusFrom, s.statusAt, ReadStatus) && Status(s.trace[s.statusFrom].buf) == 0
              && ReadAt(s.trace, Response, s.requestFrom, s.requestAt, ReadRequestId)
              && RequestId(s.trace[s.requestFrom].buf) == s.cmd as int
              && (s.idFrom == s.statusFrom <==> forall k :: s.idAt < k < s.statusAt ==> !CopyAt(s.trace, k, Reply))
  {
    hide Sources, CmdId, Status, RequestId, Copies;
    if s.phase == Leaving(0) {
      SameMessage(s.trace, s.idFrom, s.idAt, s.statusFrom, s.statusAt);
    }
  }

  /** Two readings see the same message iff none was copied between them. */
  lemma SameMessage(trace: seq<Event>, f: int, i: int, g: int, j: int)
    requires i < j && ReadAt(trace, Reply, f, i, ReadId) && ReadAt(trace, Reply, g, j, ReadStatus)
    ensures f == g <==> forall k :: i < k < j ==> !CopyAt(trace, k, Reply)
  {
    assert !CopyAt(trace, i, Reply);
    assert CopyAt(trace, f, Reply) && CopyAt(trace, g, Reply);
    hide Copies;
    if f == g {
      forall k | i < k < j
        ensures !CopyAt(trace, k, Reply)
      {
      }
    }
  }

  // Events by which the callback receives such a message, its header whole.

  predicate GetsReply(e: Event) {
    Received(e) && AnswersCommand(e.buf)
  }

  predicate GetsResponse(e: Event) {
    Received(e) && NotifiesControl(e.buf)
  }

  predicate GetsFwId(e: Event) {
    Received(e) && AnswersFwId(e.buf)
  }

  /**
   Only a reply to a command moves a command past its reply, and only a control notification past its
   response: whatever else arrives, replies to GET_FW_ID and other notifications included, completes
   nothing.
   */
  lemma OnlyTheseComplete(run: seq<Event>)
    requires IsRun(Start(), run)
    ensures var s := Exec(Start(), run);
            && ((forall e :: e in run ==> !GetsReply(e)) ==> s.reply == 0 && !PastReply(s.phase))
            && ((forall e :: e in run ==> !GetsResponse(e)) ==> s.response == 0 && !PastResponse(s.phase))
  {
    hide IsRun, Exec, Inv;
    InvStart();
    InvRun(Start(), run);
    assert Start().trace + run == run;
    hide Start;
    CompletedByCopies(Exec(Start(), run));
    forall k
      ensures CopyAt(run, k, Reply) ==> run[k] in run && GetsReply(run[k])
      ensures CopyAt(run, k, Response) ==> run[k] in run && GetsResponse(run[k])
    {
      if 0 <= k < |run| && Received(run[k]) {
        ByTheBits(run[k].buf);
      }
      hide Classify, AnswersCommand, NotifiesControl;
    }
  }

  /** The firmware's id in a message, the two bytes after the header. */
  function ModuleOf(e: Event): nat
    requires Received(e)
  {
    e.buf[8] as int + 0x100 * (e.buf[9] as int)
  }

  /** Those who wait for the firmware's id have been woken exactly if a reply to GET_FW_ID came, and have the last one's. */
  ghost predicate IdKnown(s: State) {
    && (s.woken <==> exists k :: 0 <= k < |s.trace| && GetsFwId(s.trace[k]))
    && forall k :: 0 <= k < |s.trace| && GetsFwId(s.trace[k]) && (forall j :: k < j < |s.trace| ==> !GetsFwId(s.trace[j])) ==>
         s.moduleId as int == ModuleOf(s.trace[k])
  }

  lemma IdAfter(s: State, e: Event)
    requires Sized(s) && Enabled(s, e)
    ensures Next(s, e).trace == s.trace + [e]
    ensures if GetsFwId(e) then Next(s, e).woken && Next(s, e).moduleId as int == ModuleOf(e)
            else Next(s, e).woken == s.woken && Next(s, e).moduleId == s.moduleId
  {
    if e.RxCopy? {
      ByTheBits(e.buf);
    }
    hide Classify, CmdId, Status, RequestId, AnswersFwId;
  }

  lemma IdKnownStep(s: State, e: Event)
    requires Sized(s) && Enabled(s, e) && IdKnown(s)
    ensures IdKnown(Next(s, e))
  {
    IdAfter(s, e);
    hide Act, Enabled, GetsFwId, ModuleOf;
    var t := Next(s, e).trace;
    assert t[|s.trace|] == e;
    assert forall k :: 0 <= k < |s.trace| ==> t[k] == s.trace[k];
  }

  lemma {:induction false} IdKnownRun(s: State, run: seq<Event>)
    requires Sized(s) && IsRun(s, run) && IdKnown(s)
    ensures IdKnown(Exec(s, run)) && Exec(s, run).trace == s.trace + run
    decreases |run|
  {
    hide Act, Enabled, IdKnown;
    if run != [] {
      IdKnownStep(s, run[0]);
      IdKnownRun(Next(s, run[0]), run[1..]);
      assert s.trace + run == s.trace + [run[0]] + run[1..];
    }
  }

  /** So over every run, whatever the sender does meanwhile. */
  lemma FirmwareIdExactly(run: seq<Event>)
    requires IsRun(Start(), run)
    ensures var s := Exec(Start(), run);
            && (s.woken <==> exists k :: 0 <= k < |run| && GetsFwId(run[k]))
            && forall k :: 0 <= k < |run| && GetsFwId(run[k]) && (forall j :: k < j < |run| ==> !GetsFwId(run[j])) ==>
                 s.moduleId as int == ModuleOf(run[k])
  {
    hide IsRun, Exec, GetsFwId, ModuleOf;
    IdKnownRun(Start(), run);
    assert Start().trace + run == run;
  }

  lemma CompletedByCopies(s: State)
    requires Inv(s)
    ensures (forall k :: !CopyAt(s.trace, k, Reply)) ==> s.reply == 0 && !PastReply(s.phase)
    ensures (forall k :: !CopyAt(s.trace, k, Response)) ==> s.response == 0 && !PastResponse(s.phase)
  {
    hide Resets, IdReading, StatusReading, RequestReading, CopyAt;
  }

  // Messages from before the resets.

  /** A reply that is complete, about to be, or consumed was copied since the reset, or has another id. */
  ghost predicate FreshReply(s: State)
    requires Sized(s)
  {
    && (PastReplyReset(s.phase) && (s.reply > 0 || Busy(s.rx, Reply) || PastReply(s.phase)) ==>
          s.replyResetAt < s.replyFrom || CmdId(s.replyBuf) != s.cmd as int)
    && (PastId(s.phase) ==> s.replyResetAt < s.replyFrom)
  }

  ghost predicate FreshResponse(s: State)
    requires Sized(s)
  {
    && (PastResponseReset(s.phase) && (s.response > 0 || Busy(s.rx, Response) || PastResponse(s.phase)) ==>
          s.responseResetAt < s.respFrom || RequestId(s.respBuf) != s.cmd as int)
    && (s.phase == Leaving(0) ==> s.responseResetAt < s.respFrom)
  }

  ghost predicate FreshReadings(s: State) {
    && (PastId(s.phase) ==> s.replyResetAt < s.idFrom)
    && (PastStatus(s.phase) ==> s.replyResetAt < s.statusFrom)
    && (s.phase == Leaving(0) ==> s.responseResetAt < s.requestFrom)
  }

  /** If the resets were clean. */
  ghost predicate Fresh(s: State)
    requires Sized(s)
  {
    s.clean ==> FreshReply(s) && FreshResponse(s) && FreshReadings(s)
  }

  lemma FreshReplyStep(s: State, e: Event)
    requires Sized(s) && Counters(s) && Resets(s) && FreshReply(s) && Enabled(s, e) && !Unclean(s, e)
    ensures FreshReply(Next(s, e))
  {
    assert PastReplyReset(s.phase) ==> s.replyResetAt < |s.trace|;
    RecordAfter(s, e);
    PhaseAfter(s, e);
    ReplyAfter(s, e);
    hide Resets, Act, Enabled, Copies, CmdId, Status, RequestId;
  }

  lemma FreshResponseStep(s: State, e: Event)
    requires Sized(s) && Counters(s) && Resets(s) && FreshResponse(s) && Enabled(s, e) && !Unclean(s, e)
    ensures FreshResponse(Next(s, e))
  {
    assert PastResponseReset(s.phase) ==> s.responseResetAt < |s.trace|;
    RecordAfter(s, e);
    PhaseAfter(s, e);
    ResponseAfter(s, e);
    ResetResponseAfter(s, e);
    hide Resets, Act, Enabled, Copies, CmdId, Status, RequestId;
  }

  lemma FreshReadingsStep(s: State, e: Event)
    requires Sized(s) && FreshReply(s) && FreshResponse(s) && FreshReadings(s) && Enabled(s, e)
    ensures FreshReadings(Next(s, e))
  {
    RecordAfter(s, e);
    PhaseAfter(s, e);
    ResetResponseAfter(s, e);
    hide Act, Enabled, CmdId, Status, RequestId;
  }

  /** A new command starts with nothing to be fresh. */
  lemma CleanAfter(s: State, e: Event)
    requires Sized(s) && Enabled(s, e)
    ensures Next(s, e).clean <==> e.Begin? || (s.clean && !Unclean(s, e))
    ensures e.Begin? ==> Fresh(Next(s, e))
  {
    hide Classify, Get16, CmdId, Status, RequestId;
  }

  lemma FreshStep(s: State, e: Event)
    requires Inv(s) && Fresh(s) && Enabled(s, e)
    ensures Fresh(Next(s, e))
  {
    hide Act, Counters, Sources, Resets, ReplyDone, ResponseDone, IdReading, StatusReading, RequestReading, FreshReply, FreshResponse, FreshReadings;
    CleanAfter(s, e);
    if !e.Begin? && s.clean && !Unclean(s, e) {
      FreshReplyStep(s, e);
      FreshResponseStep(s, e);
      FreshReadingsStep(s, e);
    }
  }

  lemma {:induction false} FreshRun(s: State, run: seq<Event>)
    requires Inv(s) && Fresh(s) && IsRun(s, run)
    ensures Fresh(Exec(s, run))
    decreases |run|
  {
    hide Act, Counters, Sources, Resets, ReplyDone, ResponseDone, IdReading, StatusReading, RequestReading, Enabled, Fresh;
    if run != [] {
      InvStep(s, run[0]);
      FreshStep(s, run[0]);
      FreshRun(Next(s, run[0]), run[1..]);
    }
  }

  /**
   Over every interleaving: if neither reset of a successful command came while the callback still had
   to complete a message of that kind with the command's own id, then every message the command read
   from arrived after the reset that is meant to forget the earlier ones.
   */
  lemma CommandReadsFreshMessages(run: seq<Event>)
    requires IsRun(Start(), run)
    ensures var s := Exec(Start(), run);
            s.phase == Leaving(0) && s.clean ==>
              s.replyResetAt < s.idFrom && s.replyResetAt < s.statusFrom && s.responseResetAt < s.requestFrom
  {
    InvStart();
    FreshRun(Start(), run);
    hide IsRun, Exec, Start;
  }

  // The driver, whose every step is one of the machine's.

  /** Some run leads from `s` to `t`. */
  ghost predicate Reaches(s: State, t: State)
    requires Sized(s)
  {
    exists run: seq<Event> :: IsRun(s, run) && Exec(s, run) == t
  }

  ghost predicate Reached(t: State) {
    Reaches(Start(), t)
  }

  lemma Here(s: State)
    requires Sized(s)
    ensures Reaches(s, s)
  {
    var none: seq<Event> := [];
    assert IsRun(s, none) && Exec(s, none) == s;
  }

  lemma {:induction false} Then(s: State, run: seq<Event>, t: State, e: Event)
    requires Sized(s) && IsRun(s, run) && Exec(s, run) == t && Enabled(t, e)
    ensures IsRun(s, run + [e]) && Exec(s, run + [e]) == Next(t, e)
    decreases |run|
  {
    hide Act, Enabled;
    if run == [] {
      assert run + [e] == [e] && [e][1..] == [];
    } else {
      Then(Next(s, run[0]), run[1..], t, e);
      assert (run + [e])[1..] == run[1..] + [e];
    }
  }

  /** One step further. */
  lemma Go(s: State, t: State, e: Event)
    requires Sized(s) && Sized(t) && Reaches(s, t) && Enabled(t, e)
    ensures Reaches(s, Next(t, e))
  {
    hide Act, Enabled, IsRun, Exec;
    var run :| IsRun(s, run) && Exec(s, run) == t;
    Then(s, run, t, e);
  }

  /** What a successful command has seen. */
  ghost predicate Fulfilled(s: State) {
    && s.responseResetAt < s.replyResetAt < s.replyDoneAt < |s.trace| && s.responseResetAt < s.responseDoneAt < |s.trace|
    && ReadAt(s.trace, Reply, s.idFrom, s.idAt, ReadId) && CmdId(s.trace[s.idFrom].buf) == s.cmd as int
    && ReadAt(s.trace, Reply, s.statusFrom, s.statusAt, ReadStatus) && Status(s.trace[s.statusFrom].buf) == 0
    && ReadAt(s.trace, Response, s.requestFrom, s.requestAt, ReadRequestId) && RequestId(s.trace[s.requestFrom].buf) == s.cmd as int
    && (s.clean ==> s.replyResetAt < s.idFrom && s.replyResetAt < s.statusFrom && s.responseResetAt < s.requestFrom)
  }

  lemma ReachedFulfils(s: State)
    requires Reached(s) && s.phase == Leaving(0)
    ensures Fulfilled(s)
  {
    hide IsRun, Exec, Fulfilled;
    var run :| IsRun(Start(), run) && Exec(Start(), run) == s;
    RunFulfils(run);
  }

  lemma RunFulfils(run: seq<Event>)
    requires IsRun(Start(), run) && Exec(Start(), run).phase == Leaving(0)
    ensures Fulfilled(Exec(Start(), run))
  {
    hide IsRun, Exec, Inv, ReadAt, CmdId, Status, RequestId, CopyAt;
    CommandCompleted(run);
    CommandReadsFreshMessages(run);
    InvStart();
    InvRun(Start(), run);
    assert Start().trace + run == run;
    hide Start;
  }

  lemma ReachedInv(s: State)
    requires Reached(s)
    ensures Inv(s)
  {
    hide IsRun, Exec, Counters, Sources, Resets, ReplyDone, ResponseDone, IdReading, StatusReading, RequestReading;
    var run :| IsRun(Start(), run) && Exec(Start(), run) == s;
    InvStart();
    InvRun(Start(), run);
  }

  class MeiAce {
    // the result of the k-th send, of the k-th wait that nothing completes, and the callback's turns in the
    // k-th pause, each with what it gets should it be idle then
    const sending: nat -> int
    const waiting: nat -> int
    const turns: nat -> seq<(seq<byte>, int)>
    var ticks: nat
    var replies: nat
    var responses: nat
    var replyNotif: seq<byte>
    var cmdResp: seq<byte>
    var moduleId: u16
    var woken: bool
    var rx: Rx
    ghost var s: State

    ghost predicate Valid()
      reads this
    {
      && Sized(s) && Reached(s) && s.rx == rx
      && s.reply == replies && s.response == responses && s.replyBuf == replyNotif && s.respBuf == cmdResp
      && s.moduleId == moduleId && s.woken == woken && TurnsFit()
    }

    ghost predicate TurnsFit() {
      forall k, i :: 0 <= i < |turns(k)| ==> |turns(k)[i].0| == NOTIF_SIZE && turns(k)[i].1 <= NOTIF_SIZE
    }

    constructor (sending: nat -> int, waiting: nat -> int, turns: nat -> seq<(seq<byte>, int)>)
      requires forall k, i :: 0 <= i < |turns(k)| ==> |turns(k)[i].0| == NOTIF_SIZE && turns(k)[i].1 <= NOTIF_SIZE
      ensures Valid() && s == Start()
    {
      this.sending, this.waiting, this.turns := sending, waiting, turns;
      ticks, replies, responses, moduleId, woken, rx := 0, 0, 0, 0, false, Idle;
      replyNotif, cmdResp := Zeros(NOTIF_SIZE), Zeros(NOTIF_SIZE);
      s := Start();
      Here(Start());
    }

    /** The machine takes a step. */
    ghost method Advance(e: Event)
      requires Sized(s) && Reached(s) && Enabled(s, e)
      modifies this`s
      ensures s == Next(old(s), e) && Reached(s)
    {
      hide Reaches, Act, Enabled;
      Go(Start(), s, e);
      s := Next(s, e);
    }

    /** The callback takes what was received to its place. */
    method Copy(buf: seq<byte>, len: int)
      requires Valid() && rx == Idle && |buf| == NOTIF_SIZE && len <= NOTIF_SIZE
      modifies this`moduleId, this`woken, this`replyNotif, this`cmdResp, this`rx, this`s
      ensures Valid() && s.phase == old(s.phase) && s.cmd == old(s.cmd)
      ensures rx == if len >= HDR_SIZE && Classify(buf) in {Reply, Response} then Copied(Classify(buf)) else Idle
      ensures replyNotif == if rx == Copied(Reply) then buf[..len] + old(replyNotif[len..]) else old(replyNotif)
      ensures cmdResp == if rx == Copied(Response) then buf[..len] + old(cmdResp[len..]) else old(cmdResp)
      ensures if len >= HDR_SIZE && Classify(buf) == FwId then woken && moduleId == Get16(buf, HDR_SIZE)
              else woken == old(woken) && moduleId == old(moduleId)
    {
      hide Classify, Get16, Reached, CmdId, Status, RequestId, TurnsFit;
      Advance(RxCopy(buf, len));
      if len < HDR_SIZE {
        return;
      }
      match Classify(buf) {
        case FwId =>
          moduleId, woken := Get16(buf, HDR_SIZE), true;
        case Reply =>
          replyNotif, rx := buf[..len] + replyNotif[len..], Copied(Reply);
        case Response =>
          cmdResp, rx := buf[..len] + cmdResp[len..], Copied(Response);
        case Ignored =>
      }
    }

    /** completion_done() on the message's completion. */
    method Look()
      requires Valid() && rx.Copied?
      modifies this`rx, this`s
      ensures Valid() && s.phase == old(s.phase) && s.cmd == old(s.cmd)
      ensures rx == if (if old(rx.kind) == Reply then replies else responses) > 0 then Idle else Completing(old(rx.kind))
    {
      hide Classify, Get16, Reached, CmdId, Status, RequestId, TurnsFit;
      Advance(RxCheck);
      rx := if (if rx.kind == Reply then replies else responses) > 0 then Idle else Completing(rx.kind);
    }

    /** And complete(). */
    method Complete()
      requires Valid() && rx.Completing?
      modifies this`rx, this`replies, this`responses, this`s
      ensures Valid() && s.phase == old(s.phase) && s.cmd == old(s.cmd) && rx == Idle
      ensures replies == if old(rx) == Completing(Reply) then 1 else old(replies)
      ensures responses == if old(rx) == Completing(Response) then 1 else old(responses)
    {
      ReachedInv(s);
      assert Counters(s);
      hide Classify, Get16, Reached, CmdId, Status, RequestId, TurnsFit, Inv;
      Advance(RxComplete);
      if rx.kind == Reply {
        replies := replies + 1;
      } else {
        responses := responses + 1;
      }
      rx := Idle;
    }

    /** The message copied is completed, unless its completion is done already. */
    method Signal()
      requires Valid() && rx.Copied?
      modifies this`rx, this`replies, this`responses, this`s
      ensures Valid() && s.phase == old(s.phase) && s.cmd == old(s.cmd) && rx == Idle
      ensures if old(rx.kind) == Reply then replies == 1 && responses == old(responses) else responses == 1 && replies == old(replies)
    {
      ReachedInv(s);
      assert Counters(s);
      hide Classify, Get16, Reached, CmdId, Status, RequestId, TurnsFit, Inv;
      Look();
      if rx.Completing? {
        Complete();
      }
    }

    /** mei_ace_rx with handle_notify, undisturbed, on the bytes received into its buffer. */
    method Receive(buf: seq<byte>, len: int)
      requires Valid() && rx == Idle && |buf| == NOTIF_SIZE && len <= NOTIF_SIZE
      modifies this
      ensures Valid() && rx == Idle && ticks == old(ticks) && s.phase == old(s.phase) && s.cmd == old(s.cmd)
      ensures len >= HDR_SIZE && AnswersFwId(buf) ==> woken && moduleId as int == buf[8] as int + 0x100 * (buf[9] as int)
      ensures len < HDR_SIZE || !AnswersFwId(buf) ==> woken == old(woken) && moduleId == old(moduleId)
      ensures len >= HDR_SIZE && AnswersCommand(buf) ==> replies == 1 && replyNotif == buf[..len] + old(replyNotif[len..])
      ensures len < HDR_SIZE || !AnswersCommand(buf) ==> replies == old(replies) && replyNotif == old(replyNotif)
      ensures len >= HDR_SIZE && NotifiesControl(buf) ==> responses == 1 && cmdResp == buf[..len] + old(cmdResp[len..])
      ensures len < HDR_SIZE || !NotifiesControl(buf) ==> responses == old(responses) && cmdResp == old(cmdResp)
    {
      ByTheBits(buf);
      hide Classify, Reached, CmdId, Status, RequestId, TurnsFit, AnswersFwId, AnswersCommand, NotifiesControl;
      Copy(buf, len);
      if rx.Copied? {
        Signal();
      }
    }

    /** The callback takes its next step, which is to receive this message if it is idle. */
    method Turn(buf: seq<byte>, len: int)
      requires Valid() && |buf| == NOTIF_SIZE && len <= NOTIF_SIZE
      modifies this
      ensures Valid() && s.phase == old(s.phase) && s.cmd == old(s.cmd) && ticks == old(ticks)
    {
      hide Classify, Get16, Reached, CmdId, Status, RequestId, TurnsFit;
      match rx {
        case Idle => Copy(buf, len);
        case Copied(_) => Look();
        case Completing(_) => Complete();
      }
    }

    /** Whatever the callback gets to do before the sender's next step. It may be left in the middle of a message. */
    method Pause()
      requires Valid()
      modifies this
      ensures Valid() && s.phase == old(s.phase) && s.cmd == old(s.cmd)
    {
      var steps := turns(ticks);
      for i := 0 to |steps|
        invariant Valid() && s.phase == old(s.phase) && s.cmd == old(s.cmd) && ticks == old(ticks)
      {
        Turn(steps[i].0, steps[i].1);
      }
      ticks := ticks + 1;
    }

    /** Both completions are reset. */
    method Reset()
      requires Valid() && s.phase == Begun
      modifies this
      ensures Valid() && s.cmd == old(s.cmd) && s.phase == ReplyReset
    {
      hide Reached, Classify, Get16, CmdId, Status, RequestId, TurnsFit;
      Pause();
      responses := 0;
      Advance(ResetResponse);
      Pause();
      replies := 0;
      Advance(ResetReply);
    }

    /** The command is sent. */
    method Issue() returns (ret: int)
      requires Valid() && s.phase == Begun
      modifies this
      ensures Valid() && s.cmd == old(s.cmd) && s.phase == if ret < 0 then Leaving(ret) else Sent
    {
      hide Reached, Classify, Get16, CmdId, Status, RequestId, TurnsFit;
      Reset();
      Pause();
      ret := sending(ticks);
      Advance(Send(ret));
    }

    /** The reply is awaited. */
    method AwaitReply() returns (ret: int)
      requires Valid() && s.phase == Sent
      modifies this
      ensures Valid() && s.cmd == old(s.cmd) && s.phase == if ret != 0 then Leaving(ret) else Replied
    {
      hide Reached, Classify, Get16, CmdId, Status, RequestId, TurnsFit;
      Pause();
      var wait := waiting(ticks);
      Advance(WaitReply(wait));
      if replies == 0 {
        return if wait < 0 then wait else ETIMEDOUT;
      }
      replies := replies - 1;
      ret := 0;
    }

    /** Its id and its status are read, the callback free to overwrite it in between. */
    method JudgeReply(cmd: byte) returns (ret: int)
      requires Valid() && s.phase == Replied && s.cmd == cmd
      modifies this
      ensures Valid() && s.cmd == old(s.cmd) && s.phase == if ret != 0 then Leaving(ret) else StatusRead
    {
      hide Reached, Classify, Get16, CmdId, Status, RequestId, TurnsFit;
      Pause();
      Advance(ReadId);
      if CmdId(replyNotif) != cmd as int {
        return -1;
      }
      Pause();
      Advance(ReadStatus);
      if Status(replyNotif) != 0 {
        return -1;
      }
      ret := 0;
    }

    /** The response: awaited, then its id read. */
    method AwaitResponse(cmd: byte) returns (ret: int)
      requires Valid() && s.phase == StatusRead && s.cmd == cmd
      modifies this
      ensures Valid() && s.cmd == old(s.cmd) && s.phase == Leaving(ret)
    {
      hide Reached, Classify, Get16, CmdId, Status, RequestId, TurnsFit;
      Pause();
      var wait := waiting(ticks);
      Advance(WaitResponse(wait));
      if responses == 0 {
        return if wait < 0 then wait else ETIMEDOUT;
      }
      responses := responses - 1;
      Pause();
      Advance(ReadRequestId);
      return if RequestId(cmdResp) != cmd as int then -1 else 0;
    }

    /** send_command_sync. */
    method SendCommandSync(cmd: byte) returns (ret: int)
      requires Valid() && s.phase == Begun && s.cmd == cmd
      modifies this
      ensures Valid() && s.cmd == cmd && s.phase == Leaving(ret)
      ensures ret == 0 ==> Fulfilled(s)
    {
      hide Reached, Fulfilled;
      ret := Issue();
      if ret < 0 {
        return;
      }
      ret := AwaitReply();
      if ret != 0 {
        return;
      }
      ret := JudgeReply(cmd);
      if ret != 0 {
        return;
      }
      ret := AwaitResponse(cmd);
      if ret == 0 {
        ReachedFulfils(s);
      }
    }

    /** set_camera_ownership: one command under the mutex, the camera's status taken from the response buffer. */
    method SetCameraOwnership(cmd: byte) returns (ret: int, status: seq<byte>)
      requires Valid() && s.phase == Free
      modifies this
      ensures Valid() && s.phase == Free && s.cmd == cmd
      ensures ret == 0 ==> Fulfilled(s) && status == cmdResp[HDR_SIZE..HDR_SIZE + CAMERA_STATUS_SIZE]
    {
      hide Reached, ReadAt, CmdId, Status, RequestId, Classify, Get16;
      Advance(Begin(cmd));
      ret := SendCommandSync(cmd);
      status := if ret == 0 then cmdResp[HDR_SIZE..HDR_SIZE + CAMERA_STATUS_SIZE] else [];
      ghost var was := s;
      Advance(Leave);
      if ret == 0 {
        LeaveFulfils(was);
      }
    }
  }

  lemma LeaveFulfils(s: State)
    requires Sized(s) && Fulfilled(s) && Enabled(s, Leave)
    ensures Fulfilled(Next(s, Leave))
  {
    ReadAtStays(s.trace, Leave, Reply, s.idFrom, s.idAt, ReadId);
    ReadAtStays(s.trace, Leave, Reply, s.statusFrom, s.statusAt, ReadStatus);
    ReadAtStays(s.trace, Leave, Response, s.requestFrom, s.requestAt, ReadRequestId);
    hide ReadAt, CmdId, Status, RequestId;
  }

  // Messages made for the runs below.

  function MakeReply(cmd: byte, status: u16): (b: seq<byte>)
    ensures |b| == NOTIF_SIZE
  {
    Le32(0x2000_0000 + status) + Le32(cmd as int * 0x10_0000) + Zeros(6)
  }

  function MakeResponse(cmd: byte): (b: seq<byte>)
    ensures |b| == NOTIF_SIZE
  {
    Le32(NOTIFICATION * 0x100_0000 + MANAGEMENT_NOTIF * 0x1_0000 + CTRL_NOTIF) + Le32(cmd as int * 0x40_0000) + Zeros(6)
  }

  lemma TwoWords(a: u32, b: u32)
    ensures var m := Le32(a) + Le32(b) + Zeros(6); |m| == NOTIF_SIZE && Word(m, 0) == a && Word(m, 1) == b
  {
    var m := Le32(a) + Le32(b) + Zeros(6);
    assert Holds(m, 0, Le32(a)) && Holds(m, 4, Le32(b));
    Get32Holds(m, 0, a);
    Get32Holds(m, 4, b);
  }

  lemma MakeReplyReads(cmd: byte, status: u16)
    requires cmd != GET_FW_ID
    ensures var b := MakeReply(cmd, status); Classify(b) == Reply && CmdId(b) == cmd as int && Status(b) == status
  {
    TwoWords(0x2000_0000 + status, cmd as int * 0x10_0000);
    hide Word, Le32, Zeros;
    var w := 0x2000_0000 + status;
    assert w / 0x2000_0000 == 1;
  }

  /** The commands the driver gives this way. */
  predicate Given(cmd: byte) {
    cmd in {IPU_OWN_CAMERA, ACE_OWN_CAMERA, GET_CAMERA_STATUS}
  }

  lemma MakeResponseReads(cmd: byte)
    requires Given(cmd)
    ensures var b := MakeResponse(cmd); Classify(b) == Response && RequestId(b) == cmd as int
  {
    TwoWords(NOTIFICATION * 0x100_0000 + MANAGEMENT_NOTIF * 0x1_0000 + CTRL_NOTIF, cmd as int * 0x40_0000);
    hide Word, Le32, Zeros;
    assert (cmd as int * 0x40_0000) / 0x40_0000 == cmd as int;
    assert Word(MakeResponse(cmd), 0) == 0x1B10_0002;
  }

  /** The callback's steps for one message, the completion being done already or not. */
  function Handled(done: bool, buf: seq<byte>): seq<Event> {
    [RxCopy(buf, NOTIF_SIZE), RxCheck] + if done then [] else [RxComplete]
  }

  lemma TakeReply(o: State, s: State, buf: seq<byte>) returns (s': State)
    requires Sized(o) && Sized(s) && Reaches(o, s) && s.rx == Idle && s.reply == 0 && |buf| == NOTIF_SIZE && Classify(buf) == Reply
    ensures Sized(s') && Reaches(o, s')
    ensures s' == s.(reply := 1, replyBuf := buf, replyFrom := |s.trace|, replyDoneAt := |s.trace| + 2,
                     trace := s.trace + Handled(false, buf))
  {
    hide Reaches, Classify, CmdId, Status, RequestId;
    Go(o, s, RxCopy(buf, NOTIF_SIZE));
    var s1 := Next(s, RxCopy(buf, NOTIF_SIZE));
    Go(o, s1, RxCheck);
    var s2 := Next(s1, RxCheck);
    Go(o, s2, RxComplete);
    s' := Next(s2, RxComplete);
    assert buf[..NOTIF_SIZE] + s.replyBuf[NOTIF_SIZE..] == buf;
    assert s'.trace == s.trace + Handled(false, buf);
  }

  lemma TakeResponse(o: State, s: State, buf: seq<byte>) returns (s': State)
    requires Sized(o) && Sized(s) && Reaches(o, s) && s.rx == Idle && s.response <= 1 && |buf| == NOTIF_SIZE && Classify(buf) == Response
    ensures Sized(s') && Reaches(o, s')
    ensures s' == s.(response := 1, respBuf := buf, respFrom := |s.trace|,
                     responseDoneAt := if s.response == 1 then s.responseDoneAt else |s.trace| + 2,
                     trace := s.trace + Handled(s.response == 1, buf))
  {
    hide Reaches, Classify, CmdId, Status, RequestId;
    Go(o, s, RxCopy(buf, NOTIF_SIZE));
    var s1 := Next(s, RxCopy(buf, NOTIF_SIZE));
    assert buf[..NOTIF_SIZE] + s.respBuf[NOTIF_SIZE..] == buf;
    Go(o, s1, RxCheck);
    s' := Next(s1, RxCheck);
    if s.response == 0 {
      Go(o, s', RxComplete);
      s' := Next(s', RxComplete);
    }
    assert s'.trace == s.trace + Handled(s.response == 1, buf);
  }

  /** A step of the sender. */
  lemma Step(o: State, s: State, e: Event) returns (s': State)
    requires Sized(o) && Sized(s) && Reaches(o, s) && Enabled(s, e)
    ensures Sized(s') && Reaches(o, s') && s' == Next(s, e)
  {
    hide Reaches, Act, Enabled;
    Go(o, s, e);
    s' := Next(s, e);
  }

  /** A response with the command's id ends it well. */
  lemma GoodResponse(o: State, s: State, response: seq<byte>) returns (t: State)
    requires Sized(o) && Sized(s) && Reaches(o, s) && s.phase == StatusRead && s.rx == Idle && s.response <= 1
    requires |response| == NOTIF_SIZE && Classify(response) == Response && RequestId(response) == s.cmd as int
    ensures Sized(t) && Reaches(o, t) && t.phase == Leaving(0) && t.cmd == s.cmd && t.clean == s.clean
    ensures t.idFrom == s.idFrom && t.statusFrom == s.statusFrom && t.replyResetAt == s.replyResetAt
    ensures t.trace == s.trace + Handled(s.response == 1, response) + [WaitResponse(0), ReadRequestId]
  {
    hide Reaches, Classify, Get16, CmdId, Status, RequestId, Handled;
    t := TakeResponse(o, s, response);
    t := Step(o, t, WaitResponse(0));
    t := Step(o, t, ReadRequestId);
    assert t.trace == s.trace + Handled(s.response == 1, response) + [WaitResponse(0), ReadRequestId];
  }

  /** The command goes out, the completions reset before it. */
  lemma GoesOut(o: State, s: State) returns (t: State)
    requires Sized(o) && Sized(s) && Reaches(o, s) && s.phase == Begun && s.rx == Idle
    ensures Sized(t) && Reaches(o, t) && t.phase == Sent && t.rx == Idle && t.cmd == s.cmd
    ensures t.reply == 0 && t.response == 0 && t.clean == s.clean
    ensures t.trace == s.trace + [ResetResponse, ResetReply, Send(0)]
  {
    hide Reaches, Classify, Get16, CmdId, Status, RequestId;
    t := Step(o, s, ResetResponse);
    t := Step(o, t, ResetReply);
    t := Step(o, t, Send(0));
    assert t.trace == s.trace + [ResetResponse, ResetReply, Send(0)];
  }

  /** Its reply comes, with its own id and a zero status. */
  lemma ReplyIsGood(o: State, s: State, reply: seq<byte>) returns (t: State)
    requires Sized(o) && Sized(s) && Reaches(o, s) && s.phase == Sent && s.rx == Idle && s.reply == 0
    requires |reply| == NOTIF_SIZE && Classify(reply) == Reply && CmdId(reply) == s.cmd as int && Status(reply) == 0
    ensures Sized(t) && Reaches(o, t) && t.phase == StatusRead && t.rx == Idle && t.cmd == s.cmd && t.response == s.response && t.clean == s.clean
    ensures t.trace == s.trace + Handled(false, reply) + [WaitReply(0), ReadId, ReadStatus]
  {
    hide Reaches, Classify, Get16, CmdId, Status, RequestId, Handled;
    t := TakeReply(o, s, reply);
    t := Step(o, t, WaitReply(0));
    t := Step(o, t, ReadId);
    t := Step(o, t, ReadStatus);
    assert t.trace == s.trace + Handled(false, reply) + [WaitReply(0), ReadId, ReadStatus];
  }

  /**
   In the ordinary course a command succeeds: sent and answered in time by any reply with its command
   field and a zero status, and any control notification with its request field, it returns zero.
   */
  lemma OrdinaryCommandSucceeds(s: State, reply: seq<byte>, response: seq<byte>) returns (t: State)
    requires Sized(s) && s.phase == Begun && s.rx == Idle && |reply| == |response| == NOTIF_SIZE
    requires AnswersCommand(reply) && CommandField(reply) == s.cmd as int && reply[0] == reply[1] == reply[2] == 0
    requires NotifiesControl(response) && RequestField(response) == s.cmd as int
    ensures Sized(t) && Reaches(s, t) && t.phase == Leaving(0)
    ensures t.trace == s.trace + [ResetResponse, ResetReply, Send(0)]
                       + Handled(false, reply) + [WaitReply(0), ReadId, ReadStatus]
                       + Handled(false, response) + [WaitResponse(0), ReadRequestId]
  {
    ByTheBits(reply);
    ByTheBits(response);
    Here(s);
    hide Reaches, Classify, CmdId, Status, RequestId, Handled, AnswersCommand, NotifiesControl;
    t := GoesOut(s, s);
    t := ReplyIsGood(s, t, reply);
    t := GoodResponse(s, t, response);
  }

  // A reset that is not clean can be followed by a success on the message it should have forgotten.

  /** The callback completes the reply it has copied. */
  lemma FinishReply(o: State, s: State) returns (s': State)
    requires Sized(o) && Sized(s) && Reaches(o, s) && Busy(s.rx, Reply) && s.reply == 0
    ensures Sized(s') && Reaches(o, s')
    ensures s' == s.(reply := 1, rx := Idle, replyDoneAt := |s'.trace| - 1, trace := s'.trace)
  {
    hide Reaches, Classify, Get16, CmdId, Status, RequestId;
    s' := s;
    if s'.rx.Copied? {
      s' := Step(o, s', RxCheck);
    }
    s' := Step(o, s', RxComplete);
  }

  lemma FinishResponse(o: State, s: State) returns (s': State)
    requires Sized(o) && Sized(s) && Reaches(o, s) && Busy(s.rx, Response) && s.response == 0
    ensures Sized(s') && Reaches(o, s')
    ensures s' == s.(response := 1, rx := Idle, responseDoneAt := |s'.trace| - 1, trace := s'.trace)
  {
    hide Reaches, Classify, Get16, CmdId, Status, RequestId;
    s' := s;
    if s'.rx.Copied? {
      s' := Step(o, s', RxCheck);
    }
    s' := Step(o, s', RxComplete);
  }

  /** The command goes out and its reply is there. */
  lemma OnToReply(o: State, s: State) returns (t: State)
    requires Sized(o) && Sized(s) && Reaches(o, s) && s.phase == ReplyReset && s.reply == 1
    ensures Sized(t) && Reaches(o, t) && t == s.(phase := Replied, reply := 0, trace := s.trace + [Send(0), WaitReply(0)])
  {
    hide Reaches, Classify, Get16, CmdId, Status, RequestId;
    t := Step(o, s, Send(0));
    t := Step(o, t, WaitReply(0));
    assert t.trace == s.trace + [Send(0), WaitReply(0)];
  }

  /** With a complete reply of its own id the command gets on, whatever the reply's status: another may come. */
  lemma OnToStatus(o: State, s: State) returns (t: State)
    requires Sized(o) && Sized(s) && Reaches(o, s) && s.phase == ReplyReset && s.rx == Idle && s.reply == 1
    requires CmdId(s.replyBuf) == s.cmd as int
    ensures Sized(t) && Reaches(o, t) && t.phase == StatusRead && t.rx == Idle && t.cmd == s.cmd && t.clean == s.clean
    ensures t.response == s.response && t.respBuf == s.respBuf && t.respFrom == s.respFrom
    ensures t.replyResetAt == s.replyResetAt && t.responseResetAt == s.responseResetAt
    ensures t.idFrom == s.replyFrom && (Status(s.replyBuf) == 0 ==> t.statusFrom == s.replyFrom)
  {
    MakeReplyReads(ACE_OWN_CAMERA, 0);
    hide Reaches, MakeReply, Classify, Get16, CmdId, Status, RequestId, Handled;
    t := OnToReply(o, s);
    t := Step(o, t, ReadId);
    if Status(s.replyBuf) != 0 {
      t := TakeReply(o, t, MakeReply(ACE_OWN_CAMERA, 0));
    }
    t := Step(o, t, ReadStatus);
  }

  lemma StaleReplyPasses(s: State) returns (t: State)
    requires Inv(s) && Enabled(s, ResetReply) && Unclean(s, ResetReply) && Given(s.cmd)
    ensures Sized(t) && Reaches(Next(s, ResetReply), t) && t.phase == Leaving(0)
    ensures t.idFrom == s.replyFrom < t.replyResetAt
    ensures Status(s.replyBuf) == 0 ==> t.statusFrom == s.replyFrom
  {
    MakeResponseReads(s.cmd);
    hide Reaches, MakeResponse, Classify, Get16, CmdId, Status, RequestId, Resets, ReplyDone, ResponseDone, IdReading, StatusReading, RequestReading;
    var o := Next(s, ResetReply);
    Here(o);
    t := FinishReply(o, o);
    t := OnToStatus(o, t);
    t := GoodResponse(o, t, MakeResponse(s.cmd));
  }

  lemma StaleResponsePasses(s: State) returns (t: State)
    requires Inv(s) && Enabled(s, ResetResponse) && Unclean(s, ResetResponse) && Given(s.cmd)
    ensures Sized(t) && Reaches(Next(s, ResetResponse), t) && t.phase == Leaving(0)
    ensures t.requestFrom == s.respFrom < t.responseResetAt
  {
    hide Reaches, Classify, Get16, CmdId, Status, RequestId, Resets, ReplyDone, ResponseDone, IdReading, StatusReading, RequestReading;
    var o := Next(s, ResetResponse);
    Here(o);
    t := FinishResponse(o, o);
    t := GoodReply(o, t);
    t := OldResponse(o, t);
  }

  /** A reply with the command's id and status zero comes after the reset. */
  lemma GoodReply(o: State, s: State) returns (t: State)
    requires Sized(o) && Sized(s) && Reaches(o, s) && s.phase == ResponseReset && s.rx == Idle && s.cmd != GET_FW_ID
    ensures Sized(t) && Reaches(o, t) && t.phase == StatusRead && t.rx == Idle && t.cmd == s.cmd
    ensures t.response == s.response && t.respBuf == s.respBuf && t.respFrom == s.respFrom && t.responseResetAt == s.responseResetAt
  {
    MakeReplyReads(s.cmd, 0);
    hide Reaches, MakeReply, Handled, Classify, Get16, CmdId, Status, RequestId;
    t := Step(o, s, ResetReply);
    t := TakeReply(o, t, MakeReply(s.cmd, 0));
    t := OnToStatus(o, t);
  }

  /** The response that is already there ends it well. */
  lemma OldResponse(o: State, s: State) returns (t: State)
    requires Sized(o) && Sized(s) && Reaches(o, s) && s.phase == StatusRead && s.response == 1 && RequestId(s.respBuf) == s.cmd as int
    ensures Sized(t) && Reaches(o, t) && t.phase == Leaving(0)
    ensures t.requestFrom == s.respFrom && t.responseResetAt == s.responseResetAt
  {
    hide Reaches, Classify, Get16, CmdId, Status, RequestId;
    t := Step(o, s, WaitResponse(0));
    t := Step(o, t, ReadRequestId);
  }

  /**
   And only clean resets will do: wherever an unclean one comes, the command can go on from there to
   return zero on the reply, or the response, that was copied before the reset.
   */
  lemma UncleanResetPasses(s: State, e: Event) returns (t: State)
    requires Inv(s) && Enabled(s, e) && Unclean(s, e) && Given(s.cmd)
    ensures Sized(t) && Reaches(Next(s, e), t) && t.phase == Leaving(0)
    ensures if e.ResetReply? then t.idFrom == s.replyFrom < t.replyResetAt else t.requestFrom == s.respFrom < t.responseResetAt
  {
    NotClean(s, e);
    hide Inv, Unclean, Reaches;
    if e.ResetReply? {
      t := StaleReplyPasses(s);
    } else {
      t := StaleResponsePasses(s);
    }
  }

  lemma NotClean(s: State, e: Event)
    requires Sized(s) && Unclean(s, e)
    ensures e.ResetReply? || e.ResetResponse?
  {
  }

  /**
   Such a reset can come: the callback has copied a late reply to the same command when the next one
   starts, and completes it after the reset. Id and status both are that reply's.
   */
  lemma LateReplyPasses() returns (s: State, t: State)
    ensures Sized(s) && Reached(s) && Enabled(s, ResetReply) && Unclean(s, ResetReply)
    ensures Sized(t) && Reaches(Next(s, ResetReply), t) && t.phase == Leaving(0)
    ensures t.idFrom == t.statusFrom < t.replyResetAt
  {
    var cmd := IPU_OWN_CAMERA;
    var late := MakeReply(cmd, 0);
    MakeReplyReads(cmd, 0);
    Here(Start());
    hide Reaches, MakeReply, Classify, Get16, CmdId, Status, RequestId;
    s := Step(Start(), Start(), RxCopy(late, NOTIF_SIZE));
    assert s.replyBuf == late by {
      assert late[..NOTIF_SIZE] + Start().replyBuf[NOTIF_SIZE..] == late;
    }
    s := Step(Start(), s, Begin(cmd));
    s := Step(Start(), s, ResetResponse);
    ReachedInv(s);
    hide Inv;
    t := StaleReplyPasses(s);
  }

  // The reply's id and its status can come from two messages.

  /** No reply in the trace carries both the command's id and a zero status. */
  ghost predicate NoGoodReply(trace: seq<Event>, cmd: byte) {
    forall k :: CopyAt(trace, k, Reply) ==> !(CmdId(trace[k].buf) == cmd as int && Status(trace[k].buf) == 0)
  }

  lemma NoGoodSnoc(trace: seq<Event>, e: Event, cmd: byte)
    requires NoGoodReply(trace, cmd)
    requires Copies(e, Reply) ==> !(CmdId(e.buf) == cmd as int && Status(e.buf) == 0)
    ensures NoGoodReply(trace + [e], cmd)
  {
    hide Classify, CmdId, Status;
    forall k | CopyAt(trace + [e], k, Reply)
      ensures !(CmdId((trace + [e])[k].buf) == cmd as int && Status((trace + [e])[k].buf) == 0)
    {
      assert k < |trace| ==> CopyAt(trace, k, Reply);
    }
  }

  lemma {:induction false} NoGoodMore(trace: seq<Event>, more: seq<Event>, cmd: byte)
    requires NoGoodReply(trace, cmd)
    requires forall k :: 0 <= k < |more| ==> Copies(more[k], Reply) ==> !(CmdId(more[k].buf) == cmd as int && Status(more[k].buf) == 0)
    ensures NoGoodReply(trace + more, cmd)
    decreases |more|
  {
    hide CmdId, Status, Copies, NoGoodReply;
    if more == [] {
      assert trace + more == trace;
    } else {
      NoGoodSnoc(trace, more[0], cmd);
      NoGoodMore(trace + [more[0]], more[1..], cmd);
      assert trace + more == trace + [more[0]] + more[1..];
    }
  }

  /** The command has read its own id from a reply whose status is not zero. */
  lemma UpToId(cmd: byte) returns (s: State)
    requires cmd != GET_FW_ID
    ensures Sized(s) && Reached(s) && s.phase == IdRead && s.cmd == cmd && s.clean && s.rx == Idle && s.reply == 0 && s.response == 0
    ensures s.trace == [Begin(cmd), ResetResponse, ResetReply] + Handled(false, MakeReply(cmd, 5)) + [Send(0), WaitReply(0), ReadId]
  {
    MakeReplyReads(cmd, 5);
    hide Reaches, MakeReply, Classify, Get16, CmdId, Status, RequestId, Handled;
    s := UpToResets(cmd);
    s := TakeReply(Start(), s, MakeReply(cmd, 5));
    s := OnToReply(Start(), s);
    s := Step(Start(), s, ReadId);
  }

  lemma UpToResets(cmd: byte) returns (s: State)
    ensures Sized(s) && Reached(s) && s.phase == ReplyReset && s.cmd == cmd && s.clean && s.rx == Idle && s.reply == 0 && s.response == 0
    ensures s.trace == [Begin(cmd), ResetResponse, ResetReply]
  {
    hide Reaches, Classify, Get16, CmdId, Status, RequestId;
    s := Start();
    Here(s);
    s := Step(Start(), s, Begin(cmd));
    s := Step(Start(), s, ResetResponse);
    s := Step(Start(), s, ResetReply);
  }

  /**
   A command can succeed with no single reply that carries both its id and a zero status, its resets
   clean: a second reply is copied between the reading of the id and that of the status.
   */
  lemma SplitVerdict() returns (s: State)
    ensures Sized(s) && Reached(s) && s.phase == Leaving(0) && s.clean && s.cmd == IPU_OWN_CAMERA && NoGoodReply(s.trace, IPU_OWN_CAMERA)
  {
    var cmd := IPU_OWN_CAMERA;
    var other := MakeReply(ACE_OWN_CAMERA, 0);
    MakeReplyReads(ACE_OWN_CAMERA, 0);
    MakeResponseReads(cmd);
    hide Reaches, NoGoodReply, MakeReply, MakeResponse, Classify, Get16, CmdId, Status, RequestId, Handled;
    s := UpToId(cmd);
    s := TakeReply(Start(), s, other);
    s := Step(Start(), s, ReadStatus);
    s := GoodResponse(Start(), s, MakeResponse(cmd));
    SplitRun(cmd);
    assert s.trace == [] + SplitEvents(cmd);
  }

  function SplitEvents(cmd: byte): seq<Event> {
    [Begin(cmd), ResetResponse, ResetReply] + Handled(false, MakeReply(cmd, 5)) + [Send(0), WaitReply(0), ReadId]
    + Handled(false, MakeReply(ACE_OWN_CAMERA, 0)) + [ReadStatus] + Handled(false, MakeResponse(cmd)) + [WaitResponse(0), ReadRequestId]
  }

  lemma SplitRun(cmd: byte)
    requires Given(cmd) && cmd != ACE_OWN_CAMERA
    ensures NoGoodReply([] + SplitEvents(cmd), cmd)
  {
    MakeReplyReads(cmd, 5);
    MakeReplyReads(ACE_OWN_CAMERA, 0);
    MakeResponseReads(cmd);
    NothingYet(cmd);
    hide MakeReply, MakeResponse, Classify, CmdId, Status, RequestId, NoGoodReply;
    NoGoodMore([], SplitEvents(cmd), cmd);
  }

  lemma NothingYet(cmd: byte)
    ensures NoGoodReply([], cmd)
  {
  }
}
