/**
 The CSI client: a command waits for one completion and then reads the status and the id out of a
 buffer that the receive callback overwrites with every response. The callback runs in the pauses
 between the sender's steps.
 */
module MeiCsi {
  import opened Bytes

  const CSI_SET_OWNER: u32 := 0
  const CSI_GET_OWNER: u32 := 1
  const CSI_SET_MIPI_CONF: u32 := 2
  const CSI_GET_MIPI_CONF: u32 := 3
  const CSI_SET_POWER_STATE: u32 := 4
  const CSI_GET_POWER_STATE: u32 := 5
  const CSI_PRIVACY_NOTIF: u32 := 6
  const PRIVACY_OFF: u32 := 0
  const PRIVACY_ON: u32 := 1

  const ETIMEDOUT := -110
  const NOTIF_SIZE := 24
  const HDR_SIZE := 8

  /** The callback's buffer, zero beyond the `len` bytes received. */
  datatype Message = Message(buf: seq<byte>, len: int)

  predicate Sized(m: Message) {
    |m.buf| == NOTIF_SIZE && m.len <= NOTIF_SIZE
    && forall k :: 0 <= k < NOTIF_SIZE && m.len <= k ==> m.buf[k] == 0
  }

  function CmdId(b: seq<byte>): u32
    requires |b| == NOTIF_SIZE
  {
    Get32(b, 0)
  }

  /** The status word, signed. */
  function Status(b: seq<byte>): int
    requires |b| == NOTIF_SIZE
  {
    var w := Get32(b, 4);
    if w >= 0x8000_0000 then w - 0x1_0000_0000 else w
  }

  function Content(b: seq<byte>): u32
    requires |b| == NOTIF_SIZE
  {
    Get32(b, 8)
  }

  /** mei_csi_rx: whether a message is taken for a response to a command. */
  predicate IsResponse(m: Message)
    requires Sized(m)
  {
    m.len >= 0 && CmdId(m.buf) <= CSI_GET_POWER_STATE
  }

  /** By the message's first four bytes: the six command ids, in any message received without error, and nothing else. */
  lemma ResponsesAre(m: Message)
    requires Sized(m)
    ensures IsResponse(m) <==>
              m.len >= 0 && m.buf[1] == m.buf[2] == m.buf[3] == 0
              && m.buf[0] as int in {CSI_SET_OWNER, CSI_GET_OWNER, CSI_SET_MIPI_CONF, CSI_GET_MIPI_CONF, CSI_SET_POWER_STATE, CSI_GET_POWER_STATE}
    ensures CmdId(m.buf) == CSI_PRIVACY_NOTIF <==> m.buf[0] as int == CSI_PRIVACY_NOTIF && m.buf[1] == m.buf[2] == m.buf[3] == 0
  {
  }

  /** Where a message keeps its id, its status, in two's complement, and its content. */
  lemma MessageReadBack(id: u32, status: int, content: u32, rest: seq<byte>)
    requires -0x8000_0000 <= status < 0x8000_0000 && |rest| == NOTIF_SIZE - HDR_SIZE - 4
    ensures var b := Le32(id) + Le32(status % 0x1_0000_0000) + Le32(content) + rest;
            CmdId(b) == id && Status(b) == status && Content(b) == content
  {
    hide Get32, Le32;
    var word: u32 := status % 0x1_0000_0000;
    var b := Le32(id) + Le32(word) + Le32(content) + rest;
    assert b[0..4] == Le32(id) && b[4..8] == Le32(word) && b[8..12] == Le32(content);
    Get32Holds(b, 0, id);
    Get32Holds(b, 4, word);
    Get32Holds(b, 8, content);
  }

  predicate AllSized(msgs: seq<Message>) {
    forall k :: 0 <= k < |msgs| ==> Sized(msgs[k])
  }

  /** The notification buffer after some messages, each response copied over as far as it goes. */
  function After(notif: seq<byte>, msgs: seq<Message>): (r: seq<byte>)
    requires |notif| == NOTIF_SIZE && AllSized(msgs)
    ensures |r| == NOTIF_SIZE
    decreases |msgs|
  {
    if msgs == [] then notif
    else
      var m := msgs[0];
      After(if IsResponse(m) then m.buf[..m.len] + notif[m.len..] else notif, msgs[1..])
  }

  predicate Answered(msgs: seq<Message>)
    requires AllSized(msgs)
  {
    exists k :: 0 <= k < |msgs| && IsResponse(msgs[k])
  }

  /** The last response among some messages. */
  function LastResponse(msgs: seq<Message>): (k: nat)
    requires AllSized(msgs) && Answered(msgs)
    ensures k < |msgs| && IsResponse(msgs[k]) && forall j :: k < j < |msgs| ==> !IsResponse(msgs[j])
    decreases |msgs|
  {
    var n := |msgs| - 1;
    if IsResponse(msgs[n]) then n
    else
      assert AllSized(msgs[..n]) && exists k :: 0 <= k < n && IsResponse(msgs[..n][k]);
      LastResponse(msgs[..n])
  }

  lemma {:induction false} AfterSplit(notif: seq<byte>, a: seq<Message>, b: seq<Message>)
    requires |notif| == NOTIF_SIZE && AllSized(a) && AllSized(b)
    ensures AllSized(a + b) && After(notif, a + b) == After(After(notif, a), b)
    decreases |a|
  {
    if a == [] {
      assert a + b == b;
    } else {
      var m := a[0];
      AfterSplit(if IsResponse(m) then m.buf[..m.len] + notif[m.len..] else notif, a[1..], b);
      assert (a + b)[1..] == a[1..] + b;
    }
  }

  lemma {:induction false} AfterQuiet(notif: seq<byte>, msgs: seq<Message>)
    requires |notif| == NOTIF_SIZE && AllSized(msgs) && !Answered(msgs)
    ensures After(notif, msgs) == notif
    decreases |msgs|
  {
    if msgs != [] {
      assert forall k :: 0 <= k < |msgs[1..]| ==> msgs[1..][k] == msgs[k + 1] && !IsResponse(msgs[k + 1]);
      AfterQuiet(notif, msgs[1..]);
    }
  }

  lemma SameHeader(a: seq<byte>, b: seq<byte>)
    requires |a| == |b| == NOTIF_SIZE && forall j :: 0 <= j < HDR_SIZE ==> a[j] == b[j]
    ensures CmdId(a) == CmdId(b) && Status(a) == Status(b)
  {
  }

  lemma OneMessage(notif: seq<byte>, m: Message)
    requires |notif| == NOTIF_SIZE && Sized(m) && IsResponse(m) && AllSized([m]) && m.len >= HDR_SIZE
    ensures CmdId(After(notif, [m])) == CmdId(m.buf) && Status(After(notif, [m])) == Status(m.buf)
  {
    var n := m.buf[..m.len] + notif[m.len..];
    assert After(notif, [m]) == After(n, [m][1..]) == n;
    assert forall j :: 0 <= j < HDR_SIZE ==> n[j] == m.buf[..m.len][j];
    SameHeader(n, m.buf);
  }

  lemma ThreeParts(notif: seq<byte>, before: seq<Message>, m: Message, rest: seq<Message>)
    requires |notif| == NOTIF_SIZE && AllSized(before) && Sized(m) && AllSized(rest) && !Answered(rest)
    ensures AllSized([m]) && AllSized(before + ([m] + rest))
    ensures After(notif, before + ([m] + rest)) == After(After(notif, before), [m])
  {
    hide CmdId, Status, After, IsResponse, Sized, Answered;
    AfterSplit(notif, before, [m] + rest);
    AfterSplit(After(notif, before), [m], rest);
    AfterQuiet(After(After(notif, before), [m]), rest);
  }

  lemma AfterLast(msgs: seq<Message>)
    requires AllSized(msgs) && Answered(msgs)
    ensures var k := LastResponse(msgs);
            && msgs == msgs[..k] + ([msgs[k]] + msgs[k + 1..])
            && AllSized(msgs[..k]) && Sized(msgs[k]) && AllSized(msgs[k + 1..]) && !Answered(msgs[k + 1..])
  {
    hide Sized, IsResponse, LastResponse;
    var k := LastResponse(msgs);
    var rest := msgs[k + 1..];
    assert forall j :: 0 <= j < |rest| ==> rest[j] == msgs[k + 1 + j];
  }

  /** When responses come with their whole header, what the sender reads is the last one's. */
  lemma LastHeader(notif: seq<byte>, msgs: seq<Message>)
    requires |notif| == NOTIF_SIZE && AllSized(msgs) && Answered(msgs)
    requires msgs[LastResponse(msgs)].len >= HDR_SIZE
    ensures CmdId(After(notif, msgs)) == CmdId(msgs[LastResponse(msgs)].buf)
    ensures Status(After(notif, msgs)) == Status(msgs[LastResponse(msgs)].buf)
  {
    var k := LastResponse(msgs);
    var before, m, rest := msgs[..k], msgs[k], msgs[k + 1..];
    hide CmdId, Status, After, LastResponse, IsResponse, Sized;
    AfterLast(msgs);
    hide AllSized, Answered;
    ThreeParts(notif, before, m, rest);
    OneMessage(After(notif, before), m);
  }

  /** What mei_csi_send makes of the buffer it finds: a status of -1 only says that privacy is on. */
  function Verdict(cmd: u32, statusFrom: seq<byte>, idFrom: seq<byte>): int
    requires |statusFrom| == |idFrom| == NOTIF_SIZE
  {
    if Status(statusFrom) != -1 && Status(statusFrom) != 0 then Status(statusFrom)
    else if CmdId(idFrom) != cmd then -1
    else 0
  }

  /** The result of a command: `first` arrives until the wait is over, `second` between reading the status and the id. */
  function Outcome(cmd: u32, notif: seq<byte>, sending: int, waiting: int, first: seq<Message>, second: seq<Message>): int
    requires |notif| == NOTIF_SIZE && AllSized(first) && AllSized(second)
  {
    if sending < 0 then sending
    else if !Answered(first) then if waiting < 0 then waiting else ETIMEDOUT
    else Verdict(cmd, After(notif, first), After(After(notif, first), second))
  }

  /** The last response to have come when the id is read. */
  function LastOf(first: seq<Message>, second: seq<Message>): Message
    requires AllSized(first) && AllSized(second) && Answered(first)
  {
    if Answered(second) then second[LastResponse(second)] else first[LastResponse(first)]
  }

  /**
   Success, if the responses read from came with whole headers: exactly when the last response by the
   reading of the status has a status of zero or minus one, and the last one by the reading of the id
   is to this command. Any other status is returned as it is, an id of another command as minus one.
   */
  lemma SuccessExactly(cmd: u32, notif: seq<byte>, sending: int, waiting: int, first: seq<Message>, second: seq<Message>)
    requires |notif| == NOTIF_SIZE && AllSized(first) && AllSized(second)
    requires Answered(first) ==> first[LastResponse(first)].len >= HDR_SIZE && LastOf(first, second).len >= HDR_SIZE
    ensures Outcome(cmd, notif, sending, waiting, first, second) == 0 <==>
              && sending >= 0 && Answered(first)
              && Status(first[LastResponse(first)].buf) in {0, -1} && CmdId(LastOf(first, second).buf) == cmd
    ensures sending >= 0 && Answered(first) && Status(first[LastResponse(first)].buf) !in {0, -1} ==>
              Outcome(cmd, notif, sending, waiting, first, second) == Status(first[LastResponse(first)].buf)
    ensures sending >= 0 && Answered(first) && Status(first[LastResponse(first)].buf) in {0, -1} && CmdId(LastOf(first, second).buf) != cmd ==>
              Outcome(cmd, notif, sending, waiting, first, second) == -1
    ensures sending < 0 ==> Outcome(cmd, notif, sending, waiting, first, second) == sending
    ensures sending >= 0 && !Answered(first) ==>
              Outcome(cmd, notif, sending, waiting, first, second) == if waiting < 0 then waiting else ETIMEDOUT
  {
    hide CmdId, Status, After;
    if Answered(first) {
      LastHeader(notif, first);
      if Answered(second) {
        LastHeader(After(notif, first), second);
      } else {
        AfterQuiet(After(notif, first), second);
      }
    }
  }

  /** Without whole headers: an empty message passes for a response, and the last command's success for this one's. */
  lemma EmptyMessageAnswers(notif: seq<byte>, empty: Message)
    requires |notif| == NOTIF_SIZE && CmdId(notif) == CSI_SET_OWNER && Status(notif) == 0
    requires Sized(empty) && empty.len == 0
    ensures AllSized([empty]) && AllSized([]) && Outcome(CSI_SET_OWNER, notif, 0, 0, [empty], []) == 0
  {
    var none: seq<Message> := [empty][1..];
    assert none == [] && empty.buf[..0] + notif[0..] == notif;
    assert IsResponse([empty][0]);
    assert After(notif, [empty]) == After(notif, none);
  }

  /** With one between the readings: status and id can be those of two responses, neither of which would do. */
  lemma TwoResponsesPass(notif: seq<byte>, other: Message, late: Message)
    requires |notif| == NOTIF_SIZE && Sized(other) && Sized(late) && other.len == late.len == NOTIF_SIZE
    requires CmdId(other.buf) == CSI_GET_POWER_STATE && Status(other.buf) == 0
    requires CmdId(late.buf) == CSI_SET_OWNER && Status(late.buf) == 7
    ensures AllSized([other]) && AllSized([late]) && Outcome(CSI_SET_OWNER, notif, 0, 0, [other], [late]) == 0
  {
    hide CmdId, Status;
    assert IsResponse([other][0]) && IsResponse([late][0]);
    assert other.buf[..NOTIF_SIZE] + notif[NOTIF_SIZE..] == other.buf;
    assert late.buf[..NOTIF_SIZE] + other.buf[NOTIF_SIZE..] == late.buf;
    assert After(notif, [other]) == After(other.buf, [other][1..]) == other.buf;
    assert After(other.buf, [late]) == After(late.buf, [late][1..]) == late.buf;
  }

  datatype Callback = NoCallback | Callback(id: nat, handle: nat)

  /** A call of the privacy callback. */
  datatype Privacy = Privacy(to: Callback, state: byte)

  class MeiCsi {
    const sending: nat -> int
    const waiting: nat -> int
    const arrivals: nat -> seq<Message>
    var ticks: nat
    var completed: nat
    var notif: seq<byte>
    var callback: Callback
    var told: seq<Privacy>
    var sent: seq<seq<byte>>

    ghost predicate Valid()
      reads this
    {
      |notif| == NOTIF_SIZE && forall k :: AllSized(arrivals(k))
    }

    constructor (sending: nat -> int, waiting: nat -> int, arrivals: nat -> seq<Message>)
      requires forall k :: AllSized(arrivals(k))
      ensures Valid() && notif == Zeros(NOTIF_SIZE) && callback == NoCallback && told == [] && sent == []
      ensures this.sending == sending && this.waiting == waiting && this.arrivals == arrivals
    {
      this.sending, this.waiting, this.arrivals := sending, waiting, arrivals;
      ticks, completed, notif, callback, told, sent := 0, 0, Zeros(NOTIF_SIZE), NoCallback, [], [];
    }

    /** csi_set_privacy_callback. */
    method SetPrivacyCallback(to: Callback)
      requires Valid()
      modifies this`callback
      ensures Valid() && callback == to
    {
      callback := to;
    }

    /** mei_csi_rx. A privacy notification goes to the registered callback alone; the camera's on is the callback's 0. */
    method Rx(m: Message)
      requires Valid() && Sized(m)
      modifies this`completed, this`notif, this`told
      ensures Valid()
      ensures notif == After(old(notif), [m])
      ensures completed == if IsResponse(m) && old(completed) == 0 then 1 else old(completed)
      ensures told == old(told) +
                if m.len >= 0 && CmdId(m.buf) == CSI_PRIVACY_NOTIF && callback.Callback? && Content(m.buf) in {PRIVACY_ON, PRIVACY_OFF}
                then [Privacy(callback, if Content(m.buf) == PRIVACY_ON then 0 else 1)] else []
      ensures m.len >= 0 && m.buf[0] <= 5 && m.buf[1] == m.buf[2] == m.buf[3] == 0 ==>
                notif == m.buf[..m.len] + old(notif[m.len..]) && (old(completed) <= 1 ==> completed == 1) && told == old(told)
      ensures m.len < 0 || m.buf[0] > 5 || m.buf[1] != 0 || m.buf[2] != 0 || m.buf[3] != 0 ==>
                notif == old(notif) && completed == old(completed)
    {
      ResponsesAre(m);
      assert [m][1..] == [];
      if m.len < 0 {
        return;
      }
      if CmdId(m.buf) == CSI_PRIVACY_NOTIF {
        if Content(m.buf) == PRIVACY_ON {
          PrivacyNotify(0);
        } else if Content(m.buf) == PRIVACY_OFF {
          PrivacyNotify(1);
        }
      } else if CmdId(m.buf) <= CSI_GET_POWER_STATE {
        notif := m.buf[..m.len] + notif[m.len..];
        if completed == 0 {
          completed := completed + 1;
        }
      }
    }

    /** privacy_notify. */
    method PrivacyNotify(state: byte)
      modifies this`told
      ensures told == old(told) + if callback.Callback? then [Privacy(callback, state)] else []
    {
      if callback.Callback? {
        told := told + [Privacy(callback, state)];
      }
    }

    /** What the callback gets to do in one pause of the sender. */
    method Pause()
      requires Valid()
      modifies this`completed, this`notif, this`told, this`ticks
      ensures Valid() && ticks == old(ticks) + 1
      ensures notif == After(old(notif), arrivals(old(ticks)))
      ensures old(completed) <= 1 ==> completed == if Answered(arrivals(old(ticks))) then 1 else old(completed)
    {
      var msgs := arrivals(ticks);
      for i := 0 to |msgs|
        invariant Valid() && ticks == old(ticks)
        invariant AllSized(msgs[..i]) && notif == After(old(notif), msgs[..i])
        invariant old(completed) <= 1 ==>
                    completed == if exists k :: 0 <= k < i && IsResponse(msgs[k]) then 1 else old(completed)
      {
        assert msgs[..i + 1] == msgs[..i] + [msgs[i]];
        AfterSplit(old(notif), msgs[..i], [msgs[i]]);
        Rx(msgs[i]);
      }
      assert msgs[..|msgs|] == msgs;
      ticks := ticks + 1;
    }

    /** mei_csi_send. */
    method Send(cmd: u32, packet: seq<byte>) returns (ret: int)
      requires Valid() && |packet| >= 4 && Get32(packet, 0) == cmd
      modifies this`completed, this`notif, this`told, this`ticks, this`sent
      ensures Valid() && sent == old(sent) + [packet]
      ensures ret == Outcome(cmd, old(notif), sending(old(ticks)), waiting(old(ticks)), arrivals(old(ticks)), arrivals(old(ticks) + 1))
    {
      completed := 0;
      sent := sent + [packet];
      ghost var t := ticks;
      ret := sending(ticks);
      if ret < 0 {
        return;
      }
      var wait := waiting(ticks);
      Pause();
      if completed == 0 {
        return if wait < 0 then wait else ETIMEDOUT;
      }
      ret := Status(notif);
      Pause();
      if ret == -1 {
        ret := 0;
      } else if ret != 0 {
        return;
      }
      if CmdId(notif) != cmd {
        ret := -1;
      }
    }

    /** csi_set_owner. */
    method SetOwner(owner: u32) returns (ret: int)
      requires Valid()
      modifies this`completed, this`notif, this`told, this`ticks, this`sent
      ensures Valid() && sent == old(sent) + [Le32(CSI_SET_OWNER) + Le32(owner)]
      ensures ret == Outcome(CSI_SET_OWNER, old(notif), sending(old(ticks)), waiting(old(ticks)),
                             arrivals(old(ticks)), arrivals(old(ticks) + 1))
    {
      Get32Holds(Le32(CSI_SET_OWNER) + Le32(owner), 0, CSI_SET_OWNER);
      ret := Send(CSI_SET_OWNER, Le32(CSI_SET_OWNER) + Le32(owner));
    }
  }
}
