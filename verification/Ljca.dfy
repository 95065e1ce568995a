/**
 The USB bridge's request and acknowledgement protocol, taken one caller at a time: message framing,
 the read completion that matches acknowledgements to stubs by type and command, and the write that
 waits for one. LjcaRuns interleaves the same pieces.
 */
module Ljca {
  import opened Bytes

  const MSG_HEADER := 4
  const MAX_PACKET_SIZE := 64
  const MAX_PAYLOAD_SIZE := MAX_PACKET_SIZE - MSG_HEADER

  const ACK_FLAG: byte := 1
  const CMPL_FLAG: byte := 4

  const EIO := -5
  const ENODEV := -19
  const EINVAL := -22
  const ETIMEDOUT := -110

  /** Where a stub copies what an acknowledgement carries: nowhere, or a buffer of some caller. */
  datatype Pointer = Null | Buffer(id: nat)

  datatype Stub = Stub(typ: byte, curCmd: int, acked: bool, ibuf: Pointer, ibufLen: nat, listening: bool)

  datatype Notice = Notice(typ: byte, cmd: byte, data: seq<byte>)

  /** The bridge's state; `overrun` records a copy past the end of a caller's buffer. */
  datatype Bridge = Bridge(stubs: seq<Stub>, memory: map<nat, seq<byte>>, overrun: bool, notices: seq<Notice>)

  // Messages: type, cmd, flags, len, data.

  function Encode(typ: byte, cmd: byte, flags: byte, data: seq<byte>): (raw: seq<byte>)
    requires |data| <= 0xFF
    ensures Validated(raw) && Data(raw) == data
  {
    [typ, cmd, flags, |data|] + data
  }

  /** ljca_validate: the length field accounts for exactly the bytes received. */
  predicate Validated(raw: seq<byte>) {
    |raw| >= MSG_HEADER && raw[3] as int + MSG_HEADER == |raw|
  }

  predicate IsAck(raw: seq<byte>)
    requires |raw| >= MSG_HEADER
  {
    raw[2] % 2 == ACK_FLAG
  }

  function Data(raw: seq<byte>): seq<byte>
    requires |raw| >= MSG_HEADER
  {
    raw[MSG_HEADER..]
  }

  /** A valid acknowledgement of command `cmd` for stubs of type `typ`. */
  predicate Answers(raw: seq<byte>, typ: byte, cmd: int) {
    Validated(raw) && IsAck(raw) && raw[0] == typ && raw[1] as int == cmd
  }

  lemma AnswerIsValid(raw: seq<byte>, typ: byte, cmd: int)
    requires Answers(raw, typ, cmd)
    ensures Validated(raw) && raw[0] == typ && raw[1] as int == cmd
  {
  }

  /** A message built with the ACK flag answers its own type and command and no other; without it, none. */
  lemma EncodedAnswers(typ: byte, cmd: byte, flags: byte, data: seq<byte>)
    requires |data| <= 0xFF
    ensures var raw := Encode(typ, cmd, flags, data);
            && raw[2] == flags && Data(raw) == data
            && forall t: byte, c: int :: Answers(raw, t, c) <==> flags % 2 == 1 && t == typ && c == cmd as int
  {
  }

  /** The index of the first stub of the given type, or -1. */
  function Find(stubs: seq<Stub>, typ: byte): (i: int)
    ensures -1 <= i < |stubs|
    ensures i >= 0 ==> stubs[i].typ == typ && forall j :: 0 <= j < i ==> stubs[j].typ != typ
    ensures i < 0 ==> forall j :: 0 <= j < |stubs| ==> stubs[j].typ != typ
  {
    if stubs == [] then -1
    else if stubs[0].typ == typ then 0
    else
      var k := Find(stubs[1..], typ);
      assert forall j :: 0 < j < |stubs| ==> stubs[j] == stubs[1..][j - 1];
      if k < 0 then -1 else k + 1
  }

  /** memcpy to the place `to` points at, if anywhere. */
  function Copy(b: Bridge, to: Pointer, data: seq<byte>): (r: Bridge)
    ensures r.stubs == b.stubs
  {
    if to.Null? then b
    else if to.id in b.memory && |data| <= |b.memory[to.id]| then
      b.(memory := b.memory[to.id := data + b.memory[to.id][|data|..]])
    else b.(overrun := true)
  }

  function Acknowledge(b: Bridge, i: nat, raw: seq<byte>): Bridge
    requires i < |b.stubs| && |raw| >= MSG_HEADER
  {
    var s := b.stubs[i];
    Copy(b.(stubs := b.stubs[i := s.(ibufLen := |Data(raw)|, acked := true)]), s.ibuf, Data(raw))
  }

  function Notify(b: Bridge, i: nat, raw: seq<byte>): (r: Bridge)
    requires i < |b.stubs| && |raw| >= MSG_HEADER
    ensures r.stubs == b.stubs
  {
    if b.stubs[i].listening then b.(notices := b.notices + [Notice(b.stubs[i].typ, raw[1], Data(raw))]) else b
  }

  /** What one message from the device does to the bridge. */
  function Deliver(b: Bridge, raw: seq<byte>): Bridge {
    if !Validated(raw) then b
    else
      var i := Find(b.stubs, raw[0]);
      if i < 0 then b
      else if !IsAck(raw) then Notify(b, i, raw)
      else if b.stubs[i].curCmd != raw[1] as int then b
      else Acknowledge(b, i, raw)
  }

  function DeliverAll(b: Bridge, msgs: seq<seq<byte>>): Bridge
    decreases |msgs|
  {
    if msgs == [] then b else DeliverAll(Deliver(b, msgs[0]), msgs[1..])
  }

  /** The data of the messages that answer `cmd` for type `typ`, in order of arrival. */
  function AnswersIn(msgs: seq<seq<byte>>, typ: byte, cmd: int): seq<seq<byte>> {
    if msgs == [] then []
    else (if Answers(msgs[0], typ, cmd) then [Data(msgs[0])] else []) + AnswersIn(msgs[1..], typ, cmd)
  }

  /** A buffer after each piece in turn was copied to its start. */
  function Overlaid(buffer: seq<byte>, pieces: seq<seq<byte>>): (r: seq<byte>)
    requires forall k :: 0 <= k < |pieces| ==> |pieces[k]| <= |buffer|
    ensures |r| == |buffer|
    decreases |pieces|
  {
    if pieces == [] then buffer else Overlaid(pieces[0] + buffer[|pieces[0]|..], pieces[1..])
  }

  predicate Fit(pieces: seq<seq<byte>>, size: nat) {
    forall k :: 0 <= k < |pieces| ==> |pieces[k]| <= size
  }

  /** What the write sets up before it sends: the stub's length, command, buffer and flag. */
  function Armed(b: Bridge, i: nat, cmd: byte, ibuf: Pointer): Bridge
    requires i < |b.stubs|
  {
    b.(stubs := b.stubs[i := b.stubs[i].(ibufLen := 0, curCmd := cmd as int, ibuf := ibuf, acked := false)])
  }

  function Disarmed(b: Bridge, i: nat): Bridge
    requires i < |b.stubs|
  {
    b.(stubs := b.stubs[i := b.stubs[i].(ibuf := Null, ibufLen := 0)])
  }

  /** Only acknowledgements change a stub, and of a stub they change only the flag and the length. */
  predicate SameSetup(a: Bridge, b: Bridge) {
    && |a.stubs| == |b.stubs|
    && forall j :: 0 <= j < |a.stubs| ==> b.stubs[j] == a.stubs[j].(acked := b.stubs[j].acked, ibufLen := b.stubs[j].ibufLen)
  }

  lemma SameTypesSameFind(a: Bridge, b: Bridge, typ: byte)
    requires SameSetup(a, b)
    ensures Find(a.stubs, typ) == Find(b.stubs, typ)
  {
  }

  lemma DeliverKeepsSetup(b: Bridge, raw: seq<byte>)
    ensures SameSetup(b, Deliver(b, raw))
  {
    hide Find;
  }

  /** No other stub copies into the buffer of stub `i`. */
  predicate Private(b: Bridge, i: nat)
    requires i < |b.stubs|
  {
    b.stubs[i].ibuf.Buffer? ==>
      && b.stubs[i].ibuf.id in b.memory
      && forall j :: 0 <= j < |b.stubs| && j != i ==> b.stubs[j].ibuf != b.stubs[i].ibuf
  }

  lemma DeliverOne(b: Bridge, raw: seq<byte>, i: nat)
    requires i < |b.stubs| && Find(b.stubs, b.stubs[i].typ) == i
    ensures var b' := Deliver(b, raw);
            && SameSetup(b, b')
            && (Answers(raw, b.stubs[i].typ, b.stubs[i].curCmd) ==>
                  b'.stubs[i].acked && b'.stubs[i].ibufLen == |Data(raw)|)
            && (!Answers(raw, b.stubs[i].typ, b.stubs[i].curCmd) ==> b'.stubs[i] == b.stubs[i])
  {
    hide Find;
    if Validated(raw) {
      assert Find(b.stubs, raw[0]) == i ==> raw[0] == b.stubs[i].typ;
    }
  }

  lemma DeliverMemory(b: Bridge, raw: seq<byte>, i: nat)
    requires i < |b.stubs| && Find(b.stubs, b.stubs[i].typ) == i && Private(b, i) && b.stubs[i].ibuf.Buffer?
    requires Answers(raw, b.stubs[i].typ, b.stubs[i].curCmd) ==> |Data(raw)| <= |b.memory[b.stubs[i].ibuf.id]|
    ensures var b' := Deliver(b, raw);
            var id := b.stubs[i].ibuf.id;
            && id in b'.memory
            && b'.memory[id] ==
                 if Answers(raw, b.stubs[i].typ, b.stubs[i].curCmd) then Data(raw) + b.memory[id][|Data(raw)|..]
                 else b.memory[id]
  {
    hide Find;
    if Validated(raw) {
      assert Find(b.stubs, raw[0]) == i ==> raw[0] == b.stubs[i].typ;
    }
  }

  /** What any list of messages does to the stub that waits: it is acknowledged iff an answer is among them. */
  lemma {:induction false} DeliverAllStub(b: Bridge, msgs: seq<seq<byte>>, i: nat)
    requires i < |b.stubs| && Find(b.stubs, b.stubs[i].typ) == i
    ensures var b', answers := DeliverAll(b, msgs), AnswersIn(msgs, b.stubs[i].typ, b.stubs[i].curCmd);
            && SameSetup(b, b')
            && b'.stubs[i].acked == (b.stubs[i].acked || answers != [])
            && b'.stubs[i].ibufLen == if answers == [] then b.stubs[i].ibufLen else |answers[|answers| - 1]|
    decreases |msgs|
  {
    hide Find, Deliver, Answers;
    if msgs != [] {
      var b1 := Deliver(b, msgs[0]);
      DeliverOne(b, msgs[0], i);
      SameTypesSameFind(b, b1, b.stubs[i].typ);
      DeliverAllStub(b1, msgs[1..], i);
    }
  }

  lemma {:induction false} DeliverAllMemory(b: Bridge, msgs: seq<seq<byte>>, i: nat)
    requires i < |b.stubs| && Find(b.stubs, b.stubs[i].typ) == i && Private(b, i) && b.stubs[i].ibuf.Buffer?
    requires Fit(AnswersIn(msgs, b.stubs[i].typ, b.stubs[i].curCmd), |b.memory[b.stubs[i].ibuf.id]|)
    ensures var b', id := DeliverAll(b, msgs), b.stubs[i].ibuf.id;
            && id in b'.memory
            && b'.memory[id] == Overlaid(b.memory[id], AnswersIn(msgs, b.stubs[i].typ, b.stubs[i].curCmd))
    decreases |msgs|
  {
    hide Find, Deliver, Answers;
    if msgs != [] {
      var b1, id := Deliver(b, msgs[0]), b.stubs[i].ibuf.id;
      var all, rest := AnswersIn(msgs, b.stubs[i].typ, b.stubs[i].curCmd), AnswersIn(msgs[1..], b.stubs[i].typ, b.stubs[i].curCmd);
      if Answers(msgs[0], b.stubs[i].typ, b.stubs[i].curCmd) {
        AnswerIsValid(msgs[0], b.stubs[i].typ, b.stubs[i].curCmd);
        assert all[0] == Data(msgs[0]) && all[1..] == rest;
        assert forall k :: 0 <= k < |rest| ==> rest[k] == all[k + 1];
      } else {
        assert all == rest;
      }
      DeliverOne(b, msgs[0], i);
      DeliverMemory(b, msgs[0], i);
      SameTypesSameFind(b, b1, b.stubs[i].typ);
      DeliverAllMemory(b1, msgs[1..], i);
    }
  }

  // Notifications.

  /** Stub `i` is the first one of the type. */
  predicate FirstOf(stubs: seq<Stub>, typ: byte, i: nat) {
    i < |stubs| && stubs[i].typ == typ && forall j :: 0 <= j < i ==> stubs[j].typ != typ
  }

  /**
   What a message tells whoever listens: a whole message that is no acknowledgement, of a type whose first
   stub has a listener. The listener gets command and data.
   */
  function NoticedOf(stubs: seq<Stub>, raw: seq<byte>): seq<Notice> {
    if |raw| >= 4 && |raw| == 4 + raw[3] as int && raw[2] % 2 == 0
       && (exists i :: 0 <= i < |stubs| && FirstOf(stubs, raw[0], i) && stubs[i].listening)
    then [Notice(raw[0], raw[1], raw[4..])] else []
  }

  function NoticedIn(stubs: seq<Stub>, msgs: seq<seq<byte>>): seq<Notice> {
    if msgs == [] then [] else NoticedOf(stubs, msgs[0]) + NoticedIn(stubs, msgs[1..])
  }

  lemma FindIsFirst(stubs: seq<Stub>, typ: byte, i: nat)
    ensures FirstOf(stubs, typ, i) <==> Find(stubs, typ) == i
  {
  }

  lemma DeliverNotices(b: Bridge, raw: seq<byte>)
    ensures Deliver(b, raw).notices == b.notices + NoticedOf(b.stubs, raw)
  {
    if Validated(raw) {
      var i := Find(b.stubs, raw[0]);
      assert i >= 0 ==> FirstOf(b.stubs, raw[0], i);
      forall j: nat | FirstOf(b.stubs, raw[0], j)
        ensures i == j
      {
        FindIsFirst(b.stubs, raw[0], j);
      }
    }
    hide Find;
    assert b.notices + [] == b.notices;
  }

  /** Types and listeners never change. */
  predicate SameListeners(a: seq<Stub>, b: seq<Stub>) {
    |a| == |b| && forall j :: 0 <= j < |a| ==> a[j].typ == b[j].typ && a[j].listening == b[j].listening
  }

  lemma SameNoticed(a: seq<Stub>, b: seq<Stub>, raw: seq<byte>)
    requires SameListeners(a, b)
    ensures NoticedOf(a, raw) == NoticedOf(b, raw)
  {
    if |raw| > 0 {
      assert forall i: nat :: FirstOf(a, raw[0], i) <==> FirstOf(b, raw[0], i);
    }
  }

  lemma {:induction false} SameNoticedIn(a: seq<Stub>, b: seq<Stub>, msgs: seq<seq<byte>>)
    requires SameListeners(a, b)
    ensures NoticedIn(a, msgs) == NoticedIn(b, msgs)
    decreases |msgs|
  {
    hide NoticedOf;
    if msgs != [] {
      SameNoticed(a, b, msgs[0]);
      SameNoticedIn(a, b, msgs[1..]);
    }
  }

  /** After any messages the listeners have been told exactly of those that are for them, in order. */
  lemma {:induction false} DeliverAllNotices(b: Bridge, msgs: seq<seq<byte>>)
    ensures DeliverAll(b, msgs).notices == b.notices + NoticedIn(b.stubs, msgs)
    decreases |msgs|
  {
    hide Deliver, NoticedOf;
    if msgs == [] {
      assert b.notices + [] == b.notices;
    } else {
      var b1 := Deliver(b, msgs[0]);
      DeliverNotices(b, msgs[0]);
      DeliverKeepsSetup(b, msgs[0]);
      DeliverAllNotices(b1, msgs[1..]);
      SameNoticedIn(b1.stubs, b.stubs, msgs[1..]);
      assert b.notices + (NoticedOf(b.stubs, msgs[0]) + NoticedIn(b.stubs, msgs[1..])) ==
             b.notices + NoticedOf(b.stubs, msgs[0]) + NoticedIn(b.stubs, msgs[1..]);
    }
  }

  /** A message built without the ACK flag reaches the listener of its type with command and data. */
  lemma EncodedIsNoticed(stubs: seq<Stub>, i: nat, cmd: byte, flags: byte, data: seq<byte>)
    requires i < |stubs| && FirstOf(stubs, stubs[i].typ, i) && |data| <= 0xFF && flags % 2 == 0
    ensures NoticedOf(stubs, Encode(stubs[i].typ, cmd, flags, data)) ==
              if stubs[i].listening then [Notice(stubs[i].typ, cmd, data)] else []
  {
    var raw := Encode(stubs[i].typ, cmd, flags, data);
    assert raw[4..] == data;
    forall j: nat | FirstOf(stubs, stubs[i].typ, j)
      ensures i == j
    {
      FindIsFirst(stubs, stubs[i].typ, i);
      FindIsFirst(stubs, stubs[i].typ, j);
    }
  }

  // The write.

  /** What usb_bulk_msg came to: its status and the number of bytes that went out. */
  datatype Sending = Sending(status: int, actual: nat)

  datatype Written = Written(bridge: Bridge, ret: int, len: int)

  predicate SentWhole(sending: Sending, obuf: seq<byte>) {
    sending.status == 0 && sending.actual == MSG_HEADER + |obuf|
  }

  /**
   ljca_stub_write for a single caller: `msgs` is everything the device gets delivered from the arming
   of the stub until the wait, if any, is over; `len` what the caller's length variable held before.
   */
  function Write(b: Bridge, i: nat, cmd: byte, obuf: seq<byte>, ibuf: Pointer, waitAck: bool, len: int,
                 stopped: bool, sending: Sending, msgs: seq<seq<byte>>): Written
    requires i < |b.stubs|
  {
    if stopped then Written(b, ENODEV, len)
    else if |obuf| > MAX_PAYLOAD_SIZE then Written(b, EINVAL, len)
    else
      var after := DeliverAll(Armed(b, i, cmd, ibuf), msgs);
      DeliverAllSetup(Armed(b, i, cmd, ibuf), msgs);
      if !SentWhole(sending, obuf) then Written(after, sending.status, len)
      else if waitAck && !after.stubs[i].acked then Written(after, ETIMEDOUT, len)
      else Written(Disarmed(after, i), 0, after.stubs[i].ibufLen)
  }

  lemma {:induction false} DeliverAllSetup(b: Bridge, msgs: seq<seq<byte>>)
    ensures SameSetup(b, DeliverAll(b, msgs))
    decreases |msgs|
  {
    hide Deliver;
    if msgs != [] {
      DeliverKeepsSetup(b, msgs[0]);
      DeliverAllSetup(Deliver(b, msgs[0]), msgs[1..]);
    }
  }

  /** The data of the acknowledgements the caller of Write can take for its own. */
  function OwnAnswers(b: Bridge, i: nat, cmd: byte, msgs: seq<seq<byte>>): seq<seq<byte>>
    requires i < |b.stubs|
  {
    AnswersIn(msgs, b.stubs[i].typ, cmd as int)
  }

  /**
   When a write succeeds, exactly: nothing but a missing acknowledgement of the stub's own type and
   command makes a completely sent, waiting write fail; the length returned is that of the last one.
   A send cut short without an error status succeeds too, whatever was waited for.
   */
  lemma WriteOutcome(b: Bridge, i: nat, cmd: byte, obuf: seq<byte>, ibuf: Pointer, waitAck: bool, len: int,
                     stopped: bool, sending: Sending, msgs: seq<seq<byte>>)
    requires i < |b.stubs| && Find(b.stubs, b.stubs[i].typ) == i
    ensures var w, answers := Write(b, i, cmd, obuf, ibuf, waitAck, len, stopped, sending, msgs), OwnAnswers(b, i, cmd, msgs);
            && |w.bridge.stubs| == |b.stubs|
            && (w.ret == 0 <==>
                  && !stopped && |obuf| <= MAX_PAYLOAD_SIZE && sending.status == 0
                  && (SentWhole(sending, obuf) && waitAck ==> answers != []))
            && (w.ret == 0 && SentWhole(sending, obuf) ==>
                  && w.len == (if answers == [] then 0 else |answers[|answers| - 1]|)
                  && w.bridge.stubs[i].ibuf.Null? && w.bridge.stubs[i].ibufLen == 0)
            && (w.ret != 0 || !SentWhole(sending, obuf) ==> w.len == len)
            && (stopped ==> w.ret == ENODEV && w.bridge == b)
            && (!stopped && |obuf| <= MAX_PAYLOAD_SIZE && w.ret != 0 ==>
                  w.ret == if SentWhole(sending, obuf) then ETIMEDOUT else sending.status)
  {
    hide Find, DeliverAll, AnswersIn;
    var armed := Armed(b, i, cmd, ibuf);
    assert armed.stubs[i].typ == b.stubs[i].typ && armed.stubs[i].curCmd == cmd as int;
    SameFindWhenArmed(b, i, cmd, ibuf);
    DeliverAllStub(armed, msgs, i);
    DeliverAllSetup(armed, msgs);
  }

  /** A send of which nothing went out, reported without an error status, passes for a success nobody acknowledged. */
  lemma ShortSendReturnsZero(b: Bridge, i: nat, cmd: byte, obuf: seq<byte>, ibuf: Pointer, len: int)
    requires i < |b.stubs| && |obuf| <= MAX_PAYLOAD_SIZE
    ensures var w := Write(b, i, cmd, obuf, ibuf, true, len, false, Sending(0, 0), []);
            w.ret == 0 && w.len == len && i < |w.bridge.stubs| && !w.bridge.stubs[i].acked && w.bridge.stubs[i].ibuf == ibuf
  {
  }

  lemma {:induction false} SameTypes(s: seq<Stub>, t: seq<Stub>, typ: byte)
    requires |s| == |t| && forall j :: 0 <= j < |s| ==> s[j].typ == t[j].typ
    ensures Find(s, typ) == Find(t, typ)
  {
  }

  lemma SameFindWhenArmed(b: Bridge, i: nat, cmd: byte, ibuf: Pointer)
    requires i < |b.stubs|
    ensures forall typ: byte :: Find(Armed(b, i, cmd, ibuf).stubs, typ) == Find(b.stubs, typ)
  {
    hide Find;
    forall typ: byte ensures Find(Armed(b, i, cmd, ibuf).stubs, typ) == Find(b.stubs, typ) {
      SameTypes(Armed(b, i, cmd, ibuf).stubs, b.stubs, typ);
    }
  }

  /** The caller's buffer afterwards: the data of its own answers, each copied over the last, and nothing else. */
  lemma WriteMemory(b: Bridge, i: nat, cmd: byte, obuf: seq<byte>, id: nat, waitAck: bool, len: int,
                    sending: Sending, msgs: seq<seq<byte>>)
    requires i < |b.stubs| && Find(b.stubs, b.stubs[i].typ) == i && |obuf| <= MAX_PAYLOAD_SIZE
    requires id in b.memory && Private(Armed(b, i, cmd, Buffer(id)), i)
    requires Fit(OwnAnswers(b, i, cmd, msgs), |b.memory[id]|)
    ensures var w := Write(b, i, cmd, obuf, Buffer(id), waitAck, len, false, sending, msgs);
            id in w.bridge.memory && w.bridge.memory[id] == Overlaid(b.memory[id], OwnAnswers(b, i, cmd, msgs))
  {
    hide Find, DeliverAll, AnswersIn, Overlaid;
    var armed := Armed(b, i, cmd, Buffer(id));
    assert armed.stubs[i].typ == b.stubs[i].typ && armed.stubs[i].curCmd == cmd as int;
    SameFindWhenArmed(b, i, cmd, Buffer(id));
    DeliverAllMemory(armed, msgs, i);
    DeliverAllSetup(armed, msgs);
  }

  /** Nothing points at the buffer `id`. */
  predicate Unused(b: Bridge, id: nat) {
    forall j :: 0 <= j < |b.stubs| ==> b.stubs[j].ibuf != Buffer(id)
  }

  lemma {:induction false} UnusedStays(b: Bridge, msgs: seq<seq<byte>>, id: nat)
    requires id in b.memory && Unused(b, id)
    ensures var b' := DeliverAll(b, msgs); id in b'.memory && b'.memory[id] == b.memory[id]
    decreases |msgs|
  {
    hide Find;
    if msgs != [] {
      var b1 := Deliver(b, msgs[0]);
      DeliverKeepsSetup(b, msgs[0]);
      assert id in b1.memory && b1.memory[id] == b.memory[id];
      UnusedStays(b1, msgs[1..], id);
    }
  }

  /** Exactly when the stub still points at the caller's buffer once a write that got to send is over. */
  lemma ArmedAfter(b: Bridge, i: nat, cmd: byte, obuf: seq<byte>, id: nat, waitAck: bool, len: int,
                   sending: Sending, msgs: seq<seq<byte>>)
    requires i < |b.stubs| && Find(b.stubs, b.stubs[i].typ) == i && |obuf| <= MAX_PAYLOAD_SIZE
    ensures var w := Write(b, i, cmd, obuf, Buffer(id), waitAck, len, false, sending, msgs);
            && |w.bridge.stubs| == |b.stubs|
            && (w.bridge.stubs[i].ibuf == Buffer(id) <==> !(SentWhole(sending, obuf) && (waitAck ==> OwnAnswers(b, i, cmd, msgs) != [])))
  {
    hide Find, DeliverAll, AnswersIn;
    WriteOutcome(b, i, cmd, obuf, Buffer(id), waitAck, len, false, sending, msgs);
    DeliverAllSetup(Armed(b, i, cmd, Buffer(id)), msgs);
  }

  /**
   What arrives after a write that got to send, exactly: with the message out whole and, if waited for,
   acknowledged, nothing that arrives later touches the caller's buffer; in every other case, a timeout,
   a failed or a short send, every later answer of the stub's type and command is still copied there.
   */
  lemma LateCopyExactly(b: Bridge, i: nat, cmd: byte, obuf: seq<byte>, id: nat, waitAck: bool, len: int,
                        sending: Sending, msgs: seq<seq<byte>>, later: seq<seq<byte>>)
    requires i < |b.stubs| && Find(b.stubs, b.stubs[i].typ) == i && |obuf| <= MAX_PAYLOAD_SIZE
    requires id in b.memory && Private(Armed(b, i, cmd, Buffer(id)), i)
    requires Fit(OwnAnswers(b, i, cmd, msgs), |b.memory[id]|) && Fit(OwnAnswers(b, i, cmd, later), |b.memory[id]|)
    ensures var w := Write(b, i, cmd, obuf, Buffer(id), waitAck, len, false, sending, msgs);
            var b' := DeliverAll(w.bridge, later);
            && id in w.bridge.memory && |w.bridge.memory[id]| == |b.memory[id]| && id in b'.memory
            && b'.memory[id] ==
                 if SentWhole(sending, obuf) && (waitAck ==> OwnAnswers(b, i, cmd, msgs) != []) then w.bridge.memory[id]
                 else Overlaid(w.bridge.memory[id], OwnAnswers(b, i, cmd, later))
  {
    hide Find, DeliverAll, AnswersIn, Overlaid;
    var w := Write(b, i, cmd, obuf, Buffer(id), waitAck, len, false, sending, msgs);
    var armed := Armed(b, i, cmd, Buffer(id));
    WriteMemory(b, i, cmd, obuf, id, waitAck, len, sending, msgs);
    ArmedAfter(b, i, cmd, obuf, id, waitAck, len, sending, msgs);
    DeliverAllSetup(armed, msgs);
    SameFindWhenArmed(b, i, cmd, Buffer(id));
    if w.bridge.stubs[i].ibuf == Buffer(id) {
      SameTypes(w.bridge.stubs, b.stubs, b.stubs[i].typ);
      DeliverAllMemory(w.bridge, later, i);
    } else {
      UnusedStays(w.bridge, later, id);
    }
  }

  /** Buffers keep their size, whatever arrives. */
  lemma {:induction false} SizesStay(b: Bridge, msgs: seq<seq<byte>>, id: nat)
    requires id in b.memory
    ensures id in DeliverAll(b, msgs).memory && |DeliverAll(b, msgs).memory[id]| == |b.memory[id]|
    decreases |msgs|
  {
    hide Find;
    if msgs != [] {
      var b1 := Deliver(b, msgs[0]);
      assert id in b1.memory && |b1.memory[id]| == |b.memory[id]|;
      SizesStay(b1, msgs[1..], id);
    }
  }

  /** What a write leaves alone: the types and pointers of other stubs, and the size of every buffer. */
  lemma WriteKeeps(b: Bridge, i: nat, cmd: byte, obuf: seq<byte>, ibuf: Pointer, waitAck: bool, len: int,
                   stopped: bool, sending: Sending, msgs: seq<seq<byte>>, id: nat)
    requires i < |b.stubs| && id in b.memory
    ensures var b' := Write(b, i, cmd, obuf, ibuf, waitAck, len, stopped, sending, msgs).bridge;
            && |b'.stubs| == |b.stubs|
            && (forall j :: 0 <= j < |b.stubs| ==> b'.stubs[j].typ == b.stubs[j].typ)
            && (forall j :: 0 <= j < |b.stubs| && j != i ==> b'.stubs[j].ibuf == b.stubs[j].ibuf)
            && id in b'.memory && |b'.memory[id]| == |b.memory[id]|
  {
    hide DeliverAll;
    DeliverAllSetup(Armed(b, i, cmd, ibuf), msgs);
    SizesStay(Armed(b, i, cmd, ibuf), msgs, id);
  }

  /** The bridge driver's own state, with the USB host below it. */
  class LjcaDev {
    // what becomes of the latest of the given messages
    const sending: seq<seq<byte>> -> Sending
    // what the device gets delivered while the latest of the given messages is being handled
    const arrivals: seq<seq<byte>> -> seq<seq<byte>>
    var stopped: bool
    var stubs: seq<Stub>
    var memory: map<nat, seq<byte>>
    var overrun: bool
    var notices: seq<Notice>
    var sent: seq<seq<byte>>

    constructor (sending: seq<seq<byte>> -> Sending, arrivals: seq<seq<byte>> -> seq<seq<byte>>)
      ensures this.sending == sending && this.arrivals == arrivals
      ensures !stopped && View() == Bridge([], map[], false, []) && sent == []
    {
      this.sending, this.arrivals := sending, arrivals;
      stopped, stubs, memory, overrun, notices, sent := false, [], map[], false, [], [];
    }

    function View(): Bridge
      reads this
    {
      Bridge(stubs, memory, overrun, notices)
    }

    /** ljca_stub_find. */
    method StubFind(typ: byte) returns (i: int)
      ensures i == Find(stubs, typ)
    {
      i := 0;
      while i < |stubs|
        invariant 0 <= i <= |stubs|
        invariant forall j :: 0 <= j < i ==> stubs[j].typ != typ
      {
        if stubs[i].typ == typ {
          return;
        }
        i := i + 1;
      }
      i := -1;
    }

    /** The memcpy into the waiting caller's buffer. */
    method CopyOut(to: Pointer, data: seq<byte>)
      modifies this`memory, this`overrun
      ensures View() == Copy(old(View()), to, data)
    {
      if to.Buffer? {
        if to.id in memory && |data| <= |memory[to.id]| {
          memory := memory[to.id := data + memory[to.id][|data|..]];
        } else {
          overrun := true;
        }
      }
    }

    /** ljca_parse. */
    method Parse(raw: seq<byte>) returns (ret: int)
      requires Validated(raw)
      modifies this`stubs, this`memory, this`overrun, this`notices
      ensures View() == Deliver(old(View()), raw) && notices == old(notices) + NoticedOf(old(stubs), raw)
      ensures ret == 0 ==> Find(old(stubs), raw[0]) >= 0
      ensures Answers(raw, raw[0], raw[1] as int) && ret == 0 ==> stubs[Find(old(stubs), raw[0])].acked
    {
      DeliverNotices(View(), raw);
      hide Find, NoticedOf;
      var i := StubFind(raw[0]);
      if i < 0 {
        return ENODEV;
      }
      if !IsAck(raw) {
        if stubs[i].listening {
          notices := notices + [Notice(stubs[i].typ, raw[1], Data(raw))];
        }
        return 0;
      }
      if stubs[i].curCmd != raw[1] as int {
        return EINVAL;
      }
      var to := stubs[i].ibuf;
      stubs := stubs[i := stubs[i].(ibufLen := |Data(raw)|)];
      CopyOut(to, Data(raw));
      stubs := stubs[i := stubs[i].(acked := true)];
      return 0;
    }

    /** ljca_read_complete: only what arrived without error and validates is parsed. */
    method ReadComplete(status: int, raw: seq<byte>)
      modifies this`stubs, this`memory, this`overrun, this`notices
      ensures View() == if status == 0 then Deliver(old(View()), raw) else old(View())
      ensures notices == old(notices) + if status == 0 then NoticedOf(old(stubs), raw) else []
    {
      DeliverNotices(View(), raw);
      if status == 0 && Validated(raw) {
        var _ := Parse(raw);
      }
    }

    /** Everything the host controller completes while a caller holds the mutex. */
    method ReceiveAll(msgs: seq<seq<byte>>)
      modifies this`stubs, this`memory, this`overrun, this`notices
      ensures View() == DeliverAll(old(View()), msgs)
    {
      hide Deliver;
      for k := 0 to |msgs|
        invariant DeliverAll(View(), msgs[k..]) == DeliverAll(old(View()), msgs)
      {
        ReadComplete(0, msgs[k]);
        assert msgs[k..][1..] == msgs[k + 1..];
      }
    }

    /** ljca_stub_write. */
    method StubWrite(i: nat, cmd: byte, obuf: seq<byte>, ibuf: Pointer, waitAck: bool, len: int) returns (ret: int, len': int)
      requires i < |stubs|
      modifies this`stubs, this`memory, this`overrun, this`notices, this`sent
      ensures |stubs| == |old(stubs)|
      ensures stopped || |obuf| > MAX_PAYLOAD_SIZE ==> sent == old(sent)
      ensures !stopped && |obuf| <= MAX_PAYLOAD_SIZE ==>
                sent == old(sent) + [Encode(old(stubs[i].typ), cmd, if waitAck then CMPL_FLAG + ACK_FLAG else CMPL_FLAG, obuf)]
      ensures Written(View(), ret, len') ==
                Write(old(View()), i, cmd, obuf, ibuf, waitAck, len, stopped, sending(sent), arrivals(sent))
      ensures notices == old(notices) +
                if stopped || |obuf| > MAX_PAYLOAD_SIZE then [] else NoticedIn(old(stubs), arrivals(sent))
    {
      hide Deliver, DeliverAll, NoticedOf, NoticedIn;
      len' := len;
      if stopped {
        return ENODEV, len;
      }
      if |obuf| > MAX_PAYLOAD_SIZE {
        return EINVAL, len;
      }
      stubs := stubs[i := stubs[i].(ibufLen := 0)];
      var msg := Encode(stubs[i].typ, cmd, if waitAck then CMPL_FLAG + ACK_FLAG else CMPL_FLAG, obuf);
      stubs := stubs[i := stubs[i].(curCmd := cmd as int, ibuf := ibuf, acked := false)];
      assert View() == Armed(old(View()), i, cmd, ibuf);
      sent := sent + [msg];
      var went := sending(sent);
      DeliverAllSetup(View(), arrivals(sent));
      DeliverAllNotices(View(), arrivals(sent));
      SameNoticedIn(stubs, old(stubs), arrivals(sent));
      ReceiveAll(arrivals(sent));
      if went.status != 0 || went.actual != |msg| {
        return went.status, len;
      }
      if waitAck && !stubs[i].acked {
        return ETIMEDOUT, len;
      }
      len' := stubs[i].ibufLen;
      stubs := stubs[i := stubs[i].(ibuf := Null, ibufLen := 0)];
      ret := 0;
    }

    /** ljca_transfer: the write goes to the first stub of the caller's type and waits for the acknowledgement. */
    method Transfer(typ: byte, cmd: byte, obuf: seq<byte>, ibuf: Pointer, len: int) returns (ret: int, len': int)
      modifies this`stubs, this`memory, this`overrun, this`notices, this`sent
      ensures Find(old(stubs), typ) < 0 ==> ret == ENODEV && len' == len && View() == old(View()) && sent == old(sent)
      ensures Find(old(stubs), typ) >= 0 && (stopped || |obuf| > MAX_PAYLOAD_SIZE) ==> sent == old(sent)
      ensures Find(old(stubs), typ) >= 0 && !stopped && |obuf| <= MAX_PAYLOAD_SIZE ==>
                sent == old(sent) + [Encode(typ, cmd, CMPL_FLAG + ACK_FLAG, obuf)]
      ensures Find(old(stubs), typ) >= 0 ==>
                Written(View(), ret, len') ==
                Write(old(View()), Find(old(stubs), typ), cmd, obuf, ibuf, true, len, stopped, sending(sent), arrivals(sent))
    {
      hide Find, Write;
      var i := StubFind(typ);
      if i < 0 {
        return ENODEV, len;
      }
      ret, len' := StubWrite(i, cmd, obuf, ibuf, true, len);
    }
  }
}
