/** SPI over the USB bridge: a transfer is cut into fragments, each sent as one acknowledged message. */
module LjcaSpi {
  import opened Bytes
  import opened Ljca

  const SPI_STUB: byte := 5
  const LJCA_SPI_READ: byte := 2
  const LJCA_SPI_WRITE: byte := 3
  const LJCA_SPI_WRITEREAD: byte := 4

  const LJCA_SPI_BUF_SIZE := 60
  const PACKET_HEADER := 2
  const LJCA_SPI_MAX_XFER_SIZE := LJCA_SPI_BUF_SIZE - PACKET_HEADER

  // Packets: an indicator (6 bits id, 1 bit last fragment, 1 bit controller), a signed length, data.

  function Indicator(id: nat, complete: bool, index: byte): byte {
    id % 64 + (if complete then 64 else 0) + index % 2 * 128
  }

  function FragmentId(indicator: byte): nat { indicator % 64 }
  predicate IsLast(indicator: byte) { indicator / 64 % 2 == 1 }
  function Controller(indicator: byte): nat { indicator / 128 }

  lemma IndicatorFields(id: nat, complete: bool, index: byte)
    ensures var b := Indicator(id, complete, index);
            FragmentId(b) == id % 64 && IsLast(b) == complete && Controller(b) == index % 2
  {
  }

  function Packet(id: nat, complete: bool, index: byte, data: seq<byte>): (p: seq<byte>)
    requires |data| <= LJCA_SPI_MAX_XFER_SIZE
    ensures |p| == PACKET_HEADER + |data| <= MAX_PAYLOAD_SIZE
  {
    [Indicator(id, complete, index), |data|] + data
  }

  function FragmentLen(remaining: nat): nat {
    if remaining > LJCA_SPI_MAX_XFER_SIZE then LJCA_SPI_MAX_XFER_SIZE else remaining
  }

  /** The data bytes of one fragment's packet: what is written, or for a read the length wanted, in 16 bits. */
  function Carried(cmd: byte, tx: seq<byte>, offset: nat, len: nat): (d: seq<byte>)
    requires cmd != LJCA_SPI_READ ==> offset + len <= |tx|
    requires len <= LJCA_SPI_MAX_XFER_SIZE
    ensures |d| <= LJCA_SPI_MAX_XFER_SIZE
  {
    if cmd == LJCA_SPI_READ then Le16(len) else tx[offset..offset + len]
  }

  /** The packets of a transfer of `len` bytes from `offset` on, the first of them number `id`. */
  function Packets(cmd: byte, index: byte, tx: seq<byte>, offset: nat, len: nat, id: nat): (ps: seq<seq<byte>>)
    requires offset <= len && (cmd != LJCA_SPI_READ ==> len <= |tx|)
    decreases len - offset
  {
    if offset == len then []
    else
      var n := FragmentLen(len - offset);
      [Packet(id, offset + n == len, index, Carried(cmd, tx, offset, n))] + Packets(cmd, index, tx, offset + n, len, id + 1)
  }

  function Joined(ps: seq<seq<byte>>): seq<byte>
    requires forall k :: 0 <= k < |ps| ==> |ps[k]| >= PACKET_HEADER
  {
    if ps == [] then [] else ps[0][PACKET_HEADER..] + Joined(ps[1..])
  }

  /** One packet of a partition: its place tells its id, whether it is the last and how much it carries. */
  predicate WellPlaced(p: seq<byte>, k: nat, count: nat, index: byte) {
    && PACKET_HEADER < |p| <= LJCA_SPI_BUF_SIZE
    && p[1] as int == |p| - PACKET_HEADER
    && FragmentId(p[0]) == k % 64 && Controller(p[0]) == index % 2
    && (IsLast(p[0]) <==> k == count - 1)
    && (k < count - 1 ==> |p| == LJCA_SPI_BUF_SIZE)
  }

  /** All packets of a partition, the first of them number `id`, `count` in the whole transfer. */
  ghost predicate AllPlaced(ps: seq<seq<byte>>, id: nat, count: nat, index: byte) {
    forall k :: 0 <= k < |ps| ==> |ps[k]| <= MAX_PAYLOAD_SIZE && WellPlaced(ps[k], id + k, count, index)
  }

  lemma PlacedBefore(p: seq<byte>, rest: seq<seq<byte>>, id: nat, count: nat, index: byte)
    requires |p| <= MAX_PAYLOAD_SIZE && WellPlaced(p, id, count, index) && AllPlaced(rest, id + 1, count, index)
    ensures AllPlaced([p] + rest, id, count, index)
  {
    hide WellPlaced;
    forall k | 0 <= k < |[p] + rest|
      ensures |([p] + rest)[k]| <= MAX_PAYLOAD_SIZE && WellPlaced(([p] + rest)[k], id + k, count, index)
    {
      if k > 0 {
        assert |rest[k - 1]| <= MAX_PAYLOAD_SIZE && WellPlaced(rest[k - 1], id + 1 + (k - 1), count, index);
      }
    }
  }

  lemma PacketsNone(cmd: byte, index: byte, tx: seq<byte>, len: nat, id: nat, count: nat)
    requires cmd != LJCA_SPI_READ ==> len <= |tx|
    ensures Packets(cmd, index, tx, len, len, id) == []
    ensures AllPlaced(Packets(cmd, index, tx, len, len, id), id, count, index)
  {
    hide WellPlaced;
  }

  lemma {:induction false} PacketsPlaced(cmd: byte, index: byte, tx: seq<byte>, offset: nat, len: nat, id: nat)
    requires cmd != LJCA_SPI_READ && offset <= len <= |tx|
    ensures AllPlaced(Packets(cmd, index, tx, offset, len, id), id, id + |Packets(cmd, index, tx, offset, len, id)|, index)
    decreases len - offset
  {
    hide Packets, WellPlaced, Packet, Carried, AllPlaced;
    if offset == len {
      PacketsNone(cmd, index, tx, len, id, id);
    } else {
      var n := FragmentLen(len - offset);
      FirstPlaced(cmd, index, tx, offset, len, id);
      var ps, rest := Packets(cmd, index, tx, offset, len, id), Packets(cmd, index, tx, offset + n, len, id + 1);
      PacketsPlaced(cmd, index, tx, offset + n, len, id + 1);
      assert |ps| == 1 + |rest|;
      PlacedBefore(ps[0], rest, id, id + |ps|, index);
    }
  }

  ghost predicate AllHeaded(ps: seq<seq<byte>>) {
    forall k :: 0 <= k < |ps| ==> |ps[k]| >= PACKET_HEADER
  }

  lemma JoinedFirst(p: seq<byte>, rest: seq<seq<byte>>)
    requires |p| >= PACKET_HEADER && AllHeaded(rest)
    ensures AllHeaded([p] + rest) && Joined([p] + rest) == p[PACKET_HEADER..] + Joined(rest)
  {
    assert ([p] + rest)[1..] == rest;
  }

  lemma {:induction false} PacketsJoined(cmd: byte, index: byte, tx: seq<byte>, offset: nat, len: nat, id: nat)
    requires cmd != LJCA_SPI_READ && offset <= len <= |tx|
    ensures AllHeaded(Packets(cmd, index, tx, offset, len, id))
    ensures Joined(Packets(cmd, index, tx, offset, len, id)) == tx[offset..len]
    decreases len - offset
  {
    hide WellPlaced, Packet, Carried, Packets, Joined, AllHeaded;
    if offset == len {
      NoneJoined(cmd, index, tx, len, id);
      assert tx[len..len] == [];
    } else {
      var n := FragmentLen(len - offset);
      FirstPlaced(cmd, index, tx, offset, len, id);
      var p, rest := Packets(cmd, index, tx, offset, len, id)[0], Packets(cmd, index, tx, offset + n, len, id + 1);
      PacketsJoined(cmd, index, tx, offset + n, len, id + 1);
      JoinedFirst(p, rest);
      assert tx[offset..offset + n] + tx[offset + n..len] == tx[offset..len];
    }
  }

  lemma NoneJoined(cmd: byte, index: byte, tx: seq<byte>, len: nat, id: nat)
    requires cmd != LJCA_SPI_READ ==> len <= |tx|
    ensures AllHeaded(Packets(cmd, index, tx, len, len, id)) && Joined(Packets(cmd, index, tx, len, len, id)) == []
  {
  }

  lemma {:induction false} PacketsCount(cmd: byte, index: byte, tx: seq<byte>, offset: nat, len: nat, id: nat)
    requires offset <= len && (cmd != LJCA_SPI_READ ==> len <= |tx|)
    ensures |Packets(cmd, index, tx, offset, len, id)| == (len - offset + LJCA_SPI_MAX_XFER_SIZE - 1) / LJCA_SPI_MAX_XFER_SIZE
    decreases len - offset
  {
    if offset < len {
      PacketsCount(cmd, index, tx, offset + FragmentLen(len - offset), len, id + 1);
    }
  }

  /**
   Fragmentation is an exact partition: the packets carry the bytes in order, every one of them once,
   1 to 58 in each and 58 in all but the last, numbered from zero modulo 64, the last and only the last
   one marked, and none too long for the bridge.
   */
  lemma PacketsPartition(cmd: byte, index: byte, tx: seq<byte>, len: nat)
    requires cmd != LJCA_SPI_READ && len <= |tx|
    ensures var ps := Packets(cmd, index, tx, 0, len, 0);
            && |ps| == (len + LJCA_SPI_MAX_XFER_SIZE - 1) / LJCA_SPI_MAX_XFER_SIZE
            && (forall k :: 0 <= k < |ps| ==> |ps[k]| <= MAX_PAYLOAD_SIZE && WellPlaced(ps[k], k, |ps|, index))
            && Joined(ps) == tx[..len]
  {
    hide Packets;
    PacketsPlaced(cmd, index, tx, 0, len, 0);
    hide WellPlaced;
    PacketsJoined(cmd, index, tx, 0, len, 0);
    PacketsCount(cmd, index, tx, 0, len, 0);
  }

  lemma FirstPlaced(cmd: byte, index: byte, tx: seq<byte>, offset: nat, len: nat, id: nat)
    requires cmd != LJCA_SPI_READ && offset < len <= |tx|
    ensures var ps := Packets(cmd, index, tx, offset, len, id);
            var n := FragmentLen(len - offset);
            && |ps| > 0 && ps == [ps[0]] + Packets(cmd, index, tx, offset + n, len, id + 1)
            && PACKET_HEADER <= |ps[0]| <= MAX_PAYLOAD_SIZE && ps[0][PACKET_HEADER..] == tx[offset..offset + n]
            && (Packets(cmd, index, tx, offset + n, len, id + 1) == [] <==> offset + n == len)
            && WellPlaced(ps[0], id, id + |ps|, index)
  {
    var n := FragmentLen(len - offset);
    IndicatorFields(id, offset + n == len, index);
    hide Indicator;
  }

  /** The messages that carry the packets. */
  function Framed(cmd: byte, ps: seq<seq<byte>>): (ms: seq<seq<byte>>)
    requires forall k :: 0 <= k < |ps| ==> |ps[k]| <= MAX_PAYLOAD_SIZE
    ensures |ms| == |ps|
  {
    seq(|ps|, k requires 0 <= k < |ps| => Encode(SPI_STUB, cmd, CMPL_FLAG + ACK_FLAG, ps[k]))
  }

  /** An acknowledgement the driver takes: long enough, and with a positive signed length. */
  predicate Usable(n: nat, r: seq<byte>)
    requires |r| == LJCA_SPI_BUF_SIZE
  {
    n >= PACKET_HEADER && 0 < r[1] < 0x80
  }

  /** The received bytes fit both the driver's buffer they come from and the caller's they go to. */
  predicate InBounds(r: seq<byte>, at: nat, size: nat)
    requires |r| == LJCA_SPI_BUF_SIZE
  {
    PACKET_HEADER + r[1] as int <= |r| && at + r[1] as int <= size
  }

  /** The caller's receive buffer after a usable acknowledgement. */
  function Taken(rx: seq<byte>, at: nat, r: seq<byte>): seq<byte>
    requires |r| == LJCA_SPI_BUF_SIZE
  {
    if InBounds(r, at, |rx|) then Splice(rx, at, r[PACKET_HEADER..PACKET_HEADER + r[1] as int]) else rx
  }

  /** An acknowledgement that brings up to 58 bytes is taken, and they land where they belong; one without any, or cut short, is not. */
  lemma ReplyTaken(indicator: byte, data: seq<byte>, behind: seq<byte>, rx: seq<byte>, at: nat)
    requires |data| <= LJCA_SPI_MAX_XFER_SIZE && 2 + |data| + |behind| == LJCA_SPI_BUF_SIZE && at + |data| <= |rx|
    ensures var r := [indicator, |data|] + data + behind;
            && (forall n: nat :: Usable(n, r) <==> n >= 2 && data != [])
            && Taken(rx, at, r) == rx[..at] + data + rx[at + |data|..]
  {
    var r := [indicator, |data|] + data + behind;
    assert r[2..2 + |data|] == data;
  }

  /**
   What one fragment comes to, given the data of its acknowledgements: without any it times out, an
   unusable one is an I/O error, and otherwise the receive buffer takes over the bytes returned.
   */
  ghost predicate FragmentOutcome(answers: seq<seq<byte>>, before: seq<byte>, after: seq<byte>,
                                  rxBefore: seq<byte>, at: nat, ret: int, rxAfter: seq<byte>)
    requires |before| == LJCA_SPI_BUF_SIZE
  {
    if answers == [] then ret == ETIMEDOUT && rxAfter == rxBefore
    else Fit(answers, LJCA_SPI_BUF_SIZE) ==>
      && after == Overlaid(before, answers)
      && if Usable(|answers[|answers| - 1]|, after) then ret == 0 && rxAfter == Taken(rxBefore, at, after)
         else ret == EIO && rxAfter == rxBefore
  }

  /** A device that returns every WRITEREAD packet in its one acknowledgement, among whatever else it sends. */
  ghost predicate Echoes(sending: seq<seq<byte>> -> Sending, arrivals: seq<seq<byte>> -> seq<seq<byte>>) {
    forall h: seq<seq<byte>>, p: seq<byte> :: PACKET_HEADER <= |p| <= LJCA_SPI_BUF_SIZE ==>
      EchoesAfter(sending, arrivals, h, p)
  }

  ghost predicate EchoesAfter(sending: seq<seq<byte>> -> Sending, arrivals: seq<seq<byte>> -> seq<seq<byte>>, h: seq<seq<byte>>, p: seq<byte>)
    requires |p| <= LJCA_SPI_BUF_SIZE
  {
    var sent := h + [Encode(SPI_STUB, LJCA_SPI_WRITEREAD, CMPL_FLAG + ACK_FLAG, p)];
    SentWhole(sending(sent), p) && AnswersIn(arrivals(sent), SPI_STUB, LJCA_SPI_WRITEREAD as int) == [p]
  }

  /** There are such devices: one that sends every message straight back, after something that is no answer. */
  lemma MirrorEchoes(noise: seq<byte>)
    requires !Answers(noise, SPI_STUB, LJCA_SPI_WRITEREAD as int)
    ensures Echoes(h => if h == [] then Sending(0, 0) else Sending(0, |h[|h| - 1]|),
                   h => if h == [] then [] else [noise, h[|h| - 1]])
  {
    var sending := (h: seq<seq<byte>>) => if h == [] then Sending(0, 0) else Sending(0, |h[|h| - 1]|);
    var arrivals := (h: seq<seq<byte>>) => if h == [] then [] else [noise, h[|h| - 1]];
    forall h: seq<seq<byte>>, p: seq<byte> | PACKET_HEADER <= |p| <= LJCA_SPI_BUF_SIZE
      ensures EchoesAfter(sending, arrivals, h, p)
    {
      var m := Encode(SPI_STUB, LJCA_SPI_WRITEREAD, CMPL_FLAG + ACK_FLAG, p);
      var msgs := arrivals(h + [m]);
      assert msgs == [noise, m] && msgs[1..] == [m];
      assert Answers(m, SPI_STUB, LJCA_SPI_WRITEREAD as int);
      assert AnswersIn(msgs[1..], SPI_STUB, LJCA_SPI_WRITEREAD as int) == [p];
    }
  }

  /** With such a device a fragment comes back unchanged, in place and in bounds. */
  lemma EchoedFragment(sending: seq<seq<byte>> -> Sending, arrivals: seq<seq<byte>> -> seq<seq<byte>>, h: seq<seq<byte>>,
                       id: nat, complete: bool, index: byte, data: seq<byte>, before: seq<byte>, after: seq<byte>,
                       rxBefore: seq<byte>, at: nat, ret: int, rxAfter: seq<byte>)
    requires Echoes(sending, arrivals) && 0 < |data| <= LJCA_SPI_MAX_XFER_SIZE && at + |data| <= |rxBefore|
    requires |before| == LJCA_SPI_BUF_SIZE
    requires var p := Packet(id, complete, index, data);
             var sent := h + [Encode(SPI_STUB, LJCA_SPI_WRITEREAD, CMPL_FLAG + ACK_FLAG, p)];
             SentWhole(sending(sent), p) ==>
               FragmentOutcome(AnswersIn(arrivals(sent), SPI_STUB, LJCA_SPI_WRITEREAD as int),
                               before, after, rxBefore, at, ret, rxAfter)
    ensures ret == 0 && rxAfter == Splice(rxBefore, at, data)
    ensures |after| == LJCA_SPI_BUF_SIZE && InBounds(after, at, |rxBefore|)
  {
    var p := Packet(id, complete, index, data);
    assert EchoesAfter(sending, arrivals, h, p);
    hide Echoes, AnswersIn, Indicator, Splice;
    assert p[1] as int == |data|;
    var none: seq<seq<byte>> := [p][1..];
    assert none == [] && Overlaid(p + before[|p|..], none) == p + before[|p|..];
    assert (p + before[|p|..])[PACKET_HEADER..PACKET_HEADER + |data|] == data;
  }

  function Contents(a: array?<byte>): seq<byte>
    reads a
  {
    if a == null then [] else a[..]
  }

  /** The bridge holds buffer `id`, of the driver's size, and only the SPI stub may point at it. */
  predicate Prepared(b: Bridge, id: nat) {
    && id in b.memory && |b.memory[id]| == LJCA_SPI_BUF_SIZE
    && forall j :: 0 <= j < |b.stubs| && j != Find(b.stubs, SPI_STUB) ==> b.stubs[j].ibuf != Buffer(id)
  }

  lemma StillPrepared(b: Bridge, cmd: byte, p: seq<byte>, id: nat, len: int, stopped: bool, sending: Sending, msgs: seq<seq<byte>>)
    requires Prepared(b, id) && Find(b.stubs, SPI_STUB) >= 0
    ensures var b' := Write(b, Find(b.stubs, SPI_STUB), cmd, p, Buffer(id), true, len, stopped, sending, msgs).bridge;
            Prepared(b', id) && Find(b'.stubs, SPI_STUB) == Find(b.stubs, SPI_STUB)
  {
    hide Write, Find;
    var i := Find(b.stubs, SPI_STUB);
    var b' := Write(b, i, cmd, p, Buffer(id), true, len, stopped, sending, msgs).bridge;
    WriteKeeps(b, i, cmd, p, Buffer(id), true, len, stopped, sending, msgs, id);
    SameTypes(b'.stubs, b.stubs, SPI_STUB);
  }

  /** A packet that went out whole: the answers among what arrived decide the result, the length and the buffer. */
  lemma WholePacket(b: Bridge, cmd: byte, p: seq<byte>, id: nat, len: int, sending: Sending, msgs: seq<seq<byte>>)
    requires Prepared(b, id) && Find(b.stubs, SPI_STUB) >= 0 && |p| <= MAX_PAYLOAD_SIZE && SentWhole(sending, p)
    ensures var w := Write(b, Find(b.stubs, SPI_STUB), cmd, p, Buffer(id), true, len, false, sending, msgs);
            var answers := AnswersIn(msgs, SPI_STUB, cmd as int);
            if answers == [] then w.ret == ETIMEDOUT
            else
              && w.ret == 0 && w.len == |answers[|answers| - 1]|
              && (Fit(answers, LJCA_SPI_BUF_SIZE) ==>
                    id in w.bridge.memory && w.bridge.memory[id] == Overlaid(b.memory[id], answers))
  {
    hide Write, Find, AnswersIn, Overlaid;
    var i := Find(b.stubs, SPI_STUB);
    WriteOutcome(b, i, cmd, p, Buffer(id), true, len, false, sending, msgs);
    if Fit(AnswersIn(msgs, SPI_STUB, cmd as int), LJCA_SPI_BUF_SIZE) {
      WriteMemory(b, i, cmd, p, id, true, len, sending, msgs);
    }
  }

  function Command(hasTx: bool, hasRx: bool): byte {
    if hasTx && hasRx then LJCA_SPI_WRITEREAD else if hasTx then LJCA_SPI_WRITE else LJCA_SPI_READ
  }

  /** The packets of the whole transfer are those gone so far and those still to come. */
  ghost predicate FragmentsGone(cmd: byte, index: byte, tx: seq<byte>, len: nat, offset: nat, id: nat,
                                before: seq<seq<byte>>, sent: seq<seq<byte>>)
    requires offset <= len && (cmd != LJCA_SPI_READ ==> len <= |tx|)
  {
    exists gone: seq<seq<byte>> :: Gone(gone, cmd, index, tx, len, offset, id, before, sent)
  }

  ghost predicate Gone(gone: seq<seq<byte>>, cmd: byte, index: byte, tx: seq<byte>, len: nat, offset: nat, id: nat,
                       before: seq<seq<byte>>, sent: seq<seq<byte>>)
    requires offset <= len && (cmd != LJCA_SPI_READ ==> len <= |tx|)
  {
    && |gone| == id
    && (forall k :: 0 <= k < |gone| ==> |gone[k]| <= MAX_PAYLOAD_SIZE)
    && Packets(cmd, index, tx, 0, len, 0) == gone + Packets(cmd, index, tx, offset, len, id)
    && sent == before + Framed(cmd, gone)
  }

  /** On success every fragment's message went out, in order; on failure they stop after the one that failed. */
  ghost predicate FragmentsSent(cmd: byte, index: byte, tx: seq<byte>, len: nat,
                                before: seq<seq<byte>>, sent: seq<seq<byte>>, ret: int)
    requires cmd != LJCA_SPI_READ ==> len <= |tx|
  {
    var ps := Packets(cmd, index, tx, 0, len, 0);
    && (forall k :: 0 <= k < |ps| ==> |ps[k]| <= MAX_PAYLOAD_SIZE)
    && if ret == 0 then sent == before + Framed(cmd, ps)
       else exists n :: 0 < n <= |ps| && sent == before + Framed(cmd, ps)[..n]
  }

  lemma {:induction false} PacketsShort(cmd: byte, index: byte, tx: seq<byte>, offset: nat, len: nat, id: nat)
    requires offset <= len && (cmd != LJCA_SPI_READ ==> len <= |tx|)
    ensures forall k :: 0 <= k < |Packets(cmd, index, tx, offset, len, id)| ==>
              |Packets(cmd, index, tx, offset, len, id)[k]| <= MAX_PAYLOAD_SIZE
    decreases len - offset
  {
    if offset < len {
      var n := FragmentLen(len - offset);
      PacketsShort(cmd, index, tx, offset + n, len, id + 1);
      hide Packet, Carried;
    }
  }

  lemma FragmentsStart(cmd: byte, index: byte, tx: seq<byte>, len: nat, before: seq<seq<byte>>)
    requires cmd != LJCA_SPI_READ ==> len <= |tx|
    ensures FragmentsGone(cmd, index, tx, len, 0, 0, before, before)
  {
    var none: seq<seq<byte>> := [];
    hide Packets;
    assert Packets(cmd, index, tx, 0, len, 0) == none + Packets(cmd, index, tx, 0, len, 0);
    assert before == before + Framed(cmd, none);
    assert Gone(none, cmd, index, tx, len, 0, 0, before, before);
  }

  /** The packet the loop sends next. */
  function NextPacket(cmd: byte, index: byte, tx: seq<byte>, len: nat, offset: nat, id: nat): (p: seq<byte>)
    requires offset < len && (cmd != LJCA_SPI_READ ==> len <= |tx|)
    ensures |p| <= MAX_PAYLOAD_SIZE
  {
    var n := FragmentLen(len - offset);
    Packet(id, offset + n == len, index, Carried(cmd, tx, offset, n))
  }

  lemma FragmentsNext(cmd: byte, index: byte, tx: seq<byte>, len: nat, offset: nat, id: nat,
                      before: seq<seq<byte>>, sent: seq<seq<byte>>, sent': seq<seq<byte>>)
    requires offset < len && (cmd != LJCA_SPI_READ ==> len <= |tx|)
    requires FragmentsGone(cmd, index, tx, len, offset, id, before, sent)
    requires sent' == sent + [Encode(SPI_STUB, cmd, CMPL_FLAG + ACK_FLAG, NextPacket(cmd, index, tx, len, offset, id))]
    ensures FragmentsGone(cmd, index, tx, len, offset + FragmentLen(len - offset), id + 1, before, sent')
  {
    var gone: seq<seq<byte>> :| Gone(gone, cmd, index, tx, len, offset, id, before, sent);
    var p := NextPacket(cmd, index, tx, len, offset, id);
    var next := offset + FragmentLen(len - offset);
    assert Packets(cmd, index, tx, offset, len, id) == [p] + Packets(cmd, index, tx, next, len, id + 1);
    hide Packets, NextPacket, Encode, Framed, Packet, Carried, FragmentLen, Gone;
    GoneSnoc(gone, p, cmd, index, tx, len, offset, next, id, before, sent);
  }

  lemma GoneSnoc(gone: seq<seq<byte>>, p: seq<byte>, cmd: byte, index: byte, tx: seq<byte>, len: nat, offset: nat, next: nat,
                 id: nat, before: seq<seq<byte>>, sent: seq<seq<byte>>)
    requires offset <= next <= len && (cmd != LJCA_SPI_READ ==> len <= |tx|) && |p| <= MAX_PAYLOAD_SIZE
    requires Gone(gone, cmd, index, tx, len, offset, id, before, sent)
    requires Packets(cmd, index, tx, offset, len, id) == [p] + Packets(cmd, index, tx, next, len, id + 1)
    ensures Gone(gone + [p], cmd, index, tx, len, next, id + 1, before, sent + [Encode(SPI_STUB, cmd, CMPL_FLAG + ACK_FLAG, p)])
  {
    hide Packets, Encode, Framed;
    FramedSnoc(cmd, gone, p);
    var rest := Packets(cmd, index, tx, next, len, id + 1);
    assert gone + ([p] + rest) == (gone + [p]) + rest;
    var m := Encode(SPI_STUB, cmd, CMPL_FLAG + ACK_FLAG, p);
    assert before + (Framed(cmd, gone) + [m]) == (before + Framed(cmd, gone)) + [m];
  }

  lemma FramedSnoc(cmd: byte, gone: seq<seq<byte>>, p: seq<byte>)
    requires (forall k :: 0 <= k < |gone| ==> |gone[k]| <= MAX_PAYLOAD_SIZE) && |p| <= MAX_PAYLOAD_SIZE
    ensures forall k :: 0 <= k < |gone + [p]| ==> |(gone + [p])[k]| <= MAX_PAYLOAD_SIZE
    ensures Framed(cmd, gone + [p]) == Framed(cmd, gone) + [Encode(SPI_STUB, cmd, CMPL_FLAG + ACK_FLAG, p)]
  {
  }

  lemma FragmentsOver(cmd: byte, index: byte, tx: seq<byte>, len: nat, offset: nat, id: nat,
                      before: seq<seq<byte>>, sent: seq<seq<byte>>, ret: int)
    requires offset <= len && (cmd != LJCA_SPI_READ ==> len <= |tx|)
    requires FragmentsGone(cmd, index, tx, len, offset, id, before, sent)
    requires if ret == 0 then offset == len else 0 < id
    ensures FragmentsSent(cmd, index, tx, len, before, sent, ret)
  {
    PacketsShort(cmd, index, tx, 0, len, 0);
    var gone: seq<seq<byte>> :| Gone(gone, cmd, index, tx, len, offset, id, before, sent);
    var ps := Packets(cmd, index, tx, 0, len, 0);
    if ret == 0 {
      assert ps == gone;
    } else {
      assert Framed(cmd, ps)[..|gone|] == Framed(cmd, gone);
    }
  }

  // What the messages say, read from their own bytes.

  /** A message of the SPI stub that asks for an acknowledgement, its packet headed. */
  predicate SpiMessage(m: seq<byte>, cmd: byte) {
    |m| >= 6 && m[0] == SPI_STUB && m[1] == cmd && m[2] == 5 && m[3] as int == |m| - 4
  }

  predicate AllSpi(ms: seq<seq<byte>>, cmd: byte) {
    forall k :: 0 <= k < |ms| ==> SpiMessage(ms[k], cmd)
  }

  /** What the packets carry, past message and packet headers, joined. */
  function Payloads(ms: seq<seq<byte>>): seq<byte>
    requires forall k :: 0 <= k < |ms| ==> |ms[k]| >= 6
  {
    if ms == [] then [] else ms[0][6..] + Payloads(ms[1..])
  }

  /** These messages write the data: all of it, or, if cut short, its beginning. */
  predicate Writes(ms: seq<seq<byte>>, cmd: byte, data: seq<byte>, all: bool) {
    AllSpi(ms, cmd) && Payloads(ms) <= data && (all ==> Payloads(ms) == data)
  }

  /** How many fragments a length takes, and how much of it the k-th is for. */
  function Fragments(len: nat): nat {
    (len + LJCA_SPI_MAX_XFER_SIZE - 1) / LJCA_SPI_MAX_XFER_SIZE
  }

  function Share(len: nat, k: nat): int {
    if k < Fragments(len) - 1 then 58 else len - 58 * (Fragments(len) - 1)
  }

  /** These messages ask for `len` bytes, 58 by 58 and then the rest, in a 16-bit field. */
  predicate Reads(ms: seq<seq<byte>>, len: nat, all: bool) {
    && AllSpi(ms, LJCA_SPI_READ) && |ms| <= Fragments(len) && (all ==> |ms| == Fragments(len))
    && forall k :: 0 <= k < |ms| ==> |ms[k]| == 8 && ms[k][5] == 2 && ms[k][6] as int + 0x100 * (ms[k][7] as int) == Share(len, k)
  }

  /** The shares add up. */
  function Shares(len: nat, n: nat): int {
    if n == 0 then 0 else Shares(len, n - 1) + Share(len, n - 1)
  }

  lemma {:induction false} SharesSum(len: nat, n: nat)
    requires n <= Fragments(len)
    ensures Shares(len, n) == if n == Fragments(len) then len else 58 * n
    ensures n > 0 ==> 0 < Share(len, n - 1) <= 58
  {
    if n > 0 {
      SharesSum(len, n - 1);
    }
  }

  lemma FramedIs(cmd: byte, p: seq<byte>)
    requires PACKET_HEADER <= |p| <= MAX_PAYLOAD_SIZE
    ensures var m := Encode(SPI_STUB, cmd, CMPL_FLAG + ACK_FLAG, p);
            SpiMessage(m, cmd) && m[4..] == p && m[6..] == p[PACKET_HEADER..]
  {
  }

  lemma {:induction false} PayloadsOf(cmd: byte, ps: seq<seq<byte>>)
    requires AllHeaded(ps) && forall k :: 0 <= k < |ps| ==> |ps[k]| <= MAX_PAYLOAD_SIZE
    ensures AllSpi(Framed(cmd, ps), cmd) && Payloads(Framed(cmd, ps)) == Joined(ps)
    decreases |ps|
  {
    hide SpiMessage, Encode;
    forall k | 0 <= k < |ps|
      ensures SpiMessage(Framed(cmd, ps)[k], cmd) && |Framed(cmd, ps)[k]| >= 6
    {
      FramedIs(cmd, ps[k]);
      hide Framed;
    }
    if ps != [] {
      FramedIs(cmd, ps[0]);
      PayloadsOf(cmd, ps[1..]);
      assert Framed(cmd, ps)[1..] == Framed(cmd, ps[1..]);
    }
  }

  lemma {:induction false} PayloadsPrefix(ms: seq<seq<byte>>, n: nat)
    requires n <= |ms| && forall k :: 0 <= k < |ms| ==> |ms[k]| >= 6
    ensures Payloads(ms[..n]) <= Payloads(ms)
    decreases n
  {
    if n > 0 {
      assert ms[..n][1..] == ms[1..][..n - 1];
      PayloadsPrefix(ms[1..], n - 1);
    }
  }

  /** The packet of a read: two bytes, the share of its fragment. */
  predicate AsksFor(p: seq<byte>, share: int) {
    |p| == 4 && p[1] == 2 && p[2] as int + 0x100 * (p[3] as int) == share
  }

  lemma {:induction false} ReadPackets(index: byte, tx: seq<byte>, offset: nat, len: nat, id: nat)
    requires offset == LJCA_SPI_MAX_XFER_SIZE * id && offset < len
    ensures var ps := Packets(LJCA_SPI_READ, index, tx, offset, len, id);
            && id + |ps| == Fragments(len)
            && forall k :: 0 <= k < |ps| ==> AsksFor(ps[k], Share(len, id + k))
    decreases len - offset
  {
    hide AsksFor;
    var n := FragmentLen(len - offset);
    var ps := Packets(LJCA_SPI_READ, index, tx, offset, len, id);
    var rest := Packets(LJCA_SPI_READ, index, tx, offset + n, len, id + 1);
    FirstRead(index, tx, offset, len, id);
    if offset + n < len {
      ReadPackets(index, tx, offset + n, len, id + 1);
      forall k | 0 <= k < |ps|
        ensures AsksFor(ps[k], Share(len, id + k))
      {
        if k > 0 {
          assert ps[k] == rest[k - 1] && AsksFor(rest[k - 1], Share(len, id + 1 + (k - 1)));
        }
      }
    } else {
      PacketsNone(LJCA_SPI_READ, index, tx, len, id + 1, 0);
    }
  }

  lemma FirstRead(index: byte, tx: seq<byte>, offset: nat, len: nat, id: nat)
    requires offset == LJCA_SPI_MAX_XFER_SIZE * id && offset < len
    ensures var n := FragmentLen(len - offset);
            var ps := Packets(LJCA_SPI_READ, index, tx, offset, len, id);
            && |ps| > 0 && ps == [ps[0]] + Packets(LJCA_SPI_READ, index, tx, offset + n, len, id + 1)
            && AsksFor(ps[0], Share(len, id)) && (offset + n == len ==> id + 1 == Fragments(len))
  {
    hide Indicator;
  }

  lemma ReadsOf(index: byte, tx: seq<byte>, len: nat, n: nat)
    requires len > 0 && n <= |Packets(LJCA_SPI_READ, index, tx, 0, len, 0)|
    requires forall k :: 0 <= k < |Packets(LJCA_SPI_READ, index, tx, 0, len, 0)| ==>
               |Packets(LJCA_SPI_READ, index, tx, 0, len, 0)[k]| <= MAX_PAYLOAD_SIZE
    ensures var ms := Framed(LJCA_SPI_READ, Packets(LJCA_SPI_READ, index, tx, 0, len, 0));
            Reads(ms[..n], len, n == |ms|)
  {
    hide Packets, Share, Fragments;
    var ps := Packets(LJCA_SPI_READ, index, tx, 0, len, 0);
    ReadPackets(index, tx, 0, len, 0);
    var ms := Framed(LJCA_SPI_READ, ps);
    forall k | 0 <= k < |ps|
      ensures SpiMessage(ms[k], LJCA_SPI_READ) && |ms[k]| == 8 && ms[k][5] == 2
      ensures ms[k][6] as int + 0x100 * (ms[k][7] as int) == Share(len, k)
    {
      assert AsksFor(ps[k], Share(len, 0 + k));
      FramedIs(LJCA_SPI_READ, ps[k]);
      assert ms[k][4..] == ps[k];
    }
  }

  lemma WritesOf(cmd: byte, index: byte, tx: seq<byte>, len: nat, n: nat)
    requires cmd != LJCA_SPI_READ && len <= |tx| && n <= |Packets(cmd, index, tx, 0, len, 0)|
    requires forall k :: 0 <= k < |Packets(cmd, index, tx, 0, len, 0)| ==> |Packets(cmd, index, tx, 0, len, 0)[k]| <= MAX_PAYLOAD_SIZE
    ensures var ms := Framed(cmd, Packets(cmd, index, tx, 0, len, 0));
            Writes(ms[..n], cmd, tx[..len], n == |ms|)
  {
    hide Packets, Framed, Joined;
    var ps := Packets(cmd, index, tx, 0, len, 0);
    PacketsJoined(cmd, index, tx, 0, len, 0);
    PayloadsOf(cmd, ps);
    var ms := Framed(cmd, ps);
    PayloadsPrefix(ms, n);
    assert n == |ms| ==> ms[..n] == ms;
    assert tx[0..len] == tx[..len];
  }

  /**
   What a transfer puts on the bridge, by which buffers the caller gave: with data to send alone it is
   written, with room to receive alone the length is asked for, and with both it is written for an echo.
   */
  ghost predicate OnTheBridge(hasTx: bool, hasRx: bool, tx: seq<byte>, len: nat, before: seq<seq<byte>>, sent: seq<seq<byte>>, ret: int) {
    && before <= sent
    && var new' := sent[|before|..];
    && (hasTx && hasRx && len <= |tx| ==> Writes(new', LJCA_SPI_WRITEREAD, tx[..len], ret == 0))
    && (hasTx && !hasRx && len <= |tx| ==> Writes(new', LJCA_SPI_WRITE, tx[..len], ret == 0))
    && (!hasTx && hasRx ==> Reads(new', len, ret == 0))
  }

  lemma SentIsOnTheBridge(hasTx: bool, hasRx: bool, index: byte, tx: seq<byte>, len: nat, before: seq<seq<byte>>, sent: seq<seq<byte>>, ret: int)
    requires (hasTx ==> len <= |tx|) && (hasTx || hasRx)
    requires FragmentsSent(Command(hasTx, hasRx), index, tx, len, before, sent, ret)
    ensures OnTheBridge(hasTx, hasRx, tx, len, before, sent, ret)
  {
    hide Packets, Framed, Writes, Reads;
    var cmd := Command(hasTx, hasRx);
    var ps := Packets(cmd, index, tx, 0, len, 0);
    var ms := Framed(cmd, ps);
    var n: nat := if ret == 0 then |ps| else var n: nat :| 0 < n <= |ps| && sent == before + ms[..n]; n;
    assert ms[..|ps|] == ms;
    assert sent == before + ms[..n] && sent[|before|..] == ms[..n];
    if cmd != LJCA_SPI_READ {
      WritesOf(cmd, index, tx, len, n);
      WritesAnyway(ms[..n], cmd, tx[..len], n == |ms|, ret == 0);
    } else if len > 0 {
      ReadsOf(index, tx, len, n);
      ReadsAnyway(ms[..n], len, n == |ms|, ret == 0);
    } else {
      PacketsNone(cmd, index, tx, 0, 0, 0);
      NothingRead();
    }
  }

  lemma NothingRead()
    ensures Reads([], 0, true) && Reads([], 0, false)
  {
  }

  lemma WritesAnyway(ms: seq<seq<byte>>, cmd: byte, data: seq<byte>, all: bool, ok: bool)
    requires Writes(ms, cmd, data, all) && (ok ==> all)
    ensures Writes(ms, cmd, data, ok)
  {
  }

  lemma ReadsAnyway(ms: seq<seq<byte>>, len: nat, all: bool, ok: bool)
    requires Reads(ms, len, all) && (ok ==> all)
    ensures Reads(ms, len, ok)
  {
  }

  lemma RxGrows(rx: seq<byte>, tx: seq<byte>, rx0: seq<byte>, offset: nat, n: nat)
    requires offset + n <= |tx| && |rx| == |rx0| && offset + n <= |rx0|
    requires rx == tx[..offset] + rx0[offset..]
    ensures Splice(rx, offset, tx[offset..offset + n]) == tx[..offset + n] + rx0[offset + n..]
  {
    var r := Splice(rx, offset, tx[offset..offset + n]);
    assert tx[..offset + n] == tx[..offset] + tx[offset..offset + n];
    assert rx[..offset] == tx[..offset] && rx[offset + n..] == rx0[offset + n..];
  }

  class SpiDev {
    const ljca: LjcaDev
    const index: byte
    const ibuf: nat
    const obuf: array<byte>
    var overrun: bool

    /** The bridge knows this driver's receive buffer, and only the SPI stub may ever point at it. */
    ghost predicate Valid()
      reads this, ljca
    {
      && obuf.Length == LJCA_SPI_BUF_SIZE
      && Prepared(ljca.View(), ibuf)
    }

    constructor (ljca: LjcaDev, index: byte, ibuf: nat)
      requires ibuf in ljca.memory && |ljca.memory[ibuf]| == LJCA_SPI_BUF_SIZE
      requires forall j :: 0 <= j < |ljca.stubs| ==> ljca.stubs[j].ibuf != Buffer(ibuf)
      ensures Valid() && this.ljca == ljca && this.index == index && this.ibuf == ibuf && !overrun && fresh(obuf)
    {
      this.ljca, this.index, this.ibuf, overrun := ljca, index, ibuf, false;
      obuf := new byte[LJCA_SPI_BUF_SIZE](_ => 0);
    }

    /** Whether a message can go out at all. */
    predicate Reachable()
      reads ljca
    {
      Find(ljca.stubs, SPI_STUB) >= 0 && !ljca.stopped
    }

    /** The fragment's packet in the transmit buffer. */
    method FillPacket(id: nat, complete: bool, cmd: byte, data: seq<byte>, len: nat) returns (n: nat)
      requires obuf.Length == LJCA_SPI_BUF_SIZE && 0 < len <= LJCA_SPI_MAX_XFER_SIZE
      requires cmd != LJCA_SPI_READ ==> |data| == len
      modifies obuf
      ensures n <= LJCA_SPI_BUF_SIZE
      ensures obuf[..n] == Packet(id, complete, index, if cmd == LJCA_SPI_READ then Le16(len) else data)
    {
      obuf[0] := Indicator(id, complete, index);
      if cmd == LJCA_SPI_READ {
        obuf[1] := 2;
        Put(obuf, PACKET_HEADER, Le16(len));
      } else {
        obuf[1] := len;
        Put(obuf, PACKET_HEADER, data);
      }
      n := PACKET_HEADER + obuf[1] as int;
      hide Indicator, Le16;
    }

    /** The first half of a fragment: its packet goes out and the acknowledgement is awaited. */
    method Exchange(data: seq<byte>, len: nat, id: nat, complete: bool, cmd: byte, ghost p: seq<byte>)
      returns (ret: int, ibufLen: int)
      requires Valid() && 0 < len <= LJCA_SPI_MAX_XFER_SIZE
      requires cmd != LJCA_SPI_READ ==> |data| == len
      requires p == Packet(id, complete, index, if cmd == LJCA_SPI_READ then Le16(len) else data)
      modifies obuf, ljca`stubs, ljca`memory, ljca`overrun, ljca`notices, ljca`sent
      ensures Valid() && Reachable() == old(Reachable())
      ensures !Reachable() ==> ret == ENODEV && ljca.sent == old(ljca.sent)
      ensures Reachable() ==>
                && ljca.sent == old(ljca.sent) + [Encode(SPI_STUB, cmd, CMPL_FLAG + ACK_FLAG, p)]
                && (ljca.sending(ljca.sent).status != 0 ==> ret == ljca.sending(ljca.sent).status)
                && (SentWhole(ljca.sending(ljca.sent), p) ==>
                      var answers := AnswersIn(ljca.arrivals(ljca.sent), SPI_STUB, cmd as int);
                      if answers == [] then ret == ETIMEDOUT
                      else
                        && ret == 0 && ibufLen == |answers[|answers| - 1]|
                        && (Fit(answers, LJCA_SPI_BUF_SIZE) ==> ljca.memory[ibuf] == Overlaid(old(ljca.memory[ibuf]), answers)))
    {
      hide Packet, Write, Find, AnswersIn, Overlaid, Indicator;
      var n := FillPacket(id, complete, cmd, data, len);
      ghost var b := ljca.View();
      ibufLen := *;
      ghost var garbage := ibufLen;
      ret, ibufLen := ljca.Transfer(SPI_STUB, cmd, obuf[..n], Buffer(ibuf), ibufLen);
      ghost var i := Find(b.stubs, SPI_STUB);
      if i >= 0 {
        ghost var sending, msgs := ljca.sending(ljca.sent), ljca.arrivals(ljca.sent);
        StillPrepared(b, cmd, p, ibuf, garbage, ljca.stopped, sending, msgs);
        WriteOutcome(b, i, cmd, p, Buffer(ibuf), true, garbage, ljca.stopped, sending, msgs);
        if SentWhole(sending, p) {
          WholePacket(b, cmd, p, ibuf, garbage, sending, msgs);
        }
      }
    }

    /** The second half: the acknowledgement in the receive buffer is judged and copied out. */
    method TakeReply(ibufLen: int, rx: array?<byte>, rxAt: nat) returns (ret: int)
      requires Valid() && rx != obuf
      modifies this`overrun, rx
      ensures ibufLen >= 0 ==> ret == if Usable(ibufLen, ljca.memory[ibuf]) then 0 else EIO
      ensures ret == 0 || ret == EIO
      ensures ret != 0 ==> Contents(rx) == old(Contents(rx))
      ensures ret == 0 ==> Contents(rx) == Taken(old(Contents(rx)), rxAt, ljca.memory[ibuf])
      ensures overrun == (old(overrun) || (ret == 0 && rx != null && !InBounds(ljca.memory[ibuf], rxAt, rx.Length)))
    {
      var r := ljca.memory[ibuf];
      if 0 <= ibufLen < PACKET_HEADER || r[1] == 0 || r[1] >= 0x80 {
        return EIO;
      }
      if rx != null {
        var n := r[1] as int;
        if PACKET_HEADER + n <= |r| && rxAt + n <= rx.Length {
          Put(rx, rxAt, r[PACKET_HEADER..PACKET_HEADER + n]);
        } else {
          overrun := true;
        }
      }
      ret := 0;
    }

    /** ljca_spi_read_write: one fragment, from offset `txAt` of the caller's data into offset `rxAt` of its buffer. */
    method ReadWrite(tx: array?<byte>, txAt: nat, rx: array?<byte>, rxAt: nat, len: nat, id: nat, complete: bool, cmd: byte)
      returns (ret: int)
      requires Valid() && 0 < len <= LJCA_SPI_MAX_XFER_SIZE
      requires cmd != LJCA_SPI_READ ==> tx != null && txAt + len <= tx.Length
      requires tx != obuf && rx != obuf
      modifies this`overrun, obuf, rx, ljca`stubs, ljca`memory, ljca`overrun, ljca`notices, ljca`sent
      ensures Valid() && Reachable() == old(Reachable())
      ensures !Reachable() ==> ret == ENODEV && ljca.sent == old(ljca.sent)
      ensures ret != 0 ==> overrun == old(overrun) && Contents(rx) == old(Contents(rx))
      ensures overrun == (old(overrun) || (ret == 0 && rx != null && !InBounds(ljca.memory[ibuf], rxAt, rx.Length)))
      ensures Reachable() ==>
                var p := Packet(id, complete, index, Carried(cmd, old(Contents(tx)), txAt, len));
                && ljca.sent == old(ljca.sent) + [Encode(SPI_STUB, cmd, CMPL_FLAG + ACK_FLAG, p)]
                && (ljca.sending(ljca.sent).status != 0 ==> ret == ljca.sending(ljca.sent).status)
                && (SentWhole(ljca.sending(ljca.sent), p) ==>
                      FragmentOutcome(AnswersIn(ljca.arrivals(ljca.sent), SPI_STUB, cmd as int), old(ljca.memory[ibuf]),
                                      ljca.memory[ibuf], old(Contents(rx)), rxAt, ret, Contents(rx)))
    {
      hide Packet, Find, AnswersIn, Overlaid, Taken, InBounds, Prepared;
      var data := if cmd == LJCA_SPI_READ then [] else tx[txAt..txAt + len];
      ghost var p := Packet(id, complete, index, Carried(cmd, old(Contents(tx)), txAt, len));
      var ibufLen;
      ret, ibufLen := Exchange(data, len, id, complete, cmd, p);
      if ret == 0 {
        ret := TakeReply(ibufLen, rx, rxAt);
      }
    }

    /** Both buffers are there, and the device returns what it is sent. */
    ghost predicate Loopback(tx: array?<byte>, rx: array?<byte>)
      reads ljca
    {
      tx != null && rx != null && Reachable() && Echoes(ljca.sending, ljca.arrivals)
    }

    /** The loop's body: one fragment, by the command the caller's buffers call for. */
    method Fragment(tx: array?<byte>, rx: array?<byte>, offset: nat, cur: nat, i: nat, complete: bool,
                    ghost len: nat, ghost tx0: seq<byte>, ghost rx0: seq<byte>, ghost start: seq<seq<byte>>) returns (ret: int)
      requires Valid() && tx != obuf && rx != obuf
      requires offset < len && cur == FragmentLen(len - offset) && complete == (offset + cur == len)
      requires (tx != null ==> len <= tx.Length) && (rx != null ==> len <= rx.Length) && (tx != null || rx != null)
      requires tx != rx || Loopback(tx, rx) ==> Contents(tx) == tx0
      requires tx == rx ==> tx0 == rx0
      requires tx != rx && Reachable() ==>
                 FragmentsGone(Command(tx != null, rx != null), index, tx0, len, offset, i, start, ljca.sent)
      requires Loopback(tx, rx) ==> len <= |rx0| && rx[..] == tx0[..offset] + rx0[offset..]
      modifies this`overrun, obuf, rx, ljca`stubs, ljca`memory, ljca`overrun, ljca`notices, ljca`sent
      ensures Valid() && Reachable() == old(Reachable()) && Loopback(tx, rx) == old(Loopback(tx, rx))
      ensures !Reachable() ==> ret == ENODEV && ljca.sent == old(ljca.sent)
      ensures tx != rx || old(Loopback(tx, rx)) ==> Contents(tx) == tx0
      ensures tx != rx && Reachable() ==>
                FragmentsGone(Command(tx != null, rx != null), index, tx0, len, offset + cur, i + 1, start, ljca.sent)
      ensures old(Loopback(tx, rx)) ==>
                ret == 0 && overrun == old(overrun) && rx[..] == tx0[..offset + cur] + rx0[offset + cur..]
    {
      hide Packets, Framed, Packet, Echoes, FragmentOutcome, Find, Splice, InBounds, FragmentsGone, Overlaid, AnswersIn;
      ghost var was, ibuf0 := ljca.sent, ljca.memory[ibuf];
      var cmd := Command(tx != null, rx != null);
      ret := ReadWrite(tx, offset, rx, offset, cur, i, complete, cmd);
      if tx != rx && Reachable() {
        FragmentsNext(cmd, index, tx0, len, offset, i, start, was, ljca.sent);
      }
      if old(Loopback(tx, rx)) {
        var now := tx0[..offset] + rx0[offset..];
        EchoedFragment(ljca.sending, ljca.arrivals, was, i, complete, index, tx0[offset..offset + cur], ibuf0, ljca.memory[ibuf],
                       now, offset, ret, rx[..]);
        RxGrows(now, tx0, rx0, offset, cur);
        assert tx == rx ==> tx0[..offset + cur] + rx0[offset + cur..] == tx0;
      }
    }

    /** ljca_spi_transfer: the loop over fragments. */
    method Transfer(tx: array?<byte>, rx: array?<byte>, len: u16) returns (ret: int)
      requires Valid() && tx != obuf && rx != obuf
      requires (tx != null ==> len <= tx.Length) && (rx != null ==> len <= rx.Length)
      modifies this`overrun, obuf, rx, ljca`stubs, ljca`memory, ljca`overrun, ljca`notices, ljca`sent
      ensures Valid() && Reachable() == old(Reachable())
      ensures tx == null && rx == null ==> ret == (if len == 0 then 0 else EINVAL) && ljca.sent == old(ljca.sent)
      ensures (tx != null || rx != null) && !Reachable() ==> ret == (if len == 0 then 0 else ENODEV) && ljca.sent == old(ljca.sent)
      ensures tx != rx && Reachable() ==>
                && FragmentsSent(Command(tx != null, rx != null), index, old(Contents(tx)), len, old(ljca.sent), ljca.sent, ret)
                && OnTheBridge(tx != null, rx != null, old(Contents(tx)), len, old(ljca.sent), ljca.sent, ret)
      ensures old(Loopback(tx, rx)) ==>
                ret == 0 && rx[..] == old(tx[..len]) + old(rx[len..]) && overrun == old(overrun)
    {
      ghost var cmd := Command(tx != null, rx != null);
      ghost var tx0, rx0, start := Contents(tx), Contents(rx), ljca.sent;
      ghost var loop := Loopback(tx, rx);
      var remaining: int := len;
      var offset := 0;
      var complete := false;
      var i := 0;
      assert loop ==> tx != null && rx != null && Reachable();
      assert cmd != LJCA_SPI_READ ==> len <= |tx0|;
      assert loop ==> rx[..] == tx0[..0] + rx0[0..];
      hide Packets, Loopback, Reachable, Valid, Command, FragmentsSent, FragmentsGone, OnTheBridge;
      FragmentsStart(cmd, index, tx0, len, start);
      ret := 0;
      while remaining > 0
        invariant 0 <= remaining && offset + remaining == len
        invariant !complete || remaining == 0
        invariant Valid() && Reachable() == old(Reachable()) && Loopback(tx, rx) == loop
        invariant tx != rx || loop ==> Contents(tx) == tx0
        invariant !(tx != null || rx != null) || !Reachable() ==> offset == 0
        invariant offset == 0 ==> ljca.sent == start
        invariant overrun == old(overrun) || !loop
        invariant tx != rx && Reachable() ==> FragmentsGone(cmd, index, tx0, len, offset, i, start, ljca.sent)
        invariant loop ==> rx[..] == tx0[..offset] + rx0[offset..]
      {
        var cur;
        if remaining > LJCA_SPI_MAX_XFER_SIZE {
          cur := LJCA_SPI_MAX_XFER_SIZE;
        } else {
          cur := remaining;
          complete := true;
        }
        if tx == null && rx == null {
          return EINVAL;
        }
        ret := Fragment(tx, rx, offset, cur, i, complete, len, tx0, rx0, start);
        if ret != 0 {
          if tx != rx && Reachable() {
            FragmentsOver(cmd, index, tx0, len, offset + cur, i + 1, start, ljca.sent, ret);
            SentIsOnTheBridge(tx != null, rx != null, index, tx0, len, start, ljca.sent, ret);
          }
          return;
        }
        offset, remaining, i := offset + cur, remaining - cur, i + 1;
      }
      if tx != rx && Reachable() {
        FragmentsOver(cmd, index, tx0, len, offset, i, start, ljca.sent, 0);
        SentIsOnTheBridge(tx != null, rx != null, index, tx0, len, start, ljca.sent, 0);
      }
    }

    /** ljca_spi_transfer_one after the clock set-up: the length is cut to 16 bits on the way in. */
    method TransferOne(tx: array?<byte>, rx: array?<byte>, len: nat) returns (ret: int)
      requires Valid() && tx != obuf && rx != obuf
      requires (tx != null ==> len <= tx.Length) && (rx != null ==> len <= rx.Length)
      modifies this`overrun, obuf, rx, ljca`stubs, ljca`memory, ljca`overrun, ljca`notices, ljca`sent
      ensures old(Loopback(tx, rx)) ==>
                && ret == 0 && overrun == old(overrun)
                && rx[..len % 0x1_0000] == old(tx[..len % 0x1_0000])
                && rx[len % 0x1_0000..] == old(rx[len % 0x1_0000..])
                && (len < 0x1_0000 ==> rx[..len] == old(tx[..len]))
    {
      hide Reachable, FragmentsSent, Valid, Echoes;
      ret := Transfer(tx, rx, len % 0x1_0000);
      if tx != null && rx != null && old(Loopback(tx, rx)) {
        ghost var m := len % 0x1_0000;
        assert rx[..m] == (old(tx[..m]) + old(rx[m..]))[..m];
      }
    }
  }
}
