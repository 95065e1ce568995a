/**
 The packet transport of the vision sensing controller: framing with a CRC, the hunt for the
 sync byte, reassembly of the acknowledgement over at most five SPI transfers, and validation.
 */
module VscTransport {
  import opened Bytes
  import Crc32

  const PACKET_SYNC: byte := 0x31
  const MAX_SPI_MSG_SIZE := 2048
  const HDR_SIZE := 8
  const CRC_SIZE := 4
  const XFER_TIMEOUT_BYTES := 700
  const MAX_XFER_BUFFER_SIZE := HDR_SIZE + MAX_SPI_MSG_SIZE + CRC_SIZE + XFER_TIMEOUT_BYTES
  const MAX_PACKET_SIZE := HDR_SIZE + MAX_SPI_MSG_SIZE + CRC_SIZE
  const PACKET_PADDING_SIZE := 1
  const MAX_XFER_COUNT := 5

  const CMD_SPI_ACK: byte := 0x10
  const CMD_SPI_NACK: byte := 0x11
  const CMD_SPI_BUSY: byte := 0x12
  const CMD_SPI_FATAL_ERR: byte := 0x13

  const EIO := -5
  const EAGAIN := -11
  const EINVAL := -22
  const ETIME := -62

  // Packets: sync, cmd, len (16 bits), seq (32 bits), payload, CRC-32 of all before it.

  function Header(cmd: byte, len: u16, number: u32): (s: seq<byte>)
    ensures |s| == HDR_SIZE
  {
    [PACKET_SYNC, cmd] + Le16(len) + Le32(number)
  }

  function BuildPacket(cmd: byte, number: u32, payload: seq<byte>): (s: seq<byte>)
    requires |payload| <= MAX_SPI_MSG_SIZE
    ensures |s| == HDR_SIZE + |payload| + CRC_SIZE
  {
    var body := Header(cmd, |payload|, number) + payload;
    body + Crc32.Field(Crc32.Checksum(body))
  }

  function Cmd(p: seq<byte>): byte
    requires |p| >= HDR_SIZE
  {
    p[1]
  }

  function Len(p: seq<byte>): u16
    requires |p| >= HDR_SIZE
  {
    Get16(p, 2)
  }

  function Number(p: seq<byte>): u32
    requires |p| >= HDR_SIZE
  {
    Get32(p, 4)
  }

  function PacketSize(p: seq<byte>): nat
    requires |p| >= HDR_SIZE
  {
    HDR_SIZE + Len(p) + CRC_SIZE
  }

  function Payload(p: seq<byte>): seq<byte>
    requires |p| >= HDR_SIZE && |p| >= PacketSize(p)
  {
    p[HDR_SIZE..HDR_SIZE + Len(p)]
  }

  /** spi_validate_packet: the check value first, then the firmware's verdict and the sequence number. */
  function Validate(p: seq<byte>, number: u32): int
    requires |p| >= HDR_SIZE && |p| >= PacketSize(p)
  {
    if !Crc32.SelfChecked(p[..PacketSize(p)]) then EINVAL
    else if Cmd(p) == CMD_SPI_FATAL_ERR then EIO
    else if Cmd(p) == CMD_SPI_NACK || Cmd(p) == CMD_SPI_BUSY || Number(p) != number then EAGAIN
    else 0
  }

  lemma HeaderFields(cmd: byte, len: u16, number: u32, rest: seq<byte>)
    ensures var p := Header(cmd, len, number) + rest;
            p[0] == PACKET_SYNC && Cmd(p) == cmd && Len(p) == len && Number(p) == number
  {
    var p := Header(cmd, len, number) + rest;
    assert p[2..4] == Le16(len);
    assert p[4..8] == Le32(number);
    Get16Holds(p, 2, len);
    Get32Holds(p, 4, number);
  }

  lemma BodyHolds(cmd: byte, number: u32, payload: seq<byte>, check: seq<byte>)
    requires |payload| < 0x1_0000
    ensures var p := Header(cmd, |payload|, number) + (payload + check);
            p[1] == cmd && Holds(p, 2, Le16(|payload|)) && Holds(p, 4, Le32(number)) && Holds(p, 8, payload)
  {
    hide Le16, Le32;
    var p := Header(cmd, |payload|, number) + (payload + check);
    assert p[2..4] == Le16(|payload|) && p[4..8] == Le32(number) && p[8..8 + |payload|] == payload;
  }

  /** Building and reading back: every field and payload byte survives, and the check value is right. */
  lemma PacketRoundTrip(cmd: byte, number: u32, payload: seq<byte>)
    requires |payload| <= MAX_SPI_MSG_SIZE
    ensures var p := BuildPacket(cmd, number, payload);
            && PacketSize(p) == |p|
            && p[0] == PACKET_SYNC && Cmd(p) == cmd && Number(p) == number && Payload(p) == payload
            && p[1] == cmd && Holds(p, 2, Le16(|payload|)) && Holds(p, 4, Le32(number)) && Holds(p, 8, payload)
            && Crc32.SelfChecked(p)
  {
    hide Crc32.Field, Crc32.Checksum, Header;
    var body := Header(cmd, |payload|, number) + payload;
    var p := BuildPacket(cmd, number, payload);
    assert p == Header(cmd, |payload|, number) + (payload + Crc32.Field(Crc32.Checksum(body)));
    HeaderFields(cmd, |payload|, number, payload + Crc32.Field(Crc32.Checksum(body)));
    assert p[..|p| - 4] == body;
    assert Payload(p) == payload;
    BodyHolds(cmd, number, payload, Crc32.Field(Crc32.Checksum(body)));
  }

  /** What validation says of a well-built packet: it never fails the check value. */
  lemma BuiltPacketVerdict(cmd: byte, number: u32, payload: seq<byte>, expected: u32)
    requires |payload| <= MAX_SPI_MSG_SIZE
    ensures var p := BuildPacket(cmd, number, payload);
            && PacketSize(p) == |p|
            && (Validate(p, expected) == EIO <==> cmd == CMD_SPI_FATAL_ERR)
            && (Validate(p, expected) == EAGAIN <==>
                cmd == CMD_SPI_NACK || cmd == CMD_SPI_BUSY || (cmd != CMD_SPI_FATAL_ERR && number != expected))
            && (Validate(p, expected) == 0 <==>
                cmd !in {CMD_SPI_FATAL_ERR, CMD_SPI_NACK, CMD_SPI_BUSY} && number == expected)
            && Validate(p, expected) in {0, EIO, EAGAIN}
  {
    hide Crc32.SelfChecked, BuildPacket;
    PacketRoundTrip(cmd, number, payload);
    var p := BuildPacket(cmd, number, payload);
    assert p[..PacketSize(p)] == p;
  }

  /**
   Error detection: take any packet whose check value is right and change it inside any four
   consecutive bytes, the length field aside. Unless nothing changed, validation rejects it.
   */
  lemma BurstRejected(p: seq<byte>, q: seq<byte>, at: nat, number: u32)
    requires |p| >= HDR_SIZE && |p| >= PacketSize(p) && Crc32.SelfChecked(p[..PacketSize(p)])
    requires Crc32.SameOutside(p, q, at)
    requires Len(q) == Len(p)
    requires p[..PacketSize(p)] != q[..PacketSize(p)]
    ensures Validate(q, number) == EINVAL
  {
    hide Crc32.SelfChecked;
    var n := PacketSize(p);
    if Crc32.SelfChecked(q[..n]) {
      Crc32.BurstDetected(p[..n], q[..n], at);
    }
  }

  // The SPI bus. `stream` is what the device clocks out, byte by byte, however it is fetched.

  function Slice(stream: nat -> byte, from: nat, n: nat): (s: seq<byte>)
    ensures |s| == n
    ensures forall j :: 0 <= j < n ==> s[j] == stream(from + j)
  {
    seq(n, j requires 0 <= j < n => stream(from + j))
  }

  lemma SliceSplit(stream: nat -> byte, from: nat, n: nat, m: nat)
    ensures Slice(stream, from, n + m) == Slice(stream, from, n) + Slice(stream, from + n, m)
  {
  }

  /** The first sync byte of the stream is `i` bytes in. */
  ghost predicate FirstSync(stream: nat -> byte, from: nat, i: nat) {
    stream(from + i) == PACKET_SYNC && PACKET_SYNC !in Slice(stream, from, i)
  }

  lemma SyncBefore(stream: nat -> byte, from: nat, i: nat, j: nat)
    requires stream(from + i) == PACKET_SYNC && i < j
    ensures PACKET_SYNC in Slice(stream, from, j)
  {
    assert Slice(stream, from, j)[i] == PACKET_SYNC;
  }

  lemma FirstSyncUnique(stream: nat -> byte, from: nat, i: nat, j: nat)
    requires FirstSync(stream, from, i) && FirstSync(stream, from, j)
    ensures i == j
  {
    if i < j {
      SyncBefore(stream, from, i, j);
    } else if j < i {
      SyncBefore(stream, from, j, i);
    }
  }

  /** The packet the stream holds from `at` on, its length field taken at its word. */
  function StreamPacket(stream: nat -> byte, at: nat): (s: seq<byte>)
    ensures |s| >= HDR_SIZE && |s| == PacketSize(s)
  {
    var header := Slice(stream, at, HDR_SIZE);
    var s := Slice(stream, at, PacketSize(header));
    assert s[2] == header[2] && s[3] == header[3];
    s
  }

  /** The devices assumed: an answer's length field is at most the largest message. */
  ghost predicate SaneAnswer(stream: nat -> byte, from: nat) {
    forall i: nat :: FirstSync(stream, from, i) ==> |StreamPacket(stream, from + i)| <= MAX_PACKET_SIZE
  }

  /** Five transfers of up to `n` bytes are enough for the answer that starts `i` bytes in. */
  ghost predicate InTime(stream: nat -> byte, from: nat, n: nat, i: nat) {
    && FirstSync(stream, from, i)
    && (i + HDR_SIZE <= 4 * n || i + |StreamPacket(stream, from + i)| + PACKET_PADDING_SIZE <= 5 * n)
  }

  /** In particular, a sync byte within the first three transfers is always in time. */
  lemma SyncInThreeIsInTime(stream: nat -> byte, from: nat, n: nat, i: nat)
    requires FirstSync(stream, from, i) && i < 3 * n && HDR_SIZE <= n
    ensures InTime(stream, from, n, i)
  {
  }

  class SpiDevice {
    const stream: nat -> byte
    const fault: nat -> int
    var pos: nat
    var count: nat
    var sent: seq<seq<byte>>

    constructor (stream: nat -> byte, fault: nat -> int)
      ensures this.stream == stream && this.fault == fault && pos == 0 && count == 0 && sent == []
    {
      this.stream := stream;
      this.fault := fault;
      pos, count, sent := 0, 0, [];
    }

    /** spi_dev_xfer: one full-duplex transfer of `n` bytes. */
    method Transfer(tx: array<byte>, rx: array<byte>, n: nat) returns (ret: int)
      requires n <= tx.Length && n <= rx.Length && tx != rx
      modifies this, rx
      ensures ret == fault(old(count)) && count == old(count) + 1
      ensures sent == old(sent) + [old(tx[..n])]
      ensures ret != 0 ==> pos == old(pos) && rx[..] == old(rx[..])
      ensures ret == 0 ==> pos == old(pos) + n && rx[..n] == Slice(stream, old(pos), n)
    {
      ret := fault(count);
      count := count + 1;
      sent := sent + [tx[..n]];
      if ret == 0 {
        Put(rx, 0, Slice(stream, pos, n));
        assert rx[..n] == rx[..][0..n];
        pos := pos + n;
      }
    }

    ghost predicate Clean(from: nat)
      reads this
    {
      forall j :: from <= j < count ==> fault(j) == 0
    }
  }

  /** find_sync_byte */
  method FindSyncByte(buf: array<byte>, len: nat) returns (i: int)
    requires len <= buf.Length
    ensures -1 <= i < len
    ensures i >= 0 ==> buf[i] == PACKET_SYNC && PACKET_SYNC !in buf[..i]
    ensures i < 0 ==> PACKET_SYNC !in buf[..len]
  {
    i := 0;
    while i < len
      invariant 0 <= i <= len
      invariant PACKET_SYNC !in buf[..i]
    {
      if buf[i] == PACKET_SYNC {
        return i;
      }
      i := i + 1;
    }
    return -1;
  }

  /** The reassembly loop's state after `k` transfers, `got` being the part of the packet buffer filled so far. */
  datatype Hunt = Hunt(synced: bool, at: nat, next: int, got: seq<byte>)

  /** Where the device's stream stands after `k` whole transfers. */
  function Base(k: nat, n: nat): (b: nat) {
    k * n
  }

  lemma NextBase(k: nat, n: nat)
    ensures Base(k + 1, n) == Base(k, n) + n
    ensures Base(0, n) == 0
    ensures k <= 4 ==> Base(k, n) <= 4 * n
    ensures k <= 5 ==> Base(k, n) <= 5 * n
  {
    assert (k + 1) * n == k * n + n;
  }

  ghost predicate Progress(stream: nat -> byte, from: nat, n: nat, k: nat, h: Hunt) {
    && k <= MAX_XFER_COUNT
    && (!h.synced ==> h.next == n && h.got == [] && PACKET_SYNC !in Slice(stream, from, Base(k, n)))
    && (h.synced ==>
          && FirstSync(stream, from, h.at)
          && 0 < |h.got| <= MAX_XFER_BUFFER_SIZE
          && h.got == Slice(stream, from + h.at, |h.got|)
          && (|h.got| < HDR_SIZE ==> h.next == n)
          && (|h.got| >= HDR_SIZE ==>
                h.next == |StreamPacket(stream, from + h.at)| - |h.got| + PACKET_PADDING_SIZE)
          && (h.next > 0 ==> h.at + |h.got| == Base(k, n) && Base(k, n) < h.at + HDR_SIZE + n)
          && (h.next <= 0 ==> InTime(stream, from, n, h.at)))
  }

  /** next_xfer_len once `got` is in the packet buffer. */
  function NextLength(got: seq<byte>, next: int): int {
    if |got| >= HDR_SIZE then PacketSize(got) - |got| + PACKET_PADDING_SIZE else next
  }

  lemma GotLength(stream: nat -> byte, at: nat, got: seq<byte>)
    requires |got| >= HDR_SIZE && got == Slice(stream, at, |got|)
    ensures PacketSize(got) == |StreamPacket(stream, at)|
  {
    assert forall j :: 0 <= j < HDR_SIZE ==> got[j] == Slice(stream, at, HDR_SIZE)[j];
  }

  lemma FoundInTransfer(stream: nat -> byte, from: nat, rx: seq<byte>, i: nat)
    requires rx == Slice(stream, from, |rx|) && i < |rx|
    requires rx[i] == PACKET_SYNC && PACKET_SYNC !in rx[..i]
    ensures stream(from + i) == PACKET_SYNC && PACKET_SYNC !in Slice(stream, from, i)
  {
    assert rx[..i] == Slice(stream, from, i);
  }

  lemma PieceOfTransfer(stream: nat -> byte, from: nat, rx: seq<byte>, i: nat, len: nat)
    requires rx == Slice(stream, from, |rx|) && i + len <= |rx|
    ensures rx[i..i + len] == Slice(stream, from + i, len)
  {
  }

  lemma SamePacketSize(buffer: seq<byte>, n: nat)
    requires HDR_SIZE <= n <= |buffer|
    ensures PacketSize(buffer[..n]) == PacketSize(buffer)
  {
  }

  lemma NoSyncYet(stream: nat -> byte, from: nat, n: nat, k: nat, h: Hunt)
    requires Progress(stream, from, n, k, h) && !h.synced && k < MAX_XFER_COUNT
    requires PACKET_SYNC !in Slice(stream, from + Base(k, n), n)
    ensures Progress(stream, from, n, k + 1, h)
  {
    SliceSplit(stream, from, Base(k, n), n);
    NextBase(k, n);
  }

  lemma SyncFound(stream: nat -> byte, from: nat, n: nat, k: nat, h: Hunt, i: nat)
    requires Progress(stream, from, n, k, h) && !h.synced && k < MAX_XFER_COUNT
    requires HDR_SIZE <= n <= MAX_XFER_BUFFER_SIZE && i < n
    requires stream(from + Base(k, n) + i) == PACKET_SYNC && PACKET_SYNC !in Slice(stream, from + Base(k, n), i)
    ensures var got := Slice(stream, from + Base(k, n) + i, n - i);
            Progress(stream, from, n, k + 1, Hunt(true, Base(k, n) + i, NextLength(got, h.next), got))
  {
    var got := Slice(stream, from + Base(k, n) + i, n - i);
    SliceSplit(stream, from, Base(k, n), i);
    NextBase(k, n);
    NextBase(k + 1, n);
    if |got| >= HDR_SIZE {
      GotLength(stream, from + (Base(k, n) + i), got);
    }
  }

  lemma MoreArrives(stream: nat -> byte, from: nat, n: nat, k: nat, h: Hunt, len: nat)
    requires Progress(stream, from, n, k, h) && h.synced && h.next > 0 && k < MAX_XFER_COUNT
    requires SaneAnswer(stream, from)
    requires XFER_TIMEOUT_BYTES <= n <= MAX_XFER_BUFFER_SIZE
    requires len == Min(h.next, MAX_XFER_BUFFER_SIZE - |h.got|)
    ensures var got := h.got + Slice(stream, from + Base(k, n), len);
            && Progress(stream, from, n, k + 1, Hunt(true, h.at, NextLength(got, h.next), got))
            && (NextLength(got, h.next) > 0 ==> h.next == n)
  {
    var got := h.got + Slice(stream, from + Base(k, n), len);
    SliceSplit(stream, from + h.at, |h.got|, len);
    NextBase(k, n);
    GotLength(stream, from + h.at, got);
  }

  lemma ProgressStart(stream: nat -> byte, from: nat, n: nat)
    ensures Progress(stream, from, n, 0, Hunt(false, 0, n, [])) && Base(0, n) == 0
  {
  }

  lemma Unsynced(stream: nat -> byte, from: nat, n: nat, k: nat, h: Hunt)
    requires Progress(stream, from, n, k, h) && !h.synced
    ensures h.next == n && h.got == []
  {
  }

  lemma NextFits(stream: nat -> byte, from: nat, n: nat, k: nat, h: Hunt)
    requires Progress(stream, from, n, k, h) && SaneAnswer(stream, from)
    requires n <= MAX_XFER_BUFFER_SIZE
    ensures h.next <= MAX_XFER_BUFFER_SIZE
  {
  }

  /** What the loop's exit means. */
  lemma HuntOver(stream: nat -> byte, from: nat, n: nat, k: nat, h: Hunt)
    requires Progress(stream, from, n, k, h) && XFER_TIMEOUT_BYTES <= n
    requires h.next <= 0 || k == MAX_XFER_COUNT
    ensures h.next > 0 ==> forall i: nat :: !InTime(stream, from, n, i)
    ensures h.next <= 0 ==>
              var answer := StreamPacket(stream, from + h.at);
              && InTime(stream, from, n, h.at)
              && (forall i: nat :: InTime(stream, from, n, i) ==> i == h.at)
              && |answer| <= |h.got| && h.got[..|answer|] == answer
  {
    NextBase(4, n);
    forall i: nat | InTime(stream, from, n, i)
      ensures h.next <= 0 && i == h.at
    {
      if h.synced {
        FirstSyncUnique(stream, from, i, h.at);
      } else if i < Base(k, n) {
        SyncBefore(stream, from, i, Base(k, n));
      }
    }
    if h.next <= 0 {
      var answer := StreamPacket(stream, from + h.at);
      assert forall j :: 0 <= j < |answer| ==> h.got[j] == answer[j];
    }
  }

  /**
   What a fault-free exchange of transfers of up to `n` bytes comes to: the packet at the stream's
   first sync byte if five transfers reach its end, judged by Validate, and EAGAIN if they do not.
   */
  ghost predicate Outcome(stream: nat -> byte, from: nat, n: nat, number: u32, buffer: seq<byte>, ret: int) {
    && ((forall i: nat :: !InTime(stream, from, n, i)) ==> ret == EAGAIN)
    && forall i: nat :: InTime(stream, from, n, i) ==>
         var answer := StreamPacket(stream, from + i);
         answer <= buffer && ret == Validate(answer, number)
  }

  lemma ValidateOf(buffer: seq<byte>, answer: seq<byte>, number: u32)
    requires |answer| >= HDR_SIZE && |answer| == PacketSize(answer)
    requires answer <= buffer
    ensures PacketSize(buffer) == |answer| && Validate(buffer, number) == Validate(answer, number)
  {
    hide Crc32.SelfChecked;
    assert forall j :: 0 <= j < HDR_SIZE ==> buffer[j] == answer[j];
    assert answer[..|answer|] == answer == buffer[..|answer|];
  }

  lemma Verdict(stream: nat -> byte, from: nat, n: nat, k: nat, h: Hunt, buffer: seq<byte>, number: u32)
    requires Progress(stream, from, n, k, h) && XFER_TIMEOUT_BYTES <= n
    requires h.next <= 0 || k == MAX_XFER_COUNT
    requires h.got <= buffer && |buffer| >= HDR_SIZE
    ensures h.next > 0 ==> Outcome(stream, from, n, number, buffer, EAGAIN)
    ensures h.next <= 0 ==>
              |buffer| >= PacketSize(buffer) && Outcome(stream, from, n, number, buffer, Validate(buffer, number))
  {
    hide Progress, InTime, Validate, PacketSize, StreamPacket;
    HuntOver(stream, from, n, k, h);
    if h.next <= 0 {
      ValidateOf(buffer, StreamPacket(stream, from + h.at), number);
    }
  }

  /** What a caller of the transfer gets once the packet `answer` has been judged. */
  ghost predicate Delivered(answer: seq<byte>, number: u32, rxMax: nat, before: seq<byte>, after: seq<byte>,
                            ret: int, rxLen: nat)
    requires |answer| >= HDR_SIZE && |answer| == PacketSize(answer)
  {
    && ret == Validate(answer, number)
    && (ret == 0 ==>
          && rxLen == Min(Len(answer), rxMax) && rxLen <= |before|
          && after == Splice(before, 0, Payload(answer)[..rxLen]))
  }

  ghost predicate AnswerDelivered(stream: nat -> byte, from: nat, n: nat, number: u32, rxMax: nat,
                                  before: seq<byte>, after: seq<byte>, ret: int, rxLen: nat)
  {
    && ((forall i: nat :: !InTime(stream, from, n, i)) ==> ret == EAGAIN)
    && forall i: nat :: InTime(stream, from, n, i) ==>
         Delivered(StreamPacket(stream, from + i), number, rxMax, before, after, ret, rxLen)
  }

  lemma DeliverAnswer(stream: nat -> byte, from: nat, n: nat, number: u32, buffer: seq<byte>,
                      rxMax: nat, before: seq<byte>, after: seq<byte>, ret: int, rxLen: nat)
    requires Outcome(stream, from, n, number, buffer, ret) && |buffer| >= HDR_SIZE
    requires ret == 0 ==>
               && rxLen == Min(Len(buffer), rxMax) && rxLen <= |before| && HDR_SIZE + rxLen <= |buffer|
               && after == Splice(before, 0, buffer[HDR_SIZE..HDR_SIZE + rxLen])
    ensures AnswerDelivered(stream, from, n, number, rxMax, before, after, ret, rxLen)
  {
    hide Validate, InTime, StreamPacket;
    forall i: nat | InTime(stream, from, n, i)
      ensures Delivered(StreamPacket(stream, from + i), number, rxMax, before, after, ret, rxLen)
    {
      var answer := StreamPacket(stream, from + i);
      ValidateOf(buffer, answer, number);
      if ret == 0 {
        assert Payload(answer)[..rxLen] == answer[HDR_SIZE..HDR_SIZE + rxLen] == buffer[HDR_SIZE..HDR_SIZE + rxLen];
      }
    }
  }

  lemma NoInTimeNoZero(stream: nat -> byte, from: nat, n: nat, number: u32, buffer: seq<byte>, ret: int)
    requires Outcome(stream, from, n, number, buffer, ret) && ret == 0 && |buffer| == MAX_XFER_BUFFER_SIZE
    ensures HDR_SIZE + Len(buffer) <= |buffer|
  {
    hide Validate, StreamPacket;
    var i: nat :| InTime(stream, from, n, i);
    ValidateOf(buffer, StreamPacket(stream, from + i), number);
  }

  /** The transfers in `sent` go on from `before` with `frame`, and after that with nothing but zeros. */
  ghost predicate SentFirst(before: seq<seq<byte>>, frame: seq<byte>, sent: seq<seq<byte>>) {
    && |before| < |sent| && sent[..|before|] == before && sent[|before|] == frame
    && forall k :: |before| < k < |sent| ==> AllZero(sent[k])
  }

  predicate AllZero(s: seq<byte>) {
    forall k :: 0 <= k < |s| ==> s[k] == 0
  }

  lemma SentMore(before: seq<seq<byte>>, first: seq<byte>, sent: seq<seq<byte>>, frame: seq<byte>)
    requires if before == sent then frame == first else SentFirst(before, first, sent) && AllZero(frame)
    ensures SentFirst(before, first, sent + [frame])
  {
    if before != sent {
      assert (sent + [frame])[..|before|] == sent[..|before|];
    }
  }

  /** The number mei_vsc_xfer gives the k-th request after a reset, counting from 1 in 32 bits. */
  function RequestNumber(k: nat): u32 {
    k % 0x1_0000_0000
  }

  lemma NextNumber(k: nat)
    ensures RequestNumber(k + 1) == (RequestNumber(k) + 1) % 0x1_0000_0000
  {
  }

  class VscHw {
    const dev: SpiDevice
    const txBuf1: array<byte>
    const rxBuf1: array<byte>
    var number: u32
    ghost var requests: nat           // numbered so far, whatever came of them

    ghost predicate Valid()
      reads this
    {
      && txBuf1.Length == MAX_XFER_BUFFER_SIZE && rxBuf1.Length == MAX_XFER_BUFFER_SIZE && txBuf1 != rxBuf1
      && number == RequestNumber(requests)
    }

    constructor (dev: SpiDevice)
      ensures Valid() && this.dev == dev && requests == 0 && AllZero(txBuf1[..])
      ensures fresh(txBuf1) && fresh(rxBuf1)
    {
      requests := 0;
      this.dev := dev;
      txBuf1 := new byte[MAX_XFER_BUFFER_SIZE](_ => 0);
      rxBuf1 := new byte[MAX_XFER_BUFFER_SIZE](_ => 0);
      number := 0;
    }

    /** memcpy of the transfer's bytes from `i` on to the end of what the packet buffer holds, and the next length. */
    method Append(ack: array<byte>, offset: nat, i: nat, len: nat, next: nat, ghost at: nat)
      returns (offset': nat, next': int)
      requires Valid()
      requires ack.Length == MAX_XFER_BUFFER_SIZE && ack !in {txBuf1, rxBuf1}
      requires offset + len <= MAX_XFER_BUFFER_SIZE && i + len <= next <= MAX_XFER_BUFFER_SIZE
      requires rxBuf1[..next] == Slice(dev.stream, at, next)
      modifies ack
      ensures offset' <= MAX_XFER_BUFFER_SIZE
      ensures ack[..offset'] == old(ack[..offset]) + Slice(dev.stream, at + i, len)
      ensures next' == NextLength(ack[..offset'], next)
    {
      hide Slice, Splice, PacketSize;
      var piece := rxBuf1[..next][i..i + len];
      ghost var was := ack[..];
      PieceOfTransfer(dev.stream, at, rxBuf1[..next], i, len);
      SplicePrefix(was, offset, piece);
      Put(ack, offset, piece);
      offset', next' := offset + len, next;
      assert ack[..][..offset'] == ack[..offset'];
      assert was[..offset] == old(ack[..offset]);
      if offset' >= HDR_SIZE {
        next' := PacketSize(ack[..]) - offset' + PACKET_PADDING_SIZE;
        SamePacketSize(ack[..], offset');
      }
    }

    /** The reassembly loop's work on the `next` bytes just received: hunt or append, then ask for what is missing. */
    method Collect(ack: array<byte>, synced: bool, offset: nat, next: nat,
                   ghost from: nat, ghost n: nat, ghost k: nat, ghost at: nat)
      returns (synced': bool, offset': nat, next': int, ghost at': nat)
      requires Valid()
      requires ack.Length == MAX_XFER_BUFFER_SIZE && ack !in {txBuf1, rxBuf1}
      requires offset <= MAX_XFER_BUFFER_SIZE && k < MAX_XFER_COUNT
      requires XFER_TIMEOUT_BYTES <= n <= MAX_XFER_BUFFER_SIZE && 0 < next <= MAX_XFER_BUFFER_SIZE
      requires Progress(dev.stream, from, n, k, Hunt(synced, at, next, ack[..offset]))
      requires SaneAnswer(dev.stream, from)
      requires rxBuf1[..next] == Slice(dev.stream, from + Base(k, n), next)
      modifies ack
      ensures offset' <= MAX_XFER_BUFFER_SIZE
      ensures Progress(dev.stream, from, n, k + 1, Hunt(synced', at', next', ack[..offset']))
      ensures next' > 0 ==> next == n
    {
      hide InTime, StreamPacket, Progress, Base, FirstSync, Slice, Splice, PacketSize, SaneAnswer, NextLength;
      ghost var stream, h, b := dev.stream, Hunt(synced, at, next, ack[..offset]), Base(k, n);
      synced', offset', next', at' := synced, offset, next, at;
      if !synced {
        Unsynced(stream, from, n, k, h);
        var i := FindSyncByte(rxBuf1, next);
        if i < 0 {
          NoSyncYet(stream, from, n, k, h);
        } else {
          synced', at' := true, b + i;
          FoundInTransfer(stream, from + b, rxBuf1[..next], i);
          SyncFound(stream, from, n, k, h, i);
          offset', next' := Append(ack, offset, i, next - i, next, from + b);
          assert ack[..offset'] == Slice(stream, from + b + i, next - i);
        }
      } else {
        var len := Min(next, MAX_XFER_BUFFER_SIZE - offset);
        MoreArrives(stream, from, n, k, h, len);
        offset', next' := Append(ack, offset, 0, len, next, from + b);
      }
    }

    /** One pass of the reassembly loop. */
    method Pass(ack: array<byte>, synced: bool, offset: nat, next: nat,
                ghost from: nat, ghost n: nat, ghost k: nat, ghost at: nat)
      returns (ret: int, synced': bool, offset': nat, next': int, ghost at': nat)
      requires Valid()
      requires ack.Length == MAX_XFER_BUFFER_SIZE && ack !in {txBuf1, rxBuf1}
      requires offset <= MAX_XFER_BUFFER_SIZE && k < MAX_XFER_COUNT
      requires XFER_TIMEOUT_BYTES <= n <= MAX_XFER_BUFFER_SIZE && 0 < next
      requires Progress(dev.stream, from, n, k, Hunt(synced, at, next, ack[..offset]))
      requires SaneAnswer(dev.stream, from)
      requires dev.pos == from + Base(k, n)
      modifies dev, txBuf1, rxBuf1, ack
      ensures ret == dev.fault(old(dev.count)) && dev.count == old(dev.count) + 1
      ensures next <= MAX_XFER_BUFFER_SIZE && dev.sent == old(dev.sent) + [old(txBuf1[..next])]
      ensures ret == 0 ==> offset' <= MAX_XFER_BUFFER_SIZE
      ensures ret == 0 ==> Progress(dev.stream, from, n, k + 1, Hunt(synced', at', next', ack[..offset']))
      ensures ret == 0 && next' > 0 ==> dev.pos == from + Base(k + 1, n)
      ensures ret == 0 ==> AllZero(txBuf1[..])
    {
      hide Progress, InTime, StreamPacket, Base, FirstSync, Slice, Splice;
      synced', offset', next', at' := synced, offset, next, at;
      NextFits(dev.stream, from, n, k, Hunt(synced, at, next, ack[..offset]));
      NextBase(k, n);
      ret := dev.Transfer(txBuf1, rxBuf1, next);
      if ret != 0 {
        return;
      }
      Clear(txBuf1, MAX_XFER_BUFFER_SIZE);
      synced', offset', next', at' := Collect(ack, synced, offset, next, from, n, k, at);
    }

    /** The reassembly loop, over at most five transfers, until nothing is missing or one fails. */
    method Reassemble(ack: array<byte>, n: nat)
      returns (ret: int, next: int, ghost k: nat, ghost h: Hunt)
      requires Valid()
      requires ack.Length == MAX_XFER_BUFFER_SIZE && ack !in {txBuf1, rxBuf1}
      requires XFER_TIMEOUT_BYTES <= n <= MAX_XFER_BUFFER_SIZE
      requires SaneAnswer(dev.stream, dev.pos)
      modifies dev, txBuf1, rxBuf1, ack
      ensures old(dev.count) < dev.count <= old(dev.count) + MAX_XFER_COUNT
      ensures SentFirst(old(dev.sent), old(txBuf1[..n]), dev.sent)
      ensures ret == 0 ==> AllZero(txBuf1[..])
      ensures ret != 0 ==> ret == dev.fault(dev.count - 1)
      ensures dev.Clean(old(dev.count)) <==> ret == 0
      ensures ret == 0 ==>
                && 0 < k <= MAX_XFER_COUNT && (next > 0 ==> k == MAX_XFER_COUNT) && h.next == next
                && |h.got| <= MAX_XFER_BUFFER_SIZE && h.got == ack[..|h.got|] && Progress(dev.stream, old(dev.pos), n, k, h)
    {
      next := n;
      var offset := 0;
      var synced := false;
      var countDown := MAX_XFER_COUNT;
      ret := 0;
      hide Progress, InTime, StreamPacket, SentFirst, FirstSync, Base, Slice, PacketSize, SaneAnswer;
      ghost var stream, from, start, frame := dev.stream, dev.pos, dev.count, txBuf1[..n];
      ghost var at: nat := 0;
      k := 0;
      h := Hunt(false, 0, n, []);
      assert ack[..0] == [];
      ProgressStart(stream, from, n);
      while next > 0 && countDown > 0
        invariant 0 <= countDown && k == MAX_XFER_COUNT - countDown
        invariant k == 0 ==> next == n && txBuf1[..n] == frame && dev.sent == old(dev.sent)
        invariant k > 0 ==> SentFirst(old(dev.sent), frame, dev.sent) && dev.sent != old(dev.sent) && AllZero(txBuf1[..])
        invariant dev.count == start + k && dev.Clean(start)
        invariant 0 <= offset <= MAX_XFER_BUFFER_SIZE
        invariant h == Hunt(synced, at, next, ack[..offset]) && Progress(stream, from, n, k, h)
        invariant next > 0 ==> dev.pos == from + Base(k, n)
        decreases countDown
      {
        countDown := countDown - 1;
        NextFits(stream, from, n, k, h);
        assert k > 0 ==> AllZero(txBuf1[..next]);
        SentMore(old(dev.sent), frame, dev.sent, txBuf1[..next]);
        ret, synced, offset, next, at := Pass(ack, synced, offset, next, from, n, k, at);
        if ret != 0 {
          return;
        }
        k := k + 1;
        h := Hunt(synced, at, next, ack[..offset]);
      }
    }

    /** What the reassembled packet comes to. */
    method Judge(ack: array<byte>, next: int, ghost stream: nat -> byte, ghost from: nat, ghost n: nat, ghost k: nat, ghost h: Hunt)
      returns (ret: int)
      requires ack.Length == MAX_XFER_BUFFER_SIZE && XFER_TIMEOUT_BYTES <= n
      requires Progress(stream, from, n, k, h) && h.next == next && (next <= 0 || k == MAX_XFER_COUNT)
      requires |h.got| <= MAX_XFER_BUFFER_SIZE && h.got == ack[..|h.got|]
      ensures Outcome(stream, from, n, number, ack[..], ret)
    {
      hide Progress, Validate, PacketSize, Outcome;
      assert ack[..|h.got|] == ack[..][..|h.got|];
      Verdict(stream, from, n, k, h, ack[..], number);
      if next > 0 {
        return EAGAIN;
      }
      ret := Validate(ack[..], number);
    }

    /** What follows a request of `size` bytes in its transfer: whatever the transmit buffer held there. */
    function Tail(size: nat): seq<byte>
      requires size + XFER_TIMEOUT_BYTES <= txBuf1.Length
      reads txBuf1
    {
      txBuf1[size..size + XFER_TIMEOUT_BYTES]
    }

    /** The request in the transmit buffer, the receive buffer cleared. */
    method Stage(ghost packet: seq<byte>, pkt: array<byte>, n: nat)
      requires Valid() && pkt.Length == MAX_XFER_BUFFER_SIZE && pkt !in {txBuf1, rxBuf1}
      requires PacketSize(pkt[..]) <= n <= MAX_XFER_BUFFER_SIZE && packet == pkt[..PacketSize(pkt[..])]
      modifies txBuf1, rxBuf1
      ensures |packet| <= n && txBuf1[..n] == packet + old(txBuf1[|packet|..n])
    {
      hide PacketSize;
      Put(txBuf1, 0, pkt[..PacketSize(pkt[..])]);
      Clear(rxBuf1, MAX_XFER_BUFFER_SIZE);
      assert txBuf1[..n] == txBuf1[..][0..|packet|] + txBuf1[|packet|..n];
    }

    /**
     mei_vsc_xfer_internal. The verdict depends on the device's stream alone, never on how the
     transfers cut it up: the packet validated is the one at the first sync byte, and the five
     transfers suffice exactly when InTime says so.
     */
    method XferInternal(pkt: array<byte>, ack: array<byte>) returns (ret: int)
      requires Valid()
      requires pkt.Length == ack.Length == MAX_XFER_BUFFER_SIZE
      requires pkt !in {txBuf1, rxBuf1, ack} && ack !in {txBuf1, rxBuf1}
      requires PacketSize(pkt[..]) <= MAX_PACKET_SIZE
      requires SaneAnswer(dev.stream, dev.pos)
      modifies dev, txBuf1, rxBuf1, ack
      ensures old(dev.count) < dev.count <= old(dev.count) + MAX_XFER_COUNT
      ensures SentFirst(old(dev.sent), pkt[..PacketSize(pkt[..])] + old(Tail(PacketSize(pkt[..]))), dev.sent)
      ensures dev.Clean(old(dev.count)) ==> AllZero(txBuf1[..])
      ensures !dev.Clean(old(dev.count)) ==> ret == dev.fault(dev.count - 1) && ret != 0
      ensures dev.Clean(old(dev.count)) ==>
                Outcome(dev.stream, old(dev.pos), PacketSize(pkt[..]) + XFER_TIMEOUT_BYTES, number, ack[..], ret)
    {
      hide Progress, InTime, StreamPacket, Validate, SentFirst, FirstSync, Base, Slice, PacketSize, Outcome, SaneAnswer;
      var n := PacketSize(pkt[..]) + XFER_TIMEOUT_BYTES;
      ghost var stream, from, bytes := dev.stream, dev.pos, pkt[..];
      ghost var packet := pkt[..PacketSize(pkt[..])];
      Stage(packet, pkt, n);
      var next;
      ghost var k, h;
      ret, next, k, h := Reassemble(ack, n);
      assert pkt[..] == bytes;
      if ret != 0 {
        return;
      }
      ret := Judge(ack, next, stream, from, n, k, h);
    }

    /** The request packet: header, payload, check value. */
    method FillPacket(pkt: array<byte>, cmd: byte, payload: seq<byte>)
      requires pkt.Length == MAX_XFER_BUFFER_SIZE && |payload| <= MAX_SPI_MSG_SIZE
      modifies pkt
      ensures pkt[..HDR_SIZE + |payload| + CRC_SIZE] == BuildPacket(cmd, number, payload)
      ensures PacketSize(pkt[..]) == HDR_SIZE + |payload| + CRC_SIZE
    {
      hide Crc32.Register, Crc32.Field, Header;
      var n := HDR_SIZE + |payload|;
      ghost var body := Header(cmd, |payload|, number) + payload;
      Put(pkt, 0, Header(cmd, |payload|, number));
      Put(pkt, HDR_SIZE, payload);
      assert pkt[..n] == body;
      var crc := Crc32.ComputeCrc32(Crc32.INITIAL, pkt, n);
      Put(pkt, n, Crc32.Field(!crc));
      assert pkt[..n + CRC_SIZE] == body + Crc32.Field(!crc);
      PacketRoundTrip(cmd, number, payload);
      SamePacketSize(pkt[..], n + CRC_SIZE);
      assert pkt[..][..n + CRC_SIZE] == pkt[..n + CRC_SIZE];
    }

    /**
     mei_vsc_xfer. `woken` is what the wake-up handshake came to. The request goes out under the
     next sequence number; what comes back is the payload of the one answer that Validate accepts
     for that number, cut to the caller's buffer, and nothing at all otherwise.
     */
    method Xfer(cmd: byte, tx: array?<byte>, txLen: u32, rx: array?<byte>, rxMax: nat, woken: bool)
      returns (ret: int, rxLen: nat)
      requires Valid()
      requires tx != null ==> txLen <= tx.Length && tx !in {txBuf1, rxBuf1}
      requires rx != null ==> rxMax <= rx.Length && rx !in {txBuf1, rxBuf1}
      requires SaneAnswer(dev.stream, dev.pos)
      modifies this`number, this`requests, dev, txBuf1, rxBuf1, rx
      ensures Valid()
      ensures tx == null || rx == null || txLen > MAX_SPI_MSG_SIZE ==>
                ret == EINVAL && rxLen == 0 && requests == old(requests) && unchanged(dev)
      ensures ret != 0 ==> rxLen == 0 && (rx != null ==> rx[..] == old(rx[..]))
      ensures tx != null && rx != null && txLen <= MAX_SPI_MSG_SIZE ==>
                && requests == old(requests) + 1
                && (!woken ==> ret == ETIME && unchanged(dev))
                && (woken ==>
                      && SentFirst(old(dev.sent), BuildPacket(cmd, number, old(tx[..txLen])) + old(Tail(HDR_SIZE + txLen + CRC_SIZE)), dev.sent)
                      && (!dev.Clean(old(dev.count)) ==> ret == dev.fault(dev.count - 1) && ret != 0)
                      && (dev.Clean(old(dev.count)) ==> AllZero(txBuf1[..]))
                      && (dev.Clean(old(dev.count)) ==>
                            AnswerDelivered(dev.stream, old(dev.pos), HDR_SIZE + txLen + CRC_SIZE + XFER_TIMEOUT_BYTES,
                                            number, rxMax, old(rx[..]), rx[..], ret, rxLen)))
    {
      hide Crc32.Register, Crc32.Field, Validate, SentFirst, Outcome, SaneAnswer, AnswerDelivered, Splice, InTime, RequestNumber;
      ret, rxLen := EINVAL, 0;
      if tx == null || rx == null || txLen > MAX_SPI_MSG_SIZE {
        return;
      }
      var pkt := new byte[MAX_XFER_BUFFER_SIZE](_ => 0);
      var ack := new byte[MAX_XFER_BUFFER_SIZE](_ => 0);
      number := (number + 1) % 0x1_0000_0000;
      NextNumber(requests);
      requests := requests + 1;
      FillPacket(pkt, cmd, tx[..txLen]);
      if !woken {
        ret := ETIME;
        return;
      }
      ghost var stream, from, n := dev.stream, dev.pos, HDR_SIZE + txLen + CRC_SIZE + XFER_TIMEOUT_BYTES;
      ret := XferInternal(pkt, ack);
      if ret == 0 {
        NoInTimeNoZero(stream, from, n, number, ack[..], ret);
        rxLen := Min(Len(ack[..]), rxMax);
        Put(rx, 0, ack[..][HDR_SIZE..HDR_SIZE + rxLen]);
      }
      if dev.Clean(old(dev.count)) {
        DeliverAnswer(stream, from, n, number, ack[..], rxMax, old(rx[..]), rx[..], ret, rxLen);
      }
    }
  }

  // Sequence freshness. Between the calls spoken of, any others may have come, woken or not, answered or not.

  /** One call of the transfer and what came of it: the `request`-th to be numbered, reading the stream `from` there. */
  datatype Call = Call(from: nat, n: nat, request: nat, rxMax: nat, before: seq<byte>, after: seq<byte>, ret: int, rxLen: nat)

  ghost predicate Ended(stream: nat -> byte, c: Call) {
    AnswerDelivered(stream, c.from, c.n, RequestNumber(c.request), c.rxMax, c.before, c.after, c.ret, c.rxLen)
  }

  /** The first answer in the stream is `i` bytes in and the one to the request counted as `acked`. */
  ghost predicate Answers(stream: nat -> byte, from: nat, i: nat, acked: nat, cmd: byte, payload: seq<byte>) {
    && FirstSync(stream, from, i) && |payload| <= MAX_SPI_MSG_SIZE
    && StreamPacket(stream, from + i) == BuildPacket(cmd, RequestNumber(acked), payload)
  }

  /** The caller's buffer begins with the payload, as far as it fits. */
  ghost predicate Received(c: Call, payload: seq<byte>) {
    c.rxLen == Min(|payload|, c.rxMax) && c.rxLen <= |c.before| && c.after == Splice(c.before, 0, payload[..c.rxLen])
  }

  /** Exactly which in-time answers a call accepts: a suitable verdict, to a request a multiple of 2^32 back. */
  lemma AcceptedExactly(stream: nat -> byte, c: Call, i: nat, acked: nat, cmd: byte, payload: seq<byte>)
    requires Ended(stream, c) && acked <= c.request
    requires Answers(stream, c.from, i, acked, cmd, payload) && InTime(stream, c.from, c.n, i)
    ensures c.ret == 0 <==>
              cmd !in {CMD_SPI_FATAL_ERR, CMD_SPI_NACK, CMD_SPI_BUSY} && (c.request - acked) % 0x1_0000_0000 == 0
    ensures c.ret == 0 ==> Received(c, payload)
  {
    hide Validate, BuildPacket, StreamPacket, InTime, FirstSync, Splice, Delivered, RequestNumber, Received;
    BuiltDelivered(c, RequestNumber(c.request), cmd, RequestNumber(acked), payload);
    SameNumber(acked, c.request);
  }

  lemma SameNumber(j: nat, k: nat)
    requires j <= k
    ensures RequestNumber(j) == RequestNumber(k) <==> (k - j) % 0x1_0000_0000 == 0
  {
  }

  lemma BuiltDelivered(c: Call, number: u32, cmd: byte, acked: u32, payload: seq<byte>)
    requires |payload| <= MAX_SPI_MSG_SIZE && |BuildPacket(cmd, acked, payload)| == PacketSize(BuildPacket(cmd, acked, payload))
    requires Delivered(BuildPacket(cmd, acked, payload), number, c.rxMax, c.before, c.after, c.ret, c.rxLen)
    ensures c.ret == 0 <==> cmd !in {CMD_SPI_FATAL_ERR, CMD_SPI_NACK, CMD_SPI_BUSY} && acked == number
    ensures c.ret == 0 ==> Received(c, payload)
  {
    BuiltPacketVerdict(cmd, acked, payload, number);
    PacketRoundTrip(cmd, acked, payload);
    hide Validate, BuildPacket, Splice;
  }

  /**
   Freshness: as long as at most 2^32 requests have been numbered since the start, a call that succeeds
   on a device that answers only what it was asked has the answer to its own request.
   */
  lemma Freshness(stream: nat -> byte, c: Call, i: nat, acked: nat, cmd: byte, payload: seq<byte>)
    requires Ended(stream, c) && c.ret == 0
    requires 1 <= acked <= c.request <= 0x1_0000_0000 && Answers(stream, c.from, i, acked, cmd, payload)
    ensures acked == c.request && Received(c, payload)
  {
    hide BuildPacket, StreamPacket, Delivered, Received, RequestNumber, FirstSync;
    var j: nat :| InTime(stream, c.from, c.n, j);
    FirstSyncUnique(stream, c.from, i, j);
    hide AnswerDelivered, InTime;
    AcceptedExactly(stream, c, i, acked, cmd, payload);
  }

  /** The bound is sharp: one request later, the first one's answer is accepted again if it comes in time. */
  lemma StaleAfterWrap(stream: nat -> byte, c: Call, i: nat, payload: seq<byte>)
    requires Ended(stream, c) && c.request == 0x1_0000_0001
    requires Answers(stream, c.from, i, 1, CMD_SPI_ACK, payload) && InTime(stream, c.from, c.n, i)
    ensures c.ret == 0 && Received(c, payload)
  {
    hide Answers, Ended, InTime, Received;
    AcceptedExactly(stream, c, i, 1, CMD_SPI_ACK, payload);
  }
}
