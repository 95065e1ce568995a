/**
 The boot downloader: frames are built in the transmit buffer, byte-swapped in place and clocked
 out one by one. What reaches the wire is tied to the streams of VscFrames.
 */
module VscLoad {
  import opened Bytes
  import opened VscParse
  import opened VscFrames
  import VscReceiver

  const EAGAIN := -11
  const EINVAL := -22
  const LOADER_XFER_RETRY_COUNT := 25
  const VSC_TOKEN_BOOTLOADER_REQ: byte := 1
  const VSC_TOKEN_DUMP_RESP: byte := 4

  /** The same frames as they travel. */
  function Swabbed(fs: seq<Frame>): (r: seq<Frame>)
    requires Whole(fs)
    ensures |r| == |fs|
  {
    VscReceiver.Unswabbed(fs)
  }

  /** All of `fs` went out if `ret` is 0, and only a strict prefix of them otherwise. */
  ghost predicate Sent(before: seq<Frame>, fs: seq<Frame>, after: seq<Frame>, ret: int) {
    && Whole(fs)
    && (ret == 0 ==> after == before + Swabbed(fs))
    && (ret != 0 ==> exists k :: 0 <= k < |fs| && after == before + Swabbed(fs)[..k])
  }

  lemma SentThen(before: seq<Frame>, fs: seq<Frame>, middle: seq<Frame>, gs: seq<Frame>, after: seq<Frame>, ret: int)
    requires Sent(before, fs, middle, 0) && Sent(middle, gs, after, ret)
    ensures Sent(before, fs + gs, after, ret)
  {
    hide Swab;
    assert Swabbed(fs + gs) == Swabbed(fs) + Swabbed(gs);
    if ret != 0 {
      var k :| 0 <= k < |gs| && after == middle + Swabbed(gs)[..k];
      assert Swabbed(fs + gs)[..|fs| + k] == Swabbed(fs) + Swabbed(gs)[..k];
      assert after == before + Swabbed(fs + gs)[..|fs| + k];
    }
  }

  lemma SentPart(before: seq<Frame>, fs: seq<Frame>, after: seq<Frame>, gs: seq<Frame>, ret: int)
    requires Sent(before, fs, after, ret) && ret != 0
    requires Whole(gs)
    ensures Sent(before, fs + gs, after, ret)
  {
    hide Swab;
    var k :| 0 <= k < |fs| && after == before + Swabbed(fs)[..k];
    assert Swabbed(fs + gs)[..k] == Swabbed(fs)[..k];
  }

  lemma SentNothing(before: seq<Frame>)
    ensures Sent(before, [], before, 0)
  {
    assert before + [] == before;
  }

  /** The bus in ROM and loader mode: when the device holds its line up, what faults, what it answers. */
  class RomBus {
    const asserted: (nat, nat) -> bool
    const fault: nat -> int
    const reply: (nat, nat) -> byte
    var attempts: nat
    var wire: seq<Frame>

    constructor (asserted: (nat, nat) -> bool, fault: nat -> int, reply: (nat, nat) -> byte)
      ensures this.asserted == asserted && this.fault == fault && this.reply == reply
      ensures attempts == 0 && wire == []
    {
      this.asserted, this.fault, this.reply := asserted, fault, reply;
      attempts, wire := 0, [];
    }

    /** The frame clocked in during an attempt, as it stands on the wire. */
    function Answer(attempt: nat, len: nat): (f: Frame)
      ensures |f| == len
    {
      seq(len, i requires 0 <= i < len => reply(attempt, i))
    }
  }

  lemma SwabWord(s: Frame, i: nat)
    requires |s| % 4 == 0 && 4 * i + 4 <= |s|
    ensures Swab(s)[4 * i] == s[4 * i + 3] && Swab(s)[4 * i + 1] == s[4 * i + 2]
    ensures Swab(s)[4 * i + 2] == s[4 * i + 1] && Swab(s)[4 * i + 3] == s[4 * i]
  {
  }

  /** The swapping loop of spi_rom_dev_xfer over the first `len` bytes of a buffer. */
  method SwabBuffer(b: array<byte>, len: nat)
    requires len <= b.Length && len % 4 == 0
    modifies b
    ensures b[..len] == Swab(old(b[..len]))
    ensures forall k :: len <= k < b.Length ==> b[k] == old(b[k])
  {
    ghost var was := b[..len];
    var i := 0;
    while i < len / 4
      invariant 0 <= i <= len / 4
      invariant forall k :: 0 <= k < 4 * i ==> b[k] == Swab(was)[k]
      invariant forall k :: 4 * i <= k < b.Length ==> b[k] == old(b[k])
    {
      hide Swab;
      SwabWord(was, i);
      b[4 * i], b[4 * i + 1], b[4 * i + 2], b[4 * i + 3] := b[4 * i + 3], b[4 * i + 2], b[4 * i + 1], b[4 * i];
      i := i + 1;
    }
  }

  /** sum_CRC's loop. */
  method SumCrcOf(b: array<byte>, size: nat) returns (crc: u32)
    requires size <= b.Length
    ensures crc == SumCrc(b[..size])
  {
    crc := 0;
    for i := 0 to size
      invariant crc == SumCrc(b[..i])
    {
      assert b[..i + 1][..i] == b[..i];
      crc := (crc + b[i]) % 0x1_0000_0000;
    }
  }

  /** Whether the device lowers its line within the polls of an attempt. */
  ghost predicate Ready(asserted: (nat, nat) -> bool, attempt: nat) {
    exists p :: 0 <= p < LOADER_XFER_RETRY_COUNT && !asserted(attempt, p)
  }

  /** What the attempt comes to: EAGAIN if the line never falls, and the transfer's own result otherwise. */
  ghost function Result(bus: RomBus, attempt: nat): int {
    if Ready(bus.asserted, attempt) then bus.fault(attempt) else EAGAIN
  }

  /** `n` attempts on end, none of which fails. */
  ghost predicate AllGood(bus: RomBus, from: nat, n: nat) {
    forall a :: from <= a < from + n ==> Result(bus, a) == 0
  }

  /** Up to `n` attempts, one a frame, ended by the first that fails, whose result that is. */
  ghost predicate Tried(bus: RomBus, from: nat, n: nat, to: nat, ret: int) {
    if ret == 0 then to == from + n && AllGood(bus, from, n)
    else from < to <= from + n && AllGood(bus, from, to - from - 1) && ret == Result(bus, to - 1)
  }

  lemma TriedThen(bus: RomBus, from: nat, n: nat, middle: nat, m: nat, to: nat, ret: int)
    requires Tried(bus, from, n, middle, 0) && Tried(bus, middle, m, to, ret)
    ensures Tried(bus, from, n + m, to, ret)
  {
  }

  lemma TriedPart(bus: RomBus, from: nat, n: nat, to: nat, ret: int, m: nat)
    requires Tried(bus, from, n, to, ret) && ret != 0 && n <= m
    ensures Tried(bus, from, m, to, ret)
  {
  }

  /** The token, the low byte of the second word the device shifts out, is one of the two that allow the download. */
  predicate TokenOk(bus: RomBus, attempt: nat) {
    bus.reply(attempt, 7) == VSC_TOKEN_BOOTLOADER_REQ || bus.reply(attempt, 7) == VSC_TOKEN_DUMP_RESP
  }

  lemma TokenIsByte4(bus: RomBus, attempt: nat)
    ensures Swab(bus.Answer(attempt, ROM_PKG))[4] in {VSC_TOKEN_BOOTLOADER_REQ, VSC_TOKEN_DUMP_RESP} <==> TokenOk(bus, attempt)
  {
    SwabWord(bus.Answer(attempt, ROM_PKG), 1);
    hide Swab;
  }

  /** The same for a stream that opens with the query, whose token is judged before anything else goes out. */
  ghost predicate BootTried(bus: RomBus, from: nat, n: nat, to: nat, ret: int) {
    if Result(bus, from) == 0 && !TokenOk(bus, from) then ret == EINVAL && to == from + 1 else Tried(bus, from, n, to, ret)
  }

  lemma BootTriedThen(bus: RomBus, from: nat, n: nat, middle: nat, m: nat, to: nat, ret: int)
    requires BootTried(bus, from, n, middle, 0) && Tried(bus, middle, m, to, ret) && n > 0
    ensures BootTried(bus, from, n + m, to, ret)
  {
    TriedThen(bus, from, n, middle, m, to, ret);
  }

  lemma BootTriedPart(bus: RomBus, from: nat, n: nat, to: nat, ret: int, m: nat)
    requires BootTried(bus, from, n, to, ret) && ret != 0 && n <= m
    ensures BootTried(bus, from, m, to, ret)
  {
  }

  class Loader {
    const bus: RomBus
    const txBuf: array<byte>
    const rxBuf: array<byte>

    ghost predicate Valid()
      reads this
    {
      txBuf.Length == FW_PKG && rxBuf.Length == FW_PKG && txBuf != rxBuf
    }

    constructor (bus: RomBus)
      ensures Valid() && this.bus == bus && fresh(txBuf) && fresh(rxBuf)
    {
      this.bus := bus;
      txBuf := new byte[FW_PKG](_ => 0);
      rxBuf := new byte[FW_PKG](_ => 0);
    }

    /** spi_rom_dev_xfer of the first `len` bytes of the transmit buffer, reading into the receive buffer if asked. */
    method RomDevXfer(len: nat, read: bool) returns (ret: int)
      requires Valid() && len <= FW_PKG
      modifies bus, txBuf, rxBuf
      ensures len % 4 != 0 ==> ret == EINVAL && bus.wire == old(bus.wire) && txBuf[..] == old(txBuf[..])
      ensures len % 4 == 0 ==>
                && ret == Result(bus, old(bus.attempts))
                && bus.wire == old(bus.wire) + (if ret == 0 then [Swab(old(txBuf[..len]))] else [])
                && txBuf[..len] == Swab(old(txBuf[..len]))
                && bus.attempts == old(bus.attempts) + 1
      ensures len % 4 == 0 && ret == 0 && read ==> rxBuf[..len] == Swab(bus.Answer(old(bus.attempts), len))
      ensures !read ==> rxBuf[..] == old(rxBuf[..])
    {
      if len % 4 != 0 {
        return EINVAL;
      }
      hide Swab;
      SwabBuffer(txBuf, len);
      var attempt := bus.attempts;
      bus.attempts := attempt + 1;
      var retry := 0;
      while retry < LOADER_XFER_RETRY_COUNT
        invariant 0 <= retry <= LOADER_XFER_RETRY_COUNT
        invariant forall p :: 0 <= p < retry ==> bus.asserted(attempt, p)
      {
        if !bus.asserted(attempt, retry) {
          break;
        }
        retry := retry + 1;
      }
      if retry >= LOADER_XFER_RETRY_COUNT {
        return EAGAIN;
      }
      ret := bus.fault(attempt);
      if ret == 0 {
        bus.wire := bus.wire + [txBuf[..len]];
        if read {
          Put(rxBuf, 0, bus.Answer(attempt, len));
          assert rxBuf[..len] == rxBuf[..][0..len];
          SwabBuffer(rxBuf, len);
        }
      }
    }

    /** One frame out of the transmit buffer, nothing read back. */
    method SendFrame(len: nat, ghost f: Frame) returns (ret: int)
      requires Valid() && (len == ROM_PKG || len == FW_PKG) && |f| == len && txBuf[..len] == f
      modifies bus, txBuf, rxBuf
      ensures Sent(old(bus.wire), [f], bus.wire, ret) && Tried(bus, old(bus.attempts), 1, bus.attempts, ret)
    {
      hide Swab;
      assert ROM_PKG % 4 == 0 && FW_PKG % 4 == 0;
      ret := RomDevXfer(len, false);
      assert Swabbed([f]) == [Swab(f)] && Swabbed([f])[..0] == [];
      assert old(bus.wire) + [] == old(bus.wire);
    }

    /** One DL_CONT frame. */
    method SendRomCont(chunk: seq<byte>, last: bool) returns (ret: int)
      requires Valid() && |chunk| <= ROM_PAYLOAD
      modifies bus, txBuf, rxBuf
      ensures Sent(old(bus.wire), [RomCont(chunk, last)], bus.wire, ret) && Tried(bus, old(bus.attempts), 1, bus.attempts, ret)
    {
      hide RomCont, Sent, Whole, Le32, Le16;
      Clear(txBuf, ROM_PKG);
      Put(txBuf, 0, Le32(VSC_MAGIC_NUM) + [VSC_CMD_DL_CONT, if last then 1 else 0] + Le16(|chunk|) + chunk);
      RomContBuffer(txBuf[..], chunk, last);
      ret := SendFrame(ROM_PKG, RomCont(chunk, last));
    }

    /** The next DL_CONT frame of the boot loader: `len` bytes of it, the ones after `at`. */
    method RomStep(frag: Fragment, at: nat, ghost before: seq<Frame>, ghost from: nat, ghost done: seq<Frame>)
      returns (ret: int, len: nat, ghost done': seq<Frame>)
      requires Valid() && InBounds(frag) && at < frag.size
      requires RomChunks(Body(frag)) == done + RomTail(frag, at)
      requires Sent(before, done, bus.wire, 0) && Tried(bus, from, |done|, bus.attempts, 0)
      modifies bus, txBuf, rxBuf
      ensures 0 < len <= frag.size - at
      ensures ret != 0 ==>
                Sent(before, RomChunks(Body(frag)), bus.wire, ret) && Tried(bus, from, |RomChunks(Body(frag))|, bus.attempts, ret)
      ensures ret == 0 ==>
                && RomChunks(Body(frag)) == done' + RomTail(frag, at + len)
                && Sent(before, done', bus.wire, 0) && Tried(bus, from, |done'|, bus.attempts, 0)
    {
      hide RomCont, Sent, Tried, Whole, RomChunks, RomTail;
      var remain := frag.size - at;
      len := Min(remain, ROM_PAYLOAD);
      var chunk := frag.file[frag.start + at..frag.start + at + len];
      ghost var middle := bus.wire;
      ghost var tried := bus.attempts;
      RomChunksCut(frag, at, len);
      ret := SendRomCont(chunk, remain == len);
      Advance(before, done, middle, RomChunks(Body(frag)), RomCont(chunk, remain == len), RomTail(frag, at + len), bus.wire, ret);
      AdvanceTried(bus, from, |done|, tried, |RomChunks(Body(frag))|, bus.attempts, ret);
      done' := done + [RomCont(chunk, remain == len)];
    }

    /** load_boot: the boot loader in DL_CONT frames. */
    method LoadBoot(frag: Fragment) returns (ret: int)
      requires Valid() && InBounds(frag)
      modifies bus, txBuf, rxBuf
      ensures frag.size == 0 ==> ret == EINVAL && bus.wire == old(bus.wire)
      ensures frag.size > 0 ==>
                Sent(old(bus.wire), RomChunks(Body(frag)), bus.wire, ret) && Tried(bus, old(bus.attempts), |RomChunks(Body(frag))|, bus.attempts, ret)
    {
      if frag.size == 0 {
        return EINVAL;
      }
      hide Sent, Whole, RomChunks, RomTail;
      ghost var before, from, done := bus.wire, bus.attempts, [];
      SentNothing(before);
      assert Tried(bus, from, |done|, from, 0);
      hide Tried;
      RomTailEnds(frag);
      assert RomChunks(Body(frag)) == [] + RomTail(frag, 0);
      ret := 0;
      var at := 0;
      while at < frag.size
        invariant 0 <= at <= frag.size && ret == 0
        invariant RomChunks(Body(frag)) == done + RomTail(frag, at)
        invariant Sent(before, done, bus.wire, 0) && Tried(bus, from, |done|, bus.attempts, 0)
      {
        var len;
        ret, len, done := RomStep(frag, at, before, from, done);
        if ret != 0 {
          return;
        }
        at := at + len;
      }
      assert done + [] == done;
    }

    /** The query frame and the token it brings back. */
    method Query() returns (ret: int, ghost query: Frame)
      requires Valid()
      modifies bus, txBuf, rxBuf
      ensures |query| == ROM_PKG && VscReceiver.IsQuery(query)
      ensures ret != EINVAL ==> Sent(old(bus.wire), [query], bus.wire, ret)
      ensures ret == EINVAL ==> Sent(old(bus.wire), [query], bus.wire, 0) || Sent(old(bus.wire), [query], bus.wire, ret)
      ensures BootTried(bus, old(bus.attempts), 1, bus.attempts, ret)
    {
      hide Sent, Whole, Swab, Splice, VscReceiver.IsQuery;
      query := QueryOver(txBuf[..ROM_PKG]);
      QueryIsQuery(txBuf[..ROM_PKG]);
      ghost var before, was := bus.wire, txBuf[..];
      Put(txBuf, 0, Le32(VSC_MAGIC_NUM) + [VSC_CMD_QUERY]);
      QueryBuffer(was);
      assert txBuf[..ROM_PKG] == txBuf[..][..ROM_PKG];
      assert ROM_PKG % 4 == 0;
      ret := RomDevXfer(ROM_PKG, true);
      SentOne(before, query, bus.wire, ret);
      TokenIsByte4(bus, old(bus.attempts));
      if ret == 0 {
        assert rxBuf[4] == rxBuf[..ROM_PKG][4];
        if rxBuf[4] != VSC_TOKEN_BOOTLOADER_REQ && rxBuf[4] != VSC_TOKEN_DUMP_RESP {
          ret := EINVAL;
        }
      }
    }

    /** The boot loader's DL_START. */
    method SendRomStart(frag: Fragment, option: u16) returns (ret: int)
      requires Valid()
      modifies bus, txBuf, rxBuf
      ensures Sent(old(bus.wire), [RomStart(option, frag.size, frag.location)], bus.wire, ret) && Tried(bus, old(bus.attempts), 1, bus.attempts, ret)
    {
      hide Sent, Whole, Swab, RomStart, RomStartHead, SumCrc, Le32;
      Clear(txBuf, ROM_PKG);
      Clear(rxBuf, ROM_PKG);
      Put(txBuf, 0, RomStartHead(option, frag.size, frag.location));
      var crc := SumCrcOf(txBuf, 16);
      assert txBuf[..16] == RomStartHead(option, frag.size, frag.location);
      Put(txBuf, 16, Le32(crc));
      RomStartBuffer(txBuf[..], option, frag.size, frag.location);
      ret := SendFrame(ROM_PKG, RomStart(option, frag.size, frag.location));
    }

    /** load_bootloader: query, token check, DL_START, image. */
    method LoadBootloader(frag: Fragment, option: u16) returns (ret: int, ghost query: Frame)
      requires Valid() && InBounds(frag)
      modifies bus, txBuf, rxBuf
      ensures |query| == ROM_PKG && VscReceiver.IsQuery(query)
      ensures frag.size == 0 ==> ret == EINVAL && bus.wire == old(bus.wire)
      ensures frag.size > 0 ==>
                && Sent(old(bus.wire), BootloaderStream(query, option, frag), bus.wire, ret)
                && BootTried(bus, old(bus.attempts), |BootloaderStream(query, option, frag)|, bus.attempts, ret)
    {
      hide Sent, Tried, BootTried, Whole, Swab, RomStart, RomChunks, VscReceiver.IsQuery;
      if frag.size == 0 {
        query := QueryOver(txBuf[..ROM_PKG]);
        QueryIsQuery(txBuf[..ROM_PKG]);
        return EINVAL, query;
      }
      ghost var before, from, start := bus.wire, bus.attempts, RomStart(option, frag.size, frag.location);
      ret, query := Query();
      ghost var all := BootloaderStream(query, option, frag);
      StreamParts(query, option, frag);
      if ret != 0 {
        RestAny(before, [query], bus.wire, all, ret);
        BootTriedPart(bus, from, 1, bus.attempts, ret, |all|);
        return;
      }
      ghost var middle, tried := bus.wire, bus.attempts;
      ret := SendRomStart(frag, option);
      SentThen(before, [query], middle, [start], bus.wire, ret);
      BootTriedThen(bus, from, 1, tried, 1, bus.attempts, ret);
      if ret != 0 {
        Rest(before, [query] + [start], bus.wire, all, ret);
        BootTriedPart(bus, from, 2, bus.attempts, ret, |all|);
        return;
      }
      middle, tried := bus.wire, bus.attempts;
      ret := LoadBoot(frag);
      BootTriedThen(bus, from, 2, tried, |RomChunks(Body(frag))|, bus.attempts, ret);
      SentThen(before, [query] + [start], middle, RomChunks(Body(frag)), bus.wire, ret);
    }

    /** One raw frame. */
    method SendFwCont(chunk: seq<byte>) returns (ret: int)
      requires Valid() && |chunk| <= FW_PKG
      modifies bus, txBuf, rxBuf
      ensures Sent(old(bus.wire), [FwCont(chunk)], bus.wire, ret) && Tried(bus, old(bus.attempts), 1, bus.attempts, ret)
    {
      hide FwCont, Sent;
      Clear(txBuf, FW_PKG);
      Put(txBuf, 0, chunk);
      FwContBuffer(txBuf[..], chunk);
      ret := SendFrame(FW_PKG, FwCont(chunk));
    }

    /** The next raw frame of an image: `len` bytes of it, the ones after `at`. */
    method FwStep(frag: Fragment, at: nat, ghost before: seq<Frame>, ghost from: nat, ghost done: seq<Frame>)
      returns (ret: int, len: nat, ghost done': seq<Frame>)
      requires Valid() && InBounds(frag) && at < frag.size
      requires FwChunks(Body(frag)) == done + FwTail(frag, at)
      requires Sent(before, done, bus.wire, 0) && Tried(bus, from, |done|, bus.attempts, 0)
      modifies bus, txBuf, rxBuf
      ensures 0 < len <= frag.size - at
      ensures ret != 0 ==>
                Sent(before, FwChunks(Body(frag)), bus.wire, ret) && Tried(bus, from, |FwChunks(Body(frag))|, bus.attempts, ret)
      ensures ret == 0 ==>
                && FwChunks(Body(frag)) == done' + FwTail(frag, at + len)
                && Sent(before, done', bus.wire, 0) && Tried(bus, from, |done'|, bus.attempts, 0)
    {
      hide FwCont, Sent, Tried, Whole, FwChunks, FwTail;
      var remain := frag.size - at;
      len := Min(remain, FW_PKG);
      var chunk := frag.file[frag.start + at..frag.start + at + len];
      ghost var middle := bus.wire;
      ghost var tried := bus.attempts;
      FwChunksCut(frag, at, len);
      ret := SendFwCont(chunk);
      Advance(before, done, middle, FwChunks(Body(frag)), FwCont(chunk), FwTail(frag, at + len), bus.wire, ret);
      AdvanceTried(bus, from, |done|, tried, |FwChunks(Body(frag))|, bus.attempts, ret);
      done' := done + [FwCont(chunk)];
    }

    /** load_fw_bin: an image in raw 512-byte frames. */
    method LoadFwBin(frag: Fragment) returns (ret: int)
      requires Valid() && InBounds(frag)
      modifies bus, txBuf, rxBuf
      ensures frag.size == 0 ==> ret == EINVAL && bus.wire == old(bus.wire)
      ensures frag.size > 0 ==>
                Sent(old(bus.wire), FwChunks(Body(frag)), bus.wire, ret) && Tried(bus, old(bus.attempts), |FwChunks(Body(frag))|, bus.attempts, ret)
    {
      if frag.size == 0 {
        return EINVAL;
      }
      hide Sent, Whole, FwChunks, FwTail;
      ghost var before, from, done := bus.wire, bus.attempts, [];
      SentNothing(before);
      assert Tried(bus, from, |done|, from, 0);
      hide Tried;
      FwTailEnds(frag);
      assert FwChunks(Body(frag)) == [] + FwTail(frag, 0);
      ret := 0;
      var at := 0;
      while at < frag.size
        invariant 0 <= at <= frag.size && ret == 0
        invariant FwChunks(Body(frag)) == done + FwTail(frag, at)
        invariant Sent(before, done, bus.wire, 0) && Tried(bus, from, |done|, bus.attempts, 0)
      {
        var len;
        ret, len, done := FwStep(frag, at, before, from, done);
        if ret != 0 {
          return;
        }
        at := at + len;
      }
      assert done + [] == done;
    }

    /** load_fw_frag: DL_START and the image. */
    method LoadFwFrag(frag: Fragment, imgType: byte, option: u16) returns (ret: int)
      requires Valid() && InBounds(frag) && frag.size > 0
      modifies bus, txBuf, rxBuf
      ensures Sent(old(bus.wire), FragStream(option, imgType, frag), bus.wire, ret)
      ensures Tried(bus, old(bus.attempts), |FragStream(option, imgType, frag)|, bus.attempts, ret)
    {
      hide Sent, Tried, Whole, Swab, FwStart, FwStartHead;
      ghost var before, from, start := bus.wire, bus.attempts, FwStart(option, imgType, frag.size, frag.location);
      Clear(txBuf, FW_PKG);
      Put(txBuf, 0, FwStartHead(option, imgType, frag.size, frag.location));
      var crc := SumCrcOf(txBuf, 16);
      assert txBuf[..16] == FwStartHead(option, imgType, frag.size, frag.location);
      Put(txBuf, 16, Le32(crc));
      FwStartBuffer(txBuf[..], option, imgType, frag.size, frag.location);
      ret := SendFrame(FW_PKG, start);
      if ret != 0 {
        SentPart(before, [start], bus.wire, FwChunks(Body(frag)), ret);
        TriedPart(bus, from, 1, bus.attempts, ret, |FragStream(option, imgType, frag)|);
        return;
      }
      ghost var middle, tried := bus.wire, bus.attempts;
      ret := LoadFwBin(frag);
      TriedThen(bus, from, 1, tried, |FwChunks(Body(frag))|, bus.attempts, ret);
      SentThen(before, [start], middle, FwChunks(Body(frag)), bus.wire, ret);
    }

    /** The next location and size of the DL_SET payload, at the running index. */
    method PutEntry(f: Fragment, index: nat, ghost option: u16, ghost count: byte, ghost es: seq<Entry>) returns (index': nat)
      requires Valid() && |es| < 5 && index == 2 * |es| && txBuf[..] == DlSetBase(option, count, es)
      modifies txBuf
      ensures index' == 2 * (|es| + 1) && txBuf[..] == DlSetBase(option, count, es + [EntryOf(f)])
    {
      hide DlSetBase, Le32, Splice;
      Put(txBuf, 8 + 4 * index, Le32(f.location));
      Put(txBuf, 8 + 4 * (index + 1), Le32(f.size));
      AppendEntry(option, count, es, EntryOf(f));
      index' := index + 2;
    }

    /** The DL_SET frame of load_fw. */
    method FillDlSet(fw: BootFw)
      requires Valid() && fw.fwCnt <= IMG_CNT_MAX
      modifies txBuf
      ensures txBuf[..] == DlSet(fw.fwOption, fw.fwCnt, Listed(fw.frags))
    {
      hide DlSetBase, DlSetHead, Splice, SumCrc;
      ghost var o, n := fw.fwOption, fw.fwCnt;
      Clear(txBuf, FW_PKG);
      Put(txBuf, 0, DlSetHead(fw.fwOption, fw.fwCnt));
      EmptyDlSet(txBuf[..], o, n);
      ghost var es := [];
      var index := PutEntry(fw.frags[ARC_SEM], 0, o, n, es);
      es := es + [EntryOf(fw.frags[ARC_SEM])];
      if fw.frags[ACER].size > 0 {
        index := PutEntry(fw.frags[ACER], index, o, n, es);
        es := es + [EntryOf(fw.frags[ACER])];
        if fw.frags[ACEV].size > 0 {
          index := PutEntry(fw.frags[ACEV], index, o, n, es);
          es := es + [EntryOf(fw.frags[ACEV])];
        }
        if fw.frags[ACEC].size > 0 {
          index := PutEntry(fw.frags[ACEC], index, o, n, es);
          es := es + [EntryOf(fw.frags[ACEC])];
        }
      }
      index := PutEntry(fw.frags[EM7D], index, o, n, es);
      es := es + [EntryOf(fw.frags[EM7D])];
      assert es == Listed(fw.frags);
      var crc := SumCrcOf(txBuf, 8 + 8 * fw.fwCnt);
      assert txBuf[..8 + 8 * fw.fwCnt] == txBuf[..][..8 + 8 * fw.fwCnt];
      Put(txBuf, 8 + 8 * fw.fwCnt, Le32(crc));
    }

    /** One optional fragment as the next stretch of the whole stream `all`. */
    method LoadIfAny(frag: Fragment, imgType: byte, option: u16,
                     ghost before: seq<Frame>, ghost from: nat, ghost fs: seq<Frame>, ghost all: seq<Frame>) returns (ret: int)
      requires Valid() && InBounds(frag)
      requires Tried(bus, from, |fs|, bus.attempts, 0)
      requires Sent(before, fs, bus.wire, 0) && fs + FragStreamIfAny(option, imgType, frag) <= all
      requires Whole(all)
      modifies bus, txBuf, rxBuf
      ensures ret == 0 ==>
                && Sent(before, fs + FragStreamIfAny(option, imgType, frag), bus.wire, 0)
                && Tried(bus, from, |fs + FragStreamIfAny(option, imgType, frag)|, bus.attempts, 0)
      ensures ret != 0 ==> Sent(before, all, bus.wire, ret) && Tried(bus, from, |all|, bus.attempts, ret)
    {
      hide Sent, Tried, Whole, FragStream;
      ret := 0;
      if frag.size > 0 {
        ghost var middle, tried := bus.wire, bus.attempts;
        ret := LoadFwFrag(frag, imgType, option);
        SentThen(before, fs, middle, FragStream(option, imgType, frag), bus.wire, ret);
        TriedThen(bus, from, |fs|, tried, |FragStream(option, imgType, frag)|, bus.attempts, ret);
        if ret != 0 {
          Rest(before, fs + FragStream(option, imgType, frag), bus.wire, all, ret);
          TriedPart(bus, from, |fs + FragStream(option, imgType, frag)|, bus.attempts, ret, |all|);
        }
      } else {
        assert fs + [] == fs;
      }
    }

    method SendCamBoot() returns (ret: int)
      requires Valid()
      modifies bus, txBuf, rxBuf
      ensures Sent(old(bus.wire), [CamBoot()], bus.wire, ret) && Tried(bus, old(bus.attempts), 1, bus.attempts, ret)
    {
      hide Sent, Whole, CamBoot, CamBootHead, SumCrc, Le32;
      Clear(txBuf, FW_PKG);
      Put(txBuf, 0, CamBootHead());
      var sum := SumCrcOf(txBuf, 16);
      assert txBuf[..16] == txBuf[..][..16];
      CamBootSum(txBuf[..16]);
      Put(txBuf, 8, Le32(sum));
      CamBootBuffer(txBuf[..]);
      ret := SendFrame(FW_PKG, CamBoot());
    }

    /** load_fw. */
    method LoadFw(fw: BootFw) returns (ret: int)
      requires Valid() && AllInBounds(fw.frags) && fw.fwCnt <= IMG_CNT_MAX
      modifies bus, txBuf, rxBuf
      ensures fw.frags[ARC_SEM].size == 0 || fw.frags[EM7D].size == 0 ==> ret == EINVAL && bus.wire == old(bus.wire)
      ensures fw.frags[ARC_SEM].size > 0 && fw.frags[EM7D].size > 0 ==>
                && Sent(old(bus.wire), FirmwareStream(fw), bus.wire, ret)
                && Tried(bus, old(bus.attempts), |FirmwareStream(fw)|, bus.attempts, ret)
    {
      hide Sent, Tried, Whole, FragStream, FragStreamIfAny, DlSet, CamBoot, Listed, FirmwareStream, Prefixes;
      if fw.frags[ARC_SEM].size == 0 || fw.frags[EM7D].size == 0 {
        return EINVAL;
      }
      ghost var before, from, all, s := bus.wire, bus.attempts, FirmwareStream(fw), Prefixes(fw);
      PrefixesOf(fw);
      FillDlSet(fw);
      assert txBuf[..FW_PKG] == txBuf[..];
      ret := SendFrame(FW_PKG, DlSet(fw.fwOption, fw.fwCnt, Listed(fw.frags)));
      if ret != 0 {
        Rest(before, s[0], bus.wire, all, ret);
        TriedPart(bus, from, 1, bus.attempts, ret, |all|);
        return;
      }
      ret := LoadIfAny(fw.frags[ARC_SEM], IMG_ARCSEM, fw.fwOption, before, from, s[0], all);
      if ret != 0 {
        return;
      }
      ret := LoadIfAny(fw.frags[ACER], IMG_ACE_RUNTIME, fw.fwOption, before, from, s[1], all);
      if ret != 0 {
        return;
      }
      ret := LoadIfAny(fw.frags[ACEV], IMG_ACE_VISION, fw.fwOption, before, from, s[2], all);
      if ret != 0 {
        return;
      }
      ret := LoadIfAny(fw.frags[ACEC], IMG_ACE_CONFIG, fw.fwOption, before, from, s[3], all);
      if ret != 0 {
        return;
      }
      ret := LoadIfAny(fw.frags[EM7D], IMG_EM7D, fw.fwOption, before, from, s[4], all);
      if ret != 0 {
        return;
      }
      ret := LoadIfAny(fw.frags[SKU_CONF], IMG_SKU_CONFIG, fw.fwOption, before, from, s[5], all);
      if ret != 0 {
        return;
      }
      ghost var middle, tried := bus.wire, bus.attempts;
      ret := SendCamBoot();
      SentThen(before, s[6], middle, [CamBoot()], bus.wire, ret);
      TriedThen(bus, from, |s[6]|, tried, 1, bus.attempts, ret);
    }
  }

  /** load_fw's stream as it grows, fragment by fragment. */
  function Prefixes(fw: BootFw): (s: seq<seq<Frame>>)
    requires AllInBounds(fw.frags) && fw.fwCnt <= IMG_CNT_MAX
    ensures |s| == 7
  {
    var o := fw.fwOption;
    var s0 := [DlSet(o, fw.fwCnt, Listed(fw.frags))];
    var s1 := s0 + FragStreamIfAny(o, IMG_ARCSEM, fw.frags[ARC_SEM]);
    var s2 := s1 + FragStreamIfAny(o, IMG_ACE_RUNTIME, fw.frags[ACER]);
    var s3 := s2 + FragStreamIfAny(o, IMG_ACE_VISION, fw.frags[ACEV]);
    var s4 := s3 + FragStreamIfAny(o, IMG_ACE_CONFIG, fw.frags[ACEC]);
    var s5 := s4 + FragStreamIfAny(o, IMG_EM7D, fw.frags[EM7D]);
    var s6 := s5 + FragStreamIfAny(o, IMG_SKU_CONFIG, fw.frags[SKU_CONF]);
    [s0, s1, s2, s3, s4, s5, s6]
  }

  lemma AnyIsThere(option: u16, imgType: byte, f: Fragment)
    requires InBounds(f) && f.size > 0
    ensures FragStreamIfAny(option, imgType, f) == FragStream(option, imgType, f)
  {
  }

  lemma PrefixesOf(fw: BootFw)
    requires AllInBounds(fw.frags) && fw.fwCnt <= IMG_CNT_MAX
    requires fw.frags[ARC_SEM].size > 0 && fw.frags[EM7D].size > 0
    ensures var s, all := Prefixes(fw), FirmwareStream(fw);
            && (forall k :: 0 <= k < 7 ==> s[k] <= all)
            && s[0] == [DlSet(fw.fwOption, fw.fwCnt, Listed(fw.frags))]
            && s[1] == s[0] + FragStreamIfAny(fw.fwOption, IMG_ARCSEM, fw.frags[ARC_SEM])
            && s[2] == s[1] + FragStreamIfAny(fw.fwOption, IMG_ACE_RUNTIME, fw.frags[ACER])
            && s[3] == s[2] + FragStreamIfAny(fw.fwOption, IMG_ACE_VISION, fw.frags[ACEV])
            && s[4] == s[3] + FragStreamIfAny(fw.fwOption, IMG_ACE_CONFIG, fw.frags[ACEC])
            && s[5] == s[4] + FragStreamIfAny(fw.fwOption, IMG_EM7D, fw.frags[EM7D])
            && s[6] == s[5] + FragStreamIfAny(fw.fwOption, IMG_SKU_CONFIG, fw.frags[SKU_CONF])
            && all == s[6] + [CamBoot()]
  {
    hide FragStream, FragStreamIfAny, DlSet, CamBoot, Listed, Whole;
    AnyIsThere(fw.fwOption, IMG_ARCSEM, fw.frags[ARC_SEM]);
    AnyIsThere(fw.fwOption, IMG_EM7D, fw.frags[EM7D]);
    var s, all := Prefixes(fw), FirmwareStream(fw);
    assert all == s[6] + [CamBoot()];
    assert s[5] <= s[6] && s[4] <= s[5] && s[3] <= s[4] && s[2] <= s[3] && s[1] <= s[2] && s[0] <= s[1];
  }

  /** One more frame of the stream `all`. */
  lemma Advance(before: seq<Frame>, done: seq<Frame>, middle: seq<Frame>, all: seq<Frame>, f: Frame, tail: seq<Frame>,
                after: seq<Frame>, ret: int)
    requires all == done + ([f] + tail) && Whole(all)
    requires Sent(before, done, middle, 0) && Sent(middle, [f], after, ret)
    ensures all == (done + [f]) + tail
    ensures if ret == 0 then Sent(before, done + [f], after, 0) else Sent(before, all, after, ret)
  {
    hide Sent;
    SentThen(before, done, middle, [f], after, ret);
    if ret != 0 {
      Rest(before, done + [f], after, all, ret);
    }
  }

  lemma AdvanceTried(bus: RomBus, from: nat, done: nat, middle: nat, all: nat, to: nat, ret: int)
    requires done + 1 <= all && Tried(bus, from, done, middle, 0) && Tried(bus, middle, 1, to, ret)
    ensures if ret == 0 then Tried(bus, from, done + 1, to, 0) else Tried(bus, from, all, to, ret)
  {
    hide Tried;
    TriedThen(bus, from, done, middle, 1, to, ret);
    if ret != 0 {
      TriedPart(bus, from, done + 1, to, ret, all);
    }
  }

  /** The frames still to go once `sent` bytes of the image are out. */
  function RomTail(f: Fragment, sent: nat): seq<Frame>
    requires InBounds(f) && sent <= f.size
  {
    RomChunks(f.file[f.start + sent..f.start + f.size])
  }

  lemma RomTailEnds(f: Fragment)
    requires InBounds(f)
    ensures RomTail(f, 0) == RomChunks(Body(f)) && RomTail(f, f.size) == []
  {
  }

  /** The frames still to go once `sent` bytes of the image are out. */
  function FwTail(f: Fragment, sent: nat): seq<Frame>
    requires InBounds(f) && sent <= f.size
  {
    FwChunks(f.file[f.start + sent..f.start + f.size])
  }

  lemma FwTailEnds(f: Fragment)
    requires InBounds(f)
    ensures FwTail(f, 0) == FwChunks(Body(f)) && FwTail(f, f.size) == []
  {
  }

  lemma RomChunksCut(f: Fragment, sent: nat, len: nat)
    requires InBounds(f) && sent < f.size && len == Min(f.size - sent, ROM_PAYLOAD)
    ensures var at := f.start + sent;
            RomTail(f, sent) == [RomCont(f.file[at..at + len], sent + len == f.size)] + RomTail(f, sent + len)
  {
    hide RomCont;
    var body := f.file[f.start + sent..f.start + f.size];
    assert body[..len] == f.file[f.start + sent..f.start + sent + len];
    assert body[len..] == f.file[f.start + sent + len..f.start + f.size];
  }

  lemma FwChunksCut(f: Fragment, sent: nat, len: nat)
    requires InBounds(f) && sent < f.size && len == Min(f.size - sent, FW_PKG)
    ensures var at := f.start + sent;
            FwTail(f, sent) == [FwCont(f.file[at..at + len])] + FwTail(f, sent + len)
  {
    hide FwCont;
    var body := f.file[f.start + sent..f.start + f.size];
    assert body[..len] == f.file[f.start + sent..f.start + sent + len];
    assert body[len..] == f.file[f.start + sent + len..f.start + f.size];
  }

  lemma StreamParts(query: Frame, option: u16, frag: Fragment)
    requires InBounds(frag) && frag.size > 0 && |query| == ROM_PKG
    ensures var all, start := BootloaderStream(query, option, frag), RomStart(option, frag.size, frag.location);
            && [query] <= all && [query] != all && [query] + [start] <= all
            && all == ([query] + [start]) + RomChunks(Body(frag))
  {
    hide RomStart, RomChunks;
  }

  // What the buffer holds after each frame is built.

  lemma RomContBuffer(tx: seq<byte>, chunk: seq<byte>, last: bool)
    requires |tx| == FW_PKG && |chunk| <= ROM_PAYLOAD
    requires Holds(tx, 0, Le32(VSC_MAGIC_NUM) + [VSC_CMD_DL_CONT, if last then 1 else 0] + Le16(|chunk|) + chunk)
    requires forall k :: 8 + |chunk| <= k < ROM_PKG ==> tx[k] == 0
    ensures tx[..ROM_PKG] == RomCont(chunk, last)
  {
    hide Le32, Le16;
    var head := Le32(VSC_MAGIC_NUM) + [VSC_CMD_DL_CONT, if last then 1 else 0] + Le16(|chunk|) + chunk;
    assert tx[..ROM_PKG] == tx[0..|head|] + tx[|head|..ROM_PKG];
    assert tx[|head|..ROM_PKG] == Zeros(ROM_PKG - |head|);
  }

  lemma RomStartBuffer(tx: seq<byte>, option: u16, len: u32, loc: u32)
    requires |tx| == FW_PKG
    requires tx[..16] == RomStartHead(option, len, loc) && Holds(tx, 16, Le32(SumCrc(tx[..16])))
    requires forall k :: 20 <= k < ROM_PKG ==> tx[k] == 0
    ensures tx[..ROM_PKG] == RomStart(option, len, loc)
  {
    hide Le32, RomStartHead, SumCrc;
    assert tx[..ROM_PKG] == tx[..16] + tx[16..20] + tx[20..ROM_PKG];
    assert tx[20..ROM_PKG] == Zeros(ROM_PKG - 20);
  }

  lemma FwStartBuffer(tx: seq<byte>, option: u16, imgType: byte, len: u32, loc: u32)
    requires |tx| == FW_PKG
    requires tx[..16] == FwStartHead(option, imgType, len, loc) && Holds(tx, 16, Le32(SumCrc(tx[..16])))
    requires forall k :: 20 <= k < FW_PKG ==> tx[k] == 0
    ensures tx[..FW_PKG] == FwStart(option, imgType, len, loc)
  {
    hide Le32, FwStartHead, SumCrc;
    assert tx[..FW_PKG] == tx[..16] + tx[16..20] + tx[20..FW_PKG];
    assert tx[20..FW_PKG] == Zeros(FW_PKG - 20);
  }

  lemma FwContBuffer(tx: seq<byte>, chunk: seq<byte>)
    requires |tx| == FW_PKG && |chunk| <= FW_PKG && Holds(tx, 0, chunk)
    requires forall k :: |chunk| <= k < FW_PKG ==> tx[k] == 0
    ensures tx[..FW_PKG] == FwCont(chunk)
  {
    assert tx[..FW_PKG] == tx[0..|chunk|] + tx[|chunk|..FW_PKG];
  }

  lemma EmptyDlSet(tx: seq<byte>, option: u16, count: byte)
    requires |tx| == FW_PKG && Holds(tx, 0, DlSetHead(option, count))
    requires forall k :: 8 <= k < FW_PKG ==> tx[k] == 0
    ensures tx == DlSetBase(option, count, [])
  {
    hide DlSetHead;
    assert tx == tx[0..8] + tx[8..];
  }

  lemma {:induction false} EntryBytesSnoc(es: seq<Entry>, e: Entry)
    ensures EntryBytes(es + [e]) == EntryBytes(es) + Le32(e.loc) + Le32(e.size)
  {
    hide Le32;
    if es == [] {
      assert [e][1..] == [];
    } else {
      EntryBytesSnoc(es[1..], e);
      assert (es + [e])[1..] == es[1..] + [e];
    }
  }

  lemma SpliceMiddle(a: seq<byte>, m: seq<byte>, c: seq<byte>, t: seq<byte>)
    requires |m| == |t|
    ensures Splice(a + m + c, |a|, t) == a + t + c
  {
    var s := a + m + c;
    assert s[..|a|] == a && s[|a| + |t|..] == c;
  }

  lemma AppendEntry(option: u16, count: byte, es: seq<Entry>, e: Entry)
    requires |es| < 5
    ensures Splice(Splice(DlSetBase(option, count, es), 8 + 8 * |es|, Le32(e.loc)), 12 + 8 * |es|, Le32(e.size)) ==
              DlSetBase(option, count, es + [e])
  {
    EntryBytesSnoc(es, e);
    hide Le32, DlSetHead, EntryBytes, Splice;
    var a, l, z := DlSetHead(option, count) + EntryBytes(es), Le32(e.loc), Zeros(FW_PKG - 8 - 8 * |es| - 8);
    assert DlSetBase(option, count, es) == a + Zeros(4) + (Zeros(4) + z);
    SpliceMiddle(a, Zeros(4), Zeros(4) + z, l);
    assert a + l + (Zeros(4) + z) == (a + l) + Zeros(4) + z;
    SpliceMiddle(a + l, Zeros(4), z, Le32(e.size));
    assert a + l + Le32(e.size) == DlSetHead(option, count) + EntryBytes(es + [e]);
  }

  lemma CamBootSum(head: seq<byte>)
    requires |head| == 16 && Holds(head, 0, CamBootHead()) && forall k :: 8 <= k < 16 ==> head[k] == 0
    ensures head == CamBootHead() + Zeros(8)
  {
    hide CamBootHead;
    assert head == head[0..8] + head[8..];
  }

  lemma CamBootBuffer(tx: seq<byte>)
    requires |tx| == FW_PKG && Holds(tx, 0, CamBootHead())
    requires Holds(tx, 8, Le32(SumCrc(CamBootHead() + Zeros(8))))
    requires forall k :: 12 <= k < FW_PKG ==> tx[k] == 0
    ensures tx[..FW_PKG] == CamBoot()
  {
    hide CamBootHead, Le32, SumCrc;
    assert tx == tx[0..8] + tx[8..12] + tx[12..];
    assert tx[12..] == Zeros(FW_PKG - 12);
  }

  /** The query frame: magic and command over whatever the buffer held. */
  function QueryOver(tx: Frame): (f: Frame)
    requires |tx| == ROM_PKG
    ensures |f| == ROM_PKG
  {
    Splice(tx, 0, Le32(VSC_MAGIC_NUM) + [VSC_CMD_QUERY])
  }

  lemma QueryIsQuery(tx: Frame)
    requires |tx| == ROM_PKG
    ensures VscReceiver.IsQuery(QueryOver(tx))
  {
    hide Le32, Get32;
    var head := Le32(VSC_MAGIC_NUM) + [VSC_CMD_QUERY];
    var f := QueryOver(tx);
    assert f[0..5] == head;
    assert f[0..4] == head[..4] && f[4] == head[4];
    Get32Holds(f, 0, VSC_MAGIC_NUM);
  }

  lemma SentOne(before: seq<Frame>, f: Frame, after: seq<Frame>, ret: int)
    requires |f| == ROM_PKG || |f| == FW_PKG
    requires after == before + (if ret == 0 then [Swab(f)] else [])
    ensures Sent(before, [f], after, ret)
  {
    hide Swab;
    assert Swabbed([f]) == [Swab(f)] && Swabbed([f])[..0] == [];
  }

  /** Stopping after all of `fs` with more to come is stopping short. */
  lemma SentShort(before: seq<Frame>, fs: seq<Frame>, after: seq<Frame>, gs: seq<Frame>, ret: int)
    requires Sent(before, fs, after, 0) && ret != 0 && gs != []
    requires Whole(gs)
    ensures Sent(before, fs + gs, after, ret)
  {
    hide Swab;
    assert Swabbed(fs + gs)[..|fs|] == Swabbed(fs);
  }

  lemma Rest(before: seq<Frame>, fs: seq<Frame>, after: seq<Frame>, all: seq<Frame>, ret: int)
    requires Sent(before, fs, after, ret) && ret != 0 && fs <= all
    requires Whole(all)
    ensures Sent(before, all, after, ret)
  {
    hide Sent;
    assert all == fs + all[|fs|..];
    SentPart(before, fs, after, all[|fs|..], ret);
  }

  lemma RestAny(before: seq<Frame>, fs: seq<Frame>, after: seq<Frame>, all: seq<Frame>, ret: int)
    requires Sent(before, fs, after, ret) || Sent(before, fs, after, 0)
    requires ret != 0 && fs <= all && fs != all
    requires Whole(all)
    ensures Sent(before, all, after, ret)
  {
    hide Sent;
    assert all == fs + all[|fs|..];
    if Sent(before, fs, after, ret) {
      SentPart(before, fs, after, all[|fs|..], ret);
    } else {
      SentShort(before, fs, after, all[|fs|..], ret);
    }
  }

  lemma QueryBuffer(tx: seq<byte>)
    requires |tx| == FW_PKG
    ensures Splice(tx, 0, Le32(VSC_MAGIC_NUM) + [VSC_CMD_QUERY])[..ROM_PKG] == QueryOver(tx[..ROM_PKG])
  {
    hide Le32;
  }
}
