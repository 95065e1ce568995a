/**
 A receiver for the boot protocol, written from the frame formats alone: a ROM that takes the boot
 loader, then a loader that takes the table and the images until it is told to boot.
 */
module VscReceiver {
  import opened Bytes
  import opened VscParse
  import opened VscFrames

  datatype Received = Received(imgType: byte, loc: u32, body: seq<byte>)

  datatype Rx =
    | Rom
    | RomLoading(loc: u32, len: u32, got: seq<byte>)
    | Loader(images: seq<Received>, table: seq<Entry>, tableSet: bool)
    | Loading(imgType: byte, loc: u32, len: u32, got: seq<byte>, images: seq<Received>, table: seq<Entry>)
    | Booted(images: seq<Received>, table: seq<Entry>)
    | Confused

  predicate Headed(f: Frame, size: nat, cmd: byte) {
    |f| == size && size >= 20 && Get32(f, 0) == VSC_MAGIC_NUM && f[4] == cmd
  }

  predicate StartSumOk(f: Frame)
    requires |f| >= 20
  {
    Get32(f, 16) == SumCrc(f[..16])
  }

  function Entries(f: Frame, n: nat): (e: seq<Entry>)
    requires 8 + 8 * n <= |f|
    ensures |e| == n
  {
    seq(n, k requires 0 <= k < n => Entry(Get32(f, 8 + 8 * k), Get32(f, 12 + 8 * k)))
  }

  predicate SetSumOk(f: Frame)
    requires |f| == FW_PKG
  {
    var n := f[7];
    n <= IMG_CNT_MAX && Get32(f, 8 + 8 * n) == SumCrc(f[..8 + 8 * n])
  }

  predicate BootSumOk(f: Frame)
    requires |f| == FW_PKG
  {
    Get32(f, 8) == SumCrc(f[..8] + Zeros(4) + f[12..16])
  }

  function Step(st: Rx, f: Frame): Rx {
    match st
    case Rom =>
      if Headed(f, ROM_PKG, VSC_CMD_QUERY) then Rom
      else if Headed(f, ROM_PKG, VSC_CMD_DL_START) && f[5] == IMG_BOOTLOADER && StartSumOk(f) && Get32(f, 8) > 0 then
        RomLoading(Get32(f, 12), Get32(f, 8), [])
      else Confused
    case RomLoading(loc, len, got) =>
      if Headed(f, ROM_PKG, VSC_CMD_DL_CONT) && Get16(f, 6) <= ROM_PAYLOAD then
        var all := got + f[8..8 + Get16(f, 6)];
        if f[5] == 1 && |all| == len then Loader([Received(IMG_BOOTLOADER, loc, all)], [], false)
        else if f[5] == 0 && |all| < len then RomLoading(loc, len, all)
        else Confused
      else Confused
    case Loader(images, table, tableSet) =>
      if Headed(f, FW_PKG, VSC_CMD_DL_SET) && !tableSet && SetSumOk(f) then
        Loader(images, Entries(f, f[7]), true)
      else if Headed(f, FW_PKG, VSC_CMD_DL_START) && tableSet && StartSumOk(f) && Get32(f, 8) > 0 then
        Loading(f[7], Get32(f, 12), Get32(f, 8), [], images, table)
      else if Headed(f, FW_PKG, VSC_TOKEN_CAM_BOOT) && tableSet && BootSumOk(f) then
        Booted(images, table)
      else Confused
    case Loading(imgType, loc, len, got, images, table) =>
      // raw frames: the header's length alone says how many, and where the next header is
      if |f| == FW_PKG then
        if len <= |got| + FW_PKG then
          Loader(images + [Received(imgType, loc, got + f[..Max(0, len - |got|)])], table, true)
        else Loading(imgType, loc, len, got + f, images, table)
      else Confused
    case Booted(_, _) => Confused
    case Confused => Confused
  }

  function Max(a: int, b: int): int {
    if a < b then b else a
  }

  function Receive(st: Rx, fs: seq<Frame>): Rx
    decreases |fs|
  {
    if fs == [] then st else Receive(Step(st, fs[0]), fs[1..])
  }

  lemma {:induction false} ReceiveConcat(st: Rx, a: seq<Frame>, b: seq<Frame>)
    ensures Receive(st, a + b) == Receive(Receive(st, a), b)
    decreases |a|
  {
    hide Step;
    if a == [] {
      assert a + b == b;
    } else {
      assert (a + b)[1..] == a[1..] + b;
      ReceiveConcat(Step(st, a[0]), a[1..], b);
    }
  }

  /** What comes off the bus is un-swapped before it is looked at. */
  function Unswabbed(fs: seq<Frame>): (r: seq<Frame>)
    requires Whole(fs)
    ensures |r| == |fs|
  {
    seq(|fs|, i requires 0 <= i < |fs| => Swab(fs[i]))
  }

  // Decoding of each frame.

  lemma RomStartStep(option: u16, len: u32, loc: u32)
    requires len > 0
    ensures Step(Rom, RomStart(option, len, loc)) == RomLoading(loc, len, [])
  {
    hide Get32, Le32, SumCrc;
    var head := RomStartHead(option, len, loc);
    var f := RomStart(option, len, loc);
    assert head[0..4] == f[0..4] == Le32(VSC_MAGIC_NUM);
    assert head[8..12] == f[8..12] == Le32(len);
    assert head[12..16] == f[12..16] == Le32(loc);
    assert f[16..20] == Le32(SumCrc(head)) && f[..16] == head;
    Get32Holds(f, 0, VSC_MAGIC_NUM);
    Get32Holds(f, 8, len);
    Get32Holds(f, 12, loc);
    Get32Holds(f, 16, SumCrc(head));
    assert f[4] == VSC_CMD_DL_START && f[5] == IMG_BOOTLOADER;
  }

  lemma RomContStep(loc: u32, len: u32, got: seq<byte>, chunk: seq<byte>, last: bool)
    requires |chunk| <= ROM_PAYLOAD
    requires if last then |got| + |chunk| == len else |got| + |chunk| < len
    ensures Step(RomLoading(loc, len, got), RomCont(chunk, last)) ==
              if last then Loader([Received(IMG_BOOTLOADER, loc, got + chunk)], [], false)
              else RomLoading(loc, len, got + chunk)
  {
    hide Get32, Le32, Get16, Le16;
    var f := RomCont(chunk, last);
    assert f[0..4] == Le32(VSC_MAGIC_NUM) && f[6..8] == Le16(|chunk|) && f[8..8 + |chunk|] == chunk;
    Get32Holds(f, 0, VSC_MAGIC_NUM);
    Get16Holds(f, 6, |chunk|);
    assert f[4] == VSC_CMD_DL_CONT && f[5] == if last then 1 else 0;
  }

  lemma {:induction false} RomChunksReceived(loc: u32, len: u32, got: seq<byte>, body: seq<byte>)
    requires body != [] && |got| + |body| == len
    ensures Receive(RomLoading(loc, len, got), RomChunks(body)) ==
              Loader([Received(IMG_BOOTLOADER, loc, got + body)], [], false)
    decreases |body|
  {
    hide Step, RomCont;
    if |body| <= ROM_PAYLOAD {
      RomContStep(loc, len, got, body, true);
      assert RomChunks(body)[1..] == [];
    } else {
      var chunk, rest := body[..ROM_PAYLOAD], body[ROM_PAYLOAD..];
      RomContStep(loc, len, got, chunk, false);
      RomChunksReceived(loc, len, got + chunk, rest);
      assert (got + chunk) + rest == got + body;
      assert RomChunks(body)[0] == RomCont(chunk, false) && RomChunks(body)[1..] == RomChunks(rest);
    }
  }

  /** The option word is where a device reads it in each frame that carries one, though no check there depends on it. */
  lemma OptionsReadBack(option: u16, imgType: byte, len: u32, loc: u32, count: byte, es: seq<Entry>)
    requires |es| <= 5 && count <= IMG_CNT_MAX
    ensures Get16(RomStart(option, len, loc), 6) == option
    ensures Get16(FwStart(option, imgType, len, loc), 5) == option
    ensures Get16(DlSet(option, count, es), 5) == option && DlSet(option, count, es)[7] == count
  {
    hide Get16, Le16, Le32, SumCrc, EntryBytes;
    assert RomStart(option, len, loc)[6..8] == Le16(option);
    Get16Holds(RomStart(option, len, loc), 6, option);
    assert FwStart(option, imgType, len, loc)[5..7] == Le16(option);
    Get16Holds(FwStart(option, imgType, len, loc), 5, option);
    var base := DlSetBase(option, count, es);
    assert base[5..7] == Le16(option) && base[7] == count;
    SpliceKeeps(base, 8 + 8 * count, Le32(SumCrc(base[..8 + 8 * count])), 5, Le16(option));
    Get16Holds(DlSet(option, count, es), 5, option);
  }

  predicate IsQuery(f: Frame) {
    Headed(f, ROM_PKG, VSC_CMD_QUERY)
  }

  lemma BootloaderReceived(query: Frame, option: u16, boot: Fragment)
    requires InBounds(boot) && boot.size > 0 && IsQuery(query)
    ensures Receive(Rom, BootloaderStream(query, option, boot)) ==
              Loader([Received(IMG_BOOTLOADER, boot.location, Body(boot))], [], false)
  {
    var start := RomStart(option, boot.size, boot.location);
    assert Step(Rom, query) == Rom;
    hide Step, RomStart, RomChunks;
    var fs := BootloaderStream(query, option, boot);
    RomStartStep(option, boot.size, boot.location);
    RomChunksReceived(boot.location, boot.size, [], Body(boot));
    assert fs[1..][0] == start && fs[1..][1..] == RomChunks(Body(boot));
    assert Receive(Rom, fs) == Receive(Rom, fs[1..]);
    assert [] + Body(boot) == Body(boot);
  }

  lemma FwStartStep(option: u16, imgType: byte, len: u32, loc: u32, images: seq<Received>, table: seq<Entry>)
    requires len > 0
    ensures Step(Loader(images, table, true), FwStart(option, imgType, len, loc)) ==
              Loading(imgType, loc, len, [], images, table)
  {
    hide Get32, Le32, SumCrc;
    var head := FwStartHead(option, imgType, len, loc);
    var f := FwStart(option, imgType, len, loc);
    assert head[0..4] == f[0..4] == Le32(VSC_MAGIC_NUM);
    assert head[8..12] == f[8..12] == Le32(len);
    assert head[12..16] == f[12..16] == Le32(loc);
    assert f[16..20] == Le32(SumCrc(head)) && f[..16] == head;
    Get32Holds(f, 0, VSC_MAGIC_NUM);
    Get32Holds(f, 8, len);
    Get32Holds(f, 12, loc);
    Get32Holds(f, 16, SumCrc(head));
    assert f[4] == VSC_CMD_DL_START && f[7] == imgType;
  }

  lemma {:induction false} FwChunksReceived(imgType: byte, loc: u32, len: u32, got: seq<byte>, body: seq<byte>,
                                            images: seq<Received>, table: seq<Entry>)
    requires body != [] && |got| + |body| == len
    ensures Receive(Loading(imgType, loc, len, got, images, table), FwChunks(body)) ==
              Loader(images + [Received(imgType, loc, got + body)], table, true)
    decreases |body|
  {
    if |body| <= FW_PKG {
      var f := FwCont(body);
      assert f[..|body|] == body;
      assert FwChunks(body) == [f] && FwChunks(body)[1..] == [];
    } else {
      var chunk, rest := body[..FW_PKG], body[FW_PKG..];
      assert FwCont(chunk) == chunk;
      FwChunksReceived(imgType, loc, len, got + chunk, rest, images, table);
      assert (got + chunk) + rest == got + body;
      assert FwChunks(body)[0] == chunk && FwChunks(body)[1..] == FwChunks(rest);
    }
  }

  /** One fragment: its header and its raw frames leave the loader waiting for the next header, the image added. */
  lemma FragReceived(option: u16, imgType: byte, f: Fragment, images: seq<Received>, table: seq<Entry>)
    requires InBounds(f) && f.size > 0
    ensures Receive(Loader(images, table, true), FragStream(option, imgType, f)) ==
              Loader(images + [Received(imgType, f.location, Body(f))], table, true)
  {
    hide Step, FwStart, FwChunks;
    FwStartStep(option, imgType, f.size, f.location, images, table);
    FwChunksReceived(imgType, f.location, f.size, [], Body(f), images, table);
    var fs := FragStream(option, imgType, f);
    assert fs[1..] == FwChunks(Body(f)) && [] + Body(f) == Body(f);
  }

  function ReceivedIfAny(imgType: byte, f: Fragment): seq<Received>
    requires InBounds(f)
  {
    if f.size > 0 then [Received(imgType, f.location, Body(f))] else []
  }

  lemma FragIfAnyReceived(option: u16, imgType: byte, f: Fragment, images: seq<Received>, table: seq<Entry>)
    requires InBounds(f)
    ensures Receive(Loader(images, table, true), FragStreamIfAny(option, imgType, f)) ==
              Loader(images + ReceivedIfAny(imgType, f), table, true)
  {
    if f.size > 0 {
      FragReceived(option, imgType, f, images, table);
    } else {
      assert images + [] == images;
    }
  }

  lemma {:induction false} EntryAt(es: seq<Entry>, k: nat)
    requires k < |es|
    ensures Holds(EntryBytes(es), 8 * k, Le32(es[k].loc)) && Holds(EntryBytes(es), 8 * k + 4, Le32(es[k].size))
  {
    hide Le32;
    var b, rest := EntryBytes(es), EntryBytes(es[1..]);
    if k == 0 {
      assert b[0..4] == Le32(es[0].loc) && b[4..8] == Le32(es[0].size);
    } else {
      EntryAt(es[1..], k - 1);
      assert b[8 * k..8 * k + 4] == rest[8 * (k - 1)..8 * (k - 1) + 4];
      assert b[8 * k + 4..8 * k + 8] == rest[8 * (k - 1) + 4..8 * (k - 1) + 8];
    }
  }

  /** The first `count` entries as a receiver reads them: those listed, then blanks. */
  function Padded(es: seq<Entry>, count: nat): (t: seq<Entry>)
    ensures |t| == count
  {
    seq(count, k requires 0 <= k < count => if k < |es| then es[k] else Entry(0, 0))
  }

  lemma ListedEntry(option: u16, count: byte, es: seq<Entry>, k: nat)
    requires |es| <= 5 && k < |es|
    ensures var base := DlSetBase(option, count, es);
            Holds(base, 8 + 8 * k, Le32(es[k].loc)) && Holds(base, 12 + 8 * k, Le32(es[k].size))
  {
    hide Le32, EntryBytes, DlSetHead;
    EntryAt(es, k);
    var base, b := DlSetBase(option, count, es), EntryBytes(es);
    assert base[8..8 + 8 * |es|] == b;
    SliceOfSlice(base, 8, 8 + 8 * |es|, 8 * k, 8 * k + 4);
    SliceOfSlice(base, 8, 8 + 8 * |es|, 8 * k + 4, 8 * k + 8);
  }

  lemma UnlistedEntry(option: u16, count: byte, es: seq<Entry>, k: nat)
    requires |es| <= 5 && |es| <= k < IMG_CNT_MAX
    ensures var base := DlSetBase(option, count, es);
            Holds(base, 8 + 8 * k, Le32(0)) && Holds(base, 12 + 8 * k, Le32(0))
  {
    hide Le32, EntryBytes, DlSetHead;
    BlankEntry();
    var base := DlSetBase(option, count, es);
    assert base[8 + 8 * k..12 + 8 * k] == Zeros(4) == base[12 + 8 * k..16 + 8 * k];
  }

  lemma DlSetEntry(option: u16, count: byte, es: seq<Entry>, k: nat)
    requires |es| <= 5 && count <= IMG_CNT_MAX && k < count
    ensures var f := DlSet(option, count, es);
            Entry(Get32(f, 8 + 8 * k), Get32(f, 12 + 8 * k)) == Padded(es, count)[k]
  {
    hide Get32, Le32, SumCrc, Splice, DlSetBase, Holds;
    var f, base := DlSet(option, count, es), DlSetBase(option, count, es);
    var e := Padded(es, count)[k];
    if k < |es| {
      ListedEntry(option, count, es, k);
    } else {
      UnlistedEntry(option, count, es, k);
    }
    SpliceKeeps(base, 8 + 8 * count, Le32(SumCrc(base[..8 + 8 * count])), 8 + 8 * k, Le32(e.loc));
    SpliceKeeps(base, 8 + 8 * count, Le32(SumCrc(base[..8 + 8 * count])), 12 + 8 * k, Le32(e.size));
    HeldWord(f, 8 + 8 * k, e.loc);
    HeldWord(f, 12 + 8 * k, e.size);
  }

  lemma HeldWord(s: seq<byte>, at: nat, n: u32)
    requires Holds(s, at, Le32(n))
    ensures at + 4 <= |s| && Get32(s, at) == n
  {
    Get32Holds(s, at, n);
  }

  lemma BlankEntry()
    ensures Le32(0) == Zeros(4)
  {
  }

  lemma DlSetStep(option: u16, count: byte, es: seq<Entry>, images: seq<Received>)
    requires |es| <= 5 && count <= IMG_CNT_MAX
    ensures Step(Loader(images, [], false), DlSet(option, count, es)) == Loader(images, Padded(es, count), true)
  {
    hide Get32, Le32, Le16, SumCrc;
    var f, base := DlSet(option, count, es), DlSetBase(option, count, es);
    var at := 8 + 8 * count;
    var sum := SumCrc(base[..at]);
    assert f[..at] == base[..at];
    assert f[..8] == DlSetHead(option, count);
    assert f[0..4] == f[..8][0..4] == Le32(VSC_MAGIC_NUM);
    assert f[4] == f[..8][4] == VSC_CMD_DL_SET && f[7] == f[..8][7] == count;
    Get32Holds(f, 0, VSC_MAGIC_NUM);
    Get32Holds(f, at, sum);
    forall k | 0 <= k < count
      ensures Entries(f, count)[k] == Padded(es, count)[k]
    {
      DlSetEntry(option, count, es, k);
    }
    assert Entries(f, count) == Padded(es, count);
  }

  lemma CamBootStep(images: seq<Received>, table: seq<Entry>)
    ensures Step(Loader(images, table, true), CamBoot()) == Booted(images, table)
  {
    hide Get32, Le32, SumCrc;
    var f, sum := CamBoot(), SumCrc(CamBootHead() + Zeros(8));
    assert f[0..4] == Le32(VSC_MAGIC_NUM) && f[8..12] == Le32(sum) && f[4] == VSC_TOKEN_CAM_BOOT;
    assert f[..8] + Zeros(4) + f[12..16] == CamBootHead() + Zeros(8);
    Get32Holds(f, 0, VSC_MAGIC_NUM);
    Get32Holds(f, 8, sum);
  }

  /** Every fragment that is there, in download order. */
  function Downloaded(frags: Table): seq<Received>
    requires InBounds(frags[ARC_SEM]) && InBounds(frags[EM7D]) && InBounds(frags[ACER]) && InBounds(frags[ACEV])
    requires InBounds(frags[ACEC])
  {
    ReceivedIfAny(IMG_ARCSEM, frags[ARC_SEM]) + ReceivedIfAny(IMG_ACE_RUNTIME, frags[ACER])
    + ReceivedIfAny(IMG_ACE_VISION, frags[ACEV]) + ReceivedIfAny(IMG_ACE_CONFIG, frags[ACEC])
    + ReceivedIfAny(IMG_EM7D, frags[EM7D])
  }

  /** load_fw's stream, received whole: every fragment there, byte for byte at its location, then one boot command. */
  lemma FirmwareReceived(fw: BootFw, images: seq<Received>)
    requires AllInBounds(fw.frags) && fw.fwCnt <= IMG_CNT_MAX
    requires fw.frags[ARC_SEM].size > 0 && fw.frags[EM7D].size > 0
    ensures Receive(Loader(images, [], false), FirmwareStream(fw)) ==
              Booted(images + Downloaded(fw.frags) + ReceivedIfAny(IMG_SKU_CONFIG, fw.frags[SKU_CONF]),
                     Padded(Listed(fw.frags), fw.fwCnt))
  {
    hide Step, FragStream, FragStreamIfAny, DlSet, CamBoot, Listed, ReceivedIfAny, Padded, Receive, Downloaded;
    var o, t := fw.fwOption, Padded(Listed(fw.frags), fw.fwCnt);
    var f0 := [DlSet(o, fw.fwCnt, Listed(fw.frags))];
    var f1 := f0 + FragStream(o, IMG_ARCSEM, fw.frags[ARC_SEM]);
    var f2 := f1 + FragStreamIfAny(o, IMG_ACE_RUNTIME, fw.frags[ACER]);
    var f3 := f2 + FragStreamIfAny(o, IMG_ACE_VISION, fw.frags[ACEV]);
    var f4 := f3 + FragStreamIfAny(o, IMG_ACE_CONFIG, fw.frags[ACEC]);
    var f5 := f4 + FragStream(o, IMG_EM7D, fw.frags[EM7D]);
    var f6 := f5 + FragStreamIfAny(o, IMG_SKU_CONFIG, fw.frags[SKU_CONF]);
    var st := Loader(images, [], false);
    ReceiveOne(st, f0[0]);
    DlSetStep(o, fw.fwCnt, Listed(fw.frags), images);
    Then(st, f0, FragStream(o, IMG_ARCSEM, fw.frags[ARC_SEM]), images, t, o, IMG_ARCSEM, fw.frags[ARC_SEM]);
    var i1 := images + ReceivedIfAny(IMG_ARCSEM, fw.frags[ARC_SEM]);
    Then(st, f1, FragStreamIfAny(o, IMG_ACE_RUNTIME, fw.frags[ACER]), i1, t, o, IMG_ACE_RUNTIME, fw.frags[ACER]);
    var i2 := i1 + ReceivedIfAny(IMG_ACE_RUNTIME, fw.frags[ACER]);
    Then(st, f2, FragStreamIfAny(o, IMG_ACE_VISION, fw.frags[ACEV]), i2, t, o, IMG_ACE_VISION, fw.frags[ACEV]);
    var i3 := i2 + ReceivedIfAny(IMG_ACE_VISION, fw.frags[ACEV]);
    Then(st, f3, FragStreamIfAny(o, IMG_ACE_CONFIG, fw.frags[ACEC]), i3, t, o, IMG_ACE_CONFIG, fw.frags[ACEC]);
    var i4 := i3 + ReceivedIfAny(IMG_ACE_CONFIG, fw.frags[ACEC]);
    Then(st, f4, FragStream(o, IMG_EM7D, fw.frags[EM7D]), i4, t, o, IMG_EM7D, fw.frags[EM7D]);
    var i5 := i4 + ReceivedIfAny(IMG_EM7D, fw.frags[EM7D]);
    Then(st, f5, FragStreamIfAny(o, IMG_SKU_CONFIG, fw.frags[SKU_CONF]), i5, t, o, IMG_SKU_CONFIG, fw.frags[SKU_CONF]);
    var i6 := i5 + ReceivedIfAny(IMG_SKU_CONFIG, fw.frags[SKU_CONF]);
    ReceiveConcat(st, f6, [CamBoot()]);
    ReceiveOne(Loader(i6, t, true), CamBoot());
    CamBootStep(i6, t);
    DownloadedInTurn(images, fw.frags);
  }

  lemma DownloadedInTurn(images: seq<Received>, frags: Table)
    requires InBounds(frags[ARC_SEM]) && InBounds(frags[EM7D]) && InBounds(frags[ACER]) && InBounds(frags[ACEV])
    requires InBounds(frags[ACEC])
    ensures images + ReceivedIfAny(IMG_ARCSEM, frags[ARC_SEM]) + ReceivedIfAny(IMG_ACE_RUNTIME, frags[ACER])
            + ReceivedIfAny(IMG_ACE_VISION, frags[ACEV]) + ReceivedIfAny(IMG_ACE_CONFIG, frags[ACEC])
            + ReceivedIfAny(IMG_EM7D, frags[EM7D]) == images + Downloaded(frags)
  {
    hide ReceivedIfAny;
  }

  lemma ReceiveOne(st: Rx, f: Frame)
    ensures Receive(st, [f]) == Step(st, f)
  {
    hide Step;
    assert [f][1..] == [];
  }

  /** Appending one fragment's stream to what has been received so far. */
  lemma Then(st: Rx, before: seq<Frame>, stream: seq<Frame>, images: seq<Received>, table: seq<Entry>,
             option: u16, imgType: byte, f: Fragment)
    requires InBounds(f) && Receive(st, before) == Loader(images, table, true)
    requires stream == FragStreamIfAny(option, imgType, f) || (f.size > 0 && stream == FragStream(option, imgType, f))
    ensures Receive(st, before + stream) == Loader(images + ReceivedIfAny(imgType, f), table, true)
  {
    hide FragStream, Receive;
    ReceiveConcat(st, before, stream);
    FragIfAnyReceived(option, imgType, f, images, table);
  }
}
