/**
 The frames of the boot protocol as the driver lays them out, before they go over the bus with
 every 32-bit word byte-swapped, and the streams they make up.
 */
module VscFrames {
  import opened Bytes
  import opened VscParse

  const VSC_MAGIC_NUM: u32 := 0x49505343
  const ROM_PKG := 256
  const FW_PKG := 512
  const ROM_PAYLOAD := ROM_PKG - 8

  const VSC_CMD_QUERY: byte := 0
  const VSC_CMD_DL_SET: byte := 1
  const VSC_CMD_DL_START: byte := 2
  const VSC_CMD_DL_CONT: byte := 3
  const VSC_TOKEN_CAM_BOOT: byte := 10

  const IMG_BOOTLOADER: byte := 1
  const IMG_EM7D: byte := 2
  const IMG_ARCSEM: byte := 3
  const IMG_ACE_RUNTIME: byte := 4
  const IMG_ACE_VISION: byte := 5
  const IMG_ACE_CONFIG: byte := 6
  const IMG_SKU_CONFIG: byte := 7

  type Frame = seq<byte>

  /** Frames of the two sizes the protocol has. */
  ghost predicate Whole(fs: seq<Frame>) {
    forall f :: f in fs ==> |f| == ROM_PKG || |f| == FW_PKG
  }

  lemma WholeConcat(fs: seq<Frame>, gs: seq<Frame>)
    ensures Whole(fs + gs) <==> Whole(fs) && Whole(gs)
  {
    assert forall f :: f in fs + gs <==> f in fs || f in gs;
  }

  /** ___constant_swab32 on every word. */
  function Swab(s: Frame): (r: Frame)
    requires |s| % 4 == 0
    ensures |r| == |s|
  {
    seq(|s|, i requires 0 <= i < |s| => s[i - i % 4 + 3 - i % 4])
  }

  /** Swapping twice gives the frame back: the receiver undoes what the driver did. */
  lemma SwabTwice(s: Frame)
    requires |s| % 4 == 0
    ensures Swab(Swab(s)) == s
  {
  }

  function SumBytes(s: seq<byte>): nat
    decreases |s|
  {
    if s == [] then 0 else SumBytes(s[..|s| - 1]) + s[|s| - 1]
  }

  /** sum_CRC: the byte sum in 32 bits. */
  function SumCrc(s: seq<byte>): u32 {
    SumBytes(s) % 0x1_0000_0000
  }

  lemma {:induction false} BytesAddUp(a: seq<byte>, b: seq<byte>)
    ensures SumBytes(a + b) == SumBytes(a) + SumBytes(b)
    decreases |b|
  {
    if b == [] {
      assert a + b == a;
    } else {
      var front := b[..|b| - 1];
      BytesAddUp(a, front);
      assert (a + b)[..|a + b| - 1] == a + front;
    }
  }

  /** Every byte counts once, wherever it is: a byte is its own sum, and joining sequences adds the sums in 32 bits. */
  lemma SumIsAdditive(a: seq<byte>, b: seq<byte>, x: byte)
    ensures SumCrc([]) == 0 && SumCrc([x]) == x
    ensures SumCrc(a + b) == (SumCrc(a) + SumCrc(b)) % 0x1_0000_0000
  {
    assert [x][..0] == [];
    BytesAddUp(a, b);
    hide SumBytes;
    AddMod32(SumBytes(a), SumBytes(b));
  }

  lemma AddMod32(p: nat, q: nat)
    ensures (p + q) % 0x1_0000_0000 == (p % 0x1_0000_0000 + q % 0x1_0000_0000) % 0x1_0000_0000
  {
  }

  function RomStartHead(option: u16, len: u32, loc: u32): (s: seq<byte>)
    ensures |s| == 16
  {
    Le32(VSC_MAGIC_NUM) + [VSC_CMD_DL_START, IMG_BOOTLOADER] + Le16(option) + Le32(len) + Le32(loc)
  }

  function RomStart(option: u16, len: u32, loc: u32): (f: Frame)
    ensures |f| == ROM_PKG
  {
    var head := RomStartHead(option, len, loc);
    head + Le32(SumCrc(head)) + Zeros(ROM_PKG - 20)
  }

  function RomCont(chunk: seq<byte>, last: bool): (f: Frame)
    requires |chunk| <= ROM_PAYLOAD
    ensures |f| == ROM_PKG
  {
    Le32(VSC_MAGIC_NUM) + [VSC_CMD_DL_CONT, if last then 1 else 0] + Le16(|chunk|) + chunk + Zeros(ROM_PAYLOAD - |chunk|)
  }

  function FwStartHead(option: u16, imgType: byte, len: u32, loc: u32): (s: seq<byte>)
    ensures |s| == 16
  {
    Le32(VSC_MAGIC_NUM) + [VSC_CMD_DL_START] + Le16(option) + [imgType] + Le32(len) + Le32(loc)
  }

  function FwStart(option: u16, imgType: byte, len: u32, loc: u32): (f: Frame)
    ensures |f| == FW_PKG
  {
    var head := FwStartHead(option, imgType, len, loc);
    head + Le32(SumCrc(head)) + Zeros(FW_PKG - 20)
  }

  function FwCont(chunk: seq<byte>): (f: Frame)
    requires |chunk| <= FW_PKG
    ensures |f| == FW_PKG
  {
    chunk + Zeros(FW_PKG - |chunk|)
  }

  /** The location and size of every fragment the DL_SET frame lists, in order. */
  datatype Entry = Entry(loc: u32, size: u32)

  function EntryOf(f: Fragment): Entry {
    Entry(f.location, f.size)
  }

  function IfAny(f: Fragment): seq<Entry> {
    if f.size > 0 then [EntryOf(f)] else []
  }

  function Listed(frags: Table): (e: seq<Entry>)
    ensures 2 <= |e| <= 5
  {
    [EntryOf(frags[ARC_SEM])]
    + (if frags[ACER].size > 0 then [EntryOf(frags[ACER])] + IfAny(frags[ACEV]) + IfAny(frags[ACEC]) else [])
    + [EntryOf(frags[EM7D])]
  }

  function EntryBytes(es: seq<Entry>): (s: seq<byte>)
    ensures |s| == 8 * |es|
  {
    if es == [] then [] else Le32(es[0].loc) + Le32(es[0].size) + EntryBytes(es[1..])
  }

  function DlSetHead(option: u16, count: byte): (s: seq<byte>)
    ensures |s| == 8
  {
    Le32(VSC_MAGIC_NUM) + [VSC_CMD_DL_SET] + Le16(option) + [count]
  }

  /** Before its check sum, which goes to the slot after `count` pairs whatever the table already holds there. */
  function DlSetBase(option: u16, count: byte, es: seq<Entry>): (f: Frame)
    requires |es| <= 5
    ensures |f| == FW_PKG
  {
    DlSetHead(option, count) + EntryBytes(es) + Zeros(FW_PKG - 8 - 8 * |es|)
  }

  function DlSet(option: u16, count: byte, es: seq<Entry>): (f: Frame)
    requires |es| <= 5 && count <= IMG_CNT_MAX
    ensures |f| == FW_PKG
  {
    var base := DlSetBase(option, count, es);
    Splice(base, 8 + 8 * count, Le32(SumCrc(base[..8 + 8 * count])))
  }

  function CamBootHead(): (s: seq<byte>)
    ensures |s| == 8
  {
    Le32(VSC_MAGIC_NUM) + [VSC_TOKEN_CAM_BOOT] + Zeros(3)
  }

  function CamBoot(): (f: Frame)
    ensures |f| == FW_PKG
  {
    CamBootHead() + Le32(SumCrc(CamBootHead() + Zeros(8))) + Zeros(FW_PKG - 12)
  }

  function RomChunks(body: seq<byte>): (fs: seq<Frame>)
    ensures Whole(fs)
    decreases |body|
  {
    if body == [] then []
    else if |body| <= ROM_PAYLOAD then [RomCont(body, true)]
    else [RomCont(body[..ROM_PAYLOAD], false)] + RomChunks(body[ROM_PAYLOAD..])
  }

  function FwChunks(body: seq<byte>): (fs: seq<Frame>)
    ensures Whole(fs)
    decreases |body|
  {
    if body == [] then []
    else if |body| <= FW_PKG then [FwCont(body)]
    else [FwCont(body[..FW_PKG])] + FwChunks(body[FW_PKG..])
  }

  /** load_bootloader: a query (whose unused bytes are whatever the buffer held), the header, the image. */
  function BootloaderStream(query: Frame, option: u16, boot: Fragment): (fs: seq<Frame>)
    requires InBounds(boot) && |query| == ROM_PKG
    ensures Whole(fs)
  {
    [query, RomStart(option, boot.size, boot.location)] + RomChunks(Body(boot))
  }

  function FragStream(option: u16, imgType: byte, f: Fragment): (fs: seq<Frame>)
    requires InBounds(f)
    ensures Whole(fs)
  {
    [FwStart(option, imgType, f.size, f.location)] + FwChunks(Body(f))
  }

  function FragStreamIfAny(option: u16, imgType: byte, f: Fragment): (fs: seq<Frame>)
    requires InBounds(f)
    ensures Whole(fs)
  {
    if f.size > 0 then FragStream(option, imgType, f) else []
  }

  ghost predicate AllInBounds(frags: Table) {
    forall f :: f in frags ==> InBounds(f)
  }

  /** load_fw: the table, each fragment that is there, the boot command. */
  function FirmwareStream(fw: BootFw): (fs: seq<Frame>)
    requires AllInBounds(fw.frags) && fw.fwCnt <= IMG_CNT_MAX
    ensures Whole(fs)
  {
    [DlSet(fw.fwOption, fw.fwCnt, Listed(fw.frags))]
    + FragStream(fw.fwOption, IMG_ARCSEM, fw.frags[ARC_SEM])
    + FragStreamIfAny(fw.fwOption, IMG_ACE_RUNTIME, fw.frags[ACER])
    + FragStreamIfAny(fw.fwOption, IMG_ACE_VISION, fw.frags[ACEV])
    + FragStreamIfAny(fw.fwOption, IMG_ACE_CONFIG, fw.frags[ACEC])
    + FragStream(fw.fwOption, IMG_EM7D, fw.frags[EM7D])
    + FragStreamIfAny(fw.fwOption, IMG_SKU_CONFIG, fw.frags[SKU_CONF])
    + [CamBoot()]
  }
}
