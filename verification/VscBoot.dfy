/**
 Booting end to end: the three files parsed into the fragment table, the table downloaded, and what
 a receiver at the other end of the bus makes of it.
 */
module VscBoot {
  import opened Bytes
  import opened VscParse
  import opened VscFrames
  import opened VscReceiver
  import opened VscLoad

  const ENOENT := -2

  /** request_firmware's answer. */
  datatype File = Missing | Found(data: seq<byte>)

  datatype Outcome = Success | Failed(code: int) | Undefined

  function Code(r: Outcome): int {
    if r.Failed? then r.code else 0
  }

  function ImageCount(file: seq<byte>): nat {
    if |file| < HEADER_SIZE then 0 else Get32(file, 8)
  }

  /** The parsing half of init_hw: the sensor file is only asked for when the main file brings fewer than six images. */
  function ParseAll(s: BootFw, main: File, sensor: File, sku: File): (BootFw, Outcome) {
    if main.Missing? then (s, Failed(ENOENT)) else
    var (s1, v1) := ParseMain(s, main.data);
    if v1 != Accepted then (s1, Verdicts(v1))
    else if s1.fwCnt < IMG_CNT_MAX - 1 && sensor.Missing? then (s1, Failed(ENOENT))
    else
      var (s2, v2) := if s1.fwCnt < IMG_CNT_MAX - 1 then ParseSensor(s1, sensor.data) else (s1, Accepted);
      if v2 != Accepted then (s2, Verdicts(v2))
      else if sku.Missing? then (s2, Failed(ENOENT))
      else
        var (s3, v3) := ParseSku(s2, sku.data);
        (s3, Verdicts(v3))
  }

  function Verdicts(v: Verdict): Outcome {
    match v
    case Accepted => Success
    case Einval => Failed(EINVAL)
    case Overread => Undefined
  }

  lemma MainCount(s: BootFw, file: seq<byte>)
    requires ParseMain(s, file).1 == Accepted
    ensures 3 <= ImageCount(file) <= 6 && ParseMain(s, file).0.fwCnt == ImageCount(file) - 1
    ensures ImageCount(file) == 3 ==> ParseMain(s, file).0.frags[ACER] == s.frags[ACER]
  {
    hide Get32, SizeAt, Place, PlaceConfig, Signed, WalkFrom, NextSvn, SvnMatches;
  }

  lemma SensorCount(s: BootFw, file: seq<byte>)
    requires ParseSensor(s, file).1 == Accepted && s.fwCnt <= IMG_CNT_MAX
    ensures 2 <= ImageCount(file) <= 6
    ensures ParseSensor(s, file).0.fwCnt == s.fwCnt + ImageCount(file) <= IMG_CNT_MAX
    ensures ParseSensor(s, file).0.frags[ACER] == s.frags[ACER]
  {
    hide Get32, SizeAt, Place, PlaceConfig, Signed;
  }

  /**
   Parsing succeeds exactly if every file asked for is there and accepted, the sensor file not being asked
   for with six images. It fails with -2 if the first file that does not do is not there, and with -22 if
   it is rejected.
   */
  lemma ParsesExactly(s: BootFw, main: File, sensor: File, sku: File)
    ensures ParseAll(s, main, sensor, sku).1 == Success <==>
              && main.Found? && ParseMain(s, main.data).1 == Accepted
              && var s1 := ParseMain(s, main.data).0;
                 if ImageCount(main.data) == 6 then sku.Found? && ParseSku(s1, sku.data).1 == Accepted
                 else
                   && sensor.Found? && ParseSensor(s1, sensor.data).1 == Accepted
                   && sku.Found? && ParseSku(ParseSensor(s1, sensor.data).0, sku.data).1 == Accepted
    ensures main.Missing? ==> ParseAll(s, main, sensor, sku).1 == Failed(-2)
    ensures main.Found? && ParseMain(s, main.data).1 == Einval ==> ParseAll(s, main, sensor, sku).1 == Failed(-22)
    ensures main.Found? && ParseMain(s, main.data).1 == Accepted && ImageCount(main.data) < 6 ==>
              && (sensor.Missing? ==> ParseAll(s, main, sensor, sku).1 == Failed(-2))
              && (sensor.Found? && ParseSensor(ParseMain(s, main.data).0, sensor.data).1 == Einval ==>
                    ParseAll(s, main, sensor, sku).1 == Failed(-22))
  {
    hide ParseMain, ParseSensor, ParseSku, ImageCount;
    if main.Found? && ParseMain(s, main.data).1 == Accepted {
      MainCount(s, main.data);
    }
  }

  /** The counts an accepted boot ends up with. */
  lemma AllCounts(s: BootFw, main: File, sensor: File, sku: File)
    requires ParseAll(s, main, sensor, sku).1 == Success
    ensures main.Found? && sku.Found? && 3 <= ImageCount(main.data) <= 6
    ensures var s', n := ParseAll(s, main, sensor, sku).0, ImageCount(main.data);
            && (n == 6 ==> s'.fwCnt == 5)
            && (n < 6 ==> sensor.Found? && 2 <= ImageCount(sensor.data) && s'.fwCnt == n - 1 + ImageCount(sensor.data) <= 6)
            && (n == 3 ==> s'.frags[ACER] == s.frags[ACER])
  {
    hide ParseMain, ParseSensor, ImageCount;
    MainCount(s, main.data);
    var s1 := ParseMain(s, main.data).0;
    if s1.fwCnt < 5 {
      SensorCount(s1, sensor.data);
    }
  }

  /**
   DL_SET: exactly when the check sum is written over one of the location/size pairs. It takes a main
   file of three images, a sensor file of two, and a runtime image left in the table by an earlier boot.
   */
  lemma TableOverflow(s: BootFw, main: File, sensor: File, sku: File)
    requires ParseAll(s, main, sensor, sku).1 == Success
    ensures var s' := ParseAll(s, main, sensor, sku).0;
            |Listed(s'.frags)| > s'.fwCnt <==>
              && ImageCount(main.data) == 3 && sensor.Found? && ImageCount(sensor.data) == 2
              && s.frags[ACER].size > 0 && s'.frags[ACEV].size > 0 && s'.frags[ACEC].size > 0
  {
    hide ParseAll, ImageCount;
    AllCounts(s, main, sensor, sku);
  }

  /** From a zeroed table it never happens, and the table is exactly full in the two intended cases only. */
  lemma TableFits(s: BootFw, main: File, sensor: File, sku: File)
    requires ParseAll(s, main, sensor, sku).1 == Success && s.frags == EMPTY_TABLE
    ensures var s' := ParseAll(s, main, sensor, sku).0;
            && |Listed(s'.frags)| <= s'.fwCnt
            && (|Listed(s'.frags)| == s'.fwCnt <==>
                  && (ImageCount(main.data) == 6 || (ImageCount(main.data) == 4 && ImageCount(sensor.data) == 2))
                  && s'.frags[ACER].size > 0 && s'.frags[ACEV].size > 0 && s'.frags[ACEC].size > 0)
  {
    hide ParseAll, ImageCount;
    AllCounts(s, main, sensor, sku);
  }

  /** Location and 32-bit size of each image. */
  function EntriesOf(images: seq<Received>): (e: seq<Entry>)
    ensures |e| == |images|
  {
    seq(|images|, k requires 0 <= k < |images| => Entry(images[k].loc, |images[k].body| % 0x1_0000_0000))
  }

  /** What the table lists is what gets downloaded before the SKU configuration, unless ACE images come without a runtime. */
  lemma ListedIsDownloaded(frags: Table)
    requires AllInBounds(frags) && frags[ARC_SEM].size > 0 && frags[EM7D].size > 0
    ensures Listed(frags) == EntriesOf(Downloaded(frags)) <==>
              frags[ACER].size > 0 || (frags[ACEV].size == 0 && frags[ACEC].size == 0)
  {
    hide Body;
    var d := Downloaded(frags);
    if frags[ACER].size > 0 || (frags[ACEV].size == 0 && frags[ACEC].size == 0) {
      assert Listed(frags) == EntriesOf(d);
    } else {
      assert |Listed(frags)| < |d|;
    }
  }

  /** The images without which the loader does not even try. */
  predicate Startable(fw: BootFw) {
    fw.frags[BOOT_IMAGE].size > 0 && fw.frags[ARC_SEM].size > 0 && fw.frags[EM7D].size > 0
  }

  /** The device allows the download and nothing goes wrong on the bus during `n` frames. */
  ghost predicate Boots(bus: RomBus, from: nat, n: nat) {
    TokenOk(bus, from) && AllGood(bus, from, n)
  }

  lemma BootsExactly(bus: RomBus, from: nat, n: nat, to: nat, ret: int)
    requires BootTried(bus, from, n, to, ret) && n > 0
    ensures ret == 0 <==> Boots(bus, from, n)
  {
  }

  /** The stream of a whole boot. */
  function BootStream(query: Frame, fw: BootFw): (fs: seq<Frame>)
    requires AllInBounds(fw.frags) && fw.fwCnt <= IMG_CNT_MAX && |query| == ROM_PKG
    ensures Whole(fs)
  {
    WholeConcat(BootloaderStream(query, fw.fwOption, fw.frags[BOOT_IMAGE]), FirmwareStream(fw));
    BootloaderStream(query, fw.fwOption, fw.frags[BOOT_IMAGE]) + FirmwareStream(fw)
  }

  /** Swapping each frame on the way out and again on the way in changes nothing. */
  lemma WireRoundTrip(fs: seq<Frame>)
    requires Whole(fs)
    ensures Whole(Swabbed(fs)) && Unswabbed(Swabbed(fs)) == fs
  {
    hide Swab;
    var w := Swabbed(fs);
    forall f | f in w
      ensures |f| == ROM_PKG || |f| == FW_PKG
    {
      var i :| 0 <= i < |w| && w[i] == f;
      assert fs[i] in fs;
    }
    forall i | 0 <= i < |fs|
      ensures Unswabbed(w)[i] == fs[i]
    {
      SwabTwice(fs[i]);
    }
  }

  /** What the device makes of a whole boot's frames as they travel. */
  function AtTheDevice(query: Frame, fw: BootFw): Rx
    requires AllInBounds(fw.frags) && fw.fwCnt <= IMG_CNT_MAX && |query| == ROM_PKG
  {
    var stream := BootStream(query, fw);
    WireRoundTrip(stream);
    Receive(Rom, Unswabbed(Swabbed(stream)))
  }

  /**
   The receiver, fed the wire: it ends booted, holding every fragment that was there, byte for byte and
   at its location, in download order, with the listed table before it.
   */
  lemma BootReceived(query: Frame, fw: BootFw)
    requires AllInBounds(fw.frags) && fw.fwCnt <= IMG_CNT_MAX && IsQuery(query)
    requires fw.frags[BOOT_IMAGE].size > 0 && fw.frags[ARC_SEM].size > 0 && fw.frags[EM7D].size > 0
    ensures AtTheDevice(query, fw) ==
              Booted([Received(IMG_BOOTLOADER, fw.frags[BOOT_IMAGE].location, Body(fw.frags[BOOT_IMAGE]))]
                     + Downloaded(fw.frags) + ReceivedIfAny(IMG_SKU_CONFIG, fw.frags[SKU_CONF]),
                     Padded(Listed(fw.frags), fw.fwCnt))
  {
    hide Step, Receive, BootloaderStream, FirmwareStream, Swab, Downloaded, ReceivedIfAny, Listed, Padded;
    var stream := BootStream(query, fw);
    WireRoundTrip(stream);
    var images := [Received(IMG_BOOTLOADER, fw.frags[BOOT_IMAGE].location, Body(fw.frags[BOOT_IMAGE]))];
    BootloaderReceived(query, fw.fwOption, fw.frags[BOOT_IMAGE]);
    FirmwareReceived(fw, images);
    ReceiveConcat(Rom, BootloaderStream(query, fw.fwOption, fw.frags[BOOT_IMAGE]), FirmwareStream(fw));
  }

  lemma {:induction false} ConfusedStays(fs: seq<Frame>)
    ensures Receive(Confused, fs) == Confused
    decreases |fs|
  {
    if fs != [] {
      ConfusedStays(fs[1..]);
    }
  }

  /** A receiver that ends booted was not so any earlier: no proper beginning of the frames will do. */
  lemma NotBootedBefore(fs: seq<Frame>, k: nat)
    requires k < |fs| && Receive(Rom, fs).Booted?
    ensures !Receive(Rom, fs[..k]).Booted?
  {
    hide Headed;
    assert fs == fs[..k] + fs[k..];
    ReceiveConcat(Rom, fs[..k], fs[k..]);
    var st := Receive(Rom, fs[..k]);
    if st.Booted? {
      assert Receive(st, fs[k..]) == Receive(Step(st, fs[k]), fs[k..][1..]);
      ConfusedStays(fs[k..][1..]);
    }
  }

  /** What has been added to a wire, as the device takes it in. */
  function TakenIn(before: seq<Frame>, after: seq<Frame>): Rx
    requires before <= after && Whole(after[|before|..])
  {
    Receive(Rom, Unswabbed(after[|before|..]))
  }

  /** With a stream that boots the device on its way, the device is booted exactly if all of it went out. */
  lemma WireBootsExactly(query: Frame, fw: BootFw, before: seq<Frame>, after: seq<Frame>, ret: int)
    requires AllInBounds(fw.frags) && fw.fwCnt <= IMG_CNT_MAX && |query| == ROM_PKG
    requires AtTheDevice(query, fw).Booted? && Sent(before, BootStream(query, fw), after, ret)
    ensures before <= after && Whole(after[|before|..])
    ensures TakenIn(before, after).Booted? <==> ret == 0
    ensures ret == 0 ==> TakenIn(before, after) == AtTheDevice(query, fw)
  {
    hide Swab, Step, Receive, BootStream;
    var stream := BootStream(query, fw);
    WireRoundTrip(stream);
    var added := after[|before|..];
    if ret == 0 {
      assert added == Swabbed(stream);
    } else {
      var k :| 0 <= k < |stream| && after == before + Swabbed(stream)[..k];
      assert added == Swabbed(stream)[..k];
      assert Unswabbed(added) == Unswabbed(Swabbed(stream))[..k];
      NotBootedBefore(stream, k);
    }
  }

  class Vsc {
    const files: BootFiles
    const loader: Loader

    ghost predicate Valid()
      reads this, loader
    {
      loader.Valid()
    }

    constructor (subVer: u32, bus: RomBus)
      ensures Valid() && files.View() == BootFw(subVer, 0, 0, 0, EMPTY_TABLE) && loader.bus == bus
      ensures fresh(files) && fresh(loader) && fresh(loader.txBuf) && fresh(loader.rxBuf)
    {
      files := new BootFiles(subVer);
      loader := new Loader(bus);
    }

    /**
     init_hw, once the silicon has been read. Nothing is sent unless every file parses. After that the wire
     carries a part of the boot stream of the parsed table, from its beginning, and the boot succeeds exactly
     if it carries all of it: exactly if the images needed are there, the token is right and no attempt at a
     frame of the stream fails. The first that does ends the boot with its result. A fragment that runs past its file's end is undefined behaviour.
     */
    method InitHw(main: File, sensor: File, sku: File) returns (r: Outcome, ghost query: Frame)
      requires Valid()
      modifies files, loader.bus, loader.txBuf, loader.rxBuf
      ensures files.View() == ParseAll(old(files.View()), main, sensor, sku).0
      ensures ParseAll(old(files.View()), main, sensor, sku).1 != Success ==>
                r == ParseAll(old(files.View()), main, sensor, sku).1 && loader.bus.wire == old(loader.bus.wire)
      ensures ParseAll(old(files.View()), main, sensor, sku).1 == Success ==>
                var fw := files.View();
                if AllInBounds(fw.frags) then
                  && IsQuery(query) && fw.fwCnt <= IMG_CNT_MAX
                  && Sent(old(loader.bus.wire), BootStream(query, fw), loader.bus.wire, Code(r))
                  && (r == Success <==> loader.bus.wire == old(loader.bus.wire) + Swabbed(BootStream(query, fw)))
                  && (r == Success <==> Startable(fw) && Boots(loader.bus, old(loader.bus.attempts), |BootStream(query, fw)|))
                  && (Startable(fw) ==>
                        BootTried(loader.bus, old(loader.bus.attempts), |BootStream(query, fw)|, loader.bus.attempts, Code(r)))
                else r == Undefined && loader.bus.wire == old(loader.bus.wire)
    {
      hide ParseMain, ParseSensor, ParseSku, Sent, Swab, BootloaderStream, FirmwareStream, Whole;
      query := [];
      ghost var was := files.View();
      r := ParseFiles(main, sensor, sku);
      if r != Success {
        return;
      }
      AllCounts(was, main, sensor, sku);
      if !InBounds(files.frags[BOOT_IMAGE]) || !InBounds(files.frags[ARC_SEM]) || !InBounds(files.frags[EM7D])
         || !InBounds(files.frags[ACER]) || !InBounds(files.frags[ACEV]) || !InBounds(files.frags[ACEC])
         || !InBounds(files.frags[SKU_CONF]) {
        return Undefined, query;
      }
      EveryFragment(files.frags);
      r, query := Load();
    }

    /** load_bootloader, then load_fw. */
    method Load() returns (r: Outcome, ghost query: Frame)
      requires Valid() && AllInBounds(files.View().frags) && files.View().fwCnt <= IMG_CNT_MAX
      modifies loader.bus, loader.txBuf, loader.rxBuf
      ensures r != Undefined && IsQuery(query)
      ensures var fw := files.View();
              && Sent(old(loader.bus.wire), BootStream(query, fw), loader.bus.wire, Code(r))
              && (r == Success <==> loader.bus.wire == old(loader.bus.wire) + Swabbed(BootStream(query, fw)))
              && (r == Success <==> Startable(fw) && Boots(loader.bus, old(loader.bus.attempts), |BootStream(query, fw)|))
              && (Startable(fw) ==>
                    BootTried(loader.bus, old(loader.bus.attempts), |BootStream(query, fw)|, loader.bus.attempts, Code(r)))
    {
      hide Sent, Swab, FirmwareStream, Whole, Tried, BootTried, Boots;
      ghost var bus, before, from, fw := loader.bus, loader.bus.wire, loader.bus.attempts, files.View();
      var ret;
      ret, query := loader.LoadBootloader(files.frags[BOOT_IMAGE], files.fwOption);
      ghost var first, all := BootloaderStream(query, fw.fwOption, fw.frags[BOOT_IMAGE]), BootStream(query, fw);
      assert |first| > 0;
      hide BootloaderStream;
      if ret != 0 {
        Stopped(query, fw, before, loader.bus.wire, ret);
        if Startable(fw) {
          BootTriedPart(bus, from, |first|, bus.attempts, ret, |all|);
          BootsExactly(bus, from, |all|, bus.attempts, ret);
        }
        return Failed(ret), query;
      }
      ghost var middle, tried := loader.bus.wire, bus.attempts;
      ret := loader.LoadFw(files.View());
      if Startable(fw) {
        BootTriedThen(bus, from, |first|, tried, |FirmwareStream(fw)|, bus.attempts, ret);
        BootsExactly(bus, from, |all|, bus.attempts, ret);
      }
      if ret != 0 {
        StoppedLater(query, fw, before, middle, loader.bus.wire, ret);
        return Failed(ret), query;
      }
      SentThen(before, first, middle, FirmwareStream(fw), loader.bus.wire, 0);
      AllOut(before, all, loader.bus.wire, 0);
      r := Success;
    }

    method ParseFiles(main: File, sensor: File, sku: File) returns (r: Outcome)
      modifies files
      ensures (files.View(), r) == ParseAll(old(files.View()), main, sensor, sku)
    {
      hide ParseMain, ParseSensor, ParseSku;
      if main.Missing? {
        return Failed(ENOENT);
      }
      var v := files.ParseMainFw(main.data);
      if v != Accepted {
        return Verdicts(v);
      }
      if files.fwCnt < IMG_CNT_MAX - 1 {
        if sensor.Missing? {
          return Failed(ENOENT);
        }
        v := files.ParseSensorFw(sensor.data);
        if v != Accepted {
          return Verdicts(v);
        }
      }
      if sku.Missing? {
        return Failed(ENOENT);
      }
      v := files.ParseSkuCnfFw(sku.data);
      r := Verdicts(v);
    }
  }

  lemma EveryFragment(frags: Table)
    requires InBounds(frags[0]) && InBounds(frags[1]) && InBounds(frags[2]) && InBounds(frags[3])
    requires InBounds(frags[4]) && InBounds(frags[5]) && InBounds(frags[6])
    ensures AllInBounds(frags)
  {
  }

  lemma AllOut(before: seq<Frame>, fs: seq<Frame>, after: seq<Frame>, ret: int)
    requires Sent(before, fs, after, ret)
    ensures Whole(fs) && (ret == 0 <==> after == before + Swabbed(fs))
  {
    hide Swab;
  }

  /** The boot loader did not get through. */
  lemma Stopped(query: Frame, fw: BootFw, before: seq<Frame>, after: seq<Frame>, ret: int)
    requires AllInBounds(fw.frags) && fw.fwCnt <= IMG_CNT_MAX && |query| == ROM_PKG && ret != 0
    requires if fw.frags[BOOT_IMAGE].size == 0 then after == before
             else Sent(before, BootloaderStream(query, fw.fwOption, fw.frags[BOOT_IMAGE]), after, ret)
    ensures Sent(before, BootStream(query, fw), after, ret) && after != before + Swabbed(BootStream(query, fw))
  {
    hide Sent, Swab, BootloaderStream, FirmwareStream, Whole;
    var first, all := BootloaderStream(query, fw.fwOption, fw.frags[BOOT_IMAGE]), BootStream(query, fw);
    FirmwareNonEmpty(fw);
    if fw.frags[BOOT_IMAGE].size == 0 {
      NothingSent(before);
      RestAny(before, [], after, all, ret);
    } else {
      Rest(before, first, after, all, ret);
    }
    AllOut(before, all, after, ret);
  }

  /** The boot loader did, the firmware did not. */
  lemma StoppedLater(query: Frame, fw: BootFw, before: seq<Frame>, middle: seq<Frame>, after: seq<Frame>, ret: int)
    requires AllInBounds(fw.frags) && fw.fwCnt <= IMG_CNT_MAX && |query| == ROM_PKG && ret != 0
    requires Sent(before, BootloaderStream(query, fw.fwOption, fw.frags[BOOT_IMAGE]), middle, 0)
    requires Sent(middle, FirmwareStream(fw), after, ret) || after == middle
    ensures Sent(before, BootStream(query, fw), after, ret) && after != before + Swabbed(BootStream(query, fw))
  {
    hide Sent, Swab, BootloaderStream, FirmwareStream, Whole;
    var first, all := BootloaderStream(query, fw.fwOption, fw.frags[BOOT_IMAGE]), BootStream(query, fw);
    FirmwareNonEmpty(fw);
    if Sent(middle, FirmwareStream(fw), after, ret) {
      SentThen(before, first, middle, FirmwareStream(fw), after, ret);
    } else {
      RestAny(before, first, after, all, ret);
    }
    AllOut(before, all, after, ret);
  }

  lemma FirmwareNonEmpty(fw: BootFw)
    requires AllInBounds(fw.frags) && fw.fwCnt <= IMG_CNT_MAX
    ensures FirmwareStream(fw) != []
  {
    hide DlSet, CamBoot, FragStream, FragStreamIfAny;
  }

  lemma NothingSent(wire: seq<Frame>)
    ensures Sent(wire, [], wire, 0)
  {
    assert wire + Swabbed([]) == wire;
  }
}
