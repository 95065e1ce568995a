/** From the images someone packs to the images the device holds: the two supported file combinations. */
module VscEndToEnd {
  import opened Bytes
  import opened VscParse
  import opened VscLayout
  import opened VscFrames
  import opened VscReceiver
  import opened VscLoad
  import opened VscBoot

  /** Where the vision image belongs: a slot of its own, unless that is zero or the runtime's, or the next 4 KiB boundary. */
  function VisionPlace(runtime: u32, size: u32, slot: u32): u32 {
    if slot != 0 && slot != runtime then slot else Align4K(runtime + size)
  }

  function ConfigPlace(vision: u32, size: u32, slot: u32): u32 {
    if slot != 0 then slot else Align4K(vision + size)
  }

  lemma PlaceConfigIs(prev: Fragment, slot: u32)
    ensures PlaceConfig(prev, slot) == ConfigPlace(prev.location, prev.size, slot)
  {
  }

  /** The images of a whole boot, in the order they must arrive. */
  function Expected(boot: Received, arcSem: Received, runtime: Received, vision: Received, config: Received,
                    em7d: Received, sku: seq<byte>): seq<Received> {
    [boot, arcSem, runtime, vision, config, em7d, Received(IMG_SKU_CONFIG, SKU_CONFIG_LOC, sku)]
  }

  /** The device ends up booted with these images, its table listing all but the boot loader and the SKU file. */
  ghost predicate BootsTo(fw: BootFw, query: Frame, images: seq<Received>)
    requires |images| == 7 && |query| == ROM_PKG
  {
    && AllInBounds(fw.frags) && fw.fwCnt <= IMG_CNT_MAX
    && AtTheDevice(query, fw) == Booted(images, EntriesOf(images[1..6]))
  }

  /** The fragment is this image at this location. */
  ghost predicate Holding(f: Fragment, r: Received) {
    InBounds(f) && Body(f) == r.body && f.location == r.loc
  }

  /** The seven fragments against the seven images, in the order they must arrive. */
  ghost predicate Full(frags: Table, images: seq<Received>)
    requires |images| == 7
  {
    && Holding(frags[BOOT_IMAGE], images[0]) && images[0].imgType == IMG_BOOTLOADER
    && Holding(frags[ARC_SEM], images[1]) && images[1].imgType == IMG_ARCSEM
    && Holding(frags[ACER], images[2]) && images[2].imgType == IMG_ACE_RUNTIME
    && Holding(frags[ACEV], images[3]) && images[3].imgType == IMG_ACE_VISION
    && Holding(frags[ACEC], images[4]) && images[4].imgType == IMG_ACE_CONFIG
    && Holding(frags[EM7D], images[5]) && images[5].imgType == IMG_EM7D
    && Holding(frags[SKU_CONF], images[6]) && images[6].imgType == IMG_SKU_CONFIG
  }

  /** A full table: all seven fragments there, each with its body and location. */
  lemma FullTableBoots(fw: BootFw, query: Frame, images: seq<Received>)
    requires fw.fwCnt == 5 && |query| == ROM_PKG && IsQuery(query) && |images| == 7
    requires forall k :: 0 <= k < 7 ==> 0 < |images[k].body| < 0x1_0000_0000
    requires Full(fw.frags, images)
    ensures BootsTo(fw, query, images)
  {
    hide AtTheDevice, Body, IsQuery, Padded, Listed, Downloaded, EntriesOf;
    EveryFragment(fw.frags);
    BootReceived(query, fw);
    FullTableLists(fw.frags, images);
    assert images == [images[0]] + images[1..6] + [images[6]];
    assert ReceivedIfAny(IMG_SKU_CONFIG, fw.frags[SKU_CONF]) == [images[6]];
  }

  lemma FullTableLists(frags: Table, images: seq<Received>)
    requires |images| == 7 && AllInBounds(frags)
    requires forall k :: 0 <= k < 7 ==> 0 < |images[k].body| < 0x1_0000_0000
    requires images[1] == Received(IMG_ARCSEM, frags[ARC_SEM].location, Body(frags[ARC_SEM]))
    requires images[2] == Received(IMG_ACE_RUNTIME, frags[ACER].location, Body(frags[ACER]))
    requires images[3] == Received(IMG_ACE_VISION, frags[ACEV].location, Body(frags[ACEV]))
    requires images[4] == Received(IMG_ACE_CONFIG, frags[ACEC].location, Body(frags[ACEC]))
    requires images[5] == Received(IMG_EM7D, frags[EM7D].location, Body(frags[EM7D]))
    ensures Downloaded(frags) == images[1..6]
    ensures Padded(Listed(frags), 5) == EntriesOf(images[1..6])
  {
    hide Body;
    assert Downloaded(frags) == [images[1], images[2], images[3], images[4], images[5]];
    ListedIsDownloaded(frags);
    assert Padded(Listed(frags), 5) == Listed(frags);
  }

  lemma FourPlusTwoParses(s: BootFw, option: u32, locs: seq<u32>, bodies: seq<Image>,
                          sensorOption: u32, slots: seq<u32>, ace: seq<Image>, config: Image)
    requires |locs| == |bodies| == 4 && |slots| == |ace| == 2
    requires |bodies[0]| >= MANIFEST_BACK && 1 <= |config| <= SKU_MAX_SIZE - 4
    requires LocationsGiven(locs) && Suits(s, bodies[0])
    ensures var (fw, r) := ParseAll(s, Found(PackFile(option, locs, bodies)),
                                    Found(PackFile(sensorOption, slots, ace)), Found(PackSku(config)));
            var vision := VisionPlace(locs[2], |bodies[2]|, slots[0]);
            r == Success && fw.fwCnt == 5 && Full(fw.frags, Expected(
              Received(IMG_BOOTLOADER, locs[0], bodies[0]), Received(IMG_ARCSEM, locs[1], bodies[1]),
              Received(IMG_ACE_RUNTIME, locs[2], bodies[2]), Received(IMG_ACE_VISION, vision, ace[0]),
              Received(IMG_ACE_CONFIG, ConfigPlace(vision, |ace[0]|, slots[1]), ace[1]),
              Received(IMG_EM7D, locs[3], bodies[3]), PackSku(config)))
  {
    hide Get32, ParseMain, ParseSensor, ParseSku, PackFile, WellFormed, Align4K, Body, LocationsGiven, Suits;
    var main, sensor := PackFile(option, locs, bodies), PackFile(sensorOption, slots, ace);
    PackedIsWellFormed(option, locs, bodies);
    PackedIsWellFormed(sensorOption, slots, ace);
    MainRoundTrip(s, main, option, locs, bodies);
    var s1 := ParseMain(s, main).0;
    MainRecoversAll(s1.frags, main, locs, bodies);
    SensorRoundTrip(s1, sensor, sensorOption, slots, ace);
    var s2 := ParseSensor(s1, sensor).0;
    SkuRoundTrip(s2, config);
    SkuAlone(s2, PackSku(config));
    PlaceConfigIs(s2.frags[ACEV], slots[1]);
  }

  /**
   End to end, four images plus two: whatever the table held before, packing, parsing, downloading and
   receiving gives the device exactly the packed images, each at its place, then the SKU file, then one boot.
   */
  lemma FourPlusTwo(s: BootFw, query: Frame, option: u32, locs: seq<u32>, bodies: seq<Image>,
                    sensorOption: u32, slots: seq<u32>, ace: seq<Image>, config: Image)
    requires |query| == ROM_PKG && IsQuery(query)
    requires |locs| == |bodies| == 4 && |slots| == |ace| == 2
    requires (forall b :: b in bodies ==> b != []) && ace[0] != [] && ace[1] != []
    requires |bodies[0]| >= MANIFEST_BACK && 1 <= |config| <= SKU_MAX_SIZE - 4
    requires LocationsGiven(locs) && Suits(s, bodies[0])
    ensures var (fw, r) := ParseAll(s, Found(PackFile(option, locs, bodies)),
                                    Found(PackFile(sensorOption, slots, ace)), Found(PackSku(config)));
            var vision := VisionPlace(locs[2], |bodies[2]|, slots[0]);
            && r == Success
            && BootsTo(fw, query, Expected(
                 Received(IMG_BOOTLOADER, locs[0], bodies[0]), Received(IMG_ARCSEM, locs[1], bodies[1]),
                 Received(IMG_ACE_RUNTIME, locs[2], bodies[2]), Received(IMG_ACE_VISION, vision, ace[0]),
                 Received(IMG_ACE_CONFIG, ConfigPlace(vision, |ace[0]|, slots[1]), ace[1]),
                 Received(IMG_EM7D, locs[3], bodies[3]), PackSku(config)))
  {
    hide ParseAll, PackFile, BootsTo, IsQuery, LocationsGiven, Suits, Full;
    var vision := VisionPlace(locs[2], |bodies[2]|, slots[0]);
    FourPlusTwoParses(s, option, locs, bodies, sensorOption, slots, ace, config);
    var fw := ParseAll(s, Found(PackFile(option, locs, bodies)), Found(PackFile(sensorOption, slots, ace)), Found(PackSku(config))).0;
    assert bodies[0] in bodies && bodies[1] in bodies && bodies[2] in bodies && bodies[3] in bodies;
    FullTableBoots(fw, query, Expected(
      Received(IMG_BOOTLOADER, locs[0], bodies[0]), Received(IMG_ARCSEM, locs[1], bodies[1]),
      Received(IMG_ACE_RUNTIME, locs[2], bodies[2]), Received(IMG_ACE_VISION, vision, ace[0]),
      Received(IMG_ACE_CONFIG, ConfigPlace(vision, |ace[0]|, slots[1]), ace[1]),
      Received(IMG_EM7D, locs[3], bodies[3]), PackSku(config)));
  }

  lemma MainRecoversAll(frags: Table, file: seq<byte>, locs: seq<u32>, bodies: seq<Image>)
    requires 3 <= |locs| == |bodies| <= 6 && MainRecovered(frags, file, locs, bodies)
    ensures forall k :: 0 <= k < |bodies| ==>
              var f := frags[Role(|bodies|, k)]; InBounds(f) && f.size == |bodies[k]| && Body(f) == bodies[k]
  {
    hide Body;
  }

  lemma SkuAlone(s: BootFw, file: seq<byte>)
    ensures var s' := ParseSku(s, file).0;
            s'.fwCnt == s.fwCnt && forall k :: 0 <= k < SKU_CONF ==> s'.frags[k] == s.frags[k]
  {
  }

  lemma SixParses(s: BootFw, option: u32, locs: seq<u32>, bodies: seq<Image>, sensor: File, config: Image)
    requires |locs| == |bodies| == 6
    requires |bodies[0]| >= MANIFEST_BACK && 1 <= |config| <= SKU_MAX_SIZE - 4
    requires LocationsGiven(locs) && Suits(s, bodies[0])
    ensures var (fw, r) := ParseAll(s, Found(PackFile(option, locs, bodies)), sensor, Found(PackSku(config)));
            var vision := VisionPlace(locs[2], |bodies[2]|, locs[3]);
            r == Success && fw.fwCnt == 5 && Full(fw.frags, Expected(
              Received(IMG_BOOTLOADER, locs[0], bodies[0]), Received(IMG_ARCSEM, locs[1], bodies[1]),
              Received(IMG_ACE_RUNTIME, locs[2], bodies[2]), Received(IMG_ACE_VISION, vision, bodies[3]),
              Received(IMG_ACE_CONFIG, ConfigPlace(vision, |bodies[3]|, locs[4]), bodies[4]),
              Received(IMG_EM7D, locs[5], bodies[5]), PackSku(config)))
  {
    hide Get32, ParseMain, ParseSensor, ParseSku, PackFile, WellFormed, Align4K, Body, LocationsGiven, Suits;
    var main := PackFile(option, locs, bodies);
    PackedIsWellFormed(option, locs, bodies);
    MainRoundTrip(s, main, option, locs, bodies);
    var s1 := ParseMain(s, main).0;
    MainRecoversAll(s1.frags, main, locs, bodies);
    SkuRoundTrip(s1, config);
    SkuAlone(s1, PackSku(config));
    PlaceConfigIs(s1.frags[ACEV], locs[4]);
  }

  /** End to end, all six images in the main file: no sensor file is even asked for. */
  lemma Six(s: BootFw, query: Frame, option: u32, locs: seq<u32>, bodies: seq<Image>, sensor: File, config: Image)
    requires |query| == ROM_PKG && IsQuery(query)
    requires |locs| == |bodies| == 6 && forall b :: b in bodies ==> b != []
    requires |bodies[0]| >= MANIFEST_BACK && 1 <= |config| <= SKU_MAX_SIZE - 4
    requires LocationsGiven(locs) && Suits(s, bodies[0])
    ensures var (fw, r) := ParseAll(s, Found(PackFile(option, locs, bodies)), sensor, Found(PackSku(config)));
            var vision := VisionPlace(locs[2], |bodies[2]|, locs[3]);
            && r == Success
            && BootsTo(fw, query, Expected(
                 Received(IMG_BOOTLOADER, locs[0], bodies[0]), Received(IMG_ARCSEM, locs[1], bodies[1]),
                 Received(IMG_ACE_RUNTIME, locs[2], bodies[2]), Received(IMG_ACE_VISION, vision, bodies[3]),
                 Received(IMG_ACE_CONFIG, ConfigPlace(vision, |bodies[3]|, locs[4]), bodies[4]),
                 Received(IMG_EM7D, locs[5], bodies[5]), PackSku(config)))
  {
    hide ParseAll, PackFile, BootsTo, IsQuery, LocationsGiven, Suits, Full;
    var vision := VisionPlace(locs[2], |bodies[2]|, locs[3]);
    SixParses(s, option, locs, bodies, sensor, config);
    var fw := ParseAll(s, Found(PackFile(option, locs, bodies)), sensor, Found(PackSku(config))).0;
    assert bodies[0] in bodies && bodies[1] in bodies && bodies[2] in bodies && bodies[3] in bodies;
    assert bodies[4] in bodies && bodies[5] in bodies;
    FullTableBoots(fw, query, Expected(
      Received(IMG_BOOTLOADER, locs[0], bodies[0]), Received(IMG_ARCSEM, locs[1], bodies[1]),
      Received(IMG_ACE_RUNTIME, locs[2], bodies[2]), Received(IMG_ACE_VISION, vision, bodies[3]),
      Received(IMG_ACE_CONFIG, ConfigPlace(vision, |bodies[3]|, locs[4]), bodies[4]),
      Received(IMG_EM7D, locs[5], bodies[5]), PackSku(config)));
  }

  /** How many pieces of `size` bytes a body is cut into, the last one perhaps shorter. */
  function Pieces(body: seq<byte>, size: nat): nat
    requires size > 0
  {
    (|body| + size - 1) / size
  }

  lemma {:induction false} RomChunkCount(body: seq<byte>)
    ensures |RomChunks(body)| == Pieces(body, ROM_PAYLOAD)
    decreases |body|
  {
    hide RomCont;
    if |body| > ROM_PAYLOAD {
      RomChunkCount(body[ROM_PAYLOAD..]);
    }
  }

  lemma {:induction false} FwChunkCount(body: seq<byte>)
    ensures |FwChunks(body)| == Pieces(body, FW_PKG)
    decreases |body|
  {
    hide FwCont;
    if |body| > FW_PKG {
      FwChunkCount(body[FW_PKG..]);
    }
  }

  /** The frames of a whole boot: query, table and boot command, and for each image its header and its pieces. */
  function Frames(images: seq<Received>): nat
    requires |images| == 7
  {
    3 + (1 + Pieces(images[0].body, ROM_PAYLOAD))
    + (1 + Pieces(images[1].body, FW_PKG)) + (1 + Pieces(images[2].body, FW_PKG)) + (1 + Pieces(images[3].body, FW_PKG))
    + (1 + Pieces(images[4].body, FW_PKG)) + (1 + Pieces(images[5].body, FW_PKG)) + (1 + Pieces(images[6].body, FW_PKG))
  }

  lemma FragFrames(option: u16, imgType: byte, f: Fragment, r: Received)
    requires Holding(f, r) && r.body != []
    ensures |FragStreamIfAny(option, imgType, f)| == |FragStream(option, imgType, f)| == 1 + Pieces(r.body, FW_PKG)
  {
    hide FwStart, FwChunks;
    FwChunkCount(Body(f));
  }

  lemma FullTableFrames(fw: BootFw, query: Frame, images: seq<Received>)
    requires AllInBounds(fw.frags) && fw.fwCnt <= IMG_CNT_MAX && |query| == ROM_PKG && |images| == 7
    requires (forall k :: 0 <= k < 7 ==> images[k].body != []) && Full(fw.frags, images)
    ensures Startable(fw) && |BootStream(query, fw)| == Frames(images)
  {
    hide FragStream, FragStreamIfAny, RomStart, RomChunks, DlSet, CamBoot, Listed, Pieces;
    RomChunkCount(Body(fw.frags[BOOT_IMAGE]));
    FragFrames(fw.fwOption, IMG_ARCSEM, fw.frags[ARC_SEM], images[1]);
    FragFrames(fw.fwOption, IMG_ACE_RUNTIME, fw.frags[ACER], images[2]);
    FragFrames(fw.fwOption, IMG_ACE_VISION, fw.frags[ACEV], images[3]);
    FragFrames(fw.fwOption, IMG_ACE_CONFIG, fw.frags[ACEC], images[4]);
    FragFrames(fw.fwOption, IMG_EM7D, fw.frags[EM7D], images[5]);
    FragFrames(fw.fwOption, IMG_SKU_CONFIG, fw.frags[SKU_CONF], images[6]);
  }

  /** The bus after a boot of packed images: the device is up, with exactly these, if and only if the boot succeeded. */
  ghost predicate BootedExactly(before: seq<Frame>, after: seq<Frame>, r: Outcome, images: seq<Received>)
    requires |images| == 7
  {
    && r != Undefined && before <= after && Whole(after[|before|..])
    && (TakenIn(before, after).Booted? <==> r == Success)
    && (r == Success ==> TakenIn(before, after) == Booted(images, EntriesOf(images[1..6])))
  }

  /** What init_hw promises of the bus once the files have parsed, against the images the parsed table boots to. */
  lemma InitBoots(fw: BootFw, query: Frame, before: seq<Frame>, after: seq<Frame>, r: Outcome, images: seq<Received>)
    requires |query| == ROM_PKG && |images| == 7 && BootsTo(fw, query, images)
    requires Sent(before, BootStream(query, fw), after, Code(r)) && (r == Success <==> after == before + Swabbed(BootStream(query, fw)))
    ensures BootedExactly(before, after, r, images)
  {
    hide Receive, Swab, BootStream, EntriesOf;
    WireBootsExactly(query, fw, before, after, Code(r));
    AllOut(before, BootStream(query, fw), after, Code(r));
  }

  lemma FullInBounds(frags: Table, images: seq<Received>)
    requires |images| == 7 && Full(frags, images)
    ensures AllInBounds(frags)
  {
    EveryFragment(frags);
  }

  /** init_hw on files that parse to a full table. */
  method BootFull(vsc: Vsc, main: File, sensor: File, sku: File, ghost images: seq<Received>) returns (r: Outcome)
    requires vsc.Valid() && |images| == 7 && forall k :: 0 <= k < 7 ==> 0 < |images[k].body| < 0x1_0000_0000
    requires var (fw, parsed) := ParseAll(vsc.files.View(), main, sensor, sku);
             parsed == Success && fw.fwCnt == 5 && Full(fw.frags, images)
    modifies vsc.files, vsc.loader.bus, vsc.loader.txBuf, vsc.loader.rxBuf
    ensures BootedExactly(old(vsc.loader.bus.wire), vsc.loader.bus.wire, r, images)
    ensures r == Success <==> Boots(vsc.loader.bus, old(vsc.loader.bus.attempts), Frames(images))
  {
    hide ParseAll, BootsTo, Sent, BootStream, Swab, BootedExactly, AllInBounds, Full, AtTheDevice, EntriesOf, Boots, BootTried, Frames, Startable;
    ghost var before := vsc.loader.bus.wire;
    FullInBounds(ParseAll(vsc.files.View(), main, sensor, sku).0.frags, images);
    ghost var query;
    r, query := vsc.InitHw(main, sensor, sku);
    FullTableBoots(vsc.files.View(), query, images);
    FullTableFrames(vsc.files.View(), query, images);
    InitBoots(vsc.files.View(), query, before, vsc.loader.bus.wire, r, images);
  }

  /**
   init_hw on four packed images plus two, whatever the table held before: it succeeds exactly if the token
   is right and none of the attempts fails, and the device comes up exactly if it succeeds, and then with
   exactly the packed images, each at its place, and the table that lists them.
   */
  method BootFourPlusTwo(vsc: Vsc, option: u32, locs: seq<u32>, bodies: seq<Image>,
                         sensorOption: u32, slots: seq<u32>, ace: seq<Image>, config: Image)
    returns (r: Outcome)
    requires vsc.Valid() && |locs| == |bodies| == 4 && |slots| == |ace| == 2
    requires (forall b :: b in bodies ==> b != []) && ace[0] != [] && ace[1] != []
    requires |bodies[0]| >= MANIFEST_BACK && 1 <= |config| <= SKU_MAX_SIZE - 4 && LocationsGiven(locs)
    requires Suits(vsc.files.View(), bodies[0])
    modifies vsc.files, vsc.loader.bus, vsc.loader.txBuf, vsc.loader.rxBuf
    ensures var vision := VisionPlace(locs[2], |bodies[2]|, slots[0]);
            var images := Expected(
              Received(IMG_BOOTLOADER, locs[0], bodies[0]), Received(IMG_ARCSEM, locs[1], bodies[1]),
              Received(IMG_ACE_RUNTIME, locs[2], bodies[2]), Received(IMG_ACE_VISION, vision, ace[0]),
              Received(IMG_ACE_CONFIG, ConfigPlace(vision, |ace[0]|, slots[1]), ace[1]),
              Received(IMG_EM7D, locs[3], bodies[3]), PackSku(config));
            && BootedExactly(old(vsc.loader.bus.wire), vsc.loader.bus.wire, r, images)
            && (r == Success <==> Boots(vsc.loader.bus, old(vsc.loader.bus.attempts), Frames(images)))
  {
    hide ParseAll, PackFile, LocationsGiven, Suits, Full, BootedExactly, Boots, Frames;
    ghost var vision := VisionPlace(locs[2], |bodies[2]|, slots[0]);
    FourPlusTwoParses(vsc.files.View(), option, locs, bodies, sensorOption, slots, ace, config);
    assert bodies[0] in bodies && bodies[1] in bodies && bodies[2] in bodies && bodies[3] in bodies;
    r := BootFull(vsc, Found(PackFile(option, locs, bodies)), Found(PackFile(sensorOption, slots, ace)), Found(PackSku(config)), Expected(
      Received(IMG_BOOTLOADER, locs[0], bodies[0]), Received(IMG_ARCSEM, locs[1], bodies[1]),
      Received(IMG_ACE_RUNTIME, locs[2], bodies[2]), Received(IMG_ACE_VISION, vision, ace[0]),
      Received(IMG_ACE_CONFIG, ConfigPlace(vision, |ace[0]|, slots[1]), ace[1]),
      Received(IMG_EM7D, locs[3], bodies[3]), PackSku(config)));
  }

  /** And on six in one file. */
  method BootSix(vsc: Vsc, option: u32, locs: seq<u32>, bodies: seq<Image>, sensor: File, config: Image) returns (r: Outcome)
    requires vsc.Valid() && |locs| == |bodies| == 6 && forall b :: b in bodies ==> b != []
    requires |bodies[0]| >= MANIFEST_BACK && 1 <= |config| <= SKU_MAX_SIZE - 4 && LocationsGiven(locs)
    requires Suits(vsc.files.View(), bodies[0])
    modifies vsc.files, vsc.loader.bus, vsc.loader.txBuf, vsc.loader.rxBuf
    ensures var vision := VisionPlace(locs[2], |bodies[2]|, locs[3]);
            var images := Expected(
              Received(IMG_BOOTLOADER, locs[0], bodies[0]), Received(IMG_ARCSEM, locs[1], bodies[1]),
              Received(IMG_ACE_RUNTIME, locs[2], bodies[2]), Received(IMG_ACE_VISION, vision, bodies[3]),
              Received(IMG_ACE_CONFIG, ConfigPlace(vision, |bodies[3]|, locs[4]), bodies[4]),
              Received(IMG_EM7D, locs[5], bodies[5]), PackSku(config));
            && BootedExactly(old(vsc.loader.bus.wire), vsc.loader.bus.wire, r, images)
            && (r == Success <==> Boots(vsc.loader.bus, old(vsc.loader.bus.attempts), Frames(images)))
  {
    hide ParseAll, PackFile, LocationsGiven, Suits, Full, BootedExactly, Boots, Frames;
    ghost var vision := VisionPlace(locs[2], |bodies[2]|, locs[3]);
    SixParses(vsc.files.View(), option, locs, bodies, sensor, config);
    assert bodies[0] in bodies && bodies[1] in bodies && bodies[2] in bodies && bodies[3] in bodies;
    assert bodies[4] in bodies && bodies[5] in bodies;
    r := BootFull(vsc, Found(PackFile(option, locs, bodies)), sensor, Found(PackSku(config)), Expected(
      Received(IMG_BOOTLOADER, locs[0], bodies[0]), Received(IMG_ARCSEM, locs[1], bodies[1]),
      Received(IMG_ACE_RUNTIME, locs[2], bodies[2]), Received(IMG_ACE_VISION, vision, bodies[3]),
      Received(IMG_ACE_CONFIG, ConfigPlace(vision, |bodies[3]|, locs[4]), bodies[4]),
      Received(IMG_EM7D, locs[5], bodies[5]), PackSku(config)));
  }

  /** The overflow of the DL_SET table does happen: any three-plus-two boot over a table with a stale runtime image. */
  lemma StaleRuntimeOverflows(s: BootFw, option: u32, locs: seq<u32>, bodies: seq<Image>,
                              sensorOption: u32, slots: seq<u32>, ace: seq<Image>, config: Image)
    requires |locs| == |bodies| == 3 && |slots| == |ace| == 2 && ace[0] != [] && ace[1] != []
    requires |bodies[0]| >= MANIFEST_BACK && 1 <= |config| <= SKU_MAX_SIZE - 4
    requires LocationsGiven(locs) && Suits(s, bodies[0])
    requires s.frags[ACER].size > 0
    ensures var (fw, r) := ParseAll(s, Found(PackFile(option, locs, bodies)),
                                    Found(PackFile(sensorOption, slots, ace)), Found(PackSku(config)));
            r == Success && |Listed(fw.frags)| == 5 && fw.fwCnt == 4
  {
    hide Get32, ParseMain, ParseSensor, ParseSku, PackFile, WellFormed, Align4K, Body, LocationsGiven, Suits;
    var main, sensor := PackFile(option, locs, bodies), PackFile(sensorOption, slots, ace);
    PackedIsWellFormed(option, locs, bodies);
    PackedIsWellFormed(sensorOption, slots, ace);
    MainRoundTrip(s, main, option, locs, bodies);
    var s1 := ParseMain(s, main).0;
    MainCount(s, main);
    assert ImageCount(main) == 3;
    SensorRoundTrip(s1, sensor, sensorOption, slots, ace);
    var s2 := ParseSensor(s1, sensor).0;
    SkuRoundTrip(s2, config);
    SkuAlone(s2, PackSku(config));
  }
}
