/**
 The parsers of the three boot files (main, sensor, SKU configuration) and the fragment table they
 fill. A file is its bytes; where the driver would read past them the outcome is Overread.
 */
module VscParse {
  import opened Bytes

  const VSC_FILE_MAGIC: u32 := 0x46564353
  const VSC_FW_MAGIC: u32 := 0x49574653
  const MAX_SVN_VALUE: u32 := 0xFFFFFFFE
  const SI_SUBSTEPPING_VERSION_0: u32 := 0
  const SI_SUBSTEPPING_VERSION_1: u32 := 2
  const SIG_SIZE := 384
  const MANIFEST_SIZE := 28
  const CSSHEADER_SIZE := 128
  const MANIFEST_BACK := SIG_SIZE + MANIFEST_SIZE + CSSHEADER_SIZE

  const IMG_ACEV_ACECNF := 2
  const IMG_BOOT_ARC_EM7D := 3
  const IMG_CNT_MAX := 6
  const SKU_CONFIG_LOC: u32 := 0x5001A000
  const SKU_MAX_SIZE := 4100

  // Indices of the fragment table.
  const BOOT_IMAGE := 0
  const ARC_SEM := 1
  const EM7D := 2
  const ACER := 3
  const ACEV := 4
  const ACEC := 5
  const SKU_CONF := 6

  /** A pointer into a file, a byte count and a target address. Nothing says the count fits the file. */
  datatype Fragment = Fragment(location: u32, file: seq<byte>, start: nat, size: u32)

  const NO_FRAGMENT := Fragment(0, [], 0, 0)

  predicate InBounds(f: Fragment) {
    f.start + f.size <= |f.file|
  }

  function Body(f: Fragment): (b: seq<byte>)
    requires InBounds(f)
    ensures |b| == f.size
  {
    f.file[f.start..f.start + f.size]
  }

  type Table = s: seq<Fragment> | |s| == 7 witness [NO_FRAGMENT, NO_FRAGMENT, NO_FRAGMENT, NO_FRAGMENT, NO_FRAGMENT, NO_FRAGMENT, NO_FRAGMENT]

  const EMPTY_TABLE: Table := [NO_FRAGMENT, NO_FRAGMENT, NO_FRAGMENT, NO_FRAGMENT, NO_FRAGMENT, NO_FRAGMENT, NO_FRAGMENT]

  datatype BootFw = BootFw(subVer: u32, svn: u32, fwOption: u16, fwCnt: u32, frags: Table)

  datatype Verdict = Accepted | Einval | Overread

  const HEADER_SIZE := 12

  function Loc(file: seq<byte>, k: nat): u32
    requires HEADER_SIZE + 4 * k + 4 <= |file|
  {
    Get32(file, HEADER_SIZE + 4 * k)
  }

  function SizeAt(file: seq<byte>, off: nat): u32
    requires off + 8 <= |file|
  {
    Get32(file, off + 4)
  }

  /** The fragment for the signed image whose header is at `off`. */
  function Signed(file: seq<byte>, location: u32, off: nat): Fragment
    requires off + 8 <= |file|
  {
    Fragment(location, file, off + 8, SizeAt(file, off))
  }

  /** (x + 0xFFF) & ~0xFFF in 32 bits. */
  function Align4K(x: int): u32
    requires x >= 0
  {
    var y := (x + 0xFFF) % 0x1_0000_0000;
    y - y % 0x1000
  }

  /** Where the driver puts an ACE image after `prev`, given the file's slot for it; `acer` is what the slot is compared with. */
  function Place(prev: Fragment, slot: u32, compared: u32): u32 {
    if slot != 0 && compared != slot then slot else Align4K(prev.location + prev.size)
  }

  /** `prev` is the ACEV fragment just stored when placing ACEC, so the slot is compared with the computed place. */
  function PlaceConfig(prev: Fragment, slot: u32): u32 {
    Place(prev, slot, Align4K(prev.location + prev.size))
  }

  // The main file.

  function NextSvn(svn: u32, manifest: u32): u32 {
    if manifest == MAX_SVN_VALUE then MAX_SVN_VALUE else if svn == 0 then manifest else svn
  }

  predicate SvnMatches(subVer: u32, svn: u32) {
    && !(subVer == SI_SUBSTEPPING_VERSION_0 && svn != MAX_SVN_VALUE)
    && !(subVer == SI_SUBSTEPPING_VERSION_1 && svn == MAX_SVN_VALUE)
  }

  datatype Walk = Headers(at: seq<nat>) | WalkStop(verdict: Verdict)

  /** Follow the chain of image headers until there are `n`; the first one's magic is never looked at. */
  function WalkFrom(file: seq<byte>, at: seq<nat>, n: nat): (w: Walk)
    requires 1 <= |at| <= n
    ensures w.Headers? ==> |w.at| == n && at <= w.at
    ensures w.Headers? ==> forall k :: |at| - 1 <= k < n ==> w.at[k] + 8 <= |file|
    ensures w.WalkStop? ==> w.verdict != Accepted
    decreases n - |at|
  {
    var last := at[|at| - 1];
    if last + 8 > |file| then WalkStop(Overread)
    else if |at| == n then Headers(at)
    else
      var next := last + 8 + SizeAt(file, last);
      if next > |file| then WalkStop(Einval)
      else if next + 4 > |file| then WalkStop(Overread)
      else if Get32(file, next) != VSC_FW_MAGIC then WalkStop(Einval)
      else WalkFrom(file, at + [next], n)
  }

  /** Filling the fragment table from the headers found; the table keeps what was stored before a rejection. */
  function FillMain(frags: Table, file: seq<byte>, n: nat, boot: nat, at: seq<nat>): (Table, Verdict)
    requires IMG_BOOT_ARC_EM7D <= n <= IMG_CNT_MAX
    requires boot == HEADER_SIZE + 4 * n && boot + 8 <= |file|
    requires |at| == n - 1 && forall k :: 0 <= k < n - 1 ==> at[k] + 8 <= |file|
  {
    var f0: Table := frags[BOOT_IMAGE := Signed(file, Loc(file, 0), boot)];
    if Loc(file, 0) == 0 then (f0, Einval) else
    var f1: Table := f0[ARC_SEM := Signed(file, Loc(file, 1), at[0])];
    if Loc(file, 1) == 0 then (f1, Einval) else
    var f2: Table := if n >= 4 then f1[ACER := Signed(file, Loc(file, 2), at[1])] else f1;
    if n >= 4 && Loc(file, 2) == 0 then (f2, Einval) else
    var f3: Table := if n >= 5 then f2[ACEV := Signed(file, Place(f2[ACER], Loc(file, 3), f2[ACER].location), at[2])] else f2;
    var f4: Table := if n >= 6 then f3[ACEC := Signed(file, PlaceConfig(f3[ACEV], Loc(file, 4)), at[3])] else f3;
    var f5: Table := f4[EM7D := Signed(file, Loc(file, n - 1), at[n - 2])];
    (f5, if Loc(file, n - 1) == 0 then Einval else Accepted)
  }

  function ParseMain(s: BootFw, file: seq<byte>): (BootFw, Verdict) {
    if |file| < 4 then (s, Overread)
    else if Get32(file, 0) != VSC_FILE_MAGIC then (s, Einval)
    else if |file| < HEADER_SIZE then (s, Overread)
    else
      var n := Get32(file, 8);
      if n < IMG_BOOT_ARC_EM7D || n > IMG_CNT_MAX then (s, Einval) else
      var s1 := s.(fwOption := Get32(file, 4) % 0x1_0000, fwCnt := n - 1);
      var boot := HEADER_SIZE + 4 * n;
      if boot > |file| then (s1, Einval)
      else if boot + 4 > |file| then (s1, Overread)
      else if Get32(file, boot) != VSC_FW_MAGIC then (s1, Einval)
      else if boot + 8 > |file| then (s1, Overread)
      else
        var manifest := boot + 8 + SizeAt(file, boot) - MANIFEST_BACK;
        if manifest < 0 || manifest + 4 > |file| then (s1, Overread) else
        var s2 := s1.(svn := NextSvn(s1.svn, Get32(file, manifest)));
        if !SvnMatches(s2.subVer, s2.svn) then (s2, Einval) else
        match WalkFrom(file, [boot + 8 + SizeAt(file, boot)], n - 1)
        case WalkStop(v) => (s2, v)
        case Headers(at) =>
          var (frags, v) := FillMain(s2.frags, file, n, boot, at);
          (s2.(frags := frags), v)
  }

  // The sensor file: two images, behind as many location slots as its count says.

  function ParseSensor(s: BootFw, file: seq<byte>): (BootFw, Verdict) {
    if |file| < 4 then (s, Overread)
    else if Get32(file, 0) != VSC_FILE_MAGIC then (s, Einval)
    else if |file| < HEADER_SIZE then (s, Overread)
    else
      var n := Get32(file, 8);
      if n < IMG_ACEV_ACECNF || n > IMG_CNT_MAX then (s, Einval) else
      var s1 := s.(fwCnt := (s.fwCnt + n) % 0x1_0000_0000);
      if s1.fwCnt > IMG_CNT_MAX then (s1, Einval) else
      var vis := HEADER_SIZE + 4 * n;
      if vis + 8 > |file| then (s1, Overread)
      else if Get32(file, vis) != VSC_FW_MAGIC then (s1, Einval)
      else
        var acer := s1.frags[ACER];
        var f1: Table := s1.frags[ACEV := Signed(file, Place(acer, Loc(file, 0), acer.location), vis)];
        var s2 := s1.(frags := f1);
        var conf := vis + 8 + SizeAt(file, vis);
        if conf + 4 > |file| then (s2, Overread)
        else if Get32(file, conf) != VSC_FW_MAGIC then (s2, Einval)
        else if conf + 8 > |file| then (s2, Overread)
        else
          var f2: Table := f1[ACEC := Signed(file, PlaceConfig(f1[ACEV], Loc(file, 1)), conf)];
          (s2.(frags := f2), Accepted)
  }

  // The SKU configuration.

  function ParseSku(s: BootFw, file: seq<byte>): (BootFw, Verdict) {
    if |file| <= 4 then (s, Einval)
    else
      var size := (Get32(file, 0) + 4) % 0x1_0000_0000;
      var f: Table := s.frags[SKU_CONF := Fragment(SKU_CONFIG_LOC, file, 0, size)];
      (s.(frags := f), if |file| != size || |file| > SKU_MAX_SIZE then Einval else Accepted)
  }

  /** Acceptance of the SKU file, despite the 32-bit sum: the first word plus 4 is the file's size, in 5 to 4100 bytes. */
  lemma SkuAccepted(s: BootFw, file: seq<byte>)
    ensures ParseSku(s, file).1 == Accepted <==>
              4 < |file| <= SKU_MAX_SIZE && Get32(file, 0) + 4 == |file|
    ensures ParseSku(s, file).1 == Accepted ==>
              var f := ParseSku(s, file).0.frags[SKU_CONF];
              InBounds(f) && Body(f) == file && f.location == SKU_CONFIG_LOC
  {
  }

  class BootFiles {
    var subVer: u32
    var svn: u32
    var fwOption: u16
    var fwCnt: u32
    var frags: Table

    function View(): BootFw
      reads this
    {
      BootFw(subVer, svn, fwOption, fwCnt, frags)
    }

    /** Zeroed, with the stepping check_silicon read. */
    constructor (subVer: u32)
      ensures View() == BootFw(subVer, 0, 0, 0, EMPTY_TABLE)
    {
      this.subVer := subVer;
      svn, fwOption, fwCnt, frags := 0, 0, 0, EMPTY_TABLE;
    }

    method ParseMainFw(file: seq<byte>) returns (v: Verdict)
      modifies this
      ensures (View(), v) == ParseMain(old(View()), file)
    {
      hide Get32, SizeAt, FillMain;
      if |file| < 4 {
        return Overread;
      }
      if Get32(file, 0) != VSC_FILE_MAGIC {
        return Einval;
      }
      if |file| < HEADER_SIZE {
        return Overread;
      }
      var n := Get32(file, 8);
      if n < IMG_BOOT_ARC_EM7D || n > IMG_CNT_MAX {
        return Einval;
      }
      fwOption := Get32(file, 4) % 0x1_0000;
      fwCnt := n - 1;
      var boot := HEADER_SIZE + 4 * n;
      if boot > |file| {
        return Einval;
      }
      if boot + 4 > |file| {
        return Overread;
      }
      if Get32(file, boot) != VSC_FW_MAGIC {
        return Einval;
      }
      if boot + 8 > |file| {
        return Overread;
      }
      var manifest := boot + 8 + SizeAt(file, boot) - MANIFEST_BACK;
      if manifest < 0 || manifest + 4 > |file| {
        return Overread;
      }
      var manifestSvn := Get32(file, manifest);
      if manifestSvn == MAX_SVN_VALUE {
        svn := MAX_SVN_VALUE;
      } else if svn == 0 {
        svn := manifestSvn;
      }
      if (subVer == SI_SUBSTEPPING_VERSION_0 && svn != MAX_SVN_VALUE) ||
         (subVer == SI_SUBSTEPPING_VERSION_1 && svn == MAX_SVN_VALUE) {
        return Einval;
      }
      var first := boot + 8 + SizeAt(file, boot);
      var firmwares: seq<nat> := [first];
      while true
        invariant 1 <= |firmwares| <= n - 1
        invariant WalkFrom(file, firmwares, n - 1) == WalkFrom(file, [first], n - 1)
        decreases n - |firmwares|
      {
        var last := firmwares[|firmwares| - 1];
        if last + 8 > |file| {
          return Overread;
        }
        if |firmwares| == n - 1 {
          break;
        }
        var next := last + 8 + SizeAt(file, last);
        if next > |file| {
          return Einval;
        }
        if next + 4 > |file| {
          return Overread;
        }
        if Get32(file, next) != VSC_FW_MAGIC {
          return Einval;
        }
        firmwares := firmwares + [next];
      }
      v := StoreMain(file, n, boot, firmwares);
    }

    method StoreMain(file: seq<byte>, n: nat, boot: nat, firmwares: seq<nat>) returns (v: Verdict)
      requires IMG_BOOT_ARC_EM7D <= n <= IMG_CNT_MAX
      requires boot == HEADER_SIZE + 4 * n && boot + 8 <= |file|
      requires |firmwares| == n - 1 && forall k :: 0 <= k < n - 1 ==> firmwares[k] + 8 <= |file|
      modifies this`frags
      ensures (frags, v) == FillMain(old(frags), file, n, boot, firmwares)
    {
      hide Get32, SizeAt, Align4K;
      frags := frags[BOOT_IMAGE := Signed(file, Loc(file, 0), boot)];
      if frags[BOOT_IMAGE].location == 0 {
        return Einval;
      }
      frags := frags[ARC_SEM := Signed(file, Loc(file, 1), firmwares[0])];
      if frags[ARC_SEM].location == 0 {
        return Einval;
      }
      if n >= 4 {
        frags := frags[ACER := Signed(file, Loc(file, 2), firmwares[1])];
        if frags[ACER].location == 0 {
          return Einval;
        }
        if n >= 5 {
          var place := Align4K(frags[ACER].location + frags[ACER].size);
          if Loc(file, 3) != 0 && frags[ACER].location != Loc(file, 3) {
            place := Loc(file, 3);
          }
          frags := frags[ACEV := Signed(file, place, firmwares[2])];
        }
        if n >= 6 {
          var place := Align4K(frags[ACEV].location + frags[ACEV].size);
          if Loc(file, 4) != 0 && place != Loc(file, 4) {
            place := Loc(file, 4);
          }
          frags := frags[ACEC := Signed(file, place, firmwares[3])];
        }
      }
      frags := frags[EM7D := Signed(file, Loc(file, n - 1), firmwares[n - 2])];
      if frags[EM7D].location == 0 {
        return Einval;
      }
      return Accepted;
    }

    method ParseSensorFw(file: seq<byte>) returns (v: Verdict)
      modifies this
      ensures (View(), v) == ParseSensor(old(View()), file)
    {
      hide Get32, SizeAt, Align4K;
      if |file| < 4 {
        return Overread;
      }
      if Get32(file, 0) != VSC_FILE_MAGIC {
        return Einval;
      }
      if |file| < HEADER_SIZE {
        return Overread;
      }
      var n := Get32(file, 8);
      if n < IMG_ACEV_ACECNF || n > IMG_CNT_MAX {
        return Einval;
      }
      fwCnt := (fwCnt + n) % 0x1_0000_0000;
      if fwCnt > IMG_CNT_MAX {
        return Einval;
      }
      var vis := HEADER_SIZE + 4 * n;
      if vis + 8 > |file| {
        return Overread;
      }
      if Get32(file, vis) != VSC_FW_MAGIC {
        return Einval;
      }
      var place := Align4K(frags[ACER].location + frags[ACER].size);
      if Loc(file, 0) != 0 && frags[ACER].location != Loc(file, 0) {
        place := Loc(file, 0);
      }
      frags := frags[ACEV := Signed(file, place, vis)];
      var conf := vis + 8 + SizeAt(file, vis);
      if conf + 4 > |file| {
        return Overread;
      }
      if Get32(file, conf) != VSC_FW_MAGIC {
        return Einval;
      }
      if conf + 8 > |file| {
        return Overread;
      }
      place := Align4K(frags[ACEV].location + frags[ACEV].size);
      if Loc(file, 1) != 0 && place != Loc(file, 1) {
        place := Loc(file, 1);
      }
      frags := frags[ACEC := Signed(file, place, conf)];
      return Accepted;
    }

    method ParseSkuCnfFw(file: seq<byte>) returns (v: Verdict)
      modifies this`frags
      ensures (View(), v) == ParseSku(old(View()), file)
    {
      if |file| <= 4 {
        return Einval;
      }
      var size := (Get32(file, 0) + 4) % 0x1_0000_0000;
      frags := frags[SKU_CONF := Fragment(SKU_CONFIG_LOC, file, 0, size)];
      if |file| != size || |file| > SKU_MAX_SIZE {
        return Einval;
      }
      return Accepted;
    }
  }
}
