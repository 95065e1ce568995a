/**
 The layout of the boot files, written down independently of the parsers, and the round trip:
 what is packed is exactly what the parsers recover, role by role and byte for byte.
 */
module VscLayout {
  import opened Bytes
  import opened VscParse

  type Image = b: seq<byte> | |b| < 0x1_0000_0000

  function Words(locs: seq<u32>): (s: seq<byte>)
    ensures |s| == 4 * |locs|
  {
    if locs == [] then [] else Le32(locs[0]) + Words(locs[1..])
  }

  function SignedImage(b: Image): (s: seq<byte>)
    ensures |s| == 8 + |b|
  {
    Le32(VSC_FW_MAGIC) + Le32(|b|) + b
  }

  function SignedImages(bodies: seq<Image>): seq<byte> {
    if bodies == [] then [] else SignedImage(bodies[0]) + SignedImages(bodies[1..])
  }

  /** A boot file: magic, option, image count, one location slot per image, then the signed images. */
  function PackFile(option: u32, locs: seq<u32>, bodies: seq<Image>): seq<byte>
    requires |locs| < 0x1_0000_0000
  {
    Le32(VSC_FILE_MAGIC) + Le32(option) + Le32(|locs|) + Words(locs) + SignedImages(bodies)
  }

  function PackSku(config: Image): seq<byte> {
    Le32(|config|) + config
  }

  /** Where the k-th header is when the first one is at `off`. */
  function Start(off: nat, bodies: seq<Image>, k: nat): nat
    requires k <= |bodies|
    decreases k
  {
    if k == 0 then off else Start(off + 8 + |bodies[0]|, bodies[1..], k - 1)
  }

  /** The signed images `bodies` stand one after the other in the file from `off` on. */
  ghost predicate Chain(file: seq<byte>, off: nat, bodies: seq<Image>)
    decreases |bodies|
  {
    bodies != [] ==>
      && Holds(file, off, SignedImage(bodies[0]))
      && Chain(file, off + 8 + |bodies[0]|, bodies[1..])
  }

  /** A well-formed file; bytes beyond its last image do not matter. */
  ghost predicate WellFormed(file: seq<byte>, option: u32, locs: seq<u32>, bodies: seq<Image>) {
    && |locs| < 0x1_0000_0000
    && HEADER_SIZE + 4 * |locs| <= |file|
    && Get32(file, 0) == VSC_FILE_MAGIC
    && Get32(file, 4) == option
    && Get32(file, 8) == |locs|
    && (forall k :: 0 <= k < |locs| ==> Loc(file, k) == locs[k])
    && Chain(file, HEADER_SIZE + 4 * |locs|, bodies)
  }

  lemma {:induction false} WordsAt(locs: seq<u32>, k: nat)
    requires k < |locs|
    ensures Holds(Words(locs), 4 * k, Le32(locs[k]))
  {
    var w, rest := Words(locs), Words(locs[1..]);
    if k == 0 {
      assert w[0..4] == Le32(locs[0]);
    } else {
      WordsAt(locs[1..], k - 1);
      assert w[4 * k..4 * k + 4] == rest[4 * (k - 1)..4 * (k - 1) + 4];
    }
  }

  lemma {:induction false} PackedChain(before: seq<byte>, bodies: seq<Image>, after: seq<byte>)
    ensures Chain(before + SignedImages(bodies) + after, |before|, bodies)
    decreases |bodies|
  {
    if bodies != [] {
      var s, rest := SignedImage(bodies[0]), SignedImages(bodies[1..]);
      var file := before + SignedImages(bodies) + after;
      assert file == (before + s) + rest + after;
      assert file[|before|..|before| + |s|] == s;
      PackedChain(before + s, bodies[1..], after);
    }
  }

  /** Packing gives a well-formed file. */
  lemma PackedIsWellFormed(option: u32, locs: seq<u32>, bodies: seq<Image>)
    requires |locs| < 0x1_0000_0000
    ensures WellFormed(PackFile(option, locs, bodies), option, locs, bodies)
  {
    hide Get32, Le32, Words, SignedImages, Chain;
    var file := PackFile(option, locs, bodies);
    var header := Le32(VSC_FILE_MAGIC) + Le32(option) + Le32(|locs|);
    assert file == header + (Words(locs) + SignedImages(bodies));
    ThreeWords(Le32(VSC_FILE_MAGIC), Le32(option), Le32(|locs|), Words(locs) + SignedImages(bodies));
    Get32Holds(file, 0, VSC_FILE_MAGIC);
    Get32Holds(file, 4, option);
    Get32Holds(file, 8, |locs|);
    forall k | 0 <= k < |locs|
      ensures Loc(file, k) == locs[k]
    {
      LocAt(header, locs, SignedImages(bodies), k);
    }
    PackedChain(header + Words(locs), bodies, []);
    assert header + Words(locs) + SignedImages(bodies) + [] == file;
  }

  lemma ThreeWords(a: seq<byte>, b: seq<byte>, c: seq<byte>, rest: seq<byte>)
    requires |a| == |b| == |c| == 4
    ensures var f := a + b + c + rest; f[0..4] == a && f[4..8] == b && f[8..12] == c
  {
  }

  lemma HoldsInside(file: seq<byte>, at: nat, w: seq<byte>, off: nat, m: seq<byte>)
    requires Holds(file, at, w) && Holds(w, off, m)
    ensures Holds(file, at + off, m)
  {
    SliceOfSlice(file, at, at + |w|, off, off + |m|);
  }

  lemma HoldsAfter(a: seq<byte>, b: seq<byte>, c: seq<byte>)
    ensures Holds(a + (b + c), |a|, b)
  {
  }

  lemma LocAt(header: seq<byte>, locs: seq<u32>, rest: seq<byte>, k: nat)
    requires |header| == HEADER_SIZE && k < |locs|
    ensures Loc(header + (Words(locs) + rest), k) == locs[k]
  {
    WordsAt(locs, k);
    hide Get32, Le32, Words, Holds;
    var file, off := header + (Words(locs) + rest), 4 * k;
    HoldsAfter(header, Words(locs), rest);
    HoldsInside(file, HEADER_SIZE, Words(locs), off, Le32(locs[k]));
    Get32Holds(file, HEADER_SIZE + off, locs[k]);
  }

  lemma SignedFields(file: seq<byte>, off: nat, b: Image)
    requires Holds(file, off, SignedImage(b))
    ensures off + 8 + |b| <= |file|
    ensures Get32(file, off) == VSC_FW_MAGIC && SizeAt(file, off) == |b|
    ensures file[off + 8..off + 8 + |b|] == b
  {
    hide Get32, Le32;
    var s := SignedImage(b);
    var h := file[off..off + |s|];
    assert s[0..4] == Le32(VSC_FW_MAGIC) && s[4..8] == Le32(|b|) && s[8..] == b;
    SliceOfSlice(file, off, off + |s|, 0, 4);
    SliceOfSlice(file, off, off + |s|, 4, 8);
    SliceOfSlice(file, off, off + |s|, 8, |s|);
    Get32Holds(file, off, VSC_FW_MAGIC);
    Get32Holds(file, off + 4, |b|);
  }

  /** The k-th image of a chain: its header, its body, and where the next header is. */
  lemma {:induction false} ChainAt(file: seq<byte>, off: nat, bodies: seq<Image>, k: nat)
    requires Chain(file, off, bodies) && k < |bodies|
    ensures var h := Start(off, bodies, k);
            && off <= h && h + 8 + |bodies[k]| <= |file|
            && Get32(file, h) == VSC_FW_MAGIC && SizeAt(file, h) == |bodies[k]|
            && file[h + 8..h + 8 + |bodies[k]|] == bodies[k]
            && Start(off, bodies, k + 1) == h + 8 + |bodies[k]|
    decreases k
  {
    hide Get32;
    SignedFields(file, off, bodies[0]);
    if k > 0 {
      ChainAt(file, off + 8 + |bodies[0]|, bodies[1..], k - 1);
    }
  }

  function Starts(off: nat, bodies: seq<Image>, n: nat): (s: seq<nat>)
    requires n <= |bodies|
    ensures |s| == n
  {
    seq(n, k requires 0 <= k < n => Start(off, bodies, k))
  }

  /** The headers after the first: those the main parser calls firmwares. */
  function LaterStarts(off: nat, bodies: seq<Image>): (s: seq<nat>)
    requires bodies != []
    ensures |s| == |bodies| - 1
  {
    seq(|bodies| - 1, k requires 0 <= k < |bodies| - 1 => Start(off, bodies, k + 1))
  }

  /** The parser's walk over a chain finds every header where it is. */
  lemma {:induction false} WalkFinds(file: seq<byte>, off: nat, bodies: seq<Image>, i: nat)
    requires Chain(file, off, bodies) && 1 <= i <= |bodies|
    ensures WalkFrom(file, Starts(off, bodies, i), |bodies|) == Headers(Starts(off, bodies, |bodies|))
    decreases |bodies| - i
  {
    hide Get32, SizeAt, Start;
    var at := Starts(off, bodies, i);
    assert at[i - 1] == Start(off, bodies, i - 1);
    ChainAt(file, off, bodies, i - 1);
    if i < |bodies| {
      ChainAt(file, off, bodies, i);
      WalkFinds(file, off, bodies, i + 1);
      assert at + [Start(off, bodies, i)] == Starts(off, bodies, i + 1);
    }
  }

  /** What a fragment recovers: the body, in the file's own order. */
  ghost predicate Recovers(f: Fragment, file: seq<byte>, off: nat, bodies: seq<Image>, k: nat)
    requires k < |bodies|
  {
    && f.file == file && f.start == Start(off, bodies, k) + 8 && f.size == |bodies[k]|
    && InBounds(f) && Body(f) == bodies[k]
  }

  lemma SignedRecovers(file: seq<byte>, off: nat, bodies: seq<Image>, k: nat, location: u32)
    requires Chain(file, off, bodies) && k < |bodies|
    ensures Start(off, bodies, k) + 8 <= |file|
    ensures Recovers(Signed(file, location, Start(off, bodies, k)), file, off, bodies, k)
  {
    hide Get32, SizeAt, Start, Chain;
    ChainAt(file, off, bodies, k);
  }

  /** Ranges recovered from one chain are disjoint and in file order. */
  lemma {:induction false} RecoveredInOrder(f: Fragment, g: Fragment, file: seq<byte>, off: nat, bodies: seq<Image>, j: nat, k: nat)
    requires Chain(file, off, bodies) && j < k < |bodies|
    requires Recovers(f, file, off, bodies, j) && Recovers(g, file, off, bodies, k)
    ensures f.start + f.size + 8 <= g.start
    decreases k - j
  {
    hide Get32;
    ChainAt(file, off, bodies, j);
    if j + 1 < k {
      SignedRecovers(file, off, bodies, j + 1, 0);
      RecoveredInOrder(Signed(file, 0, Start(off, bodies, j + 1)), g, file, off, bodies, j + 1, k);
    }
  }

  /** The role of the k-th image of a main file of `n`: boot loader first, EM7D last. */
  function Role(n: nat, k: nat): nat
    requires k < n && 3 <= n <= 6
  {
    if k == n - 1 then EM7D else [BOOT_IMAGE, ARC_SEM, ACER, ACEV, ACEC][k]
  }

  /** The slots that must not be zero. */
  ghost predicate LocationsGiven(locs: seq<u32>)
    requires |locs| >= 3
  {
    locs[0] != 0 && locs[1] != 0 && (|locs| >= 4 ==> locs[2] != 0) && locs[|locs| - 1] != 0
  }

  /** The security version the parser reads out of the boot loader's manifest. */
  function ManifestSvn(boot: Image): u32
    requires |boot| >= MANIFEST_BACK
  {
    Get32(boot, |boot| - MANIFEST_BACK)
  }

  /** This manifest, or an earlier file's, carries the highest security version. */
  predicate Highest(s: BootFw, boot: Image)
    requires |boot| >= MANIFEST_BACK
  {
    ManifestSvn(boot) == 0xFFFFFFFE || s.svn == 0xFFFFFFFE
  }

  /** Stepping A0 (0) takes the highest security version only, stepping A1 (2) any other. */
  predicate Suits(s: BootFw, boot: Image)
    requires |boot| >= MANIFEST_BACK
  {
    (s.subVer == 0 ==> Highest(s, boot)) && (s.subVer == 2 ==> !Highest(s, boot))
  }

  ghost predicate MainRecovered(frags: Table, file: seq<byte>, locs: seq<u32>, bodies: seq<Image>)
    requires 3 <= |locs| == |bodies| <= 6
  {
    var off := HEADER_SIZE + 4 * |locs|;
    && (forall k :: 0 <= k < |bodies| ==> Recovers(frags[Role(|bodies|, k)], file, off, bodies, k))
    && frags[BOOT_IMAGE].location == locs[0]
    && frags[ARC_SEM].location == locs[1]
    && frags[EM7D].location == locs[|locs| - 1]
    && (|locs| >= 4 ==> frags[ACER].location == locs[2])
    && (|locs| >= 5 ==> frags[ACEV].location == Place(frags[ACER], locs[3], locs[2]))
    && (|locs| >= 6 ==> frags[ACEC].location == PlaceConfig(frags[ACEV], locs[4]))
  }

  lemma StartsInFile(file: seq<byte>, off: nat, bodies: seq<Image>)
    requires Chain(file, off, bodies) && bodies != []
    ensures off + 8 <= |file|
    ensures forall k :: 0 <= k < |LaterStarts(off, bodies)| ==> LaterStarts(off, bodies)[k] + 8 <= |file|
  {
    SignedRecoversAll(file, off, bodies);
    StartZero(off, bodies);
    hide Start, Chain;
  }

  lemma FillRecovers(frags: Table, file: seq<byte>, option: u32, locs: seq<u32>, bodies: seq<Image>,
                     n: nat, off: nat, at: seq<nat>)
    requires 3 <= |locs| == |bodies| <= 6 && WellFormed(file, option, locs, bodies)
    requires n == |bodies| && off == HEADER_SIZE + 4 * n && off + 8 <= |file|
    requires |at| == n - 1 && (forall k :: 0 <= k < n - 1 ==> at[k] + 8 <= |file|)
    requires at == LaterStarts(off, bodies)
    ensures var (table, v) := FillMain(frags, file, n, off, at);
            && (v == Accepted <==> LocationsGiven(locs))
            && (v == Accepted ==> MainRecovered(table, file, locs, bodies))
  {
    hide Get32, SizeAt, Start, Chain, Place, PlaceConfig, Loc, Align4K, Signed, Recovers;
    SignedRecoversAll(file, off, bodies);
    assert Start(off, bodies, 0) == off by {
      StartZero(off, bodies);
    }
  }

  lemma StartZero(off: nat, bodies: seq<Image>)
    ensures Start(off, bodies, 0) == off
  {
  }

  lemma SignedRecoversAll(file: seq<byte>, off: nat, bodies: seq<Image>)
    requires Chain(file, off, bodies)
    ensures forall k :: 0 <= k < |bodies| ==> Start(off, bodies, k) + 8 <= |file|
    ensures forall k, location :: 0 <= k < |bodies| ==>
              Recovers(Signed(file, location, Start(off, bodies, k)), file, off, bodies, k)
              && Signed(file, location, Start(off, bodies, k)).location == location
  {
    hide Get32, SizeAt, Start, Chain, Recovers;
    forall k | 0 <= k < |bodies|
      ensures Start(off, bodies, k) + 8 <= |file|
    {
      SignedRecovers(file, off, bodies, k, 0);
    }
    forall k, location: u32 | 0 <= k < |bodies|
      ensures Start(off, bodies, k) + 8 <= |file| && Recovers(Signed(file, location, Start(off, bodies, k)), file, off, bodies, k)
    {
      SignedRecovers(file, off, bodies, k, location);
    }
  }

  /**
   The main file, whole: a well-formed file is accepted exactly when stepping A0 has the highest security
   version, from this manifest or one before, or stepping A1 does not, and the slots that matter are
   given; and then each role's fragment is its image, and nothing else moves.
   */
  lemma MainRoundTrip(s: BootFw, file: seq<byte>, option: u32, locs: seq<u32>, bodies: seq<Image>)
    requires WellFormed(file, option, locs, bodies) && 3 <= |locs| == |bodies| <= 6
    requires |bodies[0]| >= MANIFEST_BACK
    ensures var (s', v) := ParseMain(s, file);
            && (v == Accepted <==> Suits(s, bodies[0]) && LocationsGiven(locs))
            && (v == Accepted ==>
                  && MainRecovered(s'.frags, file, locs, bodies)
                  && s'.frags[SKU_CONF] == s.frags[SKU_CONF]
                  && s'.fwOption == option % 0x1_0000 && s'.fwCnt == |bodies| - 1
                  && s'.svn == if Highest(s, bodies[0]) then MAX_SVN_VALUE else if s.svn == 0 then ManifestSvn(bodies[0]) else s.svn)
  {
    hide Get32, SizeAt, Start, Chain, FillMain, MainRecovered, WalkFrom, LocationsGiven;
    var n, off := |bodies|, HEADER_SIZE + 4 * |locs|;
    StartZero(off, bodies);
    ChainAt(file, off, bodies, 0);
    ManifestRead(file, off, bodies[0]);
    var first := off + 8 + |bodies[0]|;
    ChainTail(file, off, bodies);
    WalkFinds(file, first, bodies[1..], 1);
    var at := LaterStarts(off, bodies);
    assert Starts(first, bodies[1..], n - 1) == at && Starts(first, bodies[1..], 1) == [first] by {
      StartsShift(off, bodies);
      StartZero(first, bodies[1..]);
    }
    StartsInFile(file, off, bodies);
    FillRecovers(s.frags, file, option, locs, bodies, n, off, at);
    FillKeepsSku(s.frags, file, n, off, at);
  }

  // Any file at all.

  /** Headers that lie in the file, each right behind the image before it, all but the first with the magic. */
  ghost predicate Linked(file: seq<byte>, at: seq<nat>) {
    && (forall k :: 0 <= k < |at| ==> at[k] + 8 <= |file|)
    && (forall k :: 1 <= k < |at| ==> at[k] == at[k - 1] + 8 + SizeAt(file, at[k - 1]) && Get32(file, at[k]) == VSC_FW_MAGIC)
  }

  lemma LinkedSnoc(file: seq<byte>, at: seq<nat>, next: nat)
    requires at != [] && Linked(file, at)
    requires next == at[|at| - 1] + 8 + SizeAt(file, at[|at| - 1]) && next + 4 <= |file| && Get32(file, next) == VSC_FW_MAGIC
    ensures next + 8 <= |file| ==> Linked(file, at + [next])
  {
    hide Get32, SizeAt;
  }

  lemma {:induction false} WalkIsLinked(file: seq<byte>, at: seq<nat>, n: nat)
    requires 1 <= |at| <= n && (at[|at| - 1] + 8 <= |file| ==> Linked(file, at))
    ensures var w := WalkFrom(file, at, n); w.Headers? ==> Linked(file, w.at) && |w.at| == n && at <= w.at
    decreases n - |at|
  {
    hide Get32, SizeAt;
    var last := at[|at| - 1];
    if last + 8 <= |file| && |at| < n {
      var next := last + 8 + SizeAt(file, last);
      if next + 4 <= |file| && Get32(file, next) == VSC_FW_MAGIC {
        LinkedSnoc(file, at, next);
        WalkIsLinked(file, at + [next], n);
      }
    }
  }

  lemma {:induction false} LinkedIsWalked(file: seq<byte>, at: seq<nat>, i: nat)
    requires 1 <= i <= |at| && Linked(file, at)
    ensures WalkFrom(file, at[..i], |at|) == Headers(at)
    decreases |at| - i
  {
    hide Get32, SizeAt;
    if i == |at| {
      assert at[..i] == at;
    } else {
      assert at[..i] + [at[i]] == at[..i + 1];
      LinkedIsWalked(file, at, i + 1);
    }
  }

  /** What a main file of `n` images must be like, its first image's header at `boot` and the next one's at `next`. */
  ghost predicate MainFits(s: BootFw, file: seq<byte>, n: nat, at: seq<nat>)
    requires |at| == n - 1 && 3 <= n <= 6
  {
    var boot := HEADER_SIZE + 4 * n;
    && boot + 8 <= |file| && Get32(file, boot) == VSC_FW_MAGIC
    && at[0] == boot + 8 + SizeAt(file, boot) && Linked(file, at)
    && at[0] >= MANIFEST_BACK
    && (var highest := s.svn == 0xFFFFFFFE || Get32(file, at[0] - MANIFEST_BACK) == 0xFFFFFFFE;
        (s.subVer == 0 ==> highest) && (s.subVer == 2 ==> !highest))
    && Loc(file, 0) != 0 && Loc(file, 1) != 0 && (n >= 4 ==> Loc(file, 2) != 0) && Loc(file, n - 1) != 0
  }

  /**
   Acceptance of a main file, whatever its bytes: its magic, three to six images, headers that chain through
   the file with the magic at all but the second, a manifest that suits the silicon, and the slots that matter.
   */
  lemma MainAcceptedExactly(s: BootFw, file: seq<byte>)
    ensures ParseMain(s, file).1 == Accepted <==>
              && |file| >= HEADER_SIZE && Get32(file, 0) == VSC_FILE_MAGIC && 3 <= Get32(file, 8) <= 6
              && exists at: seq<nat> :: |at| == Get32(file, 8) - 1 && MainFits(s, file, Get32(file, 8), at)
  {
    hide ParseMain, MainFits, Get32;
    if ParseMain(s, file).1 == Accepted {
      AcceptedFits(s, file);
    }
    forall at: seq<nat> | |file| >= HEADER_SIZE && Get32(file, 0) == VSC_FILE_MAGIC && 3 <= Get32(file, 8) <= 6
                          && |at| == Get32(file, 8) - 1 && MainFits(s, file, Get32(file, 8), at)
      ensures ParseMain(s, file).1 == Accepted
    {
      FitsAccepted(s, file, at);
    }
  }

  lemma AcceptedFits(s: BootFw, file: seq<byte>)
    requires ParseMain(s, file).1 == Accepted
    ensures |file| >= HEADER_SIZE && Get32(file, 0) == VSC_FILE_MAGIC && 3 <= Get32(file, 8) <= 6
    ensures exists at: seq<nat> :: |at| == Get32(file, 8) - 1 && MainFits(s, file, Get32(file, 8), at)
  {
    hide Get32, SizeAt, WalkFrom, FillMain, Loc, Linked;
    var n := Get32(file, 8);
    var boot := HEADER_SIZE + 4 * n;
    var first := boot + 8 + SizeAt(file, boot);
    WalkIsLinked(file, [first], n - 1) by {
      assert first + 8 <= |file| ==> Linked(file, [first]) by { OneLinked(file, first); }
    }
    var at := WalkFrom(file, [first], n - 1).at;
    FillAccepts(s.frags, file, n, boot, at);
    assert MainFits(s, file, n, at);
  }

  lemma OneLinked(file: seq<byte>, first: nat)
    requires first + 8 <= |file|
    ensures Linked(file, [first])
  {
  }

  lemma FitsAccepted(s: BootFw, file: seq<byte>, at: seq<nat>)
    requires |file| >= HEADER_SIZE && Get32(file, 0) == VSC_FILE_MAGIC && 3 <= Get32(file, 8) <= 6
    requires |at| == Get32(file, 8) - 1 && MainFits(s, file, Get32(file, 8), at)
    ensures ParseMain(s, file).1 == Accepted
  {
    hide Get32, SizeAt, WalkFrom, FillMain, Loc;
    var n := Get32(file, 8);
    LinkedIsWalked(file, at, 1);
    assert at[..1] == [at[0]];
    FillAccepts(s.frags, file, n, HEADER_SIZE + 4 * n, at);
  }

  /** What a file whose header is wrong comes to: a rejection before anything is stored. */
  lemma HeaderRejected(s: BootFw, file: seq<byte>)
    requires |file| >= 4 && (|file| >= HEADER_SIZE || Get32(file, 0) != VSC_FILE_MAGIC)
    ensures Get32(file, 0) != VSC_FILE_MAGIC ==> ParseMain(s, file) == (s, Einval) && ParseSensor(s, file) == (s, Einval)
    ensures Get32(file, 0) == VSC_FILE_MAGIC && !(3 <= Get32(file, 8) <= 6) ==> ParseMain(s, file) == (s, Einval)
    ensures Get32(file, 0) == VSC_FILE_MAGIC && !(2 <= Get32(file, 8) <= 6) ==> ParseSensor(s, file) == (s, Einval)
    ensures Get32(file, 0) == VSC_FILE_MAGIC && 3 <= Get32(file, 8) <= 6 ==>
              var boot := HEADER_SIZE + 4 * Get32(file, 8);
              boot > |file| || (boot + 4 <= |file| && Get32(file, boot) != VSC_FW_MAGIC) ==>
                && ParseMain(s, file).1 == Einval && ParseMain(s, file).0.frags == s.frags
                && ParseMain(s, file).0.fwCnt == Get32(file, 8) - 1 && ParseMain(s, file).0.fwOption == Get32(file, 4) % 0x1_0000
  {
    hide Get32, SizeAt, Place, PlaceConfig, FillMain, WalkFrom, SvnMatches, NextSvn;
  }

  lemma {:induction false} WalkStops(file: seq<byte>, at: seq<nat>, i: nat, n: nat)
    requires 1 <= i <= |at| < n && Linked(file, at) && Breaks(file, at)
    ensures WalkFrom(file, at[..i], n) == WalkStop(Einval)
    decreases |at| - i
  {
    hide Get32, SizeAt;
    if i == |at| {
      assert at[..i] == at;
    } else {
      assert at[..i] + [at[i]] == at[..i + 1];
      WalkStops(file, at, i + 1, n);
    }
  }

  /** Behind the last of these headers' images the file is over, by a byte at least, or holds four bytes that are not the magic. */
  ghost predicate Breaks(file: seq<byte>, at: seq<nat>)
    requires at != [] && Linked(file, at)
  {
    var last := at[|at| - 1];
    var next := last + 8 + SizeAt(file, last);
    next > |file| || (next + 4 <= |file| && Get32(file, next) != VSC_FW_MAGIC)
  }

  /** A chain that breaks off before the file's count is a rejection, and the table keeps what it held. */
  lemma BrokenChainRejected(s: BootFw, file: seq<byte>, at: seq<nat>)
    requires |file| >= HEADER_SIZE && Get32(file, 0) == VSC_FILE_MAGIC && 3 <= Get32(file, 8) <= 6
    requires 1 <= |at| < Get32(file, 8) - 1 && Linked(file, at) && Breaks(file, at)
    requires var boot := HEADER_SIZE + 4 * Get32(file, 8);
             && boot + 8 <= |file| && Get32(file, boot) == VSC_FW_MAGIC
             && at[0] == boot + 8 + SizeAt(file, boot) && at[0] >= MANIFEST_BACK
    ensures ParseMain(s, file).1 == Einval && ParseMain(s, file).0.frags == s.frags
  {
    hide Get32, SizeAt, WalkFrom, FillMain;
    WalkStops(file, at, 1, Get32(file, 8) - 1);
    assert at[..1] == [at[0]];
  }

  lemma FillAccepts(frags: Table, file: seq<byte>, n: nat, boot: nat, at: seq<nat>)
    requires 3 <= n <= 6 && boot == HEADER_SIZE + 4 * n && boot + 8 <= |file|
    requires |at| == n - 1 && forall k :: 0 <= k < n - 1 ==> at[k] + 8 <= |file|
    ensures FillMain(frags, file, n, boot, at).1 == Accepted <==>
              Loc(file, 0) != 0 && Loc(file, 1) != 0 && (n >= 4 ==> Loc(file, 2) != 0) && Loc(file, n - 1) != 0
  {
    hide Get32, SizeAt, Loc, Signed, Place, PlaceConfig;
  }

  /** The same for a sensor file: both headers carry the magic, and the images make at most six with those before, in 32 bits. */
  lemma SensorAcceptedExactly(s: BootFw, file: seq<byte>)
    ensures ParseSensor(s, file).1 == Accepted <==>
              && |file| >= HEADER_SIZE && Get32(file, 0) == VSC_FILE_MAGIC && 2 <= Get32(file, 8) <= 6
              && (s.fwCnt + Get32(file, 8)) % 0x1_0000_0000 <= 6
              && exists vis, conf :: SensorFits(file, vis, conf)
  {
    hide Get32, SizeAt, Signed, Place, PlaceConfig, Loc;
    if ParseSensor(s, file).1 == Accepted {
      var vis := HEADER_SIZE + 4 * Get32(file, 8);
      assert SensorFits(file, vis, vis + 8 + SizeAt(file, vis));
    }
  }

  ghost predicate SensorFits(file: seq<byte>, vis: nat, conf: nat)
    requires |file| >= HEADER_SIZE
  {
    && vis == HEADER_SIZE + 4 * Get32(file, 8) && vis + 8 <= |file| && Get32(file, vis) == VSC_FW_MAGIC
    && conf == vis + 8 + SizeAt(file, vis) && conf + 8 <= |file| && Get32(file, conf) == VSC_FW_MAGIC
  }

  lemma ManifestRead(file: seq<byte>, off: nat, boot: Image)
    requires off + 8 + |boot| <= |file| && file[off + 8..off + 8 + |boot|] == boot && |boot| >= MANIFEST_BACK
    ensures Get32(file, off + 8 + |boot| - MANIFEST_BACK) == ManifestSvn(boot)
  {
    var at := |boot| - MANIFEST_BACK;
    assert forall j :: at <= j < at + 4 ==> boot[j] == file[off + 8..off + 8 + |boot|][j];
  }

  lemma ChainTail(file: seq<byte>, off: nat, bodies: seq<Image>)
    requires Chain(file, off, bodies) && bodies != []
    ensures Chain(file, off + 8 + |bodies[0]|, bodies[1..])
  {
  }

  lemma StartsShift(off: nat, bodies: seq<Image>)
    requires bodies != []
    ensures Starts(off + 8 + |bodies[0]|, bodies[1..], |bodies| - 1) == LaterStarts(off, bodies)
  {
  }

  lemma FillKeepsSku(frags: Table, file: seq<byte>, n: nat, boot: nat, at: seq<nat>)
    requires 3 <= n <= 6 && boot == HEADER_SIZE + 4 * n && boot + 8 <= |file|
    requires |at| == n - 1 && forall k :: 0 <= k < n - 1 ==> at[k] + 8 <= |file|
    ensures FillMain(frags, file, n, boot, at).0[SKU_CONF] == frags[SKU_CONF]
  {
    hide Get32, SizeAt, Loc, Signed, Place, PlaceConfig;
  }

  /** The sensor file: accepted whenever it is well formed and the image count stays within six, whatever its slots. */
  lemma SensorRoundTrip(s: BootFw, file: seq<byte>, option: u32, locs: seq<u32>, bodies: seq<Image>)
    requires WellFormed(file, option, locs, bodies) && 2 <= |locs| <= 6 && |bodies| >= 2
    requires s.fwCnt <= IMG_CNT_MAX
    ensures var (s', v) := ParseSensor(s, file);
            var off := HEADER_SIZE + 4 * |locs|;
            && (v == Accepted <==> s.fwCnt + |locs| <= IMG_CNT_MAX)
            && (v == Accepted ==>
                  && Recovers(s'.frags[ACEV], file, off, bodies, 0)
                  && Recovers(s'.frags[ACEC], file, off, bodies, 1)
                  && s'.frags[ACEV].location == Place(s.frags[ACER], locs[0], s.frags[ACER].location)
                  && s'.frags[ACEC].location == PlaceConfig(s'.frags[ACEV], locs[1])
                  && s' == s.(fwCnt := s.fwCnt + |locs|,
                              frags := s.frags[ACEV := s'.frags[ACEV]][ACEC := s'.frags[ACEC]]))
  {
    hide Get32, SizeAt, Start, Chain, Recovers, Place, PlaceConfig;
    var off := HEADER_SIZE + 4 * |locs|;
    StartZero(off, bodies);
    ChainAt(file, off, bodies, 0);
    ChainAt(file, off, bodies, 1);
    StartOne(off, bodies);
    SignedRecovers(file, off, bodies, 0, Place(s.frags[ACER], locs[0], s.frags[ACER].location));
    var v := Signed(file, Place(s.frags[ACER], locs[0], s.frags[ACER].location), off);
    SignedRecovers(file, off, bodies, 1, PlaceConfig(v, locs[1]));
  }

  lemma StartOne(off: nat, bodies: seq<Image>)
    requires bodies != []
    ensures Start(off, bodies, 1) == off + 8 + |bodies[0]|
  {
  }

  /** The SKU file round trip; a configuration of 1 to 4096 bytes is what the size limit admits. */
  lemma SkuRoundTrip(s: BootFw, config: Image)
    ensures ParseSku(s, PackSku(config)).1 == Accepted <==> 1 <= |config| <= SKU_MAX_SIZE - 4
    ensures 1 <= |config| <= SKU_MAX_SIZE - 4 ==>
              var f := ParseSku(s, PackSku(config)).0.frags[SKU_CONF];
              InBounds(f) && Body(f) == PackSku(config) && f.location == SKU_CONFIG_LOC
  {
    hide Get32, Le32;
    var file := PackSku(config);
    assert file[0..4] == Le32(|config|);
    Get32Holds(file, 0, |config|);
    SkuAccepted(s, file);
  }

  // Placement.

  /**
   With a zero slot, or one that is what it is compared with, an image goes to the least 4 KiB boundary not
   below the previous fragment's end, and to its slot otherwise; the configuration image to any slot given.
   */
  lemma PlacementLeast(prev: Fragment, slot: u32, compared: u32)
    requires prev.location + prev.size + 0xFFF < 0x1_0000_0000
    ensures slot == 0 || slot == compared ==>
              var p := Place(prev, slot, compared);
              && p % 0x1000 == 0 && prev.location + prev.size <= p
              && forall q: int :: q % 0x1000 == 0 && prev.location + prev.size <= q ==> p <= q
    ensures slot != 0 && slot != compared ==> Place(prev, slot, compared) == slot
    ensures PlaceConfig(prev, slot) == if slot != 0 then slot else Place(prev, 0, compared)
  {
    var x := prev.location + prev.size;
    var p := Align4K(x);
    assert p == x + 0xFFF - (x + 0xFFF) % 0x1000;
    forall q: int | q % 0x1000 == 0 && x <= q
      ensures p <= q
    {
      assert p / 0x1000 == (x + 0xFFF) / 0x1000;
      assert q == 0x1000 * (q / 0x1000) && p == 0x1000 * (p / 0x1000);
    }
  }

  /** Exactly when the 32-bit sum does not wrap is the computed place at or after the previous end. */
  lemma PlacementWraps(prev: Fragment)
    ensures prev.location + prev.size <= Align4K(prev.location + prev.size) <==>
            (prev.location + prev.size + 0xFFF < 0x1_0000_0000 || prev.location + prev.size == 0)
  {
  }

  const IMG_MAX_LOC := 0x50FFFFFF
  const FW_MAX_SIZE := 0x200000

  /**
   Target ranges: with both slots zero and the header's bounds on location and sizes, ACER, ACEV and
   ACEC are placed in increasing order and do not overlap, and no 32-bit sum wraps.
   */
  lemma PlacementDisjoint(acer: Fragment, acev: Fragment, acec: Fragment)
    requires acer.location <= IMG_MAX_LOC
    requires acer.size <= FW_MAX_SIZE && acev.size <= FW_MAX_SIZE && acec.size <= FW_MAX_SIZE
    requires acev.location == Place(acer, 0, acer.location)
    requires acec.location == PlaceConfig(acev, 0)
    ensures acer.location + acer.size <= acev.location < acer.location + acer.size + 0x1000
    ensures acev.location + acev.size <= acec.location < acev.location + acev.size + 0x1000
    ensures acec.location + acec.size < 0x1_0000_0000
  {
  }
}
