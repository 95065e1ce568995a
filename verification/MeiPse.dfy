/** The power data of the engine: a record reassembled from notifications, and the percentages printed from it. */
module MeiPse {
  import opened Bytes

  const DUMP_POWER_DATA: u32 := 7
  const NOTIF_HEADER_LEN := 8
  const MAX_RECV_SIZE := 8192
  const STATE_MAX := 4

  // struct pm_data: two subsystems of a total, four states of 48 bytes, 64 devices of 36 and their count, a check value
  const PM_DATA_SIZE := 2 * (8 + STATE_MAX * (16 + 4 * 8) + (64 * (32 + 4) + 4) + 2)

  /** `completions` counts calls of complete(); `overrun` records a copy outside the buffers. */
  datatype Pse = Pse(recv: seq<byte>, pmData: seq<byte>, pos: nat, header: seq<byte>, done: nat, completions: nat, overrun: bool)

  predicate Sized(p: Pse) {
    |p.recv| == |p.pmData| == MAX_RECV_SIZE && |p.header| == NOTIF_HEADER_LEN && p.pos < PM_DATA_SIZE
  }

  function Completed(p: Pse): Pse
    requires Sized(p.(pos := 0))
  {
    var q := p.(pos := 0, header := p.recv[..NOTIF_HEADER_LEN]);
    if q.done == 0 then q.(done := 1, completions := q.completions + 1) else q
  }

  /** mei_pse_rx for a power-data notification of which `msg` has just been received. */
  function DumpRx(p: Pse, msg: seq<byte>): (q: Pse)
    requires Sized(p) && |msg| <= MAX_RECV_SIZE
    ensures Sized(q)
  {
    var p1 := p.(recv := msg + p.recv[|msg|..]);
    if p1.recv[4] == 0 then
      var n := |msg| - NOTIF_HEADER_LEN;
      if n < 0 || p1.pos + n > MAX_RECV_SIZE then p1.(overrun := true)
      else
        var p2 := p1.(pmData := Splice(p1.pmData, p1.pos, msg[NOTIF_HEADER_LEN..]), pos := p1.pos + n);
        if p2.pos >= PM_DATA_SIZE then Completed(p2) else p2
    else Completed(p1)
  }

  function DumpAll(p: Pse, msgs: seq<seq<byte>>): (q: Pse)
    requires Sized(p) && forall k :: 0 <= k < |msgs| ==> |msgs[k]| <= MAX_RECV_SIZE
    ensures Sized(q)
    decreases |msgs|
  {
    if msgs == [] then p else DumpAll(DumpRx(p, msgs[0]), msgs[1..])
  }

  /** A notification: command, status, source, size, then the piece it carries. */
  function Notice(status: byte, source: byte, size: u16, piece: seq<byte>): (m: seq<byte>)
    ensures |m| == NOTIF_HEADER_LEN + |piece| && m[4] == status && m[NOTIF_HEADER_LEN..] == piece
  {
    Le32(DUMP_POWER_DATA) + [status, source] + Le16(size) + piece
  }

  /** A message that carries a piece of a record without error. */
  predicate Carries(msg: seq<byte>, piece: seq<byte>) {
    NOTIF_HEADER_LEN <= |msg| <= MAX_RECV_SIZE && msg[4] == 0 && msg[NOTIF_HEADER_LEN..] == piece
  }

  predicate AllCarry(msgs: seq<seq<byte>>, pieces: seq<seq<byte>>) {
    |msgs| == |pieces| && forall k :: 0 <= k < |msgs| ==> Carries(msgs[k], pieces[k])
  }

  function Joined(pieces: seq<seq<byte>>): seq<byte> {
    if pieces == [] then [] else pieces[0] + Joined(pieces[1..])
  }

  lemma OnePiece(p: Pse, msg: seq<byte>, piece: seq<byte>)
    requires Sized(p) && Carries(msg, piece) && p.pos + |piece| <= MAX_RECV_SIZE
    ensures var q := DumpRx(p, msg);
            && q.pmData[..p.pos + |piece|] == p.pmData[..p.pos] + piece
            && q.overrun == p.overrun
            && if p.pos + |piece| >= PM_DATA_SIZE then
                 q.pos == 0 && q.done == (if p.done == 0 then 1 else p.done) && q.completions == p.completions + (if p.done == 0 then 1 else 0)
                 && q.header == msg[..NOTIF_HEADER_LEN]
               else q.pos == p.pos + |piece| && q.done == p.done && q.completions == p.completions
  {
    SplicePrefix(p.pmData, p.pos, piece);
    assert (msg + p.recv[|msg|..])[4] == msg[4];
    assert (msg + p.recv[|msg|..])[..NOTIF_HEADER_LEN] == msg[..NOTIF_HEADER_LEN];
    hide Splice;
  }

  predicate NonEmpty(pieces: seq<seq<byte>>) {
    forall k :: 0 <= k < |pieces| ==> pieces[k] != []
  }

  lemma CarriedFit(msgs: seq<seq<byte>>, pieces: seq<seq<byte>>)
    requires AllCarry(msgs, pieces)
    ensures forall k :: 0 <= k < |msgs| ==> |msgs[k]| <= MAX_RECV_SIZE
  {
  }

  /** Taking the first piece off. */
  lemma Rest(msgs: seq<seq<byte>>, pieces: seq<seq<byte>>)
    requires AllCarry(msgs, pieces) && NonEmpty(pieces) && pieces != []
    ensures Carries(msgs[0], pieces[0]) && AllCarry(msgs[1..], pieces[1..]) && NonEmpty(pieces[1..])
    ensures Joined(pieces) == pieces[0] + Joined(pieces[1..]) && |pieces[0]| > 0
    ensures pieces[1..] != [] ==> |Joined(pieces[1..])| > 0
  {
    hide Carries;
    var ms, ps := msgs[1..], pieces[1..];
    assert forall k :: 0 <= k < |ps| ==> ps[k] == pieces[k + 1] && ms[k] == msgs[k + 1];
  }

  lemma {:induction false} RecordEnds(p: Pse, msgs: seq<seq<byte>>, pieces: seq<seq<byte>>)
    requires Sized(p) && p.done == 0 && pieces != [] && AllCarry(msgs, pieces) && NonEmpty(pieces)
    requires p.pos + |Joined(pieces)| == PM_DATA_SIZE
    ensures forall k :: 0 <= k < |msgs| ==> |msgs[k]| <= MAX_RECV_SIZE
    ensures var q := DumpAll(p, msgs);
            && q.pmData[..PM_DATA_SIZE] == p.pmData[..p.pos] + Joined(pieces)
            && q.pos == 0 && q.done == 1 && q.completions == p.completions + 1 && q.overrun == p.overrun
    decreases |msgs|
  {
    CarriedFit(msgs, pieces);
    Rest(msgs, pieces);
    OnePiece(p, msgs[0], pieces[0]);
    CarriedFit(msgs[1..], pieces[1..]);
    var q := DumpRx(p, msgs[0]);
    var had, piece, rest := p.pmData[..p.pos], pieces[0], Joined(pieces[1..]);
    assert DumpAll(p, msgs) == DumpAll(q, msgs[1..]);
    if |pieces| == 1 {
      assert msgs[1..] == [] && pieces[1..] == [];
      assert DumpAll(q, msgs[1..]) == q;
      hide Carries, Completed, AllCarry, NonEmpty, Joined, DumpRx, DumpAll;
      assert rest == [] by { NothingJoined(); }
      assert piece + rest == piece;
    } else {
      hide Carries, Completed, AllCarry, NonEmpty, Joined, DumpRx, DumpAll;
      RecordEnds(q, msgs[1..], pieces[1..]);
      Regroup(had, piece, rest);
    }
  }

  lemma Regroup(a: seq<byte>, b: seq<byte>, c: seq<byte>)
    ensures a + b + c == a + (b + c)
  {
  }

  lemma NothingJoined()
    ensures Joined([]) == []
  {
  }

  lemma {:induction false} QuietBefore(p: Pse, msgs: seq<seq<byte>>, pieces: seq<seq<byte>>, n: nat)
    requires Sized(p) && p.done == 0 && AllCarry(msgs, pieces) && NonEmpty(pieces)
    requires p.pos + |Joined(pieces)| == PM_DATA_SIZE && n < |msgs|
    ensures forall k :: 0 <= k < n ==> |msgs[..n][k]| <= MAX_RECV_SIZE
    ensures DumpAll(p, msgs[..n]).completions == p.completions && DumpAll(p, msgs[..n]).done == 0
    decreases n
  {
    CarriedFit(msgs, pieces);
    if n > 0 {
      Rest(msgs, pieces);
      OnePiece(p, msgs[0], pieces[0]);
      hide Carries, Completed, AllCarry, NonEmpty, Joined, DumpRx;
      assert msgs[..n][0] == msgs[0] && msgs[..n][1..] == msgs[1..][..n - 1];
      QuietBefore(DumpRx(p, msgs[0]), msgs[1..], pieces[1..], n - 1);
    }
  }

  /**
   Reassembly: from position zero, whatever the buffer held before, a record cut into any non-empty
   pieces ends in place, byte for byte, with the position back at zero and exactly one completion,
   made by the last piece and by none before.
   */
  lemma Reassembled(p: Pse, msgs: seq<seq<byte>>, pieces: seq<seq<byte>>)
    requires Sized(p) && p.done == 0 && p.pos == 0 && AllCarry(msgs, pieces) && NonEmpty(pieces)
    requires |Joined(pieces)| == PM_DATA_SIZE
    ensures forall k :: 0 <= k < |msgs| ==> |msgs[k]| <= MAX_RECV_SIZE
    ensures var q := DumpAll(p, msgs);
            && q.pmData[..PM_DATA_SIZE] == Joined(pieces)
            && q.pos == 0 && q.done == 1 && q.completions == p.completions + 1 && q.overrun == p.overrun
    ensures forall n :: 0 <= n < |msgs| ==> DumpAll(p, msgs[..n]).completions == p.completions && DumpAll(p, msgs[..n]).done == 0
  {
    CarriedFit(msgs, pieces);
    NothingJoined();
    hide AllCarry, NonEmpty, Joined, DumpAll;
    RecordEnds(p, msgs, pieces);
    forall n | 0 <= n < |msgs|
      ensures DumpAll(p, msgs[..n]).completions == p.completions && DumpAll(p, msgs[..n]).done == 0
    {
      QuietBefore(p, msgs, pieces, n);
    }
  }

  /** An error notification completes the command and gives up what has been gathered. */
  lemma ErrorStartsAfresh(p: Pse, msg: seq<byte>)
    requires Sized(p) && NOTIF_HEADER_LEN <= |msg| <= MAX_RECV_SIZE && msg[4] != 0
    ensures var q := DumpRx(p, msg);
            && q.pos == 0 && q.pmData == p.pmData && q.header == msg[..NOTIF_HEADER_LEN]
            && q.done == (if p.done == 0 then 1 else p.done) && q.overrun == p.overrun
  {
    assert (msg + p.recv[|msg|..])[4] == msg[4];
    assert (msg + p.recv[|msg|..])[..NOTIF_HEADER_LEN] == msg[..NOTIF_HEADER_LEN];
  }

  /** Part of a record leaves its length behind as the position, and completes nothing. */
  lemma {:induction false} Partway(p: Pse, msgs: seq<seq<byte>>, pieces: seq<seq<byte>>)
    requires Sized(p) && AllCarry(msgs, pieces) && NonEmpty(pieces) && p.pos + |Joined(pieces)| < PM_DATA_SIZE
    ensures forall k :: 0 <= k < |msgs| ==> |msgs[k]| <= MAX_RECV_SIZE
    ensures var q := DumpAll(p, msgs);
            && q.pmData[..q.pos] == p.pmData[..p.pos] + Joined(pieces)
            && q.pos == p.pos + |Joined(pieces)| && q.done == p.done && q.completions == p.completions && q.overrun == p.overrun
    decreases |msgs|
  {
    CarriedFit(msgs, pieces);
    if pieces == [] {
      assert p.pmData[..p.pos] + Joined(pieces) == p.pmData[..p.pos];
    } else {
      Rest(msgs, pieces);
      OnePiece(p, msgs[0], pieces[0]);
      CarriedFit(msgs[1..], pieces[1..]);
      var had, piece, rest := p.pmData[..p.pos], pieces[0], Joined(pieces[1..]);
      assert DumpAll(p, msgs) == DumpAll(DumpRx(p, msgs[0]), msgs[1..]);
      hide Carries, Completed, AllCarry, NonEmpty, Joined, DumpRx, DumpAll;
      Partway(DumpRx(p, msgs[0]), msgs[1..], pieces[1..]);
      Regroup(had, piece, rest);
    }
  }

  /** mei_pse_send before it sends: only the completion is reset, never the position. */
  function Rearmed(p: Pse): Pse {
    p.(done := 0)
  }

  /** What has arrived when the command is completed, or all of it. */
  function UntilDone(p: Pse, msgs: seq<seq<byte>>): (q: Pse)
    requires Sized(p) && forall k :: 0 <= k < |msgs| ==> |msgs[k]| <= MAX_RECV_SIZE
    ensures Sized(q)
    decreases |msgs|
  {
    if msgs == [] || p.done > 0 then p else UntilDone(DumpRx(p, msgs[0]), msgs[1..])
  }

  lemma {:induction false} OverrunStays(p: Pse, msgs: seq<seq<byte>>)
    requires Sized(p) && (forall k :: 0 <= k < |msgs| ==> |msgs[k]| <= MAX_RECV_SIZE) && p.overrun
    ensures UntilDone(p, msgs).overrun
    decreases |msgs|
  {
    if msgs != [] && p.done == 0 {
      hide Splice;
      OverrunStays(DumpRx(p, msgs[0]), msgs[1..]);
    }
  }

  /**
   From any position, a record cut into any pieces: the command is completed once a record's length is
   there, and then the buffer holds what it held up to the position, followed by what fits of the record.
   */
  lemma {:induction false} FilledUp(p: Pse, msgs: seq<seq<byte>>, pieces: seq<seq<byte>>)
    requires Sized(p) && p.done == 0 && AllCarry(msgs, pieces) && NonEmpty(pieces) && p.pos + |Joined(pieces)| >= PM_DATA_SIZE
    ensures forall k :: 0 <= k < |msgs| ==> |msgs[k]| <= MAX_RECV_SIZE
    ensures var q := UntilDone(p, msgs);
            q.overrun
            || (q.done == 1 && q.pos == 0 && q.pmData[..PM_DATA_SIZE] == p.pmData[..p.pos] + Joined(pieces)[..PM_DATA_SIZE - p.pos])
    decreases |msgs|
  {
    CarriedFit(msgs, pieces);
    assert pieces != [];
    Rest(msgs, pieces);
    CarriedFit(msgs[1..], pieces[1..]);
    var had, piece, rest := p.pmData[..p.pos], pieces[0], Joined(pieces[1..]);
    var q := DumpRx(p, msgs[0]);
    if p.pos + |piece| > MAX_RECV_SIZE {
      Overruns(p, msgs[0], piece);
      hide DumpRx;
      OverrunStays(q, msgs[1..]);
    } else {
      OnePiece(p, msgs[0], piece);
      hide Carries, Completed, AllCarry, NonEmpty, Joined, DumpRx;
      if p.pos + |piece| >= PM_DATA_SIZE {
        assert UntilDone(q, msgs[1..]) == q;
        Cut(q.pmData, had, piece, rest);
      } else {
        FilledUp(q, msgs[1..], pieces[1..]);
        Distribute(had, piece, rest);
      }
    }
  }

  lemma Overruns(p: Pse, msg: seq<byte>, piece: seq<byte>)
    requires Sized(p) && Carries(msg, piece) && p.pos + |piece| > MAX_RECV_SIZE
    ensures DumpRx(p, msg).overrun
  {
    assert (msg + p.recv[|msg|..])[4] == msg[4];
  }

  lemma Cut(buf: seq<byte>, had: seq<byte>, piece: seq<byte>, rest: seq<byte>)
    requires |had| < PM_DATA_SIZE <= |had| + |piece| <= |buf| && buf[..|had| + |piece|] == had + piece
    ensures buf[..PM_DATA_SIZE] == had + (piece + rest)[..PM_DATA_SIZE - |had|]
  {
    assert buf[..PM_DATA_SIZE] == buf[..|had| + |piece|][..PM_DATA_SIZE];
  }

  lemma Distribute(had: seq<byte>, piece: seq<byte>, rest: seq<byte>)
    requires |had| + |piece| < PM_DATA_SIZE <= |had| + |piece| + |rest|
    ensures had + piece + rest[..PM_DATA_SIZE - |had + piece|] == had + (piece + rest)[..PM_DATA_SIZE - |had|]
  {
  }

  predicate EndsInError(msgs: seq<seq<byte>>) {
    msgs != [] && NOTIF_HEADER_LEN <= |msgs[|msgs| - 1]| <= MAX_RECV_SIZE && msgs[|msgs| - 1][4] != 0
  }

  /** The messages carry exactly one record. */
  ghost predicate Whole(msgs: seq<seq<byte>>) {
    exists pieces :: AllCarry(msgs, pieces) && NonEmpty(pieces) && |Joined(pieces)| == PM_DATA_SIZE
  }

  lemma {:induction false} LastMessage(p: Pse, msgs: seq<seq<byte>>, last: seq<byte>)
    requires Sized(p) && (forall k :: 0 <= k < |msgs| ==> |msgs[k]| <= MAX_RECV_SIZE) && |last| <= MAX_RECV_SIZE
    ensures DumpAll(p, msgs + [last]) == DumpRx(DumpAll(p, msgs), last)
    decreases |msgs|
  {
    hide DumpRx;
    if msgs == [] {
      assert msgs + [last] == [last] && [last][1..] == [];
    } else {
      assert (msgs + [last])[1..] == msgs[1..] + [last];
      LastMessage(DumpRx(p, msgs[0]), msgs[1..], last);
    }
  }

  /**
   Two dumps in a row, the first ended by an error after any messages at all, or a whole record from
   position zero: the second is exactly its own record.
   */
  lemma SuccessiveDumps(p: Pse, first: seq<seq<byte>>, msgs: seq<seq<byte>>, pieces: seq<seq<byte>>)
    requires Sized(p) && (forall k :: 0 <= k < |first| ==> |first[k]| <= MAX_RECV_SIZE)
    requires EndsInError(first) || (p.pos == 0 && p.done == 0 && Whole(first))
    requires AllCarry(msgs, pieces) && NonEmpty(pieces) && |Joined(pieces)| == PM_DATA_SIZE
    ensures forall k :: 0 <= k < |msgs| ==> |msgs[k]| <= MAX_RECV_SIZE
    ensures var q := DumpAll(Rearmed(DumpAll(p, first)), msgs);
            q.pmData[..PM_DATA_SIZE] == Joined(pieces) && q.pos == 0 && q.done == 1
  {
    hide AllCarry, NonEmpty, Joined, DumpAll, DumpRx;
    if EndsInError(first) {
      var front, last := first[..|first| - 1], first[|first| - 1];
      assert first == front + [last];
      LastMessage(p, front, last);
      ErrorStartsAfresh(DumpAll(p, front), last);
    } else {
      var firstPieces :| AllCarry(first, firstPieces) && NonEmpty(firstPieces) && |Joined(firstPieces)| == PM_DATA_SIZE;
      Reassembled(p, first, firstPieces);
    }
    Reassembled(Rearmed(DumpAll(p, first)), msgs, pieces);
  }

  /**
   A dump of which only part arrives completes nothing, so its command times out; and then the next
   record, however it is cut, is taken for complete when its beginning has filled up the rest: what is
   there is the old part followed by that beginning.
   */
  lemma TimedOutDumpMixes(p: Pse, first: seq<seq<byte>>, firstPieces: seq<seq<byte>>, msgs: seq<seq<byte>>, pieces: seq<seq<byte>>)
    requires Sized(p) && p.pos == 0 && p.done == 0
    requires AllCarry(first, firstPieces) && NonEmpty(firstPieces) && 0 < |Joined(firstPieces)| < PM_DATA_SIZE
    requires AllCarry(msgs, pieces) && NonEmpty(pieces) && |Joined(pieces)| == PM_DATA_SIZE
    ensures forall k :: 0 <= k < |first| ==> |first[k]| <= MAX_RECV_SIZE
    ensures forall k :: 0 <= k < |msgs| ==> |msgs[k]| <= MAX_RECV_SIZE
    ensures var left := DumpAll(p, first);
            var q := UntilDone(Rearmed(left), msgs);
            && left.done == 0
            && (q.overrun
                || (q.done == 1 && q.pos == 0
                    && q.pmData[..PM_DATA_SIZE] == Joined(firstPieces) + Joined(pieces)[..PM_DATA_SIZE - |Joined(firstPieces)|]))
  {
    hide AllCarry, NonEmpty, Joined, DumpAll, UntilDone;
    Partway(p, first, firstPieces);
    FilledUp(Rearmed(DumpAll(p, first)), msgs, pieces);
    assert p.pmData[..0] + Joined(firstPieces) == Joined(firstPieces);
  }

  /** Every record, however cut, that arrives from here without an overrun completes the command and is what the buffer then holds. */
  ghost predicate NextIsOwn(p: Pse)
    requires Sized(p)
  {
    forall msgs: seq<seq<byte>>, pieces: seq<seq<byte>> ::
      AllCarry(msgs, pieces) && NonEmpty(pieces) && |Joined(pieces)| == PM_DATA_SIZE ==> Own(p, msgs, pieces)
  }

  predicate Own(p: Pse, msgs: seq<seq<byte>>, pieces: seq<seq<byte>>)
    requires Sized(p)
  {
    && (forall k :: 0 <= k < |msgs| ==> |msgs[k]| <= MAX_RECV_SIZE)
    && var q := UntilDone(p, msgs); q.overrun || (q.done == 1 && q.pmData[..PM_DATA_SIZE] == Joined(pieces))
  }

  /** A command gets its own record, whatever that is and however it is cut, exactly if it starts at position zero. */
  lemma NextIsOwnExactly(p: Pse)
    requires Sized(p) && p.done == 0 && !p.overrun
    ensures NextIsOwn(p) <==> p.pos == 0
  {
    hide AllCarry, NonEmpty, Joined, UntilDone;
    if p.pos == 0 {
      forall msgs, pieces | AllCarry(msgs, pieces) && NonEmpty(pieces) && |Joined(pieces)| == PM_DATA_SIZE
        ensures Own(p, msgs, pieces)
      {
        FilledUp(p, msgs, pieces);
        assert p.pmData[..0] + Joined(pieces)[..PM_DATA_SIZE] == Joined(pieces);
      }
    } else {
      var msgs, pieces := ForeignRecord(p);
      assert !Own(p, msgs, pieces);
    }
  }

  const HALF := PM_DATA_SIZE / 2

  /** A record in two pieces whose first byte is not the one that is there. */
  lemma ForeignRecord(p: Pse) returns (msgs: seq<seq<byte>>, pieces: seq<seq<byte>>)
    requires Sized(p) && p.done == 0 && !p.overrun && p.pos > 0
    ensures AllCarry(msgs, pieces) && NonEmpty(pieces) && |Joined(pieces)| == PM_DATA_SIZE
    ensures !Own(p, msgs, pieces)
  {
    var other: byte := if p.pmData[0] == 0 then 1 else 0;
    var a := [other] + Zeros(HALF - 1);
    hide Zeros;
    msgs, pieces := ForeignHalves(p, a, Zeros(HALF));
  }

  lemma ForeignHalves(p: Pse, a: seq<byte>, b: seq<byte>) returns (msgs: seq<seq<byte>>, pieces: seq<seq<byte>>)
    requires Sized(p) && p.done == 0 && !p.overrun && p.pos > 0 && |a| == |b| == HALF && a[0] != p.pmData[0]
    ensures AllCarry(msgs, pieces) && NonEmpty(pieces) && |Joined(pieces)| == PM_DATA_SIZE
    ensures !Own(p, msgs, pieces)
  {
    pieces := [a, b];
    msgs := [Notice(0, 0, 0, a), Notice(0, 0, 0, b)];
    hide Notice, UntilDone, Own, AllCarry, Carries, NonEmpty, Joined;
    TwoCarry(a, b);
    JoinTwo(a, b);
    NoOverrun(p, msgs, a, b);
    NotOwn(p, msgs, pieces);
  }

  lemma TwoCarry(a: seq<byte>, b: seq<byte>)
    requires 0 < |a| <= MAX_RECV_SIZE - NOTIF_HEADER_LEN && 0 < |b| <= MAX_RECV_SIZE - NOTIF_HEADER_LEN
    ensures var msgs := [Notice(0, 0, 0, a), Notice(0, 0, 0, b)];
            Carries(msgs[0], a) && Carries(msgs[1], b) && AllCarry(msgs, [a, b]) && NonEmpty([a, b])
    ensures forall k :: 0 <= k < 2 ==> |[Notice(0, 0, 0, a), Notice(0, 0, 0, b)][k]| <= MAX_RECV_SIZE
  {
    hide Notice;
  }

  lemma NotOwn(p: Pse, msgs: seq<seq<byte>>, pieces: seq<seq<byte>>)
    requires Sized(p) && p.done == 0 && p.pos > 0
    requires AllCarry(msgs, pieces) && NonEmpty(pieces) && |Joined(pieces)| == PM_DATA_SIZE && Joined(pieces)[0] != p.pmData[0]
    requires (forall k :: 0 <= k < |msgs| ==> |msgs[k]| <= MAX_RECV_SIZE) && !UntilDone(p, msgs).overrun
    ensures !Own(p, msgs, pieces)
  {
    hide Joined, UntilDone, AllCarry, NonEmpty;
    FilledUp(p, msgs, pieces);
    var q := UntilDone(p, msgs);
    assert q.pmData[..PM_DATA_SIZE][0] == p.pmData[..p.pos][0] == p.pmData[0];
  }

  lemma JoinTwo(a: seq<byte>, b: seq<byte>)
    ensures Joined([a, b]) == a + b
  {
    assert [a, b][1..] == [b] && [b][1..] == [];
    NothingJoined();
    assert Joined([b]) == b + [];
  }

  lemma NoOverrun(p: Pse, msgs: seq<seq<byte>>, a: seq<byte>, b: seq<byte>)
    requires Sized(p) && p.done == 0 && !p.overrun && |a| == |b| == HALF
    requires |msgs| == 2 && Carries(msgs[0], a) && Carries(msgs[1], b)
    ensures !UntilDone(p, msgs).overrun
  {
    var q, rest := DumpRx(p, msgs[0]), msgs[1..];
    Halfway(p, msgs[0], a);
    Unfold(p, msgs);
    Unfold(q, rest);
    hide DumpRx, Carries, UntilDone;
    if q.done == 0 {
      assert rest == [msgs[1]] && rest[1..] == [];
      Halfway(q, msgs[1], b);
      Unfold(DumpRx(q, msgs[1]), []);
    }
  }

  lemma Halfway(p: Pse, msg: seq<byte>, a: seq<byte>)
    requires Sized(p) && !p.overrun && Carries(msg, a) && |a| == HALF
    ensures !DumpRx(p, msg).overrun
  {
    OnePiece(p, msg, a);
  }

  lemma Unfold(p: Pse, msgs: seq<seq<byte>>)
    requires Sized(p) && forall k :: 0 <= k < |msgs| ==> |msgs[k]| <= MAX_RECV_SIZE
    ensures UntilDone(p, msgs) == if msgs == [] || p.done > 0 then p else UntilDone(DumpRx(p, msgs[0]), msgs[1..])
  {
  }

  // Percentages, in 64-bit arithmetic.

  const TWO64 := 0x1_0000_0000_0000_0000

  function Sum(ds: seq<u64>): nat {
    if ds == [] then 0 else ds[0] as int + Sum(ds[1..])
  }

  /** The integer and the six fractional digits printed for one state. */
  datatype Percent = Percent(num: u64, frac: u64)

  function Compute(duration: u64, total: u64): Percent
    requires total > 0
  {
    var scaled := duration as int * 100 % TWO64;
    Percent(scaled / total, (scaled % total * 1000_0000 % TWO64 / total + 5) % TWO64 / 10)
  }

  /** Nothing wraps: not the duration in percent, nor its remainder in ten-millionths. */
  predicate NoWrap(duration: u64, total: u64)
    requires total > 0
  {
    duration as int * 100 < TWO64 && duration as int * 100 % total * 1000_0000 < TWO64
  }

  /** The value printed, in millionths of a percent. */
  function Millionths(p: Percent): nat {
    p.num * 1000000 + p.frac
  }

  /** Rounding to the nearest tenth after a truncating division is rounding half up. */
  lemma RoundedTenth(a: nat, t: nat)
    requires t > 0
    ensures var f := (a / t + 5) / 10; 20 * t * f <= 2 * a + 10 * t < 20 * t * f + 20 * t
  {
    var x := a / t;
    var f := (x + 5) / 10;
    assert a == x * t + a % t;
    assert 10 * f <= x + 5 <= 10 * f + 9;
    Scale(10 * f, x + 5, t);
    Scale(x + 5, 10 * f + 9, t);
  }

  lemma Scale(a: int, b: int, t: nat)
    requires a <= b
    ensures a * t <= b * t
  {
  }

  lemma QuotientIs(n: nat, m: nat, q: nat)
    requires m > 0 && m * q <= n < m * q + m
    ensures n / m == q
  {
    var d := n / m;
    assert n == m * d + n % m;
    if d < q {
      Scale(d + 1, q, m);
    } else if d > q {
      Scale(q + 1, d, m);
    }
  }

  /** 10^8 times `d` over `t`, rounded half up to an integer. */
  function HalfUp(d: nat, t: nat): nat
    requires t > 0
  {
    (2 * d * 1_0000_0000 + t) / (2 * t)
  }

  lemma HalfUpBounds(d: nat, t: nat)
    requires t > 0
    ensures 2 * t * HalfUp(d, t) <= 2 * d * 1_0000_0000 + t < 2 * t * HalfUp(d, t) + 2 * t
  {
    var n, m := 2 * d * 1_0000_0000 + t, 2 * t;
    assert n == m * (n / m) + n % m;
  }

  /**
   The printed number, its integer part and six digits together, is the percentage rounded half up to
   the sixth decimal place, whenever nothing wraps.
   */
  lemma PercentageIsRounded(duration: u64, total: u64)
    requires total > 0 && NoWrap(duration, total)
    ensures Millionths(Compute(duration, total)) == HalfUp(duration, total)
  {
    ComputeIs(duration, total);
    var r := duration as int * 100 % total;
    RoundedTenth(r * 1000_0000, total);
    var num, frac := Compute(duration, total).num, Compute(duration, total).frac;
    hide Compute, NoWrap, HalfUp;
    Combine(duration, total, num, r, frac);
  }

  lemma NoMod(x: nat, m: nat)
    requires x < m
    ensures x % m == x
  {
  }

  lemma ComputeIs(duration: u64, total: u64)
    requires total > 0 && NoWrap(duration, total)
    ensures var r := duration as int * 100 % total;
            && Compute(duration, total).num == duration as int * 100 / total
            && Compute(duration, total).frac == (r * 1000_0000 / total + 5) / 10
  {
    var scaled := duration as int * 100;
    NoMod(scaled, TWO64);
    var r := scaled % total;
    NoMod(r * 1000_0000, TWO64);
    Smaller(r, total);
    NoMod(r * 1000_0000 / total + 5, TWO64);
  }

  /** A remainder in ten-millionths of its divisor is less than ten million. */
  lemma Smaller(r: nat, t: nat)
    requires r < t
    ensures r * 1000_0000 / t < 1000_0000
  {
    var x := r * 1000_0000 / t;
    assert r * 1000_0000 == t * x + r * 1000_0000 % t;
    if x >= 1000_0000 {
      Scale(1000_0000, x, t);
    }
  }

  lemma Combine(d: nat, t: nat, num: nat, r: nat, frac: nat)
    requires t > 0 && num == d * 100 / t && r == d * 100 % t
    requires 20 * t * frac <= 2 * (r * 1000_0000) + 10 * t < 20 * t * frac + 20 * t
    ensures num * 1000000 + frac == HalfUp(d, t)
  {
    var q := num * 1000000 + frac;
    var k, f := t * num, t * frac;
    assert d * 100 == k + r;
    assert t * q == k * 1000000 + f;
    QuotientIs(2 * d * 1_0000_0000 + t, 2 * t, q);
  }

  /** The six digits overflow into a seventh exactly when the remainder is within half a millionth of the total. */
  lemma FractionBound(duration: u64, total: u64)
    requires total > 0 && NoWrap(duration, total)
    ensures var r := duration as int * 100 % total;
            && Compute(duration, total).frac <= 1000000
            && (Compute(duration, total).frac == 1000000 <==> 2 * (total - r) * 1000000 <= total)
  {
    ComputeIs(duration, total);
    var r := duration as int * 100 % total;
    hide Compute, NoWrap;
    Carries6(r, total);
  }

  lemma Carries6(r: nat, t: nat)
    requires r < t
    ensures var f := (r * 1000_0000 / t + 5) / 10;
            f <= 1000000 && (f == 1000000 <==> 2 * (t - r) * 1000000 <= t)
  {
    Smaller(r, t);
    var a := r * 1000_0000;
    var x := a / t;
    assert a == t * x + a % t;
    if x >= 9999995 {
      Scale(9999995, x, t);
    } else {
      Scale(x + 1, 9999995, t);
    }
  }

  /** Then the integer part is one short of what was meant: two millionths of a percent short of 1% prints as "0.1000000". */
  lemma CarryIsLost()
    ensures NoWrap(20000, 2000001) && Compute(20000, 2000001) == Percent(0, 1000000)
  {
  }

  /** The four values printed for a subsystem add up to 100% to within two units of the last place above and one below. */
  lemma PercentagesAddUp(a: u64, b: u64, c: u64, d: u64)
    requires 0 < a as int + b + c + d < TWO64
    requires var t := a + b + c + d; NoWrap(a, t) && NoWrap(b, t) && NoWrap(c, t) && NoWrap(d, t)
    ensures var t := a + b + c + d;
            var s := Millionths(Compute(a, t)) + Millionths(Compute(b, t)) + Millionths(Compute(c, t)) + Millionths(Compute(d, t));
            1_0000_0000 - 1 <= s <= 1_0000_0000 + 2
  {
    var t := a + b + c + d;
    hide Compute, NoWrap, Millionths, HalfUp;
    PercentageIsRounded(a, t);
    PercentageIsRounded(b, t);
    PercentageIsRounded(c, t);
    PercentageIsRounded(d, t);
    HalfUpBounds(a, t);
    HalfUpBounds(b, t);
    HalfUpBounds(c, t);
    HalfUpBounds(d, t);
    var s := HalfUp(a, t) + HalfUp(b, t) + HalfUp(c, t) + HalfUp(d, t);
    assert 2 * t * s == 2 * t * HalfUp(a, t) + 2 * t * HalfUp(b, t) + 2 * t * HalfUp(c, t) + 2 * t * HalfUp(d, t);
    if s > 1_0000_0000 + 2 {
      Scale(1_0000_0000 + 3, s, 2 * t);
    } else if s < 1_0000_0000 - 1 {
      Scale(s, 1_0000_0000 - 2, 2 * t);
    }
  }

  // Where a record holds the durations.

  const STATUS_SIZE := 16 + 4 * 8
  const SUBSYS_SIZE := PM_DATA_SIZE / 2

  function Get64(s: seq<byte>, at: nat): u64
    requires at + 8 <= |s|
  {
    Get32(s, at) as int + 0x1_0000_0000 * (Get32(s, at + 4) as int)
  }

  /** The duration of state `j` of subsystem `i`: after the total, in the third word past the state's name. */
  function Duration(pm: seq<byte>, i: nat, j: nat): u64
    requires |pm| >= PM_DATA_SIZE && i < 2 && j < STATE_MAX
  {
    Get64(pm, i * SUBSYS_SIZE + 8 + j * STATUS_SIZE + 16 + 2 * 8)
  }

  function Durations(pm: seq<byte>, i: nat): (ds: seq<u64>)
    requires |pm| >= PM_DATA_SIZE && i < 2
    ensures |ds| == STATE_MAX
  {
    [Duration(pm, i, 0), Duration(pm, i, 1), Duration(pm, i, 2), Duration(pm, i, 3)]
  }

  /** One state of a subsystem as the firmware keeps it; `name` is 16 bytes. */
  datatype Status = Status(name: seq<byte>, start: u64, end: u64, duration: u64, count: u64)

  /** A subsystem: its total, its states, and the device list and check value behind them. */
  datatype Subsys = Subsys(total: u64, status: seq<Status>, rest: seq<byte>)

  function Le64(n: u64): (s: seq<byte>)
    ensures |s| == 8
  {
    Le32(n % 0x1_0000_0000) + Le32(n / 0x1_0000_0000)
  }

  ghost predicate Fits(y: Subsys) {
    |y.status| == STATE_MAX && (forall t <- y.status :: |t.name| == 16) && |y.rest| == SUBSYS_SIZE - 8 - STATE_MAX * STATUS_SIZE
  }

  function StatusBytes(t: Status): (s: seq<byte>)
    requires |t.name| == 16
    ensures |s| == STATUS_SIZE
  {
    t.name + Le64(t.start) + Le64(t.end) + Le64(t.duration) + Le64(t.count)
  }

  function SubsysBytes(y: Subsys): (s: seq<byte>)
    requires Fits(y)
    ensures |s| == SUBSYS_SIZE
  {
    Le64(y.total) + StatusBytes(y.status[0]) + StatusBytes(y.status[1]) + StatusBytes(y.status[2]) + StatusBytes(y.status[3]) + y.rest
  }

  lemma Get64Holds(s: seq<byte>, at: nat, n: u64)
    requires Holds(s, at, Le64(n))
    ensures Get64(s, at) == n
  {
    hide Get32, Le32;
    var lo, hi := Le32(n % 0x1_0000_0000), Le32(n / 0x1_0000_0000);
    assert s[at..at + 4] == s[at..at + 8][0..4] == lo;
    assert s[at + 4..at + 8] == s[at..at + 8][4..8] == hi;
    Get32Holds(s, at, n % 0x1_0000_0000);
    Get32Holds(s, at + 4, n / 0x1_0000_0000);
  }

  lemma StatusAt(y: Subsys, j: nat)
    requires Fits(y) && j < STATE_MAX
    ensures Holds(SubsysBytes(y), 8 + j * STATUS_SIZE, StatusBytes(y.status[j]))
  {
    hide Le64, StatusBytes;
    var s := SubsysBytes(y);
    assert s[8..8 + STATUS_SIZE] == StatusBytes(y.status[0]);
    assert s[8 + STATUS_SIZE..8 + 2 * STATUS_SIZE] == StatusBytes(y.status[1]);
    assert s[8 + 2 * STATUS_SIZE..8 + 3 * STATUS_SIZE] == StatusBytes(y.status[2]);
    assert s[8 + 3 * STATUS_SIZE..8 + 4 * STATUS_SIZE] == StatusBytes(y.status[3]);
  }

  /** Whatever subsystem the record holds in its place, the durations read are its own. */
  lemma DurationReadBack(pm: seq<byte>, i: nat, y: Subsys, j: nat)
    requires |pm| >= PM_DATA_SIZE && i < 2 && Fits(y) && j < STATE_MAX
    requires pm[i * SUBSYS_SIZE..(i + 1) * SUBSYS_SIZE] == SubsysBytes(y)
    ensures Durations(pm, i)[j] == y.status[j].duration
  {
    hide Get64, SubsysBytes, Le64;
    StatusAt(y, j);
    var at, off, t := i * SUBSYS_SIZE, 8 + j * STATUS_SIZE, StatusBytes(y.status[j]);
    assert t[32..40] == Le64(y.status[j].duration);
    SliceOfSlice(SubsysBytes(y), off, off + STATUS_SIZE, 32, 40);
    SliceOfSlice(pm, at, at + SUBSYS_SIZE, off + 32, off + 40);
    Get64Holds(pm, at + off + 32, y.status[j].duration);
  }

  class MeiPse {
    const recvBuf: array<byte>
    const pmData: array<byte>
    var pos: nat
    var header: seq<byte>
    var done: nat
    var overrun: bool
    ghost var completions: nat

    ghost predicate Shaped()
      reads this
    {
      recvBuf.Length == pmData.Length == MAX_RECV_SIZE && recvBuf != pmData && |header| == NOTIF_HEADER_LEN
    }

    ghost predicate Valid()
      reads this
    {
      Shaped() && pos < PM_DATA_SIZE
    }

    ghost function View(): (p: Pse)
      requires Shaped()
      reads this, recvBuf, pmData
      ensures Valid() ==> Sized(p)
    {
      Pse(recvBuf[..], pmData[..], pos, header, done, completions, overrun)
    }

    constructor ()
      ensures Valid() && fresh(recvBuf) && fresh(pmData)
      ensures pos == 0 && done == 0 && completions == 0 && !overrun
    {
      recvBuf := new byte[MAX_RECV_SIZE](_ => 0);
      pmData := new byte[MAX_RECV_SIZE](_ => 0);
      pos, header, done, overrun, completions := 0, Zeros(NOTIF_HEADER_LEN), 0, false, 0;
    }

    /** The end of a dump, by its last piece or by an error. */
    method Complete()
      requires Shaped()
      modifies this`pos, this`header, this`done, this`completions
      ensures Valid() && View() == Completed(old(View()))
    {
      pos := 0;
      header := recvBuf[..NOTIF_HEADER_LEN];
      if done == 0 {
        done := 1;
        completions := completions + 1;
      }
      assert recvBuf[..NOTIF_HEADER_LEN] == recvBuf[..][..NOTIF_HEADER_LEN];
    }

    /** mei_pse_rx, the branch for power data. */
    method RxDump(msg: seq<byte>)
      requires Valid() && |msg| <= MAX_RECV_SIZE
      modifies this`pos, this`header, this`done, this`completions, this`overrun, recvBuf, pmData
      ensures Valid() && View() == DumpRx(old(View()), msg)
    {
      hide Splice, Completed;
      Put(recvBuf, 0, msg);
      assert recvBuf[..] == msg + old(recvBuf[..])[|msg|..] by { SpliceAtStart(old(recvBuf[..]), msg); }
      if recvBuf[4] == 0 {
        var n := |msg| - NOTIF_HEADER_LEN;
        if n < 0 || pos + n > MAX_RECV_SIZE {
          overrun := true;
        } else {
          Put(pmData, pos, msg[NOTIF_HEADER_LEN..]);
          pos := pos + n;
          if pos >= PM_DATA_SIZE {
            Complete();
          }
        }
      } else {
        Complete();
      }
    }

    /**
     dump_power_state_data for one subsystem: what is printed for each of its states. Nothing guards the
     division, so an idle subsystem, whose durations add up to zero, has no outcome.
     */
    method PowerStates(i: nat) returns (ok: bool, printed: seq<Percent>)
      requires Valid() && i < 2
      ensures var ds := Durations(pmData[..], i);
              && (ok <==> Sum(ds) % TWO64 != 0)
              && (ok ==> |printed| == STATE_MAX && forall j :: 0 <= j < STATE_MAX ==> printed[j] == Compute(ds[j], Sum(ds) % TWO64))
    {
      var ds := Durations(pmData[..], i);
      var total: u64 := 0;
      hide Durations, Compute;
      for j := 0 to STATE_MAX
        invariant total as int == Sum(ds[..j]) % TWO64
      {
        SumSnoc(ds, j);
        hide Sum;
        AddMod(Sum(ds[..j]), ds[j]);
        total := (total as int + ds[j] as int) % TWO64;
      }
      assert ds[..STATE_MAX] == ds;
      hide Sum;
      printed := [];
      if total == 0 {
        return false, printed;
      }
      for j := 0 to STATE_MAX
        invariant |printed| == j && forall k :: 0 <= k < j ==> printed[k] == Compute(ds[k], total)
      {
        printed := printed + [Compute(ds[j], total)];
      }
      ok := true;
    }
  }

  lemma AddMod(s: nat, d: nat)
    ensures (s % TWO64 + d) % TWO64 == (s + d) % TWO64
  {
  }

  lemma SpliceAtStart(s: seq<byte>, t: seq<byte>)
    requires |t| <= |s|
    ensures Splice(s, 0, t) == t + s[|t|..]
  {
  }

  lemma {:induction false} SumSnoc(ds: seq<u64>, j: nat)
    requires j < |ds|
    ensures Sum(ds[..j + 1]) == Sum(ds[..j]) + ds[j]
  {
    if j == 0 {
      assert ds[..1] == [ds[0]] && ds[..0] == [];
      assert Sum([ds[0]][1..]) == 0;
    } else {
      SumSnoc(ds[1..], j - 1);
      assert ds[..j + 1][1..] == ds[1..][..j] && ds[..j][1..] == ds[1..][..j - 1];
    }
  }
}
