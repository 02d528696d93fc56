// What the ring guarantees and where the guarantees end: fullness, conservation of
// space, acceptance, the chain of reservations, and the requests for which the program
// does not do what its comments promise.
module Limits {
  import opened Bytes
  import opened Geometry
  import opened Framing
  import opened RingModel
  import opened Fifo

  // ----- fullness -----

  /** A successful allocation moves the write offset onto the reader exactly for the request that fills the ring,
      which is exactly the request larger than the reported writable space; any other leaves a byte free. */
  lemma ExactFullness(r: Ring, cb: nat)
    requires r.Ranged() && FrameSize(cb) && Place(r.Size(), r.read, r.wint, cb).Room?
    ensures var next := Place(r.Size(), r.read, r.wint, cb).next;
            && (next == r.read <==> FillsRing(r.Size(), r.read, r.wint, cb))
            && (FillsRing(r.Size(), r.read, r.wint, cb) <==> Align8(cb) + 8 > r.Writable())
            && Pos(r.Size(), next)
            && (!FillsRing(r.Size(), r.read, r.wint, cb) ==> r.(wint := next).Writable() < r.Writable())
  {
    PlaceExact(r.Size(), r.read, r.wint, cb, TYPE_FRAME);
  }

  /** The reported writable space, once checked, stays a sufficient guard while the reader moves on. */
  lemma GuardIsStable(n: nat, read: nat, later: nat, wint: nat, cb: nat)
    requires RingSize(n) && Pos(n, read) && Pos(n, later) && Pos(n, wint)
    requires Between(n, read, later, wint) && Align8(cb) + 8 <= n - 1 - Dist(n, read, wint)
    ensures !FillsRing(n, later, wint, cb)
  {
  }

  /** An allocation that finds room does its job, one more reservation and everything unread still there,
      if and only if it does not fill the ring. */
  lemma AllocSoundIff(r: Ring, typ: nat, cb: nat, r': Ring)
    requires r.Inv() && ValidType(typ) && FrameSize(cb) && Place(r.Size(), r.read, r.wint, cb).Room?
    requires r' == Alloc(r, typ, cb, [])
    ensures (r'.Inv() && r'.Unread() == r.Unread() && |r'.Pending()| == |r.Pending()| + 1) <==>
              !FillsRing(r.Size(), r.read, r.wint, cb)
  {
    hide HeaderAt, Align8, Chain, Frames, Put, Legal, Enc;
    if FillsRing(r.Size(), r.read, r.wint, cb) {
      ExactFullness(r, cb);
      if r'.Inv() {
        NonEmpty(r'.data, r'.com, r'.wint);
      }
    } else {
      AllocMoves(r, typ, cb);
    }
  }

  lemma AllocMoves(r: Ring, typ: nat, cb: nat)
    requires r.Inv() && ValidType(typ) && FrameSize(cb) && Place(r.Size(), r.read, r.wint, cb).Room?
    requires !FillsRing(r.Size(), r.read, r.wint, cb)
    ensures Alloc(r, typ, cb, []).Inv() && Alloc(r, typ, cb, []).Unread() == r.Unread()
    ensures |Alloc(r, typ, cb, []).Pending()| == |r.Pending()| + 1
  {
    hide HeaderAt, Align8, Chain, Frames, Dist, Place, FillsRing, Alloc;
    AllocKeeps(r, typ, cb, []);
  }

  /** A write that finds room, fused or in three steps, is delivered after everything unread, except when it fills the
      ring: then the reader is told that there is nothing to read at all. */
  lemma WriteDeliversIff(r: Ring, bs: seq<byte>)
    requires r.Inv() && r.com == r.wint && FrameSize(|bs|) && Place(r.Size(), r.read, r.wint, |bs|).Room?
    ensures var r', fills := Write(r, bs), FillsRing(r.Size(), r.read, r.wint, |bs|);
            && ThreeStepWrite(r, bs) == r' && r'.Inv()
            && (r'.Unread() == r.Unread() + [Frame(TYPE_FRAME, bs)] <==> !fills)
            && (fills ==> NextToRead(r') == Done && r'.Readable() == 0)
  {
    hide HeaderAt, Align8, Chain, Frames, Place, FillsRing, AllocAndCopy, Commit, Write, Ready;
    WriteRefinesThreeSteps(r, bs);
    CopyCommitDelivers(r, TYPE_FRAME, [], bs);
    assert [] + bs == bs;
    NonEmpty(Write(r, bs).data, Write(r, bs).read, Write(r, bs).com);
  }

  /** `k` commits in a row can be made, and lead to `c`. */
  predicate CommitsTo(r: Ring, k: nat, c: nat)
    decreases k
  {
    r.Ranged() && if k == 0 then r.com == c else Ready(r) && CommitsTo(Commit(r), k - 1, c)
  }

  /** Committing along a chain of reservations leads to its end. */
  lemma {:induction false} CommitAlong(r: Ring, b: nat, k: nat, c: nat)
    requires r.Ranged() && Pos(r.Size(), b) && Chain(r.data, r.com, b)
    requires CommitsTo(r.(com := b), k, c)
    ensures CommitsTo(r, |Frames(r.data, r.com, b)| + k, c)
    decreases Dist(r.Size(), r.com, b)
  {
    hide HeaderAt, Align8, Legal, Next, Chain, Frames, FrameAt, Span, Between, Add64;
    NonEmpty(r.data, r.com, b);
    if r.com != b {
      ChainHead(r.data, r.com, b);
      var r1 := Commit(r);
      CountersFree(r1.(com := b), r.(com := b), k, c);
      CommitAlong(r1, b, k, c);
    }
  }

  /** Commits do not look at the counters. */
  lemma {:induction false} CountersFree(r1: Ring, r: Ring, k: nat, c: nat)
    requires CommitsTo(r, k, c) && r1 == r.(written := r1.written, frames := r1.frames)
    ensures CommitsTo(r1, k, c)
    decreases k
  {
    hide HeaderAt, Align8, Legal, Next;
    if k > 0 {
      CountersFree(Commit(r1), Commit(r), k - 1, c);
    }
  }

  /** The ring after `k` commits, or as many as can be made. */
  function CommitTimes(r: Ring, k: nat): Ring
    requires r.Ranged()
    decreases k
  {
    if k == 0 || !Ready(r) then r else CommitTimes(Commit(r), k - 1)
  }

  lemma {:induction false} CommitsReach(r: Ring, k: nat, c: nat)
    requires CommitsTo(r, k, c)
    ensures var r' := CommitTimes(r, k);
            r'.com == c && r'.read == r.read && Counts(r.frames, r'.frames, k)
    decreases k
  {
    hide HeaderAt, Align8, Legal, Next, Add64, Counts;
    Counted(r.frames, 1);
    Counted(r.frames, 0);
    if k > 0 {
      CommitsReach(Commit(r), k - 1, c);
      CountsAdd(r.frames, Commit(r).frames, CommitTimes(r, k).frames, 1, k - 1);
    }
  }

  /** What an allocation that fills the ring comes to: all that is reserved, the new frame included, can be committed
      and is counted, and then the reader is told that there is nothing to read. */
  lemma FilledReadsEmpty(r: Ring, typ: nat, init: seq<byte>, bs: seq<byte>)
    requires r.Inv() && ValidType(typ) && FrameSize(|init| + |bs|)
    requires Place(r.Size(), r.read, r.wint, |init| + |bs|).Room?
    requires FillsRing(r.Size(), r.read, r.wint, |init| + |bs|)
    ensures var r' := CommitTimes(AllocAndCopy(r, typ, init, bs), |r.Pending()| + 1);
            && NextToRead(r') == Done && r'.com == r'.read == r.read
            && (r'.frames - r.frames - (|r.Pending()| + 1)) % U64 == 0
  {
    hide HeaderAt, Align8, Chain, Frames, Put, Legal, Enc, AllocAndCopy, Next, Dist, Between, Place, FillsRing, Ready,
         Agree, Commit, CommitTimes, CommitsTo;
    FilledCommits(r, typ, init, bs);
    FilledSurvives(r, typ, init, bs);
    CommitsReach(AllocAndCopy(r, typ, init, bs), |r.Pending()| + 1, r.read);
  }

  lemma FilledCommits(r: Ring, typ: nat, init: seq<byte>, bs: seq<byte>)
    requires r.Inv() && ValidType(typ) && FrameSize(|init| + |bs|)
    requires Place(r.Size(), r.read, r.wint, |init| + |bs|).Room?
    requires FillsRing(r.Size(), r.read, r.wint, |init| + |bs|)
    ensures CommitsTo(AllocAndCopy(r, typ, init, bs), |r.Pending()| + 1, r.read)
  {
    hide HeaderAt, Align8, Chain, Frames, Put, Legal, Enc, AllocAndCopy, Next, Dist, Between, Place, FillsRing, Ready,
         Agree, Commit;
    var r2 := AllocAndCopy(r, typ, init, bs);
    AllocatedIsHead(r.(com := r.wint), typ, init, bs);
    FilledSurvives(r, typ, init, bs);
    CommitAlong(r2, r.wint, 1, r.read);
  }

  lemma FilledSurvives(r: Ring, typ: nat, init: seq<byte>, bs: seq<byte>)
    requires r.Inv() && ValidType(typ) && FrameSize(|init| + |bs|)
    requires Place(r.Size(), r.read, r.wint, |init| + |bs|).Room?
    requires FillsRing(r.Size(), r.read, r.wint, |init| + |bs|)
    ensures var r2 := AllocAndCopy(r, typ, init, bs);
            && r2.Size() == r.Size() && r2.com == r.com && r2.read == r.read && r2.frames == r.frames
            && AllocAndCopy(r.(com := r.wint), typ, init, bs) == r2.(com := r.wint)
            && Place(r.Size(), r.read, r.wint, |init| + |bs|).next == r.read
            && Chain(r2.data, r.com, r.wint) && |Frames(r2.data, r.com, r.wint)| == |r.Pending()|
  {
    hide HeaderAt, Align8, Chain, Frames, Put, Legal, Enc, Next, Dist, Between, Agree, Place;
    ExactFullness(r, |init| + |bs|);
    if r.com == r.wint {
      ChainSelf(r.data, r.com);
      ChainSelf(AllocAndCopy(r, typ, init, bs).data, r.com);
    } else {
      OlderStaysHead(r, typ, init, bs);
      AgreeSplit(r.data, AllocAndCopy(r, typ, init, bs).data, r.read, r.com, r.wint);
      ChainAgree(r.data, AllocAndCopy(r, typ, init, bs).data, r.com, r.wint);
    }
  }

  /** The exception happens on a fresh ring, for the largest frame it holds. */
  lemma LostWrite(r: Ring, bs: seq<byte>)
    requires r.Ranged() && r.read == r.com == r.wint == 0 && FrameSize(|bs|) && r.Size() == Align8(|bs|) + 8
    ensures Place(r.Size(), r.read, r.wint, |bs|).Room?
    ensures Write(r, bs).frames == Add64(r.frames, 1) && NextToRead(Write(r, bs)) == Done
  {
    hide HeaderAt, Chain, Frames, Put, Legal, Enc, Write, Align8, ThreeStepWrite;
    ChainSelf(r.data, r.read);
    BetweenEnds(r.Size(), r.read, r.read);
    WriteDeliversIff(r, bs);
    WriteCounts(r, bs);
  }

  /** For one, twenty-four bytes written to the smallest ring there is, of thirty-two: counted as written, and gone. */
  lemma LostWriteSize(r: Ring, bs: seq<byte>)
    requires r.Ranged() && r.Size() == 32 && r.read == r.com == r.wint == 0 && |bs| == 24
    ensures FrameSize(|bs|) && Place(r.Size(), r.read, r.wint, |bs|).Room?
    ensures Write(r, bs).frames == Add64(r.frames, 1) && NextToRead(Write(r, bs)) == Done
  {
    hide HeaderAt, Chain, Frames, Put, Legal, Enc, Write, Align8;
    Align8Fixed(24);
    LostWrite(r, bs);
  }

  lemma WriteCounts(r: Ring, bs: seq<byte>)
    requires r.Ranged() && FrameSize(|bs|) && Place(r.Size(), r.read, r.wint, |bs|).Room?
    ensures Write(r, bs).frames == Add64(r.frames, 1)
  {
    hide HeaderAt, Chain, Frames, Put, Legal, Enc, Place, Align8;
  }

  // ----- the asserted ordering -----

  /** INTNETRINGBUF_ASSERT_SANITY's ordering clause. */
  predicate SanityOrder(read: nat, com: nat, wint: nat) {
    if read <= com then com <= wint || wint < read else com <= wint
  }

  /** The invariant is the asserted ordering plus the bound missing from its second arm. */
  lemma OrderedIsStrongerSanity(r: Ring)
    requires r.Ranged()
    ensures r.Ordered() <==> SanityOrder(r.read, r.com, r.wint) && (r.com < r.read ==> r.wint < r.read)
  {
  }

  /** What the asserted ordering lets through: the reserved region has reached, or runs over, the unread one. */
  lemma SanityGap(r: Ring)
    requires r.Ranged() && SanityOrder(r.read, r.com, r.wint)
    ensures !r.Ordered() <==> r.com < r.read <= r.wint
    ensures r.com < r.read < r.wint ==>
              InArc(r.Size(), r.read, r.com, r.read) && InArc(r.Size(), r.com, r.wint, r.read)
  {
  }

  // ----- space -----

  /** Nothing is lost: unread, reserved and writable bytes always add up to all but one. */
  lemma Conservation(r: Ring, typ: nat, cb: nat)
    requires r.Inv() && ValidType(typ) && FrameSize(cb) && !FillsRing(r.Size(), r.read, r.wint, cb)
    ensures r.Readable() + r.Reserved() + r.Writable() == r.Size() - 1
    ensures var p, r' := Place(r.Size(), r.read, r.wint, cb), Alloc(r, typ, cb, []);
            && r'.Ranged() && r'.Readable() == r.Readable()
            && (p.Room? ==>
                  var taken := if p.off == 8 then 8 + Align8(cb) else r.Size() - r.wint + Align8(cb);
                  r'.Reserved() == r.Reserved() + taken && r'.Writable() == r.Writable() - taken)
  {
    hide HeaderAt, Chain, Frames, Align8, Put, Enc, Legal, Next;
    PlaceExact(r.Size(), r.read, r.wint, cb, typ);
  }

  /** The bytes used by the header at `p` and its payload. */
  predicate Occupies(d: seq<byte>, p: nat, x: int)
    requires RingSize(|d|) && Pos(|d|, p)
  {
    p <= x < p + 8 || Payload(p, HeaderAt(d, p)) <= x < Payload(p, HeaderAt(d, p)) + HeaderAt(d, p).cb
  }

  /** The bytes used by the frames on a chain. */
  predicate InUse(d: seq<byte>, a: nat, b: nat, x: int)
    requires RingSize(|d|) && Pos(|d|, a) && Pos(|d|, b) && Chain(d, a, b)
  {
    exists k: nat {:trigger SlotPos(d, a, b, k)} :: k < |Frames(d, a, b)| && Occupies(d, SlotPos(d, a, b, k), x)
  }

  /** Every frame on a chain keeps to the bytes between the chain's ends. */
  lemma InUseInArc(d: seq<byte>, a: nat, b: nat, x: nat)
    requires RingSize(|d|) && Pos(|d|, a) && Pos(|d|, b) && Chain(d, a, b) && InUse(d, a, b, x)
    ensures x < |d| && InArc(|d|, a, b, x)
  {
    hide HeaderAt, Align8, Chain, Frames, Occupies, Slot, InArc;
    var k: nat :| k < |Frames(d, a, b)| && Occupies(d, SlotPos(d, a, b, k), x);
    var p := SlotPos(d, a, b, k);
    SlotInArc(d, p, b, x);
    ArcSplit(|d|, a, p, b, x);
  }

  lemma SlotInArc(d: seq<byte>, p: nat, b: nat, x: nat)
    requires RingSize(|d|) && Pos(|d|, p) && Pos(|d|, b) && Slot(d, p, b) && Occupies(d, p, x)
    ensures x < |d| && InArc(|d|, p, b, x)
  {
    hide HeaderAt, Align8;
  }

  /** The bytes in use are all that matters: whatever else changes, the chain and its frames stay. */
  lemma {:induction false} InUseSuffices(d: seq<byte>, d': seq<byte>, a: nat, b: nat)
    requires |d| == |d'| && RingSize(|d|) && Pos(|d|, a) && Pos(|d|, b) && Chain(d, a, b)
    requires forall x: nat :: x < |d| && InUse(d, a, b, x) ==> d'[x] == d[x]
    ensures Chain(d', a, b) && Frames(d', a, b) == Frames(d, a, b)
    decreases Dist(|d|, a, b)
  {
    hide HeaderAt, Align8, Legal, FrameAt, InUse, Span, Dist, Between;
    if a != b {
      var next := After(d, a, b);
      ChainHead(d, a, b);
      forall x: nat | x < |d| && Occupies(d, a, x) ensures d'[x] == d[x] {
        FirstInUse(d, a, b, x);
      }
      SlotInUse(d, d', a, b);
      forall x: nat | x < |d| && InUse(d, next, b, x) ensures d'[x] == d[x] {
        LaterInUse(d, a, b, x);
      }
      Closer(|d|, a, next, b);
      InUseSuffices(d, d', next, b);
    }
  }

  lemma FirstInUse(d: seq<byte>, a: nat, b: nat, x: nat)
    requires RingSize(|d|) && Pos(|d|, a) && Pos(|d|, b) && a != b && Chain(d, a, b) && Occupies(d, a, x)
    ensures InUse(d, a, b, x)
  {
    hide HeaderAt, Align8, Occupies;
    assert SlotPos(d, a, b, 0) == a;
  }

  lemma LaterInUse(d: seq<byte>, a: nat, b: nat, x: nat)
    requires RingSize(|d|) && Pos(|d|, a) && Pos(|d|, b) && a != b && Chain(d, a, b)
    requires InUse(d, After(d, a, b), b, x)
    ensures InUse(d, a, b, x)
  {
    hide HeaderAt, Align8, Occupies, Legal, FrameAt, Chain, Frames, Dist, Span, Next;
    ChainHead(d, a, b);
    var next := After(d, a, b);
    var k: nat :| k < |Frames(d, next, b)| && Occupies(d, SlotPos(d, next, b, k), x);
    assert SlotPos(d, a, b, k + 1) == SlotPos(d, next, b, k);
  }

  lemma SlotInUse(d: seq<byte>, d': seq<byte>, a: nat, b: nat)
    requires |d| == |d'| && RingSize(|d|) && Pos(|d|, a) && Pos(|d|, b) && Slot(d, a, b)
    requires forall x: nat :: x < |d| && Occupies(d, a, x) ==> d'[x] == d[x]
    ensures HeaderAt(d', a) == HeaderAt(d, a) && Slot(d', a, b) && FrameAt(d', a) == FrameAt(d, a)
  {
    hide HeaderAt, Align8;
    PosRoom(|d|, a);
    HeaderAgree(d, d', a);
    var q, cb := PayloadAt(d, a, b), HeaderAt(d, a).cb;
    assert Read(d', q, cb) == Read(d, q, cb);
  }

  /** A fresh allocation: eight header bytes and a contiguous payload at `q`, inside the ring, apart from each other,
      and no byte `x` of them used by an unread frame or by another reservation, even if it fills the ring. */
  lemma AllocationApart(r: Ring, typ: nat, cb: nat, q: int, x: nat)
    requires r.Inv() && ValidType(typ) && FrameSize(cb)
    requires Place(r.Size(), r.read, r.wint, cb).Room?
    requires q == r.wint + Place(r.Size(), r.read, r.wint, cb).off
    ensures r.wint + 8 <= r.Size() && 0 <= q && q + cb <= r.Size()
    ensures r.wint + 8 <= q || q + cb <= r.wint
    ensures r.wint <= x < r.wint + 8 || q <= x < q + cb ==>
              !InUse(r.data, r.read, r.com, x) && !InUse(r.data, r.com, r.wint, x)
  {
    hide HeaderAt, Align8, Chain, Frames, Place, FillsRing, Legal, Dist, Between, InArc, InUse, Span;
    var n, p := r.Size(), Place(r.Size(), r.read, r.wint, cb);
    PlaceExact(n, r.read, r.wint, cb, typ);
    PlacementApart(n, r.read, r.wint, Header(typ, cb, p.off), x);
    if r.wint <= x < r.wint + 8 || q <= x < q + cb {
      ArcSplit(n, r.read, r.com, r.wint, x);
      if InUse(r.data, r.read, r.com, x) {
        InUseInArc(r.data, r.read, r.com, x);
      }
      if InUse(r.data, r.com, r.wint, x) {
        InUseInArc(r.data, r.com, r.wint, x);
      }
    }
  }

  // ----- acceptance -----

  /** An empty ring takes a frame wherever its offsets stand exactly if its size is at least twice the aligned frame
      plus a header. */
  lemma AcceptanceExact(n: nat, cb: nat)
    requires RingSize(n) && n > 0 && FrameSize(cb)
    ensures (forall p: nat :: Pos(n, p) ==> Place(n, p, p, cb).Room? && !FillsRing(n, p, p, cb))
            <==> 2 * Align8(cb) + 8 <= n
  {
    var a := Align8(cb);
    if 2 * a + 8 > n {
      var p := if a < n then a else n - 8;
      assert Pos(n, p) && Place(n, p, p, cb).NoRoom?;
    }
  }

  /** The test by which the driver decides whether to empty the ring and ask again. */
  predicate WorthRetrying(cbSend: nat, cbMin: nat) {
    cbSend >= cbMin * 2 + 8
  }

  /** It leaves out the alignment and the GSO context, and so can hold for a frame that an empty ring refuses. */
  lemma RetryTestTooWeak()
    ensures WorthRetrying(32, 12) && Place(32, 16, 16, 12) == NoRoom
    ensures WorthRetrying(40, 16) && Place(40, 16, 16, 16) != NoRoom && Place(40, 16, 16, 16 + GSO_SIZE) == NoRoom
  {
    assert Align8(12) == 16 && Align8(16) == 16 && Align8(24) == 24;
  }

  /** It is a sufficient test, wherever the offsets of the emptied ring stand, exactly for frames without a context
      whose size is a multiple of eight or short of the next by at most three. */
  lemma RetryTestExact(cbMin: nat, gso: bool)
    requires FrameSize(if gso then cbMin + GSO_SIZE else cbMin)
    ensures var cb := if gso then cbMin + GSO_SIZE else cbMin;
            (forall n: nat, p: nat :: RingSize(n) && Pos(n, p) && WorthRetrying(n, cbMin) ==>
               Place(n, p, p, cb).Room? && !FillsRing(n, p, p, cb))
            <==> !gso && (cbMin % 8 == 0 || cbMin % 8 >= 5)
  {
    hide Place, FillsRing, Align8;
    var cb := if gso then cbMin + GSO_SIZE else cbMin;
    RetrySizes(cbMin);
    if !gso && (cbMin % 8 == 0 || cbMin % 8 >= 5) {
      forall n: nat, p: nat | RingSize(n) && Pos(n, p) && WorthRetrying(n, cbMin)
        ensures Place(n, p, p, cb).Room? && !FillsRing(n, p, p, cb)
      {
        Align8Mono(cbMin * 2 + 8, n);
        Align8Fixed(n);
        AcceptanceExact(n, cbMin);
      }
    } else {
      AcceptanceExact(Align8(cbMin * 2 + 8), cb);
    }
  }

  lemma RetrySizes(cbMin: nat)
    ensures Align8(cbMin * 2 + 8) >= 2 * Align8(cbMin) + 8 <==> cbMin % 8 == 0 || cbMin % 8 >= 5
    ensures Align8(cbMin * 2 + 8) < 2 * Align8(cbMin + GSO_SIZE) + 8
  {
    hide Align8;
    var q, m := cbMin / 8, cbMin % 8;
    assert cbMin == 8 * q + m;
    Align8Shift(8 * q, m);
    Align8Shift(8 * q, m + 8);
    Align8Shift(16 * q, 2 * m + 8);
    SmallSizes(m);
  }

  lemma SmallSizes(m: nat)
    requires m < 8
    ensures Align8(m) == (if m == 0 then 0 else 8) && Align8(m + 8) == 8 + Align8(m)
    ensures Align8(2 * m + 8) == if m == 0 then 8 else if m <= 4 then 16 else 24
  {
  }

  /** A frame written to an empty ring and read moves all three offsets to where it ends. */
  lemma WriteThenSkip(r: Ring, bs: seq<byte>)
    requires r.Ranged() && r.read == r.com == r.wint && FrameSize(|bs|)
    requires Place(r.Size(), r.read, r.wint, |bs|).Room? && !FillsRing(r.Size(), r.read, r.wint, |bs|)
    ensures r.Inv() && Enabled(r, OpWrite(bs)) && Enabled(Apply(r, OpWrite(bs)), OpSkip)
    ensures var r', next := Apply(Apply(r, OpWrite(bs)), OpSkip), Place(r.Size(), r.read, r.wint, |bs|).next;
            r'.Size() == r.Size() && r'.read == r'.com == r'.wint == next
  {
    hide HeaderAt, Align8, Chain, Frames, Put, Legal, Enc, Dist, Between, Skip, Reserve, Place, FillsRing;
    FreshRing(r);
    WriteKeeps(r, bs);
    WriteMoves(r, bs);
    var r1 := Write(r, bs);
    SkipKeeps(r1);
    NonEmpty(Skip(r1).data, Skip(r1).read, r1.com);
  }

  lemma WriteMoves(r: Ring, bs: seq<byte>)
    requires r.Ranged() && FrameSize(|bs|) && Place(r.Size(), r.read, r.wint, |bs|).Room?
    ensures var r', p := Write(r, bs), Place(r.Size(), r.read, r.wint, |bs|);
            r'.Size() == r.Size() && r'.read == r.read && r'.com == r'.wint == p.next
  {
    hide HeaderAt, Align8, Put, Enc, Dist, Place;
  }

  lemma RunCons(r: Ring, op: Op, ops: seq<Op>)
    requires r.Inv() && Enabled(r, op) && RunOk(Apply(r, op), ops)
    ensures RunOk(r, [op] + ops) && Final(r, [op] + ops) == Final(Apply(r, op), ops)
  {
    hide Enabled, Apply;
    assert ([op] + ops)[0] == op && ([op] + ops)[1..] == ops;
  }

  predicate EmptyAtStart(r: Ring) {
    r.Ranged() && r.read == r.com == r.wint == 0
  }

  predicate EndsIn(r: Ring, ops: seq<Op>, last: Ring) {
    last.Inv() && r.Inv() && RunOk(r, ops) && Final(r, ops) == last
  }

  /** The test can hold for a frame that is refused: two frames of twelve bytes, each written and read, leave the
      smallest ring, and one of forty bytes, empty at offset sixteen. There the one refuses a frame of twelve bytes, the
      other one of sixteen with its context. */
  lemma RefusedAfterRun(r: Ring, bs: seq<byte>, cbMin: nat, cb: nat) returns (ops: seq<Op>, last: Ring)
    requires EmptyAtStart(r) && |bs| == 12
    requires (r.Size() == 32 && cbMin == cb == 12) || (r.Size() == 40 && cbMin == 16 && cb == cbMin + GSO_SIZE)
    ensures EndsIn(r, ops, last) && last.Unread() == [] == last.Pending()
    ensures last.Size() >= cbMin * 2 + 8 && Place(last.Size(), last.read, last.wint, cb) == NoRoom
  {
    hide Enabled, Apply, RunOk, Final, HeaderAt, Align8, Chain, Frames, Place, FillsRing, Dist, Between;
    TwelvePlaced(r.Size());
    WriteThenSkip(r, bs);
    var r1 := Apply(r, OpWrite(bs));
    var r2 := Apply(r1, OpSkip);
    WriteThenSkip(r2, bs);
    var r3 := Apply(r2, OpWrite(bs));
    var r4 := Apply(r3, OpSkip);
    RunNone(r4);
    RunCons(r3, OpSkip, []);
    RunCons(r2, OpWrite(bs), [OpSkip] + []);
    RunCons(r1, OpSkip, [OpWrite(bs)] + ([OpSkip] + []));
    ops := [OpWrite(bs)] + ([OpSkip] + ([OpWrite(bs)] + ([OpSkip] + [])));
    RunCons(r, OpWrite(bs), [OpSkip] + ([OpWrite(bs)] + ([OpSkip] + [])));
    FreshRing(r4);
    RetryTestTooWeak();
    last := r4;
  }

  lemma RunNone(r: Ring)
    requires r.Inv()
    ensures RunOk(r, []) && Final(r, []) == r
  {
  }

  lemma TwelvePlaced(n: nat)
    requires n == 32 || n == 40
    ensures Place(n, 0, 0, 12) == Room(8, 24) && Place(n, 24, 24, 12) == Room(-24, 16)
    ensures !FillsRing(n, 0, 0, 12) && !FillsRing(n, 24, 24, 12)
  {
    assert Align8(12) == 16;
  }

  // ----- reading and committing everything -----

  /** The ring after `k` skips. */
  function SkipTimes(r: Ring, k: nat): (r': Ring)
    requires r.Inv() && k <= |r.Unread()|
    ensures r'.Inv()
    decreases k
  {
    if k == 0 then r else
      SkipKeeps(r);
      SkipTimes(Skip(r), k - 1)
  }

  /** The reader's walk visits each unread frame once, ends exactly at the committed offset, and uses at least eight
      bytes a step. */
  lemma {:induction false} WalkExact(r: Ring, k: nat)
    requires r.Inv() && k <= |r.Unread()|
    ensures var r' := SkipTimes(r, k);
            && r' == r.(read := r'.read) && r'.Unread() == r.Unread()[k..]
            && r'.Readable() + 8 * k <= r.Readable()
            && (r'.read == r.com <==> k == |r.Unread()|)
    decreases k
  {
    hide HeaderAt, Align8, Chain, Frames, Dist, Skip;
    if k == 0 {
      NonEmpty(r.data, r.read, r.com);
    } else {
      SkipKeeps(r);
      WalkExact(Skip(r), k - 1);
    }
  }

  /** A reader that empties the ring makes room for any frame the size condition allows. */
  lemma DrainThenAccept(r: Ring, cb: nat)
    requires r.Inv() && r.Pending() == [] && FrameSize(cb) && 2 * Align8(cb) + 8 <= r.Size()
    ensures var r' := SkipTimes(r, |r.Unread()|);
            Place(r'.Size(), r'.read, r'.wint, cb).Room? && !FillsRing(r'.Size(), r'.read, r'.wint, cb)
  {
    hide HeaderAt, Align8, Chain, Frames, Dist, Place, FillsRing, SkipTimes;
    WalkExact(r, |r.Unread()|);
    NonEmpty(r.data, r.com, r.wint);
    AcceptanceExact(r.Size(), cb);
  }

  predicate Commits(op: Op) {
    op.OpCommit? || op.OpCommitEx? || op.OpDiscard?
  }

  /** Committing every reservation in order, padding inserted or not, brings the two write offsets together. */
  lemma {:induction false} CommitAllMeets(r: Ring, ops: seq<Op>)
    requires r.Inv() && RunOk(r, ops) && |ops| == |r.Pending()|
    requires forall i {:trigger ops[i]} :: 0 <= i < |ops| ==>
               ops[i].OpCommit? || ops[i].OpCommitEx? || ops[i].OpDiscard?
    ensures Final(r, ops).com == Final(r, ops).wint == r.wint
    decreases ops
  {
    hide HeaderAt, Align8, Chain, Frames, Dist;
    if ops == [] {
      NonEmpty(r.data, r.com, r.wint);
    } else {
      CommitTakesOne(r, ops[0]);
      CommitAllMeets(Apply(r, ops[0]), ops[1..]);
    }
  }

  lemma CommitTakesOne(r: Ring, op: Op)
    requires r.Inv() && Commits(op) && Enabled(r, op)
    ensures Apply(r, op).Pending() == r.Pending()[1..] && Apply(r, op).wint == r.wint
  {
    hide HeaderAt, Align8, Chain, Frames, Dist, Next, Shrink, Put;
    match op
    case OpCommit => CommitKeeps(r);
    case OpCommitEx(used) => CommitExKeeps(r, used);
    case OpDiscard => DiscardKeeps(r);
    case _ =>
  }

  /** The reservations hang together: the first header is at `com`, each next one at the commit offset of the one
      before, and the last one's commit offset is `wint`. */
  lemma {:induction false} PendingChain(d: seq<byte>, a: nat, b: nat, k: nat)
    requires RingSize(|d|) && Pos(|d|, a) && Pos(|d|, b) && Chain(d, a, b) && k < |Frames(d, a, b)|
    ensures SlotPos(d, a, b, 0) == a
    ensures var p := SlotPos(d, a, b, k);
            After(d, p, b) == if k + 1 < |Frames(d, a, b)| then SlotPos(d, a, b, k + 1) else b
    decreases k
  {
    hide HeaderAt, Align8, Legal, FrameAt;
    var next := After(d, a, b);
    NonEmpty(d, next, b);
    if k > 0 {
      PendingChain(d, next, b, k - 1);
      assert SlotPos(d, a, b, k) == SlotPos(d, next, b, k - 1);
    }
  }

  // ----- what the comments promise and the code does not do -----

  /** Of a partly used reservation CommitFrameEx hands over exactly the used bytes, with the eight of a GSO frame's
      context, if and only if all were used or the unused rest leaves room for padding; otherwise the reader gets the
      whole reservation. The used bytes come first in any case. */
  lemma TrimLengthExact(r: Ring, used: nat)
    requires r.Inv() && Enabled(r, OpCommitEx(used))
    ensures var f, after := r.Pending()[0], CommitEx(r, used);
            var u := if f.typ == TYPE_GSO then used + 8 else used;
            && after.Inv() && |r.Unread()| < |after.Unread()| && u <= |f.bytes|
            && var got := after.Unread()[|r.Unread()|];
               && got.typ == f.typ && u <= |got.bytes| && got.bytes[..u] == f.bytes[..u]
               && (|got.bytes| == u <==> u == |f.bytes| || Align8(u) != Align8(|f.bytes|))
               && (|got.bytes| != u ==> got == f)
  {
    hide HeaderAt, Align8, Chain, Frames, CommitEx, CanCommitEx, Dist;
    CommitExKeeps(r, used);
    var f, fs := r.Pending()[0], CommitEx(r, used).Unread();
    assert fs[|r.Unread()|..][0] == fs[|r.Unread()|];
  }

  /** A GSO reservation of sixty-four bytes, forty of them used behind the context: the reader gets forty-eight. */
  lemma ContextCounts(r: Ring)
    requires r.Inv() && r.Pending() != [] && r.Pending()[0].typ == TYPE_GSO && |r.Pending()[0].bytes| == 64
    ensures Enabled(r, OpCommitEx(40))
    ensures var after := CommitEx(r, 40);
            && after.Inv() && |r.Unread()| < |after.Unread()|
            && after.Unread()[|r.Unread()|] == Frame(TYPE_GSO, r.Pending()[0].bytes[..48])
            && after.written == Add64(r.written, 48)
  {
    hide HeaderAt, Align8, Chain, Frames, CommitEx, CanCommitEx, Dist;
    AsksExactly(r, OpCommitEx(40));
    TrimLengthExact(r, 40);
    CountersExact(r, OpCommitEx(40));
    Align8Fixed(48);
    Align8Fixed(64);
    var got := CommitEx(r, 40).Unread()[|r.Unread()|];
    assert got.bytes == got.bytes[..48];
  }

  /** For one: thirteen bytes used of a reservation of sixteen, and the reader gets sixteen. */
  lemma ThreeBytesTooMany(r: Ring)
    requires r.Inv() && Enabled(r, OpCommitEx(13)) && r.Pending()[0].typ == TYPE_FRAME && |r.Pending()[0].bytes| == 16
    ensures var after := CommitEx(r, 13);
            && after.Inv() && after.Unread() == r.Unread() + [r.Pending()[0]]
  {
    hide HeaderAt, Chain, Frames, CommitEx, CanCommitEx, Dist, Align8;
    CommitExKeeps(r, 13);
    ThirteenIsSixteen();
    var fs := CommitEx(r, 13).Unread();
    assert fs == fs[..|r.Unread()|] + fs[|r.Unread()|..];
  }

  lemma ThirteenIsSixteen()
    ensures Align8(13) == Align8(16)
  {
  }

  /** The fused write amounts to allocate, copy and commit exactly if nothing was outstanding. */
  lemma FusedWriteIff(r: Ring, bs: seq<byte>)
    requires r.Inv() && FrameSize(|bs|) && Place(r.Size(), r.read, r.wint, |bs|).Room?
    ensures Write(r, bs) == ThreeStepWrite(r, bs) <==> r.com == r.wint
  {
    hide HeaderAt, Align8, Chain, Frames, Dist, Place, FillsRing, Legal, Put, Enc, Next, Agree, AllocAndCopy, Span,
         Between;
    if r.com == r.wint {
      WriteRefinesThreeSteps(r, bs);
    } else {
      var n, p := r.Size(), Place(r.Size(), r.read, r.wint, |bs|);
      NonEmpty(r.data, r.com, r.wint);
      HeadPending(r);
      var c := Next(n, r.com, Head(r));
      OlderStaysHead(r, TYPE_FRAME, [], bs);
      PlaceExact(n, r.read, r.wint, |bs|, TYPE_FRAME);
      NextBeyond(n, r.read, r.com, c, r.wint, Header(TYPE_FRAME, |bs|, p.off));
      AllocAndCopyMoves(r, TYPE_FRAME, [], bs);
    }
  }

  /** The end of a new slot is no commit offset of an older one. */
  lemma NextBeyond(n: nat, read: nat, com: nat, c: nat, wint: nat, h: Header)
    requires RingSize(n) && Pos(n, read) && Pos(n, com) && Pos(n, c) && Pos(n, wint) && Legal(n, wint, h)
    requires Between(n, read, com, wint) && Between(n, com, c, wint) && c != com
    requires Dist(n, read, wint) + Span(n, wint, h) <= n
    ensures Next(n, wint, h) != c
  {
    hide Align8;
  }

  // ----- the counters -----

  /** The bytes an operation adds to cbStatWritten. */
  function BytesCounted(r: Ring, op: Op): nat
    requires r.Inv() && Enabled(r, op)
  {
    HeadOrNone(r);
    match op
    case OpCommit => |r.Pending()[0].bytes|
    case OpDiscard => |r.Pending()[0].bytes|
    case OpCommitEx(used) => if r.Pending()[0].typ == TYPE_GSO then used + 8 else used
    case OpWrite(bs) => if Outcome(r, op) then |bs| else 0
    case _ => 0
  }

  lemma HeadOrNone(r: Ring)
    requires r.Inv()
    ensures r.Pending() != [] ==> Head(r).cb == |r.Pending()[0].bytes| && Head(r).typ == r.Pending()[0].typ
  {
    hide HeaderAt, Align8, Chain, Frames;
    if r.Pending() != [] {
      HeadFrame(r);
    }
  }

  predicate Publishes(op: Op, ok: bool) {
    Commits(op) || (op.OpWrite? && ok)
  }

  predicate Overflows(op: Op, ok: bool) {
    (op.OpAlloc? || op.OpAllocGso? || op.OpWrite?) && !ok
  }

  /** A 64-bit counter has gone from `before` to `after` in `k` counts. */
  predicate Counts(before: nat, after: nat, k: nat) {
    (after - before - k) % U64 == 0
  }

  lemma Counted(x: nat, k: nat)
    ensures Counts(x, Add64(x, k), k) && Counts(x, x, 0)
  {
  }

  lemma CountsAdd(x: nat, y: nat, z: nat, j: nat, k: nat)
    requires Counts(x, y, j) && Counts(y, z, k)
    ensures Counts(x, z, j + k)
  {
  }

  /** What each operation does to the counters, told from the reservation it publishes and from what reader and client
      find afterwards. */
  lemma CountersExact(r: Ring, op: Op)
    requires r.Inv() && Enabled(r, op)
    ensures var r' := Apply(r, op);
            match op
            case OpCommit =>
              r'.written == Add64(r.written, |r.Pending()[0].bytes|) && r'.frames == Add64(r.frames, 1)
              && r'.overflows == r.overflows
            case OpDiscard =>
              r'.written == Add64(r.written, |r.Pending()[0].bytes|) && r'.frames == Add64(r.frames, 1)
              && r'.overflows == r.overflows
            case OpCommitEx(used) =>
              r'.written == Add64(r.written, if r.Pending()[0].typ == TYPE_GSO then used + 8 else used)
              && r'.frames == Add64(r.frames, 1) && r'.overflows == r.overflows
            case OpWrite(bs) =>
              if |r'.Unread()| == |r.Unread()| + 1 then
                r'.written == Add64(r.written, |bs|) && r'.frames == Add64(r.frames, 1) && r'.overflows == r.overflows
              else r' == r.(overflows := Add64(r.overflows, 1))
            case OpSkip => r' == r.(read := r'.read)
            case OpFill(_, _, _) => r' == r.(data := r'.data)
            case _ =>
              if |r'.Pending()| == |r.Pending()| + 1 then r' == r.(data := r'.data, wint := r'.wint)
              else r' == r.(overflows := Add64(r.overflows, 1))
  {
    hide HeaderAt, Align8, Chain, Frames, Dist, Place, FillsRing, Add64, Put, Enc, Next, Legal, Alloc, Write, Skip,
         CutTo, Shrink, BytePos, Ready;
    HeadOrNone(r);
    match op
    case OpAlloc(cb) => AllocCounters(r, TYPE_FRAME, cb, []);
    case OpAllocGso(cb, ctx) => AllocCounters(r, TYPE_GSO, cb + GSO_SIZE, ctx);
    case OpWrite(bs) => WriteCounters(r, bs);
    case OpSkip => SkipKeeps(r);
    case _ =>
  }

  lemma AllocCounters(r: Ring, typ: nat, cb: nat, init: seq<byte>)
    requires r.Inv() && ValidType(typ) && FrameSize(cb) && |init| <= cb && !FillsRing(r.Size(), r.read, r.wint, cb)
    ensures var r' := Alloc(r, typ, cb, init);
            && r'.Inv()
            && if |r'.Pending()| == |r.Pending()| + 1 then r' == r.(data := r'.data, wint := r'.wint)
               else r' == r.(overflows := Add64(r.overflows, 1))
  {
    hide HeaderAt, Align8, Chain, Frames, Dist, Place, FillsRing, Add64, Put, Enc, Next, Legal;
    AllocKeeps(r, typ, cb, init);
  }

  lemma WriteCounters(r: Ring, bs: seq<byte>)
    requires r.Inv() && Enabled(r, OpWrite(bs))
    ensures var r' := Write(r, bs);
            && r'.Inv()
            && if |r'.Unread()| == |r.Unread()| + 1 then
                 r'.written == Add64(r.written, |bs|) && r'.frames == Add64(r.frames, 1) && r'.overflows == r.overflows
               else r' == r.(overflows := Add64(r.overflows, 1))
  {
    hide HeaderAt, Align8, Chain, Frames, Dist, Place, FillsRing, Add64, Put, Enc, Next, Legal;
    NonEmpty(r.data, r.com, r.wint);
    WriteKeeps(r, bs);
  }

  /** Each counter moves exactly with what it counts. */
  lemma StepCounts(r: Ring, op: Op)
    requires r.Inv() && Enabled(r, op)
    ensures var r', ok := Apply(r, op), Outcome(r, op);
            && Counts(r.frames, r'.frames, if Publishes(op, ok) then 1 else 0)
            && Counts(r.overflows, r'.overflows, if Overflows(op, ok) then 1 else 0)
            && Counts(r.written, r'.written, BytesCounted(r, op))
  {
    hide HeaderAt, Align8, Chain, Frames, Dist, Place, FillsRing, Add64, Counts, Put, Enc;
    HeadOrNone(r);
    Counted(r.frames, 1);
    Counted(r.overflows, 1);
    Counted(r.written, BytesCounted(r, op));
    if op.OpAlloc? || op.OpAllocGso? || op.OpWrite? {
      assert Apply(r, op).frames == if Publishes(op, Outcome(r, op)) then Add64(r.frames, 1) else r.frames;
    }
  }

  function PublishedFrames(ops: seq<Op>, oks: seq<bool>): nat
    requires |ops| == |oks|
  {
    if ops == [] then 0 else (if Publishes(ops[0], oks[0]) then 1 else 0) + PublishedFrames(ops[1..], oks[1..])
  }

  function Refusals(ops: seq<Op>, oks: seq<bool>): nat
    requires |ops| == |oks|
  {
    if ops == [] then 0 else (if Overflows(ops[0], oks[0]) then 1 else 0) + Refusals(ops[1..], oks[1..])
  }

  function AccountedBytes(r: Ring, ops: seq<Op>): nat
    requires r.Inv() && RunOk(r, ops)
    decreases ops
  {
    if ops == [] then 0 else BytesCounted(r, ops[0]) + AccountedBytes(Apply(r, ops[0]), ops[1..])
  }

  /** Over a whole run the statistics count the published frames, the bytes accounted for them, and the refusals. */
  lemma {:induction false} RunCounts(r: Ring, ops: seq<Op>)
    requires r.Inv() && RunOk(r, ops)
    ensures Counts(r.frames, Final(r, ops).frames, PublishedFrames(ops, Outcomes(r, ops)))
    ensures Counts(r.overflows, Final(r, ops).overflows, Refusals(ops, Outcomes(r, ops)))
    ensures Counts(r.written, Final(r, ops).written, AccountedBytes(r, ops))
    decreases ops
  {
    hide Apply, Enabled, Outcome, Counts, BytesCounted, Publishes, Overflows, Chain, Frames;
    if ops == [] {
      Counted(r.frames, 0);
      Counted(r.overflows, 0);
      Counted(r.written, 0);
    } else {
      var r', f := Apply(r, ops[0]), Final(r, ops);
      var ok, rest := Outcome(r, ops[0]), Outcomes(r, ops)[1..];
      StepCounts(r, ops[0]);
      RunCounts(r', ops[1..]);
      assert rest == Outcomes(r', ops[1..]);
      var sent, refused := if Publishes(ops[0], ok) then 1 else 0, if Overflows(ops[0], ok) then 1 else 0;
      CountsAdd(r.frames, r'.frames, f.frames, sent, PublishedFrames(ops[1..], rest));
      CountsAdd(r.overflows, r'.overflows, f.overflows, refused, Refusals(ops[1..], rest));
      CountsAdd(r.written, r'.written, f.written, BytesCounted(r, ops[0]), AccountedBytes(r', ops[1..]));
    }
  }

  function TotalBytes(fs: seq<Frame>): nat {
    if fs == [] then 0 else TotalBytes(fs[..|fs| - 1]) + |fs[|fs| - 1].bytes|
  }

  predicate NoPadding(fs: seq<Frame>) {
    forall i {:trigger fs[i]} :: 0 <= i < |fs| ==> fs[i].typ != TYPE_PADDING
  }

  predicate WholeFrames(op: Op) {
    !op.OpCommitEx? && !op.OpDiscard?
  }

  lemma TotalSnoc(fs: seq<Frame>, f: Frame)
    ensures TotalBytes(fs + [f]) == TotalBytes(fs) + |f.bytes|
  {
    assert (fs + [f])[..|fs|] == fs;
  }

  /** A step of the queue logs exactly the frame that the counters account for. */
  lemma LogStep(r: Ring, q: Queue, op: Op, q': Queue)
    requires r.Inv() && Enabled(r, op) && q.pending == r.Pending() && NoPadding(q.pending) && WholeFrames(op)
    requires QueueStep(q, op, Outcome(r, op), q')
    ensures NoPadding(q'.pending)
    ensures |q'.log| == |q.log| + if Publishes(op, Outcome(r, op)) then 1 else 0
    ensures TotalBytes(q'.log) == TotalBytes(q.log) + BytesCounted(r, op)
  {
    hide HeaderAt, Align8, Chain, Frames, Dist, Place, FillsRing, Put, TotalBytes;
    match op
    case OpCommit =>
      var f := q.pending[0];
      assert Visible([f]) == [f];
      TotalSnoc(q.log, f);
    case OpWrite(bs) => TotalSnoc(q.log, Frame(TYPE_FRAME, bs));
    case OpFill(k, j, bs) => assert q'.pending[k].typ == q.pending[k].typ;
    case _ =>
  }

  lemma {:induction false} StatsRun(r: Ring, q: Queue, ops: seq<Op>)
    requires Holds(r, q) && RunOk(r, ops) && NoPadding(q.pending)
    requires forall i {:trigger ops[i]} :: 0 <= i < |ops| ==> WholeFrames(ops[i])
    ensures var last, r' := Trace(r, q, ops)[|ops|], Final(r, ops);
            && |last.log| >= |q.log| && TotalBytes(last.log) >= TotalBytes(q.log)
            && Counts(r.frames, r'.frames, |last.log| - |q.log|)
            && Counts(r.written, r'.written, TotalBytes(last.log) - TotalBytes(q.log))
    decreases ops
  {
    hide Apply, Track, QueueStep, Enabled, Outcome, Chain, Frames, Visible, BytesCounted, Publishes, TotalBytes,
         NoPadding, Counts, WholeFrames, Holds;
    if ops == [] {
      Counted(r.frames, 0);
      Counted(r.written, 0);
    } else {
      HoldsPending(r, q);
      var r1, q1, r', last := Apply(r, ops[0]), Track(r, q, ops[0]), Final(r, ops), Trace(r, q, ops)[|ops|];
      StepRefines(r, q, ops[0]);
      LogStep(r, q, ops[0], q1);
      StepCounts(r, ops[0]);
      StatsRun(r1, q1, ops[1..]);
      CountsAdd(r.frames, r1.frames, r'.frames, |q1.log| - |q.log|, |last.log| - |q1.log|);
      CountsAdd(r.written, r1.written, r'.written, TotalBytes(q1.log) - TotalBytes(q.log),
                TotalBytes(last.log) - TotalBytes(q1.log));
    }
  }

  lemma HoldsPending(r: Ring, q: Queue)
    requires Holds(r, q)
    ensures r.Inv() && q.pending == r.Pending()
  {
    hide HeaderAt, Chain, Frames, Visible;
  }

  /** In runs of plain commits and writes the statistics are those of the log: so many frames, so many bytes. */
  lemma StatsMatchLog(r: Ring, q: Queue, ops: seq<Op>)
    requires Holds(r, q) && RunOk(r, ops) && forall f :: f in q.pending ==> f.typ != TYPE_PADDING
    requires forall i {:trigger ops[i]} :: 0 <= i < |ops| ==> !ops[i].OpCommitEx? && !ops[i].OpDiscard?
    ensures var last, r' := Trace(r, q, ops)[|ops|], Final(r, ops);
            && (r'.frames - r.frames - (|last.log| - |q.log|)) % U64 == 0
            && (r'.written - r.written - (TotalBytes(last.log) - TotalBytes(q.log))) % U64 == 0
  {
    hide HeaderAt, Chain, Frames, Visible, TotalBytes, Holds, RunOk, Trace, Final;
    StatsRun(r, q, ops);
  }
}
