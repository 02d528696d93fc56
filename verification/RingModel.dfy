// The ring buffer as a value: its bytes, its three offsets counted from offStart,
// and its counters, with every operation as a function on it. What is in the ring
// (unread frames, pending reservations) is read off the bytes.
module RingModel {
  import opened Bytes
  import opened Geometry
  import opened Framing

  const MIN_FRAME: nat := 12
  const MAX_FRAME: nat := 0xFFFF
  const GSO_SIZE: nat := 8

  datatype Ring =
    Ring(data: seq<byte>, read: nat, com: nat, wint: nat, written: nat, frames: nat, overflows: nat)
  {
    function Size(): nat {
      |data|
    }

    /** Aligned offsets inside the ring. The size bound makes every `offFrame` fit an int32_t. */
    predicate Ranged() {
      && RingSize(|data|) && |data| <= 0x8000_0000
      && Pos(|data|, read) && Pos(|data|, com) && Pos(|data|, wint)
    }

    /** Going round from the reader, the committed offset comes no later than the internal write offset. */
    predicate Ordered()
      requires Ranged()
    {
      Between(|data|, read, com, wint)
    }

    /** Unread frames lie on a chain from `read` to `com`, reservations on one from `com` to `wint`. */
    predicate Inv() {
      Ranged() && Ordered() && Chain(data, read, com) && Chain(data, com, wint)
    }

    function Unread(): seq<Frame>
      requires Inv()
    {
      Frames(data, read, com)
    }

    function Pending(): seq<Frame>
      requires Inv()
    {
      Frames(data, com, wint)
    }

    function Readable(): nat
      requires Ranged()
    {
      Dist(|data|, read, com)
    }

    function Reserved(): nat
      requires Ranged()
    {
      Dist(|data|, com, wint)
    }

    function Writable(): nat
      requires Ranged()
    {
      |data| - 1 - Dist(|data|, read, wint)
    }
  }

  /** A ring whose three offsets coincide is in order and empty. */
  lemma FreshRing(r: Ring)
    requires r.Ranged() && r.read == r.com == r.wint
    ensures r.Inv() && r.Unread() == [] && r.Pending() == []
  {
  }

  // ----- allocation -----

  datatype Placement = NoRoom | Room(off: int, next: nat)

  /** Where a frame of `cb` bytes goes, seen from a reader offset and the internal write offset. */
  function Place(n: nat, read: nat, wint: nat, cb: nat): Placement {
    var a := Align8(cb);
    if read <= wint then
      if n - wint >= a + 8 then Room(8, Wrap(n, wint + a + 8))
      else if read > a then Room(0 - wint, a)
      else NoRoom
    else if read - wint > a + 8 then Room(8, wint + a + 8)
    else NoRoom
  }

  /** The one request that uses up the last free byte: it starts at `wint`, ends at the end, and the reader is at
      the start. */
  predicate FillsRing(n: nat, read: nat, wint: nat, cb: nat) {
    read == 0 && wint + 8 + Align8(cb) == n
  }

  predicate FrameSize(cb: nat) {
    MIN_FRAME <= cb <= MAX_FRAME
  }

  /** Take the space, write the header, and put `init` at the start of the payload. */
  function Reserve(r: Ring, typ: nat, cb: nat, p: Placement, init: seq<byte>): Ring
    requires r.Ranged() && ValidType(typ) && FrameSize(cb) && p.Room? && (p.off == 8 || r.wint + p.off == 0)
    requires 0 <= r.wint + p.off && r.wint + p.off + |init| <= r.Size()
  {
    PosRoom(r.Size(), r.wint);
    r.(data := Put(Put(r.data, r.wint, Enc(Header(typ, cb, p.off))), r.wint + p.off, init),
       wint := p.next)
  }

  /** Allocation of a frame of `cb` bytes that begins with `init`: nothing for a normal frame, the context for a GSO
      frame. */
  function Alloc(r: Ring, typ: nat, cb: nat, init: seq<byte>): Ring
    requires r.Ranged() && ValidType(typ) && FrameSize(cb) && |init| <= cb
  {
    var p := Place(r.Size(), r.read, r.wint, cb);
    PlaceExact(r.Size(), r.read, r.wint, cb, typ);
    if p.Room? then Reserve(r, typ, cb, p, init) else r.(overflows := Add64(r.overflows, 1))
  }

  /** A placement is a legal header position that leaves the write offset short of the reader, except in one case. */
  lemma PlaceExact(n: nat, read: nat, wint: nat, cb: nat, typ: nat)
    requires RingSize(n) && Pos(n, read) && Pos(n, wint) && cb > 0 && ValidType(typ)
    ensures var p := Place(n, read, wint, cb);
            p.Room? ==>
              var h := Header(typ, cb, p.off);
              && Legal(n, wint, h) && (p.off == 8 || wint + p.off == 0) && p.next == Next(n, wint, h)
              && Dist(n, read, wint) + Span(n, wint, h) <= n
              && (Dist(n, read, wint) + Span(n, wint, h) == n <==> FillsRing(n, read, wint, cb))
  {
  }

  /** Allocation overflows exactly when every legal header would bring the write offset up to the reader. */
  lemma NoRoomExact(n: nat, read: nat, wint: nat, cb: nat, typ: nat)
    requires RingSize(n) && Pos(n, read) && Pos(n, wint) && cb > 0 && ValidType(typ)
    ensures Place(n, read, wint, cb).NoRoom? <==>
            && !FillsRing(n, read, wint, cb)
            && forall h: Header :: h.typ == typ && h.cb == cb && Legal(n, wint, h) ==>
                 Dist(n, read, wint) + Span(n, wint, h) >= n
  {
    var inPlace, wrapped := Header(typ, cb, 8), Header(typ, cb, 0 - wint);
    assert wint + 8 + Align8(cb) <= n ==> Legal(n, wint, inPlace);
    assert Align8(cb) <= n ==> Legal(n, wint, wrapped);
  }

  /** A placement chosen from an out-of-date reader offset still leaves room before the reader, unless by now it
      fills the ring. */
  lemma StalePlacement(n: nat, seen: nat, read: nat, wint: nat, cb: nat, typ: nat)
    requires RingSize(n) && n <= 0x8000_0000 && Pos(n, seen) && Pos(n, read) && Pos(n, wint)
    requires ValidType(typ) && FrameSize(cb)
    requires Between(n, seen, read, wint) && Place(n, seen, wint, cb).Room? && !FillsRing(n, read, wint, cb)
    ensures var p := Place(n, seen, wint, cb);
            var h := Header(typ, cb, p.off);
            && (p.off == 8 || wint + p.off == 0) && Encodable(h)
            && Legal(n, wint, h) && p.next == Next(n, wint, h)
            && Dist(n, read, wint) + Span(n, wint, h) < n
  {
    PlaceExact(n, seen, wint, cb, typ);
  }

  /** Reserving space, decided from a reader offset that may be out of date, adds one reservation and changes
      nothing else. */
  lemma ReserveKeeps(r: Ring, typ: nat, cb: nat, seen: nat, init: seq<byte>)
    requires r.Inv() && ValidType(typ) && FrameSize(cb) && |init| <= cb
    requires Pos(r.Size(), seen) && Between(r.Size(), seen, r.read, r.wint)
    requires Place(r.Size(), seen, r.wint, cb).Room? && !FillsRing(r.Size(), r.read, r.wint, cb)
    ensures var p := Place(r.Size(), seen, r.wint, cb);
            && (p.off == 8 || r.wint + p.off == 0)
            && 0 <= r.wint + p.off && r.wint + p.off + cb <= r.Size()
            && var r' := Reserve(r, typ, cb, p, init);
            && r'.Inv() && r'.Unread() == r.Unread()
            && p.next != r.wint && Between(r.Size(), r.read, r.wint, p.next)
            && r'.Pending() == r.Pending() + [Patch(Frame(typ, Read(r.data, r.wint + p.off, cb)), 0, init)]
  {
    hide HeaderAt, Align8, Place, FillsRing, Enc, Put, Legal, Span, Stored, Chain, Frames, FrameAt, Dist,
         Next, After, Between, Agree;
    StalePlacement(r.Size(), seen, r.read, r.wint, cb, typ);
    var p := Place(r.Size(), seen, r.wint, cb);
    var h := Header(typ, cb, p.off);
    PutHeader(r.data, r.wint, h);
    NextAhead(r.Size(), r.read, r.wint, h);
    AppendReservation(r.data, Put(r.data, r.wint, Enc(h)), r.read, r.com, r.wint, h, p.next, init);
  }

  // ----- gathering data into a reservation -----

  /** The client stores `bs` at byte `j` of the k-th outstanding reservation. */
  function Fill(r: Ring, k: nat, j: nat, bs: seq<byte>): Ring
    requires r.Inv() && k < |r.Pending()| && j + |bs| <= |r.Pending()[k].bytes|
  {
    StoreInPayload(r.data, r.com, r.wint, k, j, bs);
    r.(data := Put(r.data, BytePos(r.data, r.com, r.wint, k, j), bs))
  }

  lemma FillKeeps(r: Ring, k: nat, j: nat, bs: seq<byte>)
    requires r.Inv() && k < |r.Pending()| && j + |bs| <= |r.Pending()[k].bytes|
    ensures var r' := Fill(r, k, j, bs);
            && r'.Inv() && r'.Unread() == r.Unread()
            && r'.Pending() == r.Pending()[k := Patch(r.Pending()[k], j, bs)]
  {
    hide HeaderAt, Align8, Put, Chain, Frames, Dist, Agree, Slot, BytePos;
    StoreInPayload(r.data, r.com, r.wint, k, j, bs);
    var d' := Put(r.data, BytePos(r.data, r.com, r.wint, k, j), bs);
    NonEmpty(r.data, r.com, r.wint);
    AgreeBefore(r.data, d', r.read, r.com, r.wint);
    ChainAgree(r.data, d', r.read, r.com);
  }

  lemma NonEmpty(d: seq<byte>, a: nat, b: nat)
    requires RingSize(|d|) && Pos(|d|, a) && Pos(|d|, b) && Chain(d, a, b)
    ensures Frames(d, a, b) == [] <==> a == b
  {
  }

  // ----- commit -----

  /** The header at the committed offset: the first outstanding reservation. */
  function Head(r: Ring): (h: Header)
    requires r.Ranged()
    ensures Encodable(h)
  {
    PosRoom(r.Size(), r.com);
    HeaderAt(r.data, r.com)
  }

  /** What a commit asks of its header: a legal one whose slot is no longer than the ring. */
  predicate Ready(r: Ring)
    requires r.Ranged()
  {
    Legal(r.Size(), r.com, Head(r)) && Span(r.Size(), r.com, Head(r)) <= r.Size()
  }

  /** IntNetRingCommitFrame on the first outstanding reservation. */
  function Commit(r: Ring): (r': Ring)
    requires r.Ranged() && Ready(r)
    ensures r'.Ranged()
  {
    var h := Head(r);
    r.(com := Next(r.Size(), r.com, h), written := Add64(r.written, h.cb), frames := Add64(r.frames, 1))
  }

  /** Publishing everything up to a later header. */
  lemma PublishKeeps(r: Ring, c: nat)
    requires r.Inv() && Pos(r.Size(), c) && Between(r.Size(), r.com, c, r.wint)
    requires Chain(r.data, r.com, c) && Chain(r.data, c, r.wint)
    ensures var r' := r.(com := c);
            && r'.Inv()
            && r'.Unread() == r.Unread() + Frames(r.data, r.com, c)
            && r'.Pending() == Frames(r.data, c, r.wint)
  {
    hide HeaderAt, Chain, Frames, Dist, Between;
    MoveDivide(r.data, r.read, r.com, c, r.wint);
  }

  /** The first reservation of a ring that has one. */
  lemma HeadPending(r: Ring)
    requires r.Inv() && r.Pending() != []
    ensures Ready(r) && Span(r.Size(), r.com, Head(r)) < r.Size() && r.com + 8 <= r.Size()
    ensures var c := Next(r.Size(), r.com, Head(r));
            && Pos(r.Size(), c) && c != r.com && Between(r.Size(), r.com, c, r.wint)
            && Chain(r.data, r.com, c) && Frames(r.data, r.com, c) == [FrameAt(r.data, r.com)]
            && Chain(r.data, c, r.wint)
            && r.Pending() == [FrameAt(r.data, r.com)] + Frames(r.data, c, r.wint)
  {
    hide HeaderAt, Align8, Legal, Span, FrameAt, Chain, Frames, Dist, Between;
    NonEmpty(r.data, r.com, r.wint);
    ChainHead(r.data, r.com, r.wint);
    PosRoom(r.Size(), r.com);
  }

  /** Committing hands the oldest reservation, as it then stands, to the reader. */
  lemma CommitKeeps(r: Ring)
    requires r.Inv() && r.Pending() != []
    ensures Ready(r)
    ensures var r' := Commit(r);
            && r'.Inv()
            && r'.Unread() == r.Unread() + [r.Pending()[0]]
            && r'.Pending() == r.Pending()[1..]
  {
    hide HeaderAt, Align8, Legal, Span, FrameAt, Chain, Frames, Dist, Between, Next;
    HeadPending(r);
    PublishKeeps(r, Next(r.Size(), r.com, Head(r)));
  }

  // ----- commit of a partly used reservation -----

  /** The caller's count leaves out the GSO context. */
  function UsedBytes(typ: nat, used: nat): nat {
    if typ == TYPE_GSO then used + GSO_SIZE else used
  }

  /** What the reader gets of a reservation of which `u` bytes were used. */
  function Trim(f: Frame, u: nat): Frame
    requires u <= |f.bytes|
  {
    if Align8(u) == Align8(|f.bytes|) then f else Frame(f.typ, f.bytes[..u])
  }

  predicate CanCommitEx(r: Ring, used: nat)
    requires r.Ranged()
  {
    Ready(r) && UsedBytes(Head(r).typ, used) <= Head(r).cb
  }

  predicate CanShrink(n: nat, p: nat, h: Header, u: nat) {
    && RingSize(n) && Pos(n, p) && p + 8 <= n && Legal(n, p, h) && Span(n, p, h) <= n && h.cb < U16
    && u <= h.cb && Align8(u) != Align8(h.cb)
  }

  /** Padding header behind the used bytes, then the shorter length into the frame's header. */
  function Shrink(d: seq<byte>, p: nat, h: Header, u: nat): seq<byte>
    requires CanShrink(|d|, p, h, u)
  {
    SplitPositions(|d|, p, h, u);
    Put(Put(d, Payload(p, h) + Align8(u), Enc(PaddingHeader(h, u))), p + 2, EncU16(u))
  }

  /** The ring's bytes once the frame of header `h` is cut to `u` bytes, if padding fits behind them. */
  function CutTo(d: seq<byte>, p: nat, h: Header, u: nat): (d': seq<byte>)
    requires Align8(h.cb) != Align8(u) ==> CanShrink(|d|, p, h, u)
    ensures |d'| == |d|
  {
    if Align8(h.cb) == Align8(u) then d else Shrink(d, p, h, u)
  }

  /** IntNetRingCommitFrameEx on the first outstanding reservation. */
  function CommitEx(r: Ring, used: nat): (r': Ring)
    requires r.Ranged() && CanCommitEx(r, used)
    ensures r'.Ranged()
  {
    PosRoom(r.Size(), r.com);
    var h := Head(r);
    var u := UsedBytes(h.typ, used);
    r.(data := CutTo(r.data, r.com, h, u),
       com := Next(r.Size(), r.com, h), written := Add64(r.written, u), frames := Add64(r.frames, 1))
  }

  /** Rewriting the first reservation inside its own space, then publishing it. */
  lemma RewritePublishKeeps(r: Ring, d': seq<byte>, c: nat)
    requires r.Inv() && Pos(r.Size(), c) && c != r.com && Between(r.Size(), r.com, c, r.wint) && |d'| == r.Size()
    requires Chain(r.data, c, r.wint) && Chain(d', r.com, c) && Agree(r.data, d', c, r.com)
    ensures var r1 := r.(data := d');
            r1.Inv() && Chain(d', c, r.wint)
    ensures var r' := r.(data := d', com := c);
            && r'.Inv()
            && r'.Unread() == r.Unread() + Frames(d', r.com, c)
            && r'.Pending() == Frames(r.data, c, r.wint)
  {
    hide HeaderAt, Chain, Frames, Dist, Agree;
    var n, d := r.Size(), r.data;
    RewriteHead(d, d', r.read, r.com, c, r.wint);
    PublishKeeps(r.(data := d'), c);
  }

  lemma ShrinkStored(d: seq<byte>, p: nat, h: Header, u: nat)
    requires CanShrink(|d|, p, h, u) && HeaderAt(d, p) == h
    ensures var m := Payload(p, h) + Align8(u);
            && 0 <= m && m + 8 <= |d|
            && var d1 := Put(d, m, Enc(PaddingHeader(h, u)));
               && Stored(d, d1, m, PaddingHeader(h, u)) && Stored(d1, Shrink(d, p, h, u), p, h.(cb := u))
  {
    hide HeaderAt, Align8, Enc;
    SplitPositions(|d|, p, h, u);
    var m := Payload(p, h) + Align8(u);
    PutHeader(d, m, PaddingHeader(h, u));
    var d1 := Put(d, m, Enc(PaddingHeader(h, u)));
    HeaderAgree(d, d1, p);
    PutLength(d1, p, u);
  }

  lemma PutLength(d: seq<byte>, p: nat, u: nat)
    requires p + 8 <= |d| && u < U16
    ensures Stored(d, Put(d, p + 2, EncU16(u)), p, HeaderAt(d, p).(cb := u))
  {
    var d' := Put(d, p + 2, EncU16(u));
    assert d'[p + 2..p + 4] == EncU16(u);
    U16RoundTrip(d', p + 2, u);
  }

  /** What CommitEx leaves of the reservation `f`, `u` bytes of it used: the used frame and one padding frame, or all
      of it if no padding fits. */
  predicate Cuts(f: Frame, u: nat, fs: seq<Frame>)
    requires u <= |f.bytes|
  {
    if Align8(u) == Align8(|f.bytes|) then fs == [f]
    else |fs| == 2 && fs[0] == Frame(f.typ, f.bytes[..u]) && fs[1].typ == TYPE_PADDING
         && |fs[1].bytes| == Align8(|f.bytes|) - Align8(u) - 8
  }

  /** The bytes after CommitEx: the reservation's slot holds what is left of it, all else is as it was, and the commit
      offset is that of the plain commit. */
  lemma CommitExRewrites(r: Ring, used: nat)
    requires r.Inv() && r.Pending() != [] && CanCommitEx(r, used)
    ensures var d', c := CommitEx(r, used).data, CommitEx(r, used).com;
            var f := r.Pending()[0];
            var u := UsedBytes(f.typ, used);
            && c == Commit(r).com && Pos(r.Size(), c) && c != r.com && Between(r.Size(), r.com, c, r.wint)
            && |d'| == r.Size() && u == UsedBytes(Head(r).typ, used) <= |f.bytes|
            && Chain(r.data, c, r.wint) && Frames(r.data, c, r.wint) == r.Pending()[1..]
            && Agree(r.data, d', c, r.com)
            && Chain(d', r.com, c) && Cuts(f, u, Frames(d', r.com, c))
            && (Align8(u) == Align8(|f.bytes|) ==> d' == r.data)
  {
    hide HeaderAt, Align8, Legal, Span, FrameAt, Chain, Frames, Dist, Between, Next, Put, Enc, Shrink, Stored,
         Agree;
    HeadPending(r);
    var h, d, n := Head(r), r.data, r.Size();
    var u := UsedBytes(h.typ, used);
    HeadFrame(r);
    if Align8(h.cb) != Align8(u) {
      var m := Payload(r.com, h) + Align8(u);
      ShrinkStored(d, r.com, h, u);
      SplitSlot(d, Put(d, m, Enc(PaddingHeader(h, u))), Shrink(d, r.com, h, u), r.com, h, u, m);
    } else {
      AgreeSelf(d, Next(n, r.com, h), r.com);
    }
  }

  /** A partly used reservation reaches the reader cut to the used bytes and followed by padding, or whole if no
      padding fits. */
  lemma CommitExKeeps(r: Ring, used: nat)
    requires r.Inv() && r.Pending() != [] && CanCommitEx(r, used)
    ensures var r' := CommitEx(r, used);
            var f := r.Pending()[0];
            var u := if f.typ == TYPE_GSO then used + 8 else used;
            && r'.Inv() && u == UsedBytes(Head(r).typ, used) <= |f.bytes|
            && r'.Pending() == r.Pending()[1..]
            && r.Unread() <= r'.Unread() && Cuts(f, u, r'.Unread()[|r.Unread()|..])
  {
    hide HeaderAt, Align8, Legal, Span, FrameAt, Chain, Frames, Dist, Between, Next, Put, Enc, Agree, Shrink,
         Commit, Head, CommitEx, Cuts;
    CommitExRewrites(r, used);
    var d', c := CommitEx(r, used).data, CommitEx(r, used).com;
    RewritePublishKeeps(r, d', c);
    CommitExMoves(r, used);
    assert (r.Unread() + Frames(d', r.com, c))[|r.Unread()|..] == Frames(d', r.com, c);
  }

  lemma CommitExMoves(r: Ring, used: nat)
    requires r.Ranged() && CanCommitEx(r, used)
    ensures var r' := CommitEx(r, used);
            r'.Size() == r.Size() && r'.read == r.read && r'.wint == r.wint
  {
  }

  /** The first reservation's frame, in terms of its header. */
  lemma HeadFrame(r: Ring)
    requires r.Inv() && r.Pending() != []
    ensures var h, q := Head(r), Payload(r.com, Head(r));
            && 0 <= q && q + h.cb <= r.Size()
            && r.Pending()[0] == Frame(h.typ, Read(r.data, q, h.cb))
            && forall u {:trigger Read(r.data, q, u)} :: 0 <= u <= h.cb ==>
                 Read(r.data, q, u) == r.Pending()[0].bytes[..u]
  {
    hide HeaderAt, Align8, Chain, Frames, Dist, Between, Next;
    HeadPending(r);
  }

  // ----- dropping a reservation -----

  /** drvIntNetUp_FreeBuf: relabel the first outstanding reservation as padding and commit it. */
  function Discard(r: Ring): (r': Ring)
    requires r.Ranged() && Ready(r)
    ensures r'.Ranged()
  {
    PosRoom(r.Size(), r.com);
    var h := Head(r);
    r.(data := Put(r.data, r.com, EncU16(TYPE_PADDING)),
       com := Next(r.Size(), r.com, h), written := Add64(r.written, h.cb), frames := Add64(r.frames, 1))
  }

  lemma PutType(d: seq<byte>, p: nat, typ: nat)
    requires p + 8 <= |d| && typ < U16
    ensures Stored(d, Put(d, p, EncU16(typ)), p, HeaderAt(d, p).(typ := typ))
  {
    var d' := Put(d, p, EncU16(typ));
    assert d'[p..p + 2] == EncU16(typ);
    U16RoundTrip(d', p, typ);
  }

  /** Relabelling the slot at `p` keeps its place and its bytes. */
  lemma RelabelSlot(d: seq<byte>, d': seq<byte>, p: nat, h: Header, c: nat)
    requires RingSize(|d|) && Pos(|d|, p) && HeaderAt(d, p) == h && Legal(|d|, p, h) && Span(|d|, p, h) < |d|
    requires c == Next(|d|, p, h) && Stored(d, d', p, h.(typ := TYPE_PADDING))
    ensures Pos(|d|, c) && Chain(d', p, c) && Frames(d', p, c) == [Frame(TYPE_PADDING, FrameAt(d, p).bytes)]
    ensures |d'| == |d| && Agree(d, d', c, p)
  {
    hide HeaderAt, Align8;
    StoredSlot(d, d', p, h.(typ := TYPE_PADDING), c);
    ChainOne(d', p);
  }

  lemma DiscardKeeps(r: Ring)
    requires r.Inv() && r.Pending() != []
    ensures Ready(r)
    ensures var r' := Discard(r);
            && r'.Inv()
            && r'.Unread() == r.Unread() + [Frame(TYPE_PADDING, r.Pending()[0].bytes)]
            && r'.Pending() == r.Pending()[1..]
  {
    hide HeaderAt, Align8, Legal, Span, FrameAt, Chain, Frames, Dist, Between, Next, Put, Agree, Stored;
    HeadPending(r);
    var h := Head(r);
    var c := Next(r.Size(), r.com, h);
    var d' := Put(r.data, r.com, EncU16(TYPE_PADDING));
    PutType(r.data, r.com, TYPE_PADDING);
    RelabelSlot(r.data, d', r.com, h, c);
    RewritePublishKeeps(r, d', c);
  }

  // ----- the fused write -----

  /** IntNetRingWriteFrame */
  function Write(r: Ring, bs: seq<byte>): (r': Ring)
    requires r.Ranged() && FrameSize(|bs|)
    ensures r'.Ranged()
  {
    var p := Place(r.Size(), r.read, r.wint, |bs|);
    PlaceExact(r.Size(), r.read, r.wint, |bs|, TYPE_FRAME);
    if p.Room? then
      Reserve(r, TYPE_FRAME, |bs|, p, bs)
        .(com := p.next, written := Add64(r.written, |bs|), frames := Add64(r.frames, 1))
    else
      r.(overflows := Add64(r.overflows, 1))
  }

  /** Allocation: one more reservation, or an overflow that leaves everything but its counter as it was. */
  lemma AllocKeeps(r: Ring, typ: nat, cb: nat, init: seq<byte>)
    requires r.Inv() && ValidType(typ) && FrameSize(cb) && |init| <= cb && !FillsRing(r.Size(), r.read, r.wint, cb)
    ensures var r' := Alloc(r, typ, cb, init);
            && r'.Inv() && r'.Unread() == r.Unread()
            && (Place(r.Size(), r.read, r.wint, cb).NoRoom? <==> r'.wint == r.wint)
            && (r'.wint == r.wint ==> r' == r.(overflows := Add64(r.overflows, 1)))
            && (r'.wint != r.wint ==>
                  && |r'.Pending()| == |r.Pending()| + 1 && r'.Pending()[..|r.Pending()|] == r.Pending()
                  && var f := r'.Pending()[|r.Pending()|];
                     f.typ == typ && |f.bytes| == cb && f.bytes[..|init|] == init)
  {
    hide HeaderAt, Align8, Chain, Frames, Dist, Place, FillsRing, Next, Legal;
    var p := Place(r.Size(), r.read, r.wint, cb);
    if p.Room? {
      BetweenEnds(r.Size(), r.read, r.wint);
      ReserveKeeps(r, typ, cb, r.read, init);
      StalePlacement(r.Size(), r.read, r.read, r.wint, cb, typ);
      NextMoves(r.Size(), r.wint, Header(typ, cb, p.off));
    }
  }

  /** Where a reservation goes: right behind its header whenever that leaves it before the end of the ring, and to the
      start of the ring otherwise. */
  lemma InPlaceFirst(r: Ring, typ: nat, cb: nat, init: seq<byte>)
    requires r.Ranged() && ValidType(typ) && FrameSize(cb) && |init| <= cb
    requires Place(r.Size(), r.read, r.wint, cb).Room?
    ensures r.wint + 8 <= r.Size() == Alloc(r, typ, cb, init).Size()
    ensures var r' := Alloc(r, typ, cb, init);
            var inPlace := r.wint + 8 + Align8(cb) <= r.Size();
            && HeaderAt(r'.data, r.wint) == Header(typ, cb, if inPlace then 8 else 0 - r.wint)
            && r'.wint == if !inPlace then Align8(cb)
                          else if r.wint + 8 + Align8(cb) == r.Size() then 0 else r.wint + 8 + Align8(cb)
  {
    hide HeaderAt, Align8, Put, Enc, Legal, Span, Next;
    var p := Place(r.Size(), r.read, r.wint, cb);
    var h := Header(typ, cb, p.off);
    PlaceExact(r.Size(), r.read, r.wint, cb, typ);
    PosRoom(r.Size(), r.wint);
    PutHeader(r.data, r.wint, h);
    StoredHeader(r.data, Put(r.data, r.wint, Enc(h)), r.wint, h);
    PlacementKeepsHeader(Put(r.data, r.wint, Enc(h)), r.wint, h, 0, init);
  }

  lemma NextMoves(n: nat, p: nat, h: Header)
    requires RingSize(n) && Pos(n, p) && Legal(n, p, h) && Span(n, p, h) < n
    ensures Next(n, p, h) != p
  {
  }

  // ----- reading -----

  /** IntNetRingGetNextFrameToRead: the position of the header to look at. */
  datatype MaybePos = Done | At(pos: nat)

  function NextToRead(r: Ring): MaybePos {
    if r.read == r.com then Done else At(r.read)
  }

  /** The header at the read offset: that of the oldest unread frame. */
  function ReadHead(r: Ring): Header
    requires r.Ranged()
  {
    PosRoom(r.Size(), r.read);
    HeaderAt(r.data, r.read)
  }

  lemma FirstUnread(r: Ring)
    requires r.Inv() && r.Unread() != []
    ensures r.read != r.com && Legal(r.Size(), r.read, ReadHead(r)) && r.read + 8 <= r.Size()
    ensures 0 <= r.read + ReadHead(r).off
  {
    hide HeaderAt, Align8, Frames;
    PosRoom(r.Size(), r.read);
    NonEmpty(r.data, r.read, r.com);
    LegalPayload(r.Size(), r.read, ReadHead(r));
  }

  /** Where the reader goes from the header at `p`. */
  function SkipTo(d: seq<byte>, p: nat): nat
    requires p + 8 <= |d| && 0 <= p + HeaderAt(d, p).off
  {
    Wrap(|d|, Align8(p + HeaderAt(d, p).off + HeaderAt(d, p).cb))
  }

  /** IntNetRingSkipFrame */
  function Skip(r: Ring): Ring
    requires r.Inv() && r.Unread() != []
  {
    FirstUnread(r);
    r.(read := SkipTo(r.data, r.read))
  }

  /** The reader's end-of-frame computation and the writer's agree on every legal header. */
  lemma SkipMeetsNext(n: nat, p: nat, h: Header)
    requires RingSize(n) && Pos(n, p) && Legal(n, p, h)
    ensures Wrap(n, Align8(p + h.off + h.cb)) == Next(n, p, h)
  {
    Align8Shift(p + h.off, h.cb);
  }

  /** The reader goes to the end of the first unread frame's slot. */
  lemma SkipMoves(r: Ring)
    requires r.Inv() && r.Unread() != []
    ensures r.read != r.com && Slot(r.data, r.read, r.com)
    ensures Skip(r) == r.(read := After(r.data, r.read, r.com))
  {
    hide HeaderAt, Align8, Legal, Chain, Dist, Frames, FrameAt, Span, Between;
    NonEmpty(r.data, r.read, r.com);
    ChainHead(r.data, r.read, r.com);
    SkipMeetsNext(r.Size(), r.read, HeaderAt(r.data, r.read));
  }

  /** Skipping takes exactly the first unread frame, which lies in the ring as a valid header says. */
  lemma SkipKeeps(r: Ring)
    requires r.Inv() && r.Unread() != []
    ensures NextToRead(r) == At(r.read)
    ensures Legal(r.Size(), r.read, ReadHead(r)) && r.Unread()[0] == FrameAt(r.data, r.read)
    ensures var r' := Skip(r);
            && r'.Inv() && r' == r.(read := r'.read)
            && r'.Unread() == r.Unread()[1..] && r'.Pending() == r.Pending()
            && Between(r.Size(), r.read, r'.read, r.com)
            && r'.Readable() + 8 <= r.Readable()
  {
    hide HeaderAt, Align8, Legal, Span, FrameAt, Next, Skip, Chain, Frames, After, Dist, Between;
    SkipMoves(r);
    FirstUnread(r);
    ChainHead(r.data, r.read, r.com);
    var next := After(r.data, r.read, r.com);
    BetweenTrans(r.Size(), r.read, next, r.com, r.wint);
    Closer(r.Size(), r.read, next, r.com);
  }

  lemma LegalPayload(n: nat, p: nat, h: Header)
    requires Legal(n, p, h)
    ensures 0 <= p + h.off && p + h.off + h.cb <= n
  {
  }

  // ----- the fused write against the three steps -----

  /** Where a reservation goes: apart from its own header, and, however full the ring gets, outside everything
      between the reader and the write offset. */
  lemma PlacementApart(n: nat, read: nat, wint: nat, h: Header, x: nat)
    requires RingSize(n) && Pos(n, read) && Pos(n, wint) && Legal(n, wint, h)
    requires Dist(n, read, wint) + Span(n, wint, h) <= n
    ensures wint + 8 <= n && 0 <= wint + h.off && wint + h.off + h.cb <= n
    ensures wint + 8 <= wint + h.off || wint + h.off + h.cb <= wint
    ensures wint <= x < wint + 8 || wint + h.off <= x < wint + h.off + h.cb ==> x < n && !InArc(n, read, wint, x)
  {
    hide Align8;
  }

  /** The reservation's header survives the copying of its payload. */
  lemma PlacementKeepsHeader(d: seq<byte>, p: nat, h: Header, j: nat, bs: seq<byte>)
    requires RingSize(|d|) && Pos(|d|, p) && Legal(|d|, p, h) && Span(|d|, p, h) <= |d| && j + |bs| <= h.cb
    requires p + 8 <= |d| && HeaderAt(d, p) == h
    ensures 0 <= p + h.off && p + h.off + h.cb <= |d|
    ensures HeaderAt(Put(d, p + h.off + j, bs), p) == h
  {
    hide HeaderAt, Align8, Span;
    PlacementApart(|d|, p, p, h, p);
    HeaderAgree(d, Put(d, p + h.off + j, bs), p);
  }

  /** What is between the reader and the write offset survives an allocation and the copying that follows, even if
      the ring is then full. */
  lemma PlacementAgree(d: seq<byte>, d1: seq<byte>, read: nat, wint: nat, h: Header, j: nat, bs: seq<byte>)
    requires RingSize(|d|) && Pos(|d|, read) && Pos(|d|, wint) && Legal(|d|, wint, h) && j + |bs| <= h.cb
    requires Dist(|d|, read, wint) + Span(|d|, wint, h) <= |d| && Stored(d, d1, wint, h)
    ensures 0 <= wint + h.off && wint + h.off + h.cb <= |d|
    ensures Agree(d, Put(d1, wint + h.off + j, bs), read, wint)
  {
    hide HeaderAt, Align8, Legal, Span, InArc;
    PlacementApart(|d|, read, wint, h, 0);
    var d' := Put(d1, wint + h.off + j, bs);
    forall x: nat | x < |d| && InArc(|d|, read, wint, x) ensures d[x] == d'[x] {
      PlacementApart(|d|, read, wint, h, x);
    }
  }

  /** Allocate a frame and copy `bs` behind its first bytes: the first two of three steps. */
  function AllocAndCopy(r: Ring, typ: nat, init: seq<byte>, bs: seq<byte>): (r': Ring)
    requires r.Ranged() && ValidType(typ) && FrameSize(|init| + |bs|)
    ensures r'.Ranged()
  {
    var cb := |init| + |bs|;
    var p, r1 := Place(r.Size(), r.read, r.wint, cb), Alloc(r, typ, cb, init);
    PlaceExact(r.Size(), r.read, r.wint, cb, typ);
    if p.Room? then
      LegalPayload(r.Size(), r.wint, Header(typ, cb, p.off));
      r1.(data := Put(r1.data, r.wint + p.off + |init|, bs))
    else r1
  }

  lemma AllocAndCopyMoves(r: Ring, typ: nat, init: seq<byte>, bs: seq<byte>)
    requires r.Ranged() && ValidType(typ) && FrameSize(|init| + |bs|)
    ensures var r2 := AllocAndCopy(r, typ, init, bs);
            r2.Size() == r.Size() && r2.com == r.com && r2.read == r.read
  {
    hide HeaderAt, Align8, Dist, Place, Put, Enc;
  }

  /** With everything before it committed, the reservation just made is the one a commit finds. */
  lemma AllocatedIsHead(r: Ring, typ: nat, init: seq<byte>, bs: seq<byte>)
    requires r.Ranged() && ValidType(typ) && FrameSize(|init| + |bs|) && r.com == r.wint
    requires Place(r.Size(), r.read, r.wint, |init| + |bs|).Room?
    ensures var r2 := AllocAndCopy(r, typ, init, bs);
            var p := Place(r.Size(), r.read, r.wint, |init| + |bs|);
            Head(r2) == Header(typ, |init| + |bs|, p.off) && Ready(r2) && Commit(r2).com == p.next
  {
    hide HeaderAt, Align8, Dist, Place, FillsRing, Legal, Put, Enc, Next, Span, Stored;
    var n, cb := r.Size(), |init| + |bs|;
    var p := Place(n, r.read, r.wint, cb);
    var h := Header(typ, cb, p.off);
    PlaceExact(n, r.read, r.wint, cb, typ);
    LegalPayload(n, r.wint, h);
    PutHeader(r.data, r.wint, h);
    StoredHeader(r.data, Put(r.data, r.wint, Enc(h)), r.wint, h);
    PlacementKeepsHeader(Put(r.data, r.wint, Enc(h)), r.wint, h, 0, init);
    PlacementKeepsHeader(Alloc(r, typ, cb, init).data, r.wint, h, |init|, bs);
  }

  lemma StoredHeader(d: seq<byte>, d': seq<byte>, p: nat, h: Header)
    requires Stored(d, d', p, h)
    ensures |d'| == |d| && HeaderAt(d', p) == h
  {
  }

  /** An older reservation stays the one a commit finds. */
  lemma OlderStaysHead(r: Ring, typ: nat, init: seq<byte>, bs: seq<byte>)
    requires r.Inv() && ValidType(typ) && FrameSize(|init| + |bs|) && r.com != r.wint
    ensures var r2 := AllocAndCopy(r, typ, init, bs);
            && Head(r2) == Head(r) && Ready(r2) && Agree(r.data, r2.data, r.read, r.wint)
  {
    hide HeaderAt, Align8, Dist, Place, FillsRing, Legal, Put, Enc, Next, Span, Stored, Chain, Frames, Agree, Slot;
    var n, cb := r.Size(), |init| + |bs|;
    var p := Place(n, r.read, r.wint, cb);
    NonEmpty(r.data, r.com, r.wint);
    HeadPending(r);
    if p.Room? {
      var h := Header(typ, cb, p.off);
      PlaceExact(n, r.read, r.wint, cb, typ);
      LegalPayload(n, r.wint, h);
      var d1 := Put(r.data, r.wint, Enc(h));
      PutHeader(r.data, r.wint, h);
      PutTwice(d1, r.wint + h.off, init, bs);
      PlacementAgree(r.data, d1, r.read, r.wint, h, 0, init + bs);
      var d2 := AllocAndCopy(r, typ, init, bs).data;
      AgreeSplit(r.data, d2, r.read, r.com, r.wint);
      ChainHead(r.data, r.com, r.wint);
      SlotAgree(r.data, d2, r.com, r.wint);
    } else {
      AgreeSelf(r.data, r.read, r.wint);
    }
  }

  lemma PutTwice(d: seq<byte>, p: int, a: seq<byte>, b: seq<byte>)
    requires 0 <= p && p + |a| + |b| <= |d|
    ensures Put(Put(d, p, a), p + |a|, b) == Put(d, p, a + b)
  {
  }

  /** Copying behind the first bytes is reserving with all of them. */
  lemma CopyIsReserve(r: Ring, typ: nat, init: seq<byte>, bs: seq<byte>)
    requires r.Ranged() && ValidType(typ) && FrameSize(|init| + |bs|)
    requires Place(r.Size(), r.read, r.wint, |init| + |bs|).Room?
    ensures var p := Place(r.Size(), r.read, r.wint, |init| + |bs|);
            && (p.off == 8 || r.wint + p.off == 0)
            && 0 <= r.wint + p.off && r.wint + p.off + |init| + |bs| <= r.Size()
            && AllocAndCopy(r, typ, init, bs) == Reserve(r, typ, |init| + |bs|, p, init + bs)
  {
    hide HeaderAt, Align8, Dist, Place, Legal, Put, Enc, Next, Span;
    var p, cb := Place(r.Size(), r.read, r.wint, |init| + |bs|), |init| + |bs|;
    PlaceExact(r.Size(), r.read, r.wint, cb, typ);
    LegalPayload(r.Size(), r.wint, Header(typ, cb, p.off));
    PutTwice(Put(r.data, r.wint, Enc(Header(typ, cb, p.off))), r.wint + p.off, init, bs);
  }

  /** Allocating, copying and committing on a ring with nothing outstanding delivers one frame of exactly those bytes,
      unless it fills the ring: then the reader finds nothing at all. */
  lemma CopyCommitDelivers(r: Ring, typ: nat, init: seq<byte>, bs: seq<byte>)
    requires r.Inv() && r.com == r.wint && ValidType(typ) && FrameSize(|init| + |bs|)
    requires Place(r.Size(), r.read, r.wint, |init| + |bs|).Room?
    ensures Ready(AllocAndCopy(r, typ, init, bs))
    ensures var r' := Commit(AllocAndCopy(r, typ, init, bs));
            && r'.Inv() && r'.Pending() == []
            && r'.Unread() == if FillsRing(r.Size(), r.read, r.wint, |init| + |bs|) then []
                              else r.Unread() + [Frame(typ, init + bs)]
  {
    hide HeaderAt, Align8, Chain, Frames, Dist, Place, FillsRing, Legal, Put, Enc, Read, Reserve, Between, Next, Ready,
         AllocAndCopy, Commit;
    var n, cb := r.Size(), |init| + |bs|;
    var p, r2 := Place(n, r.read, r.wint, cb), AllocAndCopy(r, typ, init, bs);
    AllocatedIsHead(r, typ, init, bs);
    CopyIsReserve(r, typ, init, bs);
    ReserveMoves(r, typ, cb, p, init + bs);
    CommitMoves(r2);
    if FillsRing(n, r.read, r.wint, cb) {
      FillsEndsAtReader(n, r.read, r.wint, cb);
      FreshRing(Commit(r2));
    } else {
      BetweenEnds(n, r.read, r.wint);
      ReserveKeeps(r, typ, cb, r.read, init + bs);
      NonEmpty(r.data, r.com, r.wint);
      PutAll(Read(r.data, r.wint + p.off, cb), init + bs);
      CommitKeeps(r2);
    }
  }

  lemma FillsEndsAtReader(n: nat, read: nat, wint: nat, cb: nat)
    requires Place(n, read, wint, cb).Room? && FillsRing(n, read, wint, cb)
    ensures Place(n, read, wint, cb).next == read
  {
  }

  lemma CommitMoves(r: Ring)
    requires r.Ranged() && Ready(r)
    ensures Commit(r) == r.(com := Commit(r).com, written := Commit(r).written, frames := Commit(r).frames)
  {
  }

  lemma CopiedReady(r: Ring, typ: nat, init: seq<byte>, bs: seq<byte>)
    requires r.Ranged() && ValidType(typ) && FrameSize(|init| + |bs|) && (r.com == r.wint || r.Inv())
    requires Place(r.Size(), r.read, r.wint, |init| + |bs|).Room?
    ensures Ready(AllocAndCopy(r, typ, init, bs))
  {
    hide HeaderAt, Align8, Place, AllocAndCopy, Chain, Ready, Dist;
    if r.com == r.wint {
      AllocatedIsHead(r, typ, init, bs);
    } else {
      OlderStaysHead(r, typ, init, bs);
    }
  }

  /** Allocate, copy, commit. */
  function ThreeStepWrite(r: Ring, bs: seq<byte>): (r': Ring)
    requires r.Ranged() && FrameSize(|bs|) && (r.com == r.wint || r.Inv())
    ensures r'.Ranged()
  {
    if Place(r.Size(), r.read, r.wint, |bs|).Room? then
      CopiedReady(r, TYPE_FRAME, [], bs);
      Commit(AllocAndCopy(r, TYPE_FRAME, [], bs))
    else
      Alloc(r, TYPE_FRAME, |bs|, [])
  }

  /** With nothing outstanding, the fused write leaves the ring exactly as allocate, copy and commit do, whatever the
      outcome. */
  lemma WriteRefinesThreeSteps(r: Ring, bs: seq<byte>)
    requires r.Ranged() && FrameSize(|bs|) && r.com == r.wint
    ensures Write(r, bs) == ThreeStepWrite(r, bs)
  {
    hide HeaderAt, Align8, Dist, Place, Legal, Put, Enc, Next, Span, Stored;
    var p := Place(r.Size(), r.read, r.wint, |bs|);
    if p.Room? {
      AllocatedIsHead(r, TYPE_FRAME, [], bs);
      var h := Header(TYPE_FRAME, |bs|, p.off);
      PlaceExact(r.Size(), r.read, r.wint, |bs|, TYPE_FRAME);
      LegalPayload(r.Size(), r.wint, h);
      PutNothing(Put(r.data, r.wint, Enc(h)), r.wint + h.off);
    }
  }

  /** The fused write on a ring with nothing outstanding delivers exactly the given bytes, or overflows. */
  lemma WriteKeeps(r: Ring, bs: seq<byte>)
    requires r.Inv() && FrameSize(|bs|) && !FillsRing(r.Size(), r.read, r.wint, |bs|)
    requires r.com == r.wint
    ensures var r', p := Write(r, bs), Place(r.Size(), r.read, r.wint, |bs|);
            && r'.Inv() && r'.Pending() == [] == r.Pending()
            && (p.NoRoom? ==> r' == r.(overflows := Add64(r.overflows, 1)) && r'.Unread() == r.Unread())
            && (p.Room? ==> r'.Unread() == r.Unread() + [Frame(TYPE_FRAME, bs)])
  {
    hide HeaderAt, Align8, Chain, Frames, Dist, Place, FillsRing, Legal, Put, Enc, Read, Reserve, Between;
    var n, p := r.Size(), Place(r.Size(), r.read, r.wint, |bs|);
    NonEmpty(r.data, r.com, r.wint);
    if p.Room? {
      BetweenEnds(n, r.read, r.wint);
      ReserveKeeps(r, TYPE_FRAME, |bs|, r.read, bs);
      var r1 := Reserve(r, TYPE_FRAME, |bs|, p, bs);
      PutAll(Read(r.data, r.wint + p.off, |bs|), bs);
      ReserveMoves(r, TYPE_FRAME, |bs|, p, bs);
      BetweenEnds(n, r1.com, p.next);
      ChainSelf(r1.data, p.next);
      PublishKeeps(r1, p.next);
      CountersApart(r1.(com := p.next), Write(r, bs));
    }
  }

  lemma ReserveMoves(r: Ring, typ: nat, cb: nat, p: Placement, init: seq<byte>)
    requires r.Ranged() && ValidType(typ) && FrameSize(cb) && p.Room? && (p.off == 8 || r.wint + p.off == 0)
    requires 0 <= r.wint + p.off && r.wint + p.off + |init| <= r.Size()
    ensures var r' := Reserve(r, typ, cb, p, init);
            r' == r.(data := r'.data, wint := p.next) && r'.Size() == r.Size()
  {
  }

  /** The counters have no part in the invariant. */
  lemma CountersApart(r: Ring, r': Ring)
    requires r.Inv() && r' == r.(written := r'.written, frames := r'.frames, overflows := r'.overflows)
    ensures r'.Inv() && r'.Unread() == r.Unread() && r'.Pending() == r.Pending()
  {
    hide Chain, Frames, Dist;
  }

  lemma PutAll(d: seq<byte>, bs: seq<byte>)
    requires |d| == |bs|
    ensures Put(d, 0, bs) == bs
  {
  }
}
