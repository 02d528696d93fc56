// Frames as they lie in the ring bytes: headers, where a header may send its
// payload, and the chain of headers leading from one position to another.
module Framing {
  import opened Bytes
  import opened Geometry

  const TYPE_FRAME: nat := 0x2442
  const TYPE_PADDING: nat := 0x3553
  const TYPE_GSO: nat := 0x4664

  predicate ValidType(typ: nat) {
    typ == TYPE_FRAME || typ == TYPE_GSO || typ == TYPE_PADDING
  }

  /** INTNETHDR: u16Type, cbFrame, offFrame. */
  datatype Header = Header(typ: nat, cb: nat, off: int)

  /** What a frame carries, independent of where it lies. */
  datatype Frame = Frame(typ: nat, bytes: seq<byte>)

  predicate Encodable(h: Header) {
    h.typ < U16 && h.cb < U16 && -0x8000_0000 <= h.off < 0x8000_0000
  }

  function Enc(h: Header): (r: seq<byte>)
    requires Encodable(h)
    ensures |r| == 8
  {
    EncU16(h.typ) + EncU16(h.cb) + EncI32(h.off)
  }

  /** The layout of a header: two, two and four bytes, each field from its low byte up, the offset in two's
      complement. */
  lemma HeaderBytes(h: Header)
    requires Encodable(h)
    ensures var e := Enc(h);
            && h.typ == e[0] as int + 0x100 * e[1] as int
            && h.cb == e[2] as int + 0x100 * e[3] as int
            && (if h.off >= 0 then h.off else h.off + 0x1_0000_0000)
               == e[4] as int + 0x100 * e[5] as int + 0x1_0000 * e[6] as int + 0x100_0000 * e[7] as int
  {
    Digits(h.off % U32);
  }

  function HeaderAt(d: seq<byte>, p: nat): (h: Header)
    requires p + 8 <= |d|
    ensures Encodable(h)
  {
    Header(U16At(d, p), U16At(d, p + 2), I32At(d, p + 4))
  }

  lemma HeaderRoundTrip(d: seq<byte>, p: nat, h: Header)
    requires p + 8 <= |d| && Encodable(h)
    requires d[p..p + 8] == Enc(h)
    ensures HeaderAt(d, p) == h
  {
    var e := d[p..p + 8];
    assert e[0..2] == EncU16(h.typ) && e[2..4] == EncU16(h.cb) && e[4..8] == EncI32(h.off);
    assert forall i :: 0 <= i < 8 ==> d[p + i] == e[i];
    assert d[p..p + 2] == e[0..2];
    assert d[p + 2..p + 2 + 2] == e[2..4];
    assert d[p + 4..p + 4 + 4] == e[4..8];
    U16RoundTrip(d, p, h.typ);
    U16RoundTrip(d, p + 2, h.cb);
    I32RoundTrip(d, p + 4, h.off);
  }

  /** Where the payload of the header at `p` starts. */
  function Payload(p: nat, h: Header): int {
    p + h.off
  }

  /** The payload follows its header, or starts the ring while the header closes it. */
  predicate Legal(n: nat, p: nat, h: Header)
  {
    && ValidType(h.typ)
    && ((h.off == 8 && p + 8 + Align8(h.cb) <= n)
        || (p + h.off == 0 && Align8(h.cb) <= n))
  }

  /** The bytes of ring used by the header at `p`, its payload, and any tail left unused between them. */
  function Span(n: nat, p: nat, h: Header): int
  {
    if h.off == 8 then 8 + Align8(h.cb) else n - p + Align8(h.cb)
  }

  /** A header at `a` whose slot ends at or before `b`. */
  predicate Slot(d: seq<byte>, a: nat, b: nat)
    requires RingSize(|d|) && Pos(|d|, a) && Pos(|d|, b)
  {
    a != b && Legal(|d|, a, HeaderAt(d, a)) && Span(|d|, a, HeaderAt(d, a)) <= Dist(|d|, a, b)
  }

  /** The position right after the payload. */
  function Next(n: nat, p: nat, h: Header): (r: nat)
    requires RingSize(n) && Pos(n, p) && Legal(n, p, h)
    ensures Pos(n, r)
    ensures Span(n, p, h) < n ==> Dist(n, p, r) == Span(n, p, h) >= 8
  {
    hide Align8;
    Wrap(n, Payload(p, h) + Align8(h.cb))
  }

  function After(d: seq<byte>, a: nat, b: nat): (r: nat)
    requires RingSize(|d|) && Pos(|d|, a) && Pos(|d|, b) && Slot(d, a, b)
    ensures Pos(|d|, r) && Dist(|d|, a, r) >= 8 && Between(|d|, a, r, b)
  {
    Next(|d|, a, HeaderAt(d, a))
  }

  /** Following headers from `a` leads, without overshooting, exactly to `b`. */
  predicate Chain(d: seq<byte>, a: nat, b: nat)
    requires RingSize(|d|) && Pos(|d|, a) && Pos(|d|, b)
    decreases Dist(|d|, a, b)
  {
    a == b || (Slot(d, a, b) && Chain(d, After(d, a, b), b))
  }

  /** `cb` bytes of `d` from `q` on. */
  function Read(d: seq<byte>, q: nat, cb: nat): (r: seq<byte>)
    requires q + cb <= |d|
    ensures |r| == cb && forall i {:trigger r[i]} :: 0 <= i < cb ==> r[i] == d[q + i]
  {
    seq(cb, i requires 0 <= i < cb => d[q + i])
  }

  /** Where the payload of the slot at `a` starts; its bytes are apart from the header's and inside the slot. */
  function PayloadAt(d: seq<byte>, a: nat, b: nat): (q: nat)
    requires RingSize(|d|) && Pos(|d|, a) && Pos(|d|, b) && Slot(d, a, b)
    ensures q + HeaderAt(d, a).cb <= q + Align8(HeaderAt(d, a).cb) <= |d|
    ensures a + 8 <= q || q + Align8(HeaderAt(d, a).cb) <= a
    ensures forall x :: q <= x < q + Align8(HeaderAt(d, a).cb) ==> InArc(|d|, a, After(d, a, b), x)
  {
    Payload(a, HeaderAt(d, a))
  }

  function FrameAt(d: seq<byte>, p: nat): (f: Frame)
    requires Pos(|d|, p) && RingSize(|d|) && Legal(|d|, p, HeaderAt(d, p))
    ensures |f.bytes| == HeaderAt(d, p).cb
  {
    var h := HeaderAt(d, p);
    Frame(h.typ, Read(d, Payload(p, h), h.cb))
  }

  /** The frames met on the chain from `a` to `b`, in order. */
  function Frames(d: seq<byte>, a: nat, b: nat): seq<Frame>
    requires RingSize(|d|) && Pos(|d|, a) && Pos(|d|, b) && Chain(d, a, b)
    decreases Dist(|d|, a, b)
  {
    if a == b then [] else [FrameAt(d, a)] + Frames(d, After(d, a, b), b)
  }

  /** The two contents agree on every byte from `a` up to `b`. */
  predicate Agree(d: seq<byte>, d': seq<byte>, a: nat, b: nat)
    requires a < |d| == |d'| && b < |d|
  {
    forall x: nat {:trigger InArc(|d|, a, b, x)} :: x < |d| && InArc(|d|, a, b, x) ==> d[x] == d'[x]
  }

  lemma AgreeSplit(d: seq<byte>, d': seq<byte>, a: nat, b: nat, c: nat)
    requires a < |d| == |d'| && b < |d| && c < |d| && Between(|d|, a, b, c)
    ensures Agree(d, d', a, c) <==> Agree(d, d', a, b) && Agree(d, d', b, c)
  {
    forall x | 0 <= x < |d| {
      ArcSplit(|d|, a, b, c, x);
    }
  }

  /** What is stored between `p` and `next` is not seen by an arc leading up to `p`. */
  lemma AgreeBefore(d: seq<byte>, d': seq<byte>, a: nat, p: nat, next: nat)
    requires a < |d| == |d'| && p < |d| && next < |d| && p != next
    requires Between(|d|, a, p, next) && Agree(d, d', next, p)
    ensures Agree(d, d', a, p)
  {
    forall x: nat | x < |d| && InArc(|d|, a, p, x) ensures d[x] == d'[x] {
      assert InArc(|d|, next, p, x);
    }
  }

  lemma AgreeSelf(d: seq<byte>, a: nat, b: nat)
    requires a < |d| && b < |d|
    ensures Agree(d, d, a, b)
  {
  }

  /** Equal header bytes, equal headers. */
  lemma HeaderAgree(d: seq<byte>, d': seq<byte>, p: nat)
    requires p + 8 <= |d| == |d'| && forall x :: p <= x < p + 8 ==> d'[x] == d[x]
    ensures HeaderAt(d', p) == HeaderAt(d, p)
  {
  }

  /** A slot whose bytes are unchanged has the same header and the same frame. */
  lemma SlotAgree(d: seq<byte>, d': seq<byte>, a: nat, b: nat)
    requires |d| == |d'| && RingSize(|d|) && Pos(|d|, a) && Pos(|d|, b)
    requires Slot(d, a, b) && Agree(d, d', a, b)
    ensures HeaderAt(d', a) == HeaderAt(d, a) && Slot(d', a, b) && FrameAt(d', a) == FrameAt(d, a)
  {
    hide HeaderAt;
    forall x | a <= x < a + 8 ensures d'[x] == d[x] {
      assert InArc(|d|, a, b, x);
    }
    HeaderAgree(d, d', a);
    var q, cb := PayloadAt(d, a, b), HeaderAt(d, a).cb;
    forall x | q <= x < q + cb ensures d'[x] == d[x] {
      assert InArc(|d|, a, b, x);
    }
    assert Read(d', q, cb) == Read(d, q, cb);
  }

  /** Bytes outside the arc from `a` to `b` have no influence on the frames between them. */
  lemma {:induction false} ChainAgree(d: seq<byte>, d': seq<byte>, a: nat, b: nat)
    requires |d| == |d'| && RingSize(|d|) && Pos(|d|, a) && Pos(|d|, b)
    requires Chain(d, a, b) && Agree(d, d', a, b)
    ensures Chain(d', a, b) && Frames(d', a, b) == Frames(d, a, b)
    decreases Dist(|d|, a, b)
  {
    if a != b {
      AgreeSplit(d, d', a, After(d, a, b), b);
      SlotAgree(d, d', a, b);
      ChainAgree(d, d', After(d, a, b), b);
    }
  }

  /** Chains compose, and so do their frames. */
  lemma {:induction false} ChainConcat(d: seq<byte>, a: nat, b: nat, c: nat)
    requires RingSize(|d|) && Pos(|d|, a) && Pos(|d|, b) && Pos(|d|, c)
    requires Chain(d, a, b) && Chain(d, b, c) && Between(|d|, a, b, c)
    ensures Chain(d, a, c) && Frames(d, a, c) == Frames(d, a, b) + Frames(d, b, c)
    decreases Dist(|d|, a, b)
  {
    hide HeaderAt, Legal, Span, FrameAt, Next;
    if a == b {
      assert [] + Frames(d, b, c) == Frames(d, b, c);
    } else {
      var next := After(d, a, b);
      BetweenTrans(|d|, a, next, b, c);
      assert Slot(d, a, c) && After(d, a, c) == next;
      ChainConcat(d, next, b, c);
      assert [FrameAt(d, a)] + (Frames(d, next, b) + Frames(d, b, c))
          == ([FrameAt(d, a)] + Frames(d, next, b)) + Frames(d, b, c);
    }
  }

  lemma ChainSelf(d: seq<byte>, a: nat)
    requires RingSize(|d|) && Pos(|d|, a)
    ensures Chain(d, a, a) && Frames(d, a, a) == []
  {
  }

  /** A single header is a chain of one frame. */
  lemma ChainOne(d: seq<byte>, a: nat)
    requires RingSize(|d|) && Pos(|d|, a) && Legal(|d|, a, HeaderAt(d, a)) && Span(|d|, a, HeaderAt(d, a)) < |d|
    ensures var b := Next(|d|, a, HeaderAt(d, a));
            && Slot(d, a, b) && After(d, a, b) == b && Chain(d, a, b) && Frames(d, a, b) == [FrameAt(d, a)]
  {
    var b := Next(|d|, a, HeaderAt(d, a));
    assert Chain(d, b, b) && Frames(d, b, b) == [];
  }

  // ----- the k-th frame of a chain -----

  /** The position of the k-th header on the chain from `a` to `b`. */
  function SlotPos(d: seq<byte>, a: nat, b: nat, k: nat): (p: nat)
    requires RingSize(|d|) && Pos(|d|, a) && Pos(|d|, b) && Chain(d, a, b) && k < |Frames(d, a, b)|
    ensures Pos(|d|, p) && Slot(d, p, b) && Between(|d|, a, p, b)
    ensures FrameAt(d, p) == Frames(d, a, b)[k]
    decreases k
  {
    hide HeaderAt, Align8, Legal, Span, Next, FrameAt, Dist;
    if k == 0 then a else
      var next := After(d, a, b);
      var p := SlotPos(d, next, b, k - 1);
      BetweenExtend(|d|, a, next, p, b);
      p
  }

  /** The position of byte `j` of the k-th frame. */
  function BytePos(d: seq<byte>, a: nat, b: nat, k: nat, j: nat): (x: nat)
    requires RingSize(|d|) && Pos(|d|, a) && Pos(|d|, b) && Chain(d, a, b) && k < |Frames(d, a, b)|
  {
    PayloadAt(d, SlotPos(d, a, b, k), b) + j
  }

  lemma BytePosLater(d: seq<byte>, a: nat, b: nat, k: nat, j: nat)
    requires RingSize(|d|) && Pos(|d|, a) && Pos(|d|, b) && Chain(d, a, b) && 0 < k < |Frames(d, a, b)|
    ensures a != b && BytePos(d, a, b, k, j) == BytePos(d, After(d, a, b), b, k - 1, j)
  {
    hide HeaderAt, Align8, Legal, Span, Next, FrameAt, Dist;
  }

  /** Storing into the payload of the first frame. */
  lemma StoreInSlot(d: seq<byte>, a: nat, b: nat, j: nat, bs: seq<byte>)
    requires RingSize(|d|) && Pos(|d|, a) && Pos(|d|, b) && Slot(d, a, b) && j + |bs| <= HeaderAt(d, a).cb
    ensures var d' := Put(d, PayloadAt(d, a, b) + j, bs);
            && HeaderAt(d', a) == HeaderAt(d, a)
            && FrameAt(d', a) == Frame(FrameAt(d, a).typ, Put(FrameAt(d, a).bytes, j, bs))
            && Agree(d, d', After(d, a, b), a)
  {
    hide HeaderAt, Align8, Span;
    var q, cb := PayloadAt(d, a, b), HeaderAt(d, a).cb;
    var d' := Put(d, q + j, bs);
    HeaderAgree(d, d', a);
    assert Read(d', q, cb) == Put(Read(d, q, cb), j, bs);
  }

  /** Changing only the first slot, in place, keeps the rest of the chain. */
  lemma ReplaceHead(d: seq<byte>, d': seq<byte>, a: nat, b: nat)
    requires |d| == |d'| && RingSize(|d|) && Pos(|d|, a) && Pos(|d|, b) && Slot(d, a, b)
    requires Slot(d', a, b) && After(d', a, b) == After(d, a, b)
    requires Chain(d, After(d, a, b), b) && Agree(d, d', After(d, a, b), b)
    ensures Chain(d', a, b) && Frames(d', a, b) == [FrameAt(d', a)] + Frames(d, After(d, a, b), b)
  {
    ChainAgree(d, d', After(d, a, b), b);
  }

  /** Changing only what follows the first slot keeps the first frame. */
  lemma ReplaceTail(d: seq<byte>, d': seq<byte>, a: nat, b: nat)
    requires |d| == |d'| && RingSize(|d|) && Pos(|d|, a) && Pos(|d|, b) && Slot(d, a, b)
    requires Agree(d, d', a, After(d, a, b)) && Chain(d', After(d, a, b), b)
    ensures Chain(d', a, b) && Frames(d', a, b) == [FrameAt(d, a)] + Frames(d', After(d, a, b), b)
  {
    SlotAgree(d, d', a, After(d, a, b));
  }

  /** `f` with `bs` stored at byte `j`. */
  function Patch(f: Frame, j: nat, bs: seq<byte>): Frame
    requires j + |bs| <= |f.bytes|
  {
    Frame(f.typ, Put(f.bytes, j, bs))
  }

  lemma StoreInFirst(d: seq<byte>, d': seq<byte>, a: nat, b: nat, j: nat, bs: seq<byte>)
    requires RingSize(|d|) && Pos(|d|, a) && Pos(|d|, b) && Slot(d, a, b) && Chain(d, After(d, a, b), b)
    requires j + |bs| <= |FrameAt(d, a).bytes| && d' == Put(d, PayloadAt(d, a, b) + j, bs)
    ensures Chain(d', a, b) && Agree(d, d', b, a)
    ensures Frames(d', a, b) == [Patch(FrameAt(d, a), j, bs)] + Frames(d, After(d, a, b), b)
  {
    var next := After(d, a, b);
    StoreInSlot(d, a, b, j, bs);
    Rotate(|d|, a, next, b);
    AgreeSplit(d, d', next, b, a);
    ReplaceHead(d, d', a, b);
  }

  lemma UpdateCons<T>(x: T, s: seq<T>, k: nat, y: T)
    requires k <= |s|
    ensures ([x] + s)[k] == if k == 0 then x else s[k - 1]
    ensures ([x] + s)[k := y] == if k == 0 then [y] + s else [x] + s[k - 1 := y]
  {
  }

  /** `d'` is `d` with `bs` stored at byte `j` of the k-th frame: that frame has those bytes, no other frame and
      nothing outside the chain has changed. */
  predicate Patched(d: seq<byte>, d': seq<byte>, a: nat, b: nat, k: nat, j: nat, bs: seq<byte>)
    requires RingSize(|d|) && Pos(|d|, a) && Pos(|d|, b) && Chain(d, a, b) && k < |Frames(d, a, b)|
    requires j + |bs| <= |Frames(d, a, b)[k].bytes|
  {
    && BytePos(d, a, b, k, j) + |bs| <= |d| && d' == Put(d, BytePos(d, a, b, k, j), bs)
    && Chain(d', a, b)
    && Frames(d', a, b) == Frames(d, a, b)[k := Patch(Frames(d, a, b)[k], j, bs)]
    && Agree(d, d', b, a)
  }

  /** Storing into the payload of one frame changes that frame's bytes, no header and no other frame. */
  lemma {:induction false} StoreInPayload(d: seq<byte>, a: nat, b: nat, k: nat, j: nat, bs: seq<byte>)
    requires RingSize(|d|) && Pos(|d|, a) && Pos(|d|, b) && Chain(d, a, b) && k < |Frames(d, a, b)|
    requires j + |bs| <= |Frames(d, a, b)[k].bytes|
    ensures BytePos(d, a, b, k, j) + |bs| <= |d|
    ensures Patched(d, Put(d, BytePos(d, a, b, k, j), bs), a, b, k, j, bs)
    decreases k
  {
    hide HeaderAt, Put, Read, Dist, InArc, Align8, Legal, Span, Next, Payload, Agree, PayloadAt, FrameAt;
    if k == 0 {
      var f := FrameAt(d, a);
      StoreInFirst(d, Put(d, PayloadAt(d, a, b) + j, bs), a, b, j, bs);
      UpdateCons(f, Frames(d, After(d, a, b), b), 0, Patch(f, j, bs));
    } else {
      var next := After(d, a, b);
      StoreInPayload(d, next, b, k - 1, j, bs);
      StoreInLater(d, Put(d, BytePos(d, next, b, k - 1, j), bs), a, b, k, j, bs);
    }
  }

  lemma StoreInLater(d: seq<byte>, d': seq<byte>, a: nat, b: nat, k: nat, j: nat, bs: seq<byte>)
    requires RingSize(|d|) && Pos(|d|, a) && Pos(|d|, b) && Chain(d, a, b) && 0 < k < |Frames(d, a, b)|
    requires j + |bs| <= |Frames(d, a, b)[k].bytes|
    requires Patched(d, d', After(d, a, b), b, k - 1, j, bs)
    ensures Patched(d, d', a, b, k, j, bs)
  {
    hide HeaderAt, Put, Read, Dist, InArc, Align8, Legal, Span, Next, Payload, Agree, Between, FrameAt, Chain, Frames,
         BytePos, SlotPos, After, Patch;
    BytePosLater(d, a, b, k, j);
    ChainHead(d, a, b);
    var next := After(d, a, b);
    var f := Frames(d, next, b)[k - 1];
    Rotate(|d|, a, next, b);
    Rotate(|d|, next, b, a);
    AgreeSplit(d, d', b, a, next);
    ReplaceTail(d, d', a, b);
    UpdateCons(FrameAt(d, a), Frames(d, next, b), k, Patch(f, j, bs));
  }

  // ----- writing a header -----

  /** Its three fields stored one after the other. */
  lemma HeaderPuts(d: seq<byte>, p: nat, h: Header)
    requires p + 8 <= |d| && Encodable(h)
    ensures Put(Put(Put(d, p, EncU16(h.typ)), p + 2, EncU16(h.cb)), p + 4, EncI32(h.off)) == Put(d, p, Enc(h))
  {
    hide EncU16, EncI32;
  }

  /** `d'` is `d` with the header `h` stored at `p`. */
  predicate Stored(d: seq<byte>, d': seq<byte>, p: nat, h: Header) {
    && p + 8 <= |d| == |d'|
    && HeaderAt(d', p) == h
    && forall x {:trigger d'[x]} :: 0 <= x < |d| && !(p <= x < p + 8) ==> d'[x] == d[x]
  }

  lemma PutHeader(d: seq<byte>, p: nat, h: Header)
    requires p + 8 <= |d| && Encodable(h)
    ensures Stored(d, Put(d, p, Enc(h)), p, h)
  {
    hide HeaderAt, Enc;
    var d' := Put(d, p, Enc(h));
    assert d'[p..p + 8] == Enc(h);
    HeaderRoundTrip(d', p, h);
  }

  /** The header at `p` is outside any arc that ends at `p` and leaves eight bytes free. */
  lemma HeaderOutside(d: seq<byte>, d': seq<byte>, p: nat, h: Header, a: nat)
    requires RingSize(|d|) && Pos(|d|, p) && Pos(|d|, a) && Stored(d, d', p, h)
    ensures Agree(d, d', a, p)
  {
    hide HeaderAt;
  }

  // ----- splitting a slot -----

  /** The slot of `h` at `p`, cut after `u` bytes: a shorter frame, then a padding frame for the rest. */
  function PaddingHeader(h: Header, u: nat): (pad: Header)
    requires u <= h.cb && Align8(u) != Align8(h.cb)
    ensures h.cb < U16 ==> Encodable(pad)
  {
    Align8Mono(u, h.cb);
    Header(TYPE_PADDING, Align8(h.cb) - Align8(u) - 8, 8)
  }

  lemma SplitPositions(n: nat, p: nat, h: Header, u: nat)
    requires RingSize(n) && Pos(n, p) && Legal(n, p, h) && Span(n, p, h) <= n
    requires u <= h.cb && Align8(u) != Align8(h.cb)
    ensures var h1, pad := h.(cb := u), PaddingHeader(h, u);
            && Legal(n, p, h1)
            && var m := Next(n, p, h1);
               && Pos(n, m) && m + 8 <= n && m == Payload(p, h) + Align8(u) && (p + 8 <= m || m + 8 <= p)
               && Legal(n, m, pad)
               && Next(n, m, pad) == Next(n, p, h)
               && Span(n, p, h1) + Span(n, m, pad) == Span(n, p, h)
               && (Span(n, p, h) < n ==> Between(n, p, m, Next(n, p, h)) && Next(n, p, h) != p)
  {
    hide Align8;
    Align8Mono(u, h.cb);
    Align8Fixed(PaddingHeader(h, u).cb);
  }

  /** `d'` is `d` with the header `h` at `p` cut after `u` bytes and, behind them, a padding header at `m`. */
  predicate Cut(d: seq<byte>, d1: seq<byte>, d': seq<byte>, p: nat, h: Header, u: nat, m: nat) {
    && RingSize(|d|) && Pos(|d|, p) && p + 8 <= |d| && HeaderAt(d, p) == h
    && Legal(|d|, p, h) && Span(|d|, p, h) < |d| && u <= h.cb && Align8(u) != Align8(h.cb)
    && m == Payload(p, h) + Align8(u)
    && Stored(d, d1, m, PaddingHeader(h, u)) && Stored(d1, d', p, h.(cb := u))
  }

  /** Cutting a slot in two: the walk over it takes two steps, the kept bytes are the first `u`, and all other slots
      are untouched. */
  lemma SplitSlot(d: seq<byte>, d1: seq<byte>, d': seq<byte>, p: nat, h: Header, u: nat, m: nat)
    requires Cut(d, d1, d', p, h, u, m)
    ensures 0 <= Payload(p, h) && Payload(p, h) + u <= |d| == |d'| && m + 8 + PaddingHeader(h, u).cb <= |d|
    ensures var next := Next(|d|, p, h);
            && p != next && Chain(d', p, next) && Agree(d, d', next, p)
            && Frames(d', p, next) == [Frame(h.typ, Read(d, Payload(p, h), u)),
                                       Frame(TYPE_PADDING, Read(d', m + 8, PaddingHeader(h, u).cb))]
  {
    hide HeaderAt, Align8, Chain, Frames, FrameAt, Slot, Between;
    var n, next := |d|, Next(|d|, p, h);
    SplitPositions(n, p, h, u);
    HeaderAgree(d1, d', m);
    ChainOne(d', p);
    ChainOne(d', m);
    ChainConcat(d', p, m, next);
    CutFrames(d, d1, d', p, h, u, m);
    CutAgree(d, d1, d', p, h, u, m);
  }

  lemma CutFrames(d: seq<byte>, d1: seq<byte>, d': seq<byte>, p: nat, h: Header, u: nat, m: nat)
    requires Cut(d, d1, d', p, h, u, m) && m + 8 <= |d| && HeaderAt(d', m) == PaddingHeader(h, u)
    requires Legal(|d|, p, h.(cb := u)) && Legal(|d|, m, PaddingHeader(h, u))
    requires Pos(|d|, m) && (p + 8 <= m || m + 8 <= p)
    ensures FrameAt(d', p) == Frame(h.typ, Read(d, Payload(p, h), u))
    ensures FrameAt(d', m) == Frame(TYPE_PADDING, Read(d', m + 8, PaddingHeader(h, u).cb))
  {
    hide HeaderAt, Align8;
    assert Read(d', Payload(p, h), u) == Read(d, Payload(p, h), u);
  }

  lemma CutAgree(d: seq<byte>, d1: seq<byte>, d': seq<byte>, p: nat, h: Header, u: nat, m: nat)
    requires Cut(d, d1, d', p, h, u, m)
    ensures |d'| == |d| && Agree(d, d', Next(|d|, p, h), p)
  {
    hide HeaderAt, Align8;
  }

  // ----- operations on a chain in two parts: unread up to `com`, reserved up to `wint` -----

  /** Moving the dividing point to a later header. */
  lemma MoveDivide(d: seq<byte>, read: nat, com: nat, c: nat, wint: nat)
    requires RingSize(|d|) && Pos(|d|, read) && Pos(|d|, com) && Pos(|d|, c) && Pos(|d|, wint)
    requires Between(|d|, read, com, wint) && Between(|d|, com, c, wint)
    requires Chain(d, read, com) && Chain(d, com, c)
    ensures Between(|d|, read, c, wint)
    ensures Chain(d, read, c) && Frames(d, read, c) == Frames(d, read, com) + Frames(d, com, c)
  {
    hide HeaderAt, Chain, Frames, Dist;
    BetweenExtend(|d|, read, com, c, wint);
    ChainConcat(d, read, com, c);
  }

  /** The first frame of a nonempty chain. */
  lemma ChainHead(d: seq<byte>, a: nat, b: nat)
    requires RingSize(|d|) && Pos(|d|, a) && Pos(|d|, b) && a != b && Chain(d, a, b)
    ensures Slot(d, a, b) && Span(|d|, a, HeaderAt(d, a)) < |d|
    ensures var c := After(d, a, b);
            && c == Next(|d|, a, HeaderAt(d, a)) && c != a
            && Chain(d, a, c) && Frames(d, a, c) == [FrameAt(d, a)]
            && Chain(d, c, b) && Frames(d, a, b) == [FrameAt(d, a)] + Frames(d, c, b)
  {
    hide HeaderAt, Align8, Legal, FrameAt;
    ChainOne(d, a);
  }

  /** A stored header makes a slot of its own. */
  lemma StoredSlot(d: seq<byte>, d': seq<byte>, p: nat, h: Header, next: nat)
    requires RingSize(|d|) && Pos(|d|, p) && Stored(d, d', p, h)
    requires Legal(|d|, p, h) && Span(|d|, p, h) < |d| && next == Next(|d|, p, h)
    ensures |d'| == |d| && p != next && Slot(d', p, next)
    ensures After(d', p, next) == next && PayloadAt(d', p, next) == Payload(p, h)
    ensures Payload(p, h) + h.cb <= |d| && FrameAt(d', p) == Frame(h.typ, Read(d, Payload(p, h), h.cb))
  {
    hide HeaderAt, Align8;
    assert Read(d', Payload(p, h), h.cb) == Read(d, Payload(p, h), h.cb);
  }

  /** A header stored at `p`, and then `bs` at the start of its payload, make a slot of their own and change nothing
      outside it. */
  lemma ReservedSlot(d: seq<byte>, d1: seq<byte>, p: nat, h: Header, next: nat, bs: seq<byte>)
    requires RingSize(|d|) && Pos(|d|, p) && Stored(d, d1, p, h) && |bs| <= h.cb
    requires Legal(|d|, p, h) && Span(|d|, p, h) < |d| && next == Next(|d|, p, h)
    ensures |d1| == |d| && p != next && 0 <= Payload(p, h) && Payload(p, h) + h.cb <= |d|
    ensures var d' := Put(d1, Payload(p, h), bs);
            && Chain(d', p, next)
            && Frames(d', p, next) == [Patch(Frame(h.typ, Read(d, Payload(p, h), h.cb)), 0, bs)]
            && Agree(d, d', next, p)
  {
    hide HeaderAt, Align8, Legal, Put, Read, Span, Next, InArc, Slot, After, PayloadAt, Stored;
    StoredSlot(d, d1, p, h, next);
    HeaderOutside(d, d1, p, h, next);
    ChainSelf(d1, next);
    StoreInFirst(d1, Put(d1, Payload(p, h), bs), p, next, 0, bs);
  }

  /** A frame reserved behind a chain in two parts lengthens the second part by exactly that frame. */
  lemma AppendReservation(d: seq<byte>, d1: seq<byte>, read: nat, com: nat, wint: nat, h: Header, next: nat,
                          bs: seq<byte>)
    requires RingSize(|d|) && Pos(|d|, read) && Pos(|d|, com) && Pos(|d|, wint) && Between(|d|, read, com, wint)
    requires Chain(d, read, com) && Chain(d, com, wint) && Stored(d, d1, wint, h) && |bs| <= h.cb
    requires Legal(|d|, wint, h) && Dist(|d|, read, wint) + Span(|d|, wint, h) < |d| && next == Next(|d|, wint, h)
    ensures Between(|d|, read, wint, next) && Between(|d|, read, com, next)
    ensures 0 <= Payload(wint, h) && Payload(wint, h) + h.cb <= |d|
    ensures var d' := Put(d1, Payload(wint, h), bs);
            && Chain(d', read, com) && Frames(d', read, com) == Frames(d, read, com)
            && Chain(d', com, next)
            && Frames(d', com, next)
               == Frames(d, com, wint) + [Patch(Frame(h.typ, Read(d, Payload(wint, h), h.cb)), 0, bs)]
  {
    hide HeaderAt, Align8, Legal, Put, Read, Chain, Frames, Agree, Stored, Payload, Patch, Between;
    NextAhead(|d|, read, wint, h);
    ReservedSlot(d, d1, wint, h, next, bs);
    var d' := Put(d1, Payload(wint, h), bs);
    BetweenTrans(|d|, read, com, wint, next);
    AgreeBefore(d, d', read, wint, next);
    AgreeSplit(d, d', read, com, wint);
    ChainAgree(d, d', read, com);
    ChainAgree(d, d', com, wint);
    ChainConcat(d', com, wint, next);
  }

  /** With room for the slot short of `read`, its end comes before `read` is met again. */
  lemma NextAhead(n: nat, read: nat, p: nat, h: Header)
    requires RingSize(n) && Pos(n, read) && Pos(n, p) && Legal(n, p, h) && Dist(n, read, p) + Span(n, p, h) < n
    ensures Between(n, read, p, Next(n, p, h)) && Next(n, p, h) != p
  {
    hide Align8, Legal, Next, Span;
  }

  /** Rewriting the slots between `com` and `c` among themselves. */
  lemma RewriteHead(d: seq<byte>, d': seq<byte>, read: nat, com: nat, c: nat, wint: nat)
    requires |d| == |d'| && RingSize(|d|) && Pos(|d|, read) && Pos(|d|, com) && Pos(|d|, c) && Pos(|d|, wint)
    requires Between(|d|, read, com, wint) && Between(|d|, com, c, wint) && com != c
    requires Chain(d, read, com) && Chain(d, c, wint) && Chain(d', com, c) && Agree(d, d', c, com)
    ensures Chain(d', read, com) && Frames(d', read, com) == Frames(d, read, com)
    ensures Chain(d', c, wint) && Frames(d', c, wint) == Frames(d, c, wint)
    ensures Chain(d', com, wint)
  {
    hide HeaderAt, Chain, Frames, Agree;
    BetweenExtend(|d|, read, com, c, wint);
    AgreeBefore(d, d', read, com, c);
    ChainAgree(d, d', read, com);
    Rotate(|d|, com, c, wint);
    AgreeSplit(d, d', c, wint, com);
    ChainAgree(d, d', c, wint);
    ChainConcat(d', com, c, wint);
  }
}
