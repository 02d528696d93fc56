// One writer, the clients that gather data into its reservations, and one reader, all
// running at the same time. Every load of a shared offset, the compare-and-swap, every
// store to ring memory and the publishing store is a step of its own; a store may even
// take effect a few bytes at a time. The writer decides from the reader offset it loaded,
// which the reader may since have moved.
module Interleaving {
  import opened Bytes
  import opened Geometry
  import opened Framing
  import opened RingModel
  import opened Fifo

  datatype Request = ReqAlloc(cb: nat) | ReqGso(cb: nat, ctx: seq<byte>) | ReqWrite(bs: seq<byte>)
  {
    function Typ(): nat {
      if ReqGso? then TYPE_GSO else TYPE_FRAME
    }

    function Cb(): nat {
      match this
      case ReqAlloc(cb) => cb
      case ReqGso(cb, _) => cb + GSO_SIZE
      case ReqWrite(bs) => |bs|
    }

    function Init(): seq<byte> {
      match this
      case ReqAlloc(_) => []
      case ReqGso(_, ctx) => ctx
      case ReqWrite(bs) => bs
    }

    predicate Good() {
      FrameSize(Cb()) && (ReqGso? ==> |ctx| == GSO_SIZE)
    }

    function AsOp(): Op {
      match this
      case ReqAlloc(cb) => OpAlloc(cb)
      case ReqGso(cb, ctx) => OpAllocGso(cb, ctx)
      case ReqWrite(bs) => OpWrite(bs)
    }
  }

  datatype Store = Store(pos: nat, bytes: seq<byte>)

  /** How an operation ends: its reservation, from `from` on, is handed to the client, or `com` becomes the committed
      offset and the counters move. */
  datatype Finish = Reserved(from: nat) | Publish(com: nat, cb: nat)

  /** While `op` runs it has the stores `todo` before it, which will have put the frames `made` into its space. */
  datatype Writer =
    | Idle
    | LoadedInt(req: Request, wint0: nat)
    | LoadedBoth(req: Request, wint0: nat, read0: nat)
    | Running(op: Op, todo: seq<Store>, fin: Finish, made: seq<Frame>)

  datatype Reader = Looking | Copying(h: Header, got: seq<byte>)

  /** `queue` is what the clients have been promised so far. */
  datatype Sys = Sys(ring: Ring, w: Writer, rd: Reader, queue: Queue)

  /** Steps of the writer, of a client gathering data, of the reader. */
  datatype Step =
    | WBegin(req: Request)
    | WLoadRead
    | WDecide
    | WCommit
    | WCommitEx(used: nat)
    | WDiscard
    | WStore(i: nat)
    | WFinish
    | GStore(k: nat, j: nat, bs: seq<byte>)
    | RLook
    | RCopy
    | RSkip

  // ----- stores still to come -----

  predicate Fits(n: nat, todo: seq<Store>) {
    forall i {:trigger todo[i]} :: 0 <= i < |todo| ==> todo[i].pos + |todo[i].bytes| <= n
  }

  /** The memory once every store in the list has been made. */
  function ApplyStores(d: seq<byte>, todo: seq<Store>): (r: seq<byte>)
    requires Fits(|d|, todo)
    ensures |r| == |d|
    decreases todo
  {
    if todo == [] then d else ApplyStores(Put(d, todo[0].pos, todo[0].bytes), todo[1..])
  }

  /** Every byte of the store lies between `a` and `b`. */
  predicate Inside(n: nat, a: nat, b: nat, s: Store)
    requires a < n && b < n
  {
    && s.pos + |s.bytes| <= n
    && forall x: nat {:trigger InArc(n, a, b, x)} :: s.pos <= x < s.pos + |s.bytes| ==> InArc(n, a, b, x)
  }

  predicate AllInside(n: nat, a: nat, b: nat, todo: seq<Store>)
    requires a < n && b < n
  {
    forall i {:trigger todo[i]} :: 0 <= i < |todo| ==> Inside(n, a, b, todo[i])
  }

  function HeaderStores(p: nat, h: Header): seq<Store>
    requires Encodable(h)
  {
    [Store(p, EncU16(h.typ)), Store(p + 2, EncU16(h.cb)), Store(p + 4, EncI32(h.off))]
  }

  // ----- the invariant -----

  /** The chain from `a` to `b` holds exactly `fs`. */
  predicate Lies(d: seq<byte>, a: nat, b: nat, fs: seq<Frame>)
    requires RingSize(|d|) && Pos(|d|, a) && Pos(|d|, b)
  {
    Chain(d, a, b) && Frames(d, a, b) == fs
  }

  /** The stores `todo` all go between `a` and `b`, and once they are made `fs` is there. */
  predicate Becomes(d: seq<byte>, a: nat, b: nat, todo: seq<Store>, fs: seq<Frame>)
    requires RingSize(|d|) && Pos(|d|, a) && Pos(|d|, b)
  {
    Fits(|d|, todo) && AllInside(|d|, a, b, todo) && Lies(ApplyStores(d, todo), a, b, fs)
  }

  function Behind(fs: seq<Frame>): seq<Frame> {
    if fs == [] then [] else fs[1..]
  }

  /** The queue once the running operation ends. */
  function Ended(q: Queue, fin: Finish, made: seq<Frame>): Queue {
    match fin
    case Reserved(_) => q.(pending := q.pending + made)
    case Publish(_, _) => q.(pending := Behind(q.pending), log := q.log + Visible(made))
  }

  /** Ending now, the running operation would be a step of the queue. */
  predicate Promised(q: Queue, op: Op, fin: Finish, made: seq<Frame>) {
    && !op.OpFill? && !op.OpSkip? && (fin.Reserved? <==> op.OpAlloc? || op.OpAllocGso?)
    && QueueStep(q, op, true, Ended(q, fin, made))
  }

  /** Older reservations lie untouched up to `lo`; between there and the write offset a new one is being made. */
  predicate Reserving(r: Ring, lo: nat, todo: seq<Store>, older: seq<Frame>, made: seq<Frame>)
    requires r.Ranged()
  {
    && Pos(r.Size(), lo) && lo != r.wint && Between(r.Size(), r.com, lo, r.wint)
    && Lies(r.data, r.com, lo, older) && Becomes(r.data, lo, r.wint, todo, made)
  }

  /** The space up to `c` is being made ready to publish; later reservations lie untouched behind it. */
  predicate Publishing(r: Ring, c: nat, todo: seq<Store>, later: seq<Frame>, made: seq<Frame>)
    requires r.Ranged()
  {
    && Pos(r.Size(), c) && c != r.com && Between(r.Size(), r.com, c, r.wint)
    && Lies(r.data, c, r.wint, later) && Becomes(r.data, r.com, c, todo, made)
  }

  predicate Base(s: Sys) {
    && s.ring.Ranged() && s.ring.Ordered() && Chain(s.ring.data, s.ring.read, s.ring.com)
    && s.queue.log == s.queue.seen + Visible(Frames(s.ring.data, s.ring.read, s.ring.com))
  }

  predicate Asked(s: Sys, req: Request, wint0: nat)
    requires s.ring.Ranged()
  {
    && Lies(s.ring.data, s.ring.com, s.ring.wint, s.queue.pending)
    && req.Good() && (req.ReqWrite? ==> s.ring.com == s.ring.wint) && wint0 == s.ring.wint
  }

  predicate WriterOk(s: Sys)
    requires s.ring.Ranged()
  {
    match s.w
    case Idle => Lies(s.ring.data, s.ring.com, s.ring.wint, s.queue.pending)
    case LoadedInt(req, wint0) => Asked(s, req, wint0)
    case LoadedBoth(req, wint0, read0) =>
      && Asked(s, req, wint0)
      && Pos(s.ring.Size(), read0) && Between(s.ring.Size(), read0, s.ring.read, s.ring.wint)
    case Running(op, todo, Reserved(lo), made) =>
      Promised(s.queue, op, s.w.fin, made) && Reserving(s.ring, lo, todo, s.queue.pending, made)
    case Running(op, todo, Publish(c, _), made) =>
      Promised(s.queue, op, s.w.fin, made) && Publishing(s.ring, c, todo, Behind(s.queue.pending), made)
  }

  /** What the reader has of the frame at `p`: its header, and its first bytes. */
  predicate Copied(d: seq<byte>, p: nat, h: Header, got: seq<byte>)
    requires p + 8 <= |d|
  {
    && h == HeaderAt(d, p) && Legal(|d|, p, h)
    && |got| <= h.cb && 0 <= p + h.off && p + h.off + h.cb <= |d| && got == Read(d, p + h.off, |got|)
  }

  predicate ReaderOk(s: Sys)
    requires s.ring.Ranged()
  {
    PosRoom(s.ring.Size(), s.ring.read);
    s.rd.Copying? ==> s.ring.read != s.ring.com && Copied(s.ring.data, s.ring.read, s.rd.h, s.rd.got)
  }

  predicate SysInv(s: Sys) {
    Base(s) && WriterOk(s) && ReaderOk(s)
  }

  // ----- the steps -----

  /** The reservations no operation is at work on lie between these two offsets. */
  function CalmFrom(s: Sys): nat {
    if s.w.Running? && s.w.fin.Publish? then s.w.fin.com else s.ring.com
  }

  function CalmTo(s: Sys): nat {
    if s.w.Running? && s.w.fin.Reserved? then s.w.fin.from else s.ring.wint
  }

  /** How many reservations the clients have already given up. */
  function GivenUp(s: Sys): nat {
    if s.w.Running? && s.w.fin.Publish? then 1 else 0
  }

  /** `bs` at byte `j` is a store into reservation `k`, which is still its client's. */
  predicate MayGather(s: Sys, k: nat, j: nat, bs: seq<byte>) {
    GivenUp(s) <= k < |s.queue.pending| && j + |bs| <= |s.queue.pending[k].bytes|
  }

  /** What the program asks of the callers. The exception for a write or allocation is the request that, with the
      reader where it now is, fills the ring. */
  predicate Can(s: Sys, st: Step)
    requires SysInv(s)
  {
    match st
    case WBegin(req) => s.w.Idle? && req.Good() && (req.ReqWrite? ==> s.queue.pending == [])
    case WLoadRead => s.w.LoadedInt?
    case WDecide => s.w.LoadedBoth? && !FillsRing(s.ring.Size(), s.ring.read, s.ring.wint, s.w.req.Cb())
    case WCommit => s.w.Idle? && s.queue.pending != []
    case WCommitEx(used) => s.w.Idle? && s.queue.pending != [] && CanCommitEx(s.ring, used)
    case WDiscard => s.w.Idle? && s.queue.pending != []
    case WStore(i) => s.w.Running? && s.w.todo != [] && i <= |s.w.todo[0].bytes|
    case WFinish => s.w.Running? && s.w.todo == []
    case GStore(k, j, bs) => MayGather(s, k, j, bs)
    case RLook => s.rd.Looking? && s.ring.read != s.ring.com
    case RCopy => s.rd.Copying? && |s.rd.got| < s.rd.h.cb
    case RSkip => s.rd.Copying? && DoneWith(s.rd)
  }

  /** What a step asks for, and all it asks for. Of the other parties it asks nothing: a client may store into any
      reservation except the one being committed, whatever the writer is doing, and of a store any part may be made. */
  lemma StepAsksExactly(s: Sys, st: Step)
    requires SysInv(s)
    ensures Can(s, st) <==>
            match st
            case WBegin(req) =>
              && s.w.Idle? && 12 <= req.Cb() <= 0xFFFF && (req.ReqGso? ==> |req.ctx| == 8)
              && (req.ReqWrite? ==> s.queue.pending == [])
            case WLoadRead => s.w.LoadedInt?
            case WDecide => s.w.LoadedBoth? && !FillsRing(s.ring.Size(), s.ring.read, s.ring.wint, s.w.req.Cb())
            case WCommit => s.w.Idle? && s.queue.pending != []
            case WCommitEx(used) =>
              && s.w.Idle? && s.queue.pending != []
              && var f := s.queue.pending[0];
                 (if f.typ == TYPE_GSO then used + 8 else used) <= |f.bytes|
            case WDiscard => s.w.Idle? && s.queue.pending != []
            case WStore(i) => s.w.Running? && s.w.todo != [] && i <= |s.w.todo[0].bytes|
            case WFinish => s.w.Running? && s.w.todo == []
            case GStore(k, j, bs) =>
              && k < |s.queue.pending| && j + |bs| <= |s.queue.pending[k].bytes|
              && (s.w.Running? && s.w.fin.Publish? ==> k > 0)
            case RLook => s.rd.Looking? && s.ring.read != s.ring.com
            case RCopy => s.rd.Copying? && |s.rd.got| < s.rd.h.cb
            case RSkip => s.rd.Copying? && (|s.rd.got| == s.rd.h.cb || s.rd.h.typ == TYPE_PADDING)
  {
    hide SysInv, HeaderAt, Align8, Chain, Frames, FillsRing, Ready, Head;
    if s.w.Idle? && s.queue.pending != [] {
      HeadOf(s);
    }
  }

  /** The branch taken on the loaded offsets, up to and including the compare-and-swap. */
  function Decide(s: Sys): Sys
    requires SysInv(s) && s.w.LoadedBoth?
  {
    var LoadedBoth(req, wint0, read0) := s.w;
    var r := s.ring;
    var p := Place(r.Size(), read0, wint0, req.Cb());
    PlaceExact(r.Size(), read0, wint0, req.Cb(), req.Typ());
    if p.NoRoom? then
      s.(w := Idle, ring := r.(overflows := Add64(r.overflows, 1)))
    else if r.wint != wint0 then
      s.(w := Idle)
    else
      var q := wint0 + p.off;
      var todo := HeaderStores(wint0, Header(req.Typ(), req.Cb(), p.off)) + [Store(q, req.Init())];
      var made := [Patch(Frame(req.Typ(), Read(r.data, q, req.Cb())), 0, req.Init())];
      s.(ring := r.(wint := p.next),
         w := Running(req.AsOp(), todo, if req.ReqWrite? then Publish(p.next, req.Cb()) else Reserved(wint0), made))
  }

  /** The stores of IntNetRingCommitFrameEx, in its order. */
  function CommitExStores(r: Ring, used: nat): seq<Store>
    requires r.Ranged() && CanCommitEx(r, used)
  {
    PosRoom(r.Size(), r.com);
    var h := Head(r);
    var u := UsedBytes(h.typ, used);
    if Align8(h.cb) == Align8(u) then [] else
      SplitPositions(r.Size(), r.com, h, u);
      HeaderStores(Payload(r.com, h) + Align8(u), PaddingHeader(h, u)) + [Store(r.com + 2, EncU16(u))]
  }

  lemma HeadIsReady(s: Sys)
    requires SysInv(s) && s.w.Idle?
    ensures s.ring.Inv() && s.queue.pending == s.ring.Pending()
    ensures s.queue.pending != [] ==> Ready(s.ring)
  {
    hide HeaderAt, Align8, Chain, Frames, Visible, Ready;
    HeadReady(s.ring);
  }

  function StartCommit(s: Sys): Sys
    requires SysInv(s) && s.w.Idle? && s.queue.pending != []
  {
    HeadIsReady(s);
    s.(w := Running(OpCommit, [], Publish(Commit(s.ring).com, Head(s.ring).cb), [s.queue.pending[0]]))
  }

  function StartCommitEx(s: Sys, used: nat): Sys
    requires SysInv(s) && s.w.Idle? && s.queue.pending != [] && CanCommitEx(s.ring, used)
  {
    var r' := CommitEx(s.ring, used);
    HeadIsReady(s);
    CommitExRewrites(s.ring, used);
    s.(w := Running(OpCommitEx(used), CommitExStores(s.ring, used),
                    Publish(r'.com, UsedBytes(Head(s.ring).typ, used)), Frames(r'.data, s.ring.com, r'.com)))
  }

  function StartDiscard(s: Sys): Sys
    requires SysInv(s) && s.w.Idle? && s.queue.pending != []
  {
    HeadIsReady(s);
    s.(w := Running(OpDiscard, [Store(s.ring.com, EncU16(TYPE_PADDING))],
                    Publish(Discard(s.ring).com, Head(s.ring).cb), [Frame(TYPE_PADDING, s.queue.pending[0].bytes)]))
  }

  /** What is left after the first `i` bytes of the first store. */
  function Rest(todo: seq<Store>, i: nat): seq<Store>
    requires todo != [] && i <= |todo[0].bytes|
  {
    if i == |todo[0].bytes| then todo[1..] else [Store(todo[0].pos + i, todo[0].bytes[i..])] + todo[1..]
  }

  lemma FirstFits(s: Sys)
    requires SysInv(s) && s.w.Running? && s.w.todo != []
    ensures s.w.todo[0].pos + |s.w.todo[0].bytes| <= s.ring.Size()
  {
    hide HeaderAt, Align8, Chain, Frames, Visible, Promised, Base, ReaderOk, Lies, AllInside, Between;
    assert Fits(s.ring.Size(), s.w.todo);
  }

  /** The first `i` bytes of the next store reach memory. */
  function StoreSome(s: Sys, i: nat): Sys
    requires SysInv(s) && s.w.Running? && s.w.todo != [] && i <= |s.w.todo[0].bytes|
  {
    FirstFits(s);
    var r, first := s.ring, s.w.todo[0];
    s.(ring := r.(data := Put(r.data, first.pos, first.bytes[..i])), w := s.w.(todo := Rest(s.w.todo, i)))
  }

  function EndOperation(s: Sys): Sys
    requires SysInv(s) && s.w.Running? && s.w.todo == []
  {
    s.(ring := Published(s.ring, s.w.fin), w := Idle, queue := Ended(s.queue, s.w.fin, s.w.made))
  }

  function Published(r: Ring, fin: Finish): Ring {
    match fin
    case Reserved(_) => r
    case Publish(c, cb) => r.(com := c, written := Add64(r.written, cb), frames := Add64(r.frames, 1))
  }

  /** Where the untouched reservations lie, and what they hold. */
  lemma CalmLies(s: Sys)
    requires SysInv(s)
    ensures s.ring.Ranged() && Pos(s.ring.Size(), CalmFrom(s)) && Pos(s.ring.Size(), CalmTo(s))
    ensures Lies(s.ring.data, CalmFrom(s), CalmTo(s),
                 if GivenUp(s) == 1 then Behind(s.queue.pending) else s.queue.pending)
  {
    hide HeaderAt, Align8, Chain, Frames, Visible, Promised, Becomes, Lies, Between;
  }

  /** A client stores `bs` at byte `j` of reservation `k`. */
  function Gather(s: Sys, k: nat, j: nat, bs: seq<byte>): Sys
    requires SysInv(s) && MayGather(s, k, j, bs)
  {
    hide SysInv, HeaderAt, Align8, Legal, Visible;
    CalmLies(s);
    var r, q, a, b := s.ring, s.queue, CalmFrom(s), CalmTo(s);
    StoreInPayload(r.data, a, b, k - GivenUp(s), j, bs);
    s.(ring := r.(data := Put(r.data, BytePos(r.data, a, b, k - GivenUp(s), j), bs)),
       queue := q.(pending := q.pending[k := Patch(q.pending[k], j, bs)]))
  }

  function Look(s: Sys): Sys
    requires SysInv(s) && s.rd.Looking? && s.ring.read != s.ring.com
  {
    s.(rd := Copying(ReadHead(s.ring), []))
  }

  function CopyByte(s: Sys): Sys
    requires SysInv(s) && s.rd.Copying? && |s.rd.got| < s.rd.h.cb
  {
    s.(rd := Copying(s.rd.h, s.rd.got + [s.ring.data[s.ring.read + s.rd.h.off + |s.rd.got|]]))
  }

  /** Padding is skipped unread, anything else once all of it is copied. */
  predicate DoneWith(rd: Reader)
    requires rd.Copying?
  {
    |rd.got| == rd.h.cb || rd.h.typ == TYPE_PADDING
  }

  lemma UnreadThere(s: Sys)
    requires SysInv(s) && s.ring.read != s.ring.com
    ensures s.ring.read + 8 <= s.ring.Size() && Legal(s.ring.Size(), s.ring.read, ReadHead(s.ring))
    ensures 0 <= s.ring.read + ReadHead(s.ring).off
    ensures s.ring.read + ReadHead(s.ring).off + ReadHead(s.ring).cb <= s.ring.Size()
  {
    hide HeaderAt, Align8, Chain, Frames, Visible, WriterOk, ReaderOk, Span, Legal, FrameAt, Between;
    ChainHead(s.ring.data, s.ring.read, s.ring.com);
    LegalPayload(s.ring.Size(), s.ring.read, ReadHead(s.ring));
  }

  function EndFrame(s: Sys): Sys
    requires SysInv(s) && s.rd.Copying? && DoneWith(s.rd)
  {
    UnreadThere(s);
    s.(ring := s.ring.(read := SkipTo(s.ring.data, s.ring.read)), rd := Looking,
       queue := s.queue.(seen := s.queue.seen + Visible([Frame(s.rd.h.typ, s.rd.got)])))
  }

  function Do(s: Sys, st: Step): Sys
    requires SysInv(s) && Can(s, st)
  {
    hide SysInv, FillsRing, MayGather, CanCommitEx, DoneWith;
    match st
    case WBegin(req) => s.(w := LoadedInt(req, s.ring.wint))
    case WLoadRead => s.(w := LoadedBoth(s.w.req, s.w.wint0, s.ring.read))
    case WDecide => Decide(s)
    case WCommit => StartCommit(s)
    case WCommitEx(used) => StartCommitEx(s, used)
    case WDiscard => StartDiscard(s)
    case WStore(i) => StoreSome(s, i)
    case WFinish => EndOperation(s)
    case GStore(k, j, bs) => Gather(s, k, j, bs)
    case RLook => Look(s)
    case RCopy => CopyByte(s)
    case RSkip => EndFrame(s)
  }

  // ----- changes confined to an arc -----

  /** A change between `a` and `b` is not seen on an arc apart from there. */
  lemma AgreeOutside(d: seq<byte>, d': seq<byte>, a: nat, b: nat, e: nat, f: nat)
    requires a < |d| == |d'| && b < |d| && e < |d| && f < |d| && a != b && Agree(d, d', b, a)
    requires ArcsApart(|d|, a, b, e, f)
    ensures Agree(d, d', e, f)
  {
    hide InArc, ArcsApart;
    forall x: nat | x < |d| && InArc(|d|, e, f, x) ensures d[x] == d'[x] {
      NotOnBoth(|d|, a, b, e, f, x);
    }
  }

  /** A store inside an arc changes nothing outside it. */
  lemma PutInside(d: seq<byte>, a: nat, b: nat, s: Store)
    requires a < |d| && b < |d| && a != b && Inside(|d|, a, b, s)
    ensures Agree(d, Put(d, s.pos, s.bytes), b, a)
  {
    forall x: nat | x < |d| && InArc(|d|, b, a, x) ensures Put(d, s.pos, s.bytes)[x] == d[x] {
      assert !InArc(|d|, a, b, x);
    }
  }

  /** The same stores on memories that agree on an arc leave memories that agree on it. */
  lemma {:induction false} ApplyAgree(d: seq<byte>, d': seq<byte>, a: nat, b: nat, todo: seq<Store>)
    requires a < |d| == |d'| && b < |d| && Agree(d, d', a, b) && Fits(|d|, todo)
    ensures Agree(ApplyStores(d, todo), ApplyStores(d', todo), a, b)
    decreases todo
  {
    hide InArc, Dist;
    if todo != [] {
      ApplyAgree(Put(d, todo[0].pos, todo[0].bytes), Put(d', todo[0].pos, todo[0].bytes), a, b, todo[1..]);
    }
  }

  lemma LiesAgree(d: seq<byte>, d': seq<byte>, a: nat, b: nat, fs: seq<Frame>)
    requires |d| == |d'| && RingSize(|d|) && Pos(|d|, a) && Pos(|d|, b) && Lies(d, a, b, fs) && Agree(d, d', a, b)
    ensures Lies(d', a, b, fs)
  {
    hide HeaderAt, Align8, Chain, Frames;
    ChainAgree(d, d', a, b);
  }

  lemma BecomesAgree(d: seq<byte>, d': seq<byte>, a: nat, b: nat, todo: seq<Store>, fs: seq<Frame>)
    requires |d| == |d'| && RingSize(|d|) && Pos(|d|, a) && Pos(|d|, b)
    requires Becomes(d, a, b, todo, fs) && Agree(d, d', a, b)
    ensures Becomes(d', a, b, todo, fs)
  {
    hide HeaderAt, Align8, Lies, AllInside, Agree, ApplyStores, Fits;
    ApplyAgree(d, d', a, b, todo);
    LiesAgree(ApplyStores(d, todo), ApplyStores(d', todo), a, b, fs);
  }

  // ----- stores -----

  lemma PutSplit(d: seq<byte>, p: nat, bs: seq<byte>, i: nat)
    requires p + |bs| <= |d| && i <= |bs|
    ensures Put(Put(d, p, bs[..i]), p + i, bs[i..]) == Put(d, p, bs)
  {
  }

  lemma InsidePart(n: nat, a: nat, b: nat, s: Store, i: nat)
    requires a < n && b < n && Inside(n, a, b, s) && i <= |s.bytes|
    ensures Inside(n, a, b, Store(s.pos, s.bytes[..i])) && Inside(n, a, b, Store(s.pos + i, s.bytes[i..]))
  {
  }

  lemma AllInsideFirst(n: nat, a: nat, b: nat, todo: seq<Store>)
    requires a < n && b < n && todo != [] && AllInside(n, a, b, todo)
    ensures Inside(n, a, b, todo[0])
  {
  }

  lemma ApplyFirst(d: seq<byte>, first: Store, rest: seq<Store>)
    requires Fits(|d|, [first] + rest)
    ensures first.pos + |first.bytes| <= |d| && Fits(|d|, rest)
    ensures ApplyStores(d, [first] + rest) == ApplyStores(Put(d, first.pos, first.bytes), rest)
  {
    hide Put;
    var todo := [first] + rest;
    assert todo[0] == first && todo[1..] == rest;
    forall i | 0 <= i < |rest| ensures rest[i].pos + |rest[i].bytes| <= |d| {
      assert todo[i + 1] == rest[i];
    }
  }

  lemma RestFits(n: nat, todo: seq<Store>, i: nat)
    requires todo != [] && i <= |todo[0].bytes| && Fits(n, todo)
    ensures todo == [todo[0]] + todo[1..] && Fits(n, Rest(todo, i)) && todo[0].pos + |todo[0].bytes| <= n
  {
  }

  /** Making part of a store and then the rest comes to the same. */
  lemma RestSame(d: seq<byte>, todo: seq<Store>, i: nat)
    requires todo != [] && i <= |todo[0].bytes| && Fits(|d|, todo)
    ensures Fits(|d|, Rest(todo, i)) && todo[0].pos + |todo[0].bytes| <= |d|
    ensures ApplyStores(Put(d, todo[0].pos, todo[0].bytes[..i]), Rest(todo, i)) == ApplyStores(d, todo)
  {
    hide Put, ApplyStores, Fits;
    var first, rest := todo[0], todo[1..];
    RestFits(|d|, todo, i);
    ApplyFirst(d, first, rest);
    PutSplit(d, first.pos, first.bytes, i);
    if i == |first.bytes| {
      assert first.bytes[..i] == first.bytes;
    } else {
      ApplyFirst(Put(d, first.pos, first.bytes[..i]), Store(first.pos + i, first.bytes[i..]), rest);
    }
  }

  lemma RestInside(n: nat, a: nat, b: nat, todo: seq<Store>, i: nat)
    requires a < n && b < n && todo != [] && i <= |todo[0].bytes| && AllInside(n, a, b, todo)
    ensures AllInside(n, a, b, Rest(todo, i))
  {
    hide InArc, Inside;
    AllInsideFirst(n, a, b, todo);
    InsidePart(n, a, b, todo[0], i);
  }

  /** Part of the next store is a step towards what is to be there, and changes nothing elsewhere. */
  lemma BecomesStore(d: seq<byte>, a: nat, b: nat, todo: seq<Store>, fs: seq<Frame>, i: nat)
    requires RingSize(|d|) && Pos(|d|, a) && Pos(|d|, b) && a != b && Becomes(d, a, b, todo, fs)
    requires todo != [] && i <= |todo[0].bytes|
    ensures todo[0].pos + |todo[0].bytes| <= |d|
    ensures Inside(|d|, a, b, Store(todo[0].pos, todo[0].bytes[..i]))
    ensures var d' := Put(d, todo[0].pos, todo[0].bytes[..i]);
            Becomes(d', a, b, Rest(todo, i), fs) && Agree(d, d', b, a)
  {
    hide HeaderAt, Align8, Lies, AllInside, Fits, ApplyStores, Put, InArc, Inside, Rest, Agree;
    RestSame(d, todo, i);
    RestInside(|d|, a, b, todo, i);
    AllInsideFirst(|d|, a, b, todo);
    InsidePart(|d|, a, b, todo[0], i);
    PutInside(d, a, b, Store(todo[0].pos, todo[0].bytes[..i]));
  }

  /** The bytes already copied from the oldest unread frame are still there. */
  lemma CopiedAgree(d: seq<byte>, d': seq<byte>, a: nat, b: nat, h: Header, got: seq<byte>)
    requires |d| == |d'| && RingSize(|d|) && Pos(|d|, a) && Pos(|d|, b) && a + 8 <= |d|
    requires a != b && Chain(d, a, b) && Agree(d, d', a, b) && Copied(d, a, h, got)
    ensures Copied(d', a, h, got)
  {
    hide HeaderAt, Align8, Frames, Read, Agree, Dist, Legal;
    SlotAgree(d, d', a, b);
    ReadPrefix(d, a + h.off, |got|, h.cb);
    ReadPrefix(d', a + h.off, |got|, h.cb);
  }

  lemma ReadPrefix(d: seq<byte>, q: int, k: nat, cb: nat)
    requires 0 <= q && k <= cb && q + cb <= |d|
    ensures Read(d, q, k) == Read(d, q, cb)[..k]
  {
  }

  /** A change outside the unread frames concerns neither what is unread nor what the reader is copying. */
  lemma UnreadKeeps(s: Sys, d': seq<byte>)
    requires Base(s) && ReaderOk(s) && |d'| == s.ring.Size() && Agree(s.ring.data, d', s.ring.read, s.ring.com)
    ensures var s' := s.(ring := s.ring.(data := d'));
            && Base(s') && ReaderOk(s')
            && Frames(d', s.ring.read, s.ring.com) == Frames(s.ring.data, s.ring.read, s.ring.com)
  {
    hide HeaderAt, Align8, Chain, Frames, Visible, Agree, Between, Copied;
    var r := s.ring;
    ChainAgree(r.data, d', r.read, r.com);
    PosRoom(r.Size(), r.read);
    if s.rd.Copying? {
      CopiedAgree(r.data, d', r.read, r.com, s.rd.h, s.rd.got);
    }
  }

  // ----- the running operation's space, under stores and gathering -----

  lemma ReservingStore(r: Ring, lo: nat, todo: seq<Store>, older: seq<Frame>, made: seq<Frame>, i: nat)
    requires r.Ranged() && r.Ordered() && Reserving(r, lo, todo, older, made)
    requires todo != [] && i <= |todo[0].bytes|
    ensures todo[0].pos + |todo[0].bytes| <= r.Size()
    ensures var r' := r.(data := Put(r.data, todo[0].pos, todo[0].bytes[..i]));
            Reserving(r', lo, Rest(todo, i), older, made) && Agree(r.data, r'.data, r.read, r.com)
  {
    hide HeaderAt, Align8, Lies, Becomes, Put, Inside, Rest, Agree, Dist, ArcsApart;
    BecomesStore(r.data, lo, r.wint, todo, made, i);
    var d' := Put(r.data, todo[0].pos, todo[0].bytes[..i]);
    Neighbours(r.Size(), r.read, r.com, lo, r.wint);
    AgreeOutside(r.data, d', lo, r.wint, r.read, r.com);
    AgreeOutside(r.data, d', lo, r.wint, r.com, lo);
    LiesAgree(r.data, d', r.com, lo, older);
  }

  lemma PublishingStore(r: Ring, c: nat, todo: seq<Store>, later: seq<Frame>, made: seq<Frame>, i: nat)
    requires r.Ranged() && r.Ordered() && Publishing(r, c, todo, later, made)
    requires todo != [] && i <= |todo[0].bytes|
    ensures todo[0].pos + |todo[0].bytes| <= r.Size()
    ensures var r' := r.(data := Put(r.data, todo[0].pos, todo[0].bytes[..i]));
            Publishing(r', c, Rest(todo, i), later, made) && Agree(r.data, r'.data, r.read, r.com)
  {
    hide HeaderAt, Align8, Lies, Becomes, Put, Inside, Rest, Agree, Dist, ArcsApart;
    BecomesStore(r.data, r.com, c, todo, made, i);
    var d' := Put(r.data, todo[0].pos, todo[0].bytes[..i]);
    Neighbours(r.Size(), r.read, r.com, c, r.wint);
    AgreeOutside(r.data, d', r.com, c, r.read, r.com);
    AgreeOutside(r.data, d', r.com, c, c, r.wint);
    LiesAgree(r.data, d', c, r.wint, later);
  }

  /** Where a client stores into the k-th frame between `a` and `b`. */
  predicate GatherAt(d: seq<byte>, d': seq<byte>, a: nat, b: nat, fs: seq<Frame>, k: nat, j: nat, bs: seq<byte>)
    requires RingSize(|d|) && Pos(|d|, a) && Pos(|d|, b)
  {
    && Lies(d, a, b, fs) && k < |fs| && j + |bs| <= |fs[k].bytes|
    && BytePos(d, a, b, k, j) + |bs| <= |d| && d' == Put(d, BytePos(d, a, b, k, j), bs)
  }

  lemma GatherLies(d: seq<byte>, d': seq<byte>, a: nat, b: nat, fs: seq<Frame>, k: nat, j: nat, bs: seq<byte>)
    requires RingSize(|d|) && Pos(|d|, a) && Pos(|d|, b) && GatherAt(d, d', a, b, fs, k, j, bs)
    ensures |d'| == |d| && a != b && Agree(d, d', b, a)
    ensures Lies(d', a, b, fs[k := Patch(fs[k], j, bs)])
  {
    hide HeaderAt, Align8, Put, Chain, Frames, Agree, BytePos;
    StoreInPayload(d, a, b, k, j, bs);
    NonEmpty(d, a, b);
  }

  lemma ReservingGather(r: Ring, d': seq<byte>, lo: nat, todo: seq<Store>, older: seq<Frame>, made: seq<Frame>,
                        k: nat, j: nat, bs: seq<byte>)
    requires r.Ranged() && r.Ordered() && Reserving(r, lo, todo, older, made)
    requires GatherAt(r.data, d', r.com, lo, older, k, j, bs)
    ensures |d'| == r.Size() && Agree(r.data, d', r.read, r.com)
    ensures Reserving(r.(data := d'), lo, todo, older[k := Patch(older[k], j, bs)], made)
  {
    hide HeaderAt, Align8, Lies, Becomes, Put, Agree, Dist, ArcsApart, BytePos;
    GatherLies(r.data, d', r.com, lo, older, k, j, bs);
    Neighbours(r.Size(), r.read, r.com, lo, r.wint);
    AgreeOutside(r.data, d', r.com, lo, r.read, r.com);
    AgreeOutside(r.data, d', r.com, lo, lo, r.wint);
    BecomesAgree(r.data, d', lo, r.wint, todo, made);
  }

  lemma PublishingGather(r: Ring, d': seq<byte>, c: nat, todo: seq<Store>, later: seq<Frame>, made: seq<Frame>,
                         k: nat, j: nat, bs: seq<byte>)
    requires r.Ranged() && r.Ordered() && Publishing(r, c, todo, later, made)
    requires GatherAt(r.data, d', c, r.wint, later, k, j, bs)
    ensures |d'| == r.Size() && Agree(r.data, d', r.read, r.com)
    ensures Publishing(r.(data := d'), c, todo, later[k := Patch(later[k], j, bs)], made)
  {
    hide HeaderAt, Align8, Lies, Becomes, Put, Agree, Dist, ArcsApart, BytePos;
    GatherLies(r.data, d', c, r.wint, later, k, j, bs);
    Neighbours(r.Size(), r.read, r.com, c, r.wint);
    AgreeOutside(r.data, d', c, r.wint, r.read, r.com);
    AgreeOutside(r.data, d', c, r.wint, r.com, c);
    BecomesAgree(r.data, d', r.com, c, todo, made);
  }

  lemma IdleGather(r: Ring, d': seq<byte>, fs: seq<Frame>, k: nat, j: nat, bs: seq<byte>)
    requires r.Ranged() && r.Ordered() && GatherAt(r.data, d', r.com, r.wint, fs, k, j, bs)
    ensures |d'| == r.Size() && Agree(r.data, d', r.read, r.com)
    ensures Lies(d', r.com, r.wint, fs[k := Patch(fs[k], j, bs)])
  {
    hide HeaderAt, Align8, Lies, Put, Agree, Dist, ArcsApart, BytePos;
    GatherLies(r.data, d', r.com, r.wint, fs, k, j, bs);
    BetweenEnds(r.Size(), r.com, r.wint);
    Neighbours(r.Size(), r.read, r.com, r.wint, r.wint);
    AgreeOutside(r.data, d', r.com, r.wint, r.read, r.com);
  }

  /** A promise does not depend on what the reader has seen. */
  lemma SeenApart(q: Queue, op: Op, fin: Finish, made: seq<Frame>, seen: seq<Frame>)
    requires Promised(q, op, fin, made)
    ensures Promised(q.(seen := seen), op, fin, made)
  {
    hide Visible, Trim;
    if fin.Reserved? {
      assert Ended(q.(seen := seen), fin, made) == Ended(q, fin, made).(seen := seen);
    }
  }

  /** Nor on what is gathered meanwhile into reservations that are still their clients'. */
  lemma GatherApart(q: Queue, op: Op, fin: Finish, made: seq<Frame>, k: nat, j: nat, bs: seq<byte>)
    requires Promised(q, op, fin, made) && k < |q.pending| && j + |bs| <= |q.pending[k].bytes|
    requires fin.Publish? ==> k >= 1
    ensures Promised(q.(pending := q.pending[k := Patch(q.pending[k], j, bs)]), op, fin, made)
  {
    hide Visible, Trim, Patch;
    var fs := q.pending[k := Patch(q.pending[k], j, bs)];
    if fin.Reserved? {
      assert (q.pending + made)[|q.pending|..] == made;
      assert fs + made == fs + [made[0]];
    }
  }

  // ----- reader steps -----

  lemma LookKeeps(s: Sys)
    requires SysInv(s) && s.rd.Looking? && s.ring.read != s.ring.com
    ensures SysInv(Look(s))
  {
    hide HeaderAt, Align8, Chain, Frames, Visible, WriterOk, Legal, Between;
    UnreadThere(s);
    PosRoom(s.ring.Size(), s.ring.read);
    assert WriterOk(Look(s)) by { WriterApart(s, Look(s)); }
  }

  /** The writer's part of the invariant does not speak of the reader's progress. */
  lemma WriterApart(s: Sys, s': Sys)
    requires s.ring.Ranged() && WriterOk(s) && s'.ring == s.ring && s'.w == s.w && s'.queue == s.queue
    ensures WriterOk(s')
  {
    hide HeaderAt, Align8, Lies, Promised, Reserving, Publishing, Between;
  }

  lemma CopyByteKeeps(s: Sys)
    requires SysInv(s) && s.rd.Copying? && |s.rd.got| < s.rd.h.cb
    ensures SysInv(CopyByte(s))
  {
    hide HeaderAt, Align8, Chain, Frames, Visible, WriterOk, Legal, Between;
    var d, q := s.ring.data, s.ring.read + s.rd.h.off;
    PosRoom(s.ring.Size(), s.ring.read);
    assert Read(d, q, |s.rd.got| + 1) == Read(d, q, |s.rd.got|) + [d[q + |s.rd.got|]];
    WriterApart(s, CopyByte(s));
  }

  /** What the reader has copied, once done, is the oldest unread frame, or padding in its place. */
  lemma CopiedFrame(s: Sys)
    requires SysInv(s) && s.rd.Copying? && DoneWith(s.rd)
    ensures var r, h := s.ring, s.rd.h;
            && r.Ranged() && r.read != r.com && Slot(r.data, r.read, r.com)
            && EndFrame(s).ring.read == After(r.data, r.read, r.com)
            && FrameAt(r.data, r.read).typ == h.typ
            && (h.typ != TYPE_PADDING ==> FrameAt(r.data, r.read).bytes == s.rd.got)
            && Visible([Frame(h.typ, s.rd.got)]) == Visible([FrameAt(r.data, r.read)])
  {
    hide HeaderAt, Align8, Chain, Frames, WriterOk, Legal, Dist;
    UnreadThere(s);
    ChainHead(s.ring.data, s.ring.read, s.ring.com);
    SkipMeetsNext(s.ring.Size(), s.ring.read, s.rd.h);
  }

  /** Whatever the writer and the clients are in the middle of, the reader has copied exactly the oldest unread frame,
      and moves past it alone. */
  lemma EndFrameKeeps(s: Sys)
    requires SysInv(s) && s.rd.Copying? && DoneWith(s.rd)
    ensures var s' := EndFrame(s);
            && SysInv(s')
            && QueueStep(s.queue, OpSkip, s.rd.h.typ != TYPE_PADDING, s'.queue)
            && var unread := Frames(s.ring.data, s.ring.read, s.ring.com);
               && unread != [] && unread[0].typ == s.rd.h.typ
               && (s.rd.h.typ != TYPE_PADDING ==> unread[0].bytes == s.rd.got)
               && Frames(s.ring.data, s'.ring.read, s.ring.com) == unread[1..]
  {
    hide HeaderAt, Align8, Chain, Frames, Legal, FrameAt, Dist, Between, Slot, After, Visible, WriterOk, EndFrame,
         DoneWith, Copied;
    var r := s.ring;
    CopiedFrame(s);
    ChainHead(r.data, r.read, r.com);
    EndFrameMoves(s);
    var unread := Frames(r.data, r.read, r.com);
    assert unread == [unread[0]] + unread[1..];
    SeenOne(s.queue, unread[0], unread[1..]);
    BetweenTrans(r.Size(), r.read, After(r.data, r.read, r.com), r.com, r.wint);
    WriterAfterSkip(s, EndFrame(s));
  }

  lemma EndFrameMoves(s: Sys)
    requires SysInv(s) && s.rd.Copying? && DoneWith(s.rd)
    ensures var s' := EndFrame(s);
            && s'.ring == s.ring.(read := s'.ring.read) && s'.w == s.w && s'.rd == Looking
            && s'.queue == s.queue.(seen := s.queue.seen + Visible([Frame(s.rd.h.typ, s.rd.got)]))
  {
    hide SysInv, Visible, SkipTo;
  }

  /** Seeing the first of the frames that are left to see. */
  lemma SeenOne(q: Queue, f: Frame, rest: seq<Frame>)
    requires q.log == q.seen + Visible([f] + rest)
    ensures var q' := q.(seen := q.seen + Visible([f]));
            q'.log == q'.seen + Visible(rest) && QueueStep(q, OpSkip, f.typ != TYPE_PADDING, q')
  {
    VisibleConcat([f], rest);
    assert q.seen + (Visible([f]) + Visible(rest)) == (q.seen + Visible([f])) + Visible(rest);
    assert Visible([f]) == if f.typ == TYPE_PADDING then [] else [f];
    assert q.seen + [] == q.seen;
  }

  /** The reader moving on, within what is unread, does not disturb the writer. */
  lemma WriterAfterSkip(s: Sys, s': Sys)
    requires s.ring.Ranged() && WriterOk(s) && s.ring.Ordered()
    requires s'.ring == s.ring.(read := s'.ring.read) && s'.w == s.w && s'.queue == s.queue.(seen := s'.queue.seen)
    requires s'.ring.Ranged() && Between(s.ring.Size(), s.ring.read, s'.ring.read, s.ring.wint)
    ensures WriterOk(s')
  {
    hide HeaderAt, Align8, Lies, Promised, Becomes, Between, Dist;
    match s.w
    case LoadedBoth(_, _, read0) =>
      BetweenExtend(s.ring.Size(), read0, s.ring.read, s'.ring.read, s.ring.wint);
    case Running(op, _, fin, made) => SeenApart(s.queue, op, fin, made, s'.queue.seen);
    case _ =>
  }

  // ----- gathering, stores, and the end of an operation -----

  /** What a client gathers goes into its own reservation, whatever the writer and the reader are doing meanwhile. */
  lemma GatherKeeps(s: Sys, k: nat, j: nat, bs: seq<byte>)
    requires SysInv(s) && MayGather(s, k, j, bs)
    ensures var s' := Gather(s, k, j, bs);
            SysInv(s') && QueueStep(s.queue, OpFill(k, j, bs), true, s'.queue)
  {
    hide HeaderAt, Align8, Chain, Frames, Visible, Promised, Reserving, Publishing, Base, ReaderOk, Patch, Put,
         Between, BytePos, Agree;
    CalmLies(s);
    BaseParts(s);
    var r, a, b, d' := s.ring, CalmFrom(s), CalmTo(s), Gather(s, k, j, bs).ring.data;
    StoreInPayload(r.data, a, b, k - GivenUp(s), j, bs);
    match s.w {
      case Running(op, todo, Reserved(lo), made) =>
        ReservingGather(r, d', lo, todo, s.queue.pending, made, k, j, bs);
        GatherApart(s.queue, op, s.w.fin, made, k, j, bs);
      case Running(op, todo, Publish(c, _), made) =>
        PublishingGather(r, d', c, todo, Behind(s.queue.pending), made, k - 1, j, bs);
        GatherApart(s.queue, op, s.w.fin, made, k, j, bs);
      case _ =>
        IdleGather(r, d', s.queue.pending, k, j, bs);
    }
    UnreadKeeps(s, d');
    BaseQueue(s.(ring := r.(data := d')), Gather(s, k, j, bs).queue);
  }

  lemma BaseParts(s: Sys)
    requires Base(s)
    ensures s.ring.Ranged() && s.ring.Ordered() && Chain(s.ring.data, s.ring.read, s.ring.com)
  {
  }

  /** The committed part of the invariant does not speak of the reservations. */
  lemma BaseQueue(s: Sys, q: Queue)
    requires Base(s) && ReaderOk(s) && q == s.queue.(pending := q.pending)
    ensures Base(s.(queue := q)) && ReaderOk(s.(queue := q))
  {
    hide HeaderAt, Chain, Frames, Visible, Between, Copied;
  }

  /** Part of a store changes nothing the reader may look at, and not what the operation works towards. */
  lemma StoreSomeKeeps(s: Sys, i: nat)
    requires SysInv(s) && s.w.Running? && s.w.todo != [] && i <= |s.w.todo[0].bytes|
    ensures var s' := StoreSome(s, i);
            SysInv(s') && s'.queue == s.queue
    ensures Agree(s.ring.data, StoreSome(s, i).ring.data, s.ring.read, s.ring.com)
  {
    hide HeaderAt, Align8, Chain, Frames, Visible, Promised, Reserving, Publishing, Base, ReaderOk, Put, Between,
         Rest, Agree;
    FirstFits(s);
    BaseParts(s);
    match s.w {
      case Running(_, todo, Reserved(lo), made) => ReservingStore(s.ring, lo, todo, s.queue.pending, made, i);
      case Running(_, todo, Publish(c, _), made) => PublishingStore(s.ring, c, todo, Behind(s.queue.pending), made, i);
    }
    UnreadKeeps(s, StoreSome(s, i).ring.data);
    BaseWriter(s.(ring := StoreSome(s, i).ring), StoreSome(s, i).w);
  }

  lemma BaseWriter(s: Sys, w: Writer)
    requires Base(s) && ReaderOk(s)
    ensures Base(s.(w := w)) && ReaderOk(s.(w := w))
  {
    hide HeaderAt, Chain, Frames, Visible, Between, Copied;
  }

  lemma BecomesNow(d: seq<byte>, a: nat, b: nat, fs: seq<Frame>)
    requires RingSize(|d|) && Pos(|d|, a) && Pos(|d|, b) && Becomes(d, a, b, [], fs)
    ensures Lies(d, a, b, fs)
  {
    hide HeaderAt, Lies;
  }

  /** Handing over the reservation just made. */
  lemma ReservedNow(r: Ring, lo: nat, older: seq<Frame>, made: seq<Frame>)
    requires r.Ranged() && Reserving(r, lo, [], older, made)
    ensures Lies(r.data, r.com, r.wint, older + made)
  {
    hide HeaderAt, Align8, Chain, Frames, Becomes, Between;
    BecomesNow(r.data, lo, r.wint, made);
    ChainConcat(r.data, r.com, lo, r.wint);
  }

  /** Publishing makes the promised frames readable all at once. */
  lemma PublishedNow(s: Sys, c: nat, later: seq<Frame>, made: seq<Frame>)
    requires Base(s) && ReaderOk(s) && Publishing(s.ring, c, [], later, made)
    ensures var r, q := s.ring.(com := c), s.queue.(log := s.queue.log + Visible(made));
            Base(s.(ring := r, queue := q)) && ReaderOk(s.(ring := r, queue := q)) && Lies(r.data, c, r.wint, later)
  {
    hide HeaderAt, Align8, Chain, Frames, Becomes, Between, Visible, Copied;
    var r := s.ring;
    BecomesNow(r.data, r.com, c, made);
    MoveDivide(r.data, r.read, r.com, c, r.wint);
    VisibleConcat(Frames(r.data, r.read, r.com), made);
    BetweenExtend(r.Size(), r.read, r.com, c, r.wint);
    if s.rd.Copying? {
      HeadStays(r.Size(), r.read, r.com, c);
    }
  }

  lemma HeadStays(n: nat, read: nat, com: nat, c: nat)
    requires read < n && com < n && c < n && Between(n, read, com, c) && read != com
    ensures read != c
  {
  }

  /** The end of an operation is the step of the queue it was begun for. */
  lemma EndOperationKeeps(s: Sys)
    requires SysInv(s) && s.w.Running? && s.w.todo == []
    ensures var s' := EndOperation(s);
            SysInv(s') && QueueStep(s.queue, s.w.op, true, s'.queue)
  {
    hide HeaderAt, Align8, Chain, Frames, Visible, Reserving, Publishing, Base, ReaderOk, Between, QueueStep,
         Lies, Add64;
    BaseParts(s);
    match s.w {
      case Running(_, _, Reserved(lo), made) =>
        ReservedNow(s.ring, lo, s.queue.pending, made);
        BaseQueue(s, EndOperation(s).queue);
        BaseWriter(s.(queue := EndOperation(s).queue), Idle);
      case Running(_, _, Publish(c, cb), made) =>
        PublishedNow(s, c, Behind(s.queue.pending), made);
        var r1, q1 := s.ring.(com := c), s.queue.(log := s.queue.log + Visible(made));
        BaseQueue(s.(ring := r1, queue := q1), EndOperation(s).queue);
        BaseCounters(s.(ring := r1, queue := EndOperation(s).queue), EndOperation(s));
    }
  }

  /** The invariant does not speak of the counters. */
  lemma BaseCounters(s: Sys, s': Sys)
    requires Base(s) && ReaderOk(s) && s'.rd == s.rd && s'.queue == s.queue
    requires s'.ring == s.ring.(written := s'.ring.written, frames := s'.ring.frames, overflows := s'.ring.overflows)
    ensures Base(s') && ReaderOk(s')
  {
    hide HeaderAt, Chain, Frames, Visible, Between, Copied;
  }

  // ----- the stores of each operation -----

  lemma {:induction false} ApplyConcat(d: seq<byte>, a: seq<Store>, b: seq<Store>)
    requires Fits(|d|, a) && Fits(|d|, b)
    ensures Fits(|d|, a + b) && ApplyStores(d, a + b) == ApplyStores(ApplyStores(d, a), b)
    decreases a
  {
    hide Put;
    if a == [] {
      assert [] + b == b;
    } else {
      assert (a + b)[0] == a[0] && (a + b)[1..] == a[1..] + b;
      ApplyConcat(Put(d, a[0].pos, a[0].bytes), a[1..], b);
    }
  }

  lemma ApplyOne(d: seq<byte>, s: Store)
    requires s.pos + |s.bytes| <= |d|
    ensures Fits(|d|, [s]) && ApplyStores(d, [s]) == Put(d, s.pos, s.bytes)
  {
    hide Put;
    assert [s][1..] == [];
  }

  /** The three field stores make up the header. */
  lemma HeaderStoresApply(d: seq<byte>, p: nat, h: Header)
    requires p + 8 <= |d| && Encodable(h)
    ensures Fits(|d|, HeaderStores(p, h)) && ApplyStores(d, HeaderStores(p, h)) == Put(d, p, Enc(h))
  {
    hide EncU16, EncI32, ApplyStores, Put, Enc;
    var t := HeaderStores(p, h);
    assert t == ([t[0]] + [t[1]]) + [t[2]];
    ApplyOne(d, t[0]);
    var d1 := Put(d, t[0].pos, t[0].bytes);
    ApplyOne(d1, t[1]);
    ApplyConcat(d, [t[0]], [t[1]]);
    var d2 := Put(d1, t[1].pos, t[1].bytes);
    ApplyOne(d2, t[2]);
    ApplyConcat(d, [t[0]] + [t[1]], [t[2]]);
    HeaderPuts(d, p, h);
  }

  /** A header's field stores, followed by one more store. */
  lemma HeaderAndOneApply(d: seq<byte>, p: nat, h: Header, st: Store)
    requires p + 8 <= |d| && Encodable(h) && st.pos + |st.bytes| <= |d|
    ensures var todo := HeaderStores(p, h) + [st];
            Fits(|d|, todo) && ApplyStores(d, todo) == Put(Put(d, p, Enc(h)), st.pos, st.bytes)
  {
    hide Put, Enc, ApplyStores, HeaderStores;
    HeaderStoresApply(d, p, h);
    ApplyOne(Put(d, p, Enc(h)), st);
    ApplyConcat(d, HeaderStores(p, h), [st]);
  }

  /** A store into a header or into its aligned payload stays inside the slot. */
  lemma WithinSlot(n: nat, p: nat, h: Header, s: Store)
    requires RingSize(n) && Pos(n, p) && Legal(n, p, h) && Span(n, p, h) < n
    requires (p <= s.pos && s.pos + |s.bytes| <= p + 8)
             || (Payload(p, h) <= s.pos && s.pos + |s.bytes| <= Payload(p, h) + Align8(h.cb))
    ensures Inside(n, p, Next(n, p, h), s)
  {
    hide Align8;
  }

  /** So do the stores of the padded commit: the padding header and the length field. */
  lemma ShrinkInside(n: nat, p: nat, h: Header, u: nat, m: nat)
    requires CanShrink(n, p, h, u) && Span(n, p, h) < n && m == Payload(p, h) + Align8(u) && m + 8 <= n
    ensures AllInside(n, p, Next(n, p, h), HeaderStores(m, PaddingHeader(h, u)) + [Store(p + 2, EncU16(u))])
  {
    hide Align8, Legal, Span, Next, EncU16, EncI32, Inside;
    var todo := HeaderStores(m, PaddingHeader(h, u)) + [Store(p + 2, EncU16(u))];
    Align8Mono(u, h.cb);
    forall i | 0 <= i < |todo| ensures Inside(n, p, Next(n, p, h), todo[i]) {
      WithinSlot(n, p, h, todo[i]);
    }
  }

  /** And those that follow the compare-and-swap: the header and the first bytes of the payload. */
  lemma DecideInside(n: nat, p: nat, h: Header, init: seq<byte>)
    requires RingSize(n) && Pos(n, p) && Encodable(h) && Legal(n, p, h) && Span(n, p, h) < n
    requires |init| <= h.cb && 0 <= p + h.off
    ensures AllInside(n, p, Next(n, p, h), HeaderStores(p, h) + [Store(p + h.off, init)])
  {
    hide Align8, Legal, Span, Next, EncU16, EncI32, Inside;
    var todo := HeaderStores(p, h) + [Store(p + h.off, init)];
    forall i | 0 <= i < |todo| ensures Inside(n, p, Next(n, p, h), todo[i]) {
      WithinSlot(n, p, h, todo[i]);
    }
  }

  lemma NoStores(d: seq<byte>, a: nat, b: nat, fs: seq<Frame>)
    requires RingSize(|d|) && Pos(|d|, a) && Pos(|d|, b) && Lies(d, a, b, fs)
    ensures Becomes(d, a, b, [], fs)
  {
    hide HeaderAt, Lies;
  }

  // ----- beginning a commit -----

  lemma HeadOf(s: Sys)
    requires SysInv(s) && s.w.Idle? && s.queue.pending != []
    ensures s.ring.Inv() && s.queue.pending == s.ring.Pending()
    ensures Head(s.ring).typ == s.queue.pending[0].typ && Head(s.ring).cb == |s.queue.pending[0].bytes|
    ensures Ready(s.ring) && Span(s.ring.Size(), s.ring.com, Head(s.ring)) < s.ring.Size()
    ensures var c := Next(s.ring.Size(), s.ring.com, Head(s.ring));
            && c == Commit(s.ring).com && c != s.ring.com && Between(s.ring.Size(), s.ring.com, c, s.ring.wint)
            && Lies(s.ring.data, s.ring.com, c, [s.queue.pending[0]])
            && Lies(s.ring.data, c, s.ring.wint, Behind(s.queue.pending))
  {
    hide HeaderAt, Align8, Chain, Frames, Visible, Legal, Span, Next, Between, Dist, Head, Ready;
    HeadIsReady(s);
    HeadPending(s.ring);
    HeadFrame(s.ring);
  }

  lemma StartCommitKeeps(s: Sys)
    requires SysInv(s) && s.w.Idle? && s.queue.pending != []
    ensures SysInv(StartCommit(s)) && StartCommit(s) == s.(w := StartCommit(s).w) && StartCommit(s).w.op == OpCommit
    ensures Fits(s.ring.Size(), StartCommit(s).w.todo)
    ensures ApplyStores(s.ring.data, StartCommit(s).w.todo) == Commit(s.ring).data
  {
    hide HeaderAt, Align8, Chain, Frames, Visible, Legal, Span, Next, Between, Lies, Becomes, Base, ReaderOk, Ready,
         Head;
    BaseParts(s);
    HeadOf(s);
    NoStores(s.ring.data, s.ring.com, Commit(s.ring).com, [s.queue.pending[0]]);
    BaseWriter(s, StartCommit(s).w);
  }

  lemma StartDiscardKeeps(s: Sys)
    requires SysInv(s) && s.w.Idle? && s.queue.pending != []
    ensures SysInv(StartDiscard(s)) && StartDiscard(s) == s.(w := StartDiscard(s).w)
    ensures StartDiscard(s).w.op == OpDiscard
    ensures Fits(s.ring.Size(), StartDiscard(s).w.todo)
    ensures ApplyStores(s.ring.data, StartDiscard(s).w.todo) == Discard(s.ring).data
  {
    hide HeaderAt, Align8, Chain, Frames, Legal, Span, Next, Between, Base, ReaderOk, Put, EncU16, Inside,
         Stored, Agree, FrameAt;
    BaseParts(s);
    HeadOf(s);
    var r, h := s.ring, Head(s.ring);
    var c, st := Next(r.Size(), r.com, h), Store(r.com, EncU16(TYPE_PADDING));
    HeadFrame(r);
    HeadPending(r);
    WithinSlot(r.Size(), r.com, h, st);
    ApplyOne(r.data, st);
    PutType(r.data, r.com, TYPE_PADDING);
    RelabelSlot(r.data, Put(r.data, r.com, EncU16(TYPE_PADDING)), r.com, h, c);
    BaseWriter(s, StartDiscard(s).w);
    assert Visible([Frame(TYPE_PADDING, s.queue.pending[0].bytes)]) == [];
    assert s.queue.log + [] == s.queue.log;
  }

  lemma CommitExStoresApply(r: Ring, used: nat)
    requires r.Inv() && r.Pending() != [] && CanCommitEx(r, used)
    ensures var todo, c := CommitExStores(r, used), CommitEx(r, used).com;
            && AllInside(r.Size(), r.com, c, todo) && Fits(r.Size(), todo)
            && ApplyStores(r.data, todo) == CommitEx(r, used).data
  {
    hide HeaderAt, Align8, Chain, Frames, Dist, FrameAt, Legal, Span, Next, Between, Put, ApplyStores, EncU16,
         EncI32, Enc, Fits, AllInside, HeaderStores, PaddingHeader, RingSize;
    HeadPending(r);
    var n, h := r.Size(), Head(r);
    var u := UsedBytes(h.typ, used);
    if Align8(h.cb) == Align8(u) {
      NoStoresApply(r.data, r.com, CommitEx(r, used).com);
    } else {
      var m := Payload(r.com, h) + Align8(u);
      SplitPositions(n, r.com, h, u);
      HeaderAndOneApply(r.data, m, PaddingHeader(h, u), Store(r.com + 2, EncU16(u)));
      ShrinkInside(n, r.com, h, u, m);
    }
  }

  lemma NoStoresApply(d: seq<byte>, a: nat, b: nat)
    requires a < |d| && b < |d|
    ensures AllInside(|d|, a, b, []) && Fits(|d|, []) && ApplyStores(d, []) == d
  {
  }

  /** The stores of a padded commit stay in its reservation and add up to what the commit promises to publish. */
  lemma StartCommitExKeeps(s: Sys, used: nat)
    requires SysInv(s) && s.w.Idle? && s.queue.pending != [] && CanCommitEx(s.ring, used)
    ensures var s' := StartCommitEx(s, used);
            && SysInv(s') && s' == s.(w := s'.w) && s'.w.op == OpCommitEx(used)
            && Fits(s.ring.Size(), s'.w.todo)
            && ApplyStores(s.ring.data, s'.w.todo) == CommitEx(s.ring, used).data
  {
    hide HeaderAt, Align8, Chain, Frames, Legal, Span, Next, Between, Base, ReaderOk, Ready, Visible, Commit, Head,
         AllInside, Fits, ApplyStores, CommitExStores, CanCommitEx, Cuts, Agree, Trim, Dist, CommitEx;
    BaseParts(s);
    HeadIsReady(s);
    CommitExStoresApply(s.ring, used);
    CommitExRewrites(s.ring, used);
    var f, c := s.queue.pending[0], CommitEx(s.ring, used).com;
    CutsVisible(f, UsedBytes(f.typ, used), Frames(CommitEx(s.ring, used).data, s.ring.com, c));
    BaseWriter(s, StartCommitEx(s, used).w);
  }

  // ----- deciding -----

  /** The stores after a successful compare-and-swap: all in the space just taken, adding up to the reservation. */
  lemma DecideStores(r: Ring, typ: nat, cb: nat, read0: nat, init: seq<byte>)
    requires r.Ranged() && ValidType(typ) && FrameSize(cb) && |init| <= cb
    requires Pos(r.Size(), read0) && Between(r.Size(), read0, r.read, r.wint)
    requires Place(r.Size(), read0, r.wint, cb).Room? && !FillsRing(r.Size(), r.read, r.wint, cb)
    ensures var p := Place(r.Size(), read0, r.wint, cb);
            && (p.off == 8 || r.wint + p.off == 0) && 0 <= r.wint + p.off && r.wint + p.off + cb <= r.Size()
            && Encodable(Header(typ, cb, p.off)) && Pos(r.Size(), p.next)
            && p.next != r.wint && Between(r.Size(), r.read, r.wint, p.next)
            && var todo := HeaderStores(r.wint, Header(typ, cb, p.off)) + [Store(r.wint + p.off, init)];
               && Becomes(r.data, r.wint, p.next, todo, [Patch(Frame(typ, Read(r.data, r.wint + p.off, cb)), 0, init)])
               && ApplyStores(r.data, todo) == Reserve(r, typ, cb, p, init).data
  {
    hide HeaderAt, Align8, Chain, Frames, Dist, Place, FillsRing, Legal, Span, Put, ApplyStores, EncU16, Stored,
         EncI32, Enc, Next, Between, Fits, AllInside, Patch, Read, HeaderStores, Agree;
    var n, p := r.Size(), Place(r.Size(), read0, r.wint, cb);
    var h := Header(typ, cb, p.off);
    StalePlacement(n, read0, r.read, r.wint, cb, typ);
    LegalPayload(n, r.wint, h);
    NextAhead(n, r.read, r.wint, h);
    PosRoom(n, r.wint);
    HeaderAndOneApply(r.data, r.wint, h, Store(r.wint + p.off, init));
    PutHeader(r.data, r.wint, h);
    ReservedSlot(r.data, Put(r.data, r.wint, Enc(h)), r.wint, h, p.next, init);
    DecideInside(n, r.wint, h, init);
  }

  lemma PutPrefix(d: seq<byte>, init: seq<byte>)
    requires |init| <= |d|
    ensures |Put(d, 0, init)| == |d| && init <= Put(d, 0, init)
  {
  }

  /** The new reservation is what the request asked for. */
  lemma RequestPromised(q: Queue, req: Request, fin: Finish, bytes: seq<byte>)
    requires req.Good() && |bytes| == req.Cb()
    requires (req.ReqWrite? ==> q.pending == []) && (fin.Publish? <==> req.ReqWrite?)
    ensures Promised(q, req.AsOp(), fin, [Patch(Frame(req.Typ(), bytes), 0, req.Init())])
  {
    hide Put;
    var f := Patch(Frame(req.Typ(), bytes), 0, req.Init());
    PutPrefix(bytes, req.Init());
    if req.ReqWrite? {
      PutAll(bytes, req.bs);
      VisibleOne(f);
    }
  }

  lemma VisibleOne(f: Frame)
    requires f.typ != TYPE_PADDING
    ensures Visible([f]) == [f]
  {
  }

  lemma NothingThere(d: seq<byte>, p: nat)
    requires RingSize(|d|) && Pos(|d|, p)
    ensures Lies(d, p, p, [])
  {
  }

  /** The compare-and-swap cannot fail, and what it reserves is right even if the reader has moved since its offset was
      loaded. */
  lemma DecideKeeps(s: Sys)
    requires SysInv(s) && s.w.LoadedBoth? && !FillsRing(s.ring.Size(), s.ring.read, s.ring.wint, s.w.req.Cb())
    ensures s.ring.wint == s.w.wint0
    ensures var s' := Decide(s);
            && SysInv(s') && s'.queue == s.queue
            && (s'.w.Running? <==> Place(s.ring.Size(), s.w.read0, s.ring.wint, s.w.req.Cb()).Room?)
            && (s'.w.Running? ==>
                  && s'.w.op == s.w.req.AsOp() && Pos(s.ring.Size(), s'.ring.wint)
                  && AllInside(s.ring.Size(), s.ring.wint, s'.ring.wint, s'.w.todo))
            && (!s'.w.Running? ==>
                  && s' == s.(w := Idle, ring := s.ring.(overflows := Add64(s.ring.overflows, 1)))
                  && QueueStep(s.queue, s.w.req.AsOp(), false, s'.queue))
  {
    hide HeaderAt, Align8, Chain, Frames, Dist, Place, FillsRing, Put, Enc, Next, Between, Lies, Base, ReaderOk,
         HeaderStores, Visible, Promised, Fits, ApplyStores, AllInside, Patch, Read;
    BaseParts(s);
    var LoadedBoth(req, wint0, read0) := s.w;
    var r, p := s.ring, Place(s.ring.Size(), read0, wint0, req.Cb());
    if p.Room? {
      DecideStores(r, req.Typ(), req.Cb(), read0, req.Init());
      BetweenTrans(r.Size(), r.read, r.com, r.wint, p.next);
      NoWritePending(s);
      RequestPromised(s.queue, req, Decide(s).w.fin, Read(r.data, wint0 + p.off, req.Cb()));
      BetweenEnds(r.Size(), r.com, p.next);
      NothingThere(r.data, p.next);
      BaseWint(s, p.next);
      BaseWriter(s.(ring := Decide(s).ring), Decide(s).w);
    } else {
      BaseCounters(s, s.(ring := Decide(s).ring));
      BaseWriter(s.(ring := Decide(s).ring), Idle);
    }
  }

  lemma NoWritePending(s: Sys)
    requires s.ring.Ranged() && WriterOk(s) && s.w.LoadedBoth?
    ensures s.w.req.ReqWrite? ==> s.queue.pending == []
  {
    hide HeaderAt, Align8;
  }

  lemma BaseWint(s: Sys, next: nat)
    requires Base(s) && ReaderOk(s) && Pos(s.ring.Size(), next) && Between(s.ring.Size(), s.ring.read, s.ring.com, next)
    ensures Base(s.(ring := s.ring.(wint := next))) && ReaderOk(s.(ring := s.ring.(wint := next)))
  {
    hide HeaderAt, Chain, Frames, Visible, Between, Copied;
  }

  /** A decision that finds room keeps the invariant exactly if the request does not, with the reader where it is now,
      fill the ring. */
  lemma DecideExact(s: Sys)
    requires SysInv(s) && s.w.LoadedBoth?
    requires Place(s.ring.Size(), s.w.read0, s.ring.wint, s.w.req.Cb()).Room?
    ensures SysInv(Decide(s)) <==> !FillsRing(s.ring.Size(), s.ring.read, s.ring.wint, s.w.req.Cb())
  {
    hide HeaderAt, Align8, Lies, Becomes, Promised, Place, FillsRing, HeaderStores, ReaderOk, Chain, Frames, Put,
         Patch, Read, Visible, Enc;
    var s', r := Decide(s), s.ring;
    if FillsRing(r.Size(), r.read, r.wint, s.w.req.Cb()) {
      FillsFromStart(r.Size(), s.w.read0, r.read, r.wint, s.w.req.Cb());
      assert s'.ring.wint == 0 == r.read;
      assert !SysInv(s');
    } else {
      DecideKeeps(s);
    }
  }

  /** A request that now fills the ring was placed from the same reader offset, and ends where the reader is. */
  lemma FillsFromStart(n: nat, seen: nat, read: nat, wint: nat, cb: nat)
    requires RingSize(n) && Pos(n, seen) && Pos(n, read) && Pos(n, wint) && FrameSize(cb)
    requires Between(n, seen, read, wint) && Place(n, seen, wint, cb).Room? && FillsRing(n, read, wint, cb)
    ensures seen == read == 0 && Place(n, seen, wint, cb).next == 0
  {
    hide Align8;
  }

  // ----- loading the offsets -----

  lemma BeginKeeps(s: Sys, req: Request)
    requires SysInv(s) && Can(s, WBegin(req))
    ensures SysInv(s.(w := LoadedInt(req, s.ring.wint)))
  {
    hide HeaderAt, Align8, Visible, Chain, Frames, Base, ReaderOk;
    BaseParts(s);
    NonEmpty(s.ring.data, s.ring.com, s.ring.wint);
    BaseWriter(s, LoadedInt(req, s.ring.wint));
  }

  lemma LoadReadKeeps(s: Sys)
    requires SysInv(s) && s.w.LoadedInt?
    ensures SysInv(s.(w := LoadedBoth(s.w.req, s.w.wint0, s.ring.read)))
  {
    hide HeaderAt, Align8, Visible, Chain, Frames, Base, ReaderOk;
    BaseParts(s);
    BetweenEnds(s.ring.Size(), s.ring.read, s.ring.wint);
    BaseWriter(s, LoadedBoth(s.w.req, s.w.wint0, s.ring.read));
  }

  // ----- all steps -----

  /** What a step means for the queue: nothing, or an operation with its outcome. An operation of the writer counts
      when it ends, one of the reader when it is done with a frame. */
  datatype Event = Silent | Took(op: Op, ok: bool)

  function EventOf(s: Sys, st: Step): Event {
    match st
    case WDecide =>
      if s.w.LoadedBoth? && Place(s.ring.Size(), s.w.read0, s.w.wint0, s.w.req.Cb()).NoRoom? then
        Took(s.w.req.AsOp(), false)
      else Silent
    case WFinish => if s.w.Running? then Took(s.w.op, true) else Silent
    case GStore(k, j, bs) => Took(OpFill(k, j, bs), true)
    case RSkip => if s.rd.Copying? then Took(OpSkip, s.rd.h.typ != TYPE_PADDING) else Silent
    case _ => Silent
  }

  predicate Explains(q: Queue, e: Event, q': Queue) {
    match e
    case Silent => q' == q
    case Took(op, ok) => QueueStep(q, op, ok, q')
  }

  /** The invariant survives every step of writer, clients and reader, in any order, and the queue moves as it
      should. */
  lemma StepKeeps(s: Sys, st: Step)
    requires SysInv(s) && Can(s, st)
    ensures SysInv(Do(s, st)) && Explains(s.queue, EventOf(s, st), Do(s, st).queue)
  {
    hide HeaderAt, SysInv, FillsRing, Place, QueueStep, Decide, StartCommit, StartCommitEx, StartDiscard, StoreSome,
         EndOperation, Gather, EndFrame, DoneWith, MayGather, CanCommitEx;
    match st
    case WBegin(req) => BeginKeeps(s, req);
    case WLoadRead => LoadReadKeeps(s);
    case WDecide => DecideKeeps(s);
    case WCommit => StartCommitKeeps(s);
    case WCommitEx(used) => StartCommitExKeeps(s, used);
    case WDiscard => StartDiscardKeeps(s);
    case WStore(i) => StoreSomeKeeps(s, i);
    case WFinish => EndOperationKeeps(s);
    case GStore(k, j, bs) => GatherKeeps(s, k, j, bs);
    case RLook => LookKeeps(s);
    case RCopy => CopyByteKeeps(s);
    case RSkip => EndFrameKeeps(s);
  }

  // ----- whole executions -----

  function Advance(s: Sys, st: Step): (s': Sys)
    requires SysInv(s) && Can(s, st)
    ensures SysInv(s')
  {
    StepKeeps(s, st);
    Do(s, st)
  }

  predicate ExecOk(s: Sys, sts: seq<Step>)
    requires SysInv(s)
    decreases sts
  {
    sts == [] || (Can(s, sts[0]) && ExecOk(Advance(s, sts[0]), sts[1..]))
  }

  /** The states passed through. */
  function States(s: Sys, sts: seq<Step>): (ss: seq<Sys>)
    requires SysInv(s) && ExecOk(s, sts)
    ensures |ss| == |sts| + 1 && ss[0] == s
    decreases sts
  {
    if sts == [] then [s] else [s] + States(Advance(s, sts[0]), sts[1..])
  }

  function End(s: Sys, sts: seq<Step>): (s': Sys)
    requires SysInv(s) && ExecOk(s, sts)
    ensures SysInv(s')
    decreases sts
  {
    if sts == [] then s else End(Advance(s, sts[0]), sts[1..])
  }

  /** The operations taken, with their outcomes, in the order of the events that take them. */
  function Ops(s: Sys, sts: seq<Step>): seq<Op>
    requires SysInv(s) && ExecOk(s, sts)
    decreases sts
  {
    if sts == [] then [] else
      var rest := Ops(Advance(s, sts[0]), sts[1..]);
      if EventOf(s, sts[0]).Took? then [EventOf(s, sts[0]).op] + rest else rest
  }

  function Oks(s: Sys, sts: seq<Step>): seq<bool>
    requires SysInv(s) && ExecOk(s, sts)
    decreases sts
  {
    if sts == [] then [] else
      var rest := Oks(Advance(s, sts[0]), sts[1..]);
      if EventOf(s, sts[0]).Took? then [EventOf(s, sts[0]).ok] + rest else rest
  }

  /** The queue before the first of those events, and after each of them. */
  function Queues(s: Sys, sts: seq<Step>): (qs: seq<Queue>)
    requires SysInv(s) && ExecOk(s, sts)
    ensures qs != []
    decreases sts
  {
    if sts == [] then [s.queue] else
      var rest := Queues(Advance(s, sts[0]), sts[1..]);
      if EventOf(s, sts[0]).Took? then [s.queue] + rest else rest
  }

  lemma QueueRunCons(q: Queue, op: Op, ok: bool, qs: seq<Queue>, ops: seq<Op>, oks: seq<bool>)
    requires QueueRun(qs, ops, oks) && QueueStep(q, op, ok, qs[0])
    ensures QueueRun([q] + qs, [op] + ops, [ok] + oks)
  {
    hide QueueStep;
    forall i | 0 <= i < |ops| + 1
      ensures QueueStep(([q] + qs)[i], ([op] + ops)[i], ([ok] + oks)[i], ([q] + qs)[i + 1])
    {
      if i > 0 {
        assert QueueStep(qs[i - 1], ops[i - 1], oks[i - 1], qs[i]);
      }
    }
  }

  /** What an execution does, taken event by event, is a run of the queue that ends where the execution ends. */
  lemma {:induction false} ExecutionIsRun(s: Sys, sts: seq<Step>)
    requires SysInv(s) && ExecOk(s, sts)
    ensures QueueRun(Queues(s, sts), Ops(s, sts), Oks(s, sts))
    ensures Queues(s, sts)[0] == s.queue
    ensures Queues(s, sts)[|Ops(s, sts)|] == End(s, sts).queue
    decreases sts
  {
    hide SysInv, Can, Do, QueueStep, EventOf;
    if sts != [] {
      var s', e := Advance(s, sts[0]), EventOf(s, sts[0]);
      StepKeeps(s, sts[0]);
      ExecutionIsRun(s', sts[1..]);
      if e.Took? {
        QueueRunCons(s.queue, e.op, e.ok, Queues(s', sts[1..]), Ops(s', sts[1..]), Oks(s', sts[1..]));
      }
    }
  }

  /** No byte of the store lies between `a` and `b`. */
  predicate Misses(n: nat, a: nat, b: nat, s: Store)
    requires a < n && b < n
  {
    forall x: nat {:trigger InArc(n, a, b, x)} :: s.pos <= x < s.pos + |s.bytes| ==> x < n && !InArc(n, a, b, x)
  }

  /** Nothing the writer still has to store lies in what the reader may look at. */
  predicate StoresApart(s: Sys)
    requires Base(s)
  {
    s.w.Running? ==>
      forall i {:trigger s.w.todo[i]} :: 0 <= i < |s.w.todo| ==>
        Misses(s.ring.Size(), s.ring.read, s.ring.com, s.w.todo[i])
  }

  /** The reader has been shown a prefix of what was committed, and all the rest of it is still readable. */
  predicate InOrder(s: Sys)
    requires Base(s)
  {
    && s.queue.seen <= s.queue.log
    && s.queue.log[|s.queue.seen|..] == Visible(Frames(s.ring.data, s.ring.read, s.ring.com))
  }

  predicate Sound(s: Sys) {
    SysInv(s) && StoresApart(s) && InOrder(s)
  }

  lemma TodoApart(n: nat, read: nat, com: nat, a: nat, b: nat, todo: seq<Store>, i: nat)
    requires read < n && com < n && a < n && b < n && a != b && ArcsApart(n, a, b, read, com)
    requires AllInside(n, a, b, todo) && i < |todo|
    ensures Misses(n, read, com, todo[i])
  {
    hide InArc, ArcsApart;
    assert Inside(n, a, b, todo[i]);
    forall x: nat | todo[i].pos <= x < todo[i].pos + |todo[i].bytes| ensures x < n && !InArc(n, read, com, x) {
      assert InArc(n, a, b, x);
      NotOnBoth(n, a, b, read, com, x);
    }
  }

  lemma StoresAreApart(s: Sys)
    requires SysInv(s)
    ensures StoresApart(s)
  {
    hide HeaderAt, Align8, Chain, Frames, Visible, Promised, Lies, ReaderOk, InArc, ArcsApart, AllInside, Between,
         Fits, ApplyStores, Misses, Dist;
    match s.w {
      case Running(_, todo, fin, _) =>
        var r := s.ring;
        var (m, a, b) := match fin case Reserved(lo) => (lo, lo, r.wint) case Publish(c, _) => (c, r.com, c);
        Neighbours(r.Size(), r.read, r.com, m, r.wint);
        forall i | 0 <= i < |todo| ensures Misses(r.Size(), r.read, r.com, todo[i]) {
          TodoApart(r.Size(), r.read, r.com, a, b, todo, i);
        }
      case _ =>
    }
  }

  lemma InvSound(s: Sys)
    requires SysInv(s)
    ensures Sound(s)
  {
    hide HeaderAt, Align8, Chain, Frames, Visible, WriterOk, ReaderOk, Between, StoresApart;
    StoresAreApart(s);
  }

  predicate Explained(ss: seq<Sys>, sts: seq<Step>) {
    && |ss| == |sts| + 1
    && (forall i {:trigger ss[i]} :: 0 <= i < |ss| ==> Sound(ss[i]))
    && (forall i {:trigger sts[i]} :: 0 <= i < |sts| ==> Explains(ss[i].queue, EventOf(ss[i], sts[i]), ss[i + 1].queue))
  }

  lemma {:induction false} ExecutionExplained(s: Sys, sts: seq<Step>)
    requires SysInv(s) && ExecOk(s, sts)
    ensures Explained(States(s, sts), sts)
    decreases sts
  {
    hide SysInv, Can, Do, Explains, EventOf, Sound;
    InvSound(s);
    if sts != [] {
      StepKeeps(s, sts[0]);
      ExecutionExplained(Advance(s, sts[0]), sts[1..]);
    }
  }

  /** From an empty ring, under every schedule of writer, client and reader steps: in every state the frames read are a
      prefix of the frames committed, byte for byte, all the others are still readable, and no store to come lies
      among them; and the operations, each taken when it ends, are a run of the queue from empty to the final one. */
  lemma ExecutionsAreFifo(r: Ring, sts: seq<Step>)
    requires r.Ranged() && r.read == r.com == r.wint
    ensures var s0 := Sys(r, Idle, Looking, EMPTY);
            && SysInv(s0)
            && (ExecOk(s0, sts) ==>
                  && Explained(States(s0, sts), sts)
                  && QueueRun(Queues(s0, sts), Ops(s0, sts), Oks(s0, sts))
                  && Queues(s0, sts)[0] == EMPTY
                  && Queues(s0, sts)[|Ops(s0, sts)|] == End(s0, sts).queue)
  {
    hide Explained, States, ExecOk, Can, Do, QueueRun, Queues, Ops, Oks, End;
    var s0 := Sys(r, Idle, Looking, EMPTY);
    assert Visible([]) == [];
    if ExecOk(s0, sts) {
      ExecutionExplained(s0, sts);
      ExecutionIsRun(s0, sts);
    }
  }

  // ----- steps taken without interruption are the operations -----

  /** The step an operation begins with. */
  function StartOf(op: Op): Step
    requires !op.OpSkip?
  {
    match op
    case OpAlloc(cb) => WBegin(ReqAlloc(cb))
    case OpAllocGso(cb, ctx) => WBegin(ReqGso(cb, ctx))
    case OpWrite(bs) => WBegin(ReqWrite(bs))
    case OpFill(k, j, bs) => GStore(k, j, bs)
    case OpCommit => WCommit
    case OpCommitEx(used) => WCommitEx(used)
    case OpDiscard => WDiscard
  }

  /** The steps by which the writer carries on with an operation. */
  predicate Continues(st: Step) {
    st.WLoadRead? || st.WDecide? || st.WStore? || st.WFinish?
  }

  /** With no one else moving, the reader offset loaded is the present one. */
  predicate Fresh(s: Sys) {
    s.w.LoadedBoth? ==> s.w.read0 == s.ring.read
  }

  function Asking(r: Ring, req: Request): Ring
    requires r.Ranged() && req.Good()
  {
    if req.ReqWrite? then Write(r, req.bs) else Alloc(r, req.Typ(), req.Cb(), req.Init())
  }

  lemma TodoFits(s: Sys)
    requires SysInv(s) && s.w.Running?
    ensures Fits(s.ring.Size(), s.w.todo)
  {
    hide HeaderAt, Align8, Chain, Frames, Visible, Promised, Base, ReaderOk, Lies, AllInside, Between, Fits;
  }

  /** The ring the writer is heading for, if it goes on alone. */
  function Heading(s: Sys): Ring
    requires SysInv(s)
  {
    match s.w
    case Idle => s.ring
    case LoadedInt(req, _) => Asking(s.ring, req)
    case LoadedBoth(req, _, _) => Asking(s.ring, req)
    case Running(_, todo, fin, _) =>
      TodoFits(s);
      Published(s.ring.(data := ApplyStores(s.ring.data, todo)), fin)
  }

  lemma DecideHeads(s: Sys)
    requires SysInv(s) && s.w.LoadedBoth? && s.w.read0 == s.ring.read
    requires !FillsRing(s.ring.Size(), s.ring.read, s.ring.wint, s.w.req.Cb())
    ensures SysInv(Decide(s)) && Heading(Decide(s)) == Asking(s.ring, s.w.req) && !Decide(s).w.LoadedBoth?
  {
    hide HeaderAt, Align8, Chain, Frames, Visible, Place, FillsRing, Legal, Span, Put, ApplyStores, Enc, Next,
         Between, AllInside, Fits, HeaderStores, Dist, Becomes, Promised, Base, ReaderOk, Patch, Read;
    DecideKeeps(s);
    BaseParts(s);
    var req, r := s.w.req, s.ring;
    if Place(r.Size(), r.read, r.wint, req.Cb()).Room? {
      DecideStores(r, req.Typ(), req.Cb(), r.read, req.Init());
    }
  }

  lemma StoreSomeHeads(s: Sys, i: nat)
    requires SysInv(s) && s.w.Running? && s.w.todo != [] && i <= |s.w.todo[0].bytes| && SysInv(StoreSome(s, i))
    ensures Heading(StoreSome(s, i)) == Heading(s)
  {
    hide HeaderAt, Align8, Chain, Frames, Visible, ApplyStores, Rest, Put, AllInside, Base, WriterOk, ReaderOk, Fits;
    TodoFits(s);
    RestSame(s.ring.data, s.w.todo, i);
  }

  lemma EndHeads(s: Sys)
    requires SysInv(s) && s.w.Running? && s.w.todo == []
    ensures EndOperation(s).w.Idle? && EndOperation(s).ring == Heading(s)
  {
    hide HeaderAt, Align8, Chain, Frames, Visible, SysInv;
    TodoFits(s);
  }

  /** No step by which the writer carries on changes where it is heading. */
  lemma ContinueHeads(s: Sys, st: Step)
    requires SysInv(s) && Fresh(s) && Continues(st) && Can(s, st)
    ensures Fresh(Advance(s, st)) && Heading(Advance(s, st)) == Heading(s)
  {
    hide HeaderAt, Align8, Chain, Frames, Visible, Base, ReaderOk, WriterOk, FillsRing, Put, ApplyStores,
         QueueStep, Add64, Place;
    match st
    case WLoadRead =>
    case WDecide => DecideHeads(s);
    case WStore(i) => StepKeeps(s, st); StoreSomeHeads(s, i);
    case WFinish => EndHeads(s);
  }

  lemma {:induction false} ContinueEnds(s: Sys, sts: seq<Step>)
    requires SysInv(s) && Fresh(s) && ExecOk(s, sts) && End(s, sts).w.Idle?
    requires forall i {:trigger sts[i]} :: 0 <= i < |sts| ==> Continues(sts[i])
    ensures End(s, sts).ring == Heading(s)
    decreases sts
  {
    hide SysInv, Can, Do, Continues;
    if sts == [] {
      IdleHeads(s);
    } else {
      ContinueHeads(s, sts[0]);
      ContinueEnds(Advance(s, sts[0]), sts[1..]);
    }
  }

  lemma IdleHeads(s: Sys)
    requires SysInv(s) && s.w.Idle?
    ensures Heading(s) == s.ring && Fresh(s)
  {
    hide SysInv;
  }

  lemma CommitHeads(s: Sys)
    requires SysInv(s) && s.w.Idle? && s.queue.pending != []
    ensures SysInv(StartCommit(s)) && StartCommit(s).w.Running?
    ensures Ready(s.ring) && Heading(StartCommit(s)) == Commit(s.ring)
  {
    hide HeaderAt, Align8, Visible, SysInv, Ready, Head, ApplyStores, Legal, Next, Span;
    StartCommitKeeps(s);
    HeadIsReady(s);
  }

  lemma DiscardHeads(s: Sys)
    requires SysInv(s) && s.w.Idle? && s.queue.pending != []
    ensures SysInv(StartDiscard(s)) && StartDiscard(s).w.Running?
    ensures Ready(s.ring) && Heading(StartDiscard(s)) == Discard(s.ring)
  {
    hide HeaderAt, Align8, Visible, SysInv, Ready, Head, ApplyStores, Legal, Next, Span, Put, EncU16;
    StartDiscardKeeps(s);
    HeadIsReady(s);
  }

  lemma CommitExHeads(s: Sys, used: nat)
    requires SysInv(s) && s.w.Idle? && s.queue.pending != [] && CanCommitEx(s.ring, used)
    ensures SysInv(StartCommitEx(s, used)) && StartCommitEx(s, used).w.Running?
    ensures Heading(StartCommitEx(s, used)) == CommitEx(s.ring, used)
  {
    hide HeaderAt, Align8, Visible, SysInv, CanCommitEx, Head, ApplyStores, Legal, Next, Span, Shrink, CommitExStores,
         Chain, Frames, Add64, Ready;
    StartCommitExKeeps(s, used);
    HeadIsReady(s);
    CommitExRewrites(s.ring, used);
  }

  lemma FillHeads(s: Sys, k: nat, j: nat, bs: seq<byte>)
    requires SysInv(s) && s.w.Idle? && MayGather(s, k, j, bs)
    ensures s.ring.Inv() && s.queue.pending == s.ring.Pending() && Gather(s, k, j, bs).w.Idle?
    ensures Gather(s, k, j, bs).ring == Fill(s.ring, k, j, bs)
  {
    hide HeaderAt, Align8, Visible, Chain, Frames, BytePos, Put, Base, ReaderOk, Patch;
    BaseParts(s);
    HeadIsReady(s);
  }

  /** The first step sets out for the operation's result. */
  lemma StartHeads(s: Sys, op: Op)
    requires SysInv(s) && s.w.Idle? && !op.OpSkip? && Can(s, StartOf(op))
    requires s.ring.Inv() && Enabled(s.ring, op)
    ensures Fresh(Advance(s, StartOf(op))) && Heading(Advance(s, StartOf(op))) == Apply(s.ring, op)
  {
    hide HeaderAt, Align8, Chain, Frames, Visible, FillsRing, Put, ApplyStores, Place, Alloc, Write, Commit, SysInv,
         CommitEx, Discard, Gather, StartCommit, StartCommitEx, StartDiscard, Fill, CanCommitEx, QueueStep;
    match op
    case OpAlloc(cb) =>
    case OpAllocGso(cb, ctx) =>
    case OpWrite(bs) =>
    case OpFill(k, j, bs) => FillHeads(s, k, j, bs); IdleHeads(Advance(s, StartOf(op)));
    case OpCommit => CommitHeads(s);
    case OpCommitEx(used) => CommitExHeads(s, used);
    case OpDiscard => DiscardHeads(s);
  }

  lemma CanStart(s: Sys, op: Op)
    requires SysInv(s) && s.w.Idle? && !op.OpSkip?
    ensures s.ring.Inv() && (Enabled(s.ring, op) ==> Can(s, StartOf(op)))
  {
    hide HeaderAt, Align8, Chain, Frames, Visible, FillsRing, CanCommitEx;
    HeadIsReady(s);
  }

  /** Begun with nothing else under way and carried on without another's step in between, an operation of the writer,
      however its stores are cut up, ends in exactly the result of the sequential model. */
  lemma UndisturbedIsApply(s: Sys, op: Op, sts: seq<Step>)
    requires SysInv(s) && s.w.Idle? && !op.OpSkip? && s.ring.Inv() && Enabled(s.ring, op)
    requires ExecOk(s, [StartOf(op)] + sts) && End(s, [StartOf(op)] + sts).w.Idle?
    requires forall i {:trigger sts[i]} :: 0 <= i < |sts| ==> Continues(sts[i])
    ensures End(s, [StartOf(op)] + sts).ring == Apply(s.ring, op)
  {
    hide SysInv, Can, Do, Continues, Enabled, Apply, Heading, Fresh, StartOf;
    var all := [StartOf(op)] + sts;
    assert all[0] == StartOf(op) && all[1..] == sts;
    StartHeads(s, op);
    ContinueEnds(Advance(s, StartOf(op)), sts);
  }

  /** How far the writer still has to go. */
  function Stage(w: Writer): nat {
    match w
    case Idle => 0
    case LoadedInt(_, _) => 3
    case LoadedBoth(_, _, _) => 2
    case Running(_, _, _, _) => 1
  }

  function Left(w: Writer): nat {
    if w.Running? then |w.todo| else 0
  }

  predicate Unfilled(s: Sys)
    requires SysInv(s)
  {
    s.w.LoadedInt? || s.w.LoadedBoth? ==> !FillsRing(s.ring.Size(), s.ring.read, s.ring.wint, s.w.req.Cb())
  }

  /** The writer's next step of its own. */
  function NextStep(w: Writer): Step
    requires !w.Idle?
  {
    match w
    case LoadedInt(_, _) => WLoadRead
    case LoadedBoth(_, _, _) => WDecide
    case Running(_, todo, _, _) => if todo == [] then WFinish else WStore(|todo[0].bytes|)
  }

  lemma NextStepGoes(s: Sys)
    requires SysInv(s) && !s.w.Idle? && Unfilled(s)
    ensures Can(s, NextStep(s.w)) && Continues(NextStep(s.w)) && Unfilled(Advance(s, NextStep(s.w)))
    ensures var w' := Advance(s, NextStep(s.w)).w;
            Stage(w') < Stage(s.w) || (Stage(w') == Stage(s.w) && Left(w') < Left(s.w))
  {
    hide HeaderAt, Align8, Chain, Frames, Visible, FillsRing, Base, ReaderOk, Put, ApplyStores, Becomes, Lies, Promised,
         Place, Add64;
    WintLoaded(s);
  }

  lemma WintLoaded(s: Sys)
    requires SysInv(s)
    ensures s.w.LoadedBoth? ==> s.w.wint0 == s.ring.wint
  {
    hide HeaderAt, Align8, Chain, Frames, Visible, Base, ReaderOk, Becomes, Lies, Promised;
  }

  /** Whatever the writer is in the middle of, it can finish without waiting for anyone. */
  lemma {:induction false} FinishAlone(s: Sys) returns (sts: seq<Step>)
    requires SysInv(s) && Unfilled(s)
    ensures ExecOk(s, sts) && End(s, sts).w.Idle?
    ensures forall i {:trigger sts[i]} :: 0 <= i < |sts| ==> Continues(sts[i])
    decreases Stage(s.w), Left(s.w)
  {
    hide SysInv, Can, Do, Continues, Unfilled, Stage, Left, NextStep;
    if s.w.Idle? {
      sts := [];
    } else {
      NextStepGoes(s);
      var rest := FinishAlone(Advance(s, NextStep(s.w)));
      sts := [NextStep(s.w)] + rest;
      assert sts[0] == NextStep(s.w) && sts[1..] == rest;
    }
  }

  lemma WritableGrows(s: Sys)
    requires SysInv(s) && s.rd.Copying? && DoneWith(s.rd)
    ensures var s' := EndFrame(s);
            && s'.w == s.w && s'.ring.Ranged() && s'.ring.Size() == s.ring.Size()
            && s'.ring.Writable() >= s.ring.Writable()
  {
    hide HeaderAt, Align8, Chain, Frames, Legal, FrameAt, Slot, After, Visible, WriterOk, EndFrame, DoneWith, Copied;
    CopiedFrame(s);
    EndFrameMoves(s);
    BetweenTrans(s.ring.Size(), s.ring.read, After(s.ring.data, s.ring.read, s.ring.com), s.ring.com, s.ring.wint);
  }

  /** A caller who has made the test need not make it again: whatever the reader and the clients do before the writer
      decides, the request does not fill the ring. */
  lemma GuardKeeps(s: Sys, st: Step)
    requires SysInv(s) && Can(s, st) && (s.w.LoadedInt? || s.w.LoadedBoth?)
    requires Align8(s.w.req.Cb()) + 8 <= s.ring.Writable()
    ensures !FillsRing(s.ring.Size(), s.ring.read, s.ring.wint, s.w.req.Cb())
    ensures var s' := Advance(s, st);
            s'.w.LoadedInt? || s'.w.LoadedBoth? ==>
              s'.w.req == s.w.req && Align8(s'.w.req.Cb()) + 8 <= s'.ring.Writable()
  {
    hide HeaderAt, Align8, Chain, Frames, Visible, Base, ReaderOk, Put, Place, Add64, EndFrame, BytePos, DoneWith,
         Legal, Patch, HeaderStores;
    BaseParts(s);
    WintLoaded(s);
    GuardedUnfilled(s.ring, s.w.req.Cb());
    if st.RSkip? {
      WritableGrows(s);
    }
  }

  lemma GuardedUnfilled(r: Ring, cb: nat)
    requires r.Ranged() && Align8(cb) + 8 <= r.Writable()
    ensures !FillsRing(r.Size(), r.read, r.wint, cb)
  {
    hide Align8;
  }

  /** Every enabled operation can be carried through without interruption, and then has done what the sequential
      operation does. */
  lemma OperationAlone(s: Sys, op: Op) returns (sts: seq<Step>)
    requires SysInv(s) && s.w.Idle? && !op.OpSkip? && s.ring.Inv() && Enabled(s.ring, op)
    ensures ExecOk(s, [StartOf(op)] + sts) && End(s, [StartOf(op)] + sts).w.Idle?
    ensures End(s, [StartOf(op)] + sts).ring == Apply(s.ring, op)
  {
    hide SysInv, Can, Do, Continues, Enabled, Apply, Heading, Fresh, StartOf, Unfilled;
    CanStart(s, op);
    StartUnfilled(s, op);
    var s1 := Advance(s, StartOf(op));
    sts := FinishAlone(s1);
    var all := [StartOf(op)] + sts;
    assert all[0] == StartOf(op) && all[1..] == sts;
    UndisturbedIsApply(s, op, sts);
  }

  lemma StartUnfilled(s: Sys, op: Op)
    requires SysInv(s) && s.w.Idle? && !op.OpSkip? && s.ring.Inv() && Enabled(s.ring, op) && Can(s, StartOf(op))
    ensures Unfilled(Advance(s, StartOf(op)))
  {
    hide HeaderAt, Align8, Chain, Frames, Visible, FillsRing, Put, Place, SysInv, CanCommitEx, QueueStep, Apply;
  }

  // ----- the reader goes on alone -----

  lemma {:induction false} ExecConcat(s: Sys, a: seq<Step>, b: seq<Step>)
    requires SysInv(s) && ExecOk(s, a) && ExecOk(End(s, a), b)
    ensures ExecOk(s, a + b) && End(s, a + b) == End(End(s, a), b)
    decreases a
  {
    hide SysInv, Can, Do;
    if a == [] {
      assert [] + b == b;
    } else {
      assert (a + b)[0] == a[0] && (a + b)[1..] == a[1..] + b;
      ExecConcat(Advance(s, a[0]), a[1..], b);
    }
  }

  lemma ExecOne(s: Sys, st: Step)
    requires SysInv(s) && Can(s, st)
    ensures ExecOk(s, [st]) && End(s, [st]) == Advance(s, st)
  {
    hide SysInv, Can, Do;
    assert [st][0] == st && [st][1..] == [];
  }

  /** From `s` to `s'` the reader has moved past the oldest unread frame, and nothing else has changed but what it has
      seen. */
  predicate PastOne(s: Sys, s': Sys)
    requires SysInv(s) && SysInv(s')
  {
    && s' == s.(ring := s.ring.(read := s'.ring.read), rd := Looking, queue := s.queue.(seen := s'.queue.seen))
    && s.ring.read != s.ring.com && s.ring.read + 8 <= s.ring.Size()
    && 0 <= s.ring.read + HeaderAt(s.ring.data, s.ring.read).off
    && s'.ring.read == SkipTo(s.ring.data, s.ring.read)
    && Frames(s.ring.data, s.ring.read, s.ring.com) != []
    && Frames(s.ring.data, s'.ring.read, s.ring.com) == Frames(s.ring.data, s.ring.read, s.ring.com)[1..]
  }

  lemma SkipPasses(s: Sys)
    requires SysInv(s) && s.rd.Copying? && DoneWith(s.rd)
    ensures SysInv(EndFrame(s)) && PastOne(s, EndFrame(s))
  {
    hide HeaderAt, Align8, Chain, Frames, Legal, Visible, WriterOk, DoneWith, Copied, Between;
    EndFrameKeeps(s);
    UnreadThere(s);
  }

  /** A frame once begun is copied to its end, or skipped at once if it is padding. */
  lemma {:induction false} CopyOn(s: Sys) returns (sts: seq<Step>)
    requires SysInv(s) && s.rd.Copying?
    ensures ExecOk(s, sts) && PastOne(s, End(s, sts))
    ensures forall i {:trigger sts[i]} :: 0 <= i < |sts| ==> sts[i].RCopy? || sts[i].RSkip?
    decreases s.rd.h.cb - |s.rd.got|
  {
    hide SysInv, PastOne, Frames, Chain, HeaderAt, CopyByte, EndFrame, QueueStep;
    GotWithin(s);
    if |s.rd.got| == s.rd.h.cb || s.rd.h.typ == TYPE_PADDING {
      sts := [RSkip];
      ExecOne(s, RSkip);
      SkipPasses(s);
    } else {
      CopyMoves(s);
      ExecOne(s, RCopy);
      var rest := CopyOn(Advance(s, RCopy));
      sts := [RCopy] + rest;
      ExecConcat(s, [RCopy], rest);
      PastLater(s, Advance(s, RCopy), End(s, sts));
    }
  }

  lemma GotWithin(s: Sys)
    requires SysInv(s) && s.rd.Copying?
    ensures |s.rd.got| <= s.rd.h.cb
  {
    hide HeaderAt, Chain, Frames, Legal, WriterOk, Visible;
  }

  lemma CopyMoves(s: Sys)
    requires SysInv(s) && Can(s, RCopy)
    ensures var s' := Advance(s, RCopy);
            s' == s.(rd := s'.rd) && s'.rd.Copying? && s'.rd.h == s.rd.h && |s'.rd.got| == |s.rd.got| + 1
  {
    hide SysInv;
  }

  /** What the reader held at the start does not matter. */
  lemma PastLater(s: Sys, s1: Sys, s': Sys)
    requires SysInv(s) && SysInv(s1) && SysInv(s') && s1 == s.(rd := s1.rd) && PastOne(s1, s')
    ensures PastOne(s, s')
  {
    hide SysInv, Frames, Chain, HeaderAt;
  }

  lemma LookMoves(s: Sys)
    requires SysInv(s) && Can(s, RLook)
    ensures var s' := Advance(s, RLook);
            s' == s.(rd := s'.rd) && s'.rd.Copying?
  {
    hide SysInv, HeaderAt;
  }

  /** Whatever the writer and the clients are in the middle of, a reader with anything left to read can, by steps of
      its own, move past exactly the oldest unread frame. With the writer idle that is the sequential skip. */
  lemma ReaderGoesOn(s: Sys) returns (sts: seq<Step>)
    requires SysInv(s) && s.ring.read != s.ring.com
    ensures ExecOk(s, sts)
    ensures forall i {:trigger sts[i]} :: 0 <= i < |sts| ==> sts[i].RLook? || sts[i].RCopy? || sts[i].RSkip?
    ensures var s' := End(s, sts);
            && s' == s.(ring := s.ring.(read := s'.ring.read), rd := Looking, queue := s.queue.(seen := s'.queue.seen))
            && Frames(s.ring.data, s.ring.read, s.ring.com) != []
            && Frames(s.ring.data, s'.ring.read, s.ring.com) == Frames(s.ring.data, s.ring.read, s.ring.com)[1..]
    ensures s.w.Idle? ==>
              s.ring.Inv() && Enabled(s.ring, OpSkip) && End(s, sts).ring == Apply(s.ring, OpSkip)
  {
    hide SysInv, Frames, Chain, HeaderAt, Can, Do, QueueStep, Apply, Enabled;
    if s.rd.Looking? {
      LookCan(s);
      LookMoves(s);
      ExecOne(s, RLook);
      var rest := CopyOn(Advance(s, RLook));
      sts := [RLook] + rest;
      ExecConcat(s, [RLook], rest);
      PastLater(s, Advance(s, RLook), End(s, sts));
    } else {
      sts := CopyOn(s);
    }
    if s.w.Idle? {
      PastIsSkip(s, End(s, sts));
    }
  }

  lemma LookCan(s: Sys)
    requires SysInv(s) && s.rd.Looking? && s.ring.read != s.ring.com
    ensures Can(s, RLook)
  {
  }

  lemma PastIsSkip(s: Sys, s': Sys)
    requires SysInv(s) && SysInv(s') && s.w.Idle? && PastOne(s, s')
    ensures s.ring.Inv() && Enabled(s.ring, OpSkip) && s'.ring == Apply(s.ring, OpSkip)
  {
    hide HeaderAt, Align8, Chain, Frames, Visible;
    HeadIsReady(s);
  }

  lemma AllSeen(s: Sys)
    requires SysInv(s) && s.ring.read == s.ring.com
    ensures s.rd.Looking? && s.queue.seen == s.queue.log
  {
    hide HeaderAt, Align8, WriterOk;
    assert s.queue.seen + [] == s.queue.seen;
  }

  /** The reader can always catch up alone: whatever has been committed can be seen, to the last frame. */
  lemma {:induction false} ReaderCatchesUp(s: Sys) returns (sts: seq<Step>)
    requires SysInv(s)
    ensures ExecOk(s, sts)
    ensures forall i {:trigger sts[i]} :: 0 <= i < |sts| ==> sts[i].RLook? || sts[i].RCopy? || sts[i].RSkip?
    ensures var s' := End(s, sts);
            && s'.ring == s.ring.(read := s.ring.com) && s'.w == s.w && s'.rd == Looking
            && s'.queue == s.queue.(seen := s.queue.log)
    decreases UnreadCount(s)
  {
    hide SysInv, Frames, Chain, HeaderAt, Can, Do, QueueStep, Apply, Enabled, UnreadCount;
    if s.ring.read == s.ring.com {
      sts := [];
      AllSeen(s);
    } else {
      var one := ReaderGoesOn(s);
      FewerUnread(s, End(s, one));
      var rest := ReaderCatchesUp(End(s, one));
      sts := one + rest;
      ExecConcat(s, one, rest);
    }
  }

  function UnreadCount(s: Sys): nat
    requires SysInv(s)
  {
    |Frames(s.ring.data, s.ring.read, s.ring.com)|
  }

  lemma FewerUnread(s: Sys, s': Sys)
    requires SysInv(s) && SysInv(s')
    requires s'.ring == s.ring.(read := s'.ring.read) && Frames(s.ring.data, s.ring.read, s.ring.com) != []
    requires Frames(s.ring.data, s'.ring.read, s.ring.com) == Frames(s.ring.data, s.ring.read, s.ring.com)[1..]
    ensures UnreadCount(s') < UnreadCount(s)
  {
    hide Frames, Chain, HeaderAt, Visible, WriterOk, ReaderOk;
  }
}
