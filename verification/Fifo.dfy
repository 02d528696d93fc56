// Whole runs of the ring against a queue of byte strings. The queue knows nothing of
// offsets: it holds the outstanding reservations as the client filled them, the frames
// committed so far in order, and how many of them the reader has been shown.
module Fifo {
  import opened Bytes
  import opened Geometry
  import opened Framing
  import opened RingModel

  datatype Op =
    | OpAlloc(cb: nat)
    | OpAllocGso(cb: nat, ctx: seq<byte>)
    | OpFill(k: nat, j: nat, bs: seq<byte>)
    | OpCommit
    | OpCommitEx(used: nat)
    | OpDiscard
    | OpWrite(bs: seq<byte>)
    | OpSkip

  /** What the program asks of the caller, and for allocations that the request is not the one filling the ring. */
  predicate Enabled(r: Ring, op: Op)
    requires r.Inv()
  {
    match op
    case OpAlloc(cb) => FrameSize(cb) && !FillsRing(r.Size(), r.read, r.wint, cb)
    case OpAllocGso(cb, ctx) =>
      |ctx| == GSO_SIZE && FrameSize(cb + GSO_SIZE) && !FillsRing(r.Size(), r.read, r.wint, cb + GSO_SIZE)
    case OpFill(k, j, bs) => k < |r.Pending()| && j + |bs| <= |r.Pending()[k].bytes|
    case OpCommit => r.Pending() != []
    case OpCommitEx(used) => r.Pending() != [] && CanCommitEx(r, used)
    case OpDiscard => r.Pending() != []
    case OpWrite(bs) => FrameSize(|bs|) && r.Pending() == [] && !FillsRing(r.Size(), r.read, r.wint, |bs|)
    case OpSkip => r.Unread() != []
  }

  function Apply(r: Ring, op: Op): (r': Ring)
    requires r.Inv() && Enabled(r, op)
    ensures r'.Inv()
  {
    KeepsInv(r, op);
    Result(r, op)
  }

  function Result(r: Ring, op: Op): Ring
    requires r.Inv() && Enabled(r, op)
  {
    HeadReady(r);
    match op
    case OpAlloc(cb) => Alloc(r, TYPE_FRAME, cb, [])
    case OpAllocGso(cb, ctx) => Alloc(r, TYPE_GSO, cb + GSO_SIZE, ctx)
    case OpFill(k, j, bs) => Fill(r, k, j, bs)
    case OpCommit => Commit(r)
    case OpCommitEx(used) => CommitEx(r, used)
    case OpDiscard => Discard(r)
    case OpWrite(bs) => Write(r, bs)
    case OpSkip => Skip(r)
  }

  lemma HeadReady(r: Ring)
    requires r.Inv()
    ensures r.Pending() != [] ==> Ready(r)
  {
    hide HeaderAt, Align8, Chain, Frames, Ready;
    if r.Pending() != [] {
      HeadPending(r);
    }
  }

  /** The ring invariant survives every enabled operation. */
  lemma KeepsInv(r: Ring, op: Op)
    requires r.Inv() && Enabled(r, op)
    ensures Result(r, op).Inv()
  {
    hide HeaderAt, Align8, FillsRing, Put, Place, Chain, Frames;
    match op
    case OpAlloc(cb) => AllocKeeps(r, TYPE_FRAME, cb, []);
    case OpAllocGso(cb, ctx) => AllocKeeps(r, TYPE_GSO, cb + GSO_SIZE, ctx);
    case OpFill(k, j, bs) => FillKeeps(r, k, j, bs);
    case OpCommit => CommitKeeps(r);
    case OpCommitEx(used) => CommitExKeeps(r, used);
    case OpDiscard => DiscardKeeps(r);
    case OpWrite(bs) => NonEmpty(r.data, r.com, r.wint); WriteKeeps(r, bs);
    case OpSkip => SkipKeeps(r);
  }

  // ----- the queue -----

  datatype Queue = Queue(pending: seq<Frame>, log: seq<Frame>, seen: seq<Frame>)

  /** Padding never reaches the client. */
  function Visible(fs: seq<Frame>): seq<Frame> {
    if fs == [] then []
    else if fs[0].typ == TYPE_PADDING then Visible(fs[1..])
    else [fs[0]] + Visible(fs[1..])
  }

  /** A new reservation of `cb` bytes that begins with `init`; the rest is whatever was in memory. */
  predicate IsReservation(f: Frame, typ: nat, cb: nat, init: seq<byte>) {
    f.typ == typ && |f.bytes| == cb && init <= f.bytes
  }

  predicate Reserves(q: Queue, ok: bool, q': Queue, typ: nat, cb: nat, init: seq<byte>) {
    if !ok then q' == q else
    (q'.pending != [] && q' == q.(pending := q.pending + [q'.pending[|q'.pending| - 1]])
     && IsReservation(q'.pending[|q'.pending| - 1], typ, cb, init))
  }

  /** Frames leave the reservations from the front, enter the log at its end, and are seen in log order.
      `ok` tells whether an allocation or write found room, or whether the frame skipped was not padding. */
  predicate QueueStep(q: Queue, op: Op, ok: bool, q': Queue)
  {
    match op
    case OpAlloc(cb) => Reserves(q, ok, q', TYPE_FRAME, cb, [])
    case OpAllocGso(cb, ctx) => Reserves(q, ok, q', TYPE_GSO, cb + GSO_SIZE, ctx)
    case OpFill(k, j, bs) =>
      && k < |q.pending| && j + |bs| <= |q.pending[k].bytes|
      && q' == q.(pending := q.pending[k := Patch(q.pending[k], j, bs)])
    case OpCommit =>
      q.pending != [] && q' == q.(pending := q.pending[1..], log := q.log + Visible([q.pending[0]]))
    case OpCommitEx(used) =>
      && q.pending != []
      && var f := q.pending[0];
         var u := if f.typ == TYPE_GSO then used + 8 else used;
         && u <= |f.bytes| && q' == q.(pending := q.pending[1..], log := q.log + Visible([Trim(f, u)]))
    case OpDiscard =>
      q.pending != [] && q' == q.(pending := q.pending[1..])
    case OpWrite(bs) =>
      q' == if ok then q.(log := q.log + [Frame(TYPE_FRAME, bs)]) else q
    case OpSkip =>
      if ok then |q.seen| < |q.log| && q' == q.(seen := q.seen + [q.log[|q.seen|]]) else q' == q
  }

  /** A step leaves the queue no choice, save for the bytes a new reservation happens to find behind its first ones. */
  lemma QueueStepDetermined(q: Queue, op: Op, ok: bool, q1: Queue, q2: Queue)
    requires QueueStep(q, op, ok, q1) && QueueStep(q, op, ok, q2)
    ensures q1.log == q2.log && q1.seen == q2.seen
    ensures !(ok && (op.OpAlloc? || op.OpAllocGso?)) ==> q1 == q2
    ensures ok && (op.OpAlloc? || op.OpAllocGso?) ==>
              && |q1.pending| == |q2.pending| == |q.pending| + 1
              && q1.pending[..|q.pending|] == q2.pending[..|q.pending|] == q.pending
              && var f1, f2 := q1.pending[|q.pending|], q2.pending[|q.pending|];
                 && f1.typ == f2.typ == (if op.OpAlloc? then TYPE_FRAME else TYPE_GSO)
                 && |f1.bytes| == |f2.bytes| == (if op.OpAlloc? then op.cb else op.cb + 8)
                 && (op.OpAllocGso? && |op.ctx| == 8 ==> f1.bytes[..8] == f2.bytes[..8] == op.ctx)
  {
  }

  /** The ring holds what the queue says: reservations as filled, and committed frames not yet seen. */
  predicate Holds(r: Ring, q: Queue) {
    r.Inv() && q.pending == r.Pending() && q.log == q.seen + Visible(r.Unread())
  }

  predicate Outcome(r: Ring, op: Op)
    requires r.Inv() && Enabled(r, op)
  {
    match op
    case OpAlloc(cb) => Place(r.Size(), r.read, r.wint, cb).Room?
    case OpAllocGso(cb, ctx) => Place(r.Size(), r.read, r.wint, cb + GSO_SIZE).Room?
    case OpWrite(bs) => Place(r.Size(), r.read, r.wint, |bs|).Room?
    case OpSkip => r.Unread()[0].typ != TYPE_PADDING
    case _ => true
  }

  /** The queue's side of a step of the ring. */
  function Track(r: Ring, q: Queue, op: Op): Queue
    requires r.Inv() && Enabled(r, op)
  {
    var r' := Apply(r, op);
    if op.OpSkip? then
      q.(seen := q.seen + Visible([r.Unread()[0]]))
    else
      q.(pending := r'.Pending(), log := q.seen + Visible(r'.Unread()))
  }

  lemma {:induction false} VisibleConcat(a: seq<Frame>, b: seq<Frame>)
    ensures Visible(a + b) == Visible(a) + Visible(b)
  {
    if a == [] {
      assert [] + b == b;
    } else {
      assert (a + b)[0] == a[0] && (a + b)[1..] == a[1..] + b;
      VisibleConcat(a[1..], b);
    }
  }

  /** Appending to the unread frames appends what is visible of it to the log. */
  lemma Appended(q: Queue, before: seq<Frame>, extra: seq<Frame>)
    requires q.log == q.seen + Visible(before)
    ensures q.seen + Visible(before + extra) == q.log + Visible(extra)
  {
    VisibleConcat(before, extra);
  }

  /** What the operations ask for, and all they ask for: a frame size in range and a request that does not fill the
      ring, the k-th reservation long enough for what is stored into it, a reservation to commit, no more used of it
      than it has, none outstanding for a fused write, a frame to skip. */
  lemma AsksExactly(r: Ring, op: Op)
    requires r.Inv()
    ensures Enabled(r, op) <==>
            match op
            case OpAlloc(cb) => 12 <= cb <= 0xFFFF && !FillsRing(r.Size(), r.read, r.wint, cb)
            case OpAllocGso(cb, ctx) =>
              |ctx| == 8 && 12 <= cb + 8 <= 0xFFFF && !FillsRing(r.Size(), r.read, r.wint, cb + 8)
            case OpFill(k, j, bs) => k < |r.Pending()| && j + |bs| <= |r.Pending()[k].bytes|
            case OpCommit => r.Pending() != []
            case OpCommitEx(used) =>
              && r.Pending() != []
              && (if r.Pending()[0].typ == TYPE_GSO then used + 8 else used) <= |r.Pending()[0].bytes|
            case OpDiscard => r.Pending() != []
            case OpWrite(bs) =>
              12 <= |bs| <= 0xFFFF && r.Pending() == [] && !FillsRing(r.Size(), r.read, r.wint, |bs|)
            case OpSkip => r.Unread() != []
  {
    hide HeaderAt, Align8, FillsRing, Chain, Frames, Ready;
    if r.Pending() != [] {
      HeadReady(r);
      HeadFrame(r);
    }
  }

  /** Every enabled operation on the ring is a step of the queue. */
  lemma StepRefines(r: Ring, q: Queue, op: Op)
    requires Holds(r, q) && Enabled(r, op)
    ensures Holds(Apply(r, op), Track(r, q, op)) && QueueStep(q, op, Outcome(r, op), Track(r, q, op))
  {
    hide HeaderAt, Align8, FillsRing, Put, Place, Chain, Frames, Visible, Trim, Patch, Reserves, Alloc, Fill, Commit,
         CommitEx, Discard, Write, Skip, Ready, Dist, CanCommitEx;
    match op
    case OpAlloc(cb) => AllocRefines(r, q, TYPE_FRAME, cb, []);
    case OpAllocGso(cb, ctx) => AllocRefines(r, q, TYPE_GSO, cb + GSO_SIZE, ctx);
    case OpFill(k, j, bs) => FillKeeps(r, k, j, bs);
    case OpCommit => CommitKeeps(r); Appended(q, r.Unread(), [r.Pending()[0]]);
    case OpCommitEx(used) => CommitExRefines(r, q, used);
    case OpDiscard => DiscardRefines(r, q);
    case OpWrite(bs) => WriteRefines(r, q, bs);
    case OpSkip => SkipRefines(r, q);
  }

  lemma AllocRefines(r: Ring, q: Queue, typ: nat, cb: nat, init: seq<byte>)
    requires Holds(r, q) && ValidType(typ) && FrameSize(cb) && |init| <= cb
    requires !FillsRing(r.Size(), r.read, r.wint, cb)
    ensures var r' := Alloc(r, typ, cb, init);
            && r'.Inv() && r'.Unread() == r.Unread()
            && Reserves(q, Place(r.Size(), r.read, r.wint, cb).Room?, q.(pending := r'.Pending()), typ, cb, init)
  {
    hide HeaderAt, Align8, FillsRing, Put, Alloc, Chain, Frames, Dist, Place;
    AllocKeeps(r, typ, cb, init);
    var r' := Alloc(r, typ, cb, init);
    if r'.wint != r.wint {
      var f := r'.Pending()[|r.Pending()|];
      assert r'.Pending() == r.Pending() + [f];
    }
  }

  lemma DiscardRefines(r: Ring, q: Queue)
    requires Holds(r, q) && Enabled(r, OpDiscard)
    ensures Ready(r)
    ensures var r' := Discard(r);
            && r'.Inv()
            && QueueStep(q, OpDiscard, true, q.(pending := r'.Pending(), log := q.seen + Visible(r'.Unread())))
  {
    hide HeaderAt, Align8, Discard, Chain, Frames, Dist;
    DiscardKeeps(r);
    Appended(q, r.Unread(), [Frame(TYPE_PADDING, r.Pending()[0].bytes)]);
  }

  /** What is left of a partly used reservation shows as the used frame alone. */
  lemma CutsVisible(f: Frame, u: nat, fs: seq<Frame>)
    requires u <= |f.bytes| && Cuts(f, u, fs)
    ensures Visible(fs) == Visible([Trim(f, u)])
  {
    hide Align8;
    if Align8(u) != Align8(|f.bytes|) {
      assert fs == [fs[0]] + [fs[1]];
      VisibleConcat([fs[0]], [fs[1]]);
      assert Visible([fs[1]]) == [];
    }
  }

  lemma CommitExRefines(r: Ring, q: Queue, used: nat)
    requires Holds(r, q) && Enabled(r, OpCommitEx(used))
    ensures var r' := CommitEx(r, used);
            && r'.Inv()
            && QueueStep(q, OpCommitEx(used), true, q.(pending := r'.Pending(), log := q.seen + Visible(r'.Unread())))
  {
    hide HeaderAt, Align8, CommitEx, Chain, Frames, Dist, Cuts, Trim, Visible;
    CommitExKeeps(r, used);
    var r', f := CommitEx(r, used), r.Pending()[0];
    var extra := r'.Unread()[|r.Unread()|..];
    CutsVisible(f, UsedBytes(f.typ, used), extra);
    assert r'.Unread() == r.Unread() + extra;
    Appended(q, r.Unread(), extra);
  }

  lemma WriteRefines(r: Ring, q: Queue, bs: seq<byte>)
    requires Holds(r, q) && Enabled(r, OpWrite(bs))
    ensures var r', ok := Write(r, bs), Place(r.Size(), r.read, r.wint, |bs|).Room?;
            && r'.Inv()
            && QueueStep(q, OpWrite(bs), ok, q.(pending := r'.Pending(), log := q.seen + Visible(r'.Unread())))
  {
    hide HeaderAt, Align8, FillsRing, Put, Write, Chain, Frames, Dist, Place;
    NonEmpty(r.data, r.com, r.wint);
    WriteKeeps(r, bs);
    if Place(r.Size(), r.read, r.wint, |bs|).Room? {
      Appended(q, r.Unread(), [Frame(TYPE_FRAME, bs)]);
    }
  }

  lemma SkipRefines(r: Ring, q: Queue)
    requires Holds(r, q) && r.Unread() != []
    ensures Skip(r).Inv() && Holds(Skip(r), q.(seen := q.seen + Visible([r.Unread()[0]])))
    ensures QueueStep(q, OpSkip, r.Unread()[0].typ != TYPE_PADDING, q.(seen := q.seen + Visible([r.Unread()[0]])))
  {
    hide HeaderAt, Align8, Skip, Chain, Frames, Dist;
    SkipKeeps(r);
    var fs := r.Unread();
    assert fs == [fs[0]] + fs[1..];
    VisibleConcat([fs[0]], fs[1..]);
    assert q.seen + (Visible([fs[0]]) + Visible(fs[1..]))
        == (q.seen + Visible([fs[0]])) + Visible(fs[1..]);
  }

  // ----- runs -----

  predicate RunOk(r: Ring, ops: seq<Op>)
    requires r.Inv()
    decreases ops
  {
    ops == [] || (Enabled(r, ops[0]) && RunOk(Apply(r, ops[0]), ops[1..]))
  }

  function Final(r: Ring, ops: seq<Op>): (r': Ring)
    requires r.Inv() && RunOk(r, ops)
    ensures r'.Inv()
    decreases ops
  {
    if ops == [] then r else Final(Apply(r, ops[0]), ops[1..])
  }

  /** The queue states passed through. */
  function Trace(r: Ring, q: Queue, ops: seq<Op>): (qs: seq<Queue>)
    requires r.Inv() && RunOk(r, ops)
    ensures |qs| == |ops| + 1 && qs[0] == q
    decreases ops
  {
    if ops == [] then [q] else [q] + Trace(Apply(r, ops[0]), Track(r, q, ops[0]), ops[1..])
  }

  function Outcomes(r: Ring, ops: seq<Op>): (oks: seq<bool>)
    requires r.Inv() && RunOk(r, ops)
    ensures |oks| == |ops|
    decreases ops
  {
    if ops == [] then [] else [Outcome(r, ops[0])] + Outcomes(Apply(r, ops[0]), ops[1..])
  }

  predicate QueueRun(qs: seq<Queue>, ops: seq<Op>, oks: seq<bool>) {
    && |qs| == |ops| + 1 && |oks| == |ops|
    && forall i {:trigger ops[i]} :: 0 <= i < |ops| ==> QueueStep(qs[i], ops[i], oks[i], qs[i + 1])
  }

  /** Every run of the ring is a run of the queue, and ring and queue agree where it ends. */
  lemma {:induction false} RunRefines(r: Ring, q: Queue, ops: seq<Op>)
    requires Holds(r, q) && RunOk(r, ops)
    ensures QueueRun(Trace(r, q, ops), ops, Outcomes(r, ops))
    ensures Holds(Final(r, ops), Trace(r, q, ops)[|ops|])
    decreases ops
  {
    hide Apply, Track, QueueStep, Enabled, Outcome, Chain, Frames, Visible;
    if ops != [] {
      StepRefines(r, q, ops[0]);
      RunRefines(Apply(r, ops[0]), Track(r, q, ops[0]), ops[1..]);
    }
  }

  const EMPTY: Queue := Queue([], [], [])

  /** The frames a run of fused writes delivers: those that found room, in order. */
  function Written(ops: seq<Op>, oks: seq<bool>): seq<Frame>
    requires |ops| == |oks|
  {
    if ops == [] then [] else
      (if ops[0].OpWrite? && oks[0] then [Frame(TYPE_FRAME, ops[0].bs)] else []) + Written(ops[1..], oks[1..])
  }

  lemma WriteOrSkip(q: Queue, op: Op, ok: bool, q': Queue)
    requires QueueStep(q, op, ok, q') && (op.OpWrite? || op.OpSkip?) && q.seen <= q.log
    ensures q'.log == q.log + (if op.OpWrite? && ok then [Frame(TYPE_FRAME, op.bs)] else [])
    ensures q'.seen <= q'.log
  {
    assert q.log + [] == q.log;
  }

  lemma QueueRunSizes(qs: seq<Queue>, ops: seq<Op>, oks: seq<bool>)
    requires QueueRun(qs, ops, oks)
    ensures |qs| == |ops| + 1 && |oks| == |ops|
  {
  }

  lemma QueueRunTail(qs: seq<Queue>, ops: seq<Op>, oks: seq<bool>)
    requires QueueRun(qs, ops, oks) && ops != []
    ensures QueueStep(qs[0], ops[0], oks[0], qs[1]) && QueueRun(qs[1..], ops[1..], oks[1..])
  {
    hide QueueStep;
    forall i | 0 <= i < |ops[1..]| ensures QueueStep(qs[1..][i], ops[1..][i], oks[1..][i], qs[1..][i + 1]) {
      assert QueueStep(qs[i + 1], ops[i + 1], oks[i + 1], qs[i + 2]);
    }
  }

  /** If the queue is used for fused writes and skips alone, what has been logged is what was written and found room,
      byte for byte and in order, and what has been seen is a prefix of it. */
  lemma {:induction false} WritesArrive(qs: seq<Queue>, ops: seq<Op>, oks: seq<bool>)
    requires QueueRun(qs, ops, oks) && qs[0].seen <= qs[0].log
    requires forall i {:trigger ops[i]} :: 0 <= i < |ops| ==> ops[i].OpWrite? || ops[i].OpSkip?
    ensures qs[|ops|].log == qs[0].log + Written(ops, oks) && qs[|ops|].seen <= qs[|ops|].log
    decreases ops
  {
    hide QueueStep, QueueRun;
    QueueRunSizes(qs, ops, oks);
    if ops == [] {
      assert qs[0].log + [] == qs[0].log;
    } else {
      QueueRunTail(qs, ops, oks);
      WriteOrSkip(qs[0], ops[0], oks[0], qs[1]);
      WritesArrive(qs[1..], ops[1..], oks[1..]);
      var first := if ops[0].OpWrite? && oks[0] then [Frame(TYPE_FRAME, ops[0].bs)] else [];
      assert (qs[0].log + first) + Written(ops[1..], oks[1..]) == qs[0].log + (first + Written(ops[1..], oks[1..]));
    }
  }

  /** From an empty ring on, in every run: the frames seen are a prefix of the frames committed, byte for byte,
      and what is missing from the prefix is exactly what still lies unread in the ring. */
  lemma RunsAreFifo(r: Ring, ops: seq<Op>)
    requires r.Ranged() && r.read == r.com == r.wint && RunOk(r, ops)
    ensures var qs := Trace(r, EMPTY, ops);
            var q := qs[|ops|];
            && qs[0] == EMPTY && QueueRun(qs, ops, Outcomes(r, ops))
            && q.seen <= q.log
            && q.log[|q.seen|..] == Visible(Final(r, ops).Unread())
            && q.pending == Final(r, ops).Pending()
  {
    hide Apply, Track, QueueStep, Enabled, Final, Trace, Outcomes;
    assert Visible([]) == [];
    RunRefines(r, EMPTY, ops);
  }
}
