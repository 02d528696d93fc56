// INTNETRINGBUF and the functions that work on it in place. Offsets are counted from
// the structure, in 32-bit arithmetic that wraps; each method is proved to do to the
// abstract ring what the operation of the same name does in RingModel.
module RingBuffer {
  import opened Bytes
  import opened Geometry
  import opened Framing
  import opened RingModel
  import opened Fifo

  const HDR_SIZE: nat := 8

  datatype Status = VINF_SUCCESS | VERR_BUFFER_OVERFLOW | VERR_TRY_AGAIN

  /** A pointer into the ring, as an offset from the ring structure. */
  datatype Ptr = Null | Ptr(off: nat)

  /** A store into a stretch of memory, seen in that stretch and outside it. */
  lemma PutSlice(d: seq<byte>, lo: nat, hi: nat, p: nat, bs: seq<byte>)
    requires lo <= p && p + |bs| <= hi <= |d|
    ensures Put(d, p, bs)[lo..hi] == Put(d[lo..hi], p - lo, bs)
    ensures Put(d, p, bs)[..lo] == d[..lo] && Put(d, p, bs)[hi..] == d[hi..]
  {
  }

  lemma SliceOfSlice(d: seq<byte>, lo: nat, hi: nat, a: nat, b: nat)
    requires lo <= hi <= |d| && a <= b <= hi - lo
    ensures d[lo..hi][a..b] == d[lo + a..lo + b]
  {
    var x, y := d[lo..hi][a..b], d[lo + a..lo + b];
    assert forall i :: 0 <= i < b - a ==> x[i] == y[i];
  }

  /** memcpy into an array. */
  method CopyInto(a: array<byte>, p: nat, bs: seq<byte>)
    requires p + |bs| <= a.Length
    modifies a
    ensures a[..] == Put(old(a[..]), p, bs)
  {
    forall i | 0 <= i < |bs| {
      a[p + i] := bs[i];
    }
  }

  class RingBuf {
    /** The memory of the whole interface buffer, and where this ring structure lies in it. */
    const mem: array<byte>
    const base: nat

    var offStart: nat
    var offEnd: nat
    var offReadX: nat
    var offWriteCom: nat
    var offWriteInt: nat
    var cbStatWritten: nat
    var cStatFrames: nat
    var cOverflows: nat

    constructor (mem: array<byte>, base: nat)
      ensures this.mem == mem && this.base == base
    {
      this.mem := mem;
      this.base := base;
    }

    /** Aligned bounds in memory and in 32 bits, with room for the largest frame above them; offsets within them. */
    ghost predicate Sane()
      reads this
    {
      && offStart % 8 == 0 && offEnd % 8 == 0 && offStart < offEnd
      && offEnd - offStart <= 0x8000_0000 && offEnd + 0x10008 < U32
      && base + offEnd <= mem.Length
      && offStart <= offReadX < offEnd && offReadX % 8 == 0
      && offStart <= offWriteCom < offEnd && offWriteCom % 8 == 0
      && offStart <= offWriteInt < offEnd && offWriteInt % 8 == 0
    }

    ghost function Data(): (d: seq<byte>)
      reads `offStart, `offEnd, mem
      requires base + offStart <= base + offEnd <= mem.Length
      ensures |d| == offEnd - offStart
    {
      mem[base + offStart..base + offEnd]
    }

    /** The abstract ring: the bytes of the ring and the offsets counted from its start. */
    ghost function View(): (r: Ring)
      reads this, mem
      requires Sane()
      ensures r.Ranged()
    {
      Ring(Data(), offReadX - offStart, offWriteCom - offStart, offWriteInt - offStart,
           cbStatWritten, cStatFrames, cOverflows)
    }

    ghost predicate Valid()
      reads this, mem
    {
      Sane() && View().Inv()
    }

    /** Memory outside the ring. */
    ghost function Outside(): (seq<byte>, seq<byte>)
      reads `offStart, `offEnd, mem
      requires base + offStart <= base + offEnd <= mem.Length
    {
      (mem[..base + offStart], mem[base + offEnd..])
    }

    // ----- memory accesses -----

    /** memcpy to offset `off`. */
    method MemCpy(off: nat, bs: seq<byte>)
      requires Sane() && offStart <= off && off + |bs| <= offEnd
      modifies mem
      ensures Data() == Put(old(Data()), off - offStart, bs) && Outside() == old(Outside())
    {
      hide Put;
      CopyInto(mem, base + off, bs);
      PutSlice(old(mem[..]), base + offStart, base + offEnd, base + off, bs);
    }

    method StoreU16(off: nat, v: nat)
      requires Sane() && offStart <= off && off + 2 <= offEnd && v < U16
      modifies mem
      ensures Data() == Put(old(Data()), off - offStart, EncU16(v)) && Outside() == old(Outside())
    {
      MemCpy(off, [(v % 0x100) as byte, (v / 0x100) as byte]);
    }

    method StoreI32(off: nat, v: int)
      requires Sane() && offStart <= off && off + 4 <= offEnd && -0x8000_0000 <= v < 0x8000_0000
      modifies mem
      ensures Data() == Put(old(Data()), off - offStart, EncI32(v)) && Outside() == old(Outside())
    {
      MemCpy(off, EncI32(v));
    }

    function LoadU16(off: nat): (v: nat)
      reads this, mem
      requires Sane() && offStart <= off && off + 2 <= offEnd
      ensures v == U16At(Data(), off - offStart)
    {
      mem[base + off] as int + 0x100 * mem[base + off + 1] as int
    }

    function LoadI32(off: nat): (v: int)
      reads this, mem
      requires Sane() && offStart <= off && off + 4 <= offEnd
      ensures v == I32At(Data(), off - offStart)
    {
      ToI32(mem[base + off] as int + 0x100 * mem[base + off + 1] as int
            + 0x1_0000 * mem[base + off + 2] as int + 0x100_0000 * mem[base + off + 3] as int)
    }

    /** The fields of the header at offset `pHdr`. */
    function LoadHeader(pHdr: nat): (h: Header)
      reads this, mem
      requires Sane() && offStart <= pHdr && pHdr + 8 <= offEnd
      ensures h == HeaderAt(Data(), pHdr - offStart)
    {
      Header(LoadU16(pHdr), LoadU16(pHdr + 2), LoadI32(pHdr + 4))
    }

    /** `cb` bytes from offset `off` on. */
    function ReadBytes(off: int, cb: nat): (bs: seq<byte>)
      reads this, mem
      requires Sane() && offStart <= off && off + cb <= offEnd
      ensures bs == Data()[off - offStart..off - offStart + cb]
    {
      SliceOfSlice(mem[..], base + offStart, base + offEnd, off - offStart, off - offStart + cb);
      mem[base + off..base + off + cb]
    }

    /** The three stores that write a header. */
    method StoreHeader(off: nat, u16Type: nat, cbFrame: nat, offFrame: int)
      requires Sane() && offStart <= off && off + 8 <= offEnd
      requires u16Type < U16 && cbFrame < U16 && -0x8000_0000 <= offFrame < 0x8000_0000
      modifies mem
      ensures Data() == Put(old(Data()), off - offStart, Enc(Header(u16Type, cbFrame, offFrame)))
      ensures Outside() == old(Outside())
    {
      hide Put, EncU16, EncI32, Enc, Data, Outside;
      StoreU16(off, u16Type);
      StoreU16(off + 2, cbFrame);
      StoreI32(off + 4, offFrame);
      HeaderPuts(old(Data()), off - offStart, Header(u16Type, cbFrame, offFrame));
    }

    // ----- queries -----

    function GetWritable(): (cb: nat)
      reads this, mem
      requires Sane()
      ensures cb == View().Writable()
    {
      if offReadX <= offWriteInt then
        Sub32(Sub32(Add32(Sub32(offEnd, offWriteInt), offReadX), offStart), 1)
      else
        Sub32(Sub32(offReadX, offWriteInt), 1)
    }

    function GetReadable(): (cb: nat)
      reads this, mem
      requires Sane()
      ensures cb == View().Readable()
    {
      if offReadX <= offWriteCom then
        Sub32(offWriteCom, offReadX)
      else
        Sub32(Add32(Sub32(offEnd, offReadX), offWriteCom), offStart)
    }

    /** True exactly if a frame is waiting. */
    predicate HasMoreToRead()
      reads this, mem
      requires Valid()
      ensures HasMoreToRead() <==> View().Unread() != []
    {
      UnreadEmpty(View());
      offReadX != offWriteCom
    }

    /** The header of the oldest unread frame, if there is one. */
    function GetNextFrameToRead(): (p: Ptr)
      reads this, mem
      requires Valid()
      ensures p.Null? <==> View().Unread() == []
      ensures p.Ptr? ==> offStart <= p.off && NextToRead(View()) == At(p.off - offStart)
    {
      hide HeaderAt, Chain, Frames, Align8, Data;
      UnreadEmpty(View());
      if offReadX == offWriteCom then Null else Ptr(offReadX)
    }

    /** IntNetHdrGetFramePtr, for a header whose payload is in the ring. */
    function HdrGetFramePtr(pHdr: nat): (off: int)
      reads this, mem
      requires Sane() && offStart <= pHdr && pHdr + 8 <= offEnd
      ensures off - offStart == Payload(pHdr - offStart, HeaderAt(Data(), pHdr - offStart))
    {
      pHdr + LoadI32(pHdr + 4)
    }

    // ----- allocation -----

    /** The three branches by which both the allocator and the fused write look for room, in 32-bit arithmetic. */
    method FindRoom(cbFrame: nat) returns (found: bool, offFrame: int, offNew: nat)
      requires Sane() && FrameSize(cbFrame)
      ensures found ==> offStart <= offNew < offEnd && offNew % 8 == 0
      ensures var r := View();
              Place(r.Size(), r.read, r.wint, cbFrame) == if found then Room(offFrame, offNew - offStart) else NoRoom
      ensures found ==> (offFrame == 8 || offWriteInt + offFrame == offStart)
      ensures found ==> offStart <= offWriteInt + offFrame && offWriteInt + offFrame + cbFrame <= offEnd
    {
      hide Place, Align32, Align8, Add32, Sub32, ToI32, Data, HeaderAt, Chain, Frames, Dist;
      var cb := Align32(cbFrame);
      var wint := offWriteInt;
      var read := offReadX;
      AllocArithmetic(offStart, offEnd, read, wint, cbFrame);
      PlaceAt(offStart, offEnd, read, wint, cbFrame);
      if read <= wint {
        if Sub32(offEnd, wint) >= Add32(cb, HDR_SIZE) {
          offNew := Add32(Add32(wint, cb), HDR_SIZE);
          if offNew >= offEnd {
            offNew := offStart;
          }
          return true, HDR_SIZE, offNew;
        }
        if Sub32(read, offStart) > cb {
          return true, ToI32(Sub32(offStart, wint)), Add32(offStart, cb);
        }
      } else if Sub32(read, wint) > Add32(cb, HDR_SIZE) {
        return true, HDR_SIZE, Add32(Add32(wint, cb), HDR_SIZE);
      }
      return false, 0, 0;
    }

    /** What every branch does once it has chosen a place: take the space, then write the header.
        With one writer the compare-and-swap on offWriteInt succeeds. */
    method TakeSpace(wint: nat, offNew: nat, u16Type: nat, cbFrame: nat, offFrame: int)
      requires Sane() && wint == offWriteInt && offStart <= offNew < offEnd && offNew % 8 == 0
      requires FrameSize(cbFrame) && ValidType(u16Type)
      requires offFrame == 8 || wint + offFrame == offStart
      requires offStart <= wint + offFrame <= offEnd
      modifies mem, this`offWriteInt
      ensures Sane() && Outside() == old(Outside())
      ensures View() == Reserve(old(View()), u16Type, cbFrame, Room(offFrame, offNew - offStart), [])
    {
      hide Put, Enc, HeaderAt, Chain, Frames, Align8, Dist, Pos, RingSize, Between, Outside, Data, ValidType,
           FrameSize;
      TakeSpaceArithmetic(offStart, offEnd, wint, u16Type, cbFrame, offFrame);
      offWriteInt := offNew;
      StoreHeader(wint, u16Type, cbFrame % U16, offFrame);
      PutNothing(Data(), wint + offFrame - offStart);
    }

    /** intnetRingAllocateFrameInternal */
    method AllocateFrameInternal(cbFrame: nat, u16Type: nat) returns (rc: Status, pHdr: Ptr, pvFrame: Ptr)
      requires Sane() && FrameSize(cbFrame) && ValidType(u16Type)
      modifies mem, this`offWriteInt, this`cOverflows
      ensures Sane() && Outside() == old(Outside())
      ensures View() == Alloc(old(View()), u16Type, cbFrame, [])
      ensures var r := old(View());
              var p := Place(r.Size(), r.read, r.wint, cbFrame);
              if p.Room? then rc == VINF_SUCCESS && pHdr == Ptr(old(offWriteInt))
                              && old(offWriteInt) + p.off >= 0 && pvFrame == Ptr(old(offWriteInt) + p.off)
              else rc == VERR_BUFFER_OVERFLOW && pHdr == Null && pvFrame == Null
    {
      hide Put, Enc, HeaderAt, Chain, Frames, Place, FillsRing, Align8, Reserve, Dist, Add64, Pos, RingSize,
           ValidType, Outside, Data;
      var wint := offWriteInt;
      var found, offFrame, offNew := FindRoom(cbFrame);
      if found {
        TakeSpace(wint, offNew, u16Type, cbFrame, offFrame);
        return VINF_SUCCESS, Ptr(wint), Ptr(wint + offFrame);
      }
      cOverflows := Add64(cOverflows, 1);
      return VERR_BUFFER_OVERFLOW, Null, Null;
    }

    /** IntNetRingAllocateFrame */
    method AllocateFrame(cbFrame: nat) returns (rc: Status, pHdr: Ptr, pvFrame: Ptr)
      requires Valid() && FrameSize(cbFrame)
      modifies mem, this`offWriteInt, this`cOverflows
      ensures Sane() && Outside() == old(Outside())
      ensures View() == Alloc(old(View()), TYPE_FRAME, cbFrame, [])
      ensures !FillsRing(old(View()).Size(), old(View()).read, old(View()).wint, cbFrame) ==> Valid()
      ensures var r := old(View());
              var p := Place(r.Size(), r.read, r.wint, cbFrame);
              if p.Room? then rc == VINF_SUCCESS && pHdr == Ptr(old(offWriteInt))
                              && pvFrame.Ptr? && pvFrame.off == old(offWriteInt) + p.off
              else rc == VERR_BUFFER_OVERFLOW && pHdr == Null && pvFrame == Null
    {
      hide Put, Enc, HeaderAt, Chain, Frames, Place, FillsRing, Align8, Dist, Data, Outside, Alloc;
      AllocSafe(View(), TYPE_FRAME, cbFrame, []);
      rc, pHdr, pvFrame := AllocateFrameInternal(cbFrame, TYPE_FRAME);
    }

    /** IntNetRingAllocateGsoFrame */
    method AllocateGsoFrame(cbFrame: nat, gso: seq<byte>) returns (rc: Status, pHdr: Ptr, pvFrame: Ptr)
      requires Valid() && FrameSize(cbFrame + GSO_SIZE) && |gso| == GSO_SIZE
      modifies mem, this`offWriteInt, this`cOverflows
      ensures Sane() && Outside() == old(Outside())
      ensures View() == Alloc(old(View()), TYPE_GSO, cbFrame + GSO_SIZE, gso)
      ensures !FillsRing(old(View()).Size(), old(View()).read, old(View()).wint, cbFrame + GSO_SIZE) ==> Valid()
      ensures var r := old(View());
              var p := Place(r.Size(), r.read, r.wint, cbFrame + GSO_SIZE);
              if p.Room? then rc == VINF_SUCCESS && pHdr == Ptr(old(offWriteInt))
                              && pvFrame.Ptr? && pvFrame.off == old(offWriteInt) + p.off + GSO_SIZE
              else rc == VERR_BUFFER_OVERFLOW && pHdr == Null && pvFrame == Null
    {
      hide Put, Enc, HeaderAt, Chain, Frames, Place, FillsRing, Align8, Dist, Data, Outside, Alloc;
      AllocSafe(View(), TYPE_GSO, cbFrame + GSO_SIZE, gso);
      AllocThenInit(View(), TYPE_GSO, cbFrame + GSO_SIZE, gso);
      rc, pHdr, pvFrame := AllocateFrameInternal(cbFrame + GSO_SIZE, TYPE_GSO);
      if rc == VINF_SUCCESS {
        MemCpy(pvFrame.off, gso);
        pvFrame := Ptr(pvFrame.off + GSO_SIZE);
      }
    }

    /** The client gathers data into the k-th outstanding reservation. */
    method GatherInto(ghost k: nat, ghost j: nat, pv: nat, bs: seq<byte>)
      requires Valid() && k < |View().Pending()| && j + |bs| <= |View().Pending()[k].bytes|
      requires pv == offStart + BytePos(Data(), View().com, View().wint, k, j)
      modifies mem
      ensures Valid() && Outside() == old(Outside()) && View() == Fill(old(View()), k, j, bs)
    {
      hide Put, Enc, HeaderAt, Chain, Frames, Align8, Dist, Data, Outside, BytePos;
      FillKeeps(View(), k, j, bs);
      StoreInPayload(Data(), View().com, View().wint, k, j, bs);
      MemCpy(pv, bs);
    }

    // ----- commit -----

    /** The committed offset that follows from a header, as both ways to commit compute it. */
    method CommitOffset(pHdr: nat, h: Header, cb: nat) returns (wcom: nat)
      requires Sane() && pHdr == offWriteCom && h == Head(View()) && Ready(View()) && cb == Align32(h.cb)
      ensures offStart <= wcom < offEnd && wcom % 8 == 0
      ensures wcom - offStart == Next(View().Size(), View().com, h)
    {
      hide HeaderAt, Align8, Align32, Add32, Data, Legal, Span, Next, RingSize;
      CommitArithmetic(offStart, offEnd, pHdr, h);
      wcom := Add32(Add32(pHdr, h.off), cb);
      if wcom >= offEnd {
        wcom := offStart;
      }
    }

    /** IntNetRingCommitFrame */
    method CommitFrame(pHdr: nat)
      requires Sane() && Ready(View()) && pHdr == offWriteCom
      modifies this`offWriteCom, this`cbStatWritten, this`cStatFrames
      ensures Sane() && View() == Commit(old(View()))
      ensures old(Valid() && View().Pending() != []) ==> Valid()
    {
      hide Put, Enc, HeaderAt, Chain, Frames, Align8, Align32, Add32, Dist, Data, Outside, Legal, FrameAt, Span,
           Next, Between, Add64, LoadU16, LoadI32, Pos, RingSize;
      CommitSafe(View());
      PosRoom(View().Size(), View().com);
      var h := LoadHeader(pHdr);
      var wcom := CommitOffset(pHdr, h, Align32(h.cb));
      offWriteCom := wcom;
      cbStatWritten := Add64(cbStatWritten, h.cb);
      cStatFrames := Add64(cStatFrames, 1);
    }

    /** drvIntNetUp_FreeBuf: the reservation is given up as padding. */
    method FreeFrame(pHdr: nat)
      requires Sane() && Ready(View()) && pHdr == offWriteCom
      modifies mem, this`offWriteCom, this`cbStatWritten, this`cStatFrames
      ensures Sane() && Outside() == old(Outside()) && View() == Discard(old(View()))
      ensures old(Valid() && View().Pending() != []) ==> Valid()
    {
      hide Put, Enc, HeaderAt, Chain, Frames, Align8, Align32, Add32, Dist, Data, Outside, Legal, FrameAt, Span,
           Next, Between, EncU16, Commit, Discard, Ready;
      DiscardSafe(View());
      RelabelThenCommit(View(), Put(Data(), View().com, EncU16(TYPE_PADDING)));
      StoreU16(pHdr, TYPE_PADDING);
      CommitFrame(pHdr);
    }

    /** Pad the unused space and cut the frame to the bytes used. */
    method InsertPadding(pHdr: nat, h: Header, used: nat, cbAlignedFrame: nat, cbAlignedUsed: nat)
      requires Sane() && offStart <= pHdr && pHdr + 8 <= offEnd && CanShrink(|Data()|, pHdr - offStart, h, used)
      requires cbAlignedFrame == Align8(h.cb) && cbAlignedUsed == Align8(used)
      requires offStart <= pHdr + h.off + cbAlignedUsed && pHdr + h.off + cbAlignedUsed + 8 <= offEnd
      requires Sub32(Sub32(cbAlignedFrame, cbAlignedUsed), 8) % U16 == cbAlignedFrame - cbAlignedUsed - 8
      modifies mem
      ensures Data() == Shrink(old(Data()), pHdr - offStart, h, used) && Outside() == old(Outside())
    {
      hide Put, Enc, HeaderAt, Chain, Frames, Align8, Sub32, Dist, Data, Outside, Legal, Span, EncU16, Pos;
      var cbPadding := Sub32(Sub32(cbAlignedFrame, cbAlignedUsed), HDR_SIZE);
      StoreHeader(pHdr + h.off + cbAlignedUsed, TYPE_PADDING, cbPadding % U16, HDR_SIZE);
      StoreU16(pHdr + 2, used % U16);
    }

    /** Insert a padding frame if the aligned sizes differ. */
    method CutFrame(pHdr: nat, h: Header, used: nat, cbAlignedFrame: nat, cbAlignedUsed: nat, ghost cbUsed: nat)
      requires Sane() && pHdr == offWriteCom && h == Head(View())
      requires CanCommitEx(View(), cbUsed) && used == UsedBytes(h.typ, cbUsed)
      requires cbAlignedFrame == Align32(h.cb) && cbAlignedUsed == Align32(used % U32)
      modifies mem
      ensures Outside() == old(Outside())
      ensures Align8(h.cb) != Align8(used) ==> CanShrink(|old(Data())|, pHdr - offStart, h, used)
      ensures Data() == CutTo(old(Data()), pHdr - offStart, h, used)
    {
      hide Put, Enc, HeaderAt, Chain, Frames, Align8, Sub32, Dist, Data, Outside, Legal, Span, EncU16, Pos, Align32,
           CanShrink, Shrink, CanCommitEx;
      PosRoom(View().Size(), View().com);
      CommitExArithmetic(View(), cbUsed);
      if cbAlignedFrame != cbAlignedUsed {
        InsertPadding(pHdr, h, used, cbAlignedFrame, cbAlignedUsed);
      }
    }

    /** IntNetRingCommitFrameEx. The padding header goes in first, then the frame's length is cut. */
    method CommitFrameEx(pHdr: nat, cbUsed: nat)
      requires Sane() && CanCommitEx(View(), cbUsed) && pHdr == offWriteCom
      modifies mem, this`offWriteCom, this`cbStatWritten, this`cStatFrames
      ensures Sane() && Outside() == old(Outside()) && View() == CommitEx(old(View()), cbUsed)
      ensures old(Valid() && View().Pending() != []) ==> Valid()
    {
      hide Put, Enc, HeaderAt, Chain, Frames, Align8, Align32, Dist, Data, Outside, Legal, FrameAt, Next, Between,
           Add64, LoadU16, LoadI32, Span, CutTo, Pos, RingSize, CanShrink;
      CommitExSafe(View(), cbUsed);
      PosRoom(View().Size(), View().com);
      var h := LoadHeader(pHdr);
      var used := if h.typ == TYPE_GSO then cbUsed + GSO_SIZE else cbUsed;
      var cbAlignedFrame := Align32(h.cb);
      var cbAlignedUsed := Align32(used % U32);
      var wcom := CommitOffset(pHdr, h, cbAlignedFrame);
      CutFrame(pHdr, h, used, cbAlignedFrame, cbAlignedUsed, cbUsed);
      offWriteCom := wcom;
      cbStatWritten := Add64(cbStatWritten, used);
      cStatFrames := Add64(cStatFrames, 1);
    }

    // ----- the fused write -----

    /** Take the space, write the header, copy the frame. */
    method PutFrame(wint: nat, offNew: nat, offFrame: int, frame: seq<byte>)
      requires Sane() && wint == offWriteInt && offStart <= offNew < offEnd && offNew % 8 == 0 && FrameSize(|frame|)
      requires offFrame == 8 || wint + offFrame == offStart
      requires offStart <= wint + offFrame && wint + offFrame + |frame| <= offEnd
      modifies mem, this`offWriteInt
      ensures Sane() && Outside() == old(Outside())
      ensures View() == Reserve(old(View()), TYPE_FRAME, |frame|, Room(offFrame, offNew - offStart), frame)
    {
      hide Put, Enc, HeaderAt, Chain, Frames, Align8, Reserve, Dist, Pos, RingSize, Outside, Data;
      ReserveThenInit(View(), TYPE_FRAME, |frame|, Room(offFrame, offNew - offStart), frame);
      TakeSpace(wint, offNew, TYPE_FRAME, |frame|, offFrame);
      MemCpy(wint + offFrame, frame);
    }

    /** IntNetRingWriteFrame */
    method WriteFrame(frame: seq<byte>) returns (rc: Status)
      requires Valid() && View().Pending() == [] && FrameSize(|frame|)
      modifies mem, this`offWriteInt, this`offWriteCom, this`cbStatWritten, this`cStatFrames, this`cOverflows
      ensures Sane() && Outside() == old(Outside()) && View() == Write(old(View()), frame)
      ensures !FillsRing(old(View()).Size(), old(View()).read, old(View()).wint, |frame|) ==> Valid()
      ensures var r := old(View());
              rc == if Place(r.Size(), r.read, r.wint, |frame|).Room? then VINF_SUCCESS else VERR_BUFFER_OVERFLOW
    {
      hide Put, Enc, HeaderAt, Chain, Frames, Place, FillsRing, Align8, Reserve, Dist, Add64, Pos, RingSize,
           Outside, Data, Between;
      WriteSafe(View(), frame);
      var wint := offWriteInt;
      var found, offFrame, offNew := FindRoom(|frame|);
      if !found {
        cOverflows := Add64(cOverflows, 1);
        return VERR_BUFFER_OVERFLOW;
      }
      PutFrame(wint, offNew, offFrame, frame);
      offWriteCom := offNew;
      cbStatWritten := Add64(cbStatWritten, |frame|);
      cStatFrames := Add64(cStatFrames, 1);
      return VINF_SUCCESS;
    }

    // ----- reading -----

    /** IntNetRingSkipFrame */
    method SkipFrame()
      requires Valid() && View().Unread() != []
      modifies this`offReadX
      ensures Valid() && View() == Skip(old(View()))
    {
      hide Put, Enc, HeaderAt, Chain, Frames, Align8, Align32, Add32, Dist, Data, Outside, Legal, FrameAt,
           Next, Between, LoadU16, LoadI32, Pos, RingSize, Skip;
      SkipKeeps(View());
      PosRoom(View().Size(), View().read);
      var h := LoadHeader(offReadX);
      SkipArithmetic(View(), offStart, offEnd, h);
      var offReadNew := Align32(Add32(Add32(offReadX, h.off), h.cb));
      if offReadNew >= offEnd {
        offReadNew := offStart;
      }
      offReadX := offReadNew;
    }

    /** The loop that empties a send ring: hand every frame, and every GSO frame with a valid context, to the switch,
        drop the rest, and stop before the first frame for which the switch asks to be called again. `bad` is what is
        added to cStatBadFrames. */
    method ProcessFrames(sw: Switch) returns (rc: Status, frames: seq<Frame>, bad: nat, ghost passed: nat)
      requires Valid()
      modifies this`offReadX
      ensures Valid() && View() == old(View()).(read := View().read)
      ensures passed <= |old(View()).Unread()| && View().Unread() == old(View()).Unread()[passed..]
      ensures frames == Forwarded(old(View()).Unread()[..passed], sw)
      ensures bad == Babble(old(View()).Unread()[..passed], sw)
      ensures forall i :: 0 <= i < |frames| ==> !sw.retry(i)
      ensures rc == if passed == |old(View()).Unread()| then VINF_SUCCESS else VERR_TRY_AGAIN
      ensures passed < |old(View()).Unread()| ==>
                var f := old(View()).Unread()[passed];
                sw.retry(|frames|) && (f.typ == TYPE_FRAME || (f.typ == TYPE_GSO && sw.validGso(f.bytes)))
    {
      hide Put, Enc, HeaderAt, Chain, Frames, Align8, Outside, Legal, Next, Between, LoadU16, LoadI32,
           LoadHeader, GetNextFrameToRead, Data, RingSize, Skip, Dist, ReadHead, Forwarded, Babble, Pos;
      ghost var r0, unread := View(), View().Unread();
      rc, frames, bad, passed := VINF_SUCCESS, [], 0, 0;
      NothingPassed(unread, sw);
      var pHdr := GetNextFrameToRead();
      while pHdr.Ptr?
        invariant Valid() && View() == r0.(read := View().read) && pHdr == GetNextFrameToRead()
        invariant passed <= |unread| && View().Unread() == unread[passed..]
        invariant frames == Forwarded(unread[..passed], sw) && bad == Babble(unread[..passed], sw)
        invariant forall i :: 0 <= i < |frames| ==> !sw.retry(i)
        decreases View().Readable()
      {
        PassOne(View(), unread, passed, sw);
        var frame := FrameToRead(pHdr.off);
        if frame.typ == TYPE_FRAME || (frame.typ == TYPE_GSO && sw.validGso(frame.bytes)) {
          if sw.retry(|frames|) {
            rc := VERR_TRY_AGAIN;
            return;
          }
          frames := frames + [frame];
        } else {
          bad := bad + if frame.typ == TYPE_PADDING then 0 else 1;
        }
        SkipFrame();
        passed := passed + 1;
        pHdr := GetNextFrameToRead();
      }
      AllPassed(unread, passed);
    }

    /** The frame whose header is at the read offset. */
    method FrameToRead(pHdr: nat) returns (frame: Frame)
      requires Valid() && View().Unread() != [] && pHdr == offReadX
      ensures frame == View().Unread()[0]
    {
      hide Put, Enc, HeaderAt, Chain, Frames, Align8, Outside, Legal, Next, Between, LoadU16, LoadI32,
           LoadHeader, HdrGetFramePtr, ReadBytes, Data, RingSize, Dist, Pos;
      var h := LoadHeader(pHdr);
      FirstFrame(View(), h);
      frame := Frame(h.typ, ReadBytes(HdrGetFramePtr(pHdr), h.cb));
    }

    // ----- whole runs -----

    /** Any run of operations on the structure is the run of the same operations on the abstract ring. */
    method Run(ops: seq<Op>)
      requires Valid() && RunOk(View(), ops)
      modifies mem, this`offReadX, this`offWriteInt, this`offWriteCom
      modifies this`cbStatWritten, this`cStatFrames, this`cOverflows
      ensures Valid() && Outside() == old(Outside()) && View() == Final(old(View()), ops)
    {
      hide Put, Enc, HeaderAt, Chain, Frames, Align8, Dist, Outside, Data, Apply, Enabled;
      ghost var r0 := View();
      for i := 0 to |ops|
        invariant Valid() && Outside() == old(Outside())
        invariant RunOk(View(), ops[i..]) && Final(View(), ops[i..]) == Final(r0, ops)
      {
        assert ops[i..][0] == ops[i] && ops[i..][1..] == ops[i + 1..];
        Execute(ops[i]);
      }
    }

    method Execute(op: Op)
      requires Valid() && Enabled(View(), op)
      modifies mem, this`offReadX, this`offWriteInt, this`offWriteCom
      modifies this`cbStatWritten, this`cStatFrames, this`cOverflows
      ensures Valid() && Outside() == old(Outside())
      ensures View() == Apply(old(View()), op)
    {
      hide Put, Enc, HeaderAt, Chain, Frames, Align8, Dist, Outside, FillsRing, Place, Alloc, Fill, Commit,
           CommitEx, Discard, Write, Skip, BytePos, CanCommitEx, Ready;
      HeadReady(View());
      match op
      case OpAlloc(cb) => var _, _, _ := AllocateFrame(cb);
      case OpAllocGso(cb, ctx) => var _, _, _ := AllocateGsoFrame(cb, ctx);
      case OpFill(k, j, bs) =>
        var d := mem[base + offStart..base + offEnd];
        GatherInto(k, j, offStart + BytePos(d, offWriteCom - offStart, offWriteInt - offStart, k, j), bs);
      case OpCommit => CommitFrame(offWriteCom);
      case OpCommitEx(used) => CommitFrameEx(offWriteCom, used);
      case OpDiscard => FreeFrame(offWriteCom);
      case OpWrite(bs) => var _ := WriteFrame(bs);
      case OpSkip => SkipFrame();
    }
  }

  lemma AllocSafe(r: Ring, typ: nat, cb: nat, init: seq<byte>)
    requires r.Inv() && ValidType(typ) && FrameSize(cb) && |init| <= cb
    ensures !FillsRing(r.Size(), r.read, r.wint, cb) ==> Alloc(r, typ, cb, init).Inv()
  {
    hide HeaderAt, Align8, Chain, Frames, Dist, Place, FillsRing, Alloc;
    if !FillsRing(r.Size(), r.read, r.wint, cb) {
      AllocKeeps(r, typ, cb, init);
    }
  }

  lemma WriteSafe(r: Ring, bs: seq<byte>)
    requires r.Inv() && FrameSize(|bs|) && r.Pending() == []
    ensures r.com == r.wint && (!FillsRing(r.Size(), r.read, r.wint, |bs|) ==> Write(r, bs).Inv())
  {
    hide HeaderAt, Align8, Chain, Frames, Dist, Place, FillsRing, Write;
    NonEmpty(r.data, r.com, r.wint);
    if !FillsRing(r.Size(), r.read, r.wint, |bs|) {
      WriteKeeps(r, bs);
    }
  }

  /** Reserving and then copying to the start of the payload. */
  lemma ReserveThenInit(r: Ring, typ: nat, cb: nat, p: Placement, init: seq<byte>)
    requires r.Ranged() && ValidType(typ) && FrameSize(cb) && p.Room? && (p.off == 8 || r.wint + p.off == 0)
    requires 0 <= r.wint + p.off && r.wint + p.off + |init| <= r.Size()
    ensures var r1 := Reserve(r, typ, cb, p, []);
            Reserve(r, typ, cb, p, init) == r1.(data := Put(r1.data, r.wint + p.off, init))
  {
    hide Put, Enc;
    PutNothing(Put(r.data, r.wint, Enc(Header(typ, cb, p.off))), r.wint + p.off);
  }

  lemma AllocThenInit(r: Ring, typ: nat, cb: nat, init: seq<byte>)
    requires r.Ranged() && ValidType(typ) && FrameSize(cb) && |init| <= cb
    ensures var p, r1 := Place(r.Size(), r.read, r.wint, cb), Alloc(r, typ, cb, []);
            if p.Room? then
              && 0 <= r.wint + p.off && r.wint + p.off + |init| <= r.Size()
              && Alloc(r, typ, cb, init) == r1.(data := Put(r1.data, r.wint + p.off, init))
            else Alloc(r, typ, cb, init) == r1
  {
    hide HeaderAt, Align8, Dist, Place, Put, Enc, Next, Span, Reserve;
    var p := Place(r.Size(), r.read, r.wint, cb);
    if p.Room? {
      PlaceExact(r.Size(), r.read, r.wint, cb, typ);
      LegalPayload(r.Size(), r.wint, Header(typ, cb, p.off));
      ReserveThenInit(r, typ, cb, p, init);
    }
  }

  lemma CommitSafe(r: Ring)
    requires r.Ranged() && Ready(r)
    ensures r.Inv() && r.Pending() != [] ==> Commit(r).Inv()
  {
    hide HeaderAt, Align8, Chain, Frames, Dist, Commit;
    if r.Inv() && r.Pending() != [] {
      CommitKeeps(r);
    }
  }

  lemma DiscardSafe(r: Ring)
    requires r.Ranged() && Ready(r)
    ensures r.Inv() && r.Pending() != [] ==> Discard(r).Inv()
  {
    hide HeaderAt, Align8, Chain, Frames, Dist, Discard;
    if r.Inv() && r.Pending() != [] {
      DiscardKeeps(r);
    }
  }

  lemma CommitExSafe(r: Ring, used: nat)
    requires r.Ranged() && CanCommitEx(r, used)
    ensures r.Inv() && r.Pending() != [] ==> CommitEx(r, used).Inv()
  {
    hide HeaderAt, Align8, Chain, Frames, Dist, CommitEx;
    if r.Inv() && r.Pending() != [] {
      CommitExKeeps(r, used);
    }
  }

  /** Relabelling changes neither the place nor the length, so that committing then is the discard. */
  lemma RelabelThenCommit(r: Ring, d': seq<byte>)
    requires r.Ranged() && Ready(r) && d' == Put(r.data, r.com, EncU16(TYPE_PADDING))
    ensures Ready(r.(data := d')) && Commit(r.(data := d')) == Discard(r)
  {
    hide HeaderAt, Align8, FrameAt, Dist, Put, EncU16;
    PosRoom(r.Size(), r.com);
    PutType(r.data, r.com, TYPE_PADDING);
  }

  /** The commit offset of a legal header does not wrap in 32 bits, even when the frame lies before its header. */
  lemma CommitArithmetic(start: nat, end: nat, pHdr: nat, h: Header)
    requires start <= pHdr < end && RingSize(end - start) && Pos(end - start, pHdr - start) && end + 0x10008 < U32
    requires h.cb < U16 && Legal(end - start, pHdr - start, h)
    ensures Align32(h.cb) == Align8(h.cb)
    ensures Add32(Add32(pHdr, h.off), Align8(h.cb)) == pHdr + h.off + Align8(h.cb) <= end
    ensures start + Next(end - start, pHdr - start, h) ==
            if pHdr + h.off + Align8(h.cb) >= end then start else pHdr + h.off + Align8(h.cb)
    ensures start % 8 == 0 ==> (start + Next(end - start, pHdr - start, h)) % 8 == 0
  {
    hide Align32, Align8, Add32;
    Align32IsAlign8(h.cb);
  }

  /** The sizes computed by CommitFrameEx, and its padding header's position, for a used size within the reservation. */
  lemma CommitExArithmetic(r: Ring, used: nat)
    requires r.Ranged() && CanCommitEx(r, used)
    ensures var h, u := Head(r), UsedBytes(Head(r).typ, used);
            && u % U16 == u && Align32(u % U32) == Align8(u) && Align32(h.cb) == Align8(h.cb)
            && (Align8(h.cb) != Align8(u) ==>
                  && CanShrink(r.Size(), r.com, h, u)
                  && Sub32(Sub32(Align8(h.cb), Align8(u)), 8) % U16 == Align8(h.cb) - Align8(u) - 8
                  && 0 <= r.com + h.off + Align8(u) && r.com + h.off + Align8(u) + 8 <= r.Size())
  {
    hide HeaderAt, Align32, Align8, Sub32, FrameAt, Dist;
    PosRoom(r.Size(), r.com);
    var h, u := Head(r), UsedBytes(Head(r).typ, used);
    Align32IsAlign8(u);
    Align32IsAlign8(h.cb);
    Align8Mono(u, h.cb);
    if Align8(h.cb) != Align8(u) {
      SplitPositions(r.Size(), r.com, h, u);
    }
  }

  /** The reader's computation does not wrap either. */
  lemma SkipArithmetic(r: Ring, start: nat, end: nat, h: Header)
    requires r.Inv() && r.Unread() != [] && end - start == r.Size() && end + 0x10008 < U32 && start % 8 == 0
    requires r.read + 8 <= r.Size() && h == HeaderAt(r.data, r.read)
    ensures var next := Align32(Add32(Add32(start + r.read, h.off), h.cb));
            && start + Skip(r).read == (if next >= end then start else next)
            && (start + Skip(r).read) % 8 == 0
  {
    hide HeaderAt, Align32, Align8, Chain, Frames, Add32, FrameAt, Dist;
    SkipKeeps(r);
    LegalPayload(r.Size(), r.read, h);
    Align32IsAlign8(start + r.read + h.off + h.cb);
    Align8Shift(start, r.read + h.off + h.cb);
  }

  lemma UnreadEmpty(r: Ring)
    requires r.Inv()
    ensures r.Unread() == [] <==> r.read == r.com
  {
    hide HeaderAt, Align8, Dist;
    NonEmpty(r.data, r.read, r.com);
  }

  /** The oldest unread frame, in terms of its header. */
  lemma FirstFrame(r: Ring, h: Header)
    requires r.Inv() && r.Unread() != [] && r.read + 8 <= r.Size() && h == HeaderAt(r.data, r.read)
    ensures 0 <= r.read + h.off && r.read + h.off + h.cb <= r.Size() && ValidType(h.typ)
    ensures r.Unread()[0] == Frame(h.typ, r.data[r.read + h.off..r.read + h.off + h.cb])
  {
    hide HeaderAt, Align8, Chain, Frames, Dist;
    SkipKeeps(r);
    LegalPayload(r.Size(), r.read, h);
    assert Read(r.data, r.read + h.off, h.cb) == r.data[r.read + h.off..r.read + h.off + h.cb];
  }

  // ----- emptying a send ring -----

  /** What the loop asks of the network: whether a GSO frame's context is valid, and whether the switch, given the k-th
      frame of this call, wants it again from another context. */
  datatype Switch = Switch(validGso: seq<byte> -> bool, retry: nat -> bool)

  predicate ForSwitch(f: Frame, sw: Switch) {
    f.typ == TYPE_FRAME || (f.typ == TYPE_GSO && sw.validGso(f.bytes))
  }

  /** The frames among `fs` that go to the switch. */
  function Forwarded(fs: seq<Frame>, sw: Switch): seq<Frame> {
    if fs == [] then [] else
      Forwarded(fs[..|fs| - 1], sw) + if ForSwitch(fs[|fs| - 1], sw) then [fs[|fs| - 1]] else []
  }

  /** How many are neither for the switch nor padding. */
  function Babble(fs: seq<Frame>, sw: Switch): nat {
    if fs == [] then 0 else
      var f := fs[|fs| - 1];
      Babble(fs[..|fs| - 1], sw) + if ForSwitch(f, sw) || f.typ == TYPE_PADDING then 0 else 1
  }

  lemma NothingPassed(fs: seq<Frame>, sw: Switch)
    ensures fs[0..] == fs && Forwarded(fs[..0], sw) == [] && Babble(fs[..0], sw) == 0
  {
  }

  /** Skipping one more frame, seen from all that were unread at first. */
  lemma PassOne(r: Ring, unread: seq<Frame>, k: nat, sw: Switch)
    requires r.Inv() && r.Unread() != [] && k <= |unread| && r.Unread() == unread[k..]
    ensures k < |unread| && r.Unread()[0] == unread[k]
    ensures var r' := Skip(r);
            r'.Inv() && r' == r.(read := r'.read) && r'.Unread() == unread[k + 1..] && r'.Readable() < r.Readable()
    ensures Forwarded(unread[..k + 1], sw)
         == Forwarded(unread[..k], sw) + if ForSwitch(unread[k], sw) then [unread[k]] else []
    ensures Babble(unread[..k + 1], sw)
         == Babble(unread[..k], sw) + if ForSwitch(unread[k], sw) || unread[k].typ == TYPE_PADDING then 0 else 1
  {
    hide HeaderAt, Align8, Chain, Frames, Dist, Skip;
    SkipKeeps(r);
    assert unread[k..][1..] == unread[k + 1..];
    assert unread[..k + 1][..k] == unread[..k];
  }

  lemma AllPassed(fs: seq<Frame>, k: nat)
    requires k <= |fs| && fs[k..] == []
    ensures k == |fs|
  {
  }

  /** A normal frame goes to the switch, a GSO frame does if its context is valid and is bad otherwise, padding is
      neither. */
  lemma ForwardedOne(f: Frame, sw: Switch)
    requires ValidType(f.typ)
    ensures Forwarded([f], sw) ==
            if f.typ == TYPE_FRAME || (f.typ == TYPE_GSO && sw.validGso(f.bytes)) then [f] else []
    ensures Babble([f], sw) == if f.typ == TYPE_GSO && !sw.validGso(f.bytes) then 1 else 0
  {
    assert [f][..0] == [];
  }

  /** The loop treats each frame for itself, in order. */
  lemma {:induction false} ForwardedConcat(a: seq<Frame>, b: seq<Frame>, sw: Switch)
    ensures Forwarded(a + b, sw) == Forwarded(a, sw) + Forwarded(b, sw)
    ensures Babble(a + b, sw) == Babble(a, sw) + Babble(b, sw)
    decreases |b|
  {
    if b == [] {
      assert a + b == a;
    } else {
      var k := |b| - 1;
      assert (a + b)[..|a + b| - 1] == a + b[..k] && (a + b)[|a + b| - 1] == b[k];
      ForwardedConcat(a, b[..k], sw);
    }
  }

  /** With every context valid, what goes to the switch is exactly what the reader of a ring is to see. */
  lemma {:induction false} ForwardedIsVisible(fs: seq<Frame>, sw: Switch)
    requires forall f :: f in fs ==>
               f.typ == TYPE_FRAME || f.typ == TYPE_PADDING || (f.typ == TYPE_GSO && sw.validGso(f.bytes))
    ensures Forwarded(fs, sw) == Visible(fs) && Babble(fs, sw) == 0
  {
    if fs != [] {
      assert fs == [fs[0]] + fs[1..] && fs[0] in fs;
      ForwardedConcat([fs[0]], fs[1..], sw);
      ForwardedOne(fs[0], sw);
      ForwardedIsVisible(fs[1..], sw);
    }
  }

  /** Nothing else ever goes to the switch. */
  lemma {:induction false} ForwardedSound(fs: seq<Frame>, sw: Switch)
    ensures forall f :: f in Forwarded(fs, sw) ==>
              f in fs && (f.typ == TYPE_FRAME || (f.typ == TYPE_GSO && sw.validGso(f.bytes)))
  {
    if fs != [] {
      ForwardedSound(fs[..|fs| - 1], sw);
    }
  }

  /** The GSO frames with an invalid context, by their places. */
  function BadGso(fs: seq<Frame>, sw: Switch): set<nat> {
    set i: nat | i < |fs| && fs[i].typ == TYPE_GSO && !sw.validGso(fs[i].bytes)
  }

  lemma BadGsoSnoc(init: seq<Frame>, f: Frame, sw: Switch)
    ensures BadGso(init + [f], sw)
         == BadGso(init, sw) + if f.typ == TYPE_GSO && !sw.validGso(f.bytes) then {|init|} else {}
  {
  }

  /** What is counted as bad are the GSO frames with an invalid context. */
  lemma {:induction false} BabbleCounts(fs: seq<Frame>, sw: Switch)
    requires forall i {:trigger fs[i]} :: 0 <= i < |fs| ==> ValidType(fs[i].typ)
    ensures Babble(fs, sw) == |set i: nat | i < |fs| && fs[i].typ == TYPE_GSO && !sw.validGso(fs[i].bytes)|
  {
    assert Babble(fs, sw) == |BadGso(fs, sw)| by {
      hide BadGso, Babble;
      if fs == [] {
        NoBadGso(sw);
      } else {
        var init, f := fs[..|fs| - 1], fs[|fs| - 1];
        assert fs == init + [f];
        BabbleCounts(init, sw);
        BadGsoSnoc(init, f, sw);
        ForwardedConcat(init, [f], sw);
        ForwardedOne(f, sw);
      }
    }
  }

  lemma NoBadGso(sw: Switch)
    ensures Babble([], sw) == |BadGso([], sw)|
  {
    assert BadGso([], sw) == {};
  }

  lemma SignedRoundTrip(x: int)
    requires -0x8000_0000 <= x < 0x8000_0000
    ensures ToI32(Sub32(x, 0)) == x
  {
  }

  /** No computation of the allocator wraps, save the one that is meant to: the offset of a frame placed before its
      header. */
  lemma AllocArithmetic(start: nat, end: nat, read: nat, wint: nat, cbFrame: nat)
    requires start <= read < end && start <= wint < end
    requires end + 0x10008 < U32 && end - start <= 0x8000_0000 && FrameSize(cbFrame)
    ensures Align32(cbFrame) == Align8(cbFrame) && cbFrame % U16 == cbFrame
    ensures Sub32(end, wint) == end - wint && Sub32(read, start) == read - start
    ensures Add32(Align8(cbFrame), 8) == Align8(cbFrame) + 8
    ensures Add32(Add32(wint, Align8(cbFrame)), 8) == wint + Align8(cbFrame) + 8
    ensures Add32(start, Align8(cbFrame)) == start + Align8(cbFrame)
    ensures read >= wint ==> Sub32(read, wint) == read - wint
    ensures ToI32(Sub32(start, wint)) == start - wint
  {
    hide Align32, Align8, Add32, ToI32;
    Align32IsAlign8(cbFrame);
    SignedRoundTrip(start - wint);
  }

  lemma TakeSpaceArithmetic(start: nat, end: nat, wint: nat, typ: nat, cb: nat, off: int)
    requires start % 8 == 0 && end % 8 == 0 && wint % 8 == 0 && start <= wint < end && end - start <= 0x8000_0000
    requires FrameSize(cb) && ValidType(typ) && (off == 8 || wint + off == start)
    ensures wint + 8 <= end && typ < U16 && cb < U16 && cb % U16 == cb && -0x8000_0000 <= off < 0x8000_0000
  {
  }

  /** The placement in terms of offsets from the structure, branch by branch; a successful one stays in bounds. */
  lemma PlaceAt(start: nat, end: nat, read: nat, wint: nat, cb: nat)
    requires start % 8 == 0 && end % 8 == 0 && read % 8 == 0 && wint % 8 == 0
    requires start <= read < end && start <= wint < end && FrameSize(cb)
    ensures var a := Align8(cb);
            var p := Place(end - start, read - start, wint - start, cb);
            && cb <= a && (wint + a + 8) % 8 == 0 && (start + a) % 8 == 0
            && (read <= wint && end - wint >= a + 8 ==>
                  p == Room(8, (if wint + a + 8 >= end then start else wint + a + 8) - start))
            && (read <= wint && end - wint < a + 8 && read - start > a ==>
                  p == Room(start - wint, a) && start + a < end)
            && (read <= wint && end - wint < a + 8 && read - start <= a ==> p == NoRoom)
            && (wint < read && read - wint > a + 8 ==> p == Room(8, wint + a + 8 - start) && wint + a + 8 < end)
            && (wint < read && read - wint <= a + 8 ==> p == NoRoom)
  {
    hide Align8;
  }
}
