// Putting a scatter/gather frame into a ring: allocate, copy the segments straight into
// ring memory, commit.
module SgTransfer {
  import opened Bytes
  import opened Geometry
  import opened Framing
  import opened RingModel
  import opened Fifo
  import opened RingBuffer
  import opened ScatterGather

  const MAC_SIZE: nat := 6

  /** IntNetSgRead with ring memory as its destination. */
  method ReadIntoRing(sg: IntNetSg, ring: RingBuf, off: nat)
    requires ring.Sane() && sg.Valid() && sg.cSegsUsed > 0 && ring.offStart <= off && off + sg.cbTotal <= ring.offEnd
    modifies ring.mem
    ensures ring.Data() == Put(old(ring.Data()), off - ring.offStart, Flatten(sg.Used()))
    ensures ring.Outside() == old(ring.Outside())
  {
    hide Put, Flatten;
    ghost var d := ring.mem[..];
    sg.Read(ring.mem, ring.base + off);
    PutSlice(d, ring.base + ring.offStart, ring.base + ring.offEnd, ring.base + off, Flatten(sg.Used()));
  }

  method AllocateFor(ring: RingBuf, cbTotal: nat, gso: seq<byte>) returns (rc: Status, pHdr: Ptr, pvFrame: Ptr)
    requires ring.Valid() && (gso == [] || |gso| == GSO_SIZE) && FrameSize(cbTotal + |gso|)
    modifies ring.mem, ring`offWriteInt, ring`cOverflows
    ensures ring.Sane() && ring.Outside() == old(ring.Outside())
    ensures ring.View() ==
            Alloc(old(ring.View()), if gso == [] then TYPE_FRAME else TYPE_GSO, cbTotal + |gso|, gso)
    ensures var r := old(ring.View());
            var p := Place(r.Size(), r.read, r.wint, cbTotal + |gso|);
            if p.Room? then rc == VINF_SUCCESS && pHdr == Ptr(old(ring.offWriteInt))
                            && pvFrame.Ptr? && pvFrame.off == old(ring.offWriteInt) + p.off + |gso|
            else rc == VERR_BUFFER_OVERFLOW
  {
    hide Put, Enc, HeaderAt, Chain, Frames, Place, FillsRing, Align8, Dist, Alloc, Pos, RingSize, Between;
    if gso == [] {
      rc, pHdr, pvFrame := ring.AllocateFrame(cbTotal);
    } else {
      rc, pHdr, pvFrame := ring.AllocateGsoFrame(cbTotal, gso);
    }
  }

  lemma SomeSegment(sg: IntNetSg)
    requires sg.Valid()
    ensures sg.cbTotal > 0 ==> sg.cSegsUsed > 0
  {
  }

  /** Fill the reservation just made with the segments, and readdress it. */
  method Complete(ring: RingBuf, sg: IntNetSg, newDst: seq<byte>, pv: nat)
    requires ring.Sane() && sg.Valid() && sg.cSegsUsed > 0
    requires ring.offStart <= pv && pv + sg.cbTotal <= ring.offEnd && |newDst| <= sg.cbTotal
    modifies ring.mem
    ensures ring.Outside() == old(ring.Outside())
    ensures ring.Data() == Put(old(ring.Data()), pv - ring.offStart, Put(Flatten(sg.Used()), 0, newDst))
  {
    hide Put, Flatten, RingBuf.Data, RingBuf.Outside;
    PutInto(ring.Data(), pv - ring.offStart, Flatten(sg.Used()), newDst);
    ReadIntoRing(sg, ring, pv);
    if newDst != [] {
      ring.MemCpy(pv, newDst);
    }
  }

  /** Then commit it. */
  method CompleteAndCommit(ring: RingBuf, sg: IntNetSg, newDst: seq<byte>, pHdr: nat, pv: nat)
    requires ring.Sane() && sg.Valid() && sg.cSegsUsed > 0 && pHdr == ring.offWriteCom
    requires ring.offStart <= pv && pv + sg.cbTotal <= ring.offEnd && |newDst| <= sg.cbTotal
    requires Ready(ring.View().(data := Put(ring.Data(), pv - ring.offStart, Put(Flatten(sg.Used()), 0, newDst))))
    modifies ring.mem, ring`offWriteCom, ring`cbStatWritten, ring`cStatFrames
    ensures ring.Sane() && ring.Outside() == old(ring.Outside())
    ensures var bytes := Put(Flatten(old(sg.Used())), 0, newDst);
            var d2 := Put(old(ring.Data()), pv - old(ring.offStart), bytes);
            ring.View() == Commit(old(ring.View()).(data := d2))
  {
    hide Put, Enc, HeaderAt, Chain, Frames, Align8, Dist, Commit, Flatten, Pos, RingSize, Between, Ready;
    Complete(ring, sg, newDst, pv);
    ring.CommitFrame(pHdr);
  }

  /** Storing into what was just stored. */
  lemma PutInto(d: seq<byte>, p: int, bs: seq<byte>, cs: seq<byte>)
    requires 0 <= p && p + |bs| <= |d| && |cs| <= |bs|
    ensures Put(Put(d, p, bs), p, cs) == Put(d, p, Put(bs, 0, cs))
    ensures cs == [] ==> Put(bs, 0, cs) == bs
  {
  }

  /** intnetR0RingWriteFrame. An empty `gso` stands for a normal frame, an empty `newDst` for the frame's own address.
      What is written arrives as one frame, unless it fills the ring: then the call succeeds and the reader finds
      nothing. */
  method RingWriteSg(ring: RingBuf, sg: IntNetSg, gso: seq<byte>, newDst: seq<byte>) returns (rc: Status)
    requires ring.Valid() && ring.View().Pending() == [] && sg.Valid()
    requires gso == [] || |gso| == GSO_SIZE
    requires newDst == [] || |newDst| == MAC_SIZE <= sg.cbTotal
    requires FrameSize(sg.cbTotal + |gso|)
    modifies ring.mem, ring
    ensures ring.Valid() && ring.Outside() == old(ring.Outside()) && ring.View().Pending() == []
    ensures var r := old(ring.View());
            rc == if Place(r.Size(), r.read, r.wint, sg.cbTotal + |gso|).Room? then VINF_SUCCESS
                  else VERR_BUFFER_OVERFLOW
    ensures rc == VINF_SUCCESS ==>
              var r := old(ring.View());
              var bytes := gso + Put(Flatten(sg.Used()), 0, newDst);
              ring.View().Unread() == if FillsRing(r.Size(), r.read, r.wint, sg.cbTotal + |gso|) then []
                                      else r.Unread() + [Frame(if gso == [] then TYPE_FRAME else TYPE_GSO, bytes)]
    ensures rc != VINF_SUCCESS ==>
              ring.View() == old(ring.View()).(overflows := Add64(old(ring.cOverflows), 1))
  {
    hide Put, Enc, HeaderAt, Chain, Frames, Place, FillsRing, Align8, Dist, Alloc, Commit, Flatten, Pos, Ready,
         RingSize, Between, Read, Payload, RingBuf.Data, RingBuf.Outside, Add64;
    SomeSegment(sg);
    ghost var bytes := Put(Flatten(sg.Used()), 0, newDst);
    Steps(ring.View(), if gso == [] then TYPE_FRAME else TYPE_GSO, gso, bytes);
    var pHdr: Ptr, pv: Ptr;
    rc, pHdr, pv := AllocateFor(ring, sg.cbTotal, gso);
    if rc == VINF_SUCCESS {
      CompleteAndCommit(ring, sg, newDst, pHdr.off, pv.off);
    }
  }

  /** The abstract steps behind it: the reservation begins with `gso`, is completed with `bytes`, and is what the
      reader gets, or nothing is if it filled the ring. */
  lemma Steps(r: Ring, typ: nat, gso: seq<byte>, bytes: seq<byte>)
    requires r.Inv() && r.Pending() == [] && FrameSize(|bytes| + |gso|) && ValidType(typ)
    ensures r.com == r.wint
    ensures var cb := |bytes| + |gso|;
            var p, r1 := Place(r.Size(), r.read, r.wint, cb), Alloc(r, typ, cb, gso);
            && (p.NoRoom? ==> r1 == r.(overflows := Add64(r.overflows, 1)))
            && (p.Room? ==>
                  && 0 <= r.wint + p.off && r.wint + p.off + cb <= r.Size() == r1.Size()
                  && var r2 := r1.(data := Put(r1.data, r.wint + p.off + |gso|, bytes));
                     && r2.com == r.wint && r2.Ranged() && Ready(r2)
                     && var r3 := Commit(r2);
                        && r3.Inv() && r3.Pending() == []
                        && r3.Unread() == if FillsRing(r.Size(), r.read, r.wint, cb) then []
                                          else r.Unread() + [Frame(typ, gso + bytes)])
  {
    hide HeaderAt, Align8, Chain, Frames, Dist, Place, FillsRing, Legal, Put, Enc, Commit, Next, Ready, Reserve;
    var cb := |gso| + |bytes|;
    NonEmpty(r.data, r.com, r.wint);
    PlaceExact(r.Size(), r.read, r.wint, cb, typ);
    if Place(r.Size(), r.read, r.wint, cb).Room? {
      CopyCommitDelivers(r, typ, gso, bytes);
      CopyIsReserve(r, typ, gso, bytes);
      AllocAndCopyMoves(r, typ, gso, bytes);
    }
  }
}
