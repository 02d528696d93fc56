// Scatter/gather lists: a frame in pieces, and the two functions that copy it out.
module ScatterGather {
  import opened Bytes
  import opened RingBuffer

  function Flatten(segs: seq<seq<byte>>): seq<byte> {
    if segs == [] then [] else segs[0] + Flatten(segs[1..])
  }

  lemma {:induction false} FlattenConcat(a: seq<seq<byte>>, b: seq<seq<byte>>)
    ensures Flatten(a + b) == Flatten(a) + Flatten(b)
  {
    if a == [] {
      assert [] + b == b;
    } else {
      assert (a + b)[0] == a[0] && (a + b)[1..] == a[1..] + b;
      FlattenConcat(a[1..], b);
      assert a[0] + (Flatten(a[1..]) + Flatten(b)) == (a[0] + Flatten(a[1..])) + Flatten(b);
    }
  }

  lemma FlattenSplit(segs: seq<seq<byte>>, i: nat)
    requires i <= |segs|
    ensures Flatten(segs) == Flatten(segs[..i]) + Flatten(segs[i..])
  {
    assert segs == segs[..i] + segs[i..];
    FlattenConcat(segs[..i], segs[i..]);
  }

  /** One more segment on the left part. */
  lemma FlattenStep(segs: seq<seq<byte>>, i: nat)
    requires i < |segs|
    ensures Flatten(segs[..i + 1]) == Flatten(segs[..i]) + segs[i]
    ensures Flatten(segs[i..]) == segs[i] + Flatten(segs[i + 1..])
  {
    assert segs[..i + 1] == segs[..i] + [segs[i]];
    FlattenConcat(segs[..i], [segs[i]]);
    assert Flatten([segs[i]]) == segs[i];
    assert segs[i..][1..] == segs[i + 1..];
  }

  /** Two stores one behind the other. */
  lemma PutAppend(d: seq<byte>, p: nat, a: seq<byte>, b: seq<byte>)
    requires p + |a| + |b| <= |d|
    ensures Put(Put(d, p, a), p + |a|, b) == Put(d, p, a + b)
  {
  }

  // ----- reading from an offset -----

  /** The first loop: skip whole segments, counting from segment `i`, until the offset is used up or falls inside
      one. */
  function Locate(segs: seq<seq<byte>>, i: nat, off: nat): (r: (nat, nat))
    requires i <= |segs|
    ensures i <= r.0 <= |segs| && r.1 <= off
    ensures r.0 < |segs| ==> r.1 == 0 || r.1 < |segs[r.0]|
    ensures off <= |Flatten(segs[i..])| ==> (r.1 == 0 || r.0 < |segs|)
    decreases |segs| - i
  {
    if off == 0 || i == |segs| || off < |segs[i]| then
      (i, off)
    else
      assert segs[i..][1..] == segs[i + 1..];
      Locate(segs, i + 1, off - |segs[i]|)
  }

  /** Where the located segment starts in the flattened list. */
  lemma {:induction false} LocateExact(segs: seq<seq<byte>>, i: nat, off: nat)
    requires i <= |segs| && off <= |Flatten(segs[i..])|
    ensures var (k, o) := Locate(segs, i, off);
            && off == |Flatten(segs[i..k])| + o
            && Flatten(segs[i..])[off..] == Flatten(segs[k..])[o..]
            && o <= |Flatten(segs[k..])|
    decreases |segs| - i
  {
    hide Flatten;
    if off == 0 || i == |segs| || off < |segs[i]| {
      FlattenEmpty(segs, i);
    } else {
      FlattenStep(segs, i);
      LocateExact(segs, i + 1, off - |segs[i]|);
      FlattenFirst(segs, i, Locate(segs, i, off).0);
      DropMore(segs[i], Flatten(segs[i + 1..]), off);
    }
  }

  lemma FlattenEmpty(segs: seq<seq<byte>>, i: nat)
    requires i <= |segs|
    ensures Flatten(segs[i..i]) == [] && Flatten(segs[i..])[0..] == Flatten(segs[i..])
  {
  }

  lemma FlattenFirst(segs: seq<seq<byte>>, i: nat, k: nat)
    requires i < k <= |segs|
    ensures Flatten(segs[i..k]) == segs[i] + Flatten(segs[i + 1..k])
  {
    assert segs[i..k][1..] == segs[i + 1..k];
  }

  lemma DropMore(a: seq<byte>, b: seq<byte>, off: nat)
    requires |a| <= off <= |a + b|
    ensures (a + b)[off..] == b[off - |a|..]
  {
  }

  /** What the program copies: the rest of the located segment, and then, from that same segment's start, what is still
      missing. */
  function Copied(segs: seq<seq<byte>>, off: nat, cb: nat): (r: seq<byte>)
    requires off + cb <= |Flatten(segs)|
    ensures |r| == cb
  {
    LocateWhole(segs, off);
    var (k, o) := Locate(segs, 0, off);
    if o == 0 || k == |segs| then Flatten(segs[k..])[..cb]
    else if |segs[k]| - o >= cb then segs[k][o..o + cb]
    else
      FlattenStep(segs, k);
      segs[k][o..] + Flatten(segs[k..])[..cb - (|segs[k]| - o)]
  }

  lemma LocateWhole(segs: seq<seq<byte>>, off: nat)
    requires off <= |Flatten(segs)|
    ensures var (k, o) := Locate(segs, 0, off);
            && Flatten(segs)[off..] == Flatten(segs[k..])[o..] && o <= |Flatten(segs[k..])|
            && |Flatten(segs)| - off == |Flatten(segs[k..])| - o
  {
    assert segs[0..] == segs;
    LocateExact(segs, 0, off);
    var (k, o) := Locate(segs, 0, off);
    assert |Flatten(segs)[off..]| == |Flatten(segs[k..])[o..]|;
  }

  /** The copy is the requested slice of the flattened list exactly if it starts on a segment boundary, ends within
      the segment it starts in, or the bytes fetched again from that segment's start happen to be those that follow. */
  lemma CopiedIsSliceIff(segs: seq<seq<byte>>, off: nat, cb: nat)
    requires off + cb <= |Flatten(segs)|
    ensures var (k, o) := Locate(segs, 0, off);
            && |Copied(segs, off, cb)| == cb
            && (Copied(segs, off, cb) == Flatten(segs)[off..off + cb] <==>
                  || o == 0 || k == |segs| || o + cb <= |segs[k]|
                  || var rest := cb - (|segs[k]| - o);
                     rest <= |Flatten(segs[k + 1..])| && rest <= |Flatten(segs[k..])|
                     && Flatten(segs[k..])[..rest] == Flatten(segs[k + 1..])[..rest])
  {
    hide Flatten, Locate;
    LocateWhole(segs, off);
    var (k, o) := Locate(segs, 0, off);
    var tail := Flatten(segs[k..]);
    SliceOfTail(Flatten(segs), off, cb);
    if o != 0 && k != |segs| {
      FlattenStep(segs, k);
      SliceAcross(segs[k], Flatten(segs[k + 1..]), o, cb);
    } else if o == 0 {
      assert tail[0..] == tail;
    }
  }

  lemma SliceOfTail(s: seq<byte>, off: nat, cb: nat)
    requires off + cb <= |s|
    ensures s[off..off + cb] == s[off..][..cb]
  {
  }

  /** A slice that starts at `o` inside `a`, with `b` behind it. */
  lemma SliceAcross(a: seq<byte>, b: seq<byte>, o: nat, cb: nat)
    requires o <= |a| && o + cb <= |a + b|
    ensures o + cb <= |a| ==> (a + b)[o..][..cb] == a[o..o + cb]
    ensures o + cb > |a| ==>
              var rest := cb - (|a| - o);
              && rest <= |b| && (a + b)[o..][..cb] == a[o..] + b[..rest]
              && (a[o..] + (a + b)[..rest] == a[o..] + b[..rest] <==> (a + b)[..rest] == b[..rest])
  {
    if o + cb > |a| {
      var rest := cb - (|a| - o);
      assert (a[o..] + (a + b)[..rest])[|a| - o..] == (a + b)[..rest];
      assert (a[o..] + b[..rest])[|a| - o..] == b[..rest];
    }
  }

  /** Three bytes from offset one of two two-byte segments come out wrong. */
  lemma CopiedDiffers()
    ensures var segs := [[1 as byte, 2], [3, 4]];
            Flatten(segs) == [1, 2, 3, 4] && Copied(segs, 1, 3) == [2, 1, 2] != Flatten(segs)[1..4]
  {
    var segs := [[1 as byte, 2], [3, 4]];
    assert segs[1..] == [[3, 4]] && segs[1..][1..] == [];
    assert Flatten(segs[1..]) == [3, 4] + Flatten([]) == [3, 4];
    assert Flatten(segs) == [1, 2] + [3, 4];
    assert segs[0..] == segs;
    assert Locate(segs, 0, 1) == (0, 1);
    assert Copied(segs, 1, 3)[1] == 1 && Flatten(segs)[1..4][1] == 3;
  }

  // ----- the list -----

  class IntNetSg {
    var cbTotal: nat
    var cSegsUsed: nat
    /** The memory behind each allocated segment; `cb` is its length. */
    var aSegs: seq<seq<byte>>

    /** IntNetSgInitTemp: one segment, one linear frame. */
    constructor InitTemp(frame: seq<byte>)
      requires |frame| < U32
      ensures Valid() && Used() == [frame] && Flatten(Used()) == frame
    {
      cbTotal := |frame|;
      cSegsUsed := 1;
      aSegs := [frame];
      new;
      assert aSegs[..1] == [frame] && [frame][1..] == [] && frame + [] == frame;
    }

    /** IntNetSgInitTempSegs, with the segments the caller then fills in. */
    constructor InitTempSegs(cbTotal: nat, cSegs: nat, cSegsUsed: nat, segs: seq<seq<byte>>)
      requires 0 < cSegs == |segs| && cSegsUsed <= cSegs && cbTotal == |Flatten(segs[..cSegsUsed])| < U32
      ensures Valid() && Used() == segs[..cSegsUsed]
    {
      this.cbTotal := cbTotal;
      this.cSegsUsed := cSegsUsed;
      aSegs := segs;
    }

    ghost predicate Valid()
      reads this
    {
      |aSegs| > 0 && cSegsUsed <= |aSegs| && cbTotal == |Flatten(aSegs[..cSegsUsed])| < U32
    }

    ghost function Used(): seq<seq<byte>>
      reads this
      requires cSegsUsed <= |aSegs|
    {
      aSegs[..cSegsUsed]
    }

    /** IntNetSgRead. The first segment is copied without looking at the number of used ones. */
    method Read(dst: array<byte>, at: nat)
      requires Valid() && at + cbTotal <= dst.Length
      requires cSegsUsed == 0 ==> at + |aSegs[0]| <= dst.Length
      modifies dst
      ensures cSegsUsed > 0 ==> dst[..] == Put(old(dst[..]), at, Flatten(Used()))
      ensures cSegsUsed == 0 ==> dst[..] == Put(old(dst[..]), at, aSegs[0])
    {
      hide Put, Flatten;
      ghost var d := dst[..];
      if cSegsUsed > 0 {
        FlattenStep(aSegs, 0);
        FlattenNone(aSegs);
        FlattenSplit(Used(), 1);
        assert Used()[..1] == aSegs[..1];
      }
      CopyInto(dst, at, aSegs[0]);
      if cSegsUsed != 1 {
        var pbDst := at + |aSegs[0]|;
        var iSeg := 1;
        while iSeg < cSegsUsed
          invariant 1 <= iSeg && (cSegsUsed > 0 ==> iSeg <= cSegsUsed)
          invariant cSegsUsed == 0 ==> iSeg == 1 && dst[..] == Put(d, at, aSegs[0])
          invariant cSegsUsed > 0 ==> pbDst == at + |Flatten(aSegs[..iSeg])| <= dst.Length
          invariant cSegsUsed > 0 ==> dst[..] == Put(d, at, Flatten(aSegs[..iSeg]))
        {
          FlattenStep(aSegs, iSeg);
          FlattenSplit(Used(), iSeg + 1);
          assert Used()[..iSeg + 1] == aSegs[..iSeg + 1];
          PutAppend(d, at, Flatten(aSegs[..iSeg]), aSegs[iSeg]);
          CopyInto(dst, pbDst, aSegs[iSeg]);
          pbDst := pbDst + |aSegs[iSeg]|;
          iSeg := iSeg + 1;
        }
      }
    }

    /** Every segment in `looked` is allocated, and in use unless nothing was to be read. */
    ghost predicate LookedAt(looked: set<nat>, cb: nat)
      reads this
    {
      forall i :: i in looked ==> i < |aSegs| && (cb > 0 ==> i < cSegsUsed)
    }

    /** The first loop of IntNetSgReadEx: skip segments until the offset is used up or falls inside one. */
    method Seek(offSrc: nat) returns (iSeg: nat, off: nat, ghost looked: set<nat>)
      requires Valid() && offSrc <= cbTotal
      ensures (iSeg, off) == Locate(Used(), 0, offSrc) && LookedAt(looked, 1)
    {
      hide Flatten, Locate;
      ghost var segs := Used();
      assert segs[0..] == segs;
      off, iSeg, looked := offSrc, 0, {};
      while off != 0
        invariant iSeg <= cSegsUsed && Locate(segs, iSeg, off) == Locate(segs, 0, offSrc)
        invariant off <= |Flatten(segs[iSeg..])| && LookedAt(looked, 1)
        decreases cSegsUsed - iSeg
      {
        SegmentAt(segs, iSeg);
        LocateStep(segs, iSeg, off);
        looked := looked + {iSeg};
        var cbSeg := |aSegs[iSeg]|;
        if off < cbSeg {
          return;
        }
        off := off - cbSeg;
        iSeg := iSeg + 1;
      }
      LocateDone(segs, iSeg);
    }

    /** Its second loop: whole segments from `first` on, and the part of the last one that is still wanted. */
    method CopyFrom(first: nat, cbToRead: nat, dst: array<byte>, at: nat) returns (ghost looked: set<nat>)
      requires Valid() && first <= cSegsUsed && first < |aSegs| && at + cbToRead <= dst.Length
      requires cbToRead <= |Flatten(Used()[first..])|
      modifies dst
      ensures dst[..] == Put(old(dst[..]), at, Flatten(Used()[first..])[..cbToRead]) && LookedAt(looked, cbToRead)
    {
      hide Put, Flatten, Remains;
      ghost var d, segs := dst[..], Used();
      ghost var want, out: seq<byte> := Flatten(segs[first..])[..cbToRead], [];
      var iSeg: nat, cb: nat, pbDst: nat := first, cbToRead, at;
      PutNothing(d, at);
      AllRemains(segs, first, cb);
      looked := {iSeg};
      var cbSeg := |aSegs[iSeg]|;
      while cbSeg < cb
        invariant iSeg < |aSegs| && cbSeg == |aSegs[iSeg]| && pbDst == at + |out|
        invariant Remains(segs, iSeg, cb, out, want) && (cbToRead > 0 ==> cb > 0)
        invariant |out| + cb == cbToRead && dst[..] == Put(d, at, out) && LookedAt(looked, cbToRead)
        decreases cSegsUsed - iSeg
      {
        TakeSegment(segs, iSeg, cb, out, want);
        PutAppend(d, at, out, aSegs[iSeg]);
        CopyInto(dst, pbDst, aSegs[iSeg]);
        out := out + aSegs[iSeg];
        pbDst := pbDst + cbSeg;
        cb := cb - cbSeg;
        iSeg := iSeg + 1;
        looked := looked + {iSeg};
        cbSeg := |aSegs[iSeg]|;
      }
      TakePart(segs, iSeg, aSegs[iSeg], cb, out, want);
      PutAppend(d, at, out, aSegs[iSeg][..cb]);
      CopyInto(dst, pbDst, aSegs[iSeg][..cb]);
    }

    /** IntNetSgReadEx. `looked` are the segments whose size or memory is read: used ones only, except that an empty
        span may look at the size of the one behind the last. */
    method ReadEx(offSrc: nat, cbToRead: nat, dst: array<byte>, at: nat) returns (ghost looked: set<nat>)
      requires Valid() && offSrc + cbToRead <= cbTotal && at + cbToRead <= dst.Length
      requires cbToRead > 0 || Locate(Used(), 0, offSrc).0 < |aSegs|
      modifies dst
      ensures dst[..] == Put(old(dst[..]), at, Copied(Used(), offSrc, cbToRead))
      ensures forall i :: i in looked ==> i < |aSegs| && (cbToRead > 0 ==> i < cSegsUsed)
    {
      hide Put, Flatten, Copied, Locate;
      ghost var d, segs := dst[..], Used();
      CopiedParts(segs, offSrc, cbToRead);
      var iSeg, off, before := Seek(offSrc);
      if off != 0 {
        var cbChunk := |aSegs[iSeg]| - off;
        if cbChunk >= cbToRead {
          CopyInto(dst, at, aSegs[iSeg][off..off + cbToRead]);
          looked := before + {iSeg};
        } else {
          CopyInto(dst, at, aSegs[iSeg][off..]);
          var after := CopyFrom(iSeg, cbToRead - cbChunk, dst, at + cbChunk);
          PutAppend(d, at, aSegs[iSeg][off..], Flatten(segs[iSeg..])[..cbToRead - cbChunk]);
          looked := before + {iSeg} + after;
        }
      } else {
        var after := CopyFrom(iSeg, cbToRead, dst, at);
        looked := before + after;
      }
    }
  }

  lemma LocateStep(segs: seq<seq<byte>>, i: nat, off: nat)
    requires i < |segs| && off > 0
    ensures Locate(segs, i, off) == if off < |segs[i]| then (i, off) else Locate(segs, i + 1, off - |segs[i]|)
  {
  }

  lemma LocateDone(segs: seq<seq<byte>>, i: nat)
    requires i <= |segs|
    ensures Locate(segs, i, 0) == (i, 0)
  {
  }

  lemma FlattenNone(segs: seq<seq<byte>>)
    ensures Flatten(segs[..0]) == [] && Flatten(segs[|segs|..]) == []
  {
  }

  /** What is left to read from segment `i` on. */
  lemma SegmentAt(segs: seq<seq<byte>>, i: nat)
    requires i <= |segs|
    ensures i == |segs| ==> Flatten(segs[i..]) == []
    ensures i < |segs| ==> Flatten(segs[i..]) == segs[i] + Flatten(segs[i + 1..])
  {
    if i < |segs| {
      FlattenStep(segs, i);
    }
  }

  /** With `out` copied, the `cb` bytes from segment `i` on complete what is wanted. */
  predicate Remains(segs: seq<seq<byte>>, i: nat, cb: nat, out: seq<byte>, want: seq<byte>) {
    i <= |segs| && cb <= |Flatten(segs[i..])| && out + Flatten(segs[i..])[..cb] == want
  }

  lemma AllRemains(segs: seq<seq<byte>>, i: nat, cb: nat)
    requires i <= |segs| && cb <= |Flatten(segs[i..])|
    ensures Remains(segs, i, cb, [], Flatten(segs[i..])[..cb]) && (cb > 0 ==> i < |segs|)
  {
    hide Flatten;
    SegmentAt(segs, i);
  }

  lemma TakeSegment(segs: seq<seq<byte>>, i: nat, cb: nat, out: seq<byte>, want: seq<byte>)
    requires Remains(segs, i, cb, out, want) && cb > 0 && (i < |segs| ==> |segs[i]| < cb)
    ensures i + 1 < |segs| && Remains(segs, i + 1, cb - |segs[i]|, out + segs[i], want)
  {
    hide Flatten;
    SegmentAt(segs, i);
    SegmentAt(segs, i + 1);
    TakeFront(out, segs[i], Flatten(segs[i + 1..]), cb);
  }

  lemma TakeFront(out: seq<byte>, s: seq<byte>, rest: seq<byte>, cb: nat)
    requires |s| < cb <= |s + rest|
    ensures out + (s + rest)[..cb] == (out + s) + rest[..cb - |s|]
  {
  }

  /** The wanted part of the last segment. */
  lemma TakePart(segs: seq<seq<byte>>, i: nat, seg: seq<byte>, cb: nat, out: seq<byte>, want: seq<byte>)
    requires Remains(segs, i, cb, out, want) && cb <= |seg| && (i < |segs| ==> seg == segs[i])
    ensures want == out + seg[..cb]
  {
    hide Flatten;
    SegmentAt(segs, i);
  }

  lemma CopiedParts(segs: seq<seq<byte>>, off: nat, cb: nat)
    requires off + cb <= |Flatten(segs)|
    ensures var (k, o) := Locate(segs, 0, off);
            && |Copied(segs, off, cb)| == cb
            && (cb > 0 ==> k < |segs|) && o + cb <= |Flatten(segs[k..])|
            && (o == 0 ==> Copied(segs, off, cb) == Flatten(segs[k..])[..cb])
            && (o > 0 ==> k < |segs| && o < |segs[k]|)
            && (o > 0 && |segs[k]| - o >= cb ==> Copied(segs, off, cb) == segs[k][o..o + cb])
            && (o > 0 && |segs[k]| - o < cb ==>
                  Copied(segs, off, cb) == segs[k][o..] + Flatten(segs[k..])[..cb - (|segs[k]| - o)])
  {
    hide Flatten;
    CopiedIsSliceIff(segs, off, cb);
    LocateWhole(segs, off);
    var (k, o) := Locate(segs, 0, off);
    SegmentAt(segs, k);
    assert segs[0..] == segs;
  }

  /** Over the whole list the two functions copy the same bytes. */
  lemma ReadExWhole(segs: seq<seq<byte>>)
    ensures Copied(segs, 0, |Flatten(segs)|) == Flatten(segs)
  {
    assert Locate(segs, 0, 0) == (0, 0);
    assert segs[0..] == segs;
  }

  /** A nonempty span starts in a used segment. */
  lemma LocateInUse(segs: seq<seq<byte>>, off: nat)
    requires off < |Flatten(segs)|
    ensures Locate(segs, 0, off).0 < |segs|
  {
    LocateWhole(segs, off);
  }
}
