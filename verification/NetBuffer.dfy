// INTNETBUF: one stretch of memory that holds a receive ring and a send ring side by side.
module NetBuffer {
  import opened Bytes
  import opened Geometry
  import opened Framing
  import opened RingModel
  import opened Fifo
  import opened RingBuffer

  const INTNETBUF_MAGIC: nat := 0x1911_0919
  const INTNETBUF_SIZE: nat := 320
  const RECV_OFFSET: nat := 16
  const SEND_OFFSET: nat := 64

  datatype Side = Recv | Send

  datatype Call = Call(side: Side, op: Op)

  /** The calls that go to one ring. */
  function Project(calls: seq<Call>, side: Side): seq<Op> {
    if calls == [] then []
    else if calls[0].side == side then [calls[0].op] + Project(calls[1..], side)
    else Project(calls[1..], side)
  }

  class NetBuf {
    const mem: array<byte>
    const recv: RingBuf
    const send: RingBuf
    var u32Magic: nat
    var cbBuf: nat
    var cbRecv: nat
    var cbSend: nat

    constructor (mem: array<byte>)
      ensures this.mem == mem && fresh(recv) && fresh(send) && Placed()
    {
      this.mem := mem;
      recv := new RingBuf(mem, RECV_OFFSET);
      send := new RingBuf(mem, SEND_OFFSET);
      u32Magic, cbBuf, cbRecv, cbSend := 0, 0, 0, 0;
    }

    /** The two ring structures lie where the C structure has them. */
    ghost predicate Placed() {
      recv != send && recv.mem == mem && send.mem == mem && recv.base == RECV_OFFSET && send.base == SEND_OFFSET
    }

    /** Both rings in order, behind the structure, the send ring right behind the receive ring, both inside the
        buffer. */
    ghost predicate Valid()
      reads this, recv, send, mem
    {
      && Placed() && recv.Valid() && send.Valid()
      && recv.base + recv.offStart == INTNETBUF_SIZE
      && recv.base + recv.offEnd == send.base + send.offStart
      && send.base + send.offEnd <= cbBuf <= mem.Length
    }

    /** IntNetBufInit, on a buffer that fits 32-bit offsets. */
    method Init(cbBuf: nat, cbRecv: nat, cbSend: nat)
      requires Placed() && cbBuf <= mem.Length
      requires cbBuf >= INTNETBUF_SIZE + cbRecv + cbSend && cbRecv % 8 == 0 && cbSend % 8 == 0
      requires 0 < cbRecv <= 0x8000_0000 && 0 < cbSend <= 0x8000_0000
      requires INTNETBUF_SIZE + cbRecv + cbSend + 0x10008 < U32
      modifies this, recv, send
      ensures Valid() && u32Magic == INTNETBUF_MAGIC
      ensures this.cbBuf == cbBuf && this.cbRecv == cbRecv && this.cbSend == cbSend
      ensures recv.base + recv.offStart == 320 && recv.base + recv.offEnd == 320 + cbRecv
      ensures send.base + send.offStart == 320 + cbRecv && send.base + send.offEnd == 320 + cbRecv + cbSend
      ensures recv.View().Size() == cbRecv && recv.offReadX == recv.offWriteCom == recv.offWriteInt == recv.offStart
      ensures send.View().Size() == cbSend && send.offReadX == send.offWriteCom == send.offWriteInt == send.offStart
      ensures recv.View().Unread() == [] == recv.View().Pending() && send.View().Unread() == [] == send.View().Pending()
    {
      hide HeaderAt, Align32, Align8, Add32, Sub32, Chain, Frames, Dist;
      Align32IsAlign8(INTNETBUF_SIZE);
      Align8Fixed(INTNETBUF_SIZE);
      u32Magic := INTNETBUF_MAGIC;
      this.cbBuf := cbBuf;
      this.cbRecv := cbRecv;
      this.cbSend := cbSend;

      var offBuf := Sub32(Align32(INTNETBUF_SIZE), RECV_OFFSET);
      recv.offStart := offBuf;
      recv.offReadX := offBuf;
      recv.offWriteInt := offBuf;
      recv.offWriteCom := offBuf;
      recv.offEnd := Add32(offBuf, cbRecv);

      offBuf := Sub32(Add32(Add32(offBuf, cbRecv), RECV_OFFSET), SEND_OFFSET);
      send.offStart := offBuf;
      send.offReadX := offBuf;
      send.offWriteCom := offBuf;
      send.offWriteInt := offBuf;
      send.offEnd := Add32(offBuf, cbSend);
      FreshRing(recv.View());
      FreshRing(send.View());
    }

    /** An operation on the receive ring leaves the send ring as it was, bytes and offsets. */
    method ExecuteRecv(op: Op)
      requires Valid() && Enabled(recv.View(), op)
      modifies recv, mem
      ensures Valid() && recv.View() == Apply(old(recv.View()), op) && send.View() == old(send.View())
    {
      hide Apply, Enabled, HeaderAt, Chain, Frames, Dist, Between, Pos, RingSize, Align8;
      ghost var d := mem[..];
      recv.Execute(op);
      SuffixSlice(d, mem[..], recv.base + recv.offEnd, send.base + send.offStart, send.base + send.offEnd);
      assert send.Data() == old(send.Data());
    }

    /** And the other way round. */
    method ExecuteSend(op: Op)
      requires Valid() && Enabled(send.View(), op)
      modifies send, mem
      ensures Valid() && send.View() == Apply(old(send.View()), op) && recv.View() == old(recv.View())
    {
      hide Apply, Enabled, HeaderAt, Chain, Frames, Dist, Between, Pos, RingSize, Align8;
      ghost var d := mem[..];
      send.Execute(op);
      PrefixSlice(d, mem[..], send.base + send.offStart, recv.base + recv.offStart, recv.base + recv.offEnd);
      assert recv.Data() == old(recv.Data());
    }

    /** However the calls to the two rings are mixed, each ring sees only its own. */
    method Run(calls: seq<Call>)
      requires Valid() && RunOk(recv.View(), Project(calls, Recv)) && RunOk(send.View(), Project(calls, Send))
      modifies recv, send, mem
      ensures Valid()
      ensures recv.View() == Final(old(recv.View()), Project(calls, Recv))
      ensures send.View() == Final(old(send.View()), Project(calls, Send))
    {
      hide Apply, Enabled, HeaderAt, Chain, Frames;
      ghost var r0, s0 := recv.View(), send.View();
      for i := 0 to |calls|
        invariant Valid()
        invariant RunOk(recv.View(), Project(calls[i..], Recv)) && RunOk(send.View(), Project(calls[i..], Send))
        invariant Final(recv.View(), Project(calls[i..], Recv)) == Final(r0, Project(calls, Recv))
        invariant Final(send.View(), Project(calls[i..], Send)) == Final(s0, Project(calls, Send))
      {
        assert calls[i..][0] == calls[i] && calls[i..][1..] == calls[i + 1..];
        ProjectFirst(calls[i..]);
        match calls[i].side {
          case Recv => ExecuteRecv(calls[i].op);
          case Send => ExecuteSend(calls[i].op);
        }
      }
    }
  }

  lemma ProjectFirst(calls: seq<Call>)
    requires calls != []
    ensures forall side: Side :: Project(calls, side) ==
              if calls[0].side == side then [calls[0].op] + Project(calls[1..], side) else Project(calls[1..], side)
    ensures ([calls[0].op] + Project(calls[1..], calls[0].side))[1..] == Project(calls[1..], calls[0].side)
  {
  }

  lemma SuffixSlice(d: seq<byte>, d': seq<byte>, k: nat, lo: nat, hi: nat)
    requires k <= lo <= hi <= |d| == |d'| && d'[k..] == d[k..]
    ensures d'[lo..hi] == d[lo..hi]
  {
    forall i | lo <= i < hi ensures d'[i] == d[i] {
      assert d'[k..][i - k] == d[k..][i - k];
    }
  }

  lemma PrefixSlice(d: seq<byte>, d': seq<byte>, k: nat, lo: nat, hi: nat)
    requires lo <= hi <= k <= |d| == |d'| && d'[..k] == d[..k]
    ensures d'[lo..hi] == d[lo..hi]
  {
    forall i | lo <= i < hi ensures d'[i] == d[i] {
      assert d'[..k][i] == d[..k][i];
    }
  }
}
