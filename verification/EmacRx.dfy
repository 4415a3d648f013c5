/**
 The Ethernet driver's receive ring.

 The driver hands empty buffers to the DMA engine and takes them back filled, in ring order.  A packet
 with an error has its buffer queued again; a good packet is handed up and the ring topped up with new
 buffers for as long as there are any.  `Emac` is the driver's code; module EmacRxInterleaving adds the engine.
 */
module EmacRx {
  import opened Options

  /** Buffers are numbered in the order of their allocation. */
  type PbufId = nat

  /** The status flags that decide what becomes of a packet, and its length. */
  datatype Status = Status(
    es: bool,                                              // error summary
    ce: bool, de: bool, re: bool, rwt: bool, lc: bool,     // CRC, descriptor, receive, watchdog, late collision
    oe: bool, saf: bool, afm: bool,                        // overflow, address filters
    le: bool, ft: bool, ls: bool,                          // length error, frame type, last descriptor
    frameLength: nat)

  const NO_STATUS := Status(false, false, false, false, false, false, false, false, false, false, false, false, 0)

  datatype Desc = Desc(own: bool, status: Status, rer: bool, buf: PbufId)

  datatype Rx = Rx(desc: seq<Desc>, pbufs: seq<PbufId>, free: nat, getIdx: nat, nextIdx: nat)

  /** The interface to the PHY and the duplex mode, which the error test looks at. */
  datatype Link = Link(rmii: bool, fullDuplex: bool)

  predicate InRange(t: Rx) {
    && |t.desc| == |t.pbufs| >= 3
    && t.free <= |t.desc| && t.getIdx < |t.desc| && t.nextIdx < |t.desc|
  }

  function Next(n: nat, idx: nat): nat {
    if idx + 1 >= n then 0 else idx + 1
  }

  // --------------------------------------------------------------------------------------------
  // Which packets are dropped

  /** The error summary enables two tests: one of the masked conditions, or a length error on a frame
      with a length field, or a CRC error on a last descriptor; and a descriptor error on a last
      descriptor, or in half duplex on any. */
  function RxError(st: Status, link: Link): bool {
    st.es &&
    ((if st.ce || (link.rmii && st.de) || st.re || st.rwt || st.lc || st.oe || st.saf || st.afm then true
      else if st.le && !st.ft then true
      else st.ce && st.ls)
     || (if st.de && st.ls then true else st.de && !link.fullDuplex))
  }

  /** Which packets are dropped, on either interface. */
  lemma ErrorsExactly(st: Status, link: Link)
    ensures RxError(st, link) <==>
      && st.es
      && (|| st.ce || st.re || st.rwt || st.lc || st.oe || st.saf || st.afm
          || (st.le && !st.ft)
          || (st.de && (link.rmii || st.ls || !link.fullDuplex)))
  {
  }

  /** On the board's interface the duplex mode and the last-descriptor flag make no difference. */
  lemma RmiiErrors(st: Status, link: Link)
    requires link.rmii
    ensures RxError(st, link) <==>
      st.es && (st.ce || st.de || st.re || st.rwt || st.lc || st.oe || st.saf || st.afm || (st.le && !st.ft))
  {
  }

  // --------------------------------------------------------------------------------------------
  // The driver's routines as functions

  function QueueOne(t: Rx, p: PbufId): (t': Rx)
    requires InRange(t) && t.free > 0
    ensures InRange(t') && |t'.desc| == |t.desc|
  {
    var idx := t.nextIdx;
    t.(pbufs := t.pbufs[idx := p],
       desc := t.desc[idx := Desc(true, NO_STATUS, idx == |t.desc| - 1, p)],
       free := t.free - 1,
       nextIdx := Next(|t.desc|, idx))
  }

  /** `avail` is how many allocations succeed before one fails; the first gives buffer `id`. */
  function QueueMany(t: Rx, avail: nat, id: PbufId): (r: (Rx, nat))
    requires InRange(t)
    ensures InRange(r.0) && |r.0.desc| == |t.desc|
    ensures r.0.free == t.free - r.1 && r.0.getIdx == t.getIdx
    ensures r.1 == if t.free < avail then t.free else avail
    decreases t.free
  {
    if t.free == 0 || avail == 0 then (t, 0)
    else
      var (t', queued) := QueueMany(QueueOne(t, id), avail - 1, id + 1);
      (t', queued + 1)
  }

  function Popped(t: Rx): (t': Rx)
    requires InRange(t) && t.free < |t.desc|
    ensures InRange(t')
  {
    t.(free := t.free + 1, getIdx := Next(|t.desc|, t.getIdx))
  }

  /** A call of the input routine: the ring after it, the buffer and length handed up, if any, and how
      many buffers were allocated. */
  function Input(t: Rx, avail: nat, id: PbufId, link: Link): (r: (Rx, Option<(PbufId, nat)>, nat))
    requires InRange(t)
    ensures InRange(r.0)
  {
    if t.free == |t.desc| then
      var (t', queued) := QueueMany(t, avail, id);
      (t', None, queued)
    else if t.desc[t.getIdx].own then (t, None, 0)
    else
      var p, status := t.pbufs[t.getIdx], t.desc[t.getIdx].status;
      if RxError(status, link) then (QueueOne(Popped(t), p), None, 0)
      else
        var (t', queued) := QueueMany(Popped(t), avail, id);
        (t', Some((p, status.frameLength)), queued)
  }

  // --------------------------------------------------------------------------------------------
  // The driver

  class Emac {
    const prdesc: array<Desc>
    const rxpbufs: array<PbufId>
    var rxFree: nat
    var rxGetIdx: nat
    var rxNextIdx: nat

    ghost predicate Valid()
      reads this, prdesc, rxpbufs
    {
      InRange(Abs())
    }

    ghost function Abs(): Rx
      reads this, prdesc, rxpbufs
    {
      Rx(prdesc[..], rxpbufs[..], rxFree, rxGetIdx, rxNextIdx)
    }

    /** Set the ring up and fill it as far as allocation goes. */
    constructor Setup(n: nat, avail: nat)
      requires n >= 3
      ensures Valid() && fresh(prdesc) && fresh(rxpbufs) && |Abs().desc| == n
      ensures exists t: Rx ::
        && InRange(t) && |t.desc| == t.free == n && t.getIdx == t.nextIdx == 0
        && (forall i :: 0 <= i < n ==> !t.desc[i].own && (t.desc[i].rer <==> i == n - 1))
        && Abs() == QueueMany(t, avail, 0).0
    {
      prdesc := new Desc[n](i => Desc(false, NO_STATUS, false, 0));
      rxpbufs := new PbufId[n](i => 0);
      rxFree, rxGetIdx, rxNextIdx := n, 0, 0;
      new;
      prdesc[n - 1] := prdesc[n - 1].(rer := true);
      ghost var t := Abs();
      var _ := RxQueue(avail, 0);
    }

    method RxQueuePbuf(p: PbufId)
      requires Valid() && rxFree > 0
      modifies `rxFree, `rxNextIdx, prdesc, rxpbufs
      ensures Valid() && Abs() == QueueOne(old(Abs()), p)
    {
      var idx := rxNextIdx;
      rxpbufs[idx] := p;
      prdesc[idx] := prdesc[idx].(rer := false, buf := p);
      if idx == prdesc.Length - 1 {
        prdesc[idx] := prdesc[idx].(rer := true);
      }
      prdesc[idx] := prdesc[idx].(own := true, status := NO_STATUS);
      rxFree := rxFree - 1;
      idx := idx + 1;
      if idx >= prdesc.Length {
        idx := 0;
      }
      rxNextIdx := idx;
    }

    /** Queue as many new buffers as possible: the loop ends with the ring full or an allocation
        refused. */
    method RxQueue(avail: nat, id: PbufId) returns (queued: nat)
      requires Valid()
      modifies `rxFree, `rxNextIdx, prdesc, rxpbufs
      ensures Valid() && rxGetIdx == old(rxGetIdx)
      ensures (Abs(), queued) == QueueMany(old(Abs()), avail, id)
      ensures rxFree == 0 || queued == avail
    {
      hide QueueOne;
      queued := 0;
      ghost var start := Abs();
      var left := avail;
      while rxFree > 0
        invariant Valid() && queued + left == avail
        invariant QueueMany(start, avail, id)
               == (QueueMany(Abs(), left, id + queued).0, queued + QueueMany(Abs(), left, id + queued).1)
        decreases rxFree
      {
        if left == 0 {
          return;
        }
        left := left - 1;
        RxQueuePbuf(id + queued);
        queued := queued + 1;
      }
    }

    method LowLevelInput(avail: nat, id: PbufId, link: Link) returns (r: Option<(PbufId, nat)>, ghost queued: nat)
      requires Valid()
      modifies this, prdesc, rxpbufs
      ensures Valid() && (Abs(), r, queued) == Input(old(Abs()), avail, id, link)
    {
      hide RxError;
      hide QueueMany;
      if rxFree == prdesc.Length {
        queued := RxQueue(avail, id);
        return None, queued;
      }
      var ridx := rxGetIdx;
      if prdesc[ridx].own {
        return None, 0;
      }
      var p, status := rxpbufs[ridx], prdesc[ridx].status;
      var rxerr := RxError(status, link);
      rxFree := rxFree + 1;
      ridx := ridx + 1;
      if ridx >= prdesc.Length {
        ridx := 0;
      }
      rxGetIdx := ridx;
      assert Abs() == Popped(old(Abs()));
      if rxerr {
        RxQueuePbuf(p);
        return None, 0;
      } else {
        queued := RxQueue(avail, id);
        return Some((p, status.frameLength)), queued;
      }
    }
  }
}
