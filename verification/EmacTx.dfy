/**
 The Ethernet driver's transmit ring.

 The driver and the DMA engine share a ring of N descriptors.  `Tx` is what the driver keeps - the
 descriptors, the saved packet buffers, a free count and two indices - and the functions on it are the
 driver's accesses, one group at a time.  `Emac` is the driver's code, tied to those functions; module
 EmacTxInterleaving lets the DMA engine and the cleanup task run between any two of them.
 */
module EmacTx {
  import opened Modular
  import opened Options
  import opened Words

  type PbufId = nat

  /** One buffer of a packet chain: where it is, and its bytes. */
  datatype Frag = Frag(addr: nat, data: seq<Byte>)

  /** A packet as it is handed to the driver: the chain's head buffer, and the buffers of the chain. */
  datatype Packet = Packet(id: PbufId, frags: seq<Frag>)

  /** The flags of a descriptor that the driver and the engine act on: OWN, first segment, last segment,
      interrupt on completion, end of ring. */
  datatype Desc = Desc(own: bool, fs: bool, ls: bool, ic: bool, ter: bool, frag: Frag)

  datatype Tx = Tx(desc: seq<Desc>, pbufs: seq<Option<PbufId>>, free: nat, fillIdx: nat, reclaimIdx: nat)

  predicate InRange(t: Tx) {
    && |t.desc| == |t.pbufs| >= 2
    && t.free <= |t.desc| && t.fillIdx < |t.desc| && t.reclaimIdx < |t.desc|
  }

  function Next(t: Tx, idx: nat): nat {
    if idx + 1 >= |t.desc| then 0 else idx + 1
  }

  // --------------------------------------------------------------------------------------------
  // Single accesses

  /** Take a descriptor for one buffer: address and length, the free count, and either the first-segment
      flag or - on every descriptor but the chain's first - ownership. */
  function Claimed(t: Tx, idx: nat, fidx: nat, frag: Frag): (t': Tx)
    requires InRange(t) && idx < |t.desc| && t.free > 0
    ensures InRange(t')
  {
    var d := t.desc[idx].(frag := frag);
    t.(desc := t.desc[idx := if idx == fidx then d.(fs := true) else d.(own := true)], free := t.free - 1)
  }

  /** Save the packet's head on the chain's last descriptor, and flag that one. */
  function Finished(t: Tx, idx: nat, id: PbufId, last: bool): (t': Tx)
    requires InRange(t) && idx < |t.desc|
    ensures InRange(t')
  {
    if last then
      t.(pbufs := t.pbufs[idx := Some(id)], desc := t.desc[idx := t.desc[idx].(ls := true, ic := true)])
    else
      t.(pbufs := t.pbufs[idx := None])
  }

  /** Hand the chain over: its first descriptor gets ownership last. */
  function Handed(t: Tx, fidx: nat, idx: nat): (t': Tx)
    requires InRange(t) && fidx < |t.desc| && idx < |t.desc|
    ensures InRange(t')
  {
    t.(fillIdx := idx, desc := t.desc[fidx := t.desc[fidx].(own := true)])
  }

  /** Take a descriptor back from the engine. */
  function Reclaimed(t: Tx, ridx: nat): (t': Tx)
    requires InRange(t) && ridx < |t.desc| && t.free < |t.desc|
    ensures InRange(t')
  {
    t.(desc := t.desc[ridx := Desc(false, false, false, false, ridx == |t.desc| - 1, t.desc[ridx].frag)],
       free := t.free + 1)
  }

  predicate CanReclaim(t: Tx, ridx: nat)
    requires InRange(t) && ridx < |t.desc|
  {
    t.free < |t.desc| && !t.desc[ridx].own
  }

  // --------------------------------------------------------------------------------------------
  // Slow memory

  const SLOW_START := 0x1400_0000
  const SLOW_END := SLOW_START + 8 * 1024 * 1024 - 1

  predicate IsSlow(frag: Frag) {
    SLOW_START <= frag.addr <= SLOW_END
  }

  predicate NeedsCopy(p: Packet) {
    exists i :: 0 <= i < |p.frags| && IsSlow(p.frags[i])
  }

  /** The bytes of a chain, one buffer after the other. */
  function Chain(frags: seq<Frag>): seq<Byte> {
    if frags == [] then [] else Chain(frags[..|frags| - 1]) + frags[|frags| - 1].data
  }

  /** What goes to the ring: the packet itself, or the copy made of it when any buffer of it lies in slow
      memory.  The copy's length has 16 bits. */
  function Effective(p: Packet, copyAddr: nat, copyId: PbufId): Packet {
    if NeedsCopy(p) then Packet(copyId, [Frag(copyAddr, Chain(p.frags)[..|Chain(p.frags)| % 0x1_0000])]) else p
  }

  /** The copy carries the packet's bytes, all of them in order, exactly if their number has 16 bits. */
  lemma CopyIsWhole(p: Packet, copyAddr: nat, copyId: PbufId)
    ensures Chain(Effective(p, copyAddr, copyId).frags) == Chain(p.frags)
       <==> !NeedsCopy(p) || |Chain(p.frags)| < 0x1_0000
  {
    var all, n := Chain(p.frags), |Chain(p.frags)| % 0x1_0000;
    if NeedsCopy(p) {
      var frags := Effective(p, copyAddr, copyId).frags;
      assert frags[..0] == [];
      assert Chain(frags) == [] + all[..n] == all[..n];
      if |all| < 0x1_0000 {
        ModUnique(|all|, 0x1_0000, 0, |all|);
        assert all[..n] == all;
      }
    }
  }

  /** Slow memory is eight megabytes from 0x1400_0000 on. */
  lemma SlowRange(frag: Frag)
    ensures IsSlow(frag) <==> 0x1400_0000 <= frag.addr < 0x1480_0000
  {
  }

  /** With a copy in fast memory, no buffer handed to the ring is slow; a packet without slow buffers goes as
      it is, and a copy goes under its own name. */
  lemma NothingSlowIsSent(p: Packet, copyAddr: nat, copyId: PbufId)
    ensures
      var sent := Effective(p, copyAddr, copyId);
      && ((forall f :: f in p.frags ==> !IsSlow(f)) ==> sent == p)
      && ((exists f :: f in p.frags && IsSlow(f)) ==> sent.id == copyId && |sent.frags| == 1 && sent.frags[0].addr == copyAddr)
      && (!(0x1400_0000 <= copyAddr < 0x1480_0000) ==> forall f :: f in sent.frags ==> !IsSlow(f))
  {
    if f :| f in p.frags && IsSlow(f) {
      var i :| 0 <= i < |p.frags| && p.frags[i] == f;
      assert NeedsCopy(p);
    }
  }

  lemma ChainOfOne(f: Frag)
    ensures Chain([]) == [] && Chain([f]) == f.data
  {
    assert [f][..0] == [];
  }

  lemma {:induction false} ChainOfConcat(a: seq<Frag>, b: seq<Frag>)
    ensures Chain(a + b) == Chain(a) + Chain(b)
    decreases |b|
  {
    if b == [] {
      assert a + b == a;
    } else {
      assert (a + b)[..|a + b| - 1] == a + b[..|b| - 1];
      ChainOfConcat(a, b[..|b| - 1]);
    }
  }

  /** How many bytes lie in the buffers before the i-th. */
  function Offset(frags: seq<Frag>, i: nat): nat
    requires i <= |frags|
  {
    if i == 0 then 0 else Offset(frags, i - 1) + |frags[i - 1].data|
  }

  lemma {:induction false} ChainLength(frags: seq<Frag>, i: nat)
    requires i <= |frags|
    ensures |Chain(frags[..i])| == Offset(frags, i)
    decreases i
  {
    if i > 0 {
      assert frags[..i][..i - 1] == frags[..i - 1];
      ChainLength(frags, i - 1);
    }
  }

  lemma ByteOfChain(frags: seq<Frag>, i: nat, j: nat)
    requires i < |frags| && j < |frags[i].data|
    ensures Offset(frags, i) + j < |Chain(frags)| && Chain(frags)[Offset(frags, i) + j] == frags[i].data[j]
  {
    var head, rest := frags[..i], frags[i + 1..];
    assert frags == head + ([frags[i]] + rest);
    ChainOfConcat(head, [frags[i]] + rest);
    ChainOfConcat([frags[i]], rest);
    ChainOfOne(frags[i]);
    ChainLength(frags, i);
  }

  /** Byte for byte: byte j of the i-th buffer of a packet is in the copy as many places on as the buffers
      before it have bytes, and j more. */
  lemma CopyIsInOrder(p: Packet, copyAddr: nat, copyId: PbufId, i: nat, j: nat)
    requires NeedsCopy(p) && Offset(p.frags, |p.frags|) < 0x1_0000
    requires i < |p.frags| && j < |p.frags[i].data|
    ensures
      var sent, at := Effective(p, copyAddr, copyId), Offset(p.frags, i) + j;
      |sent.frags| == 1 && at < |sent.frags[0].data| == Offset(p.frags, |p.frags|)
      && sent.frags[0].data[at] == p.frags[i].data[j]
  {
    ByteOfChain(p.frags, i, j);
    ChainLength(p.frags, |p.frags|);
    assert p.frags[..|p.frags|] == p.frags;
    ModUnique(|Chain(p.frags)|, 0x1_0000, 0, |Chain(p.frags)|);
  }

  // --------------------------------------------------------------------------------------------
  // The driver's routines as functions

  function Fill(t: Tx, fidx: nat, idx: nat, id: PbufId, frags: seq<Frag>): (r: (Tx, nat))
    requires InRange(t) && fidx < |t.desc| && idx < |t.desc| && |frags| <= t.free
    ensures InRange(r.0) && |r.0.desc| == |t.desc| && r.1 < |t.desc|
    decreases |frags|
  {
    if frags == [] then (t, idx)
    else
      var t' := Finished(Claimed(t, idx, fidx, frags[0]), idx, id, |frags| == 1);
      Fill(t', fidx, Next(t, idx), id, frags[1..])
  }

  lemma FillNothing(t: Tx, fidx: nat, idx: nat, id: PbufId, frags: seq<Frag>)
    requires InRange(t) && fidx < |t.desc| && idx < |t.desc| && frags == []
    ensures Fill(t, fidx, idx, id, frags) == (t, idx)
  {
  }

  /** Where the descriptors of a chain go, counted from its first. */
  function After(n: nat, fidx: nat, done: nat): nat {
    if fidx + done < n then fidx + done else fidx + done - n
  }

  lemma FillFirst(t: Tx, t': Tx, fidx: nat, idx: nat, p: Packet, done: nat)
    requires InRange(t) && fidx < |t.desc| && idx < |t.desc| && done < |p.frags| <= t.free + done
    requires t' == Finished(Claimed(t, idx, fidx, p.frags[done]), idx, p.id, done + 1 == |p.frags|)
    ensures InRange(t') && |t'.desc| == |t.desc| && Next(t, idx) < |t'.desc| && |p.frags| - done - 1 <= t'.free
    ensures Fill(t, fidx, idx, p.id, p.frags[done..]) == Fill(t', fidx, Next(t, idx), p.id, p.frags[done + 1..])
  {
    assert p.frags[done..][1..] == p.frags[done + 1..];
  }

  function Output(t: Tx, p: Packet): (t': Tx)
    requires InRange(t) && |p.frags| <= t.free
    ensures InRange(t') && |t'.desc| == |t.desc|
  {
    var (filled, idx) := Fill(t, t.fillIdx, t.fillIdx, p.id, p.frags);
    Handed(filled, t.fillIdx, idx)
  }

  /** The buffers released are listed in order. */
  function Reclaim(t: Tx, ridx: nat): (r: (Tx, nat, seq<PbufId>))
    requires InRange(t) && ridx < |t.desc|
    ensures InRange(r.0) && |r.0.desc| == |t.desc| && r.1 < |t.desc|
    decreases |t.desc| - t.free
  {
    if !CanReclaim(t, ridx) then (t, ridx, [])
    else
      var (t', ridx', freed) := Reclaim(Reclaimed(t, ridx), Next(t, ridx));
      (t', ridx', Saved(t, ridx) + freed)
  }

  /** The references left when some have been given up. */
  function Dropped(m: multiset<PbufId>, freed: seq<PbufId>): multiset<PbufId> {
    m - multiset(freed)
  }

  /** The buffer saved with a descriptor, if any. */
  function Saved(t: Tx, ridx: nat): seq<PbufId>
    requires ridx < |t.pbufs|
  {
    if t.pbufs[ridx].Some? then [t.pbufs[ridx].value] else []
  }

  // --------------------------------------------------------------------------------------------
  // The driver

  datatype Err = ERR_OK | ERR_MEM | STILL_POLLING

  class Emac {
    const ptdesc: array<Desc>
    const txpbufs: array<Option<PbufId>>
    var txFree: nat
    var txFillIdx: nat
    var txReclaimIdx: nat
    ghost var held: multiset<PbufId>   // references the driver holds
    ghost var released: seq<PbufId>    // references it has given up, in order

    ghost predicate Valid()
      reads this, ptdesc, txpbufs
    {
      InRange(Tx(ptdesc[..], txpbufs[..], txFree, txFillIdx, txReclaimIdx))
    }

    ghost function Abs(): (t: Tx)
      reads this, ptdesc, txpbufs
    {
      Tx(ptdesc[..], txpbufs[..], txFree, txFillIdx, txReclaimIdx)
    }

    /** Link the descriptors into a ring; only the last carries the end-of-ring flag. */
    constructor Setup(n: nat)
      requires n >= 2
      ensures Valid() && fresh(ptdesc) && fresh(txpbufs)
      ensures |Abs().desc| == n && Abs().free == n && Abs().fillIdx == Abs().reclaimIdx == 0
      ensures forall i :: 0 <= i < n ==>
        var d := Abs().desc[i];
        !d.own && !d.fs && !d.ls && !d.ic && (d.ter <==> i == n - 1)
      ensures held == multiset{} && released == []
    {
      ptdesc := new Desc[n](i => Desc(false, false, false, false, false, Frag(0, [])));
      txpbufs := new Option<PbufId>[n](i => None);
      txFree, txFillIdx, txReclaimIdx := n, 0, 0;
      held, released := multiset{}, [];
      new;
      ptdesc[n - 1] := ptdesc[n - 1].(ter := true);
    }

    /** The scan for a buffer in slow memory stops at the first one found. */
    method Scan(frags: seq<Frag>) returns (pcopy: bool)
      ensures pcopy <==> NeedsCopy(Packet(0, frags))
    {
      pcopy := false;
      var q := 0;
      while q < |frags| && !pcopy
        invariant 0 <= q <= |frags|
        invariant pcopy <==> exists i :: 0 <= i < q && IsSlow(frags[i])
      {
        pcopy := IsSlow(frags[q]);
        q := q + 1;
      }
    }

    /** Copy the buffers one after the other and add their lengths up, in 16 bits. */
    method CopyChain(frags: seq<Frag>) returns (dst: seq<Byte>, totLen: nat)
      ensures dst == Chain(frags) && totLen == |dst| % 0x1_0000
    {
      dst, totLen := [], 0;
      var q := 0;
      while q < |frags|
        invariant 0 <= q <= |frags| && dst == Chain(frags[..q]) && totLen == |dst| % 0x1_0000
      {
        assert frags[..q + 1][..q] == frags[..q];
        ModOfSum(|dst|, |frags[q].data|, 0x1_0000);
        dst := dst + frags[q].data;
        totLen := (totLen + |frags[q].data|) % 0x1_0000;
        q := q + 1;
      }
      assert frags[..q] == frags;
    }

    /** `alloc` is what the allocator answers when a copy is needed.  A call that finds too few descriptors
        free goes on polling for more; it is followed here to the end of its first look. */
    method LowLevelOutput(sendp: Packet, alloc: Option<(PbufId, nat)>) returns (err: Err)
      requires Valid() && 1 <= |sendp.frags|
      modifies this, ptdesc, txpbufs
      ensures Valid() && released == old(released)
      ensures err == ERR_MEM <==> NeedsCopy(sendp) && alloc.None?
      ensures err == ERR_MEM ==> Abs() == old(Abs()) && held == old(held)
      ensures err != ERR_MEM ==>
        var p := if NeedsCopy(sendp) then Effective(sendp, alloc.value.1, alloc.value.0) else sendp;
        && (err == STILL_POLLING <==> |p.frags| > old(txFree))
        && Abs() == (if err == ERR_OK then Output(old(Abs()), p) else old(Abs()))
        && held == old(held) + (if err == ERR_OK || NeedsCopy(sendp) then multiset{p.id} else multiset{})
    {
      hide Chain;
      hide Output;
      var p := sendp;
      var pcopy := Scan(sendp.frags);
      if pcopy {
        if alloc.None? {
          return ERR_MEM;
        }
        var dst, totLen := CopyChain(sendp.frags);
        p := Packet(alloc.value.0, [Frag(alloc.value.1, dst[..totLen])]);
        held := held + multiset{p.id};
      }
      if |p.frags| > txFree {
        return STILL_POLLING;
      }
      FillRing(p, pcopy);
      err := ERR_OK;
    }

    method FillRing(p: Packet, pcopy: bool)
      requires Valid() && 1 <= |p.frags| <= txFree
      modifies this, ptdesc, txpbufs
      ensures Valid() && released == old(released)
      ensures Abs() == Output(old(Abs()), p)
      ensures held == old(held) + (if pcopy then multiset{} else multiset{p.id})
    {
      hide Handed;
      hide Fill;
      var idx := FillAll(p, pcopy);
      HandOver(txFillIdx, idx);
    }

    /** The loop over the chain. */
    method FillAll(p: Packet, pcopy: bool) returns (idx: nat)
      requires Valid() && 1 <= |p.frags| <= txFree
      modifies `txFree, `held, ptdesc, txpbufs
      ensures Valid() && idx < ptdesc.Length
      ensures (Abs(), idx) == Fill(old(Abs()), txFillIdx, txFillIdx, p.id, p.frags)
      ensures held == old(held) + (if pcopy then multiset{} else multiset{p.id})
    {
      hide Claimed;
      hide Finished;
      hide Fill;
      var dn, i: nat := |p.frags|, 0;
      var fidx: nat := txFillIdx;
      idx := txFillIdx;
      ghost var start := Abs();
      assert p.frags[0..] == p.frags;
      while dn > 0
        invariant i <= |p.frags| && dn == |p.frags| - i
        invariant Valid() && dn <= txFree && |p.frags| <= ptdesc.Length
        invariant idx == After(ptdesc.Length, fidx, i) < ptdesc.Length
        invariant Fill(Abs(), fidx, idx, p.id, p.frags[i..]) == Fill(start, fidx, fidx, p.id, p.frags)
        invariant held == old(held) + (if pcopy || i == 0 then multiset{} else multiset{p.id})
      {
        ghost var t := Abs();
        dn := dn - 1;
        FillOne(idx, fidx, p.frags[i], p.id, dn == 0);
        FillFirst(t, Abs(), fidx, idx, p, i);
        if idx == fidx && !pcopy {
          held := held + multiset{p.id};
        }
        idx := if idx + 1 >= ptdesc.Length then 0 else idx + 1;
        i := i + 1;
      }
      FillNothing(Abs(), fidx, idx, p.id, p.frags[i..]);
    }

    method HandOver(fidx: nat, idx: nat)
      requires Valid() && fidx < ptdesc.Length && idx < ptdesc.Length
      modifies `txFillIdx, ptdesc
      ensures Valid() && Abs() == Handed(old(Abs()), fidx, idx)
    {
      txFillIdx := idx;
      ptdesc[fidx] := ptdesc[fidx].(own := true);
    }

    /** One descriptor of the chain. */
    method FillOne(idx: nat, fidx: nat, frag: Frag, id: PbufId, last: bool)
      requires Valid() && idx < ptdesc.Length && txFree > 0
      modifies `txFree, ptdesc, txpbufs
      ensures Valid() && txFree == old(txFree) - 1
      ensures Abs() == Finished(Claimed(old(Abs()), idx, fidx, frag), idx, id, last)
    {
      ghost var t := Abs();
      ptdesc[idx] := ptdesc[idx].(frag := frag);
      txFree := txFree - 1;
      if idx == fidx {
        ptdesc[idx] := ptdesc[idx].(fs := true);
      } else {
        ptdesc[idx] := ptdesc[idx].(own := true);
      }
      assert Abs() == Claimed(t, idx, fidx, frag);
      if last {
        txpbufs[idx] := Some(id);
        ptdesc[idx] := ptdesc[idx].(ls := true, ic := true);
      } else {
        txpbufs[idx] := None;
      }
    }

    /** Free the buffers of descriptors the engine is done with. */
    method TxReclaim()
      requires Valid()
      modifies this, ptdesc
      ensures Valid()
      ensures
        var (t, ridx, freed) := Reclaim(old(Abs()), old(txReclaimIdx));
        && Abs() == t.(reclaimIdx := ridx)
        && released == old(released) + freed
        && held == Dropped(old(held), freed)
    {
      hide Reclaimed;
      hide Reclaim;
      hide Saved;
      hide AfterReclaiming;
      hide Dropped;
      var ridx: nat := txReclaimIdx;
      ghost var from := txReclaimIdx;
      DroppedTwice(held, [], []);
      ghost var start := Abs();
      ghost var freed: seq<PbufId> := [];
      NothingReclaimed(start, ridx);
      while txFree < ptdesc.Length && !ptdesc[ridx].own
        invariant Valid() && ridx < ptdesc.Length
        invariant released == old(released) + freed && held == Dropped(old(held), freed)
        invariant AfterReclaiming(start, from, Abs(), ridx, freed)
        decreases ptdesc.Length - txFree
      {
        ghost var t := Abs();
        ghost var now := Saved(t, ridx);
        ReclaimOne(ridx);
        ReclaimedOneMore(start, from, t, ridx, freed);
        DroppedTwice(old(held), freed, now);
        freed := freed + now;
        ridx := if ridx + 1 >= ptdesc.Length then 0 else ridx + 1;
      }
      ReclaimingDone(start, from, Abs(), ridx, freed);
      txReclaimIdx := ridx;
    }

    method ReclaimOne(ridx: nat)
      requires Valid() && ridx < ptdesc.Length && txFree < ptdesc.Length
      modifies `txFree, `held, `released, ptdesc
      ensures Valid() && txFree == old(txFree) + 1
      ensures Abs() == Reclaimed(old(Abs()), ridx)
      ensures released == old(released) + Saved(old(Abs()), ridx)
      ensures held == Dropped(old(held), Saved(old(Abs()), ridx))
    {
      hide Dropped;
      ghost var m := held;
      ptdesc[ridx] := Desc(false, false, false, false, ridx == ptdesc.Length - 1, ptdesc[ridx].frag);
      if txpbufs[ridx].Some? {
        held := Dropped(held, [txpbufs[ridx].value]);
        released := released + [txpbufs[ridx].value];
      } else {
        assert released + [] == released;
        DroppedTwice(m, [], []);
      }
      txFree := txFree + 1;
    }
  }

  /** The reclaim loop, part of the way through. */
  ghost predicate AfterReclaiming(start: Tx, from: nat, t: Tx, ridx: nat, freed: seq<PbufId>) {
    && InRange(start) && InRange(t) && from < |start.desc| && ridx < |t.desc|
    && var (t0, r0, f0) := Reclaim(start, from);
       var (t1, r1, f1) := Reclaim(t, ridx);
       t0 == t1 && r0 == r1 && f0 == freed + f1
  }

  lemma NothingReclaimed(t: Tx, ridx: nat)
    requires InRange(t) && ridx < |t.desc|
    ensures AfterReclaiming(t, ridx, t, ridx, [])
  {
    var (_, _, f) := Reclaim(t, ridx);
    assert [] + f == f;
  }

  lemma ReclaimingDone(start: Tx, from: nat, t: Tx, ridx: nat, freed: seq<PbufId>)
    requires AfterReclaiming(start, from, t, ridx, freed) && !CanReclaim(t, ridx)
    ensures Reclaim(start, from) == (t, ridx, freed)
  {
    assert freed + [] == freed;
  }

  lemma DroppedTwice(m: multiset<PbufId>, a: seq<PbufId>, b: seq<PbufId>)
    ensures Dropped(Dropped(m, a), b) == Dropped(m, a + b)
    ensures Dropped(m, []) == m
  {
  }

  lemma ReclaimedOneMore(start: Tx, from: nat, t: Tx, ridx: nat, freed: seq<PbufId>)
    requires AfterReclaiming(start, from, t, ridx, freed) && CanReclaim(t, ridx)
    ensures AfterReclaiming(start, from, Reclaimed(t, ridx), Next(t, ridx), freed + Saved(t, ridx))
  {
    var (_, _, f) := Reclaim(Reclaimed(t, ridx), Next(t, ridx));
    assert freed + (Saved(t, ridx) + f) == freed + Saved(t, ridx) + f;
  }
}
