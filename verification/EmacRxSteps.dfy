/**
 The steps of the receive ring of `EmacRx`, with its history: every buffer ever queued, every packet
 received, every buffer handed up.  Position k of the history of queued buffers lives at place k modulo
 N.  For each step there is what it keeps of the invariant; module EmacRxInterleaving puts the steps
 together.
 */
module EmacRxSteps {
  import opened Modular
  import opened Options
  import opened EmacRx

  datatype Sys = Sys(
    rx: Rx, dma: nat,
    queued: seq<PbufId>,     // every buffer queued so far, requeued ones again
    statuses: seq<Status>,   // of the packets received into them
    got: nat,                // how many of those the driver has taken
    handed: seq<PbufId>,     // buffers handed up
    lengths: seq<nat>,       // ... each with the length it was given
    nextId: PbufId)          // buffers allocated so far

  function Push(s: Sys, p: PbufId): Sys
    requires InRange(s.rx) && s.rx.free > 0
  {
    s.(rx := QueueOne(s.rx, p), queued := s.queued + [p])
  }

  function Fill(s: Sys, avail: nat): (s': Sys)
    requires InRange(s.rx)
    ensures InRange(s'.rx)
    decreases s.rx.free
  {
    if s.rx.free == 0 || avail == 0 then s else Fill(Alloc(s), avail - 1)
  }

  /** Allocate a buffer and queue it. */
  function Alloc(s: Sys): Sys
    requires InRange(s.rx) && s.rx.free > 0
  {
    Push(s, s.nextId).(nextId := s.nextId + 1)
  }

  function Pop(s: Sys): Sys
    requires InRange(s.rx) && s.rx.free < |s.rx.desc|
  {
    s.(rx := Popped(s.rx), got := s.got + 1)
  }

  function CallStep(s: Sys, avail: nat, link: Link): (s': Sys)
    requires InRange(s.rx)
    ensures InRange(s'.rx)
  {
    if s.rx.free == |s.rx.desc| then Fill(s, avail)
    else if s.rx.desc[s.rx.getIdx].own then s
    else
      var p := s.rx.pbufs[s.rx.getIdx];
      if RxError(s.rx.desc[s.rx.getIdx].status, link) then Push(Pop(s), p)
      else Fill(HandedUp(Pop(s), p, s.rx.desc[s.rx.getIdx].status.frameLength), avail)
  }

  function HandedUp(s: Sys, p: PbufId, length: nat): Sys {
    s.(handed := s.handed + [p], lengths := s.lengths + [length])
  }

  /** The engine fills the buffer it is at, if it owns it. */
  function ReceiveStep(s: Sys, status: Status): (s': Sys)
    requires InRange(s.rx)
    ensures InRange(s'.rx)
  {
    if s.dma >= |s.rx.desc| || !s.rx.desc[s.dma].own then s
    else
      s.(rx := s.rx.(desc := s.rx.desc[s.dma := s.rx.desc[s.dma].(own := false, status := status)]),
         dma := Next(|s.rx.desc|, s.dma), statuses := s.statuses + [status])
  }

  // --------------------------------------------------------------------------------------------
  // The invariant

  ghost predicate CountsInv(s: Sys)
    requires InRange(s.rx)
  {
    var n := |s.rx.desc|;
    && s.got <= |s.statuses| <= |s.queued| <= s.got + n
    && s.rx.free == n - (|s.queued| - s.got)
    && s.rx.nextIdx == |s.queued| % n
    && s.rx.getIdx == s.got % n
    && s.dma == |s.statuses| % n
  }

  ghost predicate SlotInv(s: Sys, k: nat)
    requires InRange(s.rx)
  {
    var n := |s.rx.desc|;
    var d := s.rx.desc[k % n];
    && d.own == (|s.statuses| <= k < |s.queued|)
    && (k < |s.queued| ==> s.rx.pbufs[k % n] == d.buf == s.queued[k])
    && (k < |s.statuses| ==> d.status == s.statuses[k])
  }

  ghost predicate SlotsInv(s: Sys)
    requires InRange(s.rx)
  {
    var n := |s.rx.desc|;
    && (forall k :: s.got <= k < s.got + n ==> SlotInv(s, k))
    && (forall i :: 0 <= i < n ==> (s.rx.desc[i].rer <==> i == n - 1))
  }

  /** Of things that belong to packets, those of the good packets, in order. */
  function Good<T>(things: seq<T>, statuses: seq<Status>, link: Link): seq<T>
    requires |things| == |statuses|
  {
    if things == [] then []
    else
      var k := |things| - 1;
      Good(things[..k], statuses[..k], link) + (if RxError(statuses[k], link) then [] else [things[k]])
  }

  function Lengths(statuses: seq<Status>): (r: seq<nat>)
    ensures |r| == |statuses|
  {
    seq(|statuses|, i requires 0 <= i < |statuses| => statuses[i].frameLength)
  }

  /** What was handed up are the buffers and the lengths of the good packets taken. */
  ghost predicate HandedInv(s: Sys, link: Link) {
    && s.got <= |s.statuses| && s.got <= |s.queued|
    && s.handed == Good(s.queued[..s.got], s.statuses[..s.got], link)
    && s.lengths == Good(Lengths(s.statuses)[..s.got], s.statuses[..s.got], link)
  }

  /** How many of the first k packets are good. */
  function GoodBefore(statuses: seq<Status>, k: nat, link: Link): nat
    requires k <= |statuses|
  {
    if k == 0 then 0
    else GoodBefore(statuses, k - 1, link) + (if RxError(statuses[k - 1], link) then 0 else 1)
  }

  lemma {:induction false} GoodCount<T>(things: seq<T>, statuses: seq<Status>, n: nat, link: Link)
    requires n <= |things| && n <= |statuses|
    ensures |Good(things[..n], statuses[..n], link)| == GoodBefore(statuses, n, link)
    decreases n
  {
    hide RxError;
    if n > 0 {
      GoodOneMore(things, statuses, n - 1, link);
      GoodCount(things, statuses, n - 1, link);
    }
  }

  /** A good packet's thing stands where the good packets before it leave off. */
  lemma {:induction false} GoodAt<T>(things: seq<T>, statuses: seq<Status>, n: nat, k: nat, link: Link)
    requires k < n <= |things| && n <= |statuses| && !RxError(statuses[k], link)
    ensures
      var good, at := Good(things[..n], statuses[..n], link), GoodBefore(statuses, k, link);
      at < |good| && good[at] == things[k]
    decreases n
  {
    hide RxError;
    GoodOneMore(things, statuses, n - 1, link);
    if k < n - 1 {
      GoodAt(things, statuses, n - 1, k, link);
    } else {
      GoodCount(things, statuses, k, link);
    }
  }

  function Allocated(n: nat): (r: seq<PbufId>)
    ensures |r| == n
  {
    seq(n, i requires 0 <= i < n => i)
  }

  /** Every buffer allocated is in exactly one queued place or was handed up exactly once - except the
      ones listed as loose, which the driver holds in its hand. */
  ghost predicate Conserved(s: Sys, loose: seq<PbufId>)
    requires s.got <= |s.queued|
  {
    multiset(s.queued[s.got..]) + multiset(s.handed) + multiset(loose) == multiset(Allocated(s.nextId))
  }

  ghost predicate RingInv(s: Sys) {
    InRange(s.rx) && CountsInv(s) && SlotsInv(s)
  }

  // --------------------------------------------------------------------------------------------
  // The pieces of a step

  lemma PushKeepsRing(s: Sys, p: PbufId)
    requires RingInv(s) && s.rx.free > 0
    ensures RingInv(Push(s, p))
  {
    var s', n, c := Push(s, p), |s.rx.desc|, |s.queued|;
    NextPlace(c, n);
    forall k | s.got <= k < s.got + n
      ensures SlotInv(s', k)
    {
      assert SlotInv(s, k);
      if k != c {
        OtherPlace(k, c, n);
      }
    }
  }

  lemma PushConserves(s: Sys, p: PbufId, loose: seq<PbufId>)
    requires InRange(s.rx) && s.rx.free > 0 && s.got <= |s.queued| && Conserved(s, [p] + loose)
    ensures Conserved(Push(s, p), loose)
  {
    assert (s.queued + [p])[s.got..] == s.queued[s.got..] + [p];
  }

  lemma AllocatedOneMore(n: nat)
    ensures Allocated(n + 1) == Allocated(n) + [n]
  {
  }

  lemma AllocKeepsInv(s: Sys)
    requires RingInv(s) && Conserved(s, []) && s.rx.free > 0
    ensures RingInv(Alloc(s)) && Conserved(Alloc(s), [])
  {
    var id := s.nextId;
    AllocatedOneMore(id);
    PushKeepsRing(s, id);
    RenumberedRing(Push(s, id), id + 1);
    var renumbered := s.(nextId := id + 1);
    NewIsLoose(s);
    hide Conserved;
    PushConserves(renumbered, id, []);
    assert [id] + [] == [id];
    assert Alloc(s) == Push(renumbered, id);
  }

  lemma NewIsLoose(s: Sys)
    requires s.got <= |s.queued| && Conserved(s, [])
    ensures Conserved(s.(nextId := s.nextId + 1), [s.nextId] + [])
  {
    AllocatedOneMore(s.nextId);
  }

  lemma {:induction false} FillKeepsInv(s: Sys, avail: nat)
    requires RingInv(s) && Conserved(s, [])
    ensures RingInv(Fill(s, avail)) && Conserved(Fill(s, avail), [])
    ensures
      var s' := Fill(s, avail);
      && s'.got == s.got && s'.statuses == s.statuses && s'.handed == s.handed && s'.lengths == s.lengths
      && s.queued <= s'.queued
    ensures (Fill(s, avail).rx, Fill(s, avail).nextId - s.nextId) == QueueMany(s.rx, avail, s.nextId)
    decreases avail
  {
    hide RingInv;
    hide Conserved;
    hide QueueOne;
    assert InRange(s.rx) by { RingBounds(s); }
    if s.rx.free != 0 && avail != 0 {
      AllocKeepsInv(s);
      FillKeepsInv(Alloc(s), avail - 1);
    }
  }

  lemma RenumberedRing(s: Sys, nextId: PbufId)
    requires RingInv(s)
    ensures RingInv(s.(nextId := nextId))
  {
    var s' := s.(nextId := nextId);
    forall k | s.got <= k < s.got + |s.rx.desc|
      ensures SlotInv(s', k)
    {
      assert SlotInv(s, k);
    }
  }

  /** Taking the next buffer: it is the one queued at that position, and its packet has been received. */
  lemma PopKeepsRing(s: Sys)
    requires RingInv(s) && s.rx.free < |s.rx.desc| && !s.rx.desc[s.rx.getIdx].own
    ensures RingInv(Pop(s)) && s.got < |s.statuses|
    ensures s.rx.pbufs[s.rx.getIdx] == s.queued[s.got]
    ensures s.rx.desc[s.rx.getIdx].status == s.statuses[s.got]
  {
    var s', n, c := Pop(s), |s.rx.desc|, s.got;
    assert SlotInv(s, c);
    assert s.got < |s.statuses|;
    forall k | s'.got <= k < s'.got + n
      ensures SlotInv(s', k)
    {
      PopSlot(s, k);
    }
    hide SlotInv;
    NextPlace(c, n);
  }

  lemma PopSlot(s: Sys, k: nat)
    requires RingInv(s) && s.rx.free < |s.rx.desc| && s.got < |s.statuses|
    requires s.got < k <= s.got + |s.rx.desc|
    ensures SlotInv(Pop(s), k)
  {
    var n, c := |s.rx.desc|, s.got;
    if k < c + n {
      assert SlotInv(s, k);
    } else {
      assert SlotInv(s, c);
      SamePlace(c, n);
    }
  }

  lemma PopLoosens(s: Sys)
    requires InRange(s.rx) && s.rx.free < |s.rx.desc| && s.got < |s.queued| && Conserved(s, [])
    ensures Conserved(Pop(s), [s.queued[s.got]])
  {
    assert s.queued[s.got..] == [s.queued[s.got]] + s.queued[s.got + 1..];
  }

  lemma GoodOneMore<T>(things: seq<T>, statuses: seq<Status>, k: nat, link: Link)
    requires k < |things| && k < |statuses|
    ensures Good(things[..k + 1], statuses[..k + 1], link)
         == Good(things[..k], statuses[..k], link) + (if RxError(statuses[k], link) then [] else [things[k]])
  {
    assert things[..k + 1][..k] == things[..k] && statuses[..k + 1][..k] == statuses[..k];
  }

  lemma RingBounds(s: Sys)
    requires RingInv(s)
    ensures InRange(s.rx) && s.got <= |s.statuses| <= |s.queued|
  {
  }

  /** Queueing does not change what has been taken. */
  lemma SamePast(s: Sys, s': Sys, link: Link)
    requires s.got == s'.got <= |s.queued| && s.queued <= s'.queued
    requires s.got <= |s.statuses| && s.statuses == s'.statuses
    ensures s'.queued[..s.got] == s.queued[..s.got] && s.got <= |s'.queued|
  {
  }

  lemma PopKeepsHanded(s: Sys, link: Link)
    requires HandedInv(s, link) && s.got < |s.statuses| && s.got < |s.queued|
    requires InRange(s.rx) && s.rx.free < |s.rx.desc|
    ensures
      var status := s.statuses[s.got];
      HandedInv(if RxError(status, link) then Pop(s) else HandedUp(Pop(s), s.queued[s.got], status.frameLength), link)
  {
    hide RxError;
    hide Good;
    GoodOneMore(s.queued, s.statuses, s.got, link);
    GoodOneMore(Lengths(s.statuses), s.statuses, s.got, link);
  }

  lemma HandUp(s: Sys, p: PbufId, length: nat)
    requires RingInv(s) && Conserved(s, [p])
    ensures RingInv(HandedUp(s, p, length)) && Conserved(HandedUp(s, p, length), [])
  {
    var s' := HandedUp(s, p, length);
    forall k | s.got <= k < s.got + |s.rx.desc|
      ensures SlotInv(s', k)
    {
      assert SlotInv(s, k);
    }
  }

  /** The engine's step changes nothing that the driver has taken or holds. */
  lemma ReceiveKeepsRing(s: Sys, status: Status)
    requires RingInv(s)
    ensures
      var s' := ReceiveStep(s, status);
      && RingInv(s') && s'.statuses[..s.got] == s.statuses[..s.got]
      && s' == s.(rx := s'.rx, dma := s'.dma, statuses := s'.statuses)
      && s'.rx.free == s.rx.free
  {
    var s', n, c := ReceiveStep(s, status), |s.rx.desc|, |s.statuses|;
    if s' != s {
      EngineOwns(s);
      NextPlace(c, n);
      forall k | s.got <= k < s.got + n
        ensures SlotInv(s', k)
      {
        assert SlotInv(s, k);
        if k != c {
          OtherPlace(k, c, n);
        }
      }
    }
  }

  lemma EngineOwns(s: Sys)
    requires RingInv(s)
    ensures s.rx.desc[s.dma].own <==> |s.statuses| < |s.queued|
  {
    var n := |s.rx.desc|;
    if |s.statuses| < s.got + n {
      assert SlotInv(s, |s.statuses|);
    } else {
      SamePlace(s.got, n);
      assert SlotInv(s, s.got);
    }
  }

  // --------------------------------------------------------------------------------------------
  // The beginning, and the call as a whole

  ghost predicate Initial(s: Sys) {
    && InRange(s.rx) && s.rx.free == |s.rx.desc| && s.rx.getIdx == s.rx.nextIdx == s.dma == 0
    && (forall i :: 0 <= i < |s.rx.desc| ==> !s.rx.desc[i].own && (s.rx.desc[i].rer <==> i == |s.rx.desc| - 1))
    && s.queued == s.handed == [] && s.statuses == [] && s.lengths == [] && s.got == s.nextId == 0
  }

  lemma InitialIsInv(s: Sys, link: Link)
    requires Initial(s)
    ensures RingInv(s) && Conserved(s, []) && HandedInv(s, link)
  {
  }

  lemma {:induction false} AllocatedOnce(n: nat, id: PbufId)
    ensures multiset(Allocated(n))[id] == if id < n then 1 else 0
    decreases n
  {
    if n > 0 {
      AllocatedOneMore(n - 1);
      AllocatedOnce(n - 1, id);
    }
  }

  /** A call step is the driver's input routine. */
  lemma CallIsInput(s: Sys, avail: nat, link: Link)
    requires RingInv(s) && Conserved(s, [])
    ensures
      var s' := CallStep(s, avail, link);
      var (t, r, queued) := Input(s.rx, avail, s.nextId, link);
      && s'.rx == t && s'.nextId == s.nextId + queued
      && s'.handed == s.handed + (if r.Some? then [r.value.0] else [])
      && s'.lengths == s.lengths + (if r.Some? then [r.value.1] else [])
      && (r.Some? ==> s.got < |s.statuses| && s.got < |s.queued|
                      && r.value == (s.queued[s.got], s.statuses[s.got].frameLength))
  {
    hide RxError;
    hide SlotInv;
    hide Good;
    if s.rx.free == |s.rx.desc| {
      FillKeepsInv(s, avail);
    } else if !s.rx.desc[s.rx.getIdx].own {
      var p, s1 := s.rx.pbufs[s.rx.getIdx], Pop(s);
      if !RxError(s.rx.desc[s.rx.getIdx].status, link) {
        PopKeepsRing(s);
        PopLoosens(s);
        var length := s.rx.desc[s.rx.getIdx].status.frameLength;
        HandUp(s1, p, length);
        FillKeepsInv(HandedUp(s1, p, length), avail);
      }
    }
  }
}
