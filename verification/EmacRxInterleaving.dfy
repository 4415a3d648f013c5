/**
 The receive ring of `EmacRx` with the DMA engine at work inside the driver's input routine.

 A call of the routine is taken apart into its accesses to the ring: the look at the next descriptor,
 which takes its buffer; the requeueing of a bad packet's buffer; and each allocation of a new one.  The
 engine may fill a descriptor between any two of them.
 */
module EmacRxInterleaving {
  import opened Modular
  import opened EmacRx
  import opened EmacRxSteps

  /** Where the driver is: outside the routine, about to queue a bad packet's buffer again, or topping the
      ring up. */
  datatype Driver = Resting | Requeueing(p: PbufId) | ToppingUp

  datatype FineSys = FineSys(s: Sys, driver: Driver)

  datatype Action = Arrive(status: Status) | Enter | Requeue | Allocate(success: bool)

  function FineStep(f: FineSys, a: Action, link: Link): (f': FineSys)
    requires InRange(f.s.rx)
    ensures InRange(f'.s.rx)
  {
    match (a, f.driver)
    case (Arrive(status), _) => f.(s := ReceiveStep(f.s, status))
    case (Enter, Resting) => Entered(f.s, link)
    case (Requeue, Requeueing(p)) => if f.s.rx.free == 0 then f else FineSys(Push(f.s, p), Resting)
    case (Allocate(success), ToppingUp) =>
      if f.s.rx.free == 0 || !success then f.(driver := Resting) else f.(s := Alloc(f.s))
    case _ => f
  }

  function Entered(s: Sys, link: Link): (f: FineSys)
    requires InRange(s.rx)
    ensures InRange(f.s.rx)
  {
    if s.rx.free == |s.rx.desc| then FineSys(s, ToppingUp)
    else if s.rx.desc[s.rx.getIdx].own then FineSys(s, Resting)
    else
      var p := s.rx.pbufs[s.rx.getIdx];
      if RxError(s.rx.desc[s.rx.getIdx].status, link) then FineSys(Pop(s), Requeueing(p))
      else FineSys(HandedUp(Pop(s), p, s.rx.desc[s.rx.getIdx].status.frameLength), ToppingUp)
  }

  function FineRun(f: FineSys, actions: seq<Action>, link: Link): (f': FineSys)
    requires InRange(f.s.rx)
    ensures InRange(f'.s.rx)
    decreases |actions|
  {
    if actions == [] then f else FineRun(FineStep(f, actions[0], link), actions[1..], link)
  }

  // --------------------------------------------------------------------------------------------
  // The invariant

  /** The buffer in the driver's hand. */
  function InHand(d: Driver): seq<PbufId> {
    if d.Requeueing? then [d.p] else []
  }

  ghost predicate FineInv(f: FineSys, link: Link) {
    && RingInv(f.s)
    && Conserved(f.s, InHand(f.driver))
    && HandedInv(f.s, link)
    && (f.driver.Requeueing? ==> f.s.rx.free > 0)
  }

  lemma ArriveKeepsInv(f: FineSys, status: Status, link: Link)
    requires FineInv(f, link)
    ensures FineInv(FineStep(f, Arrive(status), link), link)
  {
    hide Good;
    hide RxError;
    ReceiveKeepsRing(f.s, status);
    var s' := ReceiveStep(f.s, status);
    assert Lengths(s'.statuses)[..f.s.got] == Lengths(f.s.statuses)[..f.s.got];
  }

  lemma EnterKeepsInv(f: FineSys, link: Link)
    requires FineInv(f, link) && f.driver == Resting
    ensures FineInv(FineStep(f, Enter, link), link)
  {
    var s := f.s;
    hide RxError;
    hide Conserved;
    hide RingInv;
    hide HandedInv;
    assert InRange(s.rx) && s.got <= |s.statuses| <= |s.queued| by { RingBounds(s); }
    if s.rx.free < |s.rx.desc| && !s.rx.desc[s.rx.getIdx].own {
      PopKeepsRing(s);
      PopLoosens(s);
      PopKeepsHanded(s, link);
      HandUp(Pop(s), s.queued[s.got], s.statuses[s.got].frameLength);
    }
  }

  lemma DriverKeepsInv(f: FineSys, a: Action, link: Link)
    requires FineInv(f, link) && (a.Requeue? || a.Allocate?)
    ensures FineInv(FineStep(f, a, link), link)
  {
    hide Good;
    hide RxError;
    hide Conserved;
    hide RingInv;
    var s := f.s;
    assert InRange(s.rx) && s.got <= |s.statuses| <= |s.queued| by { RingBounds(s); }
    if s.rx.free > 0 {
      if f.driver.Requeueing? {
        assert [f.driver.p] + [] == [f.driver.p];
        PushKeepsRing(s, f.driver.p);
        PushConserves(s, f.driver.p, []);
        SamePast(s, Push(s, f.driver.p), link);
      } else if f.driver.ToppingUp? {
        AllocKeepsInv(s);
        SamePast(s, Alloc(s), link);
      }
    }
  }

  lemma {:induction false} RunKeepsFineInv(f: FineSys, actions: seq<Action>, link: Link)
    requires FineInv(f, link)
    ensures FineInv(FineRun(f, actions, link), link)
    decreases |actions|
  {
    hide FineInv;
    if actions != [] {
      assert InRange(f.s.rx) by { FineBounds(f, link); }
      match actions[0] {
        case Arrive(status) => ArriveKeepsInv(f, status, link);
        case Enter =>
          if f.driver == Resting {
            EnterKeepsInv(f, link);
          }
        case Requeue => DriverKeepsInv(f, actions[0], link);
        case Allocate(success) => DriverKeepsInv(f, actions[0], link);
      }
      RunKeepsFineInv(FineStep(f, actions[0], link), actions[1..], link);
    }
  }

  lemma FineBounds(f: FineSys, link: Link)
    requires FineInv(f, link)
    ensures InRange(f.s.rx)
  {
  }

  // --------------------------------------------------------------------------------------------
  // Over every interleaving

  ghost predicate AtStart(f: FineSys) {
    Initial(f.s) && f.driver == Resting
  }

  lemma RunFromStart(f: FineSys, actions: seq<Action>, link: Link)
    requires AtStart(f)
    ensures FineInv(FineRun(f, actions, link), link)
  {
    InitialIsInv(f.s, link);
    RunKeepsFineInv(f, actions, link);
  }

  lemma CountedOnce(s: Sys, loose: seq<PbufId>, id: PbufId)
    requires s.got <= |s.queued| && Conserved(s, loose)
    ensures multiset(s.queued[s.got..])[id] + multiset(s.handed)[id] + multiset(loose)[id]
         == if id < s.nextId then 1 else 0
  {
    AllocatedOnce(s.nextId, id);
  }

  /** Each buffer allocated is in exactly one queued place, or was handed up exactly once, or is the one in
      the driver's hand. */
  lemma BuffersAreNeverLost(f: FineSys, actions: seq<Action>, link: Link, id: PbufId)
    requires AtStart(f)
    ensures
      var f' := FineRun(f, actions, link);
      var s := f'.s;
      && s.got <= |s.statuses| <= |s.queued|
      && multiset(s.queued[s.got..])[id] + multiset(s.handed)[id] + multiset(InHand(f'.driver))[id]
         == (if id < s.nextId then 1 else 0)
      && s.handed == Good(s.queued[..s.got], s.statuses[..s.got], link)
  {
    hide Good;
    hide RxError;
    RunFromStart(f, actions, link);
    var f' := FineRun(f, actions, link);
    CountedOnce(f'.s, InHand(f'.driver), id);
  }

  /** What is handed up, in every interleaving: as many packets as are good among those taken; and the k-th
      packet received, if it is good and taken, stands behind the good ones before it, in the buffer it was
      received into, with the length it was received with. */
  lemma GoodPacketsAreHandedUp(f: FineSys, actions: seq<Action>, link: Link)
    requires AtStart(f)
    ensures
      var s := FineRun(f, actions, link).s;
      && s.got <= |s.statuses| && s.got <= |s.queued|
      && |s.handed| == |s.lengths| == GoodBefore(s.statuses, s.got, link)
      && (forall k: nat :: k < s.got && !RxError(s.statuses[k], link) ==>
            var at := GoodBefore(s.statuses, k, link);
            at < |s.handed| && s.handed[at] == s.queued[k] && s.lengths[at] == s.statuses[k].frameLength)
  {
    hide Good;
    hide RxError;
    RunFromStart(f, actions, link);
    var s := FineRun(f, actions, link).s;
    hide FineRun;
    AllHandedUp(s, link);
  }

  lemma AllHandedUp(s: Sys, link: Link)
    requires HandedInv(s, link)
    ensures |s.handed| == |s.lengths| == GoodBefore(s.statuses, s.got, link)
    ensures forall k: nat :: k < s.got && !RxError(s.statuses[k], link) ==>
      var at := GoodBefore(s.statuses, k, link);
      at < |s.handed| && s.handed[at] == s.queued[k] && s.lengths[at] == s.statuses[k].frameLength
  {
    hide Good;
    hide RxError;
    GoodCount(s.queued, s.statuses, s.got, link);
    GoodCount(Lengths(s.statuses), s.statuses, s.got, link);
    forall k: nat | k < s.got && !RxError(s.statuses[k], link)
      ensures
        var at := GoodBefore(s.statuses, k, link);
        at < |s.handed| && s.handed[at] == s.queued[k] && s.lengths[at] == s.statuses[k].frameLength
    {
      GoodAt(s.queued, s.statuses, s.got, k, link);
      GoodAt(Lengths(s.statuses), s.statuses, s.got, k, link);
    }
  }

  /** The driver's two indices are the ends of the interval of descriptors in use. */
  lemma IndicesBoundTheInterval(f: FineSys, actions: seq<Action>, link: Link)
    requires AtStart(f)
    ensures
      var t := FineRun(f, actions, link).s.rx;
      t.nextIdx == (t.getIdx + (|t.desc| - t.free)) % |t.desc|
  {
    hide Good;
    hide RxError;
    RunFromStart(f, actions, link);
    var s := FineRun(f, actions, link).s;
    ModOfSum(s.got, |s.queued| - s.got, |s.rx.desc|);
  }

  lemma EngineBuffer(s: Sys)
    requires RingInv(s) && s.rx.desc[s.dma].own
    ensures |s.statuses| < |s.queued| && s.rx.desc[s.dma].buf == s.queued[|s.statuses|]
  {
    EngineOwns(s);
    assert SlotInv(s, |s.statuses|);
  }

  /** At every moment of every interleaving the buffer that the engine would fill next is one that was
      never handed up and is not in the driver's hand, and is the one that the history has for the next
      packet received. */
  lemma EngineFillsOnlyQueuedBuffers(f: FineSys, actions: seq<Action>, link: Link)
    requires AtStart(f)
    ensures
      var f' := FineRun(f, actions, link);
      && f'.s.dma < |f'.s.rx.desc|
      && (f'.s.rx.desc[f'.s.dma].own ==>
          && |f'.s.statuses| < |f'.s.queued|
          && f'.s.rx.desc[f'.s.dma].buf == f'.s.queued[|f'.s.statuses|]
          && f'.s.rx.desc[f'.s.dma].buf !in f'.s.handed && f'.s.rx.desc[f'.s.dma].buf !in InHand(f'.driver))
  {
    hide Good;
    hide RxError;
    RunFromStart(f, actions, link);
    var f' := FineRun(f, actions, link);
    var s := f'.s;
    if s.rx.desc[s.dma].own {
      EngineBuffer(s);
      var id := s.queued[|s.statuses|];
      assert s.queued[s.got..][|s.statuses| - s.got] == id;
      CountedOnce(s, InHand(f'.driver), id);
      assert multiset(s.queued[s.got..])[id] >= 1;
      assert multiset(s.handed)[id] == 0 && multiset(InHand(f'.driver))[id] == 0;
    }
  }

  // --------------------------------------------------------------------------------------------
  // A call with the engine at rest

  function Allocations(n: nat): seq<Action> {
    if n == 0 then [Allocate(false)] else [Allocate(true)] + Allocations(n - 1)
  }

  lemma {:induction false} RestingIgnores(s: Sys, n: nat, link: Link)
    requires InRange(s.rx)
    ensures FineRun(FineSys(s, Resting), Allocations(n), link) == FineSys(s, Resting)
    decreases n
  {
    if n == 0 {
      assert Allocations(n)[1..] == [];
    } else {
      assert Allocations(n)[1..] == Allocations(n - 1);
      RestingIgnores(s, n - 1, link);
    }
  }

  lemma {:induction false} TopUpAlone(s: Sys, avail: nat, link: Link)
    requires InRange(s.rx)
    ensures FineRun(FineSys(s, ToppingUp), Allocations(avail), link) == FineSys(Fill(s, avail), Resting)
    decreases avail
  {
    hide QueueOne;
    if avail == 0 {
      assert Allocations(avail)[1..] == [];
    } else {
      assert Allocations(avail)[1..] == Allocations(avail - 1);
      if s.rx.free == 0 {
        RestingIgnores(s, avail - 1, link);
      } else {
        TopUpAlone(Alloc(s), avail - 1, link);
      }
    }
  }

  /** Undisturbed, the accesses of a call add up to the call of `EmacRxSteps`, and so to the driver's
      routine. */
  lemma CallAlone(s: Sys, avail: nat, link: Link)
    requires InRange(s.rx)
    ensures FineRun(FineSys(s, Resting), [Enter, Requeue] + Allocations(avail), link)
         == FineSys(CallStep(s, avail, link), Resting)
  {
    hide QueueOne;
    hide RxError;
    hide Fill;
    var call := [Enter, Requeue] + Allocations(avail);
    assert call[1..] == [Requeue] + Allocations(avail);
    assert call[1..][1..] == Allocations(avail);
    var f1 := FineStep(FineSys(s, Resting), Enter, link);
    var f2 := FineStep(f1, Requeue, link);
    assert FineRun(FineSys(s, Resting), call, link) == FineRun(f2, Allocations(avail), link);
    if f2.driver.ToppingUp? {
      TopUpAlone(f2.s, avail, link);
    } else {
      RestingIgnores(f2.s, avail, link);
    }
  }
}
