/**
 The transmit ring of `EmacTx` with everything that touches it at work: one output caller, the cleanup
 task, and the DMA engine.

 The output caller and the cleanup task exclude each other by a mutex, the engine is excluded by nothing:
 it may complete a descriptor between any two steps.  It takes descriptors in ring order and stops at
 the first it does not own.  The state keeps, beside the ring, the history of what every descriptor ever
 claimed was for; position k of that history lives at place k modulo N.
 */
module EmacTxInterleaving {
  import opened Modular
  import opened Options
  import opened EmacTx

  /** What a descriptor was claimed for. */
  datatype Role = Role(id: PbufId, frag: Frag, first: bool, last: bool)

  /** Where the output caller is: outside, or with `done` descriptors of its packet finished and, if
      `half`, one more claimed. */
  datatype Out = Idle | Building(p: Packet, copied: bool, fidx: nat, idx: nat, done: nat, half: bool)

  datatype Rec = Resting | Reclaiming(ridx: nat)

  datatype Sys = Sys(
    tx: Tx, dma: nat, out: Out, rec: Rec,
    roles: seq<Role>,        // of every descriptor claimed so far
    handed: nat,             // how many of them have been handed to the engine
    completed: nat,          // ... completed by it
    reclaimed: nat,          // ... and taken back
    sent: seq<Packet>,       // packets handed over
    held: multiset<PbufId>,  // references the driver holds
    released: seq<PbufId>)   // references it has given up

  datatype Action =
    | BeginOutput(sendp: Packet, alloc: Option<(PbufId, nat)>)
    | Claim
    | Finish
    | HandOver
    | Complete
    | BeginReclaim
    | ReclaimNext
    | EndReclaim

  function RolesOf(p: Packet): (r: seq<Role>)
    ensures |r| == |p.frags|
  {
    seq(|p.frags|, j requires 0 <= j < |p.frags| => Role(p.id, p.frags[j], j == 0, j == |p.frags| - 1))
  }

  function RolesOfAll(ps: seq<Packet>): seq<Role> {
    if ps == [] then [] else RolesOfAll(ps[..|ps| - 1]) + RolesOf(ps[|ps| - 1])
  }

  /** The packets whose last descriptor is in the list. */
  function Lasts(roles: seq<Role>): seq<PbufId> {
    if roles == [] then []
    else Lasts(roles[..|roles| - 1]) + (if roles[|roles| - 1].last then [roles[|roles| - 1].id] else [])
  }

  // --------------------------------------------------------------------------------------------
  // The steps

  function OutputStep(s: Sys, a: Action): Sys
    requires InRange(s.tx)
  {
    match (a, s.out)
    case (BeginOutput(sendp, alloc), Idle) =>
      if s.rec.Reclaiming? || sendp.frags == [] || (NeedsCopy(sendp) && alloc.None?) then s
      else
        var copied := NeedsCopy(sendp);
        var p := if copied then Effective(sendp, alloc.value.1, alloc.value.0) else sendp;
        if |p.frags| > s.tx.free then s
        else s.(out := Building(p, copied, s.tx.fillIdx, s.tx.fillIdx, 0, false),
                held := if copied then s.held + multiset{p.id} else s.held)
    case (Claim, Building(p, copied, fidx, idx, done, half)) =>
      if half || done >= |p.frags| || s.tx.free == 0 || idx >= |s.tx.desc| then s
      else s.(tx := Claimed(s.tx, idx, fidx, p.frags[done]),
              out := s.out.(half := true),
              roles := s.roles + [RolesOf(p)[done]],
              held := if idx == fidx && !copied then s.held + multiset{p.id} else s.held)
    case (Finish, Building(p, copied, fidx, idx, done, half)) =>
      if !half || idx >= |s.tx.desc| then s
      else s.(tx := Finished(s.tx, idx, p.id, done + 1 == |p.frags|),
              out := s.out.(half := false, done := done + 1, idx := Next(s.tx, idx)))
    case (HandOver, Building(p, copied, fidx, idx, done, half)) =>
      if half || done < |p.frags| || idx >= |s.tx.desc| || fidx >= |s.tx.desc| then s
      else s.(tx := Handed(s.tx, fidx, idx), out := Idle, handed := |s.roles|, sent := s.sent + [p])
    case _ => s
  }

  function ReclaimStep(s: Sys, a: Action): Sys
    requires InRange(s.tx)
  {
    match (a, s.rec)
    case (BeginReclaim, Resting) =>
      if s.out.Idle? then s.(rec := Reclaiming(s.tx.reclaimIdx)) else s
    case (ReclaimNext, Reclaiming(ridx)) =>
      if ridx >= |s.tx.desc| || !CanReclaim(s.tx, ridx) then s
      else s.(tx := Reclaimed(s.tx, ridx), rec := Reclaiming(Next(s.tx, ridx)),
              reclaimed := s.reclaimed + 1,
              held := Dropped(s.held, Saved(s.tx, ridx)),
              released := s.released + Saved(s.tx, ridx))
    case (EndReclaim, Reclaiming(ridx)) =>
      if ridx >= |s.tx.desc| || CanReclaim(s.tx, ridx) then s
      else s.(tx := s.tx.(reclaimIdx := ridx), rec := Resting)
    case _ => s
  }

  /** The engine completes the descriptor it is at, if it owns it. */
  function CompleteStep(s: Sys): Sys
    requires InRange(s.tx)
  {
    if s.dma >= |s.tx.desc| || !s.tx.desc[s.dma].own then s
    else s.(tx := s.tx.(desc := s.tx.desc[s.dma := s.tx.desc[s.dma].(own := false)]),
            dma := Next(s.tx, s.dma), completed := s.completed + 1)
  }

  function Step(s: Sys, a: Action): (s': Sys)
    requires InRange(s.tx)
    ensures InRange(s'.tx)
  {
    match a
    case Complete => CompleteStep(s)
    case BeginReclaim => ReclaimStep(s, a)
    case ReclaimNext => ReclaimStep(s, a)
    case EndReclaim => ReclaimStep(s, a)
    case _ => OutputStep(s, a)
  }

  function Run(s: Sys, actions: seq<Action>): (s': Sys)
    requires InRange(s.tx)
    ensures InRange(s'.tx)
    decreases |actions|
  {
    if actions == [] then s else Run(Step(s, actions[0]), actions[1..])
  }

  // --------------------------------------------------------------------------------------------
  // The invariant

  function FinishedCount(s: Sys): int {
    |s.roles| - (if s.out.Building? && s.out.half then 1 else 0)
  }

  predicate Ordered(s: Sys) {
    s.reclaimed <= s.completed <= s.handed <= |s.roles|
  }

  /** The four counts in order, none further than once round the ring ahead of another, and every index
      the driver or the engine keeps the place of one of them. */
  ghost predicate CountsInv(s: Sys)
    requires InRange(s.tx)
  {
    var n := |s.tx.desc|;
    && Ordered(s) && |s.roles| <= s.reclaimed + n
    && s.tx.free == n - (|s.roles| - s.reclaimed)
    && s.dma == s.completed % n
    && s.tx.fillIdx == s.handed % n
    && (s.rec.Resting? ==> s.tx.reclaimIdx == s.reclaimed % n)
    && (s.rec.Reclaiming? ==> s.rec.ridx == s.reclaimed % n && s.out.Idle?)
  }

  ghost predicate OutInv(s: Sys)
    requires InRange(s.tx) && Ordered(s)
  {
    var n := |s.tx.desc|;
    match s.out
    case Idle => |s.roles| == s.handed
    case Building(p, copied, fidx, idx, done, half) =>
      && 1 <= |p.frags| && s.handed + |p.frags| <= s.reclaimed + n
      && fidx == s.handed % n && idx == (s.handed + done) % n
      && |s.roles| == s.handed + done + (if half then 1 else 0) <= s.handed + |p.frags|
      && s.roles[s.handed..] == RolesOf(p)[..|s.roles| - s.handed]
  }

  predicate Owned(s: Sys, k: nat) {
    s.completed <= k < s.handed || s.handed < k < |s.roles|
  }

  /** The place of position k looks as position k's history says. */
  ghost predicate SlotInv(s: Sys, k: nat)
    requires InRange(s.tx)
  {
    var n := |s.tx.desc|;
    var d := s.tx.desc[k % n];
    && d.own == Owned(s, k)
    && d.fs == (k < |s.roles| && s.roles[k].first)
    && d.ls == d.ic == (k < FinishedCount(s) && s.roles[k].last)
    && (k < |s.roles| ==> d.frag == s.roles[k].frag)
    && (k < FinishedCount(s) ==> s.tx.pbufs[k % n] == if s.roles[k].last then Some(s.roles[k].id) else None)
  }

  ghost predicate SlotsInv(s: Sys)
    requires InRange(s.tx)
  {
    var n := |s.tx.desc|;
    && (forall k :: s.reclaimed <= k < s.reclaimed + n ==> SlotInv(s, k))
    && (forall i :: 0 <= i < n ==> (s.tx.desc[i].ter <==> i == n - 1))
  }

  /** The references of the packet being built: a copy brings its own, any other gets one with its first
      descriptor. */
  function BuildingRefs(s: Sys): multiset<PbufId> {
    if s.out.Building? && (s.out.copied || |s.roles| > s.handed) then multiset{s.out.p.id} else multiset{}
  }

  ghost predicate HistoryInv(s: Sys)
    requires Ordered(s)
  {
    && (forall p :: p in s.sent ==> p.frags != [])
    && s.roles[..s.handed] == RolesOfAll(s.sent)
    && s.released == Lasts(s.roles[..s.reclaimed])
    && s.held == multiset(Lasts(s.roles[s.reclaimed..s.handed])) + BuildingRefs(s)
  }

  ghost predicate Inv(s: Sys) {
    && InRange(s.tx)
    && CountsInv(s)
    && OutInv(s)
    && SlotsInv(s)
    && HistoryInv(s)
  }

  ghost predicate Initial(s: Sys) {
    && InRange(s.tx) && s.tx.free == |s.tx.desc| && s.tx.fillIdx == s.tx.reclaimIdx == s.dma == 0
    && (forall i :: 0 <= i < |s.tx.desc| ==>
          var d := s.tx.desc[i];
          !d.own && !d.fs && !d.ls && !d.ic && (d.ter <==> i == |s.tx.desc| - 1))
    && s.out == Idle && s.rec == Resting
    && s.roles == [] && s.sent == [] && s.released == [] && s.held == multiset{}
    && s.handed == s.completed == s.reclaimed == 0
  }

  lemma InitialIsInv(s: Sys)
    requires Initial(s)
    ensures Inv(s)
  {
  }

  // --------------------------------------------------------------------------------------------
  // The slots: a step touches one place, and every other position in the window lies elsewhere

  lemma ClaimSlots(s: Sys)
    requires Inv(s) && Step(s, Claim) != s
    ensures SlotsInv(Step(s, Claim))
  {
    hide HistoryInv;
    hide NeedsCopy;
    hide Effective;
    var s', n, c := Step(s, Claim), |s.tx.desc|, |s.roles|;
    assert s.out.idx == c % n;
    assert s.roles == s'.roles[..c];
    FirstPlace(s);
    forall k | s'.reclaimed <= k < s'.reclaimed + n
      ensures SlotInv(s', k)
    {
      assert SlotInv(s, k);
      if k != c {
        OtherPlace(k, c, n);
      }
    }
  }

  /** The packet being built comes back to its first place only after going all the way round. */
  lemma FirstPlace(s: Sys)
    requires Inv(s) && s.out.Building? && s.out.done < |s.out.p.frags|
    ensures s.out.idx == s.out.fidx <==> s.out.done == 0
  {
    hide SlotsInv;
    hide HistoryInv;
    hide RolesOf;
    var n, first, done := |s.tx.desc|, s.handed, s.out.done;
    assert s.out.fidx == first % n && s.out.idx == (first + done) % n && done < n;
    hide Inv;
    if done != 0 {
      DistinctPlaces(first, first + done, n);
    }
  }

  lemma FinishSlots(s: Sys)
    requires Inv(s) && Step(s, Finish) != s
    ensures SlotsInv(Step(s, Finish))
  {
    hide HistoryInv;
    hide NeedsCopy;
    hide Effective;
    var s', n, c := Step(s, Finish), |s.tx.desc|, |s.roles| - 1;
    assert s.out.idx == c % n;
    assert s.roles[c] == RolesOf(s.out.p)[s.out.done] by {
      assert s.roles[s.handed..][s.out.done] == s.roles[c];
    }
    forall k | s'.reclaimed <= k < s'.reclaimed + n
      ensures SlotInv(s', k)
    {
      assert SlotInv(s, k);
      if k != c {
        OtherPlace(k, c, n);
      }
    }
  }

  lemma HandOverSlots(s: Sys)
    requires Inv(s) && Step(s, HandOver) != s
    ensures SlotsInv(Step(s, HandOver))
  {
    hide HistoryInv;
    hide NeedsCopy;
    hide Effective;
    var s', n, c := Step(s, HandOver), |s.tx.desc|, s.handed;
    forall k | s'.reclaimed <= k < s'.reclaimed + n
      ensures SlotInv(s', k)
    {
      assert SlotInv(s, k);
      if k != c {
        OtherPlace(k, c, n);
      }
    }
  }

  lemma CompleteSlots(s: Sys)
    requires Inv(s) && Step(s, Complete) != s
    ensures SlotsInv(Step(s, Complete)) && s.completed < s.handed
  {
    hide HistoryInv;
    hide NeedsCopy;
    hide Effective;
    var s', n, c := Step(s, Complete), |s.tx.desc|, s.completed;
    EngineOwns(s);
    forall k | s'.reclaimed <= k < s'.reclaimed + n
      ensures SlotInv(s', k)
    {
      assert SlotInv(s, k);
      if k != c {
        OtherPlace(k, c, n);
      }
    }
  }

  /** The engine has a descriptor to work on exactly when one that was handed over is not completed. */
  lemma EngineOwns(s: Sys)
    requires Inv(s)
    ensures s.dma < |s.tx.desc|
    ensures s.tx.desc[s.dma].own <==> s.completed < s.handed
  {
    var n := |s.tx.desc|;
    if s.completed < s.reclaimed + n {
      assert SlotInv(s, s.completed);
    } else {
      SamePlace(s.reclaimed, n);
      assert SlotInv(s, s.reclaimed);
    }
  }

  lemma ReclaimSlots(s: Sys)
    requires Inv(s) && Step(s, ReclaimNext) != s
    ensures SlotsInv(Step(s, ReclaimNext)) && s.reclaimed < s.completed
  {
    hide HistoryInv;
    hide NeedsCopy;
    hide Effective;
    var s', n, c := Step(s, ReclaimNext), |s.tx.desc|, s.reclaimed;
    assert SlotInv(s, c);
    forall k | s'.reclaimed <= k < s'.reclaimed + n
      ensures SlotInv(s', k)
    {
      if k != c + n {
        assert SlotInv(s, k);
        OtherPlace(k, c, n);
      } else {
        SamePlace(c, n);
      }
    }
  }

  // --------------------------------------------------------------------------------------------
  // The counts and the packet being built

  lemma BeginCounts(s: Sys, a: Action)
    requires Inv(s) && a.BeginOutput?
    ensures CountsInv(Step(s, a)) && OutInv(Step(s, a))
  {
    hide HistoryInv;
    hide SlotsInv;
    hide NeedsCopy;
    hide Chain;
    var s' := Step(s, a);
    if s' != s {
      assert s'.roles[s'.handed..] == [];
    }
  }

  lemma BeginSlots(s: Sys, a: Action)
    requires Inv(s) && a.BeginOutput?
    ensures SlotsInv(Step(s, a))
  {
    hide HistoryInv;
    hide NeedsCopy;
    hide Effective;
    var s' := Step(s, a);
    if s' != s {
      forall k | s'.reclaimed <= k < s'.reclaimed + |s.tx.desc|
        ensures SlotInv(s', k)
      {
        assert SlotInv(s, k);
      }
    }
  }

  lemma ClaimCounts(s: Sys)
    requires Inv(s) && Step(s, Claim) != s
    ensures CountsInv(Step(s, Claim)) && OutInv(Step(s, Claim))
  {
    hide HistoryInv;
    hide SlotsInv;
    hide NeedsCopy;
    hide Effective;
    var s', roles := Step(s, Claim), RolesOf(s.out.p);
    var m := |s.roles| - s.handed;
    assert s'.roles[s.handed..] == s.roles[s.handed..] + [roles[m]];
    assert roles[..m + 1] == roles[..m] + [roles[m]];
  }

  lemma FinishCounts(s: Sys)
    requires Inv(s) && Step(s, Finish) != s
    ensures CountsInv(Step(s, Finish)) && OutInv(Step(s, Finish))
  {
    hide HistoryInv;
    hide SlotsInv;
    hide NeedsCopy;
    hide Effective;
    assert s.out.idx == (s.handed + s.out.done) % |s.tx.desc|;
    NextPlace(s.handed + s.out.done, |s.tx.desc|);
  }

  lemma HandOverCounts(s: Sys)
    requires Inv(s) && Step(s, HandOver) != s
    ensures CountsInv(Step(s, HandOver)) && OutInv(Step(s, HandOver))
  {
    hide HistoryInv;
    hide SlotsInv;
    hide NeedsCopy;
    hide Effective;
  }

  lemma CompleteCounts(s: Sys)
    requires Inv(s) && Step(s, Complete) != s
    ensures CountsInv(Step(s, Complete)) && OutInv(Step(s, Complete))
  {
    EngineOwns(s);
    var s' := Step(s, Complete);
    CompleteInCounts(s, s');
  }

  lemma CompleteInCounts(s: Sys, s': Sys)
    requires InRange(s.tx) && CountsInv(s) && OutInv(s) && s.completed < s.handed
    requires s' == s.(tx := s.tx.(desc := s'.tx.desc), dma := Next(s.tx, s.dma), completed := s.completed + 1)
    requires |s'.tx.desc| == |s.tx.desc| == |s'.tx.pbufs|
    ensures CountsInv(s') && OutInv(s')
  {
    hide RolesOf;
    NextPlace(s.completed, |s.tx.desc|);
  }

  lemma ReclaimCounts(s: Sys)
    requires Inv(s) && Step(s, ReclaimNext) != s
    ensures CountsInv(Step(s, ReclaimNext)) && OutInv(Step(s, ReclaimNext))
  {
    hide HistoryInv;
    hide NeedsCopy;
    hide Effective;
    assert SlotInv(s, s.reclaimed);
    NextPlace(s.reclaimed, |s.tx.desc|);
  }

  // --------------------------------------------------------------------------------------------
  // The references

  lemma {:induction false} LastsConcat(a: seq<Role>, b: seq<Role>)
    ensures Lasts(a + b) == Lasts(a) + Lasts(b)
    decreases |b|
  {
    if b == [] {
      assert a + b == a;
    } else {
      assert (a + b)[..|a + b| - 1] == a + b[..|b| - 1];
      LastsConcat(a, b[..|b| - 1]);
    }
  }

  lemma {:induction false} NoLasts(roles: seq<Role>)
    requires forall i :: 0 <= i < |roles| ==> !roles[i].last
    ensures Lasts(roles) == []
    decreases |roles|
  {
    if roles != [] {
      NoLasts(roles[..|roles| - 1]);
    }
  }

  lemma LastsOfPacket(p: Packet)
    requires p.frags != []
    ensures Lasts(RolesOf(p)) == [p.id]
  {
    NoLasts(RolesOf(p)[..|p.frags| - 1]);
  }

  lemma BeginHistory(s: Sys, a: Action)
    requires Inv(s) && a.BeginOutput?
    ensures Ordered(Step(s, a)) && HistoryInv(Step(s, a))
  {
    BeginCounts(s, a);
  }

  lemma ClaimEffect(s: Sys)
    requires Inv(s) && Step(s, Claim) != s
    ensures
      var s' := Step(s, Claim);
      && s.out.Building? && s'.out == s.out.(half := true) && |s.roles| < |RolesOf(s.out.p)| + s.handed
      && (exists role :: s' == s.(tx := s'.tx, out := s'.out, roles := s.roles + [role], held := s'.held))
      && s'.held == s.held + (if |s.roles| == s.handed && !s.out.copied then multiset{s.out.p.id} else multiset{})
  {
    hide SlotsInv;
    hide HistoryInv;
    hide NeedsCopy;
    hide Effective;
    FirstPlace(s);
    var s' := Step(s, Claim);
    assert s' == s.(tx := s'.tx, out := s'.out, roles := s.roles + [RolesOf(s.out.p)[s.out.done]], held := s'.held);
  }

  lemma ClaimHistory(s: Sys)
    requires Inv(s) && Step(s, Claim) != s
    ensures Ordered(Step(s, Claim)) && HistoryInv(Step(s, Claim))
  {
    ClaimEffect(s);
    var s' := Step(s, Claim);
    var role :| s' == s.(tx := s'.tx, out := s'.out, roles := s.roles + [role], held := s'.held);
    ClaimInHistory(s, s', role);
  }

  lemma ClaimInHistory(s: Sys, s': Sys, role: Role)
    requires Ordered(s) && HistoryInv(s) && s.out.Building? && s'.out == s.out.(half := true)
    requires s' == s.(tx := s'.tx, out := s'.out, roles := s.roles + [role], held := s'.held)
    requires s'.held == s.held + (if |s.roles| == s.handed && !s.out.copied then multiset{s.out.p.id} else multiset{})
    ensures Ordered(s') && HistoryInv(s')
  {
    hide Lasts;
    hide RolesOfAll;
    assert s'.roles[..s.handed] == s.roles[..s.handed];
    assert s'.roles[..s.reclaimed] == s.roles[..s.reclaimed];
    assert s'.roles[s.reclaimed..s.handed] == s.roles[s.reclaimed..s.handed];
  }

  lemma HandOverLists(roles: seq<Role>, r: nat, h: nat, p: Packet)
    requires r <= h <= |roles| && roles[h..] == RolesOf(p) && p.frags != []
    ensures roles == roles[..h] + RolesOf(p)
    ensures Lasts(roles[r..]) == Lasts(roles[r..h]) + [p.id]
  {
    assert roles[r..] == roles[r..h] + roles[h..];
    LastsConcat(roles[r..h], roles[h..]);
    LastsOfPacket(p);
  }

  lemma RolesOfOneMore(ps: seq<Packet>, p: Packet)
    ensures RolesOfAll(ps + [p]) == RolesOfAll(ps) + RolesOf(p)
  {
    assert (ps + [p])[..|ps|] == ps;
  }

  lemma HandOverEffect(s: Sys)
    requires Inv(s) && Step(s, HandOver) != s
    ensures
      var s', p := Step(s, HandOver), s.out.p;
      && Ordered(s) && s.out.Building? && p.frags != [] && s.roles[s.handed..] == RolesOf(p)
      && BuildingRefs(s) == multiset{p.id} && BuildingRefs(s') == multiset{}
      && s' == s.(tx := s'.tx, out := Idle, handed := |s.roles|, sent := s.sent + [p])
  {
    hide SlotsInv;
    hide HistoryInv;
    hide NeedsCopy;
    hide Effective;
    assert RolesOf(s.out.p)[..|s.out.p.frags|] == RolesOf(s.out.p);
  }

  lemma HandOverHistory(s: Sys)
    requires Inv(s) && Step(s, HandOver) != s
    ensures Ordered(Step(s, HandOver)) && HistoryInv(Step(s, HandOver))
  {
    HandOverEffect(s);
    HandOverInHistory(s, Step(s, HandOver), s.out.p);
  }

  lemma HandOverInHistory(s: Sys, s': Sys, p: Packet)
    requires Ordered(s) && HistoryInv(s) && p.frags != [] && s.roles[s.handed..] == RolesOf(p)
    requires BuildingRefs(s) == multiset{p.id} && BuildingRefs(s') == multiset{}
    requires s' == s.(tx := s'.tx, out := Idle, handed := |s.roles|, sent := s.sent + [p])
    ensures Ordered(s') && HistoryInv(s')
  {
    hide RolesOf;
    hide RolesOfAll;
    hide Lasts;
    hide BuildingRefs;
    var r, h, roles := s.reclaimed, s.handed, s.roles;
    HandOverLists(roles, r, h, p);
    RolesOfOneMore(s.sent, p);
    assert roles[..|roles|] == roles && roles[r..|roles|] == roles[r..];
    MovedIntoFlight(Lasts(roles[r..h]), p.id);
  }

  lemma MovedIntoFlight(a: seq<PbufId>, id: PbufId)
    ensures multiset(a) + multiset{id} == multiset(a + [id]) + multiset{}
  {
  }

  /** The packet, if any, that ends with this descriptor. */
  function Last(role: Role): seq<PbufId> {
    if role.last then [role.id] else []
  }

  lemma ReclaimLists(roles: seq<Role>, c: nat, h: nat)
    requires c < h <= |roles|
    ensures Lasts(roles[..c + 1]) == Lasts(roles[..c]) + Last(roles[c])
    ensures Lasts(roles[c..h]) == Last(roles[c]) + Lasts(roles[c + 1..h])
  {
    assert roles[..c + 1][..c] == roles[..c];
    assert roles[c..h] == [roles[c]] + roles[c + 1..h];
    LastsConcat([roles[c]], roles[c + 1..h]);
    assert [roles[c]][..0] == [];
  }

  lemma SavedIsLast(s: Sys)
    requires Inv(s) && Step(s, ReclaimNext) != s
    ensures s.reclaimed < s.completed <= s.handed <= |s.roles| && Saved(s.tx, s.rec.ridx) == Last(s.roles[s.reclaimed])
  {
    hide HistoryInv;
    ReclaimSlots(s);
    assert SlotInv(s, s.reclaimed);
  }

  lemma DroppedFirst(a: seq<PbufId>, b: seq<PbufId>)
    ensures Dropped(multiset(a + b) + multiset{}, a) == multiset(b) + multiset{}
  {
  }

  lemma ReclaimEffect(s: Sys)
    requires Inv(s) && Step(s, ReclaimNext) != s
    ensures
      var s' := Step(s, ReclaimNext);
      && s.reclaimed < s.completed && s.reclaimed < s.handed <= |s.roles|
      && BuildingRefs(s) == BuildingRefs(s') == multiset{}
      && s' == s.(tx := s'.tx, rec := s'.rec, reclaimed := s.reclaimed + 1,
                  held := Dropped(s.held, Last(s.roles[s.reclaimed])),
                  released := s.released + Last(s.roles[s.reclaimed]))
  {
    SavedIsLast(s);
    hide SlotsInv;
    hide HistoryInv;
    hide Last;
    hide Dropped;
    hide Saved;
    hide Reclaimed;
  }

  lemma ReclaimHistory(s: Sys)
    requires Inv(s) && Step(s, ReclaimNext) != s
    ensures Ordered(Step(s, ReclaimNext)) && HistoryInv(Step(s, ReclaimNext))
  {
    ReclaimEffect(s);
    ReclaimInHistory(s, Step(s, ReclaimNext));
  }

  lemma ReclaimInHistory(s: Sys, s': Sys)
    requires Ordered(s) && HistoryInv(s) && s.reclaimed < s.completed
    requires BuildingRefs(s) == BuildingRefs(s') == multiset{}
    requires
      s' == s.(tx := s'.tx, rec := s'.rec, reclaimed := s.reclaimed + 1,
               held := Dropped(s.held, Last(s.roles[s.reclaimed])),
               released := s.released + Last(s.roles[s.reclaimed]))
    ensures Ordered(s') && HistoryInv(s')
  {
    hide RolesOfAll;
    hide Lasts;
    hide Last;
    hide Dropped;
    hide BuildingRefs;
    var c := s.reclaimed;
    ReclaimLists(s.roles, c, s.handed);
    DroppedFirst(Last(s.roles[c]), Lasts(s.roles[c + 1..s.handed]));
  }

  // --------------------------------------------------------------------------------------------
  // Over every run

  lemma StepKeepsInv(s: Sys, a: Action)
    requires Inv(s)
    ensures Inv(Step(s, a))
  {
    if Step(s, a) != s {
      match a
      case BeginOutput(_, _) =>
        BeginCounts(s, a);
        BeginSlots(s, a);
        BeginHistory(s, a);
      case Claim =>
        ClaimCounts(s);
        ClaimSlots(s);
        ClaimHistory(s);
      case Finish =>
        FinishCounts(s);
        FinishSlots(s);
      case HandOver =>
        HandOverCounts(s);
        HandOverSlots(s);
        HandOverHistory(s);
      case Complete =>
        CompleteCounts(s);
        CompleteSlots(s);
      case ReclaimNext =>
        ReclaimCounts(s);
        ReclaimSlots(s);
        ReclaimHistory(s);
      case BeginReclaim =>
        ReclaimEdges(s, a);
      case EndReclaim =>
        ReclaimEdges(s, a);
    }
  }

  lemma ReclaimEdges(s: Sys, a: Action)
    requires Inv(s) && (a.BeginReclaim? || a.EndReclaim?)
    ensures Inv(Step(s, a))
  {
    hide NeedsCopy;
    hide Effective;
    hide RolesOfAll;
    hide Lasts;
    var s' := Step(s, a);
    forall k | s'.reclaimed <= k < s'.reclaimed + |s.tx.desc|
      ensures SlotInv(s', k)
    {
      assert SlotInv(s, k);
    }
  }

  lemma {:induction false} RunKeepsInv(s: Sys, actions: seq<Action>)
    requires Inv(s)
    ensures Inv(Run(s, actions))
    decreases |actions|
  {
    if actions != [] {
      StepKeepsInv(s, actions[0]);
      RunKeepsInv(Step(s, actions[0]), actions[1..]);
    }
  }

  // --------------------------------------------------------------------------------------------
  // What the invariant is for

  /** What was handed over and not yet completed is the engine's, and looks as its history says. */
  lemma HandedSlots(s: Sys, k: nat)
    requires Inv(s) && s.completed <= k < s.handed
    ensures
      var d := s.tx.desc[k % |s.tx.desc|];
      d.own && d.frag == s.roles[k].frag && d.fs == s.roles[k].first && d.ls == s.roles[k].last
  {
    hide HistoryInv;
    assert SlotInv(s, k);
  }

  lemma HandedEndsWithLast(s: Sys)
    requires Inv(s) && s.handed > 0
    ensures s.roles[s.handed - 1].last
  {
    hide SlotsInv;
    EndsWithLast(s.sent);
    assert s.roles[s.handed - 1] == s.roles[..s.handed][s.handed - 1];
  }

  /** The engine never owns a partly built chain.  What it owns from where it stands on is exactly what
      was handed over and not yet completed, the roles of whole packets - first only on a packet's first
      descriptor, last only on its last - and while a chain is being built the engine's way to it is
      barred by the chain's first descriptor. */
  lemma EngineSeesWholeChains(s: Sys)
    requires Inv(s)
    ensures s.tx.desc[s.dma].own <==> s.completed < s.handed
    ensures s.roles[..s.handed] == RolesOfAll(s.sent)
    ensures s.handed > 0 ==> s.roles[s.handed - 1].last
    ensures s.out.Building? ==> !s.tx.desc[s.handed % |s.tx.desc|].own
  {
    hide RolesOfAll;
    hide Lasts;
    EngineOwns(s);
    if s.handed > 0 {
      HandedEndsWithLast(s);
    }
    if s.out.Building? {
      assert SlotInv(s, s.handed);
    }
  }

  function Completions(m: nat): (r: seq<Action>)
    ensures |r| == m
  {
    seq(m, i => Complete)
  }

  /** However long the engine is left to itself, it completes what was handed over and stops there. */
  lemma {:induction false} EngineStopsAtHanded(s: Sys, m: nat)
    requires Inv(s)
    ensures
      var s' := Run(s, Completions(m));
      && s'.completed == (if s.completed + m < s.handed then s.completed + m else s.handed)
      && s'.handed == s.handed && s'.roles == s.roles && s'.sent == s.sent && s'.out == s.out
    decreases m
  {
    hide Inv;
    HandedOrder(s);
    if m > 0 {
      assert Completions(m)[1..] == Completions(m - 1);
      EngineOwns(s);
      StepKeepsInv(s, Complete);
      EngineStopsAtHanded(Step(s, Complete), m - 1);
    }
  }

  lemma HandedOrder(s: Sys)
    requires Inv(s)
    ensures InRange(s.tx) && s.completed <= s.handed <= |s.roles|
  {
  }

  /** The engine never gets into a partly built chain: from every reachable state, left to itself for
      however long, what it has completed are the descriptors of whole packets handed over, in order. */
  lemma NoPartialChainIsSent(s: Sys, actions: seq<Action>, m: nat)
    requires Initial(s) && m >= |Run(s, actions).roles|
    ensures
      var s1 := Run(s, actions);
      var s' := Run(s1, Completions(m));
      && s'.completed <= |s'.roles|
      && s'.roles[..s'.completed] == RolesOfAll(s1.sent)
      && InOrder(s'.roles[..s'.completed], s1.sent)
      && s'.out == s1.out
  {
    hide Inv;
    hide RolesOfAll;
    hide InOrder;
    InitialIsInv(s);
    RunKeepsInv(s, actions);
    var s1 := Run(s, actions);
    HandedOrder(s1);
    EngineStopsAtHanded(s1, m);
    HandedAreWhole(s1);
    RolesAreInOrder(s1.sent);
  }

  /** The roles are those of the packets' buffers, packet by packet and buffer by buffer. */
  ghost predicate InOrder(roles: seq<Role>, ps: seq<Packet>) {
    && |roles| == Before(ps, |ps|)
    && forall i, j :: 0 <= i < |ps| && 0 <= j < |ps[i].frags| ==>
         var p, k := ps[i], Before(ps, i) + j;
         k < |roles| && roles[k] == Role(p.id, p.frags[j], j == 0, j == |p.frags| - 1)
  }

  lemma RolesAreInOrder(ps: seq<Packet>)
    ensures InOrder(RolesOfAll(ps), ps)
  {
    RolesCount(ps, |ps|);
    assert ps[..|ps|] == ps;
    forall i, j | 0 <= i < |ps| && 0 <= j < |ps[i].frags|
      ensures
        var p, k := ps[i], Before(ps, i) + j;
        k < |RolesOfAll(ps)| && RolesOfAll(ps)[k] == Role(p.id, p.frags[j], j == 0, j == |p.frags| - 1)
    {
      RolesInOrder(ps, i, j);
    }
  }

  /** How many descriptors the packets before the i-th take. */
  function Before(ps: seq<Packet>, i: nat): nat
    requires i <= |ps|
  {
    if i == 0 then 0 else Before(ps, i - 1) + |ps[i - 1].frags|
  }

  lemma {:induction false} RolesCount(ps: seq<Packet>, i: nat)
    requires i <= |ps|
    ensures |RolesOfAll(ps[..i])| == Before(ps, i)
    decreases i
  {
    if i > 0 {
      assert ps[..i][..i - 1] == ps[..i - 1];
      RolesCount(ps, i - 1);
    }
  }

  /** The j-th descriptor of the i-th packet. */
  lemma {:induction false} RolesInOrder(ps: seq<Packet>, i: nat, j: nat)
    requires i < |ps| && j < |ps[i].frags|
    ensures
      var p, k := ps[i], Before(ps, i) + j;
      k < |RolesOfAll(ps)| && RolesOfAll(ps)[k] == Role(p.id, p.frags[j], j == 0, j == |p.frags| - 1)
    decreases |ps|
  {
    var last := |ps| - 1;
    if i < last {
      RolesInOrder(ps[..last], i, j);
      SameBefore(ps, last, i);
    } else {
      RolesCount(ps, last);
    }
  }

  lemma {:induction false} SameBefore(ps: seq<Packet>, n: nat, i: nat)
    requires i <= n <= |ps|
    ensures Before(ps[..n], i) == Before(ps, i)
    decreases i
  {
    if i > 0 {
      SameBefore(ps, n, i - 1);
    }
  }

  lemma HandedAreWhole(s: Sys)
    requires Inv(s)
    ensures s.handed <= |s.roles| && s.roles[..s.handed] == RolesOfAll(s.sent)
  {
  }

  lemma EndsWithLast(ps: seq<Packet>)
    requires RolesOfAll(ps) != [] && forall p :: p in ps ==> p.frags != []
    ensures RolesOfAll(ps)[|RolesOfAll(ps)| - 1].last
  {
    var p := ps[|ps| - 1];
    assert p in ps;
    assert RolesOf(p)[|p.frags| - 1].last;
  }

  /** With the mutex free, the descriptors in flight are the cyclic interval from the reclaim index to the
      fill index, N less the free count of them; the others are idle, and only the last descriptor of
      the ring carries the end-of-ring flag. */
  lemma InFlightIsInterval(s: Sys, j: nat)
    requires Inv(s) && s.out.Idle? && s.rec.Resting? && j < |s.tx.desc|
    ensures
      var n := |s.tx.desc|;
      var i := (s.tx.reclaimIdx + j) % n;
      var d := s.tx.desc[i];
      && (s.tx.reclaimIdx + (n - s.tx.free)) % n == s.tx.fillIdx
      && (j < n - s.tx.free ==> d.frag == s.roles[s.reclaimed + j].frag && d.own == (s.completed <= s.reclaimed + j))
      && (j >= n - s.tx.free ==> !d.own && !d.fs && !d.ls)
      && (d.ter <==> i == n - 1)
  {
    hide HistoryInv;
    var n := |s.tx.desc|;
    QuietSlot(s, s.reclaimed + j);
    hide SlotsInv;
    ModOfSum(s.reclaimed, j, n);
    ModOfSum(s.reclaimed, n - s.tx.free, n);
  }

  lemma QuietSlot(s: Sys, k: nat)
    requires Inv(s) && s.out.Idle? && s.rec.Resting? && s.reclaimed <= k < s.reclaimed + |s.tx.desc|
    ensures
      var n := |s.tx.desc|;
      var d := s.tx.desc[k % n];
      && (k < |s.roles| ==> d.frag == s.roles[k].frag && d.own == (s.completed <= k))
      && (k >= |s.roles| ==> !d.own && !d.fs && !d.ls)
      && (d.ter <==> k % n == n - 1)
  {
    hide HistoryInv;
    assert SlotInv(s, k);
  }

  function Ids(ps: seq<Packet>): (r: seq<PbufId>)
    ensures |r| == |ps|
  {
    if ps == [] then [] else Ids(ps[..|ps| - 1]) + [ps[|ps| - 1].id]
  }

  lemma {:induction false} LastsOfAll(ps: seq<Packet>)
    requires forall p :: p in ps ==> p.frags != []
    ensures Lasts(RolesOfAll(ps)) == Ids(ps)
    decreases |ps|
  {
    if ps != [] {
      var p := ps[|ps| - 1];
      assert p in ps;
      LastsOfAll(ps[..|ps| - 1]);
      LastsConcat(RolesOfAll(ps[..|ps| - 1]), RolesOf(p));
      LastsOfPacket(p);
    }
  }

  lemma ReferencesOfInv(s: Sys)
    requires Inv(s)
    ensures s.released <= Ids(s.sent)
    ensures s.held == multiset(Ids(s.sent)[|s.released|..]) + BuildingRefs(s)
  {
    hide SlotsInv;
    hide OutInv;
    hide RolesOf;
    hide RolesOfAll;
    hide Lasts;
    hide Ids;
    hide BuildingRefs;
    var r, h := s.reclaimed, s.handed;
    LastsOfAll(s.sent);
    assert s.roles[..h] == s.roles[..r] + s.roles[r..h];
    LastsConcat(s.roles[..r], s.roles[r..h]);
    assert Ids(s.sent)[|s.released|..] == Lasts(s.roles[r..h]);
  }

  /** References over every run: the buffers released are those of the first packets sent, in the order
      of sending; the driver holds one reference for each of the others, and one for the packet it is
      building once that has a descriptor or is a copy; and nothing is released before the engine is
      done with every descriptor up to and including the packet's last. */
  lemma ReferencesAreConserved(s: Sys, actions: seq<Action>)
    requires Initial(s)
    ensures
      var s' := Run(s, actions);
      && s'.released <= Ids(s'.sent)
      && s'.held == multiset(Ids(s'.sent)[|s'.released|..]) + BuildingRefs(s')
      && s'.reclaimed <= s'.completed <= |s'.roles|
      && s'.released == Lasts(s'.roles[..s'.reclaimed])
  {
    InitialIsInv(s);
    RunKeepsInv(s, actions);
    hide SlotsInv;
    hide OutInv;
    hide Run;
    ReferencesOfInv(Run(s, actions));
  }

  // --------------------------------------------------------------------------------------------
  // The driver's routines, undisturbed

  function Turns(n: nat): seq<Action> {
    if n == 0 then [] else [Claim, Finish] + Turns(n - 1)
  }

  /** Between two turns of the loop, with room for the rest of the packet. */
  predicate FillReady(s: Sys) {
    && InRange(s.tx) && s.out.Building? && !s.out.half && s.out.done <= |s.out.p.frags|
    && s.out.idx == After(|s.tx.desc|, s.out.fidx, s.out.done) < |s.tx.desc| && s.out.fidx < |s.tx.desc|
    && 1 <= |s.out.p.frags| <= |s.tx.desc| && |s.out.p.frags| - s.out.done <= s.tx.free
  }

  /** The reference that the rest of the loop adds: one, with the first descriptor of what is not a copy. */
  function AddedRef(s: Sys): multiset<PbufId>
    requires s.out.Building?
  {
    if s.out.copied || s.out.done > 0 then multiset{} else multiset{s.out.p.id}
  }

  /** What a step of the loop leaves alone. */
  predicate SameElsewhere(s: Sys, s': Sys) {
    s'.rec == s.rec && s'.sent == s.sent && s'.released == s.released
  }

  /** What the rest of the loop makes of the ring, and of the state by claims and finishes. */
  function Filled(s: Sys): (Tx, nat)
    requires FillReady(s)
  {
    Fill(s.tx, s.out.fidx, s.out.idx, s.out.p.id, s.out.p.frags[s.out.done..])
  }

  function AfterTurns(s: Sys): Sys
    requires FillReady(s)
  {
    Run(s, Turns(|s.out.p.frags| - s.out.done))
  }

  lemma NextTurn(s: Sys)
    requires FillReady(s) && s.out.done < |s.out.p.frags|
    ensures
      var s2 := Step(Step(s, Claim), Finish);
      && FillReady(s2) && SameElsewhere(s, s2) && s2.out == s.out.(done := s.out.done + 1, idx := s2.out.idx)
      && s2.held == s.held + AddedRef(s)
      && Filled(s2) == Filled(s) && AfterTurns(s2) == AfterTurns(s)
  {
    hide Fill;
    hide Run;
    FillTurn(s);
    TurnsFirst(s, |s.out.p.frags| - s.out.done - 1);
    FilledByTurn(s, Step(Step(s, Claim), Finish));
  }

  lemma FilledByTurn(s: Sys, s2: Sys)
    requires FillReady(s) && s.out.done < |s.out.p.frags|
    requires s2.out == s.out.(done := s.out.done + 1, idx := Next(s.tx, s.out.idx))
    requires
      var p, done, idx := s.out.p, s.out.done, s.out.idx;
      s2.tx == Finished(Claimed(s.tx, idx, s.out.fidx, p.frags[done]), idx, p.id, done + 1 == |p.frags|)
    ensures FillReady(s2) && Filled(s2) == Filled(s)
  {
    FillFirst(s.tx, s2.tx, s.out.fidx, s.out.idx, s.out.p, s.out.done);
  }

  lemma NoTurn(s: Sys)
    requires FillReady(s) && s.out.done == |s.out.p.frags|
    ensures Filled(s) == (s.tx, s.out.idx) && AfterTurns(s) == s
  {
    assert s.out.p.frags[s.out.done..] == [];
  }

  /** Claims and finishes add up to the driver's loop. */
  lemma {:induction false} FillAlone(s: Sys)
    requires FillReady(s)
    ensures
      var s', (t, i) := AfterTurns(s), Filled(s);
      && s'.tx == t && s'.out == s.out.(done := |s.out.p.frags|, idx := i)
      && SameElsewhere(s, s') && s'.held == s.held + AddedRef(s)
    decreases |s.out.p.frags| - s.out.done
  {
    hide Filled;
    hide AfterTurns;
    hide Step;
    if s.out.done == |s.out.p.frags| {
      NoTurn(s);
    } else {
      NextTurn(s);
      FillAlone(Step(Step(s, Claim), Finish));
    }
  }

  lemma TurnsFirst(s: Sys, n: nat)
    requires InRange(s.tx)
    ensures Run(s, Turns(n + 1)) == Run(Step(Step(s, Claim), Finish), Turns(n))
  {
    hide Step;
    var t := Turns(n + 1);
    assert t[1..] == [Finish] + Turns(n);
    assert t[1..][1..] == Turns(n);
  }

  lemma FillTurn(s: Sys)
    requires InRange(s.tx) && s.out.Building? && !s.out.half && s.out.done < |s.out.p.frags|
    requires s.out.idx < |s.tx.desc| && s.tx.free > 0
    ensures
      var p, done, idx := s.out.p, s.out.done, s.out.idx;
      var s2 := Step(Step(s, Claim), Finish);
      && s2.tx == Finished(Claimed(s.tx, idx, s.out.fidx, p.frags[done]), idx, p.id, done + 1 == |p.frags|)
      && s2.tx.free == s.tx.free - 1 && |s2.tx.desc| == |s.tx.desc|
      && s2.out == s.out.(done := done + 1, idx := Next(s.tx, idx)) && SameElsewhere(s, s2)
      && s2.held == s.held + (if idx == s.out.fidx && !s.out.copied then multiset{p.id} else multiset{})
  {
  }

  lemma {:induction false} RunConcat(s: Sys, a: seq<Action>, b: seq<Action>)
    requires InRange(s.tx)
    ensures InRange(Run(s, a).tx) && Run(s, a + b) == Run(Run(s, a), b)
    decreases |a|
  {
    if a == [] {
      assert a + b == b;
    } else {
      assert (a + b)[1..] == a[1..] + b;
      RunConcat(Step(s, a[0]), a[1..], b);
    }
  }

  lemma BeginAlone(s: Sys, sendp: Packet, alloc: Option<(PbufId, nat)>, p: Packet)
    requires InRange(s.tx) && s.out == Idle && s.rec == Resting && sendp.frags != []
    requires NeedsCopy(sendp) ==> alloc.Some?
    requires p == if NeedsCopy(sendp) then Effective(sendp, alloc.value.1, alloc.value.0) else sendp
    requires |p.frags| <= s.tx.free
    ensures
      var s1 := Step(s, BeginOutput(sendp, alloc));
      && s1.tx == s.tx && s1.out == Building(p, NeedsCopy(sendp), s.tx.fillIdx, s.tx.fillIdx, 0, false)
      && SameElsewhere(s, s1)
      && s1.held == s.held + (if NeedsCopy(sendp) then multiset{p.id} else multiset{})
  {
  }

  /** With the engine and the cleanup task at rest, the steps of an output add up to what
      `Emac.LowLevelOutput` does to the ring and to the references. */
  lemma OutputAlone(s: Sys, sendp: Packet, alloc: Option<(PbufId, nat)>, p: Packet)
    requires InRange(s.tx) && s.out == Idle && s.rec == Resting && sendp.frags != []
    requires NeedsCopy(sendp) ==> alloc.Some?
    requires p == if NeedsCopy(sendp) then Effective(sendp, alloc.value.1, alloc.value.0) else sendp
    requires |p.frags| <= s.tx.free
    ensures
      var s' := Run(s, [BeginOutput(sendp, alloc)] + Turns(|p.frags|) + [HandOver]);
      && s'.tx == Output(s.tx, p) && s'.out == Idle && s'.rec == Resting
      && s'.held == s.held + multiset{p.id} && s'.released == s.released && s'.sent == s.sent + [p]
  {
    var s1 := Step(s, BeginOutput(sendp, alloc));
    BeginAlone(s, sendp, alloc, p);
    RunFirst(s, BeginOutput(sendp, alloc), Turns(|p.frags|) + [HandOver]);
    assert [BeginOutput(sendp, alloc)] + (Turns(|p.frags|) + [HandOver])
        == [BeginOutput(sendp, alloc)] + Turns(|p.frags|) + [HandOver];
    hide Run;
    hide Step;
    hide NeedsCopy;
    hide Effective;
    hide Output;
    BuiltAlone(s1);
  }

  lemma RunFirst(s: Sys, a: Action, rest: seq<Action>)
    requires InRange(s.tx)
    ensures Run(s, [a] + rest) == Run(Step(s, a), rest)
  {
    assert ([a] + rest)[1..] == rest;
  }

  /** ... from the moment that the packet and its room are there. */
  lemma BuiltAlone(s: Sys)
    requires FillReady(s) && s.out.done == 0 && s.out.fidx == s.tx.fillIdx
    ensures
      var s', p := Run(s, Turns(|s.out.p.frags|) + [HandOver]), s.out.p;
      && s'.tx == Output(s.tx, p) && s'.out == Idle && s'.rec == s.rec
      && s'.held == s.held + AddedRef(s) && s'.released == s.released && s'.sent == s.sent + [p]
  {
    var s1 := AfterTurns(s);
    RunConcat(s, Turns(|s.out.p.frags|), [HandOver]);
    FilledAlone(s);
    hide FillReady;
    hide Fill;
    HandOverAlone(s1);
    BuiltFrom(s, s1, Run(s1, [HandOver]));
  }

  lemma BuiltFrom(s: Sys, s1: Sys, s': Sys)
    requires InRange(s.tx) && s.out.Building? && |s.out.p.frags| <= s.tx.free
    requires s.out.fidx == s.tx.fillIdx
    requires
      var p := s.out.p;
      var (t, i) := Fill(s.tx, s.tx.fillIdx, s.tx.fillIdx, p.id, p.frags);
      s1.tx == t && s1.out == s.out.(done := |p.frags|, idx := i)
    requires
      InRange(s1.tx) && s1.out.fidx < |s1.tx.desc| && s1.out.idx < |s1.tx.desc|
      && s'.tx == Handed(s1.tx, s1.out.fidx, s1.out.idx)
    ensures s'.tx == Output(s.tx, s.out.p)
  {
    hide Fill;
    hide Handed;
  }

  lemma FilledAlone(s: Sys)
    requires FillReady(s) && s.out.done == 0 && s.out.fidx == s.tx.fillIdx
    ensures
      var s', p := AfterTurns(s), s.out.p;
      var (t, i) := Fill(s.tx, s.tx.fillIdx, s.tx.fillIdx, p.id, p.frags);
      && s'.tx == t && s'.out == s.out.(done := |p.frags|, idx := i) && i < |t.desc| == |s.tx.desc|
      && SameElsewhere(s, s') && s'.held == s.held + AddedRef(s)
  {
    hide Run;
    hide Fill;
    FillAlone(s);
    assert s.out.p.frags[0..] == s.out.p.frags;
  }

  lemma HandOverAlone(s: Sys)
    requires InRange(s.tx) && s.out.Building? && !s.out.half && s.out.done == |s.out.p.frags|
    requires s.out.idx < |s.tx.desc| && s.out.fidx < |s.tx.desc|
    ensures
      var s' := Run(s, [HandOver]);
      && s'.tx == Handed(s.tx, s.out.fidx, s.out.idx) && s'.out == Idle && s'.rec == s.rec
      && s'.held == s.held && s'.released == s.released && s'.sent == s.sent + [s.out.p]
  {
    assert [HandOver][1..] == [];
    assert Run(Step(s, HandOver), []) == Step(s, HandOver);
  }

  function Reclaims(m: nat): seq<Action> {
    if m == 0 then [EndReclaim] else [ReclaimNext] + Reclaims(m - 1)
  }

  /** Once the next descriptor cannot be taken back, the cleanup ends. */
  lemma {:induction false} StopReclaiming(s: Sys, m: nat)
    requires InRange(s.tx) && s.rec.Reclaiming? && s.rec.ridx < |s.tx.desc| && !CanReclaim(s.tx, s.rec.ridx)
    ensures Run(s, Reclaims(m)) == s.(tx := s.tx.(reclaimIdx := s.rec.ridx), rec := Resting)
    decreases m
  {
    if m == 0 {
      assert Reclaims(m)[1..] == [];
      assert Run(Step(s, EndReclaim), []) == Step(s, EndReclaim);
    } else {
      assert Reclaims(m)[1..] == Reclaims(m - 1);
      StopReclaiming(s, m - 1);
    }
  }

  predicate InCleanup(s: Sys) {
    InRange(s.tx) && s.rec.Reclaiming? && s.rec.ridx < |s.tx.desc|
  }

  lemma ReclaimOneAlone(s: Sys)
    requires InCleanup(s) && CanReclaim(s.tx, s.rec.ridx)
    ensures s.tx.free < |s.tx.desc|
    ensures
      var s1, ridx := Step(s, ReclaimNext), s.rec.ridx;
      && InCleanup(s1)
      && s1.tx == Reclaimed(s.tx, ridx) && s1.rec == Reclaiming(Next(s.tx, ridx)) && s1.out == s.out
      && s1.held == Dropped(s.held, Saved(s.tx, ridx)) && s1.released == s.released + Saved(s.tx, ridx)
      && s1.tx.free == s.tx.free + 1 && |s1.tx.desc| == |s.tx.desc| && Next(s.tx, ridx) < |s.tx.desc|
  {
  }

  /** The cleanup's effect on ring and references is that of `Emac.TxReclaim`. */
  predicate Cleaned(s: Sys, s': Sys)
    requires InCleanup(s)
  {
    var (t, ridx, freed) := Reclaim(s.tx, s.rec.ridx);
    && s'.tx == t.(reclaimIdx := ridx) && s'.rec == Resting && s'.out == s.out
    && s'.released == s.released + freed && s'.held == Dropped(s.held, freed)
  }

  lemma CleanedNothing(s: Sys)
    requires InCleanup(s) && !CanReclaim(s.tx, s.rec.ridx)
    ensures Cleaned(s, s.(tx := s.tx.(reclaimIdx := s.rec.ridx), rec := Resting))
  {
    DroppedTwice(s.held, [], []);
  }

  lemma CleanedFirst(s: Sys, s1: Sys, s': Sys)
    requires InCleanup(s) && InCleanup(s1) && CanReclaim(s.tx, s.rec.ridx) && Cleaned(s1, s')
    requires s1.tx == Reclaimed(s.tx, s.rec.ridx) && s1.rec.ridx == Next(s.tx, s.rec.ridx) && s1.out == s.out
    requires s1.held == Dropped(s.held, Saved(s.tx, s.rec.ridx))
    requires s1.released == s.released + Saved(s.tx, s.rec.ridx)
    ensures Cleaned(s, s')
  {
    hide Saved;
    hide Dropped;
    hide Reclaimed;
    var saved, freed := Saved(s.tx, s.rec.ridx), Reclaim(s1.tx, s1.rec.ridx).2;
    DroppedTwice(s.held, saved, freed);
    assert s.released + saved + freed == s.released + (saved + freed);
  }

  /** With the output caller and the engine at rest, the steps of a cleanup add up to what `Emac.TxReclaim`
      does to the ring and to the references. */
  lemma {:induction false} ReclaimAlone(s: Sys, m: nat)
    requires InCleanup(s) && m >= |s.tx.desc| - s.tx.free
    ensures Cleaned(s, Run(s, Reclaims(m)))
    decreases m
  {
    hide Cleaned;
    hide Run;
    hide Step;
    hide Reclaims;
    hide Reclaimed;
    if !CanReclaim(s.tx, s.rec.ridx) {
      StopReclaiming(s, m);
      CleanedNothing(s);
    } else {
      hide CanReclaim;
      ReclaimOneAlone(s);
      ReclaimAlone(Step(s, ReclaimNext), m - 1);
      ReclaimAlso(s, m - 1);
    }
  }

  lemma ReclaimAlso(s: Sys, m: nat)
    requires InCleanup(s) && CanReclaim(s.tx, s.rec.ridx)
    requires InCleanup(Step(s, ReclaimNext)) && Cleaned(Step(s, ReclaimNext), Run(Step(s, ReclaimNext), Reclaims(m)))
    ensures Cleaned(s, Run(s, Reclaims(m + 1)))
  {
    hide Cleaned;
    ReclaimOneAlone(s);
    RunFirst(s, ReclaimNext, Reclaims(m));
    hide Run;
    hide Step;
    CleanedFirst(s, Step(s, ReclaimNext), Run(Step(s, ReclaimNext), Reclaims(m)));
  }
}
