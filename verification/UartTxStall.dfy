/**
 Which transmit calls can go wrong.

 A call that begins with room in the ring for all of its bytes cannot: it is accepted whole, its bytes
 leave in order, and the transmitter asks for them.  For every other call there is a schedule of
 interrupts that leaves bytes in the ring which the transmitter will not ask for, and one that loses a
 byte.
 */
module UartTxStall {
  import opened Modular
  import opened Words
  import opened IpcRing
  import opened UartRing
  import opened UartTxInterleaving

  /** The call has returned, bytes wait in the ring, and the transmitter will not ask for them. */
  predicate Stalled(s: Sys)
    requires InRange(s.ring)
  {
    s.caller.Idle? && Queued(s.ring) != [] && !s.threEnabled
  }

  /** A schedule of the present call: its own steps and interrupts, or its own steps alone. */
  predicate Schedule(events: seq<Event>, alone: bool) {
    forall e :: e in events ==> !e.Begin? && (alone ==> e.Continue?)
  }

  /** Only another call gets the bytes of a stalled ring out. */
  lemma {:induction false} StallIsForGood(s: Sys, events: seq<Event>)
    requires Possible(s) && Stalled(s) && Schedule(events, false)
    ensures Run(s, events) == s
    decreases |events|
  {
    if events != [] {
      assert events[0] in events;
      assert Step(s, events[0]) == s;
      StallIsForGood(s, events[1..]);
    }
  }

  // --------------------------------------------------------------------------------------------
  // Calls that fit

  predicate Fits(s: Sys, data: seq<Byte>)
    requires InRange(s.ring)
  {
    |data| + |Queued(s.ring)| <= |s.ring.buf| - 1
  }

  predicate AllAccepted(calls: seq<Call>) {
    forall c :: c in calls ==> c.accepted == |c.data|
  }

  /** The present call has room for the rest of its bytes, and what is queued will be asked for. */
  ghost predicate Prompt(s: Sys) {
    && Possible(s) && s.caller != Refilling && s.caller != Storing
    && |s.data| - s.done + |Queued(s.ring)| <= |s.ring.buf| - 1
    && (s.caller.Idle? || s.caller.Waiting? ==> s.done == |s.data|)
    && (Queued(s.ring) != [] && s.caller != Queueing ==> s.threEnabled)
  }

  lemma ContinuedIsPrompt(s: Sys, thr: bool)
    requires Prompt(s)
    ensures Prompt(Continued(s, thr))
    ensures AllAccepted(s.calls) ==> AllAccepted(Continued(s, thr).calls)
  {
    hide Queued;
    hide Full;
    FullByQueued(s.ring);
    EmptyByQueued(s.ring);
    if s.done < |s.data| {
      PutByteAppends(s.ring, s.data[s.done]);
    }
  }

  lemma StepIsPrompt(s: Sys, e: Event)
    requires Prompt(s) && (e.Begin? && s.caller.Idle? ==> Fits(s, e.data))
    ensures Prompt(Step(s, e)) && !Spoils(s, e)
    ensures AllAccepted(s.calls) ==> AllAccepted(Step(s, e).calls)
  {
    hide Queued;
    match e {
      case Begin(data) =>
      case Continue(thr) => ContinuedIsPrompt(s, thr);
      case Interrupt(ready) =>
        EmptyByQueued(s.ring);
        DrainedMoves(s, ready);
    }
  }

  /** Every call begins with room in the ring for all of its bytes. */
  predicate AllFit(s: Sys, events: seq<Event>)
    requires Possible(s)
    decreases |events|
  {
    events == [] ||
    ((events[0].Begin? && s.caller.Idle? ==> Fits(s, events[0].data)) && AllFit(Step(s, events[0]), events[1..]))
  }

  lemma {:induction false} RunIsPrompt(s: Sys, events: seq<Event>)
    requires Prompt(s) && AllFit(s, events)
    ensures Prompt(Run(s, events)) && Unspoilt(s, events)
    ensures AllAccepted(s.calls) ==> AllAccepted(Run(s, events).calls)
    decreases |events|
  {
    hide Fits;
    hide Queued;
    hide Spoils;
    hide Step;
    if events != [] {
      StepIsPrompt(s, events[0]);
      RunIsPrompt(Step(s, events[0]), events[1..]);
    }
  }

  /** Calls that begin with room for all of their bytes, however many and whatever the interrupts, are
      all accepted whole, never have a byte spoilt, and never leave a stalled ring. */
  lemma FittingCallsNeverStall(s: Sys, events: seq<Event>)
    requires Initial(s) && AllFit(s, events)
    ensures
      var s' := Run(s, events);
      && AllAccepted(s'.calls)
      && Unspoilt(s, events)
      && !Stalled(s')
      && (s'.caller.Idle? ==> Bounded(s'.calls) && s'.sent + Queued(s'.ring) == Accepted(s'.calls))
  {
    hide Queued;
    EmptyByQueued(s.ring);
    RunIsPrompt(s, events);
    SentAndQueuedAreAccepted(s, events);
  }

  // --------------------------------------------------------------------------------------------
  // Building schedules

  ghost predicate Reaches(s: Sys, s': Sys, alone: bool)
    requires Possible(s)
  {
    exists events :: Schedule(events, alone) && Run(s, events) == s'
  }

  lemma ReachesItself(s: Sys, alone: bool)
    requires Possible(s)
    ensures Reaches(s, s, alone)
  {
    assert Schedule([], alone) && Run(s, []) == s;
  }

  lemma ThenStep(s: Sys, e: Event, s': Sys, alone: bool)
    requires Possible(s) && !e.Begin? && (alone ==> e.Continue?) && Reaches(Step(s, e), s', alone)
    ensures Reaches(s, s', alone)
  {
    var events :| Schedule(events, alone) && Run(Step(s, e), events) == s';
    var all := [e] + events;
    assert all[1..] == events;
    assert Schedule(all, alone) && Run(s, all) == s';
  }

  lemma {:induction false} RunConcat(s: Sys, a: seq<Event>, b: seq<Event>)
    requires Possible(s)
    ensures Run(s, a + b) == Run(Run(s, a), b)
    decreases |a|
  {
    hide Step;
    if a == [] {
      assert a + b == b;
    } else {
      assert (a + b)[1..] == a[1..] + b;
      RunConcat(Step(s, a[0]), a[1..], b);
    }
  }

  lemma ThenReaches(s: Sys, s1: Sys, s': Sys, alone: bool)
    requires Possible(s) && Possible(s1) && Reaches(s, s1, alone) && Reaches(s1, s', alone)
    ensures Reaches(s, s', alone)
  {
    var a :| Schedule(a, alone) && Run(s, a) == s1;
    var b :| Schedule(b, alone) && Run(s1, b) == s';
    RunConcat(s, a, b);
    assert Schedule(a + b, alone) && Run(s, a + b) == s';
  }

  lemma OneStep(s: Sys, e: Event, alone: bool)
    requires Possible(s) && !e.Begin? && (alone ==> e.Continue?)
    ensures Reaches(s, Step(s, e), alone)
  {
    ReachesItself(Step(s, e), alone);
    ThenStep(s, e, Step(s, e), alone);
  }

  lemma ThreeSteps(s: Sys, a: Event, b: Event, c: Event, alone: bool)
    requires Possible(s) && Schedule([a, b, c], alone)
    ensures Reaches(s, Step(Step(Step(s, a), b), c), alone)
  {
    hide Reaches;
    hide Step;
    var events := [a, b, c];
    assert a in events && b in events && c in events;
    var s1 := Step(s, a);
    var s2 := Step(s1, b);
    OneStep(s, a, alone);
    OneStep(s1, b, alone);
    OneStep(s2, c, alone);
    ThenReaches(s, s1, s2, alone);
    ThenReaches(s, s2, Step(s2, c), alone);
  }

  /** How many more bytes the present call can queue. */
  function Queueable(s: Sys): nat
    requires Possible(s)
  {
    Least(|s.data| - s.done, Room(s.ring))
  }

  /** The state when the present call has queued all it can. */
  function ToppedUp(s: Sys): (s': Sys)
    requires Possible(s) && s.caller != Storing
    ensures Possible(s')
  {
    var k := s.done + Queueable(s);
    s.(ring := PutBytes(s.ring, s.data[s.done..k]), done := k)
  }

  /** One byte more is queued and the rest can be queued after it. */
  lemma ToppedUpFirst(s: Sys, r: Ring)
    requires Possible(s) && s.caller != Storing && Queueable(s) > 0 && r == PutByte(s.ring, s.data[s.done])
    ensures !Full(s.ring)
    ensures Possible(s.(ring := r, done := s.done + 1)) && Queueable(s.(ring := r, done := s.done + 1)) == Queueable(s) - 1
    ensures ToppedUp(s.(ring := r, done := s.done + 1)) == ToppedUp(s)
  {
    hide Queued;
    hide Count;
    hide PutByte;
    var y, k := s.data[s.done], s.done + Queueable(s);
    QueuedLength(s.ring);
    FullByQueued(s.ring);
    PutByteAppends(s.ring, y);
    QueuedLength(r);
    assert s.data[s.done..k][1..] == s.data[s.done + 1..k];
  }

  lemma ToppedUpNothing(s: Sys)
    requires Possible(s) && s.caller != Storing && Queueable(s) == 0
    ensures ToppedUp(s) == s
    ensures s.done == |s.data| || Full(s.ring)
  {
    hide Queued;
    QueuedLength(s.ring);
    FullByQueued(s.ring);
  }

  lemma {:induction false} QueueingTopsUp(s: Sys)
    requires Possible(s) && s.caller == Queueing
    ensures Reaches(s, ToppedUp(s), true)
    decreases Queueable(s)
  {
    hide ToppedUp;
    hide Queueable;
    hide PutByte;
    if Queueable(s) == 0 {
      ToppedUpNothing(s);
      ReachesItself(s, true);
    } else {
      QueueableByte(s);
      ToppedUpFirst(s, PutByte(s.ring, s.data[s.done]));
      QueueingTopsUp(Step(s, Continue(false)));
      ThenStep(s, Continue(false), ToppedUp(s), true);
    }
  }

  lemma QueueableByte(s: Sys)
    requires Possible(s) && Queueable(s) > 0
    ensures s.done < |s.data|
  {
  }

  lemma {:induction false} RefillingTopsUp(s: Sys)
    requires Possible(s) && s.caller == Refilling && s.late
    ensures Reaches(s, ToppedUp(s), true)
    decreases Queueable(s)
  {
    hide ToppedUp;
    hide Queueable;
    if Queueable(s) == 0 {
      ToppedUpNothing(s);
      ReachesItself(s, true);
    } else {
      QueueableByte(s);
      var y := s.data[s.done];
      ToppedUpFirst(s, PutByte(s.ring, y));
      PutIsPublishAndStore(s.ring, y);
      var s1 := Step(s, Continue(false));
      var s2 := Step(s1, Continue(false));
      hide PutByte;
      assert s2 == s.(ring := PutByte(s.ring, y), done := s.done + 1);
      RefillingTopsUp(s2);
      ThenStep(s1, Continue(false), ToppedUp(s), true);
      ThenStep(s, Continue(false), ToppedUp(s), true);
    }
  }

  lemma {:induction false} PutBytesLength(r: Ring, d: seq<Byte>)
    requires InRange(r) && |d| <= Room(r)
    ensures |Queued(PutBytes(r, d))| == |Queued(r)| + |d|
    ensures PutBytes(r, d).buf[r.rp] == r.buf[r.rp]
    decreases |d|
  {
    hide Queued;
    hide Count;
    hide PutByte;
    QueuedLength(r);
    if d != [] {
      var r' := PutByte(r, d[0]);
      PutByteAppends(r, d[0]);
      PutSparesLastTaken(r, d[0]);
      QueuedLength(r');
      PutBytesLength(r', d[1..]);
    }
  }

  lemma ToppedUpLength(s: Sys)
    requires Possible(s) && s.caller != Storing
    ensures |Queued(ToppedUp(s).ring)| == |Queued(s.ring)| + Queueable(s)
    ensures ToppedUp(s).ring.rp == s.ring.rp && ToppedUp(s).ring.buf[s.ring.rp] == s.ring.buf[s.ring.rp]
  {
    hide Queued;
    hide Count;
    PutBytesLength(s.ring, s.data[s.done..s.done + Queueable(s)]);
  }

  // --------------------------------------------------------------------------------------------
  // Calls that do not fit

  /** The call waits for room: the ring is full, the interrupt enabled, and bytes are left over. */
  ghost predicate WaitsFull(s: Sys, start: Sys, data: seq<Byte>)
    requires Possible(start)
  {
    && Possible(s) && s.caller.Waiting? && s.threEnabled && Full(s.ring)
    && s.data == data && s.done == Room(start.ring) < |data|
    && |s.ring.buf| == |start.ring.buf| && s.ring.rp == start.ring.rp
    && s.ring.buf[s.ring.rp] == start.ring.buf[start.ring.rp]
  }

  lemma CallWaits(s: Sys, data: seq<Byte>) returns (s': Sys)
    requires Possible(s) && s.caller.Idle? && !Fits(s, data)
    ensures WaitsFull(s', s, data) && Reaches(Step(s, Begin(data)), s', false)
  {
    hide Queued;
    hide Count;
    hide Full;
    RoomByQueued(s.ring);
    var c := Continue(false);
    var s1 := Step(s, Begin(data));
    var s2 := Step(s1, c);
    QueueingTopsUp(s2);
    ToppedUpLength(s2);
    var s3 := ToppedUp(s2);
    FullByQueued(s3.ring);
    s' := Step(s3, c);
    OneStep(s1, c, false);
    NotOnlyAlone(s2, s3);
    OneStep(s3, c, false);
    ThenReaches(s1, s2, s3, false);
    ThenReaches(s1, s3, s', false);
  }

  lemma NotOnlyAlone(s: Sys, s': Sys)
    requires Possible(s) && Reaches(s, s', true)
    ensures Reaches(s, s', false)
  {
    var events :| Schedule(events, true) && Run(s, events) == s';
    assert Schedule(events, false);
  }

  /** The interrupt sends all that is queued. */
  lemma AllSent(s: Sys)
    requires Possible(s) && s.caller.Waiting? && s.threEnabled && Full(s.ring)
    ensures
      var s' := Step(s, Interrupt(|s.ring.buf|));
      && Queued(s'.ring) == [] && Empty(s'.ring)
      && s' == s.(ring := s.ring.(rp := s'.ring.rp), sent := s'.sent, isTxSpace := true)
  {
    hide Queued;
    FullByQueued(s.ring);
    EmptyByQueued(s.ring);
    DrainedMoves(s, |s.ring.buf|);
    EmptyByQueued(Drained(s, |s.ring.buf|).ring);
  }

  lemma LateBytesStay(s: Sys, start: Sys, data: seq<Byte>) returns (s': Sys)
    requires Possible(start) && WaitsFull(s, start, data)
    ensures Possible(s') && Stalled(s') && Reaches(s, s', false)
  {
    hide Queued;
    hide Full;
    hide Reaches;
    var all := Interrupt(|s.ring.buf|);
    AllSent(s);
    var s3 := Step(Step(Step(s, all), Interrupt(0)), Continue(false));
    ThreeSteps(s, all, Interrupt(0), Continue(false), false);
    s' := LateBytesQueued(s3);
    ThenReaches(s, s3, s', false);
  }

  lemma LateBytesQueued(s: Sys) returns (s': Sys)
    requires Possible(s) && s.caller.Refilling? && !s.threEnabled && !s.isTxSpace
    requires Queued(s.ring) == [] && s.done < |s.data|
    ensures Possible(s') && Stalled(s') && Reaches(s, s', false)
  {
    hide Queued;
    hide Full;
    hide Reaches;
    hide Queueable;
    var c := Continue(false);
    var s2 := Step(Step(s, c), c);
    LateByte(s);
    OneStep(s, c, false);
    OneStep(Step(s, c), c, false);
    ThenReaches(s, Step(s, c), s2, false);
    RefillingTopsUp(s2);
    ToppedUpLength(s2);
    ToppedUpEnds(s2);
    var s3 := ToppedUp(s2);
    NotOnlyAlone(s2, s3);
    ThenReaches(s, s2, s3, false);
    s' := RefilledReturns(s3);
    ThenReaches(s, s3, s', false);
  }

  lemma RefilledReturns(s: Sys) returns (s': Sys)
    requires Possible(s) && s.caller.Refilling? && !s.threEnabled && !s.isTxSpace
    requires Queued(s.ring) != [] && (s.done == |s.data| || Full(s.ring))
    ensures Possible(s') && Stalled(s') && Reaches(s, s', false)
  {
    hide Queued;
    hide Full;
    hide Reaches;
    var c := Continue(false);
    var s1 := Step(s, c);
    s' := Step(s1, c);
    OneStep(s, c, false);
    OneStep(s1, c, false);
    ThenReaches(s, s1, s', false);
  }

  lemma LateByte(s: Sys)
    requires Possible(s) && s.caller.Refilling? && Queued(s.ring) == [] && s.done < |s.data|
    ensures
      var s2 := Step(Step(s, Continue(false)), Continue(false));
      && s2 == s.(ring := PutByte(s.ring, s.data[s.done]), done := s.done + 1, late := true)
      && |Queued(s2.ring)| == 1
  {
    hide Queued;
    FullByQueued(s.ring);
    PutIsPublishAndStore(s.ring, s.data[s.done]);
    PutByteAppends(s.ring, s.data[s.done]);
  }

  lemma ToppedUpEnds(s: Sys)
    requires Possible(s) && s.caller != Storing
    ensures ToppedUp(s).done == |s.data| || Full(ToppedUp(s).ring)
  {
    hide Queued;
    hide Count;
    RoomByQueued(s.ring);
    ToppedUpLength(s);
    FullByQueued(ToppedUp(s).ring);
  }

  /** A call that does not fit can stall: queued to the brim, it is interrupted once for all of its bytes
      so far and once more for none, which turns the interrupt off; what it queues then, stays. */
  lemma LateBytesCanStall(s: Sys, data: seq<Byte>)
    requires Possible(s) && s.caller.Idle? && !Fits(s, data)
    ensures exists events :: Schedule(events, false) && Stalled(Run(s, [Begin(data)] + events))
  {
    var s1 := Step(s, Begin(data));
    var s2 := CallWaits(s, data);
    var s3 := LateBytesStay(s2, s, data);
    ThenReaches(s1, s2, s3, false);
    var events :| Schedule(events, false) && Run(s1, events) == s3;
    assert ([Begin(data)] + events)[1..] == events;
    assert Run(s, [Begin(data)] + events) == s3;
  }

  lemma {:induction false} ScheduleFits(s: Sys, events: seq<Event>)
    requires Possible(s) && Schedule(events, false)
    ensures AllFit(s, events)
    decreases |events|
  {
    hide Step;
    if events != [] {
      assert events[0] in events;
      ScheduleFits(Step(s, events[0]), events[1..]);
    }
  }

  lemma FittingCall(s: Sys, data: seq<Byte>, events: seq<Event>)
    requires Possible(s) && s.caller.Idle? && s.data == [] && !Stalled(s) && Fits(s, data) && Schedule(events, false)
    ensures !Stalled(Run(s, [Begin(data)] + events)) && Unspoilt(s, [Begin(data)] + events)
  {
    hide Queued;
    var all := [Begin(data)] + events;
    assert all[1..] == events;
    ScheduleFits(Step(s, Begin(data)), events);
    RunIsPrompt(s, all);
  }

  /** Between calls, with nothing stalled: a call can stall, under some schedule of interrupts, if and only
      if the ring has no room for all of its bytes when it begins. */
  lemma CallsStallExactly(s: Sys, data: seq<Byte>)
    requires Possible(s) && s.caller.Idle? && s.data == [] && !Stalled(s)
    ensures (exists events :: Schedule(events, false) && Stalled(Run(s, [Begin(data)] + events)))
       <==> |data| + |Queued(s.ring)| > |s.ring.buf| - 1
  {
    hide Queued;
    hide Stalled;
    if Fits(s, data) {
      forall events | Schedule(events, false)
        ensures !Stalled(Run(s, [Begin(data)] + events))
      {
        FittingCall(s, data, events);
      }
    } else {
      LateBytesCanStall(s, data);
    }
  }

  // --------------------------------------------------------------------------------------------
  // Calls that can lose a byte

  /** In a full ring the place after the write index is the one last read. */
  lemma FullWraps(r: Ring)
    requires InRange(r) && Full(r)
    ensures (r.wp + 1) % |r.buf| == r.rp
  {
    var n := |r.buf|;
    PlaceOfCount(r);
    ModOfSum(r.rp + (n - 1), 1, n);
    SamePlace(r.rp, n);
    ModUnique(r.rp, n, 0, r.rp);
  }

  lemma LateByteSpoilt(s: Sys, start: Sys, data: seq<Byte>)
    requires Possible(start) && WaitsFull(s, start, data)
    requires data[Room(start.ring)] != start.ring.buf[start.ring.rp]
    ensures Spoils(Step(Step(Step(s, Interrupt(|s.ring.buf|)), Continue(false)), Continue(false)), Interrupt(1))
  {
    hide Queued;
    hide Count;
    hide Room;
    FullWraps(s.ring);
    AllSent(s);
    var s1 := Step(s, Interrupt(|s.ring.buf|));
    FullByQueued(s1.ring);
    hide Full;
    hide Drained;
    assert Step(Step(s1, Continue(false)), Continue(false))
        == s1.(ring := Published(s1.ring), caller := Storing, late := true, isTxSpace := false);
    PublishedStale(s1.ring);
  }

  lemma {:induction false} SpoiltAfter(s: Sys, events: seq<Event>, e: Event)
    requires Possible(s) && Spoils(Run(s, events), e)
    ensures !Unspoilt(s, events + [e])
    decreases |events|
  {
    hide Step;
    hide Spoils;
    if events == [] {
      assert events + [e] == [e];
    } else {
      assert (events + [e])[1..] == events[1..] + [e];
      SpoiltAfter(Step(s, events[0]), events[1..], e);
    }
  }

  /** A call that does not fit can lose the first of its late bytes, if that differs from the byte that the
      ring's read index points at when the call begins. */
  lemma LateBytesCanBeLost(s: Sys, data: seq<Byte>)
    requires Possible(s) && s.caller.Idle? && !Fits(s, data)
    requires Room(s.ring) < |data| && data[Room(s.ring)] != s.ring.buf[s.ring.rp]
    ensures exists events :: Schedule(events, false) && !Unspoilt(s, [Begin(data)] + events)
  {
    hide Spoils;
    var s1 := Step(s, Begin(data));
    var s2 := CallWaits(s, data);
    var all, c := Interrupt(|s2.ring.buf|), Continue(false);
    var s3 := Step(Step(Step(s2, all), c), c);
    LateByteSpoilt(s2, s, data);
    ThreeSteps(s2, all, c, c, false);
    ThenReaches(s1, s2, s3, false);
    var events :| Schedule(events, false) && Run(s1, events) == s3;
    SpoiltAfter(s1, events, Interrupt(1));
    var whole := events + [Interrupt(1)];
    assert ([Begin(data)] + whole)[1..] == whole;
    assert Schedule(whole, false) && !Unspoilt(s, [Begin(data)] + whole);
  }

  /** Between calls, with nothing stalled: a call of this length can have a byte spoilt, for some data and
      under some schedule of interrupts, if and only if the ring has no room for that many bytes when it
      begins. */
  lemma CallsSpoilExactly(s: Sys, len: nat)
    requires Possible(s) && s.caller.Idle? && s.data == [] && !Stalled(s)
    ensures (exists data: seq<Byte>, events ::
               |data| == len && Schedule(events, false) && !Unspoilt(s, [Begin(data)] + events))
       <==> len + |Queued(s.ring)| > |s.ring.buf| - 1
  {
    hide Queued;
    hide Stalled;
    hide Unspoilt;
    if len + |Queued(s.ring)| <= |s.ring.buf| - 1 {
      forall data: seq<Byte>, events | |data| == len && Schedule(events, false)
        ensures Unspoilt(s, [Begin(data)] + events)
      {
        FittingCall(s, data, events);
      }
    } else {
      var other: Byte := if s.ring.buf[s.ring.rp] == 0 then 1 else 0;
      var data: seq<Byte> := seq(len, i => other);
      RoomByQueued(s.ring);
      LateBytesCanBeLost(s, data);
    }
  }

  // --------------------------------------------------------------------------------------------
  // A call that nothing disturbs

  lemma SendOne(s: Sys, m: nat)
    requires Possible(s) && s.caller.Sending? && Empty(s.ring) && 0 < m <= |s.data| - s.done
    ensures
      var s1 := Step(s, Continue(true));
      && s1 == s.(sent := s.sent + [s.data[s.done]], done := s.done + 1)
      && Sent(s1, m - 1) == Sent(s, m)
  {
    var d, rest := s.data[s.done..s.done + m], s.data[s.done + 1..s.done + m];
    assert d == [s.data[s.done]] + rest;
    assert s.sent + d == s.sent + [s.data[s.done]] + rest;
  }

  /** The next m bytes have gone straight to the transmitter. */
  function Sent(s: Sys, m: nat): (s': Sys)
    requires Possible(s) && m <= |s.data| - s.done && s.caller != Storing
    ensures Possible(s')
  {
    s.(sent := s.sent + s.data[s.done..s.done + m], done := s.done + m)
  }

  lemma {:induction false} SendingReaches(s: Sys, m: nat)
    requires Possible(s) && s.caller.Sending? && Empty(s.ring) && m <= |s.data| - s.done
    ensures Reaches(s, Sent(s, m), true)
    decreases m
  {
    hide Reaches;
    if m == 0 {
      assert Sent(s, m) == s;
      ReachesItself(s, true);
    } else {
      SendOne(s, m);
      hide Step;
      hide Sent;
      SendingReaches(Step(s, Continue(true)), m - 1);
      ThenStep(s, Continue(true), Sent(s, m), true);
    }
  }

  /** The wait times out when there is nothing more to be queued or no room for it. */
  function TimedOut(s: Sys): Sys {
    Return(s).(isTxSpace := s.isTxSpace && s.done == |s.data|)
  }

  lemma WaitingReturns(s: Sys)
    requires Possible(s) && s.caller.Waiting? && (s.done == |s.data| || Full(s.ring))
    ensures Reaches(s, TimedOut(s), true)
  {
    hide Full;
    hide Reaches;
    var c := Continue(false);
    if s.done < |s.data| && s.isTxSpace {
      ThreeSteps(s, c, c, c, true);
    } else {
      OneStep(s, c, true);
    }
  }

  /** The call has done with all that goes straight to the transmitter, and queues what it can. */
  function QueuedAndLeft(s: Sys): Sys
    requires Possible(s) && s.caller != Storing
  {
    TimedOut(ToppedUp(s).(threEnabled := true, late := false))
  }

  lemma QueueingReturns(s: Sys)
    requires Possible(s) && s.caller.Queueing?
    ensures Reaches(s, QueuedAndLeft(s), true)
  {
    hide Full;
    hide Reaches;
    var s1 := ToppedUp(s);
    QueueingTopsUp(s);
    ToppedUpEnds(s);
    var s2 := Step(s1, Continue(false));
    assert s2 == s1.(threEnabled := true, late := false, caller := Waiting);
    OneStep(s1, Continue(false), true);
    ThenReaches(s, s1, s2, true);
    WaitingReturns(s2);
    assert TimedOut(s2) == QueuedAndLeft(s);
    ThenReaches(s, s2, TimedOut(s2), true);
  }

  lemma LeftFromEither(s: Sys)
    requires Possible(s) && s.caller.Sending?
    ensures QueuedAndLeft(s.(caller := Queueing)) == QueuedAndLeft(s)
  {
    hide PutBytes;
    hide Room;
  }

  /** What a call without interrupts leaves. */
  function LeftAlone(s: Sys, d: seq<Byte>, direct: nat): Sys
    requires Possible(s)
  {
    var i := if Empty(s.ring) then Least(direct, |d|) else 0;
    var s1 := Sent(s.(caller := Sending, data := d, done := 0), i);
    if i == |d| then Return(s1) else QueuedAndLeft(s1)
  }

  lemma DirectBytes(s: Sys, i: nat)
    requires Possible(s) && s.caller.Sending? && s.done == 0 && i <= |s.data| && (i > 0 ==> Empty(s.ring))
    ensures Reaches(s, Sent(s, i), true)
  {
    hide Reaches;
    if i > 0 {
      SendingReaches(s, i);
    } else {
      assert Sent(s, 0) == s;
      ReachesItself(s, true);
    }
  }

  /** The call has sent what goes straight to the transmitter. */
  lemma RestReturns(s: Sys)
    requires Possible(s) && s.caller.Sending?
    ensures Reaches(s, if s.done == |s.data| then Return(s) else QueuedAndLeft(s), true)
  {
    hide Reaches;
    hide QueuedAndLeft;
    var s1 := Step(s, Continue(false));
    OneStep(s, Continue(false), true);
    if s.done < |s.data| {
      assert s1 == s.(caller := Queueing);
      QueueingReturns(s1);
      LeftFromEither(s);
      ThenReaches(s, s1, QueuedAndLeft(s1), true);
    }
  }

  lemma SendingReturns(s: Sys, d: seq<Byte>, direct: nat)
    requires Possible(s) && s.caller.Idle?
    ensures Reaches(Step(s, Begin(d)), LeftAlone(s, d, direct), true)
  {
    hide Reaches;
    hide QueuedAndLeft;
    var i := if Empty(s.ring) then Least(direct, |d|) else 0;
    var s1 := Step(s, Begin(d));
    DirectBytes(s1, i);
    RestReturns(Sent(s1, i));
    ThenReaches(s1, Sent(s1, i), LeftAlone(s, d, direct), true);
  }

  /** The steps of a call between which no interrupt falls add up to what `UartHandler.Port.Txt` does. */
  lemma CallAlone(s: Sys, d: seq<Byte>, direct: nat)
    requires Possible(s) && s.caller.Idle?
    ensures
      var (t, accepted) := TxtAlone(TxSide(s.ring, s.sent, s.threEnabled, s.isTxSpace), d, direct);
      exists events :: Schedule(events, true) &&
        var s' := Run(s, [Begin(d)] + events);
        s' == Sys(t.ring, t.sent, t.threEnabled, t.isTxSpace, Idle, [], 0, s.calls + [Call(d, accepted)], s'.late)
  {
    SendingReturns(s, d, direct);
    var s1, s' := Step(s, Begin(d)), LeftAlone(s, d, direct);
    LeftAloneIsTxt(s, d, direct);
    hide LeftAlone;
    var events :| Schedule(events, true) && Run(s1, events) == s';
    assert ([Begin(d)] + events)[1..] == events;
    assert Run(s, [Begin(d)] + events) == s';
  }

  lemma LeftAloneIsTxt(s: Sys, d: seq<Byte>, direct: nat)
    requires Possible(s) && s.caller.Idle?
    ensures
      var (t, accepted) := TxtAlone(TxSide(s.ring, s.sent, s.threEnabled, s.isTxSpace), d, direct);
      var s' := LeftAlone(s, d, direct);
      s' == Sys(t.ring, t.sent, t.threEnabled, t.isTxSpace, Idle, [], 0, s.calls + [Call(d, accepted)], s'.late)
  {
    hide PutBytes;
    hide Room;
    assert d[..|d|] == d;
  }
}
