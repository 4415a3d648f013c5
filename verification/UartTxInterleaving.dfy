/**
 The transmit ring with the sending task and the transmitter's interrupt at work together.

 A call sends what the transmitter will take if nothing is queued, then queues what there is room for,
 both with the interrupt masked; then it enables the transmitter's interrupt and queues the rest as the
 semaphore tells it that there is room.  One step is a byte, a look at the semaphore, or an interrupt;
 where interrupts are enabled, queueing a byte is two steps: the write index moves, and then the byte is
 stored where it points.
 */
module UartTxInterleaving {
  import opened Words
  import opened IpcRing
  import opened UartRing

  /** Where the task is.  In `Sending` and `Queueing` the interrupt is masked; in `Storing` the write index
      has moved and the byte is not yet there. */
  datatype Caller = Idle | Sending | Queueing | Waiting | Refilling | Storing

  datatype Call = Call(data: seq<Byte>, accepted: nat)

  /** `sent` is all that was written to the transmitter; the present call was given `data` and has done
      with its first `done` bytes; `calls` are the calls that have returned, with what they returned.
      `late` is set when a byte is queued after the interrupt was enabled, and lasts until it is enabled
      again. */
  datatype Sys = Sys(
    ring: Ring, sent: seq<Byte>, threEnabled: bool, isTxSpace: bool,
    caller: Caller, data: seq<Byte>, done: nat, calls: seq<Call>, late: bool)

  /** `Continue(thr)` is the task's next step, when the transmitter is ready for a byte or not; a wait with
      no room reported times out.  `Interrupt(ready)` finds the transmitter ready for that many bytes. */
  datatype Event = Begin(data: seq<Byte>) | Continue(thr: bool) | Interrupt(ready: nat)

  predicate Possible(s: Sys) {
    InRange(s.ring) && s.done <= |s.data| && (s.caller.Storing? ==> s.done < |s.data|)
  }

  function Return(s: Sys): Sys {
    s.(caller := Idle, calls := s.calls + [Call(s.data, s.done)], data := [], done := 0)
  }

  function Continued(s: Sys, thr: bool): (s': Sys)
    requires Possible(s)
    ensures Possible(s')
  {
    var more := s.done < |s.data|;
    match s.caller
    case Idle => s
    case Sending =>
      if !more then Return(s)
      else if Empty(s.ring) && thr then s.(sent := s.sent + [s.data[s.done]], done := s.done + 1)
      else s.(caller := Queueing)
    case Queueing =>
      if more && !Full(s.ring) then s.(ring := PutByte(s.ring, s.data[s.done]), done := s.done + 1)
      else s.(threEnabled := true, late := false, caller := Waiting)
    case Waiting =>
      if !more || !s.isTxSpace then Return(s)
      else s.(isTxSpace := false, caller := Refilling)
    case Refilling =>
      if more && !Full(s.ring) then s.(ring := Published(s.ring), caller := Storing, late := true)
      else s.(caller := Waiting)
    case Storing =>
      s.(ring := Stored(s.ring, s.data[s.done]), done := s.done + 1, caller := Refilling)
  }

  function Drained(s: Sys, ready: nat): (s': Sys)
    requires Possible(s)
    ensures Possible(s')
    decreases ready
  {
    if ready == 0 || Empty(s.ring) then s
    else
      var r := Next(s.ring);
      Drained(s.(ring := r, sent := s.sent + [r.buf[r.rp]]), ready - 1)
  }

  function Interrupted(s: Sys, ready: nat): (s': Sys)
    requires Possible(s)
    ensures Possible(s')
  {
    if s.caller.Sending? || s.caller.Queueing? || !s.threEnabled then s
    else if Empty(s.ring) then s.(threEnabled := false)
    else Drained(s, ready).(isTxSpace := true)
  }

  function Step(s: Sys, e: Event): (s': Sys)
    requires Possible(s)
    ensures Possible(s')
  {
    match e
    case Begin(data) => if s.caller.Idle? then s.(caller := Sending, data := data, done := 0) else s
    case Continue(thr) => Continued(s, thr)
    case Interrupt(ready) => Interrupted(s, ready)
  }

  function Run(s: Sys, events: seq<Event>): (s': Sys)
    requires Possible(s)
    ensures Possible(s')
    decreases |events|
  {
    if events == [] then s else Run(Step(s, events[0]), events[1..])
  }

  predicate Initial(s: Sys) {
    && InRange(s.ring) && s.ring.rp == s.ring.wp == 0 && s.sent == []
    && s.caller == Idle && s.data == [] && s.done == 0 && s.calls == []
    && !s.threEnabled && !s.isTxSpace && !s.late
  }

  // --------------------------------------------------------------------------------------------
  // What has gone out and what should have

  /** No call accepts more than it was given. */
  predicate Bounded(calls: seq<Call>) {
    forall c :: c in calls ==> c.accepted <= |c.data|
  }

  /** The accepted parts of calls, one after the other. */
  function Accepted(calls: seq<Call>): seq<Byte>
    requires Bounded(calls)
  {
    if calls == [] then []
    else
      var c := calls[|calls| - 1];
      assert c in calls;
      Accepted(calls[..|calls| - 1]) + c.data[..c.accepted]
  }

  /** What was sent and what is to be sent.  The byte about to be stored counts if its place still
      waits to be read; otherwise the place was read before the byte was there. */
  function Outgoing(s: Sys): seq<Byte>
    requires Possible(s)
  {
    if s.caller.Storing? && Queued(s.ring) != []
    then s.sent + Queued(s.ring)[..|Queued(s.ring)| - 1] + [s.data[s.done]]
    else s.sent + Queued(s.ring)
  }

  /** What the calls have accepted, the present one included. */
  function Owed(s: Sys): seq<Byte>
    requires Possible(s) && Bounded(s.calls)
  {
    Accepted(s.calls) + s.data[..if s.caller.Storing? then s.done + 1 else s.done]
  }

  /** The interrupt sends, in place of a byte that is not yet stored, another that its place held before. */
  predicate Spoils(s: Sys, e: Event)
    requires Possible(s)
  {
    && s.caller.Storing? && e.Interrupt? && s.threEnabled
    && Queued(s.ring) != [] && e.ready >= |Queued(s.ring)|
    && s.ring.buf[s.ring.wp] != s.data[s.done]
  }

  predicate Unspoilt(s: Sys, events: seq<Event>)
    requires Possible(s)
    decreases |events|
  {
    events == [] || (!Spoils(s, events[0]) && Unspoilt(Step(s, events[0]), events[1..]))
  }

  ghost predicate Aligned(s: Sys) {
    && Possible(s)
    && Bounded(s.calls)
    && |Outgoing(s)| == |Owed(s)|
    && (s.caller.Idle? ==> s.data == [])
  }

  /** Both lists grow by the same bytes. */
  ghost predicate GrowAlike(s: Sys, s': Sys, t: seq<Byte>)
    requires Aligned(s)
  {
    && Possible(s') && Bounded(s'.calls) && (s'.caller.Idle? ==> s'.data == [])
    && Outgoing(s') == Outgoing(s) + t && Owed(s') == Owed(s) + t
  }

  lemma GrownAlike(s: Sys, s': Sys, t: seq<Byte>)
    requires Aligned(s) && GrowAlike(s, s', t)
    ensures Aligned(s') && (Outgoing(s') == Owed(s') <==> Outgoing(s) == Owed(s))
  {
    hide Outgoing;
    hide Owed;
    SameSuffix(Outgoing(s), Owed(s), t);
  }

  lemma SameSuffix(a: seq<Byte>, b: seq<Byte>, t: seq<Byte>)
    requires |a| == |b|
    ensures a + t == b + t <==> a == b
  {
    if a + t == b + t {
      assert a == (a + t)[..|a|] == (b + t)[..|a|] == b;
    }
  }

  lemma ReturnGrows(s: Sys)
    requires Aligned(s) && !s.caller.Storing?
    ensures GrowAlike(s, Return(s), [])
  {
    hide Queued;
    var s' := Return(s);
    assert s'.calls[..|s.calls|] == s.calls;
  }

  lemma Append(a: seq<Byte>, b: seq<Byte>, y: Byte)
    ensures a + (b + [y]) == a + b + [y]
  {
  }

  lemma OwedOneMore(s: Sys)
    requires Possible(s) && Bounded(s.calls) && s.done < |s.data|
    ensures Accepted(s.calls) + s.data[..s.done + 1] == Accepted(s.calls) + s.data[..s.done] + [s.data[s.done]]
  {
    Append(Accepted(s.calls), s.data[..s.done], s.data[s.done]);
    assert s.data[..s.done] + [s.data[s.done]] == s.data[..s.done + 1];
  }

  lemma SendGrows(s: Sys)
    requires Aligned(s) && s.caller.Sending? && s.done < |s.data| && Empty(s.ring)
    ensures GrowAlike(s, Continued(s, true), [s.data[s.done]])
  {
    hide Queued;
    hide Accepted;
    EmptyByQueued(s.ring);
    OwedOneMore(s);
  }

  lemma QueueGrows(s: Sys)
    requires Aligned(s) && s.caller.Queueing? && s.done < |s.data| && !Full(s.ring)
    ensures GrowAlike(s, Continued(s, true), [s.data[s.done]])
  {
    hide Queued;
    hide Accepted;
    hide Full;
    hide PutByte;
    FullByQueued(s.ring);
    PutByteAppends(s.ring, s.data[s.done]);
    Append(s.sent, Queued(s.ring), s.data[s.done]);
    OwedOneMore(s);
  }

  lemma PublishGrows(s: Sys)
    requires Aligned(s) && s.caller.Refilling? && s.done < |s.data| && !Full(s.ring)
    ensures GrowAlike(s, Continued(s, true), [s.data[s.done]])
  {
    hide Queued;
    hide Accepted;
    hide Full;
    FullByQueued(s.ring);
    QueuedLength(s.ring);
    PublishedStale(s.ring);
    OwedOneMore(s);
  }

  lemma StoreGrows(s: Sys)
    requires Aligned(s) && s.caller.Storing?
    ensures GrowAlike(s, Continued(s, true), [])
  {
    hide Queued;
    hide Accepted;
    StoreReplacesLast(s.ring, s.data[s.done]);
    var q, y := Queued(s.ring), s.data[s.done];
    if q != [] {
      Append(s.sent, q[..|q| - 1], y);
    }
  }

  lemma ContinuedOrder(s: Sys, thr: bool)
    requires Aligned(s)
    ensures
      var s' := Continued(s, thr);
      Aligned(s') && (Outgoing(s') == Owed(s') <==> Outgoing(s) == Owed(s))
  {
    var s', more := Continued(s, thr), s.done < |s.data|;
    match s.caller {
      case Idle =>
      case Sending =>
        if !more {
          ReturnGrows(s);
          GrownAlike(s, s', []);
        } else if Empty(s.ring) && thr {
          SendGrows(s);
          GrownAlike(s, s', [s.data[s.done]]);
        }
      case Queueing =>
        if more && !Full(s.ring) {
          QueueGrows(s);
          GrownAlike(s, s', [s.data[s.done]]);
        }
      case Waiting =>
        if !more || !s.isTxSpace {
          ReturnGrows(s);
          GrownAlike(s, s', []);
        }
      case Refilling =>
        if more && !Full(s.ring) {
          PublishGrows(s);
          GrownAlike(s, s', [s.data[s.done]]);
        }
      case Storing =>
        StoreGrows(s);
        GrownAlike(s, s', []);
    }
  }

  /** Draining moves bytes from the ring to the transmitter. */
  lemma {:induction false} DrainedMoves(s: Sys, ready: nat)
    requires Possible(s)
    ensures
      var s' := Drained(s, ready);
      && s'.sent + Queued(s'.ring) == s.sent + Queued(s.ring)
      && |Queued(s'.ring)| == (if ready < |Queued(s.ring)| then |Queued(s.ring)| - ready else 0)
      && s' == s.(ring := s.ring.(rp := s'.ring.rp), sent := s'.sent)
    decreases ready
  {
    hide Queued;
    EmptyByQueued(s.ring);
    if ready > 0 && !Empty(s.ring) {
      NextTakes(s.ring);
      var r := Next(s.ring);
      DrainedMoves(s.(ring := r, sent := s.sent + [r.buf[r.rp]]), ready - 1);
    }
  }

  /** The last byte waiting is the one at the write index. */
  lemma LastAtWriteIndex(r: Ring)
    requires InRange(r) && Queued(r) != []
    ensures Queued(r)[|Queued(r)| - 1] == r.buf[r.wp]
  {
    StoreReplacesLast(r, r.buf[r.wp]);
    assert Stored(r, r.buf[r.wp]) == r;
  }

  lemma ReplacedLast(a: seq<Byte>, q: seq<Byte>, b: seq<Byte>, y: Byte)
    requires q != [] && |a + q| == |b|
    ensures
      var x := q[|q| - 1];
      b != [] && b[|b| - 1] == y ==> (a + q == b <==> x == y && a + q[..|q| - 1] + [y] == b)
  {
    var x := q[|q| - 1];
    assert a + q == a + q[..|q| - 1] + [x];
    if b != [] && b[|b| - 1] == y && a + q == b {
      assert (a + q)[|b| - 1] == x;
    }
  }

  lemma InterruptedOrder(s: Sys, ready: nat)
    requires Aligned(s)
    ensures
      var s' := Interrupted(s, ready);
      && Aligned(s')
      && (Outgoing(s') == Owed(s') <==> Outgoing(s) == Owed(s) && !Spoils(s, Interrupt(ready)))
  {
    hide Queued;
    hide Accepted;
    EmptyByQueued(s.ring);
    DrainedMoves(s, ready);
    if Interrupted(s, ready) != s && !Empty(s.ring) && s.caller.Storing? {
      LastAtWriteIndex(s.ring);
      StoringDrained(s, ready);
    }
  }

  lemma StoringDrained(s: Sys, ready: nat)
    requires Aligned(s) && s.caller.Storing? && s.threEnabled && Queued(s.ring) != []
    ensures
      var s' := Drained(s, ready);
      && Bounded(s'.calls)
      && |Outgoing(s')| == |Owed(s')|
      && (Outgoing(s') == Owed(s') <==> Outgoing(s) == Owed(s) && !Spoils(s, Interrupt(ready)))
  {
    hide Queued;
    hide Accepted;
    DrainedMoves(s, ready);
    LastAtWriteIndex(s.ring);
    var s', q, y := Drained(s, ready), Queued(s.ring), s.data[s.done];
    var q' := Queued(s'.ring);
    OwedOneMore(s);
    if ready >= |q| {
      assert q' == [] && Outgoing(s') == s.sent + q;
      ReplacedLast(s.sent, q, Owed(s), y);
    } else {
      assert s'.sent + q'[..|q'| - 1] == (s'.sent + q')[..|s'.sent + q'| - 1];
      assert s.sent + q[..|q| - 1] == (s.sent + q)[..|s.sent + q| - 1];
    }
  }

  lemma StepOrder(s: Sys, e: Event)
    requires Aligned(s)
    ensures
      var s' := Step(s, e);
      && Aligned(s')
      && (Outgoing(s') == Owed(s') <==> Outgoing(s) == Owed(s) && !Spoils(s, e))
  {
    match e {
      case Begin(data) =>
      case Continue(thr) => ContinuedOrder(s, thr);
      case Interrupt(ready) => InterruptedOrder(s, ready);
    }
  }

  lemma {:induction false} RunOrder(s: Sys, events: seq<Event>)
    requires Aligned(s)
    ensures
      var s' := Run(s, events);
      && Aligned(s')
      && (Outgoing(s') == Owed(s') <==> Outgoing(s) == Owed(s) && Unspoilt(s, events))
    decreases |events|
  {
    hide Outgoing;
    hide Owed;
    hide Spoils;
    hide Step;
    if events != [] {
      StepOrder(s, events[0]);
      RunOrder(Step(s, events[0]), events[1..]);
    }
  }

  /** Over every run: no call returns more than it was given; what was sent, followed by what is queued, is
      as long as what the calls accepted, and is the same bytes in the same order if and only if no
      interrupt read a place between the move of the write index to it and the store of a different
      byte there. */
  lemma SentAndQueuedAreAccepted(s: Sys, events: seq<Event>)
    requires Initial(s)
    ensures
      var s' := Run(s, events);
      && Bounded(s'.calls)
      && |Outgoing(s')| == |Owed(s')|
      && (Outgoing(s') == Owed(s') <==> Unspoilt(s, events))
      && (s'.caller.Idle? ==> Outgoing(s') == s'.sent + Queued(s'.ring) && Owed(s') == Accepted(s'.calls))
  {
    EmptyByQueued(s.ring);
    hide Queued;
    RunOrder(s, events);
  }

  // --------------------------------------------------------------------------------------------
  // Which bytes can be left in the ring

  /** Bytes in the ring have the interrupt enabled, or are about to, unless they were queued late. */
  predicate Live(s: Sys) {
    !Empty(s.ring) && !s.threEnabled && !s.caller.Queueing? ==> s.late
  }

  lemma {:induction false} RunIsLive(s: Sys, events: seq<Event>)
    requires Possible(s) && Live(s)
    ensures Live(Run(s, events))
    decreases |events|
  {
    hide Full;
    if events != [] {
      if events[0].Interrupt? {
        DrainedMoves(s, events[0].ready);
      }
      RunIsLive(Step(s, events[0]), events[1..]);
    }
  }

  /** With no call in progress and no byte queued late, a ring that still holds bytes has its interrupt
      enabled, so that the transmitter will ask for them. */
  lemma OnlyLateBytesCanStall(s: Sys, events: seq<Event>)
    requires Initial(s)
    ensures
      var s' := Run(s, events);
      Queued(s'.ring) != [] && s'.caller.Idle? && !s'.late ==> s'.threEnabled
  {
    RunIsLive(s, events);
    EmptyByQueued(Run(s, events).ring);
  }
}
