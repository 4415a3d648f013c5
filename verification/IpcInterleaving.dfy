/**
 The ring of `IpcRing` with both processors at work.

 The code of either is taken apart into its single memory accesses - check the room, store a byte, move
 the write index, poll, load a byte, move the read index - and the two are interleaved at will, on
 sequentially consistent memory.  The invariant yields that the ring is a bounded first-in first-out
 queue, that no unread byte is ever overwritten, and that a transfer, once begun, is never cut short.

 A writer's message is a list of transfers - one call of the transmit routine each - begun by a single
 check that the ring has room for a reservation.  The state records, beside the ring itself, where each
 processor has got to and the whole history: the bytes published, the bytes read, the bytes of the
 transfers that passed their own check, and the messages begun.
 */
module IpcInterleaving {
  import opened Modular
  import opened Words
  import opened IpcRing

  /** Where the writer is: between messages, before its next transfer, about to store the first byte of
      `cur`, or about to move the write index past it. */
  datatype Writer =
    | Ready
    | Calls(rest: seq<seq<Byte>>)
    | Storing(cur: seq<Byte>, rest: seq<seq<Byte>>)
    | Publishing(cur: seq<Byte>, rest: seq<seq<Byte>>)

  /** Where the reader is: polling, about to load the byte it saw was there, or holding it and about to
      move the read index. */
  datatype Reader = Polling | Loading | Holding(b: Byte)

  datatype Sys = Sys(
    ring: Ring, writer: Writer, reader: Reader,
    published: seq<Byte>, taken: seq<Byte>,
    accepted: seq<Byte>,   // bytes of transfers that passed their own room check
    begun: seq<Byte>,      // bytes of messages that passed the reservation check
    refused: nat)          // transfers that did not pass

  datatype Action =
    | Begin(reserve: nat, calls: seq<seq<Byte>>)
    | NextCall
    | Store
    | Publish
    | Poll
    | Load
    | Advance

  function Joined(calls: seq<seq<Byte>>): seq<Byte> {
    if calls == [] then [] else calls[0] + Joined(calls[1..])
  }

  // --------------------------------------------------------------------------------------------
  // The steps

  function WriterStep(s: Sys, a: Action): Sys
    requires InRange(s.ring)
  {
    match (a, s.writer)
    case (Begin(reserve, calls), Ready) =>
      if RoomFor(s.ring, reserve)
      then s.(writer := Calls(calls), begun := s.begun + Joined(calls)) else s
    case (NextCall, Calls(rest)) =>
      if rest == [] then s.(writer := Ready)
      else if !RoomFor(s.ring, |rest[0]|) then s.(writer := Calls(rest[1..]), refused := s.refused + 1)
      else if rest[0] == [] then s.(writer := Calls(rest[1..]))
      else s.(writer := Storing(rest[0], rest[1..]), accepted := s.accepted + rest[0])
    case (Store, Storing(cur, rest)) =>
      if cur == [] then s
      else s.(ring := Stored(s.ring, cur[0]), writer := Publishing(cur, rest))
    case (Publish, Publishing(cur, rest)) =>
      if cur == [] then s
      else s.(ring := Published(s.ring), published := s.published + [cur[0]],
              writer := if |cur| == 1 then Calls(rest) else Storing(cur[1..], rest))
    case _ => s
  }

  function ReaderStep(s: Sys, a: Action): Sys
    requires InRange(s.ring)
  {
    match (a, s.reader)
    case (Poll, Polling) => if s.ring.rp != s.ring.wp then s.(reader := Loading) else s
    case (Load, Loading) => s.(reader := Holding(s.ring.buf[s.ring.rp]))
    case (Advance, Holding(b)) =>
      s.(ring := Advanced(s.ring), reader := Polling, taken := s.taken + [b])
    case _ => s
  }

  predicate IsWriters(a: Action) {
    a.Begin? || a.NextCall? || a.Store? || a.Publish?
  }

  function Step(s: Sys, a: Action): (s': Sys)
    requires InRange(s.ring)
    ensures InRange(s'.ring)
  {
    if IsWriters(a) then WriterStep(s, a) else ReaderStep(s, a)
  }

  function Run(s: Sys, actions: seq<Action>): Sys
    requires InRange(s.ring)
    decreases |actions|
  {
    if actions == [] then s else Run(Step(s, actions[0]), actions[1..])
  }

  predicate Initial(s: Sys) {
    && |s.ring.buf| >= 2 && s.ring.rp == s.ring.wp == 0
    && s.writer == Ready && s.reader == Polling
    && s.published == s.taken == s.accepted == s.begun == [] && s.refused == 0
  }

  // --------------------------------------------------------------------------------------------
  // The invariant

  /** The indices are the histories' lengths, seen round the ring, and the unread places hold the
      unread part of what was published. */
  ghost predicate RingInv(s: Sys) {
    && InRange(s.ring)
    && s.taken <= s.published
    && |s.published| < |s.taken| + |s.ring.buf|
    && s.ring.rp == |s.taken| % |s.ring.buf|
    && s.ring.wp == |s.published| % |s.ring.buf|
    && (forall i :: |s.taken| <= i < |s.published| ==> s.ring.buf[i % |s.ring.buf|] == s.published[i])
  }

  function Free(s: Sys): int {
    |s.ring.buf| - 1 - (|s.published| - |s.taken|)
  }

  function Current(w: Writer): seq<Byte> {
    if w.Storing? || w.Publishing? then w.cur else []
  }

  ghost predicate WriterInv(s: Sys)
    requires RingInv(s)
  {
    && s.accepted == s.published + Current(s.writer)
    && (s.writer.Storing? || s.writer.Publishing? ==> 0 < |s.writer.cur| <= Free(s))
    && (s.writer.Publishing? ==> s.ring.buf[s.ring.wp] == s.writer.cur[0])
  }

  ghost predicate ReaderInv(s: Sys)
    requires RingInv(s)
  {
    && (s.reader.Loading? || s.reader.Holding? ==> |s.taken| < |s.published|)
    && (s.reader.Holding? ==> s.reader.b == s.published[|s.taken|])
  }

  ghost predicate Inv(s: Sys) {
    RingInv(s) && WriterInv(s) && ReaderInv(s)
  }

  lemma CountOfHistory(s: Sys)
    requires RingInv(s)
    ensures Count(s.ring) == |s.published| - |s.taken|
    ensures s.ring.rp == s.ring.wp <==> |s.published| == |s.taken|
  {
    CountIsDifference(|s.taken|, |s.published|, |s.ring.buf|);
    if |s.taken| < |s.published| {
      DistinctPlaces(|s.taken|, |s.published|, |s.ring.buf|);
    }
  }

  /** The room check says what the histories say. */
  lemma RoomOfHistory(s: Sys, len: nat)
    requires RingInv(s)
    ensures RoomFor(s.ring, len) <==> len <= Free(s)
  {
    CountOfHistory(s);
  }

  lemma StoreKeepsInv(s: Sys)
    requires Inv(s) && s.writer.Storing?
    ensures Inv(Step(s, Store))
  {
    var s' := Step(s, Store);
    var n := |s.ring.buf|;
    forall i | |s.taken| <= i < |s.published|
      ensures s'.ring.buf[i % n] == s.published[i]
    {
      DistinctPlaces(i, |s.published|, n);
    }
  }

  lemma PublishKeepsInv(s: Sys)
    requires Inv(s) && s.writer.Publishing?
    ensures Inv(Step(s, Publish))
  {
    var s' := Step(s, Publish);
    var n, cur := |s.ring.buf|, s.writer.cur;
    ModOfSum(|s.published|, 1, n);
    assert s.published + cur == s'.published + cur[1..];
    if |cur| == 1 {
      assert cur[1..] == [];
    }
    forall i | |s.taken| <= i < |s'.published|
      ensures s'.ring.buf[i % n] == s'.published[i]
    {
    }
  }

  lemma AdvanceKeepsInv(s: Sys)
    requires Inv(s) && s.reader.Holding?
    ensures Inv(Step(s, Advance))
  {
    ModOfSum(|s.taken|, 1, |s.ring.buf|);
    assert s.taken + [s.reader.b] == s.published[..|s.taken| + 1];
  }

  lemma OtherStepsKeepInv(s: Sys, a: Action)
    requires Inv(s) && (a.Begin? || a.NextCall? || a.Poll? || a.Load?)
    ensures Inv(Step(s, a))
  {
    CountOfHistory(s);
    if a.NextCall? && s.writer.Calls? && s.writer.rest != [] {
      RoomOfHistory(s, |s.writer.rest[0]|);
    }
  }

  lemma StepKeepsInv(s: Sys, a: Action)
    requires Inv(s)
    ensures Inv(Step(s, a))
  {
    if a.Store? && s.writer.Storing? {
      StoreKeepsInv(s);
    } else if a.Publish? && s.writer.Publishing? {
      PublishKeepsInv(s);
    } else if a.Advance? && s.reader.Holding? {
      AdvanceKeepsInv(s);
    } else if a.Begin? || a.NextCall? || a.Poll? || a.Load? {
      OtherStepsKeepInv(s, a);
    } else {
      assert Step(s, a) == s;
    }
  }

  lemma {:induction false} RunKeepsInv(s: Sys, actions: seq<Action>)
    requires Inv(s)
    ensures Inv(Run(s, actions))
    decreases |actions|
  {
    if actions != [] {
      StepKeepsInv(s, actions[0]);
      RunKeepsInv(Step(s, actions[0]), actions[1..]);
    }
  }

  // --------------------------------------------------------------------------------------------
  // What the invariant is for

  /** Over every interleaving, what has been read is a prefix of what was accepted for sending, and
      what was accepted has been published up to the transfer in progress: nothing is lost, nothing
      reordered, nothing invented, and no transfer is ever cut short. */
  lemma ReadIsPrefixOfSent(s: Sys, actions: seq<Action>)
    requires Initial(s)
    ensures
      var s' := Run(s, actions);
      && s'.taken <= s'.published <= s'.accepted
      && s'.accepted == s'.published + Current(s'.writer)
      && |s'.published| - |s'.taken| <= |s.ring.buf| - 1
  {
    RunKeepsInv(s, actions);
    RunKeepsLength(s, actions);
  }

  lemma {:induction false} RunKeepsLength(s: Sys, actions: seq<Action>)
    requires InRange(s.ring)
    ensures |Run(s, actions).ring.buf| == |s.ring.buf|
    decreases |actions|
  {
    if actions != [] {
      RunKeepsLength(Step(s, actions[0]), actions[1..]);
    }
  }

  /** No step of the writer changes a byte that has been published and not yet read. */
  lemma UnreadBytesAreSafe(s: Sys, a: Action, i: nat)
    requires Inv(s) && |s.taken| <= i < |s.published|
    ensures Step(s, a).ring.buf[i % |s.ring.buf|] == s.ring.buf[i % |s.ring.buf|] == s.published[i]
  {
    if a.Store? && s.writer.Storing? {
      DistinctPlaces(i, |s.published|, |s.ring.buf|);
    }
  }

  /** The reader only ever makes room. */
  lemma ReaderKeepsRoom(s: Sys, a: Action, len: nat)
    requires Inv(s) && !IsWriters(a) && RoomFor(s.ring, len)
    ensures RoomFor(Step(s, a).ring, len)
  {
    StepKeepsInv(s, a);
    RoomOfHistory(s, len);
    RoomOfHistory(Step(s, a), len);
  }

  /** The queue that the ring implements. */
  function Queue(s: Sys): seq<Byte>
    requires |s.taken| <= |s.published|
  {
    s.published[|s.taken|..]
  }

  /** What one step may do to a bounded queue: nothing, append a byte where there is room, or hand the
      oldest byte to the reader. */
  ghost predicate QueueStep(capacity: int, q: seq<Byte>, q': seq<Byte>, taken: seq<Byte>, taken': seq<Byte>) {
    || (q' == q && taken' == taken)
    || (exists b :: q' == q + [b] && |q| < capacity && taken' == taken)
    || (exists b :: q == [b] + q' && taken' == taken + [b])
  }

  /** Refinement: every step of either processor is a step of a queue of one byte less than the ring. */
  lemma StepsRefineBoundedQueue(s: Sys, a: Action)
    requires Inv(s)
    ensures
      var s' := Step(s, a);
      && |s'.taken| <= |s'.published|
      && QueueStep(|s.ring.buf| - 1, Queue(s), Queue(s'), s.taken, s'.taken)
  {
    hide QueueStep;
    if a.Publish? && s.writer.Publishing? {
      PublishAppends(s);
    } else if a.Advance? && s.reader.Holding? {
      AdvanceHandsOver(s);
    } else {
      Unchanged(|s.ring.buf| - 1, Queue(s), s.taken);
    }
  }

  lemma PublishAppends(s: Sys)
    requires Inv(s) && s.writer.Publishing?
    ensures QueueStep(|s.ring.buf| - 1, Queue(s), Queue(Step(s, Publish)), s.taken, Step(s, Publish).taken)
  {
    hide QueueStep;
    var b := s.writer.cur[0];
    assert Queue(Step(s, Publish)) == Queue(s) + [b];
    Appended(|s.ring.buf| - 1, Queue(s), Queue(Step(s, Publish)), s.taken, b);
  }

  lemma AdvanceHandsOver(s: Sys)
    requires Inv(s) && s.reader.Holding?
    ensures |Step(s, Advance).taken| <= |s.published|
    ensures QueueStep(|s.ring.buf| - 1, Queue(s), Queue(Step(s, Advance)), s.taken, Step(s, Advance).taken)
  {
    hide QueueStep;
    var b := s.reader.b;
    assert Queue(s) == [b] + Queue(Step(s, Advance));
    HandedOver(|s.ring.buf| - 1, Queue(s), Queue(Step(s, Advance)), s.taken, b);
  }

  lemma Unchanged(capacity: int, q: seq<Byte>, taken: seq<Byte>)
    ensures QueueStep(capacity, q, q, taken, taken)
  {
  }

  lemma Appended(capacity: int, q: seq<Byte>, q': seq<Byte>, taken: seq<Byte>, b: Byte)
    requires q' == q + [b] && |q| < capacity
    ensures QueueStep(capacity, q, q', taken, taken)
  {
  }

  lemma HandedOver(capacity: int, q: seq<Byte>, q': seq<Byte>, taken: seq<Byte>, b: Byte)
    requires q == [b] + q'
    ensures QueueStep(capacity, q, q', taken, taken + [b])
  {
  }

  /** The queue is what the ring holds, and the room check compares it with that capacity. */
  lemma RoomIsQueueRoom(s: Sys, len: nat)
    requires Inv(s)
    ensures Queue(s) == Contents(s.ring)
    ensures RoomFor(s.ring, len) <==> |Queue(s)| + len <= |s.ring.buf| - 1
  {
    QueueIsContents(s);
    RoomOfHistory(s, len);
  }

  lemma QueueIsContents(s: Sys)
    requires RingInv(s)
    ensures Queue(s) == Contents(s.ring)
  {
    CountOfHistory(s);
    forall i | 0 <= i < Count(s.ring)
      ensures Contents(s.ring)[i] == Queue(s)[i]
    {
      ModOfSum(|s.taken|, i, |s.ring.buf|);
    }
  }

  // --------------------------------------------------------------------------------------------
  // Reservations

  /** The bytes that the message in progress has still to publish. */
  function Pending(w: Writer): seq<Byte> {
    match w
    case Ready => []
    case Calls(rest) => Joined(rest)
    case Storing(cur, rest) => cur + Joined(rest)
    case Publishing(cur, rest) => cur + Joined(rest)
  }

  /** Everything the message in progress still needs is free. */
  ghost predicate Reserved(s: Sys) {
    && Inv(s)
    && s.refused == 0
    && |Pending(s.writer)| <= Free(s)
    && s.begun == s.published + Pending(s.writer)
  }

  /** A message whose reservation covers its transfers. */
  predicate Covered(a: Action) {
    a.Begin? ==> |Joined(a.calls)| <= a.reserve
  }

  lemma BeginKeepsReserved(s: Sys, reserve: nat, calls: seq<seq<Byte>>)
    requires Reserved(s) && |Joined(calls)| <= reserve
    ensures Reserved(Step(s, Begin(reserve, calls)))
  {
    hide RoomFor;
    StepKeepsInv(s, Begin(reserve, calls));
    RoomOfHistory(s, reserve);
  }

  lemma NextCallKeepsReserved(s: Sys)
    requires Reserved(s)
    ensures Reserved(Step(s, NextCall))
  {
    hide RoomFor;
    StepKeepsInv(s, NextCall);
    if s.writer.Calls? && s.writer.rest != [] {
      RoomOfHistory(s, |s.writer.rest[0]|);
    }
  }

  lemma PublishKeepsReserved(s: Sys)
    requires Reserved(s)
    ensures Reserved(Step(s, Publish))
  {
    hide Pending;
    if s.writer.Publishing? {
      StepKeepsInv(s, Publish);
      PublishEffect(s);
      PendingShrinks(s.writer.cur, s.writer.rest);
      hide Inv;
      hide Step;
      var s', b := Step(s, Publish), s.writer.cur[0];
      assert s.published + ([b] + Pending(s'.writer)) == s.published + [b] + Pending(s'.writer);
    }
  }

  lemma PublishEffect(s: Sys)
    requires Inv(s) && s.writer.Publishing?
    ensures
      var s', cur, rest := Step(s, Publish), s.writer.cur, s.writer.rest;
      && cur != []
      && s'.writer == (if |cur| == 1 then Calls(rest) else Storing(cur[1..], rest))
      && s'.published == s.published + [cur[0]] && s'.taken == s.taken
      && s'.begun == s.begun && s'.refused == s.refused && |s'.ring.buf| == |s.ring.buf|
  {
  }

  lemma PendingShrinks(cur: seq<Byte>, rest: seq<seq<Byte>>)
    requires cur != []
    ensures Pending(Publishing(cur, rest))
         == [cur[0]] + Pending(if |cur| == 1 then Calls(rest) else Storing(cur[1..], rest))
  {
    hide Joined;
    var later := Joined(rest);
    if |cur| == 1 {
      assert cur == [cur[0]];
    } else {
      assert cur + later == [cur[0]] + (cur[1..] + later);
    }
  }

  lemma StepKeepsReserved(s: Sys, a: Action)
    requires Reserved(s) && Covered(a)
    ensures Reserved(Step(s, a))
  {
    match a
    case Begin(reserve, calls) => BeginKeepsReserved(s, reserve, calls);
    case NextCall => NextCallKeepsReserved(s);
    case Publish => PublishKeepsReserved(s);
    case _ =>
      hide Inv;
      StepKeepsInv(s, a);
  }

  /** One check is enough: when every message's reservation covers its transfers, no transfer of any
      message is ever refused, whatever the interleaving, and once the writer is done with it each
      message begun has been published whole. */
  lemma {:induction false} ReservationsHold(s: Sys, actions: seq<Action>)
    requires Reserved(s)
    requires forall a :: a in actions ==> Covered(a)
    ensures Reserved(Run(s, actions))
    decreases |actions|
  {
    if actions != [] {
      StepKeepsReserved(s, actions[0]);
      ReservationsHold(Step(s, actions[0]), actions[1..]);
    }
  }

  lemma MessagesAreAtomic(s: Sys, actions: seq<Action>)
    requires Initial(s)
    requires forall a :: a in actions ==> Covered(a)
    ensures
      var s' := Run(s, actions);
      && s'.refused == 0
      && s'.taken <= s'.begun
      && s'.begun == s'.published + Pending(s'.writer)
      && (s'.writer.Ready? ==> s'.published == s'.begun)
  {
    ReservationsHold(s, actions);
  }

  // --------------------------------------------------------------------------------------------
  // The transmit routine, undisturbed

  function Turns(n: nat): seq<Action> {
    if n == 0 then [] else [Store, Publish] + Turns(n - 1)
  }

  /** With the reader at rest, the single accesses of a transfer add up to what `IpcBuff.Tx` does. */
  lemma {:induction false} TransferAlone(s: Sys, d: seq<Byte>, rest: seq<seq<Byte>>)
    requires InRange(s.ring) && d != [] && s.writer == Storing(d, rest)
    ensures Run(s, Turns(|d|))
         == s.(ring := Put(s.ring, d), writer := Calls(rest), published := s.published + d)
    decreases |d|
  {
    var s1 := Step(s, Store);
    var s2 := Step(s1, Publish);
    var t := Turns(|d|);
    assert t[1..] == [Publish] + Turns(|d| - 1);
    assert t[1..][1..] == Turns(|d| - 1);
    assert Run(s, t) == Run(s1, t[1..]) == Run(s2, Turns(|d| - 1));
    assert s.published + [d[0]] + d[1..] == s.published + d;
    if |d| > 1 {
      TransferAlone(s2, d[1..], rest);
    } else {
      assert d[1..] == [];
    }
  }
}
