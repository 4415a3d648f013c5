/**
 How a byte received by a serial port wakes the task that reads the port.

 The receive interrupt puts the byte in the ring and, only if the ring was empty, sets the port's bit
 among the main task's notifications.  The main task waits for notifications, which takes all of them
 (or for ten milliseconds, which may find none), and if the port's bit was among them it takes bytes
 until the ring is empty.  An interrupt is one step; the task's steps are the wait, the look at the ring,
 the move of the read index and the load of the byte, and interrupts fall anywhere between them.
 */
module UartWakeup {
  import opened Words
  import opened IpcRing
  import opened UartRing

  /** Where the task is: at its wait, about to look at the ring, about to move the read index, or about
      to load the byte it now points at. */
  datatype Task = Waiting | Looking | Moving | Loading

  /** `arrived` and `handled` are the whole history of bytes put in the ring and of bytes given to the
      task; `dropped` counts the bytes that found the ring full. */
  datatype Sys = Sys(ring: Ring, bit: bool, task: Task, arrived: seq<Byte>, handled: seq<Byte>, dropped: nat)

  /** `Work` is the task's next step. */
  datatype Event = Receive(b: Byte) | Work

  function Interrupt(s: Sys, b: Byte): Sys
    requires InRange(s.ring)
  {
    s.(ring := PutByte(s.ring, b),
       bit := s.bit || Empty(s.ring),
       arrived := if Full(s.ring) then s.arrived else s.arrived + [b],
       dropped := if Full(s.ring) then s.dropped + 1 else s.dropped)
  }

  function TaskStep(s: Sys): Sys
    requires InRange(s.ring)
  {
    match s.task
    case Waiting => s.(bit := false, task := if s.bit then Looking else Waiting)
    case Looking => s.(task := if Empty(s.ring) then Waiting else Moving)
    case Moving =>
      // reading an empty ring gives a 0
      if Empty(s.ring) then s.(handled := s.handled + [0], task := Looking)
      else s.(ring := Next(s.ring), task := Loading)
    case Loading => s.(handled := s.handled + [s.ring.buf[s.ring.rp]], task := Looking)
  }

  function Step(s: Sys, e: Event): (s': Sys)
    requires InRange(s.ring)
    ensures InRange(s'.ring)
  {
    if e.Receive? then Interrupt(s, e.b) else TaskStep(s)
  }

  function Run(s: Sys, events: seq<Event>): (s': Sys)
    requires InRange(s.ring)
    ensures InRange(s'.ring)
    decreases |events|
  {
    if events == [] then s else Run(Step(s, events[0]), events[1..])
  }

  predicate Initial(s: Sys) {
    && InRange(s.ring) && s.ring.rp == s.ring.wp == 0
    && !s.bit && s.task == Waiting && s.arrived == s.handled == [] && s.dropped == 0
  }

  // --------------------------------------------------------------------------------------------
  // The invariant

  /** The byte the read index points at, while the task has still to load it. */
  function InHand(s: Sys): seq<Byte>
    requires InRange(s.ring)
  {
    if s.task == Loading then [s.ring.buf[s.ring.rp]] else []
  }

  ghost predicate Inv(s: Sys) {
    && InRange(s.ring)
    && s.arrived == s.handled + InHand(s) + Queued(s.ring)
    && (s.task == Waiting && !Empty(s.ring) ==> s.bit)
    && (s.task == Moving ==> !Empty(s.ring))
  }

  lemma InterruptKeepsInv(s: Sys, b: Byte)
    requires Inv(s)
    ensures Inv(Interrupt(s, b)) && InHand(Interrupt(s, b)) == InHand(s)
  {
    hide Queued;
    hide Full;
    PutByteAppends(s.ring, b);
    FullByQueued(s.ring);
    PutSparesLastTaken(s.ring, b);
    EmptyByQueued(s.ring);
    EmptyByQueued(PutByte(s.ring, b));
  }

  lemma TaskStepKeepsInv(s: Sys)
    requires Inv(s)
    ensures Inv(TaskStep(s))
  {
    hide Queued;
    hide Full;
    EmptyByQueued(s.ring);
    if s.task == Moving {
      NextTakes(s.ring);
    }
  }

  lemma {:induction false} RunKeepsInv(s: Sys, events: seq<Event>)
    requires Inv(s)
    ensures Inv(Run(s, events))
    decreases |events|
  {
    if events != [] {
      if events[0].Receive? {
        InterruptKeepsInv(s, events[0].b);
      } else {
        TaskStepKeepsInv(s);
      }
      RunKeepsInv(Step(s, events[0]), events[1..]);
    }
  }

  lemma InitialIsInv(s: Sys)
    requires Initial(s)
    ensures Inv(s)
  {
    EmptyByQueued(s.ring);
  }

  // --------------------------------------------------------------------------------------------
  // No wake-up is lost

  /** In every reachable state: bytes in the ring while the task is at its wait mean that its wait will
      return with the port's bit set. */
  lemma NoLostWakeup(s: Sys, events: seq<Event>)
    requires Initial(s)
    ensures
      var s' := Run(s, events);
      s'.task == Waiting && Queued(s'.ring) != [] ==> s'.bit
  {
    InitialIsInv(s);
    RunKeepsInv(s, events);
    EmptyByQueued(Run(s, events).ring);
  }

  /** The task handles exactly the bytes put in the ring, each once and in order; in particular it never
      handles the 0 of an empty ring, and no byte changes between the move and the load. */
  lemma HandledIsPrefixOfArrived(s: Sys, events: seq<Event>)
    requires Initial(s)
    ensures
      var s' := Run(s, events);
      && s'.handled <= s'.arrived
      && (s'.task != Loading ==> s'.arrived == s'.handled + Queued(s'.ring))
  {
    InitialIsInv(s);
    RunKeepsInv(s, events);
  }

  /** Interrupts, however many, leave the byte the task is about to load as it was. */
  lemma {:induction false} ByteInHandIsSafe(s: Sys, bytes: seq<Byte>)
    requires Inv(s) && s.task == Loading
    ensures
      var s' := Run(s, seq(|bytes|, i requires 0 <= i < |bytes| => Receive(bytes[i])));
      && s'.task == Loading && s'.ring.rp == s.ring.rp
      && s'.ring.buf[s'.ring.rp] == s.ring.buf[s.ring.rp]
    decreases |bytes|
  {
    if bytes != [] {
      var events := seq(|bytes|, i requires 0 <= i < |bytes| => Receive(bytes[i]));
      var s1 := Interrupt(s, bytes[0]);
      assert events[1..] == seq(|bytes| - 1, i requires 0 <= i < |bytes| - 1 => Receive(bytes[1..][i]));
      InterruptKeepsInv(s, bytes[0]);
      ByteInHandIsSafe(s1, bytes[1..]);
    }
  }

  /** The bytes that ran into a full ring are the only ones that are lost. */
  lemma {:induction false} EveryByteIsAccountedFor(s: Sys, events: seq<Event>)
    requires InRange(s.ring)
    ensures
      var s' := Run(s, events);
      |s'.arrived| + s'.dropped == |s.arrived| + s.dropped + Receptions(events)
    decreases |events|
  {
    if events != [] {
      EveryByteIsAccountedFor(Step(s, events[0]), events[1..]);
    }
  }

  function Receptions(events: seq<Event>): nat {
    if events == [] then 0 else (if events[0].Receive? then 1 else 0) + Receptions(events[1..])
  }

  /** ... and only when one byte less than the ring has places waits in it. */
  lemma DroppedOnlyWhenFull(s: Sys, b: Byte)
    requires Inv(s)
    ensures
      var s' := Interrupt(s, b);
      if |Queued(s.ring)| == |s.ring.buf| - 1
      then s'.dropped == s.dropped + 1 && s'.ring == s.ring && s'.arrived == s.arrived
      else s'.dropped == s.dropped && Queued(s'.ring) == Queued(s.ring) + [b] && s'.arrived == s.arrived + [b]
  {
    FullByQueued(s.ring);
    PutByteAppends(s.ring, b);
  }

  // --------------------------------------------------------------------------------------------
  // Waiting bytes are handled

  function Works(n: nat): (r: seq<Event>)
    ensures |r| == n
  {
    seq(n, i => Work)
  }

  lemma WorkFirst(s: Sys, n: nat)
    requires InRange(s.ring)
    ensures Run(s, Works(n + 1)) == Run(TaskStep(s), Works(n))
  {
    assert Works(n + 1)[1..] == Works(n);
  }

  /** One round of the task's loop: it handles the oldest byte. */
  lemma DrainOne(s: Sys, n: nat)
    requires Inv(s) && s.task == Looking && Queued(s.ring) != []
    ensures
      var s' := TaskStep(TaskStep(TaskStep(s)));
      && Run(s, Works(n + 3)) == Run(s', Works(n))
      && Inv(s') && s'.task == Looking && s'.arrived == s.arrived
      && Queued(s.ring) == [s.ring.buf[Next(s.ring).rp]] + Queued(s'.ring)
  {
    hide Queued;
    EmptyByQueued(s.ring);
    var s1 := TaskStep(s);
    var s2 := TaskStep(s1);
    TaskStepKeepsInv(s);
    TaskStepKeepsInv(s1);
    TaskStepKeepsInv(s2);
    NextTakes(s.ring);
    WorkFirst(s, n + 2);
    WorkFirst(s1, n + 1);
    WorkFirst(s2, n);
  }

  lemma {:induction false} DrainAll(s: Sys)
    requires Inv(s) && s.task == Looking
    ensures
      var s' := Run(s, Works(3 * |Queued(s.ring)| + 1));
      s'.task == Waiting && Queued(s'.ring) == [] && s'.handled == s'.arrived == s.arrived
    decreases |Queued(s.ring)|
  {
    hide Queued;
    EmptyByQueued(s.ring);
    if Queued(s.ring) == [] {
      WorkFirst(s, 0);
    } else {
      var n := |Queued(s.ring)|;
      DrainOne(s, 3 * (n - 1) + 1);
      DrainAll(TaskStep(TaskStep(TaskStep(s))));
    }
  }

  /** From every reachable state in which the task is at its wait, the task alone brings every byte that
      has arrived to its handler: the wake-up is there, and one wake-up is enough for all of them. */
  lemma WaitingBytesAreHandled(s: Sys, events: seq<Event>)
    requires Initial(s) && Run(s, events).task == Waiting && Queued(Run(s, events).ring) != []
    ensures
      var s1 := Run(s, events);
      var s' := Run(s1, Works(3 * |Queued(s1.ring)| + 2));
      s'.task == Waiting && Queued(s'.ring) == [] && s'.handled == s'.arrived == s1.arrived
  {
    hide Queued;
    InitialIsInv(s);
    RunKeepsInv(s, events);
    NoLostWakeup(s, events);
    var s1 := Run(s, events);
    TaskStepKeepsInv(s1);
    WorkFirst(s1, 3 * |Queued(s1.ring)| + 1);
    DrainAll(TaskStep(s1));
  }
}
