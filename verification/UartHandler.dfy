/**
 A serial port: its two rings, as interrupt handler and tasks use them.

 The transmitter hardware is `sent`, the bytes written to it so far.  How many bytes it accepts at a
 time, and which interrupts fall between the steps of a task, are parameters.
 */
module UartHandler {
  import opened Words
  import opened IpcRing
  import opened UartRing

  function Repeat(c: Byte, n: nat): (s: seq<Byte>)
    ensures |s| == n && forall i :: 0 <= i < n ==> s[i] == c
  {
    seq(n, i => c)
  }

  lemma Segments(start: seq<Byte>, d: seq<Byte>, i: nat, k: nat)
    requires i <= k <= |d|
    ensures start + d[..i] + d[i..k] == start + d[..k]
  {
    assert d[..i] + d[i..k] == d[..k];
  }

  class Port {
    const rxb: array<Byte>
    var rxrp: nat
    var rxwp: nat
    const txb: array<Byte>
    var txrp: nat
    var txwp: nat
    var open: bool
    var isTxSpace: bool     // the semaphore
    var threEnabled: bool   // whether the transmitter interrupts
    var sent: seq<Byte>

    ghost predicate Valid()
      reads `rxrp, `rxwp, `txrp, `txwp
    {
      && rxb != txb
      && rxb.Length >= 2 && rxrp < rxb.Length && rxwp < rxb.Length
      && txb.Length >= 2 && txrp < txb.Length && txwp < txb.Length
    }

    ghost function Rx(): (r: Ring)
      reads `rxrp, `rxwp, `txrp, `txwp, rxb
      requires Valid()
      ensures InRange(r)
    {
      Ring(rxb[..], rxrp, rxwp)
    }

    ghost function Tx(): (r: Ring)
      reads `rxrp, `rxwp, `txrp, `txwp, txb
      requires Valid()
      ensures InRange(r)
    {
      Ring(txb[..], txrp, txwp)
    }

    /** Everything written to the transmitter, and then everything that is still to be written to it. */
    ghost function Outgoing(): seq<Byte>
      reads `rxrp, `rxwp, `txrp, `txwp, `sent, txb
      requires Valid()
    {
      sent + Queued(Tx())
    }

    lemma OutgoingParts()
      requires Valid()
      ensures sent <= Outgoing() && Outgoing()[|sent|..] == Queued(Tx())
    {
    }

    ghost function Side(): (t: TxSide)
      reads `rxrp, `rxwp, `txrp, `txwp, `sent, `threEnabled, `isTxSpace, txb
      requires Valid()
      ensures InRange(t.ring)
    {
      TxSide(Tx(), sent, threEnabled, isTxSpace)
    }

    constructor ()
      ensures Valid() && fresh(rxb) && fresh(txb)
      ensures rxb.Length == 256 && txb.Length == 128
      ensures Rx().rp == Rx().wp == Tx().rp == Tx().wp == 0 && sent == [] && !open
    {
      rxb := new Byte[RX_QUEUE_LEN](i => 0);
      txb := new Byte[TX_QUEUE_LEN](i => 0);
      rxrp, rxwp, txrp, txwp := 0, 0, 0, 0;
      open, isTxSpace, threEnabled, sent := false, false, false, [];
    }

    // ------------------------------------------------------------------------------------------
    // Reception

    /** The receive interrupt; `event` says whether the port's callback is called. */
    method RxInterrupt(j: Byte) returns (event: bool)
      requires Valid()
      modifies `rxwp, rxb
      ensures Valid() && Tx() == old(Tx())
      ensures event <==> Queued(old(Rx())) == []
      ensures Rx() == PutByte(old(Rx()), j)
      ensures Queued(Rx()) ==
        if |Queued(old(Rx()))| == rxb.Length - 1 then Queued(old(Rx())) else Queued(old(Rx())) + [j]
    {
      hide Queued;
      EmptyByQueued(Rx());
      PutByteAppends(Rx(), j);
      event := rxrp == rxwp;
      if (rxwp + rxb.Length - rxrp) % rxb.Length != rxb.Length - 1 {
        rxwp := (rxwp + 1) % rxb.Length;
        rxb[rxwp] := j;
      }
    }

    method DataPending() returns (pending: bool)
      requires Valid()
      ensures pending <==> Queued(Rx()) != []
    {
      EmptyByQueued(Rx());
      pending := rxrp != rxwp;
    }

    method GetRx() returns (b: Byte)
      requires Valid()
      modifies `rxrp
      ensures Valid() && Tx() == old(Tx())
      ensures Queued(old(Rx())) == [] ==> b == 0 && Rx() == old(Rx())
      ensures Queued(old(Rx())) != [] ==>
        Rx() == Next(old(Rx())) && [b] + Queued(Rx()) == Queued(old(Rx()))
    {
      hide Queued;
      EmptyByQueued(Rx());
      if rxrp == rxwp {
        return 0;
      }
      NextTakes(Rx());
      rxrp := (rxrp + 1) % rxb.Length;
      b := rxb[rxrp];
    }

    // ------------------------------------------------------------------------------------------
    // Transmission

    method TxFull() returns (full: bool)
      requires Valid()
      ensures full <==> |Queued(Tx())| == txb.Length - 1
      ensures full <==> Full(Tx())
    {
      hide Queued;
      FullByQueued(Tx());
      full := (txwp + txb.Length - txrp) % txb.Length == txb.Length - 1;
    }

    method QueueByte(y: Byte)
      requires Valid() && |Queued(Tx())| != txb.Length - 1
      modifies `txwp, txb
      ensures Valid() && Rx() == old(Rx())
      ensures Tx() == PutByte(old(Tx()), y)
      ensures |Queued(Tx())| == old(|Queued(Tx())|) + 1
      ensures Outgoing() == old(Outgoing()) + [y]
    {
      hide Queued;
      hide Full;
      PutByteAppends(Tx(), y);
      FullByQueued(Tx());
      ghost var r := Tx();
      txwp := (txwp + 1) % txb.Length;
      txb[txwp] := y;
      assert Tx() == PutByte(r, y);
    }

    /** Hand the oldest byte to the transmitter. */
    method SendQueuedByte()
      requires Valid() && Queued(Tx()) != []
      modifies `txrp, `sent
      ensures Valid() && Rx() == old(Rx())
      ensures Outgoing() == old(Outgoing())
      ensures |sent| == |old(sent)| + 1
      ensures |Queued(Tx())| == |Queued(old(Tx()))| - 1
    {
      hide Queued;
      NextTakes(Tx());
      txrp := (txrp + 1) % txb.Length;
      sent := sent + [txb[txrp]];
    }

    method TxEmpty() returns (empty: bool)
      requires Valid()
      ensures empty <==> |Queued(Tx())| == 0
    {
      EmptyByQueued(Tx());
      empty := txrp == txwp;
    }

    /** The transmitter interrupt, when the transmitter will accept `ready` bytes: that many of the oldest
        bytes go out, or as many as there are.  With nothing to send it turns itself off. */
    method TxInterrupt(ready: nat)
      requires Valid()
      modifies `txrp, `sent, `threEnabled, `isTxSpace
      ensures Valid() && Rx() == old(Rx())
      ensures Outgoing() == old(Outgoing())
      ensures |sent| - |old(sent)| == Least(ready, |Queued(old(Tx()))|)
      ensures |Queued(Tx())| <= |Queued(old(Tx()))|
      ensures threEnabled == (old(threEnabled) && |Queued(old(Tx()))| > 0)
      ensures isTxSpace == (old(isTxSpace) || |Queued(old(Tx()))| > 0)
    {
      hide Queued;
      hide Outgoing;
      var empty := TxEmpty();
      if empty {
        threEnabled := false;
      } else {
        var left := ready;
        while left > 0 && !empty
          invariant Valid() && Rx() == old(Rx()) && Outgoing() == old(Outgoing())
          invariant threEnabled == old(threEnabled)
          invariant 0 <= left <= ready && |sent| == |old(sent)| + (ready - left)
          invariant |Queued(Tx())| == |Queued(old(Tx()))| - (ready - left)
          invariant empty <==> |Queued(Tx())| == 0
        {
          SendQueuedByte();
          left := left - 1;
          empty := TxEmpty();
        }
        isTxSpace := true;
      }
    }

    /** Transmitter interrupts that fall between two steps of a task; they need to be enabled. */
    method Interrupted(readies: seq<nat>)
      requires Valid()
      modifies `txrp, `sent, `threEnabled, `isTxSpace
      ensures Valid() && Rx() == old(Rx())
      ensures Outgoing() == old(Outgoing())
      ensures |Queued(Tx())| <= |Queued(old(Tx()))|
      ensures readies == [] ==> isTxSpace == old(isTxSpace)
    {
      hide Queued;
      hide Outgoing;
      for i := 0 to |readies|
        invariant Valid() && Rx() == old(Rx()) && Outgoing() == old(Outgoing())
        invariant |Queued(Tx())| <= |Queued(old(Tx()))|
        invariant i == 0 ==> isTxSpace == old(isTxSpace)
      {
        if threEnabled {
          TxInterrupt(readies[i]);
        }
      }
    }

    /** The first bytes of d go straight to the transmitter, if nothing is queued before them. */
    method SendDirectly(d: seq<Byte>, direct: nat) returns (i: nat)
      requires Valid()
      modifies `sent
      ensures Valid() && i <= |d|
      ensures Outgoing() == old(Outgoing()) + d[..i]
      ensures sent == old(sent) + d[..i]
      ensures i == if Empty(Tx()) then Least(direct, |d|) else 0
    {
      hide Queued;
      EmptyByQueued(Tx());
      i := 0;
      var empty := TxEmpty();
      if empty {
        var thr := direct;
        while i < |d| && thr > 0
          invariant i <= |d| && i + thr == direct
          invariant sent == old(sent) + d[..i]
        {
          sent := sent + [d[i]];
          i, thr := i + 1, thr - 1;
        }
      }
    }

    /** With interrupts masked, the bytes of d from the i-th on are queued until the ring is full. */
    method QueueMasked(d: seq<Byte>, i: nat) returns (k: nat)
      requires Valid() && i <= |d|
      modifies `txwp, txb
      ensures Valid() && Rx() == old(Rx())
      ensures i <= k <= |d| && Outgoing() == old(Outgoing()) + d[i..k]
      ensures k - i == Least(|d| - i, Room(old(Tx())))
      ensures Tx() == PutBytes(old(Tx()), d[i..k])
      ensures |Queued(Tx())| == |Queued(old(Tx()))| + (k - i)
    {
      hide Queued;
      hide Outgoing;
      hide Full;
      hide Count;
      hide PutByte;
      hide PutBytes;
      k := i;
      RoomByQueued(Tx());
      NothingPut(Tx(), d[i..i]);
      var full := TxFull();
      while k < |d| && !full
        invariant Valid() && Rx() == old(Rx())
        invariant i <= k <= |d| && Outgoing() == old(Outgoing()) + d[i..k]
        invariant Tx() == PutBytes(old(Tx()), d[i..k])
        invariant |Queued(Tx())| == |Queued(old(Tx()))| + (k - i)
        invariant full <==> |Queued(Tx())| == txb.Length - 1
      {
        QueueByte(d[k]);
        assert d[i..k] + [d[k]] == d[i..k + 1];
        PutBytesOneMore(old(Tx()), d[i..k], d[k]);
        k := k + 1;
        full := TxFull();
      }
      QueuedLength(Tx());
    }

    /** The bytes of d from the i-th on are queued until the ring is full; interrupts may fall after each. */
    method QueueWhileRoom(d: seq<Byte>, i: nat, interrupts: seq<seq<nat>>)
      returns (k: nat, rest: seq<seq<nat>>)
      requires Valid() && i <= |d|
      modifies `txrp, `txwp, `sent, `threEnabled, `isTxSpace, txb
      ensures Valid() && Rx() == old(Rx())
      ensures i <= k <= |d| && Outgoing() == old(Outgoing()) + d[i..k]
      ensures |rest| <= |interrupts|
      ensures isTxSpace ==> old(isTxSpace) || |rest| < |interrupts|
      ensures |Queued(old(Tx()))| == txb.Length - 1 ==> k == i && rest == interrupts && Side() == old(Side())
    {
      hide Queued;
      hide Outgoing;
      hide Full;
      k, rest := i, interrupts;
      assert d[i..i] == [];
      var full := TxFull();
      while k < |d| && !full
        invariant Valid() && Rx() == old(Rx())
        invariant i <= k <= |d| && Outgoing() == old(Outgoing()) + d[i..k]
        invariant full <==> |Queued(Tx())| == txb.Length - 1
        invariant |rest| <= |interrupts|
        invariant isTxSpace ==> old(isTxSpace) || |rest| < |interrupts|
        invariant |Queued(old(Tx()))| == txb.Length - 1 ==>
          full && k == i && rest == interrupts && Side() == old(Side())
      {
        QueueByte(d[k]);
        assert d[i..k] + [d[k]] == d[i..k + 1];
        k := k + 1;
        if rest != [] {
          Interrupted(rest[0]);
          rest := rest[1..];
        }
        full := TxFull();
      }
    }

    /** The rest of d is queued as the semaphore reports room, until a wait for it times out. */
    method QueueWithDelay(d: seq<Byte>, i: nat, interrupts: seq<seq<nat>>) returns (k: nat)
      requires Valid() && i <= |d|
      modifies `txrp, `txwp, `sent, `threEnabled, `isTxSpace, txb
      ensures Valid() && Rx() == old(Rx())
      ensures i <= k <= |d| && Outgoing() == old(Outgoing()) + d[i..k]
      ensures interrupts == [] && (i == |d| || |Queued(old(Tx()))| == txb.Length - 1) ==>
        k == i && Side() == old(Side()).(isTxSpace := old(isTxSpace) && i == |d|)
    {
      hide Queued;
      hide Outgoing;
      var rest;
      k, rest := i, interrupts;
      assert d[i..i] == [];
      while k < |d|
        invariant Valid() && Rx() == old(Rx())
        invariant i <= k <= |d| && Outgoing() == old(Outgoing()) + d[i..k]
        invariant interrupts == [] && (i == |d| || |Queued(old(Tx()))| == txb.Length - 1) ==>
          rest == [] && k == i && Side().(isTxSpace := false) == old(Side()).(isTxSpace := false)
          && (isTxSpace ==> old(isTxSpace)) && (i == |d| ==> isTxSpace == old(isTxSpace))
        decreases 2 * |rest| + (if isTxSpace then 1 else 0)
      {
        if rest != [] {
          Interrupted(rest[0]);
          rest := rest[1..];
        }
        if !isTxSpace {
          break;
        }
        isTxSpace := false;
        ghost var was := k;
        k, rest := QueueWhileRoom(d, k, rest);
        assert d[i..was] + d[was..k] == d[i..k];
      }
    }

    /** The part of a transmit call with interrupts masked: i bytes have gone straight to the transmitter
        and the bytes up to the k-th are done with. */
    method SendAndQueue(d: seq<Byte>, direct: nat) returns (i: nat, k: nat)
      requires Valid()
      modifies `txwp, `sent, `threEnabled, txb
      ensures Valid() && Rx() == old(Rx())
      ensures i == if Empty(old(Tx())) then Least(direct, |d|) else 0
      ensures k == i + Least(|d| - i, Room(old(Tx())))
      ensures Outgoing() == old(Outgoing()) + d[..k]
      ensures Side() == TxSide(PutBytes(old(Tx()), d[i..k]), old(sent) + d[..i],
                               old(threEnabled) || i < |d|, old(isTxSpace))
      ensures |Queued(Tx())| == |Queued(old(Tx()))| + (k - i)
    {
      hide Queued;
      hide Outgoing;
      hide Room;
      hide PutBytes;
      ghost var start := Outgoing();
      RoomByQueued(Tx());
      i := SendDirectly(d, direct);
      k := i;
      NothingPut(Tx(), d[i..k]);
      if i < |d| {
        k := QueueMasked(d, i);
        threEnabled := true;
      }
      Segments(start, d, i, k);
    }

    /** Transmit, waiting if need be; `accepted` is the number of bytes taken.  `direct` bytes go straight
        to the transmitter if nothing is queued; `interrupts[k]` are the transmitter interrupts that come
        at the k-th place where the task can be interrupted. */
    method Txt(d: seq<Byte>, direct: nat, interrupts: seq<seq<nat>>) returns (accepted: nat)
      requires Valid()
      modifies `txrp, `txwp, `sent, `threEnabled, `isTxSpace, txb
      ensures Valid() && Rx() == old(Rx())
      ensures accepted <= |d|
      ensures Outgoing() == old(Outgoing()) + d[..accepted]
      ensures !open ==> accepted == 0 && Tx() == old(Tx()) && sent == old(sent)
      ensures open ==> accepted == |d| || accepted >= txb.Length - 1 - |Queued(old(Tx()))|
      ensures open && interrupts == [] ==> (Side(), accepted) == TxtAlone(old(Side()), d, direct)
    {
      if !open {
        return 0;
      }
      hide Queued;
      hide Outgoing;
      hide Room;
      hide PutBytes;
      hide Empty;
      hide TxtAlone;
      ghost var t, start := Side(), Outgoing();
      RoomByQueued(Tx());
      var i, k := SendAndQueue(d, direct);
      TxtAloneParts(t, d, direct, i);
      if i == |d| {
        NothingPut(t.ring, d[i..k]);
        return i;
      }
      accepted := QueueWithDelay(d, k, interrupts);
      Segments(start, d, k, accepted);
    }

    /** Transmit the byte c `len` times over, waiting if need be. */
    method Multiput(c: Byte, len: nat, direct: nat, interrupts: seq<seq<nat>>) returns (accepted: nat)
      requires Valid()
      modifies `txrp, `txwp, `sent, `threEnabled, `isTxSpace, txb
      ensures Valid() && Rx() == old(Rx())
      ensures accepted <= len
      ensures Outgoing() == old(Outgoing()) + Repeat(c, accepted)
      ensures !open ==> accepted == 0 && Tx() == old(Tx()) && sent == old(sent)
      ensures open ==> accepted == len || accepted >= txb.Length - 1 - |Queued(old(Tx()))|
      ensures open && interrupts == [] ==> (Side(), accepted) == TxtAlone(old(Side()), Repeat(c, len), direct)
    {
      accepted := Txt(Repeat(c, len), direct, interrupts);
      assert Repeat(c, len)[..accepted] == Repeat(c, accepted);
    }
  }
}
