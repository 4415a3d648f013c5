/**
 The shared-memory ring between two processors.

 One processor writes bytes, the other reads them, and nothing but the ring itself is shared: there is
 no lock.  `IpcBuff` is the ring as either processor's code uses it, one processor at a time.
 */
module IpcRing {
  import opened Modular
  import opened Words

  const IPC_QUEUE_LEN := 128

  /** `rp` is written by the reader only, `wp` and the buffer by the writer only. */
  datatype Ring = Ring(buf: seq<Byte>, rp: nat, wp: nat)

  predicate InRange(r: Ring) {
    |r.buf| >= 2 && r.rp < |r.buf| && r.wp < |r.buf|
  }

  function Count(r: Ring): (n: nat)
    requires InRange(r)
    ensures n < |r.buf|
  {
    (r.wp + |r.buf| - r.rp) % |r.buf|
  }

  predicate RoomFor(r: Ring, len: nat)
    requires InRange(r)
  {
    len < |r.buf| - Count(r)
  }

  function Stored(r: Ring, b: Byte): (r': Ring)
    requires InRange(r)
    ensures InRange(r')
  {
    r.(buf := r.buf[r.wp := b])
  }

  function Published(r: Ring): (r': Ring)
    requires InRange(r)
    ensures InRange(r')
  {
    r.(wp := (r.wp + 1) % |r.buf|)
  }

  function Advanced(r: Ring): (r': Ring)
    requires InRange(r)
    ensures InRange(r')
  {
    r.(rp := (r.rp + 1) % |r.buf|)
  }

  /** Storing and publishing a whole transfer, byte by byte. */
  function Put(r: Ring, d: seq<Byte>): (r': Ring)
    requires InRange(r)
    ensures InRange(r') && |r'.buf| == |r.buf| && r'.rp == r.rp
    decreases |d|
  {
    if d == [] then r else Put(Published(Stored(r, d[0])), d[1..])
  }

  /** The unread bytes, oldest first. */
  function Contents(r: Ring): (s: seq<Byte>)
    requires InRange(r)
    ensures |s| == Count(r)
  {
    seq(Count(r), i requires 0 <= i < Count(r) => r.buf[(r.rp + i) % |r.buf|])
  }

  // --------------------------------------------------------------------------------------------
  // The code of one processor at a time

  lemma UnreadPlaceKept(r: Ring, i: nat)
    requires InRange(r) && i < Count(r)
    ensures (r.rp + i) % |r.buf| != r.wp
  {
    PlaceOfCount(r);
    DistinctPlaces(r.rp + i, r.rp + Count(r), |r.buf|);
  }

  lemma PutOne(r: Ring, b: Byte)
    requires InRange(r) && RoomFor(r, 1)
    ensures Contents(Published(Stored(r, b))) == Contents(r) + [b]
  {
    hide Count;
    hide Contents;
    var c := Count(r);
    CountAfterPut(r, b);
    PlaceOfCount(r);
    PutOneByPlace(r, Published(Stored(r, b)), b, c);
  }

  lemma PutOneByPlace(r: Ring, r': Ring, b: Byte, c: nat)
    requires InRange(r) && InRange(r') && c == Count(r) && Count(r') == c + 1
    requires r'.rp == r.rp && r'.buf == r.buf[r.wp := b]
    requires (r.rp + c) % |r.buf| == r.wp
    ensures Contents(r') == Contents(r) + [b]
  {
    hide Count;
    forall i | 0 <= i < c + 1
      ensures Contents(r')[i] == (Contents(r) + [b])[i]
    {
      if i < c {
        UnreadPlaceKept(r, i);
      }
    }
  }

  /** The write index is where the next byte will be read from, Count places on. */
  lemma PlaceOfCount(r: Ring)
    requires InRange(r)
    ensures (r.rp + Count(r)) % |r.buf| == r.wp
  {
    var n, x := |r.buf|, r.wp + |r.buf| - r.rp;
    if x < n {
      ModUnique(x, n, 0, x);
      ModUnique(r.rp + x, n, 1, r.wp);
    } else {
      ModUnique(x, n, 1, x - n);
      ModUnique(r.rp + (x - n), n, 0, r.wp);
    }
  }

  lemma CountAfterPut(r: Ring, b: Byte)
    requires InRange(r) && RoomFor(r, 1)
    ensures Count(Published(Stored(r, b))) == Count(r) + 1
  {
    var n, c := |r.buf|, Count(r);
    PlaceOfCount(r);
    var w := r.rp + c + 1;
    ModOfSum(r.rp + c, 1, n);
    assert Published(Stored(r, b)).wp == w % n;
    CountIsDifference(r.rp, w, n);
    ModUnique(r.rp, n, 0, r.rp);
  }

  lemma TakeOne(r: Ring)
    requires InRange(r) && Count(r) > 0
    ensures Contents(r)[0] == r.buf[r.rp]
    ensures Contents(Advanced(r)) == Contents(r)[1..]
  {
    var n, c := |r.buf|, Count(r);
    var r' := Advanced(r);
    ModUnique(r.rp, n, 0, r.rp);
    PlaceOfCount(r);
    assert Count(r') == c - 1 by {
      CountIsDifference(r.rp + 1, r.rp + c, n);
    }
    forall i | 0 <= i < c - 1
      ensures Contents(r')[i] == Contents(r)[i + 1]
    {
      ModOfSum(r.rp + 1, i, n);
    }
  }

  /** A transfer that was checked for room goes to the back of the queue, whole. */
  lemma {:induction false} PutAppends(r: Ring, d: seq<Byte>)
    requires InRange(r) && RoomFor(r, |d|)
    ensures Contents(Put(r, d)) == Contents(r) + d
    decreases |d|
  {
    if d == [] {
      assert Contents(r) + d == Contents(r);
    } else {
      PutOne(r, d[0]);
      PutAppends(Published(Stored(r, d[0])), d[1..]);
      assert Contents(r) + [d[0]] + d[1..] == Contents(r) + d;
    }
  }

  lemma RoomByContents(r: Ring, len: nat)
    requires InRange(r)
    ensures RoomFor(r, len) <==> |Contents(r)| + len < |r.buf|
  {
  }

  class IpcBuff {
    var rp: nat
    var wp: nat
    const buffer: array<Byte>

    ghost predicate Valid()
      reads this
    {
      buffer.Length >= 2 && rp < buffer.Length && wp < buffer.Length
    }

    ghost function Abs(): (r: Ring)
      reads this, buffer
      requires Valid()
      ensures InRange(r) && |r.buf| == buffer.Length
    {
      Ring(buffer[..], rp, wp)
    }

    constructor (len: nat)
      requires len >= 2
      ensures Valid() && fresh(buffer) && buffer.Length == len
      ensures Abs().rp == Abs().wp == 0
    {
      rp, wp := 0, 0;
      buffer := new Byte[len](i => 0);
    }

    method TxRoomCheck(len: nat) returns (ok: bool)
      requires Valid()
      ensures ok <==> RoomFor(Abs(), len)
    {
      ok := len < buffer.Length - (wp + buffer.Length - rp) % buffer.Length;
    }

    /** Transmit the entire message or nothing at all. */
    method Tx(d: seq<Byte>) returns (ok: bool)
      requires Valid()
      modifies `wp, buffer
      ensures Valid()
      ensures ok <==> RoomFor(old(Abs()), |d|)
      ensures Abs() == if ok then Put(old(Abs()), d) else old(Abs())
      ensures Contents(Abs()) == if ok then old(Contents(Abs())) + d else old(Contents(Abs()))
    {
      hide Count;
      hide Contents;
      hide RoomFor;
      ok := TxRoomCheck(|d|);
      if !ok {
        return;
      }
      ghost var start := Abs();
      var len, i := |d|, 0;
      while len != 0
        invariant 0 <= i <= |d| && len == |d| - i && Valid()
        invariant Put(Abs(), d[i..]) == Put(start, d)
      {
        ghost var r := Abs();
        buffer[wp] := d[i];
        assert Abs() == Stored(r, d[i]);
        len := len - 1;
        wp := (wp + 1) % buffer.Length;
        assert Abs() == Published(Stored(r, d[i]));
        assert d[i..][1..] == d[i + 1..];
        i := i + 1;
      }
      PutAppends(start, d);
    }

    method DataPending() returns (pending: bool)
      requires Valid()
      ensures pending <==> Contents(Abs()) != []
    {
      pending := rp != wp;
      if pending {
        PlaceOfCount(Abs());
        ModUnique(rp, buffer.Length, 0, rp);
      } else {
        ModUnique(buffer.Length, buffer.Length, 1, 0);
      }
    }

    /** Reading an empty ring gives 0 and changes nothing. */
    method GetRx() returns (b: Byte)
      requires Valid()
      modifies `rp
      ensures Valid()
      ensures old(Contents(Abs())) == [] ==> b == 0 && Abs() == old(Abs())
      ensures old(Contents(Abs())) != [] ==>
        Abs() == Advanced(old(Abs())) && [b] + Contents(Abs()) == old(Contents(Abs()))
    {
      var pending := DataPending();
      if !pending {
        return 0;
      }
      TakeOne(Abs());
      b := buffer[rp];
      rp := (rp + 1) % buffer.Length;
    }
  }
}
