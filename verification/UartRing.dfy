/**
 The byte rings of the serial ports.

 These rings move an index first and then use the place it has come to, so that the oldest byte lies one
 place past the read index.  Such a ring is the ring of `IpcRing` with both indices one place ahead, and
 that is how its contents are defined here; a full ring holds one byte less than it has places, a byte
 put into a full ring is dropped, and a byte taken from an empty one is 0.
 */
module UartRing {
  import opened Modular
  import opened Words
  import opened IpcRing

  const TX_QUEUE_LEN := 128
  const RX_QUEUE_LEN := 256

  predicate Full(r: Ring)
    requires InRange(r)
  {
    Count(r) == |r.buf| - 1
  }

  predicate Empty(r: Ring) {
    r.rp == r.wp
  }

  function PutByte(r: Ring, y: Byte): (r': Ring)
    requires InRange(r)
    ensures InRange(r') && |r'.buf| == |r.buf| && r'.rp == r.rp
  {
    if Full(r) then r
    else
      var at := (r.wp + 1) % |r.buf|;
      r.(buf := r.buf[at := y], wp := at)
  }

  /** The first half of taking a byte: the read index moves, and then points at the byte. */
  function Next(r: Ring): (r': Ring)
    requires InRange(r)
    ensures InRange(r')
  {
    r.(rp := (r.rp + 1) % |r.buf|)
  }

  /** The same ring, seen as one whose indices move afterwards. */
  function Ahead(r: Ring): (a: Ring)
    requires InRange(r)
    ensures InRange(a)
  {
    r.(rp := (r.rp + 1) % |r.buf|, wp := (r.wp + 1) % |r.buf|)
  }

  /** The waiting bytes, oldest first. */
  function Queued(r: Ring): seq<Byte>
    requires InRange(r)
  {
    Contents(Ahead(r))
  }

  /** The byte at position k, counted round the ring as often as need be. */
  function At(r: Ring, k: nat): Byte
    requires InRange(r)
  {
    r.buf[k % |r.buf|]
  }

  lemma SameAt(r: Ring, r': Ring, k: nat)
    requires InRange(r) && InRange(r') && r.buf == r'.buf
    ensures At(r, k) == At(r', k)
  {
  }

  lemma AtWraps(r: Ring, a: nat, k: nat)
    requires InRange(r)
    ensures At(r, a % |r.buf| + k) == At(r, a + k)
  {
    ModOfSum(a, k, |r.buf|);
  }

  lemma CountByPlaces(r: Ring, a: nat, c: nat)
    requires InRange(r) && c < |r.buf| && r.rp == a % |r.buf| && r.wp == (a + c) % |r.buf|
    ensures Count(r) == c
  {
    CountIsDifference(a, a + c, |r.buf|);
  }

  lemma CountOfAhead(r: Ring)
    requires InRange(r)
    ensures Count(Ahead(r)) == Count(r)
  {
    hide Count;
    PlaceOfCount(r);
    ModOfSum(r.rp + Count(r), 1, |r.buf|);
    CountByPlaces(Ahead(r), r.rp + 1, Count(r));
  }

  lemma QueuedLength(r: Ring)
    requires InRange(r)
    ensures |Queued(r)| == Count(r) <= |r.buf| - 1
  {
    hide Count;
    CountOfAhead(r);
  }

  /** The i-th waiting byte lies i + 1 places past the read index. */
  lemma QueuedAt(r: Ring, i: nat)
    requires InRange(r) && i < Count(r)
    ensures i < |Queued(r)| && Queued(r)[i] == At(r, r.rp + 1 + i)
  {
    hide Count;
    hide Contents;
    hide At;
    QueuedLength(r);
    CountOfAhead(r);
    ContentsAt(Ahead(r), i);
    SameAt(Ahead(r), r, Ahead(r).rp + i);
    AtWraps(r, r.rp + 1, i);
  }

  lemma ContentsAt(a: Ring, i: nat)
    requires InRange(a) && i < Count(a)
    ensures Contents(a)[i] == At(a, a.rp + i)
  {
  }

  lemma FullByQueued(r: Ring)
    requires InRange(r)
    ensures Full(r) <==> |Queued(r)| == |r.buf| - 1
  {
    QueuedLength(r);
  }

  /** Equal indices mean that nothing waits. */
  lemma EmptyByQueued(r: Ring)
    requires InRange(r)
    ensures Empty(r) <==> Queued(r) == []
  {
    hide Contents;
    QueuedLength(r);
    if Empty(r) {
      ModUnique(|r.buf|, |r.buf|, 1, 0);
    } else {
      PlaceOfCount(r);
      ModUnique(r.rp, |r.buf|, 0, r.rp);
    }
  }

  lemma AheadOfPut(r: Ring, y: Byte)
    requires InRange(r) && !Full(r)
    ensures Ahead(PutByte(r, y)) == Published(Stored(Ahead(r), y))
  {
  }

  /** A byte goes to the back of the queue, or is dropped when the queue is full. */
  lemma PutByteAppends(r: Ring, y: Byte)
    requires InRange(r)
    ensures Queued(PutByte(r, y)) == if |Queued(r)| == |r.buf| - 1 then Queued(r) else Queued(r) + [y]
  {
    hide Contents;
    QueuedLength(r);
    if !Full(r) {
      CountOfAhead(r);
      AheadOfPut(r, y);
      PutOne(Ahead(r), y);
    }
  }

  lemma CountOfNext(r: Ring)
    requires InRange(r) && Count(r) > 0
    ensures Count(Next(r)) == Count(r) - 1
  {
    hide Count;
    PlaceOfCount(r);
    CountByPlaces(Next(r), r.rp + 1, Count(r) - 1);
  }

  /** The byte taken is the oldest. */
  lemma NextTakes(r: Ring)
    requires InRange(r) && Queued(r) != []
    ensures Queued(r) == [r.buf[Next(r).rp]] + Queued(Next(r))
  {
    hide Queued;
    hide Count;
    QueuedLength(r);
    CountOfNext(r);
    QueuedLength(Next(r));
    QueuedAt(r, 0);
    assert At(r, r.rp + 1) == r.buf[Next(r).rp];
    hide At;
    forall i | 0 <= i < Count(r) - 1
      ensures Queued(r)[i + 1] == Queued(Next(r))[i]
    {
      NextAt(r, i);
    }
  }

  lemma NextAt(r: Ring, i: nat)
    requires InRange(r) && i + 1 < Count(r)
    ensures i + 1 < |Queued(r)| && i < |Queued(Next(r))| && Queued(r)[i + 1] == Queued(Next(r))[i]
  {
    hide Queued;
    hide Count;
    hide At;
    CountOfNext(r);
    QueuedAt(r, i + 1);
    QueuedAt(Next(r), i);
    AtWraps(r, r.rp + 1, 1 + i);
    SameAt(Next(r), r, Next(r).rp + 1 + i);
  }

  // --------------------------------------------------------------------------------------------
  // A put in two halves: the write index moves, and then the byte is stored where it points

  lemma PutIsPublishAndStore(r: Ring, y: Byte)
    requires InRange(r) && !Full(r)
    ensures PutByte(r, y) == Stored(Published(r), y)
  {
  }

  /** Between the halves the queue ends in whatever the place held before. */
  lemma PublishedStale(r: Ring)
    requires InRange(r) && |Queued(r)| < |r.buf| - 1
    ensures Queued(Published(r)) == Queued(r) + [Published(r).buf[Published(r).wp]]
  {
    hide Queued;
    FullByQueued(r);
    var stale := Published(r).buf[Published(r).wp];
    assert PutByte(r, stale) == Published(r);
    PutByteAppends(r, stale);
  }

  lemma StoredAt(r: Ring, y: Byte, i: nat)
    requires InRange(r) && i < Count(r)
    ensures At(Stored(r, y), r.rp + 1 + i) == if i == Count(r) - 1 then y else At(r, r.rp + 1 + i)
  {
    hide Count;
    PlaceOfCount(r);
    if i < Count(r) - 1 {
      DistinctPlaces(r.rp + 1 + i, r.rp + Count(r), |r.buf|);
    }
  }

  lemma CountOfStored(r: Ring, y: Byte)
    requires InRange(r)
    ensures Count(Stored(r, y)) == Count(r)
  {
  }

  /** The second half puts the byte there, if the place is still waiting to be read. */
  lemma StoreReplacesLast(r: Ring, y: Byte)
    requires InRange(r)
    ensures Queued(Stored(r, y)) == if Queued(r) == [] then [] else Queued(r)[..|Queued(r)| - 1] + [y]
  {
    hide Queued;
    hide Count;
    hide At;
    QueuedLength(r);
    QueuedLength(Stored(r, y));
    CountOfStored(r, y);
    forall i | 0 <= i < Count(r)
      ensures Queued(Stored(r, y))[i] == if i == Count(r) - 1 then y else Queued(r)[i]
    {
      QueuedAt(r, i);
      QueuedAt(Stored(r, y), i);
      StoredAt(r, y, i);
    }
  }

  /** The place last taken from is not the place that the next byte put goes to. */
  lemma PutSparesLastTaken(r: Ring, y: Byte)
    requires InRange(r)
    ensures PutByte(r, y).buf[r.rp] == r.buf[r.rp]
  {
    if !Full(r) {
      PlaceOfCount(r);
      ModOfSum(r.rp + Count(r), 1, |r.buf|);
      DistinctPlaces(r.rp, r.rp + Count(r) + 1, |r.buf|);
      ModUnique(r.rp, |r.buf|, 0, r.rp);
    }
  }

  // --------------------------------------------------------------------------------------------
  // A transmit call that nothing disturbs

  /** Put bytes while there is room. */
  function PutBytes(r: Ring, d: seq<Byte>): (r': Ring)
    requires InRange(r)
    ensures InRange(r') && |r'.buf| == |r.buf| && r'.rp == r.rp
    decreases |d|
  {
    if d == [] then r else PutBytes(PutByte(r, d[0]), d[1..])
  }

  lemma {:induction false} PutBytesOneMore(r: Ring, d: seq<Byte>, y: Byte)
    requires InRange(r)
    ensures PutBytes(r, d + [y]) == PutByte(PutBytes(r, d), y)
    decreases |d|
  {
    hide PutByte;
    if d == [] {
      assert [y][1..] == [];
      assert PutBytes(r, [y]) == PutBytes(PutByte(r, y), []);
    } else {
      assert (d + [y])[1..] == d[1..] + [y];
      PutBytesOneMore(PutByte(r, d[0]), d[1..], y);
    }
  }

  function Least(a: nat, b: nat): (r: nat)
    ensures r <= a && r <= b && (r == a || r == b)
  {
    if a < b then a else b
  }

  function Room(r: Ring): (n: nat)
    requires InRange(r)
  {
    |r.buf| - 1 - Count(r)
  }

  lemma NothingPut(r: Ring, d: seq<Byte>)
    requires InRange(r) && d == []
    ensures PutBytes(r, d) == r
  {
  }

  lemma RoomByQueued(r: Ring)
    requires InRange(r)
    ensures Room(r) == |r.buf| - 1 - |Queued(r)|
  {
    QueuedLength(r);
  }

  /** What a transmit call works on: the ring, the bytes written to the transmitter so far, whether the
      transmitter interrupts, and the semaphore that reports room. */
  datatype TxSide = TxSide(ring: Ring, sent: seq<Byte>, threEnabled: bool, isTxSpace: bool)

  /** What becomes of it by a call when no interrupt falls in the call and the transmitter takes `direct`
      bytes at its beginning; and how many bytes the call accepts. */
  function TxtAlone(t: TxSide, d: seq<Byte>, direct: nat): (r: (TxSide, nat))
    requires InRange(t.ring)
    ensures r.1 <= |d|
  {
    var i := if Empty(t.ring) then Least(direct, |d|) else 0;
    if i == |d| then (t.(sent := t.sent + d), i)
    else
      var k := i + Least(|d| - i, Room(t.ring));
      (TxSide(PutBytes(t.ring, d[i..k]), t.sent + d[..i], true, t.isTxSpace && k == |d|), k)
  }

  lemma TxtAloneParts(t: TxSide, d: seq<Byte>, direct: nat, i: nat)
    requires InRange(t.ring) && i == if Empty(t.ring) then Least(direct, |d|) else 0
    ensures
      var k := i + Least(|d| - i, Room(t.ring));
      TxtAlone(t, d, direct) ==
        if i == |d| then (t.(sent := t.sent + d[..i]), i)
        else (TxSide(PutBytes(t.ring, d[i..k]), t.sent + d[..i], true, t.isTxSpace && k == |d|), k)
  {
    assert d[..|d|] == d;
  }
}
