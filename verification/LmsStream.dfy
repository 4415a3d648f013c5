/**
 Fault isolation on the LMS serial link.

 A stream is a list of frames and of noise between them that begins no frame and does not end in half of
 a frame's start.  The payload and checksum bits of a frame may arrive intact, hit by one burst of at most
 16 bits, or hit by an odd number of flips.  Whatever mix of these a stream is, the receiver hands up the intact payloads in order and no other, and counts the
 damaged ones; nor does it matter how the stream is cut into pieces on its way in.
 */
module LmsStream {
  import opened Words
  import opened Crc16
  import opened CrcDetection
  import opened LmsMsg

  /** `body` is what arrives in place of the payload and checksum. */
  datatype Item =
    | Noise(bytes: seq<Byte>)
    | Sent(payload: seq<Byte>, body: seq<Byte>)

  function Codeword(payload: seq<Byte>): (r: seq<Byte>)
    ensures |r| == |payload| + 2
  {
    payload + Footer(Crc(payload))
  }

  ghost predicate Hit(payload: seq<Byte>, body: seq<Byte>)
    requires |body| == |payload| + 2
  {
    var error := XorBits(BitsOf(Codeword(payload)), BitsOf(body));
    Odd(error) || exists i: nat, n: nat :: n <= WIDTH && Burst(error, i, n)
  }

  predicate Intact(item: Item) {
    item.Sent? && item.body == Codeword(item.payload)
  }

  ghost predicate Damaged(item: Item) {
    item.Sent? && |item.body| == |item.payload| + 2 && Hit(item.payload, item.body)
  }

  /** Every start byte, as an idle receiver meets it, is followed by a byte that is not the second one; that
      byte is not looked at again, whatever it is. */
  predicate Harmless(bytes: seq<Byte>)
    decreases |bytes|
  {
    bytes == [] ||
    (if bytes[0] != STX_H then Harmless(bytes[1..])
     else |bytes| >= 2 && bytes[1] != STX_L && Harmless(bytes[2..]))
  }

  /** How many starts fail in noise. */
  function FalseStarts(bytes: seq<Byte>): nat
    decreases |bytes|
  {
    if bytes == [] then 0
    else if bytes[0] != STX_H then 1 + FalseStarts(bytes[1..])
    else if |bytes| == 1 then 0
    else 1 + FalseStarts(bytes[2..])
  }

  ghost predicate WellFormed(item: Item) {
    match item
    case Noise(bytes) => Harmless(bytes)
    case Sent(payload, body) =>
      1 <= |payload| <= LMS_MAX_PACKET_LEN && |body| == |payload| + 2 && (Intact(item) || Damaged(item))
  }

  function Wire(item: Item): seq<Byte>
    requires item.Sent? ==> |item.payload| < 256
  {
    match item
    case Noise(bytes) => bytes
    case Sent(payload, body) => Header(|payload|) + body
  }

  ghost function Stream(items: seq<Item>): seq<Byte>
    requires forall item :: item in items ==> WellFormed(item)
  {
    if items == [] then []
    else assert WellFormed(items[0]); Wire(items[0]) + Stream(items[1..])
  }

  // What the stream should come to, item by item

  function IntactPayloads(items: seq<Item>): seq<seq<Byte>> {
    if items == [] then []
    else (if Intact(items[0]) then [items[0].payload] else []) + IntactPayloads(items[1..])
  }

  function DamagedFrames(items: seq<Item>): nat {
    if items == [] then 0
    else (if items[0].Sent? && !Intact(items[0]) then 1 else 0) + DamagedFrames(items[1..])
  }

  function FalseStartsIn(items: seq<Item>): nat {
    if items == [] then 0
    else (if items[0].Noise? then FalseStarts(items[0].bytes) else 0) + FalseStartsIn(items[1..])
  }

  // --------------------------------------------------------------------------------------------
  // One frame

  lemma {:induction false} RunBody(l: LinkState, got: seq<Byte>, rest: seq<Byte>, verdicts: Verdicts)
    requires rest != [] && l.phase == Body(|rest|, got)
    ensures RunBytes(l, rest, verdicts) == l.(phase := SumHigh(got + rest))
    decreases |rest|
  {
    var l' := Step(l, rest[0], verdicts);
    assert got + rest == got + [rest[0]] + rest[1..];
    if |rest| > 1 {
      RunBody(l', got + [rest[0]], rest[1..], verdicts);
    } else {
      assert rest[1..] == [];
      assert got + rest == got + [rest[0]];
    }
  }

  lemma RunHeader(l: LinkState, len: Byte, verdicts: Verdicts)
    requires l.phase == Idle && 1 <= len <= LMS_MAX_PACKET_LEN
    ensures RunBytes(l, Header(len), verdicts) == l.(phase := Body(len, []))
  {
    hide Crc;
    RunFour(l, STX_H, STX_L, VERSION, len, verdicts);
  }

  lemma RunChecksum(l: LinkState, got: seq<Byte>, high: Byte, low: Byte, verdicts: Verdicts)
    requires l.phase == SumHigh(got)
    ensures RunBytes(l, [high, low], verdicts)
         == if Crc(got) == Join(high, low) then Accept(l.(phase := SumLow(got, high)), got, verdicts)
            else l.(phase := Idle, stats := l.stats.(badPkt := l.stats.badPkt + 1))
  {
    hide Crc;
    assert [high, low][1..] == [low];
    var l1 := Step(l, high, verdicts);
    var l2 := Step(l1, low, verdicts);
    assert RunBytes(l1, [low], verdicts) == RunBytes(l2, [], verdicts) == l2;
  }

  /** A frame, whatever became of its body, brings the receiver back to idle, and is delivered exactly
      if the body passes the checksum. */
  lemma RunFrame(l: LinkState, body: seq<Byte>, verdicts: Verdicts)
    requires l.phase == Idle && 3 <= |body| <= LMS_MAX_PACKET_LEN + 2
    ensures
      var packet := body[..|body| - 2];
      RunBytes(l, Header(|packet|) + body, verdicts)
      == if Passes(body) then Accept(l, packet, verdicts)
         else l.(stats := l.stats.(badPkt := l.stats.badPkt + 1))
  {
    hide Crc;
    hide Passes;
    hide Step;
    var packet, high, low := body[..|body| - 2], body[|body| - 2], body[|body| - 1];
    assert body == packet + [high, low];
    RunBytesConcat(l, Header(|packet|), body, verdicts);
    RunHeader(l, |packet|, verdicts);
    var l1 := l.(phase := Body(|packet|, []));
    RunBytesConcat(l1, packet, [high, low], verdicts);
    RunBody(l1, [], packet, verdicts);
    assert [] + packet == packet;
    RunChecksum(l.(phase := SumHigh(packet)), packet, high, low, verdicts);
    ReceiverTestIsPasses(packet, high, low);
  }

  // --------------------------------------------------------------------------------------------
  // Noise

  /** Two bytes handled by an idle receiver of which the first is a start byte and the second is not the
      second of a start. */
  lemma RunFalseStart(l: LinkState, b: Byte, rest: seq<Byte>, verdicts: Verdicts)
    requires l.phase == Idle && b != STX_L
    ensures RunBytes(l, [STX_H, b] + rest, verdicts)
         == RunBytes(l.(stats := l.stats.(duffSTX := l.stats.duffSTX + 1)), rest, verdicts)
  {
    assert [STX_H, b] + rest == [STX_H] + ([b] + rest);
    RunFirst(l, STX_H, [b] + rest, verdicts);
    RunFirst(l.(phase := Stx), b, rest, verdicts);
  }

  lemma {:induction false} RunNoise(l: LinkState, bytes: seq<Byte>, verdicts: Verdicts)
    requires l.phase == Idle && Harmless(bytes)
    ensures RunBytes(l, bytes, verdicts) == AfterNoise(l, bytes)
    decreases |bytes|
  {
    if bytes != [] {
      var l1 := l.(stats := l.stats.(duffSTX := l.stats.duffSTX + 1));
      if bytes[0] != STX_H {
        RunNoise(l1, bytes[1..], verdicts);
      } else {
        assert bytes == [STX_H, bytes[1]] + bytes[2..];
        RunFalseStart(l, bytes[1], bytes[2..], verdicts);
        RunNoise(l1, bytes[2..], verdicts);
      }
    }
  }

  predicate NoStartPair(bytes: seq<Byte>) {
    forall i :: 0 <= i < |bytes| - 1 ==> bytes[i] != STX_H || bytes[i + 1] != STX_L
  }

  /** Without the two start bytes side by side anywhere, noise leaves the receiver idle or half-way into a
      start. */
  lemma {:induction false} RunPairlessNoise(l: LinkState, bytes: seq<Byte>, verdicts: Verdicts)
    requires l.phase == Idle && NoStartPair(bytes)
    ensures RunBytes(l, bytes, verdicts) == AfterNoise(l, bytes).(phase := if Harmless(bytes) then Idle else Stx)
    decreases |bytes|
  {
    if bytes != [] {
      var l1 := l.(stats := l.stats.(duffSTX := l.stats.duffSTX + 1));
      if bytes[0] != STX_H {
        RunPairlessNoise(l1, bytes[1..], verdicts);
      } else if |bytes| == 1 {
        assert bytes[1..] == [];
        assert RunBytes(l.(phase := Stx), [], verdicts) == l.(phase := Stx);
      } else {
        assert bytes == [STX_H, bytes[1]] + bytes[2..];
        assert bytes[0] == STX_H && bytes[0 + 1] != STX_L;
        RunFalseStart(l, bytes[1], bytes[2..], verdicts);
        PairlessTail(bytes);
        RunPairlessNoise(l1, bytes[2..], verdicts);
      }
    }
  }

  lemma PairlessTail(bytes: seq<Byte>)
    requires NoStartPair(bytes) && |bytes| >= 2
    ensures NoStartPair(bytes[2..])
  {
    var rest := bytes[2..];
    forall i | 0 <= i < |rest| - 1
      ensures rest[i] != STX_H || rest[i + 1] != STX_L
    {
      assert bytes[i + 2] != STX_H || bytes[i + 2 + 1] != STX_L;
    }
  }

  /** The length of the run of start bytes at the end. */
  function TrailingStarts(bytes: seq<Byte>): (n: nat)
    ensures n <= |bytes|
  {
    if bytes == [] || bytes[|bytes| - 1] != STX_H then 0 else 1 + TrailingStarts(bytes[..|bytes| - 1])
  }

  lemma {:induction false} TrailingOfTail(bytes: seq<Byte>)
    requires bytes != []
    ensures
      var n := TrailingStarts(bytes[1..]);
      TrailingStarts(bytes) == if n == |bytes| - 1 && bytes[0] == STX_H then n + 1 else n
    decreases |bytes|
  {
    var last := |bytes| - 1;
    if last == 0 {
      assert bytes[..0] == [];
    } else if bytes[last] == STX_H {
      TrailingOfTail(bytes[..last]);
      assert bytes[..last][1..] == bytes[1..][..last - 1];
    }
  }

  /** Noise without a start is harmless exactly if the run of start bytes at its end is even: the receiver
      takes start bytes in pairs, the second of a pair for the failure of the first. */
  lemma {:induction false} HarmlessExactly(bytes: seq<Byte>)
    requires NoStartPair(bytes)
    ensures Harmless(bytes) <==> TrailingStarts(bytes) % 2 == 0
    decreases |bytes|
  {
    if bytes != [] {
      TrailingOfTail(bytes);
      if bytes[0] != STX_H {
        HarmlessExactly(bytes[1..]);
      } else if |bytes| >= 2 {
        assert bytes[0] == STX_H && bytes[0 + 1] != STX_L;
        TrailingOfTail(bytes[1..]);
        assert bytes[1..][1..] == bytes[2..];
        PairlessTail(bytes);
        HarmlessExactly(bytes[2..]);
      }
    }
  }

  /** Noise without any start byte is harmless, and every byte of it is a false start. */
  lemma {:induction false} QuietNoise(bytes: seq<Byte>)
    requires STX_H !in bytes
    ensures Harmless(bytes) && FalseStarts(bytes) == |bytes|
    decreases |bytes|
  {
    if bytes != [] {
      QuietNoise(bytes[1..]);
    }
  }

  // --------------------------------------------------------------------------------------------
  // Damage is caught

  lemma DamageIsCaught(item: Item)
    requires Damaged(item)
    ensures !Passes(item.body) && !Intact(item)
  {
    hide Crc;
    hide Feed;
    var word, body := Codeword(item.payload), item.body;
    CodewordPasses(item.payload);
    var error := XorBits(BitsOf(word), BitsOf(body));
    if Odd(error) {
      OddErrorsAreDetected(BitsOf(word), BitsOf(body));
    } else {
      var i: nat, n: nat :| n <= WIDTH && Burst(error, i, n);
      BurstsAreDetected(BitsOf(word), BitsOf(body), i, n);
    }
  }

  // --------------------------------------------------------------------------------------------
  // The whole stream

  function AfterNoise(l: LinkState, bytes: seq<Byte>): LinkState {
    l.(stats := l.stats.(duffSTX := l.stats.duffSTX + FalseStarts(bytes)))
  }

  /** What one item should come to, and what a whole stream should. */
  function AfterItem(l: LinkState, item: Item, verdicts: Verdicts): LinkState {
    if item.Noise? then AfterNoise(l, item.bytes)
    else if Intact(item) then Accept(l, item.payload, verdicts)
    else l.(stats := l.stats.(badPkt := l.stats.badPkt + 1))
  }

  function Expected(l: LinkState, items: seq<Item>, verdicts: Verdicts): LinkState
    decreases |items|
  {
    if items == [] then l else Expected(AfterItem(l, items[0], verdicts), items[1..], verdicts)
  }

  lemma RunItem(l: LinkState, item: Item, verdicts: Verdicts)
    requires l.phase == Idle && WellFormed(item)
    ensures RunBytes(l, Wire(item), verdicts) == AfterItem(l, item, verdicts)
  {
    hide Crc;
    hide Passes;
    if item.Noise? {
      RunNoise(l, item.bytes, verdicts);
    } else {
      RunFrame(l, item.body, verdicts);
      if Intact(item) {
        CodewordPasses(item.payload);
        assert item.body[..|item.body| - 2] == item.payload;
      } else {
        DamageIsCaught(item);
      }
    }
  }

  lemma {:induction false} StreamIsExpected(l: LinkState, items: seq<Item>, verdicts: Verdicts)
    requires l.phase == Idle
    requires forall item :: item in items ==> WellFormed(item)
    ensures RunBytes(l, Stream(items), verdicts) == Expected(l, items, verdicts)
    decreases |items|
  {
    hide Crc;
    if items != [] {
      var item := items[0];
      assert item in items;
      RunItem(l, item, verdicts);
      RunBytesConcat(l, Wire(item), Stream(items[1..]), verdicts);
      StreamIsExpected(AfterItem(l, item, verdicts), items[1..], verdicts);
    }
  }

  lemma {:induction false} ExpectedCounts(l: LinkState, items: seq<Item>, verdicts: Verdicts)
    requires l.phase == Idle
    ensures
      var l' := Expected(l, items, verdicts);
      && l'.phase == Idle
      && l'.delivered == l.delivered + IntactPayloads(items)
      && l'.stats.goodPkt == l.stats.goodPkt + |IntactPayloads(items)|
      && l'.stats.badPkt == l.stats.badPkt + DamagedFrames(items)
      && l'.stats.duffSTX == l.stats.duffSTX + FalseStartsIn(items)
      && l'.stats.toPkt == l.stats.toPkt
    decreases |items|
  {
    hide Crc;
    hide AfterItem;
    hide Intact;
    hide FalseStarts;
    if items != [] {
      ItemCounts(l, items[0], verdicts);
      ExpectedCounts(AfterItem(l, items[0], verdicts), items[1..], verdicts);
    }
  }

  lemma {:induction false} ExpectedBadContent(l: LinkState, items: seq<Item>, verdicts: Verdicts)
    requires l.phase == Idle
    ensures
      var l' := Expected(l, items, verdicts);
      && l'.stats.goodPkt >= l.stats.goodPkt
      && l'.stats.badContent == l.stats.badContent + |Rejected(verdicts, l.stats.goodPkt, l'.stats.goodPkt)|
    decreases |items|
  {
    hide Crc;
    hide AfterItem;
    hide Intact;
    hide FalseStarts;
    hide Rejected;
    if items == [] {
      NoneRejected(verdicts, l.stats.goodPkt);
    } else {
      var l1 := AfterItem(l, items[0], verdicts);
      ItemCounts(l, items[0], verdicts);
      ExpectedBadContent(l1, items[1..], verdicts);
      if Intact(items[0]) {
        RejectedFirst(verdicts, l.stats.goodPkt, Expected(l, items, verdicts).stats.goodPkt);
      }
    }
  }

  lemma ItemCounts(l: LinkState, item: Item, verdicts: Verdicts)
    requires l.phase == Idle
    ensures
      var l', n := AfterItem(l, item, verdicts), if Intact(item) then 1 else 0;
      && l'.phase == Idle
      && l'.delivered == l.delivered + (if Intact(item) then [item.payload] else [])
      && l'.stats.goodPkt == l.stats.goodPkt + n
      && l'.stats.badPkt == l.stats.badPkt + (if item.Sent? && !Intact(item) then 1 else 0)
      && l'.stats.duffSTX == l.stats.duffSTX + (if item.Noise? then FalseStarts(item.bytes) else 0)
      && l'.stats.toPkt == l.stats.toPkt
      && l'.stats.badContent
         == l.stats.badContent + (if Intact(item) && !verdicts(l.stats.goodPkt) then 1 else 0)
  {
    hide Crc;
  }

  /** Fault isolation. */
  lemma FaultsAreIsolated(l: LinkState, items: seq<Item>, verdicts: Verdicts)
    requires l.phase == Idle
    requires forall item :: item in items ==> WellFormed(item)
    ensures
      var l' := RunBytes(l, Stream(items), verdicts);
      && l'.phase == Idle
      && l'.delivered == l.delivered + IntactPayloads(items)
      && l'.stats.goodPkt == l.stats.goodPkt + |IntactPayloads(items)|
      && l'.stats.badPkt == l.stats.badPkt + DamagedFrames(items)
      && l'.stats.duffSTX == l.stats.duffSTX + FalseStartsIn(items)
      && l'.stats.toPkt == l.stats.toPkt
      && l'.stats.badContent == l.stats.badContent + |Rejected(verdicts, l.stats.goodPkt, l'.stats.goodPkt)|
  {
    StreamIsExpected(l, items, verdicts);
    ExpectedCounts(l, items, verdicts);
    ExpectedBadContent(l, items, verdicts);
  }

  /** The plain round trip: what `LmsMsgTx` frames, the receiver delivers. */
  lemma FramesRoundTrip(l: LinkState, payload: seq<Byte>, verdicts: Verdicts)
    requires l.phase == Idle && 1 <= |payload| <= LMS_MAX_PACKET_LEN
    ensures RunBytes(l, Frame(payload), verdicts) == Accept(l, payload, verdicts)
  {
    hide Crc;
    RunItem(l, Sent(payload, Codeword(payload)), verdicts);
    assert Frame(payload) == Header(|payload|) + Codeword(payload);
  }

  // --------------------------------------------------------------------------------------------
  // A frame after noise

  /** How many bytes of the frame in progress have been handled. */
  function Spent(phase: Phase): nat {
    match phase
    case Idle => 0
    case Stx => 1
    case Version => 2
    case Length => 3
    case Body(_, got) => 4 + |got|
    case SumHigh(got) => 4 + |got|
    case SumLow(got, _) => 5 + |got|
  }

  lemma StepSpends(l: LinkState, b: Byte, verdicts: Verdicts)
    ensures
      var l' := Step(l, b, verdicts);
      && Spent(l'.phase) <= Spent(l.phase) + 1
      && (l'.delivered == l.delivered
          || (l.phase.SumLow? && l'.delivered == l.delivered + [l.phase.got] && |l.phase.got| + 6 == Spent(l.phase) + 1))
  {
    hide Crc;
  }

  /** A packet takes six bytes more than its length: a shorter string cannot deliver it. */
  lemma {:induction false} PacketsFit(l: LinkState, s: seq<Byte>, verdicts: Verdicts, p: seq<Byte>)
    ensures
      var l' := RunBytes(l, s, verdicts);
      && l.delivered <= l'.delivered
      && (p in l'.delivered[|l.delivered|..] ==> |p| + 6 <= Spent(l.phase) + |s|)
    decreases |s|
  {
    hide Step;
    hide Spent;
    if s != [] {
      var l1 := Step(l, s[0], verdicts);
      StepSpends(l, s[0], verdicts);
      PacketsFit(l1, s[1..], verdicts, p);
      var all, n := RunBytes(l1, s[1..], verdicts).delivered, |l.delivered|;
      if l1.delivered != l.delivered {
        assert all[n..] == [l.phase.got] + all[n + 1..];
      }
    }
  }

  /** What becomes of a frame behind noise that has no start in it: it is received if and only if the run
      of start bytes at the end of the noise is even. */
  lemma NoiseDecidesFrame(l: LinkState, noise: seq<Byte>, payload: seq<Byte>, verdicts: Verdicts)
    requires l.phase == Idle && NoStartPair(noise) && 1 <= |payload| <= LMS_MAX_PACKET_LEN
    ensures
      var l' := RunBytes(l, noise + Frame(payload), verdicts);
      && l.delivered <= l'.delivered
      && (payload in l'.delivered[|l.delivered|..] <==> TrailingStarts(noise) % 2 == 0)
      && (TrailingStarts(noise) % 2 == 0 ==> l' == Accept(AfterNoise(l, noise), payload, verdicts))
  {
    hide Crc;
    hide Step;
    hide Frame;
    RunBytesConcat(l, noise, Frame(payload), verdicts);
    RunPairlessNoise(l, noise, verdicts);
    HarmlessExactly(noise);
    if Harmless(noise) {
      FramesRoundTrip(AfterNoise(l, noise), payload, verdicts);
      assert (l.delivered + [payload])[|l.delivered|..] == [payload];
    } else {
      HalfStartLosesFrame(AfterNoise(l, noise).(phase := Stx), payload, verdicts);
    }
  }

  lemma HalfStartLosesFrame(l: LinkState, payload: seq<Byte>, verdicts: Verdicts)
    requires l.phase == Stx && 1 <= |payload| <= LMS_MAX_PACKET_LEN
    ensures
      var l' := RunBytes(l, Frame(payload), verdicts);
      l.delivered <= l'.delivered && payload !in l'.delivered[|l.delivered|..]
  {
    hide Crc;
    var rest: seq<Byte> := [STX_L, VERSION, |payload|] + payload + Footer(Crc(payload));
    assert Frame(payload) == [STX_H] + rest;
    RunFirst(l, STX_H, rest, verdicts);
    PacketsFit(Step(l, STX_H, verdicts), rest, verdicts, payload);
  }

  /** One start byte directly before a frame loses the frame. */
  lemma StrayStartLosesFrame(l: LinkState, payload: seq<Byte>, verdicts: Verdicts)
    requires l.phase == Idle && 1 <= |payload| <= LMS_MAX_PACKET_LEN
    ensures
      var l' := RunBytes(l, [STX_H] + Frame(payload), verdicts);
      l.delivered <= l'.delivered && payload !in l'.delivered[|l.delivered|..]
  {
    hide Frame;
    hide Crc;
    hide RunBytes;
    assert [STX_H][..0] == [];
    assert TrailingStarts([STX_H]) == 1;
    NoiseDecidesFrame(l, [STX_H], payload, verdicts);
  }

  // --------------------------------------------------------------------------------------------
  // However the stream is cut up

  function Joined(chunks: seq<seq<Byte>>): seq<Byte> {
    if chunks == [] then [] else chunks[0] + Joined(chunks[1..])
  }

  function RunCalls(l: LinkState, chunks: seq<seq<Byte>>, verdicts: Verdicts): LinkState
    decreases |chunks|
  {
    if chunks == [] then l else RunCalls(RunBytes(l, chunks[0], verdicts), chunks[1..], verdicts)
  }

  /** Receiving a stream in any number of calls, each with whatever was pending, is receiving it at
      once. */
  lemma {:induction false} ChunksDoNotMatter(l: LinkState, chunks: seq<seq<Byte>>, verdicts: Verdicts)
    ensures RunCalls(l, chunks, verdicts) == RunBytes(l, Joined(chunks), verdicts)
    decreases |chunks|
  {
    if chunks != [] {
      RunBytesConcat(l, chunks[0], Joined(chunks[1..]), verdicts);
      ChunksDoNotMatter(RunBytes(l, chunks[0], verdicts), chunks[1..], verdicts);
    }
  }

  /** The two together, on the firmware's own receiver: any well-formed stream, in any pieces. */
  method ReceiveStream(r: Receiver, ghost items: seq<Item>, chunks: seq<seq<Byte>>, verdicts: Verdicts)
    requires r.Valid() && r.Abs().phase == Idle
    requires forall item :: item in items ==> WellFormed(item)
    requires Joined(chunks) == Stream(items)
    modifies r, r.pkt
    ensures r.Valid() && r.rxState == RX_IDLE && !r.timerRunning
    ensures r.delivered == old(r.delivered) + IntactPayloads(items)
    ensures r.stats.badPkt == old(r.stats.badPkt) + DamagedFrames(items)
    ensures r.stats.duffSTX == old(r.stats.duffSTX) + FalseStartsIn(items)
    ensures r.stats.goodPkt == old(r.stats.goodPkt) + |IntactPayloads(items)|
    ensures r.stats.badContent
         == old(r.stats.badContent) + |Rejected(verdicts, old(r.stats.goodPkt), r.stats.goodPkt)|
  {
    hide Crc;
    ghost var start := r.Abs();
    var i := 0;
    assert chunks[0..] == chunks;
    while i < |chunks|
      invariant 0 <= i <= |chunks| && r.Valid()
      invariant RunCalls(r.Abs(), chunks[i..], verdicts) == RunCalls(start, chunks, verdicts)
    {
      assert chunks[i..][1..] == chunks[i + 1..];
      r.LmsMsgReceive(chunks[i], verdicts);
      i := i + 1;
    }
    ChunksDoNotMatter(start, chunks, verdicts);
    FaultsAreIsolated(start, items, verdicts);
  }
}
