/**
 Framed messages over the inter-processor ring.

 A message is a 16-bit target and up to 121 bytes of data.  `Port` is the code of one processor's end:
 the pump that takes a byte stream apart, the sender that puts a message on the ring, and the dispatcher
 that answers a ping from inside the receive callback.
 */
module Serdes {
  import opened Modular
  import opened Words
  import opened IpcRing

  const SD_HEADER: Byte := 0xA5
  const PROTOCOL_OVERHEAD_LENGTH := 6
  const MAX_PACKET_LEN := IPC_QUEUE_LEN - PROTOCOL_OVERHEAD_LENGTH - 1

  datatype Message = Message(target: Word16, data: seq<Byte>)

  // --------------------------------------------------------------------------------------------
  // The target field: CC DDD SSS MMMMMMMM

  const MSG_CLASS_MANAGEMENT := 0
  const MSG_PING := 1
  const MSG_PONG := 2

  function GetClass(x: nat): nat { Field(x, 14, 2) }

  function GetDir(x: nat): nat { Field(x, 11, 3) }

  function GetSeq(x: nat): nat { Field(x, 8, 3) }

  function GetMsg(x: nat): nat { Field(x, 0, 8) }

  /** Four fields, each cut to its width, moved to its place and or-ed together. */
  function Pack(cls: nat, dir: nat, sequence: nat, msg: nat): nat {
    Or(Or(Or(Shl(Low(msg, 8), 0), Shl(Low(dir, 3), 11)), Shl(Low(cls, 2), 14)), Shl(Low(sequence, 3), 8))
  }

  lemma FieldOfPack(cls: nat, dir: nat, sequence: nat, msg: nat, k: nat, w: nat)
    ensures Field(Pack(cls, dir, sequence, msg), k, w)
         == Or(Or(Or(Field(Shl(Low(msg, 8), 0), k, w), Field(Shl(Low(dir, 3), 11), k, w)),
                  Field(Shl(Low(cls, 2), 14), k, w)), Field(Shl(Low(sequence, 3), 8), k, w))
  {
    var m, d, c, s := Shl(Low(msg, 8), 0), Shl(Low(dir, 3), 11), Shl(Low(cls, 2), 14), Shl(Low(sequence, 3), 8);
    FieldOfOr(Or(Or(m, d), c), s, k, w);
    FieldOfOr(Or(m, d), c, k, w);
    FieldOfOr(m, d, k, w);
  }

  /** Each getter reads back what its macro put in. */
  lemma PackRoundTrip(cls: nat, dir: nat, sequence: nat, msg: nat)
    ensures GetClass(Pack(cls, dir, sequence, msg)) == Low(cls, 2)
    ensures GetDir(Pack(cls, dir, sequence, msg)) == Low(dir, 3)
    ensures GetSeq(Pack(cls, dir, sequence, msg)) == Low(sequence, 3)
    ensures GetMsg(Pack(cls, dir, sequence, msg)) == Low(msg, 8)
  {
    hide Field;
    hide Pack;
    forall k: nat, w: nat | (k, w) in {(14, 2), (11, 3), (8, 3), (0, 8)}
      ensures Field(Pack(cls, dir, sequence, msg), k, w)
           == if k == 14 then Low(cls, 2) else if k == 11 then Low(dir, 3)
              else if k == 8 then Low(sequence, 3) else Low(msg, 8)
    {
      FieldOfPack(cls, dir, sequence, msg, k, w);
      FieldOfShl(msg, 8, 0, k, w);
      FieldOfShl(dir, 3, 11, k, w);
      FieldOfShl(cls, 2, 14, k, w);
      FieldOfShl(sequence, 3, 8, k, w);
      OrWithZeros(Low(cls, 2));
      OrWithZeros(Low(dir, 3));
      OrWithZeros(Low(sequence, 3));
      OrWithZeros(Low(msg, 8));
    }
  }

  lemma OrWithZeros(n: nat)
    ensures Or(0, n) == n && Or(n, 0) == n && Or(0, 0) == 0
  {
    ZeroOr(n);
    OrZero(n);
  }

  /** What the sender makes of a target: the sequence number is or-ed into its three bits. */
  function Tagged(target: nat, sequence: nat): nat {
    Or(target, Shl(Low(sequence, 3), 8))
  }

  /** What travels of it. */
  function Wire16(x: nat): Word16 { x % 0x1_0000 }

  /** Class, direction and message number arrive as they were given; the sequence bits arrive as the
      sender's number modulo 8, or-ed with whatever the caller had put there. */
  lemma FieldsSurvive(target: nat, sequence: nat)
    ensures
      var x := Wire16(Tagged(target, sequence));
      && GetClass(x) == GetClass(target) && GetDir(x) == GetDir(target) && GetMsg(x) == GetMsg(target)
      && GetSeq(x) == Or(GetSeq(target), Low(sequence, 3))
  {
    hide Field;
    var t := Tagged(target, sequence);
    LowOf16(t);
    FieldsSurviveAt(target, sequence, 14, 2);
    FieldsSurviveAt(target, sequence, 11, 3);
    FieldsSurviveAt(target, sequence, 8, 3);
    FieldsSurviveAt(target, sequence, 0, 8);
  }

  lemma FieldsSurviveAt(target: nat, sequence: nat, k: nat, w: nat)
    requires (k, w) in {(14, 2), (11, 3), (8, 3), (0, 8)}
    ensures Field(Low(Tagged(target, sequence), 16), k, w)
         == if k == 8 then Or(Field(target, k, w), Low(sequence, 3)) else Field(target, k, w)
  {
    hide Field;
    var t := Tagged(target, sequence);
    FieldOfLow(t, 16, k, w);
    FieldOfOr(target, Shl(Low(sequence, 3), 8), k, w);
    FieldOfShl(sequence, 3, 8, k, w);
    OrZero(Field(target, k, w));
  }

  /** With the sequence bits left free by the caller, consecutive numbers modulo 8 arrive. */
  lemma SequenceArrives(target: nat, sequence: nat)
    requires GetSeq(target) == 0
    ensures GetSeq(Wire16(Tagged(target, sequence))) == sequence % 8
  {
    var w := 3;
    FieldsSurvive(target, sequence);
    ZeroOr(Low(sequence, 3));
    assert Pow2(w) == 8;
    LowIsMod(sequence, w);
  }

  // --------------------------------------------------------------------------------------------
  // Frames

  /** The 8-bit sum of the data. */
  function Sum(d: seq<Byte>): Byte {
    if d == [] then 0 else (Sum(d[..|d| - 1]) + d[|d| - 1]) % 256
  }

  lemma SumLast(d: seq<Byte>, x: Byte)
    ensures Sum(d + [x]) == (Sum(d) + x) % 256
  {
    assert (d + [x])[..|d|] == d;
  }

  lemma AddModulo(p: nat, q: nat, x: nat, first: nat, second: nat)
    requires first == (p + q) % 256 && second == (q + x) % 256
    ensures (first + x) % 256 == (p + second) % 256
  {
    ModOfSum(p + q, x, 256);
    ModOfSum(q + x, p, 256);
  }

  /** It adds the bytes up, and so tells data that differ in one byte apart. */
  lemma {:induction false} SumOfConcat(a: seq<Byte>, b: seq<Byte>)
    ensures Sum(a + b) == (Sum(a) + Sum(b)) % 256
    decreases |b|
  {
    hide Sum;
    if b == [] {
      assert a + b == a;
      SumOfOne(0);
      ModUnique(Sum(a), 256, 0, Sum(a));
    } else {
      var c, x := b[..|b| - 1], b[|b| - 1];
      assert a + b == a + c + [x] && b == c + [x];
      SumOfConcat(a, c);
      SumLast(a + c, x);
      SumLast(c, x);
      AddModulo(Sum(a), Sum(c), x, Sum(a + c), Sum(b));
    }
  }

  lemma SumOfOne(b: Byte)
    ensures Sum([]) == 0 && Sum([b]) == b
  {
    assert [b][..0] == [];
  }

  lemma SumOfChange(d: seq<Byte>, i: nat, b: Byte)
    requires i < |d|
    ensures Sum(d[i := b]) == (Sum(d) - d[i] + b) % 256
    ensures b != d[i] ==> Sum(d[i := b]) != Sum(d)
  {
    hide Sum;
    var head, rest := d[..i], d[i + 1..];
    assert d == head + [d[i]] + rest && d[i := b] == head + [b] + rest;
    SumOfThree(head, d[i], rest);
    SumOfThree(head, b, rest);
    var others := Sum(head) + Sum(rest);
    WithoutModulus(others, d[i], b, Sum(d), Sum(d[i := b]));
  }

  lemma SumOfThree(head: seq<Byte>, x: Byte, rest: seq<Byte>)
    ensures Sum(head + [x] + rest) == (Sum(head) + Sum(rest) + x) % 256
  {
    hide Sum;
    SumOfOne(x);
    SumOfConcat(head, [x]);
    SumOfConcat(head + [x], rest);
    ModOfSum(Sum(head) + x, Sum(rest), 256);
  }

  lemma WithoutModulus(others: nat, x: Byte, y: Byte, before: Byte, after: Byte)
    requires before == (others + x) % 256 && after == (others + y) % 256
    ensures after == (before - x + y) % 256
    ensures x != y ==> after != before
  {
    var p, q := (others + x) / 256, (others + y) / 256;
    ModUnique(before - x + y, 256, q - p, after);
  }

  /** The transfers that make up a message on the ring: a message without data has no checksum. */
  function Transfers(m: Message): (calls: seq<seq<Byte>>)
    requires |m.data| < 256
  {
    var head := [[SD_HEADER], [m.target / 256, m.target % 256], [|m.data| as Byte]];
    if m.data == [] then head else head + [m.data, [Sum(m.data)]]
  }

  function Head(m: Message): (s: seq<Byte>)
    requires |m.data| < 256
    ensures |s| == 4
  {
    [SD_HEADER, m.target / 256, m.target % 256, |m.data|]
  }

  function Frame(m: Message): (s: seq<Byte>)
    requires |m.data| < 256
    ensures |s| == 4 + (if m.data == [] then 0 else |m.data| + 1)
  {
    Head(m) + (if m.data == [] then [] else m.data + [Sum(m.data)])
  }

  /** Where things stand on the wire: the target's class, direction and sequence number in the second byte,
      its message number in the third, the length in the fourth, then the data, and one byte more if there
      are any. */
  lemma FrameLayout(m: Message)
    requires |m.data| < 256
    ensures
      var s := Frame(m);
      && s[0] == 0xA5
      && s[1] == 64 * GetClass(m.target) + 8 * GetDir(m.target) + GetSeq(m.target)
      && s[2] == GetMsg(m.target)
      && s[3] == |m.data|
      && (m.data == [] ==> |s| == 4)
      && (m.data != [] ==> |s| == |m.data| + 5 && s[4..|s| - 1] == m.data)
  {
    FieldsOfTarget(m.target);
  }

  /** The fields as numbers: CC DDD SSS MMMMMMMM. */
  lemma FieldsOfTarget(x: Word16)
    ensures GetMsg(x) == x % 256 && x / 256 == 64 * GetClass(x) + 8 * GetDir(x) + GetSeq(x)
    ensures GetSeq(x) < 8 && GetDir(x) < 8 && GetClass(x) < 4
  {
    FieldNumbers(x);
    LayoutOfNumbers(x, x / 2048 % 8, x / 16384 % 4);
  }

  lemma FieldNumbers(x: nat)
    ensures GetMsg(x) == x % 256 && GetSeq(x) == x / 256 % 8
    ensures GetDir(x) == x / 2048 % 8 && GetClass(x) == x / 16384 % 4
  {
    hide Field;
    FieldAsNumber(x, 0, 8);
    FieldAsNumber(x, 8, 3);
    FieldAsNumber(x, 11, 3);
    FieldAsNumber(x, 14, 2);
    PowersInUse();
  }

  lemma PowersInUse()
    ensures Pow2(0) == 1 && Pow2(2) == 4 && Pow2(3) == 8 && Pow2(8) == 256 && Pow2(11) == 2048 && Pow2(14) == 16384
  {
    PowersOfTwo();
    assert Pow2(2) == 4 && Pow2(3) == 8;
    assert Pow2(11) == 2048;
    assert Pow2(14) == 16384;
  }

  lemma LayoutOfNumbers(x: Word16, dir: nat, cls: nat)
    requires dir == x / 2048 % 8 && cls == x / 16384 % 4
    ensures x / 256 == 64 * cls + 8 * dir + x / 256 % 8
  {
    var high, msg := x / 256, x % 256;
    var h, s := high / 8, high % 8;
    DivModUnique(x, 2048, h, 256 * s + msg);
    var c, d := h / 8, h % 8;
    DivModUnique(x, 16384, c, 2048 * d + 256 * s + msg);
  }

  lemma FieldAsNumber(x: nat, k: nat, w: nat)
    ensures Pow2(k) > 0 && Pow2(w) > 0 && Field(x, k, w) == x / Pow2(k) % Pow2(w)
  {
    ShrIsDiv(x, k);
    LowIsMod(Shr(x, k), w);
  }

  predicate IsPing(target: nat) {
    GetClass(target) == MSG_CLASS_MANAGEMENT && GetMsg(target) == MSG_PING
  }

  /** What the receive callback sends in answer to a message: to a ping, if there is room for it, a pong. */
  function Reply(target: nat, sequence: nat, tx: Ring): seq<Byte>
    requires InRange(tx)
  {
    if IsPing(target) && RoomFor(tx, PROTOCOL_OVERHEAD_LENGTH)
    then Frame(Message(Wire16(Tagged(MSG_PONG, sequence)), [])) else []
  }

  // --------------------------------------------------------------------------------------------
  // The pump

  datatype Phase =
    | WaitHeader
    | WaitTargetH
    | WaitTargetL(high: Byte)
    | WaitLen(target: Word16)
    | Data(target: Word16, need: nat, got: seq<Byte>)
    | WaitCrc(target: Word16, got: seq<Byte>)

  datatype Rx = Rx(phase: Phase, delivered: seq<Message>)

  function PumpStep(r: Rx, c: Byte): Rx {
    match r.phase
    case WaitHeader => if c == SD_HEADER then r.(phase := WaitTargetH) else r
    case WaitTargetH => r.(phase := WaitTargetL(c))
    case WaitTargetL(high) => r.(phase := WaitLen(high * 256 + c))
    case WaitLen(target) =>
      if c > MAX_PACKET_LEN then r.(phase := WaitHeader)
      else if c != 0 then r.(phase := Data(target, c, []))
      else Rx(WaitHeader, r.delivered + [Message(target, [])])
    case Data(target, need, got) =>
      r.(phase := if need > 1 then Data(target, need - 1, got + [c]) else WaitCrc(target, got + [c]))
    case WaitCrc(target, got) =>
      Rx(WaitHeader, if Sum(got) == c then r.delivered + [Message(target, got)] else r.delivered)
  }

  function PumpRun(r: Rx, s: seq<Byte>): Rx
    decreases |s|
  {
    if s == [] then r else PumpRun(PumpStep(r, s[0]), s[1..])
  }

  lemma {:induction false} PumpConcat(r: Rx, a: seq<Byte>, b: seq<Byte>)
    ensures PumpRun(r, a + b) == PumpRun(PumpRun(r, a), b)
    decreases |a|
  {
    if a == [] {
      assert a + b == b;
    } else {
      assert (a + b)[1..] == a[1..] + b;
      PumpConcat(PumpStep(r, a[0]), a[1..], b);
    }
  }

  lemma {:induction false} PumpOnlyAdds(r: Rx, s: seq<Byte>)
    ensures r.delivered <= PumpRun(r, s).delivered
    decreases |s|
  {
    if s != [] {
      PumpOnlyAdds(PumpStep(r, s[0]), s[1..]);
    }
  }

  // --------------------------------------------------------------------------------------------
  // One end of the link

  datatype SerdesState = SD_WAIT_HEADER | SD_WAIT_TARGET_H | SD_WAIT_TARGET_L | SD_WAIT_LEN | SD_DATA | SD_WAIT_CRC

  method ComputeSum(d: seq<Byte>) returns (s: Byte)
    ensures s == Sum(d)
  {
    s := 0;
    var n, i := |d|, 0;
    while n != 0
      invariant 0 <= i <= |d| && n == |d| - i && s == Sum(d[..i])
    {
      n := n - 1;
      assert d[..i + 1][..i] == d[..i];
      s := (s + d[i]) % 256;
      i := i + 1;
    }
    assert d[..i] == d;
  }

  /** The processor at the other end has the same class with the rings exchanged. */
  class Port {
    const rx: IpcBuff
    const tx: IpcBuff
    var target: nat
    var rxLen: nat
    var sequence: nat
    const data: array<Byte>
    var dwp: nat
    var s: SerdesState
    ghost var delivered: seq<Message>

    ghost predicate Valid()
      reads this, rx, tx
    {
      && rx != tx && rx.Valid() && tx.Valid()
      && rx.buffer != tx.buffer && data != rx.buffer && data != tx.buffer
      && data.Length == MAX_PACKET_LEN
      && target < 0x1_0000
      && (s == SD_WAIT_TARGET_L ==> target % 256 == 0)
      && (s == SD_DATA ==> rxLen > 0 && dwp + rxLen <= MAX_PACKET_LEN)
      && (s == SD_WAIT_CRC ==> 0 < dwp <= MAX_PACKET_LEN)
    }

    ghost function CurrentPhase(): Phase
      reads this, rx, tx, data
      requires Valid()
    {
      match s
      case SD_WAIT_HEADER => WaitHeader
      case SD_WAIT_TARGET_H => WaitTargetH
      case SD_WAIT_TARGET_L => WaitTargetL(target / 256)
      case SD_WAIT_LEN => WaitLen(target)
      case SD_DATA => Data(target, rxLen, data[..dwp])
      case SD_WAIT_CRC => WaitCrc(target, data[..dwp])
    }

    ghost function Abs(): Rx
      reads this, rx, tx, data
      requires Valid()
    {
      Rx(CurrentPhase(), delivered)
    }

    constructor (rx: IpcBuff, tx: IpcBuff)
      requires rx != tx && rx.buffer != tx.buffer && rx.Valid() && tx.Valid()
      ensures Valid() && fresh(data) && this.rx == rx && this.tx == tx
      ensures Abs() == Rx(WaitHeader, []) && sequence == 0
    {
      this.rx, this.tx := rx, tx;
      target, rxLen, sequence, dwp, s := 0, 0, 0, 0, SD_WAIT_HEADER;
      data := new Byte[MAX_PACKET_LEN](i => 0);
      delivered := [];
    }

    /** Send a message: the room for all of it is checked once, and what the transfers answer is not
        looked at.  The sequence number moves on even when there is no room. */
    method Send(sendTarget: nat, bytes: seq<Byte>) returns (ok: bool)
      requires Valid() && |bytes| < 256
      modifies `sequence, tx`wp, tx.buffer
      ensures Valid() && Abs() == old(Abs())
      ensures rx.Abs() == old(rx.Abs())
      ensures sequence == old(sequence) + 1
      ensures ok <==> RoomFor(old(tx.Abs()), |bytes| + PROTOCOL_OVERHEAD_LENGTH)
      ensures Contents(tx.Abs()) == old(Contents(tx.Abs()))
        + (if ok then Frame(Message(Wire16(Tagged(sendTarget, old(sequence))), bytes)) else [])
    {
      hide Tagged;
      hide Contents;
      hide Frame;
      hide RoomFor;
      var t := Tagged(sendTarget, sequence);
      sequence := sequence + 1;
      ok := tx.TxRoomCheck(|bytes| + PROTOCOL_OVERHEAD_LENGTH);
      if ok {
        SendAll(t, bytes);
      } else {
        assert old(Contents(tx.Abs())) + [] == old(Contents(tx.Abs()));
      }
    }

    method SendAll(t: nat, bytes: seq<Byte>)
      requires tx.Valid() && |bytes| < 256
      requires RoomFor(tx.Abs(), |bytes| + PROTOCOL_OVERHEAD_LENGTH)
      modifies tx`wp, tx.buffer
      ensures tx.Valid()
      ensures Contents(tx.Abs()) == old(Contents(tx.Abs())) + Frame(Message(Wire16(t), bytes))
    {
      hide Contents;
      hide RoomFor;
      hide Head;
      hide Frame;
      ghost var m, c := Message(Wire16(t), bytes), Contents(tx.Abs());
      RoomByContents(tx.Abs(), |bytes| + PROTOCOL_OVERHEAD_LENGTH);
      SendHead(t, bytes);
      if |bytes| != 0 {
        Transfer(bytes);
        var sum := ComputeSum(bytes);
        Transfer([sum]);
        FrameParts(c, m);
      } else {
        FrameParts(c, m);
      }
    }

    method SendHead(t: nat, bytes: seq<Byte>)
      requires tx.Valid() && |bytes| < 256 && |Contents(tx.Abs())| + 4 < tx.buffer.Length
      modifies tx`wp, tx.buffer
      ensures tx.Valid()
      ensures Contents(tx.Abs()) == old(Contents(tx.Abs())) + Head(Message(Wire16(t), bytes))
    {
      hide Contents;
      ghost var c := Contents(tx.Abs());
      TargetBytes(t);
      Transfer([SD_HEADER]);
      Transfer([t / 256 % 256, t % 256]);
      Transfer([|bytes|]);
      assert Contents(tx.Abs()) == c + Head(Message(Wire16(t), bytes));
    }

    /** One transfer of a message already known to fit: it cannot be refused. */
    method Transfer(d: seq<Byte>)
      requires tx.Valid() && |Contents(tx.Abs())| + |d| < tx.buffer.Length
      modifies tx`wp, tx.buffer
      ensures tx.Valid() && Contents(tx.Abs()) == old(Contents(tx.Abs())) + d
    {
      RoomByContents(tx.Abs(), |d|);
      var accepted := tx.Tx(d);
      assert accepted;
    }

    /** The receive callback, reduced to what it does to the link: the message is handed on, and a ping
        is answered - through the other ring - before the pump sees another byte. */
    method Callback()
      requires Valid() && dwp <= MAX_PACKET_LEN
      modifies `delivered, `sequence, tx`wp, tx.buffer
      ensures Valid() && rx.Abs() == old(rx.Abs())
      ensures delivered == old(delivered) + [Message(old(target), old(data[..dwp]))]
      ensures CurrentPhase() == old(CurrentPhase())
      ensures Contents(tx.Abs()) == old(Contents(tx.Abs())) + Reply(target, old(sequence), old(tx.Abs()))
      ensures sequence == if IsPing(target) then old(sequence) + 1 else old(sequence)
    {
      hide Contents;
      hide RoomFor;
      hide Field;
      hide Frame;
      hide Tagged;
      delivered := delivered + [Message(target, data[..dwp])];
      ghost var c := Contents(tx.Abs());
      if GetClass(target) == MSG_CLASS_MANAGEMENT && GetMsg(target) == MSG_PING {
        var _ := Send(MSG_PONG, []);
      } else {
        assert c + [] == c;
      }
    }

    method ProcessPacket(sum: Byte)
      requires Valid() && s == SD_WAIT_HEADER && dwp <= MAX_PACKET_LEN
      modifies `delivered, `sequence, tx`wp, tx.buffer
      ensures Valid() && rx.Abs() == old(rx.Abs()) && s == SD_WAIT_HEADER
      ensures delivered == old(delivered)
        + (if dwp == 0 || Sum(old(data[..dwp])) == sum then [Message(old(target), old(data[..dwp]))] else [])
      ensures delivered == old(delivered) ==> Contents(tx.Abs()) == old(Contents(tx.Abs()))
      ensures delivered != old(delivered) ==>
        Contents(tx.Abs()) == old(Contents(tx.Abs())) + Reply(target, old(sequence), old(tx.Abs()))
      ensures sequence == if delivered != old(delivered) && IsPing(target) then old(sequence) + 1 else old(sequence)
    {
      hide Contents;
      hide RoomFor;
      hide Field;
      hide Frame;
      hide Reply;
      hide IsPing;
      if dwp != 0 {
        var calcSum := ComputeSum(data[..dwp]);
        if calcSum != sum {
          return;
        }
      }
      Callback();
    }

    method StoreByte(c: Byte)
      requires Valid() && s == SD_DATA
      modifies `dwp, `rxLen, `s, data
      ensures Valid() && rx.Abs() == old(rx.Abs()) && Contents(tx.Abs()) == old(Contents(tx.Abs()))
      ensures Abs() == PumpStep(old(Abs()), c)
    {
      hide Contents;
      hide Sum;
      data[dwp] := c;
      dwp := dwp + 1;
      assert data[..dwp] == old(data[..dwp]) + [c];
      rxLen := rxLen - 1;
      if rxLen == 0 {
        s := SD_WAIT_CRC;
      }
    }

    method ProtocolPump(c: Byte)
      requires Valid()
      modifies this, data, tx`wp, tx.buffer
      ensures Valid() && rx.Abs() == old(rx.Abs())
      ensures Abs() == PumpStep(old(Abs()), c)
      ensures delivered == old(delivered) ==> Contents(tx.Abs()) == old(Contents(tx.Abs()))
      ensures delivered != old(delivered) ==>
        Contents(tx.Abs()) == old(Contents(tx.Abs())) + Reply(target, old(sequence), old(tx.Abs()))
      ensures sequence == if delivered != old(delivered) && IsPing(target) then old(sequence) + 1 else old(sequence)
    {
      hide Contents;
      hide Sum;
      hide Reply;
      hide IsPing;
      match s
      case SD_WAIT_HEADER =>
        if SD_HEADER == c {
          s := SD_WAIT_TARGET_H;
        }
      case SD_WAIT_TARGET_H =>
        target := c * 256;
        s := SD_WAIT_TARGET_L;
      case SD_WAIT_TARGET_L =>
        OrIntoTarget(target, c);
        target := Or(target, c);
        s := SD_WAIT_LEN;
      case SD_WAIT_LEN =>
        if c > MAX_PACKET_LEN {
          s := SD_WAIT_HEADER;
        } else {
          rxLen, dwp := c, 0;
          if c != 0 {
            s := SD_DATA;
          } else {
            s := SD_WAIT_HEADER;
            ProcessPacket(0);
          }
        }
      case SD_DATA =>
        StoreByte(c);
      case SD_WAIT_CRC =>
        s := SD_WAIT_HEADER;
        ProcessPacket(c);
    }

    /** Drain the receive ring.  Whatever the callbacks send meanwhile, the messages handed on are those
        of the bytes that were waiting. */
    method Receive()
      requires Valid()
      modifies this, data, rx`rp, tx`wp, tx.buffer
      ensures Valid() && Contents(rx.Abs()) == []
      ensures Abs() == PumpRun(old(Abs()), old(Contents(rx.Abs())))
    {
      hide PumpStep;
      hide Contents;
      var pending := rx.DataPending();
      while pending
        invariant Valid()
        invariant pending <==> Contents(rx.Abs()) != []
        invariant PumpRun(Abs(), Contents(rx.Abs())) == PumpRun(old(Abs()), old(Contents(rx.Abs())))
        decreases |Contents(rx.Abs())|
      {
        ghost var waiting := Contents(rx.Abs());
        var c := rx.GetRx();
        assert waiting[0] == c && waiting[1..] == Contents(rx.Abs());
        ProtocolPump(c);
        pending := rx.DataPending();
      }
    }
  }

  lemma FrameParts(c: seq<Byte>, m: Message)
    requires |m.data| < 256
    ensures c + Frame(m) == if m.data == [] then c + Head(m) else c + Head(m) + m.data + [Sum(m.data)]
  {
    hide Sum;
    hide Head;
  }

  lemma OrIntoTarget(target: Word16, c: Byte)
    requires target % 256 == 0
    ensures Or(target, c) == target / 256 * 256 + c
  {
    OrOfBytes(target / 256, c);
  }

  lemma TargetBytes(t: nat)
    ensures Wire16(t) / 256 == t / 256 % 256 && Wire16(t) % 256 == t % 256
  {
  }
}
