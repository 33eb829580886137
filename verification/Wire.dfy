/** Peer messages as bytes: a four-byte big-endian length, a type, a payload. */
module Wire {
  import opened Bytes

  const MSG_REQUEST := 6
  const MSG_PIECE := 7
  const MSG_KEEP_ALIVE := -1

  /** binary.BigEndian.PutUint32 */
  function PutUint32(n: nat): (b: seq<byte>)
    requires n < TWO_TO_THE_32
    ensures |b| == 4
  {
    [n / 0x100_0000, n / 0x1_0000 % 0x100, n / 0x100 % 0x100, n % 0x100]
  }

  function Horner(b0: int, b1: int, b2: int, b3: int): int {
    0x100_0000 * b0 + 0x1_0000 * b1 + 0x100 * b2 + b3
  }

  /** binary.BigEndian.Uint32 */
  function GetUint32(b: seq<byte>): (n: nat)
    requires |b| >= 4
    ensures n < TWO_TO_THE_32
  {
    Horner(b[0], b[1], b[2], b[3])
  }

  lemma Uint32RoundTrip(n: nat, rest: seq<byte>)
    requires n < TWO_TO_THE_32
    ensures GetUint32(PutUint32(n) + rest) == n
  {
    var b := PutUint32(n) + rest;
    assert b[0] == n / 0x100_0000 && b[1] == n / 0x1_0000 % 0x100 && b[2] == n / 0x100 % 0x100 && b[3] == n % 0x100;
    Base256(n);
  }

  lemma GetUint32OfPrefix(b: seq<byte>)
    requires |b| >= 4
    ensures GetUint32(b[..4]) == GetUint32(b)
  {
  }

  lemma Base256(n: nat)
    ensures Horner(n / 0x100_0000, n / 0x1_0000 % 0x100, n / 0x100 % 0x100, n % 0x100) == n
  {
    assert n / 0x1_0000 == n / 0x100 / 0x100 && n / 0x100_0000 == n / 0x1_0000 / 0x100;
  }

  // ----- frames -----

  /** The buffer SendMessage fills, or None where filling it panics: the buffer's size is computed
      in uint32, and a size below five has no room for the type. */
  function Frame(kind: int, payload: seq<byte>): Option<seq<byte>> {
    if kind == MSG_KEEP_ALIVE then Some([0, 0, 0, 0])
    else
      var length := Uint32(|payload| + 1);
      var size := Uint32(4 + length);
      if size < 5 then None
      else Some(PutUint32(length) + [kind % 0x100] + payload[..size - 5])
  }

  datatype Received = Message(kind: int, payload: seq<byte>, rest: seq<byte>) | Broken

  /** What ReadMessage makes of the bytes a connection delivers. */
  function Receive(input: seq<byte>): Received {
    if |input| < 4 then Broken
    else
      var length := GetUint32(input);
      if length == 0 then Message(0, [], input[4..])
      else if |input| < 4 + length then Broken
      else Message(input[4], input[5..4 + length], input[4 + length..])
  }

  lemma ReceiveBody(body: seq<byte>, rest: seq<byte>)
    requires 0 < |body| < TWO_TO_THE_32
    ensures Receive(PutUint32(|body|) + body + rest) == Message(body[0], body[1..], rest)
  {
    hide PutUint32, GetUint32;
    var input := PutUint32(|body|) + body + rest;
    assert input == PutUint32(|body|) + (body + rest);
    Uint32RoundTrip(|body|, body + rest);
    assert input[5..4 + |body|] == body[1..] && input[4 + |body|..] == rest;
  }

  /** The sizes in a frame: either it panics, or the payload is cut to what the length says. */
  lemma FrameSizes(n: nat)
    ensures var length := Uint32(n + 1);
            var size := Uint32(4 + length);
            && (size >= 5 ==> size - 5 == length - 1 <= n)
            && (size >= 5 && length - 1 == n <==> n + 5 < TWO_TO_THE_32)
  {
  }

  /** What arrives of any message: its type reduced to a byte and its payload cut where the length,
      reduced to uint32, ends.  Filling the buffer panics where that length, or the buffer's, wraps
      too far. */
  lemma WhatArrives(kind: int, payload: seq<byte>, rest: seq<byte>)
    requires kind != MSG_KEEP_ALIVE
    ensures var length := (|payload| + 1) % TWO_TO_THE_32;
            if length == 0 || length >= TWO_TO_THE_32 - 4 then Frame(kind, payload) == None
            else && Frame(kind, payload).Some?
                 && Receive(Frame(kind, payload).value + rest) == Message(kind % 0x100, payload[..length - 1], rest)
  {
    hide PutUint32, Receive;
    var length := (|payload| + 1) % TWO_TO_THE_32;
    FrameSizes(|payload|);
    if 0 < length < TWO_TO_THE_32 - 4 {
      var body := [kind % 0x100] + payload[..length - 1];
      assert Frame(kind, payload).value == PutUint32(length) + body;
      ReceiveBody(body, rest);
      assert body[1..] == payload[..length - 1];
    }
  }

  /** A message arrives as it was sent, whatever follows it, exactly when its type is a byte and
      its frame fits a uint32; longer ones are cut or panic, and other types are reduced. */
  lemma ReceivedAsSentExactlyWhenItFits(kind: int, payload: seq<byte>, rest: seq<byte>)
    requires kind != MSG_KEEP_ALIVE
    ensures (Frame(kind, payload).Some?
             && Receive(Frame(kind, payload).value + rest) == Message(kind, payload, rest))
       <==> 0 <= kind < 0x100 && |payload| + 5 < TWO_TO_THE_32
  {
    hide Uint32, PutUint32, Receive;
    FrameSizes(|payload|);
    var length := Uint32(|payload| + 1);
    if Frame(kind, payload).Some? {
      var body := [kind % 0x100] + payload[..length - 1];
      assert Frame(kind, payload).value == PutUint32(length) + body;
      ReceiveBody(body, rest);
      assert body[1..] == payload[..length - 1];
      assert length - 1 == |payload| ==> payload[..length - 1] == payload;
    }
  }

  /** A keep-alive is received as a Choke without payload. */
  lemma KeepAliveLooksLikeChoke(payload: seq<byte>, rest: seq<byte>)
    ensures var keepAlive, choke := Frame(MSG_KEEP_ALIVE, payload), Frame(0, []);
            && keepAlive.Some? && Receive(keepAlive.value + rest) == Message(0, [], rest)
            && choke.Some? && Receive(choke.value + rest) == Message(0, [], rest)
  {
    ReceivedAsSentExactlyWhenItFits(0, [], rest);
    var input: seq<byte> := [0, 0, 0, 0] + rest;
    assert input[4..] == rest;
    assert Receive(input) == Message(0, [], rest) by {
      hide Frame;
    }
  }

  datatype Sent = Sent(kind: int, payload: seq<byte>)

  predicate Sendable(m: Sent) {
    m.kind == MSG_KEEP_ALIVE || (0 <= m.kind < 0x100 && |m.payload| + 5 < TWO_TO_THE_32)
  }

  /** Frames written back to back; those that panic write nothing. */
  function Stream(ms: seq<Sent>): seq<byte> {
    if ms == [] then []
    else
      var f := Frame(ms[0].kind, ms[0].payload);
      (if f.Some? then f.value else []) + Stream(ms[1..])
  }

  /** The messages that n reads return, and what they leave unread. */
  function ReceiveAll(input: seq<byte>, n: nat): Option<(seq<Sent>, seq<byte>)> {
    if n == 0 then Some(([], input))
    else
      match Receive(input)
      case Broken => None
      case Message(kind, payload, rest) =>
        match ReceiveAll(rest, n - 1)
        case None => None
        case Some((ms, left)) => Some(([Sent(kind, payload)] + ms, left))
  }

  /** What a list of messages looks like to the receiver. */
  function AsReceived(ms: seq<Sent>): (r: seq<Sent>)
    ensures |r| == |ms|
    ensures forall i | 0 <= i < |ms| :: r[i] == if ms[i].kind == MSG_KEEP_ALIVE then Sent(0, []) else ms[i]
  {
    seq(|ms|, i requires 0 <= i < |ms| => if ms[i].kind == MSG_KEEP_ALIVE then Sent(0, []) else ms[i])
  }

  /** Messages written back to back are read back in order, and every byte is used. */
  lemma {:induction false} StreamRoundTrip(ms: seq<Sent>, rest: seq<byte>)
    requires forall m <- ms :: Sendable(m)
    ensures ReceiveAll(Stream(ms) + rest, |ms|) == Some((AsReceived(ms), rest))
  {
    hide Frame, Receive;
    if ms == [] {
      assert Stream(ms) + rest == rest;
    } else {
      var m, tail := ms[0], Stream(ms[1..]) + rest;
      StreamRoundTrip(ms[1..], rest);
      var f := Frame(m.kind, m.payload);
      if m.kind == MSG_KEEP_ALIVE {
        KeepAliveLooksLikeChoke(m.payload, tail);
      } else {
        assert Sendable(m);
        ReceivedAsSentExactlyWhenItFits(m.kind, m.payload, tail);
      }
      assert Stream(ms) + rest == f.value + tail;
      assert AsReceived(ms) == [AsReceived(ms)[0]] + AsReceived(ms[1..]);
    }
  }

  // ----- payloads -----

  /** The fields of a request or the header of a piece, as the message handler slices them. */
  function Field(payload: seq<byte>, k: nat): nat
    requires |payload| >= 4 * k + 4
  {
    GetUint32(payload[4 * k..4 * k + 4])
  }

  function RequestPayload(index: nat, begin: nat, length: nat): (p: seq<byte>)
    requires index < TWO_TO_THE_32 && begin < TWO_TO_THE_32 && length < TWO_TO_THE_32
  {
    PutUint32(index) + PutUint32(begin) + PutUint32(length)
  }

  function PiecePayload(index: nat, begin: nat, data: seq<byte>): (p: seq<byte>)
    requires index < TWO_TO_THE_32 && begin < TWO_TO_THE_32
  {
    PutUint32(index) + PutUint32(begin) + data
  }

  lemma RequestFieldsRecovered(index: nat, begin: nat, length: nat)
    requires index < TWO_TO_THE_32 && begin < TWO_TO_THE_32 && length < TWO_TO_THE_32
    ensures var p := RequestPayload(index, begin, length);
            |p| == 12 && Field(p, 0) == index && Field(p, 1) == begin && Field(p, 2) == length
  {
    var p := RequestPayload(index, begin, length);
    assert p[0..4] == PutUint32(index) + [];
    assert p[4..8] == PutUint32(begin) + [];
    assert p[8..12] == PutUint32(length) + [];
    Uint32RoundTrip(index, []);
    Uint32RoundTrip(begin, []);
    Uint32RoundTrip(length, []);
  }

  lemma PieceFieldsRecovered(index: nat, begin: nat, data: seq<byte>)
    requires index < TWO_TO_THE_32 && begin < TWO_TO_THE_32
    ensures var p := PiecePayload(index, begin, data);
            |p| == 8 + |data| && Field(p, 0) == index && Field(p, 1) == begin && p[8..] == data
  {
    var p := PiecePayload(index, begin, data);
    assert p[0..4] == PutUint32(index) + [];
    assert p[4..8] == PutUint32(begin) + [];
    Uint32RoundTrip(index, []);
    Uint32RoundTrip(begin, []);
  }

  // ----- the code that fills buffers and moves bytes -----

  method Copy(dst: array<byte>, from: nat, src: seq<byte>)
    requires from + |src| <= dst.Length
    modifies dst
    ensures dst[..] == old(dst[..from]) + src + old(dst[from + |src|..])
  {
    forall k | 0 <= k < |src| {
      dst[from + k] := src[k];
    }
  }

  method NewRequestMessage(index: nat, begin: nat, length: nat) returns (msg: array<byte>)
    requires index < TWO_TO_THE_32 && begin < TWO_TO_THE_32 && length < TWO_TO_THE_32
    ensures fresh(msg) && msg[..] == RequestPayload(index, begin, length)
  {
    hide PutUint32;
    msg := new byte[12](_ => 0);
    Copy(msg, 0, PutUint32(index));
    Copy(msg, 4, PutUint32(begin));
    Copy(msg, 8, PutUint32(length));
  }

  method NewPieceMessage(index: nat, begin: nat, data: seq<byte>) returns (msg: array<byte>)
    requires index < TWO_TO_THE_32 && begin < TWO_TO_THE_32
    ensures fresh(msg) && msg[..] == PiecePayload(index, begin, data)
  {
    hide PutUint32;
    msg := new byte[8 + |data|](_ => 0);
    Copy(msg, 0, PutUint32(index));
    Copy(msg, 4, PutUint32(begin));
    Copy(msg, 8, data);
  }

  /** A buffer with a header, a type and a body put in place of its bytes. */
  lemma FilledBuffer(empty: seq<byte>, head: seq<byte>, kind: byte, body: seq<byte>)
    requires |head| == 4 && |empty| == 5 + |body|
    ensures var b := (empty[..0] + head + empty[4..])[4 := kind];
            b[..5] + body + b[5 + |body|..] == head + [kind] + body
  {
  }

  datatype SendOutcome = Delivered | WriteFailed | Panicked

  /** A connection: the bytes still to be read, the bytes written so far, and how many more the
      other side will take before a write fails. */
  class Conn {
    var input: seq<byte>
    var output: seq<byte>
    var capacity: nat

    constructor (input: seq<byte>, capacity: nat)
      ensures this.input == input && this.output == [] && this.capacity == capacity
    {
      this.input, this.output, this.capacity := input, [], capacity;
    }

    method Write(b: seq<byte>) returns (ok: bool)
      modifies `output, `capacity
      ensures ok <==> |b| <= old(capacity)
      ensures output == old(output) + b[..Min(|b|, old(capacity))]
      ensures capacity == old(capacity) - Min(|b|, old(capacity))
    {
      var n := Min(|b|, capacity);
      output := output + b[..n];
      capacity := capacity - n;
      ok := n == |b|;
    }

    /** io.ReadFull: fewer bytes than asked for are consumed and reported as an error. */
    method ReadFull(n: nat) returns (r: Option<seq<byte>>)
      modifies `input
      ensures |old(input)| < n ==> r == None && input == []
      ensures |old(input)| >= n ==> r == Some(old(input)[..n]) && input == old(input)[n..]
    {
      if |input| < n {
        input := [];
        return None;
      }
      r := Some(input[..n]);
      input := input[n..];
    }

    method SendMessage(kind: int, payload: seq<byte>) returns (r: SendOutcome)
      modifies `output, `capacity
      ensures r == Panicked <==> Frame(kind, payload).None?
      ensures r == Panicked ==> output == old(output) && capacity == old(capacity)
      ensures r != Panicked ==>
                var f := Frame(kind, payload).value;
                && (r == Delivered <==> |f| <= old(capacity))
                && output == old(output) + f[..Min(|f|, old(capacity))]
                && capacity == old(capacity) - Min(|f|, old(capacity))
    {
      if kind == MSG_KEEP_ALIVE {
        var sent := Write([0, 0, 0, 0]);
        return if sent then Delivered else WriteFailed;
      }
      hide Uint32, PutUint32;
      FrameSizes(|payload|);
      var length := Uint32(|payload| + 1);
      var size := Uint32(4 + length);
      if size < 5 {
        return Panicked;
      }
      var buf := new byte[size](_ => 0);
      ghost var empty := buf[..];
      Copy(buf, 0, PutUint32(length));
      buf[4] := kind % 0x100;
      Copy(buf, 5, payload[..Min(|payload|, size - 5)]);
      FilledBuffer(empty, PutUint32(length), kind % 0x100, payload[..size - 5]);
      var sent := Write(buf[..]);
      return if sent then Delivered else WriteFailed;
    }

    method ReadMessage() returns (r: Option<(int, seq<byte>)>)
      modifies `input
      ensures r.None? <==> Receive(old(input)).Broken?
      ensures r.Some? ==> Receive(old(input)) == Message(r.value.0, r.value.1, input)
    {
      var lengthBuf := ReadFull(4);
      if lengthBuf.None? {
        return None;
      }
      GetUint32OfPrefix(old(input));
      var length := GetUint32(lengthBuf.value);
      if length == 0 {
        return Some((0, []));
      }
      var messageBuf := ReadFull(length);
      if messageBuf.None? {
        return None;
      }
      assert messageBuf.value[1..] == old(input)[5..4 + length];
      assert input == old(input)[4 + length..];
      return Some((messageBuf.value[0], messageBuf.value[1..]));
    }
  }
}
