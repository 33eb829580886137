/** The requests by which a piece is asked for. */
module Requests {
  import opened Bytes
  import opened MetaInfos
  import opened Wire

  datatype Request = Request(begin: nat, length: nat)

  /** The loop of requestPiece from `begin` on; positions and lengths are cut to uint32. */
  function RequestsFrom(size: int, length: int, begin: nat): seq<Request>
    requires size > 0 || begin >= length
    decreases length - begin
  {
    if begin >= length then []
    else [Request(Uint32(begin), Uint32(Min(size, length - begin)))] + RequestsFrom(size, length, begin + size)
  }

  /** The requests follow each other without gap or overlap, none of them empty. */
  predicate Tiles(rs: seq<Request>, from: int, to: int) {
    if rs == [] then from == to
    else rs[0].begin == from && rs[0].length > 0 && Tiles(rs[1..], from + rs[0].length, to)
  }

  function SumOf(rs: seq<Request>): int {
    if rs == [] then 0 else rs[0].length + SumOf(rs[1..])
  }

  lemma {:induction false} TilesSum(rs: seq<Request>, from: int, to: int)
    requires Tiles(rs, from, to)
    ensures SumOf(rs) == to - from
  {
    if rs != [] {
      TilesSum(rs[1..], from + rs[0].length, to);
    }
  }

  lemma Uint32Cuts(x: nat)
    ensures Uint32(x) <= x
    ensures Uint32(x) == x <==> x < TWO_TO_THE_32
  {
  }

  lemma {:induction false} SumIsBounded(size: int, length: int, begin: nat)
    requires size > 0 && begin <= length
    ensures SumOf(RequestsFrom(size, length, begin)) <= length - begin
    decreases length - begin
  {
    if begin < length {
      var k := Min(size, length - begin);
      Uint32Cuts(k);
      if begin + size <= length {
        SumIsBounded(size, length, begin + size);
      }
    }
  }

  /** Where the last request starts. */
  function LastBegin(size: int, length: int): int
    requires size > 0
  {
    (length - 1) / size * size
  }

  lemma LastBeginIs(size: int, length: int, k: nat)
    requires size > 0 && k * size < length
    ensures k * size <= LastBegin(size, length)
    ensures length <= k * size + size ==> LastBegin(size, length) == k * size
  {
    var q := (length - 1) / size;
    assert q * size + (length - 1) % size == length - 1;
    assert (q + 1) * size == q * size + size;
    if q < k {
      MulMonotone(size, q + 1, k);
    }
    MulMonotone(size, k, q);
    if length <= k * size + size {
      SameMultiple(size, q, k);
    }
  }

  lemma LastBeginInside(size: int, length: nat)
    requires size > 0 && length > 0
    ensures LastBegin(size, length) < length
  {
    assert (length - 1) / size * size + (length - 1) % size == length - 1;
  }

  lemma NoRequests(size: int)
    requires size > 0
    ensures RequestsFrom(size, 0, 0) == []
  {
  }

  lemma {:induction false} TileFrom(size: int, length: int, k: nat)
    requires size > 0 && k * size < length
    ensures Tiles(RequestsFrom(size, length, k * size), k * size, length)
       <==> Min(size, length - k * size) < TWO_TO_THE_32 && LastBegin(size, length) < TWO_TO_THE_32
    decreases length - k * size
  {
    hide LastBegin, Uint32;
    var b := k * size;
    MulMonotone(size, 0, k);
    var n := Min(size, length - b);
    var rs := RequestsFrom(size, length, b);
    assert rs[1..] == RequestsFrom(size, length, b + size);
    Uint32Cuts(b);
    Uint32Cuts(n);
    LastBeginIs(size, length, k);
    assert (k + 1) * size == b + size;
    if b + size < length {
      TileFrom(size, length, k + 1);
      SumIsBounded(size, length, b + size);
    }
    if Tiles(rs, b, length) {
      TilesSum(rs, b, length);
    }
  }

  /** The requests sent for a piece tile it exactly when its last request starts, and every request
      ends, within the reach of a uint32; a piece shorter than 2^32 always qualifies. */
  lemma RequestsTileExactlyWhenTheyFit(size: int, length: nat)
    requires size > 0
    ensures Tiles(RequestsFrom(size, length, 0), 0, length)
       <==> length == 0 || (Min(size, length) < TWO_TO_THE_32 && LastBegin(size, length) < TWO_TO_THE_32)
    ensures length < TWO_TO_THE_32 ==> Tiles(RequestsFrom(size, length, 0), 0, length)
  {
    hide RequestsFrom, LastBegin;
    if length > 0 {
      assert 0 * size == 0;
      TileFrom(size, length, 0);
      LastBeginInside(size, length);
    } else {
      assert RequestsFrom(size, 0, 0) == [] by { NoRequests(size); }
    }
  }

  /** There are as many requests as blocks of the given size started, and none is longer. */
  lemma {:induction false} RequestCount(size: int, length: int, begin: nat)
    requires size > 0
    ensures var rs := RequestsFrom(size, length, begin);
            && |rs| == (if begin < length then (length - begin + size - 1) / size else 0)
            && forall i | 0 <= i < |rs| :: rs[i].length <= size
    decreases length - begin
  {
    if begin < length {
      RequestCount(size, length, begin + size);
      Uint32Cuts(Min(size, length - begin));
      OneBlockLess(size, length - begin);
    }
  }

  lemma OneBlockLess(size: int, n: int)
    requires size > 0 && n > 0
    ensures (n + size - 1) / size == 1 + if n > size then (n - size + size - 1) / size else 0
  {
    var q, r := (n - 1) / size, (n - 1) % size;
    var q', r' := (n + size - 1) / size, (n + size - 1) % size;
    assert q * size + r == n - 1 && q' * size + r' == n + size - 1;
    assert (q + 1) * size == q * size + size;
    SameMultiple(size, q', q + 1);
    if n <= size {
      SameMultiple(size, q, 0);
    }
  }

  /** A piece no longer than the request size is asked for whole, an empty one not at all. */
  lemma WholePieceRequest(size: int, length: nat)
    requires 0 < length <= size
    ensures RequestsFrom(size, length, 0) == [Request(0, Uint32(length))]
    ensures RequestsFrom(size, 0, 0) == []
  {
    assert RequestsFrom(size, length, size) == [];
  }

  /** Request messages for piece `index`. */
  function RequestMessages(index: nat, rs: seq<Request>): (ms: seq<Sent>)
    requires index < TWO_TO_THE_32
    requires forall r <- rs :: r.begin < TWO_TO_THE_32 && r.length < TWO_TO_THE_32
    ensures |ms| == |rs|
    ensures forall i | 0 <= i < |rs| ::
              ms[i] == Sent(MSG_REQUEST, RequestPayload(index, rs[i].begin, rs[i].length))
  {
    if rs == [] then []
    else [Sent(MSG_REQUEST, RequestPayload(index, rs[0].begin, rs[0].length))] + RequestMessages(index, rs[1..])
  }

  lemma {:induction false} RequestsFitUint32(size: int, length: int, begin: nat)
    requires size > 0 || begin >= length
    ensures forall r <- RequestsFrom(size, length, begin) :: r.begin < TWO_TO_THE_32 && r.length < TWO_TO_THE_32
    decreases length - begin
  {
    if begin < length {
      RequestsFitUint32(size, length, begin + size);
    }
  }

  /** The bytes requestPiece sends when nothing goes wrong. */
  function RequestBytes(index: int, size: int, length: int, begin: nat): seq<byte>
    requires size > 0 || begin >= length
  {
    RequestsFitUint32(size, length, begin);
    Stream(RequestMessages(Uint32(index), RequestsFrom(size, length, begin)))
  }

  lemma RequestBytesUnfold(index: int, size: int, length: int, begin: nat)
    requires size > 0 && begin < length
    ensures var p := RequestPayload(Uint32(index), Uint32(begin), Uint32(Min(size, length - begin)));
            && Frame(MSG_REQUEST, p).Some?
            && RequestBytes(index, size, length, begin)
               == Frame(MSG_REQUEST, p).value + RequestBytes(index, size, length, begin + size)
  {
    hide Uint32, PutUint32;
    var rs := RequestsFrom(size, length, begin);
    RequestsFitUint32(size, length, begin);
    RequestsFitUint32(size, length, begin + size);
    assert rs[1..] == RequestsFrom(size, length, begin + size);
    var ms := RequestMessages(Uint32(index), rs);
    assert ms[1..] == RequestMessages(Uint32(index), rs[1..]);
    RequestFrames(ms[0].payload);
  }

  lemma RequestFrames(p: seq<byte>)
    requires |p| == 12
    ensures Frame(MSG_REQUEST, p).Some? && |Frame(MSG_REQUEST, p).value| == 17
  {
    assert Uint32(13) == 13 && Uint32(17) == 17;
  }
}
