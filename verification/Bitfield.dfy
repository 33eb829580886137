/** The pieces a peer says it has, one bit each, most significant bit first. */
module Bitfields {
  import opened Bytes
  import opened Wire

  type Bits = seq<bv8>

  /** Go's shifts of a byte: counts of eight and more leave nothing. */
  function ShiftRight(b: bv8, count: nat): bv8 {
    if count >= 8 then 0 else b >> count
  }

  function ShiftLeft(b: bv8, count: nat): bv8 {
    if count >= 8 then 0 else b << count
  }

  /** Go's truncated division makes the offset of a negative index negative and the shift count
      eight or more. */
  predicate HasPiece(bits: Bits, index: int) {
    var byteIndex, offset := Quot(index, 8), Rem(index, 8);
    0 <= byteIndex < |bits| && ShiftRight(bits[byteIndex], 7 - offset) & 1 != 0
  }

  function WithPiece(bits: Bits, index: int): (r: Bits)
    ensures |r| == |bits|
  {
    var byteIndex, offset := Quot(index, 8), Rem(index, 8);
    if byteIndex < 0 || byteIndex >= |bits| then bits
    else bits[byteIndex := bits[byteIndex] | ShiftLeft(1, 7 - offset)]
  }

  method NewBitfield(size: int) returns (bf: array<bv8>)
    requires size > -15 // make panics on a negative length
    ensures fresh(bf) && bf.Length == Quot(size + 7, 8)
    ensures forall i :: !HasPiece(bf[..], i)
  {
    bf := new bv8[Quot(size + 7, 8)](_ => 0);
    forall i
      ensures !HasPiece(bf[..], i)
    {
      ShiftedZero(7 - Rem(i, 8));
    }
  }

  method SetPiece(bf: array<bv8>, index: int)
    modifies bf
    ensures bf[..] == WithPiece(old(bf[..]), index)
  {
    var byteIndex := Quot(index, 8);
    var offset := Rem(index, 8);
    if byteIndex < 0 || byteIndex >= bf.Length {
      return;
    }
    bf[byteIndex] := bf[byteIndex] | ShiftLeft(1, 7 - offset);
  }

  lemma ShiftedZero(k: nat)
    ensures ShiftRight(0, k) == 0
  {
  }

  /** Setting one bit of a byte sets that bit and no other. */
  lemma OrBit(b: bv8, j: nat, k: nat)
    requires k < 8
    ensures (ShiftRight(b | ShiftLeft(1, j), k) & 1 != 0) <==> (ShiftRight(b, k) & 1 != 0) || j == k
  {
    if j < 8 {
      OrBitUnder8(b, j, k);
    } else {
      assert b | 0 == b;
    }
  }

  lemma OrBitUnder8(b: bv8, j: nat, k: nat)
    requires j < 8 && k < 8
    ensures (((b | (1 << j)) >> k) & 1 != 0) <==> ((b >> k) & 1 != 0) || j == k
  {
  }

  lemma ByteAndBit(i: int)
    ensures i >= 0 ==> Quot(i, 8) >= 0 && 0 <= Rem(i, 8) < 8 && 8 * Quot(i, 8) + Rem(i, 8) == i
    ensures -8 < i < 0 ==> Quot(i, 8) == 0 && Rem(i, 8) < 0
    ensures i <= -8 ==> Quot(i, 8) < 0
  {
  }

  /** Only indices inside the bitfield can be members. */
  lemma MembersAreInRange(bits: Bits, i: int)
    requires HasPiece(bits, i)
    ensures 0 <= i < 8 * |bits|
  {
    ByteAndBit(i);
  }

  /** The bitfield is a set: SetPiece adds its index, if that is in range, and changes nothing else,
      whatever the index. */
  lemma SetPieceAddsExactlyOne(bits: Bits, j: int, i: int)
    ensures HasPiece(WithPiece(bits, j), i) <==> HasPiece(bits, i) || (i == j && 0 <= j < 8 * |bits|)
  {
    hide Quot, Rem, ShiftLeft;
    ByteAndBit(i);
    ByteAndBit(j);
    if i >= 0 && 0 <= Quot(j, 8) < |bits| && Quot(i, 8) == Quot(j, 8) {
      OrBit(bits[Quot(j, 8)], 7 - Rem(j, 8), 7 - Rem(i, 8));
    }
  }

  /** The bitfield after a run of Have messages. */
  function WithPieces(bits: Bits, haves: seq<int>): (r: Bits)
    ensures |r| == |bits|
  {
    if haves == [] then bits else WithPiece(WithPieces(bits, haves[..|haves| - 1]), haves[|haves| - 1])
  }

  lemma {:induction false} HavesAddTheInRangeOnes(bits: Bits, haves: seq<int>, i: int)
    ensures HasPiece(WithPieces(bits, haves), i) <==> HasPiece(bits, i) || (i in haves && 0 <= i < 8 * |bits|)
  {
    if haves != [] {
      var k := |haves| - 1;
      HavesAddTheInRangeOnes(bits, haves[..k], i);
      SetPieceAddsExactlyOne(WithPieces(bits, haves[..k]), haves[k], i);
      assert haves == haves[..k] + [haves[k]];
    }
  }

  /** The bits of a Bitfield message, first byte first. */
  function BitsOf(payload: seq<byte>): (r: Bits)
    ensures |r| == |payload|
  {
    seq(|payload|, i requires 0 <= i < |payload| => payload[i] as bv8)
  }

  /** What a one in the given place of a byte is worth, the first place being the most significant. */
  function Weight(place: nat): nat
    requires place < 8
  {
    [128, 64, 32, 16, 8, 4, 2, 1][place]
  }

  lemma BitsOfByte(b: byte)
    ensures ((b as bv8) >> 7) & 1 != 0 <==> b / 128 % 2 == 1
    ensures ((b as bv8) >> 6) & 1 != 0 <==> b / 64 % 2 == 1
    ensures ((b as bv8) >> 5) & 1 != 0 <==> b / 32 % 2 == 1
    ensures ((b as bv8) >> 4) & 1 != 0 <==> b / 16 % 2 == 1
    ensures ((b as bv8) >> 3) & 1 != 0 <==> b / 8 % 2 == 1
    ensures ((b as bv8) >> 2) & 1 != 0 <==> b / 4 % 2 == 1
    ensures ((b as bv8) >> 1) & 1 != 0 <==> b / 2 % 2 == 1
    ensures (b as bv8) & 1 != 0 <==> b % 2 == 1
  {
  }

  lemma BitOfByte(b: byte, place: nat)
    requires place < 8
    ensures ShiftRight(b as bv8, 7 - place) & 1 != 0 <==> b / Weight(place) % 2 == 1
  {
    BitsOfByte(b);
    if
    case place == 0 => assert ShiftRight(b as bv8, 7) == (b as bv8) >> 7;
    case place == 1 => assert ShiftRight(b as bv8, 6) == (b as bv8) >> 6;
    case place == 2 => assert ShiftRight(b as bv8, 5) == (b as bv8) >> 5;
    case place == 3 => assert ShiftRight(b as bv8, 4) == (b as bv8) >> 4;
    case place == 4 => assert ShiftRight(b as bv8, 3) == (b as bv8) >> 3;
    case place == 5 => assert ShiftRight(b as bv8, 2) == (b as bv8) >> 2;
    case place == 6 => assert ShiftRight(b as bv8, 1) == (b as bv8) >> 1;
    case place == 7 => assert ShiftRight(b as bv8, 0) == (b as bv8) >> 0;
  }

  /** The members a payload stands for: index i is the (i % 8)-th bit, most significant first, of byte
      i / 8, in whole numbers. */
  lemma MembersOfPayload(payload: seq<byte>, i: int)
    ensures HasPiece(BitsOf(payload), i)
       <==> 0 <= i < 8 * |payload| && payload[i / 8] / Weight(i % 8) % 2 == 1
  {
    hide ShiftRight, Weight;
    ByteAndBit(i);
    if 0 <= i < 8 * |payload| {
      BitOfByte(payload[i / 8], i % 8);
    } else if HasPiece(BitsOf(payload), i) {
      MembersAreInRange(BitsOf(payload), i);
    }
  }

  /** A Bitfield message replaces what was known of the peer by the payload's members. */
  method OnBitfield(payload: seq<byte>) returns (bf: array<bv8>)
    ensures fresh(bf) && bf[..] == BitsOf(payload)
    ensures forall i :: HasPiece(bf[..], i)
                        <==> 0 <= i < 8 * |payload| && payload[i / 8] / Weight(i % 8) % 2 == 1
  {
    forall i
      ensures HasPiece(BitsOf(payload), i)
         <==> 0 <= i < 8 * |payload| && payload[i / 8] / Weight(i % 8) % 2 == 1
    {
      MembersOfPayload(payload, i);
    }
    hide HasPiece, Weight;
    bf := NewBitfield(|payload| * 8);
    forall i | 0 <= i < |payload| {
      bf[i] := payload[i] as bv8;
    }
  }

  /** A Have message adds one piece; the payload is taken to be at least four bytes long. */
  method OnHave(bf: array<bv8>, payload: seq<byte>)
    requires |payload| >= 4 // Uint32 panics on fewer
    modifies bf
    ensures bf[..] == WithPiece(old(bf[..]), GetUint32(payload))
  {
    SetPiece(bf, GetUint32(payload));
  }
}
