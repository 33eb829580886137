/** Encodings and frames written out byte by byte. */
module Literals {
  import opened Bytes
  import opened Decimal
  import opened KeyOrder
  import opened Bencode
  import opened Wire

  lemma OneDigit(n: nat)
    requires n < 10
    ensures Format(n) == [48 + n]
  {
  }

  /** i7e */
  lemma IntLiteral(n: nat)
    requires n < 10
    ensures Encode(Int(n)) == [105, 48 + n, 101]
  {
    OneDigit(n);
    hide Format;
  }

  /** i-42e */
  lemma NegativeLiteral()
    ensures Encode(Int(-42)) == [105, 45, 52, 50, 101]
  {
    assert FormatNat(4) == [52];
    assert FormatNat(42) == [52] + [50];
  }

  /** 4:spam */
  lemma StringLiteral()
    ensures Encode(Str([115, 112, 97, 109])) == [52, 58, 115, 112, 97, 109]
  {
    OneDigit(4);
    hide Format;
  }

  /** le and de */
  lemma EmptyLiterals()
    ensures Encode(List([])) == [108, 101]
    ensures Encode(Dict(map[])) == [100, 101]
  {
    var m: map<Key, Value> := map[];
    assert m.Keys == {} && SortedKeys({}) == [];
  }

  /** li1ei2ee: a list keeps its order. */
  lemma ListLiteral()
    ensures Encode(List([Int(1), Int(2)])) == [108, 105, 49, 101, 105, 50, 101, 101]
  {
    IntLiteral(1);
    IntLiteral(2);
    hide Format;
    var items := [Int(1), Int(2)];
    assert items[1..] == [Int(2)] && items[1..][1..] == [];
    assert EncodeItems(items[1..]) == Encode(Int(2)) + [];
    assert EncodeItems(items) == Encode(Int(1)) + Encode(Int(2));
  }

  /** d1:ai1e1:bi2ee: of a dictionary with the keys a and b the key a comes first. */
  lemma DictLiteral()
    ensures Encode(Dict(map[[98] := Int(2), [97] := Int(1)]))
         == [100, 49, 58, 97, 105, 49, 101, 49, 58, 98, 105, 50, 101, 101]
  {
    var a: Key, b: Key := [97], [98];
    var v := Dict(map[b := Int(2), a := Int(1)]);
    AscendingPair(a, b);
    assert v.entries.Keys == {a, b};
    TwoEntries(v, a, b);
    IntLiteral(1);
    IntLiteral(2);
    KeyLiteral(a);
    KeyLiteral(b);
    hide Format, EncodeString, EncodeEntries, SortedKeys;
    assert Encode(v) == [DICT_START] + EncodeEntries(v, [a, b]) + [END];
  }

  lemma KeyLiteral(k: Key)
    requires |k| == 1
    ensures EncodeString(k) == [49, 58, k[0]]
  {
    OneDigit(1);
    hide Format;
  }

  lemma TwoEntries(v: Value, a: Key, b: Key)
    requires v.Dict? && a in v.entries && b in v.entries
    ensures EncodeEntries(v, [a, b])
         == EncodeString(a) + Encode(v.entries[a]) + (EncodeString(b) + Encode(v.entries[b]))
  {
    hide EncodeString, Encode;
    assert [a, b][1..] == [b] && [b][1..] == [];
    assert EncodeEntries(v, [b]) == EncodeString(b) + Encode(v.entries[b]) + [];
  }

  lemma AscendingPair(a: Key, b: Key)
    requires DiffersAt(a, b, 0)
    ensures SortedKeys({a, b}) == [a, b]
  {
    assert Before(a, b);
    LessIsBytewise(a, b);
    LessIsStrictTotal(a, b);
    assert Increasing([a, b]);
    IncreasingIsSorted([a, b]);
    assert KeysOf([a, b]) == {a, b};
  }

  /** Most significant byte first. */
  lemma BigEndian()
    ensures PutUint32(0x01020304) == [1, 2, 3, 4]
    ensures GetUint32([1, 2, 3, 4]) == 0x01020304
  {
  }

  lemma FrameOf(kind: nat, payload: seq<byte>)
    requires kind < 0x100 && |payload| + 5 < TWO_TO_THE_32
    ensures Frame(kind, payload) == Some(PutUint32(|payload| + 1) + [kind] + payload)
  {
    FrameSizes(|payload|);
    hide PutUint32;
    Uint32Small(|payload| + 1);
    assert payload[..|payload|] == payload;
  }

  lemma Uint32Small(n: nat)
    requires n < TWO_TO_THE_32
    ensures Uint32(n) == n
  {
  }

  /** A request for the second sixteen kilobytes of piece 1, and an answer to it of one byte. */
  lemma FrameLiterals()
    ensures Frame(MSG_REQUEST, RequestPayload(1, 16384, 16384))
         == Some([0, 0, 0, 13, 6] + [0, 0, 0, 1] + [0, 0, 64, 0] + [0, 0, 64, 0])
    ensures Frame(MSG_PIECE, PiecePayload(1, 16384, [7]))
         == Some([0, 0, 0, 10, 7] + [0, 0, 0, 1] + [0, 0, 64, 0] + [7])
  {
    assert PutUint32(13) == [0, 0, 0, 13] && PutUint32(10) == [0, 0, 0, 10];
    assert PutUint32(1) == [0, 0, 0, 1] && PutUint32(16384) == [0, 0, 64, 0];
    var request, piece := RequestPayload(1, 16384, 16384), PiecePayload(1, 16384, [7]);
    FrameOf(MSG_REQUEST, request);
    FrameOf(MSG_PIECE, piece);
    hide PutUint32, Frame;
    assert PutUint32(13) + [6] + request == [0, 0, 0, 13, 6] + [0, 0, 0, 1] + [0, 0, 64, 0] + [0, 0, 64, 0];
    assert PutUint32(10) + [7] + piece == [0, 0, 0, 10, 7] + [0, 0, 0, 1] + [0, 0, 64, 0] + [7];
  }
}
