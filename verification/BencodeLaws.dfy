/** Reading back what was written, and writing what was read. */
module BencodeLaws {
  import opened Bytes
  import opened Decimal
  import opened KeyOrder
  import opened Bencode

  /** Every integer fits int64 and every string, keys included, is at most MaxInt32 bytes long. */
  ghost predicate Encodable(v: Value) {
    match v
    case Int(n) => MIN_INT64 <= n <= MAX_INT64
    case Str(s) => |s| <= MAX_INT32
    case List(items) => forall x <- items :: Encodable(x)
    case Dict(entries) => forall k <- entries :: |k| <= MAX_INT32 && Encodable(entries[k])
  }

  // ----- round trip -----

  lemma {:induction false} FindIs(s: seq<byte>, b: byte, i: nat)
    requires i < |s| && s[i] == b && forall j | 0 <= j < i :: s[j] != b
    ensures Find(s, b) == i
  {
    var f := Find(s, b);
    assert f <= i;
  }

  lemma FindAfterNumber(n: int, b: byte, tail: seq<byte>)
    requires b == COLON || b == END
    ensures Find(Format(n) + [b] + tail, b) == |Format(n)|
  {
    var f := Format(n);
    var s := f + [b] + tail;
    forall j | 0 <= j < |f|
      ensures s[j] != b
    {
      assert IsDigit(f[j]) || f[j] == MINUS;
    }
    FindIs(s, b, |f|);
  }

  lemma NumberRoundTrip(n: int, rest: seq<byte>)
    requires MIN_INT64 <= n <= MAX_INT64
    ensures ParseNumber(Format(n) + [END] + rest) == Ok(n, rest)
  {
    hide Format, ParseInt, Find;
    var b := Format(n) + [END] + rest;
    FindAfterNumber(n, END, rest);
    ParseFormat(n);
    assert b[..|Format(n)|] == Format(n) && b[|Format(n)| + 1..] == rest;
  }

  lemma StringRoundTrip(s: Key, rest: seq<byte>)
    requires |s| <= MAX_INT32
    ensures ParseString(EncodeString(s) + rest) == Ok(s, rest)
  {
    hide Format, ParseInt, Find;
    var f := Format(|s|);
    var b := EncodeString(s) + rest;
    assert b == f + [COLON] + (s + rest);
    FindAfterNumber(|s|, COLON, s + rest);
    ParseFormat(|s|);
    assert b[..|f|] == f;
    assert b[|f| + 1..|f| + 1 + |s|] == s && b[|f| + 1 + |s|..] == rest;
  }

  lemma EncodedStart(v: Value)
    ensures Encode(v) != [] && Encode(v)[0] != END
    ensures v.Str? ==> Encode(v)[0] !in [INT_START, LIST_START, DICT_START]
  {
    hide Format;
  }

  ghost function PairsOf(v: Value, ks: seq<Key>): (ps: seq<(Key, Value)>)
    requires v.Dict? && forall k <- ks :: k in v.entries
    ensures |ps| == |ks| && forall i | 0 <= i < |ks| :: ps[i] == (ks[i], v.entries[ks[i]])
  {
    seq(|ks|, i requires 0 <= i < |ks| => (ks[i], v.entries[ks[i]]))
  }

  lemma {:induction false} FromPairsOf(v: Value, ks: seq<Key>)
    requires v.Dict? && forall k <- ks :: k in v.entries
    ensures forall k :: k in FromPairs(PairsOf(v, ks)) <==> k in ks
    ensures forall k <- ks :: FromPairs(PairsOf(v, ks))[k] == v.entries[k]
  {
    if ks != [] {
      var n := |ks| - 1;
      FromPairsOf(v, ks[..n]);
      assert ks == ks[..n] + [ks[n]];
      assert PairsOf(v, ks)[..n] == PairsOf(v, ks[..n]);
    }
  }

  /** A value followed by any bytes is read back, and the reading stops where the value ends. */
  lemma {:induction false} ParseEncode(v: Value, rest: seq<byte>)
    requires Encodable(v)
    ensures ParseValue(Encode(v) + rest) == Ok(v, rest)
    decreases v, 1, 0
  {
    hide ParseValue, Encode, EncodeItems, EncodeEntries, ParseItems, ParseEntries;
    match v {
      case Int(n) =>
        IntCase(n, rest);
      case Str(s) =>
        EntryRoundTrip(s, rest);
        assert Encode(v) == EncodeString(s) by { EncodeStr(s); }
      case List(items) =>
        ParseEncodeItems(items, rest);
        ListCase(items, rest);
      case Dict(entries) =>
        ParseEncodeEntries(v, SortedKeys(entries.Keys), rest);
        SortedPairsAreTheMap(v);
        DictCase(v, PairsOf(v, SortedKeys(entries.Keys)), rest);
    }
  }

  lemma EncodeStr(s: Key)
    ensures Encode(Str(s)) == EncodeString(s)
  {
  }

  lemma IntCase(n: int, rest: seq<byte>)
    requires MIN_INT64 <= n <= MAX_INT64
    ensures ParseValue(Encode(Int(n)) + rest) == Ok(Int(n), rest)
  {
    hide Format, ParseNumber;
    NumberRoundTrip(n, rest);
    assert (Encode(Int(n)) + rest)[1..] == Format(n) + [END] + rest;
  }

  lemma ListCase(items: seq<Value>, rest: seq<byte>)
    requires ParseItems(EncodeItems(items) + [END] + rest) == Ok(items, rest)
    ensures ParseValue(Encode(List(items)) + rest) == Ok(List(items), rest)
  {
    hide EncodeItems, ParseItems;
    assert (Encode(List(items)) + rest)[1..] == EncodeItems(items) + [END] + rest;
  }

  lemma SortedPairsAreTheMap(v: Value)
    requires v.Dict?
    ensures FromPairs(PairsOf(v, SortedKeys(v.entries.Keys))) == v.entries
  {
    hide FromPairs, PairsOf, SortedKeys;
    FromPairsOf(v, SortedKeys(v.entries.Keys));
  }

  lemma DictCase(v: Value, ps: seq<(Key, Value)>, rest: seq<byte>)
    requires v.Dict? && FromPairs(ps) == v.entries
    requires ParseEntries(EncodeEntries(v, SortedKeys(v.entries.Keys)) + [END] + rest) == Ok(ps, rest)
    ensures ParseValue(Encode(v) + rest) == Ok(v, rest)
  {
    hide EncodeEntries, ParseEntries, FromPairs, SortedKeys;
    var ks := SortedKeys(v.entries.Keys);
    assert (Encode(v) + rest)[1..] == EncodeEntries(v, ks) + [END] + rest;
  }

  lemma {:induction false} ParseEncodeItems(items: seq<Value>, rest: seq<byte>)
    requires forall x <- items :: Encodable(x)
    ensures ParseItems(EncodeItems(items) + [END] + rest) == Ok(items, rest)
    decreases items, 0, 0
  {
    hide Encode, Encodable, ParseValue;
    var b := EncodeItems(items) + [END] + rest;
    if items == [] {
      assert b[1..] == rest;
    } else {
      var tail := EncodeItems(items[1..]) + [END] + rest;
      assert b == Encode(items[0]) + tail;
      assert Encodable(items[0]);
      EncodedStart(items[0]);
      ParseEncode(items[0], tail);
      ParseEncodeItems(items[1..], rest);
      assert items == [items[0]] + items[1..];
    }
  }

  lemma {:induction false} ParseEncodeEntries(v: Value, ks: seq<Key>, rest: seq<byte>)
    requires v.Dict? && Encodable(v) && forall k <- ks :: k in v.entries
    ensures ParseEntries(EncodeEntries(v, ks) + [END] + rest) == Ok(PairsOf(v, ks), rest)
    decreases v, 0, |ks|
  {
    hide Encode, ParseValue, EncodeString;
    var b := EncodeEntries(v, ks) + [END] + rest;
    if ks == [] {
      assert b[1..] == rest;
    } else {
      FirstEntry(v, ks, rest);
      hide ParseEntries, EncodeEntries;
      var k, x := ks[0], v.entries[ks[0]];
      var tail := EncodeEntries(v, ks[1..]) + [END] + rest;
      EntryRoundTrip(k, Encode(x) + tail);
      ParseEncode(x, tail);
      ParseEncodeEntries(v, ks[1..], rest);
      EntryCase(b, k, Encode(x) + tail, x, tail, PairsOf(v, ks[1..]), rest);
      assert PairsOf(v, ks) == [(k, x)] + PairsOf(v, ks[1..]);
    }
  }

  lemma FirstEntry(v: Value, ks: seq<Key>, rest: seq<byte>)
    requires v.Dict? && ks != [] && forall k <- ks :: k in v.entries
    ensures EncodeEntries(v, ks) + [END] + rest
         == EncodeString(ks[0]) + (Encode(v.entries[ks[0]]) + (EncodeEntries(v, ks[1..]) + [END] + rest))
  {
    hide Encode, EncodeString;
  }

  lemma EntryCase(
    b: seq<byte>, k: Key, mid: seq<byte>, x: Value, tail: seq<byte>, ps: seq<(Key, Value)>, rest: seq<byte>)
    requires b != [] && b[0] != END && ParseValue(b) == Ok(Str(k), mid)
    requires ParseValue(mid) == Ok(x, tail) && ParseEntries(tail) == Ok(ps, rest)
    ensures ParseEntries(b) == Ok([(k, x)] + ps, rest)
  {
    hide ParseValue;
  }

  lemma EntryRoundTrip(k: Key, tail: seq<byte>)
    requires |k| <= MAX_INT32
    ensures var b := EncodeString(k) + tail;
            b[0] != END && ParseValue(b) == Ok(Str(k), tail)
  {
    hide Format, ParseString;
    StringRoundTrip(k, tail);
  }

  // ----- what the decoder returns -----

  lemma {:induction false} FromPairsMember(ps: seq<(Key, Value)>, k: Key)
    requires k in FromPairs(ps)
    ensures (k, FromPairs(ps)[k]) in ps
  {
    var n := |ps| - 1;
    if ps[n].0 != k {
      FromPairsMember(ps[..n], k);
    }
  }

  /** Whatever is read fits the limits of writing. */
  lemma {:induction false} ParsedIsEncodable(b: seq<byte>)
    requires ParseValue(b).Ok?
    ensures Encodable(ParseValue(b).value)
    decreases |b|, 0
  {
    hide FromPairs, ParseInt, Find;
    if b[0] == INT_START {
    } else if b[0] == LIST_START {
      ParsedItemsAreEncodable(b[1..]);
    } else if b[0] == DICT_START {
      ParsedEntriesAreEncodable(b[1..]);
      var ps := ParseEntries(b[1..]).value;
      forall k <- FromPairs(ps)
        ensures |k| <= MAX_INT32 && Encodable(FromPairs(ps)[k])
      {
        FromPairsMember(ps, k);
      }
    }
  }

  lemma {:induction false} ParsedItemsAreEncodable(b: seq<byte>)
    requires ParseItems(b).Ok?
    ensures forall x <- ParseItems(b).value :: Encodable(x)
    decreases |b|, 1
  {
    hide ParseValue, Encodable;
    if b[0] != END {
      ParsedIsEncodable(b);
      ParsedItemsAreEncodable(ParseValue(b).rest);
    }
  }

  lemma {:induction false} ParsedEntriesAreEncodable(b: seq<byte>)
    requires ParseEntries(b).Ok?
    ensures forall p <- ParseEntries(b).value :: |p.0| <= MAX_INT32 && Encodable(p.1)
    decreases |b|, 1
  {
    hide ParseValue, Encodable;
    if b[0] != END {
      var k := ParseValue(b);
      ParsedIsEncodable(b);
      assert |k.value.s| <= MAX_INT32 by { EncodableKey(k.value); }
      ParsedIsEncodable(k.rest);
      ParsedEntriesAreEncodable(ParseValue(k.rest).rest);
    }
  }

  lemma EncodableKey(v: Value)
    requires v.Str? && Encodable(v)
    ensures |v.s| <= MAX_INT32
  {
  }

  /** A value is read back as itself exactly when it is within the limits. */
  lemma RoundTripExactlyWhenEncodable(v: Value, rest: seq<byte>)
    ensures ParseValue(Encode(v) + rest) == Ok(v, rest) <==> Encodable(v)
  {
    hide Encode, ParseValue, Encodable;
    if Encodable(v) {
      ParseEncode(v, rest);
    } else if ParseValue(Encode(v) + rest) == Ok(v, rest) {
      ParsedIsEncodable(Encode(v) + rest);
    }
  }

  /** No encoding is a proper prefix of another; in particular encoding is injective. */
  lemma EncodingIsPrefixFree(v: Value, w: Value)
    requires Encodable(v) && Encodable(w) && Encode(v) <= Encode(w)
    ensures v == w
  {
    hide Encode, ParseValue, Encodable;
    var tail := Encode(w)[|Encode(v)|..];
    assert Encode(w) == Encode(v) + tail && Encode(w) + [] == Encode(w);
    ParseEncode(v, tail);
    ParseEncode(w, []);
  }
}
