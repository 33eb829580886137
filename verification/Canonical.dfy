/** The encoder's output is the shortest input for the value it stands for. */
module Canonical {
  import opened Bytes
  import opened Decimal
  import opened KeyOrder
  import opened Bencode
  import opened BencodeLaws

  ghost function EntryLength(v: Value, k: Key): nat
    requires v.Dict? && k in v.entries
  {
    |EncodeString(k)| + |Encode(v.entries[k])|
  }

  /** The length of a dictionary's entries. */
  ghost function EntriesLength(v: Value, ks: set<Key>): nat
    requires v.Dict? && ks <= v.entries.Keys
  {
    |EncodeEntries(v, SortedKeys(ks))|
  }

  /** One entry can be taken out of the sum wherever it sorts. */
  lemma {:induction false} TakeOut(v: Value, ks: set<Key>, k: Key)
    requires v.Dict? && ks <= v.entries.Keys && k in ks
    ensures EntriesLength(v, ks) == EntryLength(v, k) + EntriesLength(v, ks - {k})
    decreases ks
  {
    hide SortedKeys, EncodeString, Encode;
    var j := LeastExists(ks);
    SortedKeysStart(ks, j);
    assert SortedKeys(ks)[1..] == SortedKeys(ks - {j});
    if j != k {
      TakeOut(v, ks - {j}, k);
      SortedKeysStart(ks - {k}, j);
      assert SortedKeys(ks - {k})[1..] == SortedKeys(ks - {k} - {j});
      assert ks - {j} - {k} == ks - {k} - {j};
    }
  }

  lemma {:induction false} SameEntriesSameLength(v: Value, w: Value, ks: seq<Key>)
    requires v.Dict? && w.Dict?
    requires forall k <- ks :: k in v.entries && k in w.entries && v.entries[k] == w.entries[k]
    ensures EncodeEntries(v, ks) == EncodeEntries(w, ks)
  {
    hide EncodeString, Encode;
    if ks != [] {
      SameEntriesSameLength(v, w, ks[1..]);
    }
  }

  /** Assigning one more entry lengthens a dictionary by at most that entry. */
  lemma AssignLengthens(m: map<Key, Value>, k: Key, x: Value)
    ensures var v, w := Dict(m), Dict(m[k := x]);
            EntriesLength(w, m[k := x].Keys) <= EntriesLength(v, m.Keys) + |EncodeString(k)| + |Encode(x)|
  {
    hide SortedKeys, EncodeString, Encode, EncodeEntries;
    var n := m[k := x];
    var v, w := Dict(m), Dict(n);
    var rest := m.Keys - {k};
    TakeOut(w, n.Keys, k);
    assert n.Keys - {k} == rest;
    SameEntriesSameLength(v, w, SortedKeys(rest));
    if k in m {
      TakeOut(v, m.Keys, k);
    } else {
      assert rest == m.Keys;
    }
  }

  ghost function PairsLength(ps: seq<(Key, Value)>): nat {
    if ps == [] then 0
    else PairsLength(ps[..|ps| - 1]) + |EncodeString(ps[|ps| - 1].0)| + |Encode(ps[|ps| - 1].1)|
  }

  lemma {:induction false} PairsLengthSplits(p: (Key, Value), ps: seq<(Key, Value)>)
    ensures PairsLength([p] + ps) == |EncodeString(p.0)| + |Encode(p.1)| + PairsLength(ps)
  {
    hide EncodeString, Encode;
    var all := [p] + ps;
    if ps == [] {
      assert all[..0] == [];
    } else {
      PairsLengthSplits(p, ps[..|ps| - 1]);
      assert all[..|all| - 1] == [p] + ps[..|ps| - 1];
    }
  }

  /** Sorting entries and dropping repeated keys never lengthens them. */
  lemma {:induction false} FromPairsIsNoLonger(ps: seq<(Key, Value)>)
    ensures var m := FromPairs(ps); EntriesLength(Dict(m), m.Keys) <= PairsLength(ps)
  {
    hide EncodeString, Encode, EntriesLength;
    if ps == [] {
      NoEntries();
    } else {
      var last := ps[|ps| - 1];
      FromPairsIsNoLonger(ps[..|ps| - 1]);
      AssignLengthens(FromPairs(ps[..|ps| - 1]), last.0, last.1);
    }
  }

  lemma NoEntries()
    ensures EntriesLength(Dict(FromPairs([])), FromPairs([]).Keys) == 0
  {
    assert FromPairs([]).Keys == {};
    assert SortedKeys({}) == [];
  }

  lemma StringIsNoLonger(b: seq<byte>)
    requires ParseString(b).Ok?
    ensures |EncodeString(ParseString(b).value)| <= |b| - |ParseString(b).rest|
  {
    hide Format, ParseInt, Find;
    FormatIsShortest(b[..Find(b, COLON)]);
  }

  /** The encoding of what was read is no longer than what was read. */
  lemma {:induction false} EncodingIsNoLonger(b: seq<byte>)
    requires ParseValue(b).Ok?
    ensures |Encode(ParseValue(b).value)| <= |b| - |ParseValue(b).rest|
    decreases |b|, 0
  {
    hide Format, ParseInt, Find, EncodeString, EncodeItems, EncodeEntries, ParseString, ParseItems, ParseEntries,
      SortedKeys, FromPairs;
    if b[0] == INT_START {
      FormatIsShortest(b[1..][..Find(b[1..], END)]);
    } else if b[0] == LIST_START {
      ItemsAreNoLonger(b[1..]);
    } else if b[0] == DICT_START {
      EntriesAreNoLonger(b[1..]);
      FromPairsIsNoLonger(ParseEntries(b[1..]).value);
    } else {
      StringIsNoLonger(b);
    }
  }

  lemma {:induction false} ItemsAreNoLonger(b: seq<byte>)
    requires ParseItems(b).Ok?
    ensures |EncodeItems(ParseItems(b).value)| + 1 <= |b| - |ParseItems(b).rest|
    decreases |b|, 1
  {
    hide Encode, ParseValue;
    if b[0] != END {
      EncodingIsNoLonger(b);
      var x := ParseValue(b);
      ItemsAreNoLonger(x.rest);
      var xs := ParseItems(x.rest).value;
      assert ([x.value] + xs)[1..] == xs;
    }
  }

  lemma {:induction false} EntriesAreNoLonger(b: seq<byte>)
    requires ParseEntries(b).Ok?
    ensures PairsLength(ParseEntries(b).value) + 1 <= |b| - |ParseEntries(b).rest|
    decreases |b|, 1
  {
    hide Encode, EncodeString, ParseValue, PairsLength;
    if b[0] == END {
      assert PairsLength([]) == 0 by { NoPairs(); }
    } else {
      var k := ParseValue(b);
      EncodingIsNoLonger(b);
      EncodeStr(k.value.s);
      EncodingIsNoLonger(k.rest);
      var x := ParseValue(k.rest);
      EntriesAreNoLonger(x.rest);
      PairsLengthSplits((k.value.s, x.value), ParseEntries(x.rest).value);
    }
  }

  lemma NoPairs()
    ensures PairsLength([]) == 0
  {
  }

  /** Decoding and encoding again gives the canonical form: it stands for the same value, is no
      longer than the input, and is left alone by doing it once more. */
  lemma CanonicalForm(b: seq<byte>)
    requires Decode(b).Some?
    ensures var canonical := Encode(Decode(b).value);
            && Decode(canonical) == Decode(b)
            && |canonical| <= |b|
            && Encode(Decode(canonical).value) == canonical
  {
    hide Encode, ParseValue, Encodable;
    var v := Decode(b).value;
    ParsedIsEncodable(b);
    EncodingIsNoLonger(b);
    ParseEncode(v, []);
    assert Encode(v) + [] == Encode(v);
  }

  /** Decoding a whole input accepts an encoding alone and nothing behind it. */
  lemma DecodeIsStrict(v: Value, rest: seq<byte>)
    requires Encodable(v)
    ensures Decode(Encode(v) + rest) == if rest == [] then Some(v) else None
  {
    hide Encode, ParseValue, Encodable;
    ParseEncode(v, rest);
  }

  // ----- the size of the result -----

  /** The nodes of a value, dictionary keys counted. */
  ghost function Nodes(v: Value): nat
    decreases v, 1, 0
  {
    match v
    case Int(_) => 1
    case Str(_) => 1
    case List(items) => 1 + NodesOfItems(items)
    case Dict(entries) => 1 + NodesOfEntries(v, SortedKeys(entries.Keys))
  }

  ghost function NodesOfItems(items: seq<Value>): nat
    decreases items, 0, 0
  {
    if items == [] then 0 else Nodes(items[0]) + NodesOfItems(items[1..])
  }

  ghost function NodesOfEntries(v: Value, ks: seq<Key>): nat
    requires v.Dict? && forall k <- ks :: k in v.entries
    decreases v, 0, |ks|
  {
    if ks == [] then 0 else 1 + Nodes(v.entries[ks[0]]) + NodesOfEntries(v, ks[1..])
  }

  lemma {:induction false} TwoBytesPerNode(v: Value)
    ensures 2 * Nodes(v) <= |Encode(v)|
    decreases v, 1, 0
  {
    hide Format, EncodeItems, EncodeEntries, SortedKeys;
    match v {
      case Int(_) =>
      case Str(_) =>
      case List(items) => TwoBytesPerItem(items);
      case Dict(entries) => TwoBytesPerEntry(v, SortedKeys(entries.Keys));
    }
  }

  lemma {:induction false} TwoBytesPerItem(items: seq<Value>)
    ensures 2 * NodesOfItems(items) <= |EncodeItems(items)|
    decreases items, 0, 0
  {
    hide Encode, Nodes;
    if items != [] {
      TwoBytesPerNode(items[0]);
      TwoBytesPerItem(items[1..]);
    }
  }

  lemma {:induction false} TwoBytesPerEntry(v: Value, ks: seq<Key>)
    requires v.Dict? && forall k <- ks :: k in v.entries
    ensures 2 * NodesOfEntries(v, ks) <= |EncodeEntries(v, ks)|
    decreases v, 0, |ks|
  {
    hide Encode, Nodes, Format;
    if ks != [] {
      TwoBytesPerNode(v.entries[ks[0]]);
      TwoBytesPerEntry(v, ks[1..]);
    }
  }

  /** What decoding builds is bounded by what it reads: two bytes for every node. */
  lemma ResultIsBoundedByInput(b: seq<byte>)
    requires ParseValue(b).Ok?
    ensures var r := ParseValue(b);
            2 <= 2 * Nodes(r.value) <= |b| - |r.rest|
  {
    hide ParseValue, Encode;
    EncodingIsNoLonger(b);
    TwoBytesPerNode(ParseValue(b).value);
  }
}
