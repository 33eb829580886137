/** The encoder: values are appended to a buffer, dictionaries under their sorted keys. */
module BencodeWriter {
  import opened Bytes
  import opened Decimal
  import opened KeyOrder
  import opened Bencode
  import opened BencodeLaws

  class Buffer {
    var bytes: seq<byte>

    constructor ()
      ensures bytes == []
    {
      bytes := [];
    }

    method Write(b: seq<byte>)
      modifies this
      ensures bytes == old(bytes) + b
    {
      bytes := bytes + b;
    }
  }

  /** The keys of a map, in whatever order they come. */
  method MapKeys<V>(m: map<Key, V>) returns (keys: array<Key>)
    ensures fresh(keys) && Distinct(keys[..]) && KeysOf(keys[..]) == m.Keys
  {
    var rest := m.Keys;
    var s: seq<Key> := [];
    while rest != {}
      invariant rest <= m.Keys && Distinct(s)
      invariant forall k :: k in s <==> k in m.Keys && k !in rest
      decreases rest
    {
      var k :| k in rest;
      s := s + [k];
      rest := rest - {k};
    }
    keys := new Key[|s|](i requires 0 <= i < |s| => s[i]);
    assert keys[..] == s;
  }

  /** What is written is a function of the value: it does not depend on the order in which the keys
      of any map inside it were enumerated. */
  method EncodeValue(w: Buffer, v: Value)
    modifies w
    ensures w.bytes == old(w.bytes) + Encode(v)
    decreases v, 1
  {
    hide Format, SortedKeys, EncodeItems, EncodeEntries;
    match v {
      case Int(n) => w.Write([INT_START] + Format(n) + [END]);
      case Str(s) => w.Write(EncodeString(s));
      case List(items) =>
        w.Write([LIST_START]);
        EncodeSlice(w, items);
        w.Write([END]);
      case Dict(_) =>
        w.Write([DICT_START]);
        EncodeMap(w, v);
        w.Write([END]);
    }
  }

  method EncodeSlice(w: Buffer, items: seq<Value>)
    modifies w
    ensures w.bytes == old(w.bytes) + EncodeItems(items)
    decreases items, 0
  {
    hide Encode;
    assert items[0..] == items;
    for i := 0 to |items|
      invariant w.bytes + EncodeItems(items[i..]) == old(w.bytes) + EncodeItems(items)
    {
      assert items[i..][0] == items[i] && items[i..][1..] == items[i + 1..];
      EncodeValue(w, items[i]);
    }
    assert items[|items|..] == [];
  }

  method EncodeMap(w: Buffer, v: Value)
    requires v.Dict?
    modifies w
    ensures w.bytes == old(w.bytes) + EncodeEntries(v, SortedKeys(v.entries.Keys))
    decreases v, 0
  {
    hide Encode, EncodeString, EncodeEntries, SortedKeys, KeysOf, Distinct;
    var keys := MapKeys(v.entries);
    SortKeys(keys);
    ghost var ks := keys[..];
    ghost var done: seq<byte> := [];
    assert ks[0..] == ks;
    for i := 0 to keys.Length
      invariant keys[..] == ks
      invariant w.bytes == old(w.bytes) + done
      invariant done + EncodeEntries(v, ks[i..]) == EncodeEntries(v, ks)
    {
      assert ks[i] in v.entries;
      OneEntry(v, ks, i, done);
      ghost var k, x := EncodeString(ks[i]), Encode(v.entries[ks[i]]);
      w.Write(EncodeString(keys[i]));
      EncodeValue(w, v.entries[keys[i]]);
      Grouped(old(w.bytes), done, k, x);
      done := done + (k + x);
    }
    NoEntryLeft(v, ks[|ks|..], done);
  }

  lemma Grouped(a: seq<byte>, b: seq<byte>, c: seq<byte>, d: seq<byte>)
    ensures a + b + c + d == a + (b + (c + d))
  {
  }

  lemma OneEntry(v: Value, ks: seq<Key>, i: nat, done: seq<byte>)
    requires v.Dict? && i < |ks| && forall k <- ks :: k in v.entries
    ensures done + EncodeEntries(v, ks[i..])
         == done + (EncodeString(ks[i]) + Encode(v.entries[ks[i]])) + EncodeEntries(v, ks[i + 1..])
  {
    hide Encode, EncodeString;
    assert ks[i..][0] == ks[i] && ks[i..][1..] == ks[i + 1..];
  }

  lemma NoEntryLeft(v: Value, ks: seq<Key>, done: seq<byte>)
    requires v.Dict? && ks == []
    ensures done + EncodeEntries(v, ks) == done
  {
  }

  method EncodeAll(v: Value) returns (b: seq<byte>)
    ensures b == Encode(v)
  {
    var w := new Buffer();
    EncodeValue(w, v);
    return w.bytes;
  }
}
