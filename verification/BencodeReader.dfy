/** The decoder: a shared reader is advanced, stepped back, and advanced again. */
module BencodeReader {
  import opened Bytes
  import opened Decimal
  import opened KeyOrder
  import opened Bencode
  import opened BencodeLaws

  class Reader {
    const data: seq<byte>
    var pos: nat

    ghost predicate Valid()
      reads this
    {
      pos <= |data|
    }

    function Rest(): seq<byte>
      requires Valid()
      reads this
    {
      data[pos..]
    }

    constructor (data: seq<byte>)
      ensures Valid() && this.data == data && pos == 0
    {
      this.data, pos := data, 0;
    }

    method ReadByte() returns (r: Option<byte>)
      requires Valid()
      modifies this
      ensures Valid()
      ensures old(Rest()) == [] ==> r == None && pos == old(pos)
      ensures old(Rest()) != [] ==> r == Some(old(Rest())[0]) && pos == old(pos) + 1
    {
      if pos == |data| {
        return None;
      }
      r := Some(data[pos]);
      pos := pos + 1;
    }

    method UnreadByte()
      requires Valid() && pos > 0
      modifies this
      ensures Valid() && pos == old(pos) - 1
    {
      pos := pos - 1;
    }

    method ReadFull(n: nat) returns (r: Option<seq<byte>>)
      requires Valid()
      modifies this
      ensures Valid() && pos >= old(pos)
      ensures r.Some? <==> n <= |old(Rest())|
      ensures r.Some? ==> r.value == old(Rest())[..n] && pos == old(pos) + n
    {
      if |data| - pos < n {
        pos := |data|;
        return None;
      }
      r := Some(data[pos..pos + n]);
      pos := pos + n;
    }
  }

  /** A method did what the grammar says: it failed where the grammar fails, and otherwise returned
      the value and left the reader behind it. */
  ghost predicate Follows<T>(p: Parsed<T>, r: Option<T>, rest: seq<byte>) {
    match p
    case Fail => r.None?
    case Ok(v, left) => r == Some(v) && rest == left
  }

  /** The bytes up to the next `stop`, which is consumed too. */
  method ReadUntil(r: Reader, stop: byte) returns (s: Option<seq<byte>>)
    requires r.Valid()
    modifies r
    ensures r.Valid() && r.pos >= old(r.pos)
    ensures var b := old(r.Rest());
            var i := Find(b, stop);
            if i == |b| then s.None? else s == Some(b[..i]) && r.Rest() == b[i + 1..]
  {
    ghost var b := r.Rest();
    var num: seq<byte> := [];
    while true
      invariant r.Valid() && r.pos == old(r.pos) + |num| && |num| <= |b|
      invariant num == b[..|num|] && stop !in num
      decreases |r.data| - r.pos
    {
      assert r.Rest() == b[|num|..];
      ghost var n := |num|;
      var c := r.ReadByte();
      if c.None? {
        assert Find(b, stop) == |b|;
        return None;
      }
      if c.value == stop {
        FindIs(b, stop, n);
        return Some(num);
      }
      num := num + [c.value];
    }
  }

  method DecodeInt(r: Reader) returns (n: Option<int>)
    requires r.Valid()
    modifies r
    ensures r.Valid() && r.pos >= old(r.pos) && Follows(ParseNumber(old(r.Rest())), n, r.Rest())
  {
    hide ParseInt, Find;
    var num := ReadUntil(r, END);
    if num.None? {
      return None;
    }
    return ParseInt(num.value);
  }

  method DecodeString(r: Reader) returns (s: Option<Key>)
    requires r.Valid()
    modifies r
    ensures r.Valid() && r.pos >= old(r.pos) && Follows(ParseString(old(r.Rest())), s, r.Rest())
  {
    hide ParseInt, Find;
    ghost var b := r.Rest();
    var length := ReadUntil(r, COLON);
    if length.None? {
      return None;
    }
    var l := ParseInt(length.value);
    if l.None? || l.value < 0 || l.value > MAX_INT32 {
      return None;
    }
    ghost var tail := r.Rest();
    s := r.ReadFull(l.value);
    ghost var i := Find(b, COLON);
    if s.Some? {
      assert r.Rest() == tail[l.value..] == b[i + 1 + l.value..];
      assert s.value == b[i + 1..i + 1 + l.value];
    }
  }

  method DecodeValue(r: Reader) returns (v: Option<Value>)
    requires r.Valid()
    modifies r
    ensures r.Valid() && r.pos >= old(r.pos) && Follows(ParseValue(old(r.Rest())), v, r.Rest())
    decreases |r.data| - r.pos, 0
  {
    hide ParseNumber, ParseString, ParseItems, ParseEntries, FromPairs;
    ghost var b := r.Rest();
    var c := r.ReadByte();
    if c.None? {
      return None;
    }
    assert r.Rest() == b[1..];
    if c.value == INT_START {
      var n := DecodeInt(r);
      return if n.None? then None else Some(Int(n.value));
    } else if c.value == LIST_START {
      var items := DecodeList(r);
      return if items.None? then None else Some(List(items.value));
    } else if c.value == DICT_START {
      var entries := DecodeDict(r);
      return if entries.None? then None else Some(Dict(entries.value));
    } else {
      r.UnreadByte();
      var s := DecodeString(r);
      return if s.None? then None else Some(Str(s.value));
    }
  }

  ghost function Prepend<T>(vs: seq<T>, p: Parsed<seq<T>>): Parsed<seq<T>> {
    match p
    case Fail => Fail
    case Ok(ws, rest) => Ok(vs + ws, rest)
  }

  method DecodeList(r: Reader) returns (items: Option<seq<Value>>)
    requires r.Valid()
    modifies r
    ensures r.Valid() && r.pos >= old(r.pos) && Follows(ParseItems(old(r.Rest())), items, r.Rest())
    decreases |r.data| - r.pos, 1
  {
    hide ParseValue;
    var list: seq<Value> := [];
    ghost var b := r.Rest();
    ghost var p := ParseItems(b);
    assert p.Ok? ==> [] + p.value == p.value;
    while true
      invariant r.Valid() && r.pos >= old(r.pos)
      invariant p == Prepend(list, ParseItems(r.Rest()))
      decreases |r.data| - r.pos
    {
      ghost var rest := r.Rest();
      var c := r.ReadByte();
      if c.None? {
        return None;
      }
      if c.value == END {
        assert r.Rest() == rest[1..] && list + [] == list;
        return Some(list);
      }
      r.UnreadByte();
      var item := DecodeValue(r);
      if item.None? {
        return None;
      }
      PrependOne(list, item.value, ParseItems(r.Rest()));
      list := list + [item.value];
    }
  }

  lemma PrependOne<T>(vs: seq<T>, v: T, p: Parsed<seq<T>>)
    ensures Prepend(vs, Prepend([v], p)) == Prepend(vs + [v], p)
  {
    if p.Ok? {
      assert vs + ([v] + p.value) == vs + [v] + p.value;
    }
  }

  /** A dictionary follows the grammar's entries, assigned in their order. */
  method DecodeDict(r: Reader) returns (entries: Option<map<Key, Value>>)
    requires r.Valid()
    modifies r
    ensures r.Valid() && r.pos >= old(r.pos)
    ensures match ParseEntries(old(r.Rest()))
            case Fail => entries.None?
            case Ok(ps, rest) => entries == Some(FromPairs(ps)) && r.Rest() == rest
    decreases |r.data| - r.pos, 1
  {
    hide ParseValue;
    var dict: map<Key, Value> := map[];
    ghost var ps: seq<(Key, Value)> := [];
    ghost var b := r.Rest();
    ghost var p := ParseEntries(b);
    assert p.Ok? ==> [] + p.value == p.value;
    while true
      invariant r.Valid() && r.pos >= old(r.pos)
      invariant p == Prepend(ps, ParseEntries(r.Rest()))
      invariant dict == FromPairs(ps)
      decreases |r.data| - r.pos
    {
      ghost var rest := r.Rest();
      var c := r.ReadByte();
      if c.None? {
        return None;
      }
      if c.value == END {
        assert r.Rest() == rest[1..] && ps + [] == ps;
        return Some(dict);
      }
      r.UnreadByte();
      var key := DecodeValue(r);
      if key.None? {
        return None;
      }
      if !key.value.Str? {
        return None;
      }
      var value := DecodeValue(r);
      if value.None? {
        return None;
      }
      PrependOne(ps, (key.value.s, value.value), ParseEntries(r.Rest()));
      AssignLast(ps, key.value.s, value.value);
      dict := dict[key.value.s := value.value];
      ps := ps + [(key.value.s, value.value)];
    }
  }

  lemma AssignLast(ps: seq<(Key, Value)>, k: Key, v: Value)
    ensures FromPairs(ps + [(k, v)]) == FromPairs(ps)[k := v]
  {
    var qs := ps + [(k, v)];
    assert qs[..|qs| - 1] == ps;
  }

  method DecodeAll(data: seq<byte>) returns (v: Option<Value>)
    ensures v == Decode(data)
  {
    hide ParseValue;
    var r := new Reader(data);
    assert r.Rest() == data;
    v := DecodeValue(r);
    if v.Some? && |r.data| - r.pos > 0 {
      return None;
    }
  }
}
