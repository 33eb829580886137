/**
  Bencoding: values, the bytes they are written as, and the grammar the decoder accepts.
  The decoder takes more than it writes: signs, leading zeros, and keys in any order or repeated.
 */
module Bencode {
  import opened Bytes
  import opened Decimal
  import opened KeyOrder

  const INT_START: byte := 105 // i
  const LIST_START: byte := 108 // l
  const DICT_START: byte := 100 // d
  const END: byte := 101 // e
  const COLON: byte := 58

  datatype Value = Int(n: int) | Str(s: Key) | List(items: seq<Value>) | Dict(entries: map<Key, Value>)

  // ----- encoding -----

  function EncodeString(s: Key): (b: seq<byte>)
    ensures b != [] && (IsDigit(b[0]) || b[0] == MINUS)
  {
    Format(|s|) + [COLON] + s
  }

  ghost function Encode(v: Value): seq<byte>
    decreases v, 1, 0
  {
    match v
    case Int(n) => [INT_START] + Format(n) + [END]
    case Str(s) => EncodeString(s)
    case List(items) => [LIST_START] + EncodeItems(items) + [END]
    case Dict(entries) => [DICT_START] + EncodeEntries(v, SortedKeys(entries.Keys)) + [END]
  }

  ghost function EncodeItems(items: seq<Value>): seq<byte>
    decreases items, 0, 0
  {
    if items == [] then [] else Encode(items[0]) + EncodeItems(items[1..])
  }

  /** The entries of a dictionary under the given keys, in their order. */
  ghost function EncodeEntries(v: Value, ks: seq<Key>): seq<byte>
    requires v.Dict? && forall k <- ks :: k in v.entries
    decreases v, 0, |ks|
  {
    if ks == [] then []
    else EncodeString(ks[0]) + Encode(v.entries[ks[0]]) + EncodeEntries(v, ks[1..])
  }

  // ----- decoding -----

  datatype Parsed<+T> = Fail | Ok(value: T, rest: seq<byte>)

  /** The position of the first b in s, or |s|. */
  function Find(s: seq<byte>, b: byte): (i: nat)
    ensures i <= |s| && (i < |s| ==> s[i] == b)
    ensures forall j | 0 <= j < i :: s[j] != b
  {
    if s == [] || s[0] == b then 0 else 1 + Find(s[1..], b)
  }

  /** After the i: digits up to the next e. */
  function ParseNumber(b: seq<byte>): (r: Parsed<int>)
    ensures r.Ok? ==> |r.rest| < |b|
  {
    var i := Find(b, END);
    if i == |b| then Fail
    else
      var n := ParseInt(b[..i]);
      if n.None? then Fail else Ok(n.value, b[i + 1..])
  }

  /** A length, a colon, and that many bytes; lengths above MaxInt32 are refused. */
  function ParseString(b: seq<byte>): (r: Parsed<Key>)
    ensures r.Ok? ==> |r.rest| < |b|
  {
    var i := Find(b, COLON);
    if i == |b| then Fail
    else
      var n := ParseInt(b[..i]);
      if n.None? || n.value < 0 || n.value > MAX_INT32 || n.value > |b| - (i + 1) then Fail
      else Ok(b[i + 1..i + 1 + n.value], b[i + 1 + n.value..])
  }

  function ParseValue(b: seq<byte>): (r: Parsed<Value>)
    ensures r.Ok? ==> |r.rest| < |b|
    decreases |b|, 0
  {
    if b == [] then Fail
    else if b[0] == INT_START then
      match ParseNumber(b[1..])
      case Fail => Fail
      case Ok(n, rest) => Ok(Int(n), rest)
    else if b[0] == LIST_START then
      match ParseItems(b[1..])
      case Fail => Fail
      case Ok(items, rest) => Ok(List(items), rest)
    else if b[0] == DICT_START then
      match ParseEntries(b[1..])
      case Fail => Fail
      case Ok(pairs, rest) => Ok(Dict(FromPairs(pairs)), rest)
    else
      match ParseString(b)
      case Fail => Fail
      case Ok(s, rest) => Ok(Str(s), rest)
  }

  function ParseItems(b: seq<byte>): (r: Parsed<seq<Value>>)
    ensures r.Ok? ==> |r.rest| < |b|
    decreases |b|, 1
  {
    if b == [] then Fail
    else if b[0] == END then Ok([], b[1..])
    else
      match ParseValue(b)
      case Fail => Fail
      case Ok(v, rest) =>
        match ParseItems(rest)
        case Fail => Fail
        case Ok(vs, left) => Ok([v] + vs, left)
  }

  /** The entries of a dictionary as they come; a key is a value that happens to be a string. */
  function ParseEntries(b: seq<byte>): (r: Parsed<seq<(Key, Value)>>)
    ensures r.Ok? ==> |r.rest| < |b|
    decreases |b|, 1
  {
    if b == [] then Fail
    else if b[0] == END then Ok([], b[1..])
    else
      match ParseValue(b)
      case Fail => Fail
      case Ok(k, rest) =>
        if !k.Str? then Fail
        else
          match ParseValue(rest)
          case Fail => Fail
          case Ok(v, left) =>
            match ParseEntries(left)
            case Fail => Fail
            case Ok(ps, end) => Ok([(k.s, v)] + ps, end)
  }

  /** Entries assigned one after the other: the last one for a key wins. */
  function FromPairs(ps: seq<(Key, Value)>): (m: map<Key, Value>)
    ensures forall k :: k in m <==> exists i :: 0 <= i < |ps| && ps[i].0 == k
  {
    if ps == [] then map[]
    else
      var last := ps[|ps| - 1];
      var m := FromPairs(ps[..|ps| - 1]);
      m[last.0 := last.1]
  }

  /** Decode accepts a value only if it is all there is. */
  function Decode(b: seq<byte>): Option<Value> {
    var r := ParseValue(b);
    if r.Ok? && r.rest == [] then Some(r.value) else None
  }
}
