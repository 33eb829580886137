/**
  The tracker's own decoder, which passes the remaining bytes along, and its agreement with the
  decoder that advances a reader.  An index out of range panics; a panic counts as failure.
 */
module TrackerDecoder {
  import opened Bytes
  import opened Decimal
  import opened KeyOrder
  import opened Bencode
  import opened BencodeLaws
  import opened BencodeReader

  function SplitString(b: seq<byte>): (r: Parsed<Key>)
    ensures r.Ok? ==> |r.rest| < |b|
  {
    var i := Find(b, COLON);
    if i == |b| then Fail
    else
      var length := ParseInt(b[..i]);
      if length.None? then Fail
      else
        var end := Int64(i + 1 + length.value);
        if end > |b| then Fail
        else if end < i + 1 then Fail // slice bounds out of range
        else Ok(b[i + 1..end], b[end..])
  }

  function SplitInteger(b: seq<byte>): (r: Parsed<int>)
    ensures r.Ok? ==> |r.rest| < |b|
  {
    var i := Find(b, END);
    if i == |b| then Fail
    else
      var n := ParseInt(b[..i]);
      if n.None? then Fail else Ok(n.value, b[i + 1..])
  }

  function SplitValue(b: seq<byte>): (r: Parsed<Value>)
    ensures r.Ok? ==> |r.rest| < |b|
    decreases |b|, 0
  {
    if b == [] then Fail
    else if b[0] == INT_START then
      match SplitInteger(b[1..])
      case Fail => Fail
      case Ok(n, rest) => Ok(Int(n), rest)
    else if b[0] == LIST_START then
      match SplitList(b[1..])
      case Fail => Fail
      case Ok(items, rest) => Ok(List(items), rest)
    else if b[0] == DICT_START then
      match SplitDictionary(b[1..])
      case Fail => Fail
      case Ok(ps, rest) => Ok(Dict(FromPairs(ps)), rest)
    else
      match SplitString(b)
      case Fail => Fail
      case Ok(s, rest) => Ok(Str(s), rest)
  }

  function SplitList(b: seq<byte>): (r: Parsed<seq<Value>>)
    ensures r.Ok? ==> |r.rest| < |b|
    decreases |b|, 1
  {
    if b == [] then Fail
    else if b[0] == END then Ok([], b[1..])
    else
      match SplitValue(b)
      case Fail => Fail
      case Ok(v, rest) =>
        match SplitList(rest)
        case Fail => Fail
        case Ok(vs, left) => Ok([v] + vs, left)
  }

  /** Keys are read as strings, not as values. */
  function SplitDictionary(b: seq<byte>): (r: Parsed<seq<(Key, Value)>>)
    ensures r.Ok? ==> |r.rest| < |b|
    decreases |b|, 1
  {
    if b == [] then Fail
    else if b[0] == END then Ok([], b[1..])
    else
      match SplitString(b)
      case Fail => Fail
      case Ok(k, rest) =>
        match SplitValue(rest)
        case Fail => Fail
        case Ok(v, left) =>
          match SplitDictionary(left)
          case Fail => Fail
          case Ok(ps, end) => Ok([(k, v)] + ps, end)
  }

  // ----- the code -----

  method FindByte(data: seq<byte>, b: byte) returns (i: nat)
    ensures i == Find(data, b)
  {
    i := 0;
    while i < |data| && data[i] != b
      invariant i <= |data| && forall j | 0 <= j < i :: data[j] != b
    {
      i := i + 1;
    }
    var f := Find(data, b);
    assert f == i;
  }

  method DecodeString(data: seq<byte>) returns (r: Parsed<Key>)
    ensures r == SplitString(data)
  {
    var i := FindByte(data, COLON);
    if i == |data| {
      return Fail;
    }
    var length := ParseInt(data[..i]);
    if length.None? {
      return Fail;
    }
    var end := Int64(i + 1 + length.value);
    if end > |data| || end < i + 1 {
      return Fail;
    }
    return Ok(data[i + 1..end], data[end..]);
  }

  method DecodeInteger(data: seq<byte>) returns (r: Parsed<int>)
    ensures r == SplitInteger(data)
  {
    var i := FindByte(data, END);
    if i == |data| {
      return Fail;
    }
    var n := ParseInt(data[..i]);
    return if n.None? then Fail else Ok(n.value, data[i + 1..]);
  }

  method DecodeValue(data: seq<byte>) returns (r: Parsed<Value>)
    ensures r == SplitValue(data)
    decreases |data|, 0
  {
    if |data| == 0 {
      return Fail;
    }
    if data[0] == INT_START {
      var n := DecodeInteger(data[1..]);
      return if n.Fail? then Fail else Ok(Int(n.value), n.rest);
    } else if data[0] == LIST_START {
      var items := DecodeList(data[1..]);
      return if items.Fail? then Fail else Ok(List(items.value), items.rest);
    } else if data[0] == DICT_START {
      var entries := DecodeDictionary(data[1..]);
      return if entries.Fail? then Fail else Ok(Dict(entries.value), entries.rest);
    } else {
      var s := DecodeString(data);
      return if s.Fail? then Fail else Ok(Str(s.value), s.rest);
    }
  }

  method DecodeList(input: seq<byte>) returns (r: Parsed<seq<Value>>)
    ensures r == SplitList(input)
    decreases |input|, 1
  {
    hide SplitValue;
    var data, result := input, [];
    ghost var p := SplitList(input);
    assert p.Ok? ==> [] + p.value == p.value;
    while |data| > 0 && data[0] != END
      invariant |data| <= |input| && p == Prepend(result, SplitList(data))
      decreases |data|
    {
      var v := DecodeValue(data);
      if v.Fail? {
        return Fail;
      }
      PrependOne(result, v.value, SplitList(v.rest));
      result := result + [v.value];
      data := v.rest;
    }
    if |data| == 0 || data[0] != END {
      return Fail;
    }
    assert result + [] == result;
    return Ok(result, data[1..]);
  }

  method DecodeDictionary(input: seq<byte>) returns (r: Parsed<map<Key, Value>>)
    ensures match SplitDictionary(input)
            case Fail => r.Fail?
            case Ok(ps, rest) => r == Ok(FromPairs(ps), rest)
    decreases |input|, 1
  {
    hide SplitValue, SplitString;
    var data, result := input, map[];
    ghost var p := SplitDictionary(input);
    ghost var ps: seq<(Key, Value)> := [];
    assert p.Ok? ==> [] + p.value == p.value;
    while |data| > 0 && data[0] != END
      invariant |data| <= |input| && p == Prepend(ps, SplitDictionary(data)) && result == FromPairs(ps)
      decreases |data|
    {
      var k := DecodeString(data);
      if k.Fail? {
        return Fail;
      }
      var v := DecodeValue(k.rest);
      if v.Fail? {
        return Fail;
      }
      PrependOne(ps, (k.value, v.value), SplitDictionary(v.rest));
      AssignLast(ps, k.value, v.value);
      result := result[k.value := v.value];
      ps := ps + [(k.value, v.value)];
      data := v.rest;
    }
    if |data| == 0 || data[0] != END {
      return Fail;
    }
    assert ps + [] == ps;
    return Ok(result, data[1..]);
  }

  // ----- agreement -----

  /** Go slices are never longer than MaxInt64. */
  predicate IsSlice(b: seq<byte>) {
    |b| <= MAX_INT64
  }

  /** The string that starts here is longer than MaxInt32. */
  predicate LongString(b: seq<byte>) {
    SplitString(b).Ok? && |SplitString(b).value| > MAX_INT32
  }

  /** Some string read on the way is longer than MaxInt32: at any depth, as an item, a key or a
      value, kept in the result or not. */
  predicate LongValue(b: seq<byte>)
    decreases |b|, 0
  {
    if b == [] || b[0] == INT_START then false
    else if b[0] == LIST_START then LongItems(b[1..])
    else if b[0] == DICT_START then LongEntries(b[1..])
    else LongString(b)
  }

  predicate LongItems(b: seq<byte>)
    decreases |b|, 1
  {
    if b == [] || b[0] == END then false
    else
      var v := SplitValue(b);
      LongValue(b) || (v.Ok? && LongItems(v.rest))
  }

  predicate LongEntries(b: seq<byte>)
    decreases |b|, 1
  {
    if b == [] || b[0] == END then false
    else
      var k := SplitString(b);
      LongString(b)
      || (k.Ok? &&
          var v := SplitValue(k.rest);
          LongValue(k.rest) || (v.Ok? && LongEntries(v.rest)))
  }

  /** What the reader-based decoder does, said of the tracker's: it fails on a long string too. */
  function Limited<T>(p: Parsed<T>, long: bool): Parsed<T> {
    if p.Ok? && long then Fail else p
  }

  lemma StringsCompare(b: seq<byte>)
    requires IsSlice(b)
    ensures ParseString(b) == Limited(SplitString(b), LongString(b))
  {
    hide ParseInt;
    var i := Find(b, COLON);
    if i < |b| && ParseInt(b[..i]).Some? {
      var n := ParseInt(b[..i]).value;
      if i + 1 + n <= MAX_INT64 {
        Int64InRange(i + 1 + n);
      } else {
        Int64Wraps(i + 1 + n);
      }
    }
  }

  /** A key that starts like an integer, list or dictionary is no string to either decoder. */
  lemma LetterIsNoLength(b: seq<byte>)
    requires b != [] && b[0] in [INT_START, LIST_START, DICT_START]
    ensures SplitString(b) == Fail
    ensures ParseValue(b).Ok? ==> !ParseValue(b).value.Str?
  {
    hide FromPairs;
    var i := Find(b, COLON);
    if i < |b| {
      assert i > 0 && b[..i][0] == b[0];
      assert !IsDigit(b[0]);
    }
  }

  /** Reading a value and asking for a string is reading a string, up to the limit. */
  lemma KeysCompare(b: seq<byte>)
    requires IsSlice(b) && b != []
    ensures var v, k := ParseValue(b), Limited(SplitString(b), LongString(b));
            if v.Ok? && v.value.Str? then k == Ok(v.value.s, v.rest) else k == Fail
  {
    hide FromPairs, ParseString, SplitString, ParseItems, ParseEntries, ParseNumber;
    if b[0] in [INT_START, LIST_START, DICT_START] {
      LetterIsNoLength(b);
    } else {
      StringsCompare(b);
    }
  }

  lemma {:induction false} ValuesCompare(b: seq<byte>)
    requires IsSlice(b)
    ensures ParseValue(b) == Limited(SplitValue(b), LongValue(b))
    decreases |b|, 0
  {
    hide FromPairs, ParseInt, Find, ParseString, SplitString, LongString, ParseItems, ParseEntries, SplitList,
      SplitDictionary, LongItems, LongEntries;
    if b != [] {
      if b[0] == LIST_START {
        ListsCompare(b[1..]);
      } else if b[0] == DICT_START {
        DictionariesCompare(b[1..]);
      } else if b[0] != INT_START {
        StringsCompare(b);
      }
    }
  }

  lemma {:induction false} ListsCompare(b: seq<byte>)
    requires IsSlice(b)
    ensures ParseItems(b) == Limited(SplitList(b), LongItems(b))
    decreases |b|, 1
  {
    hide ParseValue, SplitValue, LongValue;
    if b != [] && b[0] != END {
      ValuesCompare(b);
      var v := SplitValue(b);
      if v.Ok? {
        ListsCompare(v.rest);
      }
    }
  }

  lemma {:induction false} DictionariesCompare(b: seq<byte>)
    requires IsSlice(b)
    ensures ParseEntries(b) == Limited(SplitDictionary(b), LongEntries(b))
    decreases |b|, 1
  {
    hide ParseValue, SplitValue, SplitString, LongString, LongValue;
    if b != [] && b[0] != END {
      KeysCompare(b);
      var k := SplitString(b);
      if k.Ok? {
        ValuesCompare(k.rest);
        var v := SplitValue(k.rest);
        if v.Ok? {
          DictionariesCompare(v.rest);
        }
      }
    }
  }

  /** The two decoders compared on all inputs: they return the same value and leave the same bytes,
      or both fail, exactly when the tracker's does not succeed on its way past a string longer than
      MaxInt32; where it does, the other fails. */
  lemma DecodersAgreeExactlyWithoutLongStrings(b: seq<byte>)
    requires IsSlice(b)
    ensures SplitValue(b) == ParseValue(b) <==> !(SplitValue(b).Ok? && LongValue(b))
    ensures SplitValue(b).Ok? && LongValue(b) ==> ParseValue(b) == Fail
  {
    hide ParseValue, SplitValue, LongValue;
    ValuesCompare(b);
  }

  lemma {:induction false} ShortValue(b: seq<byte>)
    requires |b| <= MAX_INT32
    ensures !LongValue(b)
    decreases |b|, 0
  {
    hide FromPairs, ParseInt;
    if b != [] && b[0] == LIST_START {
      ShortItems(b[1..]);
    } else if b != [] && b[0] == DICT_START {
      ShortEntries(b[1..]);
    }
  }

  lemma {:induction false} ShortItems(b: seq<byte>)
    requires |b| <= MAX_INT32
    ensures !LongItems(b)
    decreases |b|, 1
  {
    hide SplitValue, LongValue;
    if b != [] && b[0] != END {
      ShortValue(b);
      if SplitValue(b).Ok? {
        ShortItems(SplitValue(b).rest);
      }
    }
  }

  lemma {:induction false} ShortEntries(b: seq<byte>)
    requires |b| <= MAX_INT32
    ensures !LongEntries(b)
    decreases |b|, 1
  {
    hide SplitValue, LongValue, ParseInt;
    if b != [] && b[0] != END && SplitString(b).Ok? {
      var rest := SplitString(b).rest;
      ShortValue(rest);
      if SplitValue(rest).Ok? {
        ShortEntries(SplitValue(rest).rest);
      }
    }
  }

  /** On inputs shorter than 2^31 bytes the two decoders return the same values and leave the same
      bytes, and fail on the same inputs; on longer ones the tracker's accepts all that the other
      accepts, with the same result. */
  lemma DecodersAgree(b: seq<byte>)
    requires IsSlice(b)
    ensures |b| < 0x8000_0000 ==> SplitValue(b) == ParseValue(b)
    ensures ParseValue(b).Ok? ==> SplitValue(b) == ParseValue(b)
  {
    hide ParseValue, SplitValue, LongValue;
    DecodersAgreeExactlyWithoutLongStrings(b);
    if |b| < 0x8000_0000 {
      ShortValue(b);
    }
  }

  /** Every string longer than MaxInt32, as the encoder writes it, is accepted by the tracker's
      decoder alone. */
  lemma LongStringsDisagree(s: seq<byte>)
    requires MAX_INT32 < |s| && IsSlice(EncodeString(s))
    ensures ParseValue(EncodeString(s)) == Fail
    ensures SplitValue(EncodeString(s)) == Ok(Str(s), [])
  {
    hide Format, ParseInt, Find;
    var f := Format(|s|);
    var b := EncodeString(s);
    FindAfterNumber(|s|, COLON, s);
    ParseFormat(|s|);
    assert b[..|f|] == f;
    Int64InRange(|f| + 1 + |s|);
    assert b[|f| + 1..|f| + 1 + |s|] == s;
  }
}
