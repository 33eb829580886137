/** Decimal integers as Go's fmt prints them and strconv reads them. */
module Decimal {
  import opened Bytes

  const MINUS: byte := 45
  const PLUS: byte := 43

  predicate IsDigit(b: byte) {
    48 <= b < 58
  }

  predicate AllDigits(s: seq<byte>) {
    forall b <- s :: IsDigit(b)
  }

  function FormatNat(n: nat): (s: seq<byte>)
    ensures s != [] && AllDigits(s)
  {
    if n < 10 then [48 + n] else FormatNat(n / 10) + [48 + n % 10]
  }

  /** The verb %d. */
  function Format(n: int): (s: seq<byte>)
    ensures s != [] && (IsDigit(s[0]) || s[0] == MINUS)
  {
    if n < 0 then [MINUS] + FormatNat(-n) else FormatNat(n)
  }

  function ValueOf(s: seq<byte>): nat
    requires AllDigits(s)
  {
    if s == [] then 0
    else
      var last: int := s[|s| - 1];
      assert IsDigit(s[|s| - 1]);
      10 * ValueOf(s[..|s| - 1]) + (last - 48)
  }

  /** strconv.ParseInt in base 10 for 64 bits: a sign may precede the digits, leading zeros are
      allowed, and a value outside int64 is an error. */
  function ParseInt(s: seq<byte>): (r: Option<int>)
    ensures r.Some? ==> MIN_INT64 <= r.value <= MAX_INT64
  {
    if s == [] then None
    else
      var digits := if s[0] == MINUS || s[0] == PLUS then s[1..] else s;
      if digits == [] || !AllDigits(digits) then None
      else
        var n: int := ValueOf(digits);
        var n := if s[0] == MINUS then -n else n;
        if MIN_INT64 <= n <= MAX_INT64 then Some(n) else None
  }

  lemma {:induction false} ValueOfFormat(n: nat)
    ensures ValueOf(FormatNat(n)) == n
  {
    var s := FormatNat(n);
    if n >= 10 {
      ValueOfFormat(n / 10);
      assert s[..|s| - 1] == FormatNat(n / 10);
    } else {
      assert s[..0] == [];
    }
  }

  /** What is printed is read back. */
  lemma ParseFormat(n: int)
    requires MIN_INT64 <= n <= MAX_INT64
    ensures ParseInt(Format(n)) == Some(n)
  {
    ValueOfFormat(Abs(n));
    var s := Format(n);
    if n < 0 {
      assert s[1..] == FormatNat(-n);
    } else {
      assert IsDigit(s[0]);
    }
  }

  lemma {:induction false} LeadingZero(d: seq<byte>)
    requires AllDigits(d)
    ensures AllDigits([48] + d) && ValueOf([48] + d) == ValueOf(d)
  {
    var s := [48] + d;
    if d != [] {
      LeadingZero(d[..|d| - 1]);
      assert s[..|s| - 1] == [48] + d[..|d| - 1];
    } else {
      assert s[..0] == [];
    }
  }

  /** Adding a digit at the end is multiplying by ten and adding. */
  lemma NextDigit(d: seq<byte>, b: byte)
    requires AllDigits(d) && IsDigit(b)
    ensures ValueOf(d + [b]) == 10 * ValueOf(d) + (b as int - 48)
  {
    var s := d + [b];
    assert s[..|s| - 1] == d;
  }

  /** The number, if it fits int64. */
  function InInt64(n: int): Option<int> {
    if MIN_INT64 <= n <= MAX_INT64 then Some(n) else None
  }

  /** What ParseInt accepts: digits up to the limits of int64, also with zeros before them, with a
      plus sign, or negated by a minus sign. */
  lemma AcceptedSpellings(d: seq<byte>)
    requires d != [] && AllDigits(d)
    ensures ParseInt(d) == ParseInt([PLUS] + d) == ParseInt([48] + d) == InInt64(ValueOf(d))
    ensures ParseInt([MINUS] + d) == InInt64(0 - ValueOf(d))
  {
    LeadingZero(d);
    hide ValueOf;
    assert ([PLUS] + d)[1..] == d && ([MINUS] + d)[1..] == d;
    assert IsDigit(d[0]);
  }

  /** Nothing is accepted that is not digits after at most one sign. */
  lemma RefusedSpellings(d: seq<byte>)
    requires d == [] || !AllDigits(d)
    ensures ParseInt([PLUS] + d) == ParseInt([MINUS] + d) == None
    ensures d == [] || (d[0] != PLUS && d[0] != MINUS) ==> ParseInt(d) == None
  {
    assert ([PLUS] + d)[1..] == d && ([MINUS] + d)[1..] == d;
  }

  /** No digits are shorter than the printed ones. */
  lemma {:induction false} FormatNatIsShortest(s: seq<byte>)
    requires s != [] && AllDigits(s)
    ensures |FormatNat(ValueOf(s))| <= |s|
  {
    var n, t := ValueOf(s), s[..|s| - 1];
    assert IsDigit(s[|s| - 1]);
    if n >= 10 {
      assert n / 10 == ValueOf(t);
      FormatNatIsShortest(t);
    }
  }

  lemma FormatIsShortest(s: seq<byte>)
    requires ParseInt(s).Some?
    ensures |Format(ParseInt(s).value)| <= |s|
  {
    var digits := if s[0] == MINUS || s[0] == PLUS then s[1..] else s;
    FormatNatIsShortest(digits);
  }
}
