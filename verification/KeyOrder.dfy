/** Dictionary keys in Go's string order, which compares bytes, and the one way to sort them. */
module KeyOrder {
  import opened Bytes

  type Key = seq<byte>

  predicate Less(a: Key, b: Key) {
    b != [] && (a == [] || a[0] < b[0] || (a[0] == b[0] && Less(a[1..], b[1..])))
  }

  /** a comes before b in a dictionary of byte strings: it is a proper prefix, or the first byte in
      which they differ is smaller. */
  ghost predicate Before(a: Key, b: Key) {
    exists k: nat :: DiffersAt(a, b, k)
  }

  ghost predicate DiffersAt(a: Key, b: Key, k: nat) {
    k <= |a| && k < |b| && a[..k] == b[..k] && (k == |a| || a[k] < b[k])
  }

  lemma {:induction false} LessIsBytewise(a: Key, b: Key)
    ensures Less(a, b) <==> Before(a, b)
  {
    if a == [] || b == [] || a[0] != b[0] {
      if Less(a, b) {
        assert DiffersAt(a, b, 0);
      }
      if Before(a, b) {
        var k: nat :| DiffersAt(a, b, k);
        assert k > 0 ==> a[..k][0] == b[..k][0];
      }
    } else {
      LessIsBytewise(a[1..], b[1..]);
      if Before(a, b) {
        var k: nat :| DiffersAt(a, b, k);
        assert k > 0;
        assert a[1..][..k - 1] == a[..k][1..] && b[1..][..k - 1] == b[..k][1..];
        assert DiffersAt(a[1..], b[1..], k - 1);
      }
      if Before(a[1..], b[1..]) {
        var k: nat :| DiffersAt(a[1..], b[1..], k);
        assert a[..k + 1] == [a[0]] + a[1..][..k] && b[..k + 1] == [b[0]] + b[1..][..k];
        assert DiffersAt(a, b, k + 1);
      }
    }
  }

  lemma {:induction false} LessIsStrictTotal(a: Key, b: Key)
    ensures !Less(a, a)
    ensures Less(a, b) ==> !Less(b, a)
    ensures a == b || Less(a, b) || Less(b, a)
  {
    if a != [] {
      if b != [] {
        LessIsStrictTotal(a[1..], b[1..]);
        assert a == [a[0]] + a[1..] && b == [b[0]] + b[1..];
      } else {
        LessIsStrictTotal(a[1..], []);
      }
    }
  }

  lemma {:induction false} LessIsTransitive(a: Key, b: Key, c: Key)
    requires Less(a, b) && Less(b, c)
    ensures Less(a, c)
  {
    if a != [] && a[0] == b[0] == c[0] {
      LessIsTransitive(a[1..], b[1..], c[1..]);
    }
  }

  ghost predicate IsLeast(k: Key, ks: set<Key>) {
    k in ks && forall j <- ks :: j != k ==> Less(k, j)
  }

  lemma {:induction false} LeastExists(ks: set<Key>) returns (k: Key)
    requires ks != {}
    ensures IsLeast(k, ks)
  {
    k :| k in ks;
    if ks != {k} {
      var m := LeastExists(ks - {k});
      LessIsStrictTotal(k, m);
      if Less(m, k) {
        k := m;
      } else {
        forall j <- ks | j != k
          ensures Less(k, j)
        {
          if j != m {
            LessIsTransitive(k, m, j);
          }
        }
      }
    }
  }

  lemma LeastIsUnique(j: Key, k: Key, ks: set<Key>)
    requires IsLeast(j, ks) && IsLeast(k, ks)
    ensures j == k
  {
    LessIsStrictTotal(j, k);
  }

  /** The keys of a set in increasing order. */
  ghost function SortedKeys(ks: set<Key>): (r: seq<Key>)
    ensures |r| == |ks|
    ensures forall k :: k in r <==> k in ks
  {
    if ks == {} then []
    else
      assert exists k :: IsLeast(k, ks) by { var k := LeastExists(ks); }
      var k :| IsLeast(k, ks);
      [k] + SortedKeys(ks - {k})
  }

  lemma SortedKeysStart(ks: set<Key>, k: Key)
    requires IsLeast(k, ks)
    ensures SortedKeys(ks) == [k] + SortedKeys(ks - {k})
  {
    var j :| IsLeast(j, ks) && SortedKeys(ks) == [j] + SortedKeys(ks - {j});
    LeastIsUnique(j, k, ks);
  }

  ghost predicate Increasing(s: seq<Key>) {
    forall i, j | 0 <= i < j < |s| :: Less(s[i], s[j])
  }

  lemma {:induction false} SortedKeysIncrease(ks: set<Key>)
    ensures Increasing(SortedKeys(ks))
  {
    if ks != {} {
      var k := LeastExists(ks);
      SortedKeysStart(ks, k);
      SortedKeysIncrease(ks - {k});
      var s := SortedKeys(ks);
      forall i, j | 0 <= i < j < |s|
        ensures Less(s[i], s[j])
      {
        assert s[j] == SortedKeys(ks - {k})[j - 1];
        if i > 0 {
          assert s[i] == SortedKeys(ks - {k})[i - 1];
        } else {
          assert s[j] in SortedKeys(ks - {k});
        }
      }
    }
  }

  /** Keys come out bytewise ascending. */
  lemma SortedKeysAreBytewise(ks: set<Key>)
    ensures forall i, j | 0 <= i < j < |SortedKeys(ks)| :: Before(SortedKeys(ks)[i], SortedKeys(ks)[j])
  {
    hide SortedKeys, Less, Before;
    SortedKeysIncrease(ks);
    var s := SortedKeys(ks);
    forall i, j | 0 <= i < j < |s|
      ensures Before(s[i], s[j])
    {
      LessIsBytewise(s[i], s[j]);
    }
  }

  ghost function KeysOf(s: seq<Key>): (r: set<Key>)
    ensures forall k :: k in r <==> k in s
  {
    set k <- s
  }

  /** An increasing sequence is determined by its elements. */
  lemma {:induction false} IncreasingIsSorted(s: seq<Key>)
    requires Increasing(s)
    ensures s == SortedKeys(KeysOf(s))
  {
    var ks := KeysOf(s);
    if s == [] {
      assert ks == {};
    } else {
      var tail := s[1..];
      assert s == [s[0]] + tail;
      assert IsLeast(s[0], ks);
      SortedKeysStart(ks, s[0]);
      LessIsStrictTotal(s[0], s[0]);
      assert s[0] !in tail;
      assert ks - {s[0]} == KeysOf(tail);
      IncreasingIsSorted(tail);
    }
  }

  ghost predicate Distinct(s: seq<Key>) {
    forall i, j | 0 <= i < j < |s| :: s[i] != s[j]
  }

  /** The first i keys are sorted and come before the others. */
  ghost predicate SortedUpTo(s: seq<Key>, i: nat, sorted: seq<Key>) {
    i <= |s| && Distinct(s) && s[..i] + SortedKeys(KeysOf(s[i..])) == sorted
  }

  ghost predicate LeastFrom(s: seq<Key>, i: nat, j: nat, m: nat) {
    i <= m < j <= |s| && forall k | i <= k < j && k != m :: Less(s[m], s[k])
  }

  /** sort.Slice by Less, in place. */
  method SortKeys(a: array<Key>)
    requires Distinct(a[..])
    modifies a
    ensures a[..] == SortedKeys(KeysOf(old(a[..])))
    ensures forall i, j | 0 <= i < j < a.Length :: Before(a[i], a[j])
  {
    hide SortedKeys, KeysOf, SortedUpTo, LeastFrom, Distinct;
    ghost var sorted := SortedKeys(KeysOf(a[..]));
    SortStarts(a[..]);
    for i := 0 to a.Length
      invariant SortedUpTo(a[..], i, sorted)
    {
      var m := i;
      ghost var s := a[..];
      LeastOfOne(s, i, sorted);
      for j := i + 1 to a.Length
        invariant i <= m < j && a[..] == s
        invariant LeastFrom(s, i, j, m)
      {
        LeastSoFar(s, i, j, m, sorted);
        if Less(a[j], a[m]) {
          m := j;
        }
      }
      SelectNext(s, i, m, sorted);
      a[i], a[m] := a[m], a[i];
      assert a[..] == s[i := s[m]][m := s[i]];
    }
    SortEnds(a[..], sorted);
    SortedKeysAreBytewise(KeysOf(old(a[..])));
  }

  lemma SortStarts(s: seq<Key>)
    requires Distinct(s)
    ensures SortedUpTo(s, 0, SortedKeys(KeysOf(s)))
  {
    hide SortedKeys, KeysOf;
    assert s[0..] == s;
    assert s[..0] + SortedKeys(KeysOf(s)) == SortedKeys(KeysOf(s));
  }

  lemma SortEnds(s: seq<Key>, sorted: seq<Key>)
    requires SortedUpTo(s, |s|, sorted)
    ensures s == sorted
  {
    assert SortedKeys(KeysOf(s[|s|..])) == [];
    assert s[..|s|] == s;
  }

  lemma LeastOfOne(s: seq<Key>, i: nat, sorted: seq<Key>)
    requires i < |s| && SortedUpTo(s, i, sorted)
    ensures LeastFrom(s, i, i + 1, i)
  {
  }

  lemma LeastSoFar(s: seq<Key>, i: nat, j: nat, m: nat, sorted: seq<Key>)
    requires j < |s| && SortedUpTo(s, i, sorted) && LeastFrom(s, i, j, m)
    ensures LeastFrom(s, i, j + 1, if Less(s[j], s[m]) then j else m)
  {
    hide SortedKeys, KeysOf;
    LessIsStrictTotal(s[j], s[m]);
    if Less(s[j], s[m]) {
      forall k | i <= k < j && k != m
        ensures Less(s[j], s[k])
      {
        LessIsTransitive(s[j], s[m], s[k]);
      }
    }
  }

  /** Moving the least of the remaining keys to the front of them sorts one more. */
  lemma SelectNext(s: seq<Key>, i: nat, m: nat, sorted: seq<Key>)
    requires SortedUpTo(s, i, sorted) && LeastFrom(s, i, |s|, m)
    ensures SortedUpTo(s[i := s[m]][m := s[i]], i + 1, sorted)
  {
    hide SortedKeys, KeysOf;
    var t := s[i := s[m]][m := s[i]];
    var ks := KeysOf(s[i..]);
    assert IsLeast(s[m], ks);
    SortedKeysStart(ks, s[m]);
    assert KeysOf(t[i + 1..]) == ks - {s[m]} by { SwapKeepsRest(s, i, m); }
    assert t[..i + 1] == s[..i] + [s[m]];
    var rest := SortedKeys(KeysOf(t[i + 1..]));
    assert t[..i + 1] + rest == s[..i] + ([s[m]] + rest);
  }

  lemma SwapKeepsRest(s: seq<Key>, i: nat, m: nat)
    requires i <= m < |s| && Distinct(s)
    ensures var t := s[i := s[m]][m := s[i]];
            forall k :: k in t[i + 1..] <==> k in s[i..] && k != s[m]
  {
    var t := s[i := s[m]][m := s[i]];
    forall x
      ensures x in t[i + 1..] <==> x in s[i..] && x != s[m]
    {
      if x in s[i..] && x != s[m] {
        var k :| i <= k < |s| && s[k] == x;
        var j := if k == i then m else k;
        assert t[j] == x && t[i + 1..][j - i - 1] == x;
      }
      if x in t[i + 1..] {
        var k :| i < k < |t| && t[k] == x;
        var j := if k == m then i else k;
        assert s[j] == x && s[i..][j - i] == x;
      }
    }
  }
}
