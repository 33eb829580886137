/**
  Where written data is found again.  Writing counts files by declared length and reading by stored
  size, so data written at a position is read at a lower one when a file before it is short.
 */
module Landing {
  import opened Bytes
  import opened FlatStore

  /** Where position p of the flat array lies among the raw bytes. */
  function RawPosition(fs: seq<File>, p: nat): nat {
    if fs == [] || p < fs[0].length then p
    else |fs[0].content| + RawPosition(fs[1..], p - fs[0].length)
  }

  /** Every file that ends at or before p is full. */
  ghost predicate FullBefore(fs: seq<File>, p: int) {
    fs == [] || p < fs[0].length
    || (|fs[0].content| == fs[0].length && FullBefore(fs[1..], p - fs[0].length))
  }

  lemma {:induction false} RawPositionIsRightExactly(fs: seq<File>, p: nat)
    requires Bounded(fs)
    ensures RawPosition(fs, p) <= p
    ensures RawPosition(fs, p) == p <==> FullBefore(fs, p)
  {
    if fs != [] && p >= fs[0].length {
      RawPositionIsRightExactly(fs[1..], p - fs[0].length);
    }
  }

  lemma {:induction false} StartIsRight(fs: seq<File>)
    requires Bounded(fs)
    ensures RawPosition(fs, 0) == 0
  {
    if fs != [] && fs[0].length == 0 {
      assert fs[0] in fs;
      StartIsRight(fs[1..]);
    }
  }

  lemma PutHolds(f: File, p: nat, data: seq<byte>)
    requires data != [] && p + |data| <= f.length && |f.content| <= f.length
    ensures var g := Put(f, p, data).content;
            && p + |data| <= |g| <= f.length && g[p..p + |data|] == data && Put(f, p, data).length == f.length
  {
  }

  /** What is written is stored contiguously, beginning where its position lies among the raw bytes. */
  lemma {:induction false} WrittenAtRawPosition(fs: seq<File>, p: nat, data: seq<byte>)
    requires Bounded(fs) && data != [] && p + |data| <= |Flat(fs)|
    ensures Slice(Raw(WriteFiles(fs, p, data, NoFault).files), RawPosition(fs, p), |data|) == data
    decreases |fs|
  {
    hide Slice, Portion, Put, Pad;
    var r := WriteFiles(fs, p, data, NoFault);
    var f, tail := fs[0], fs[1..];
    if p >= f.length {
      WrittenAtRawPosition(tail, p - f.length, data);
      var s := WriteFiles(tail, p - f.length, data, NoFault);
      assert r.files[1..] == s.files;
      SliceSkips(f.content, Raw(s.files), RawPosition(fs, p), |data|);
    } else {
      var sent := Portion(f.length, p, data, None);
      var g := Put(f, p, sent);
      PutHolds(f, p, sent);
      if |sent| == |data| {
        assert r.files[1..] == tail;
        SliceInside(g.content, Raw(tail), p, |data|);
      } else {
        var rest := data[|sent|..];
        var s := WriteFiles(tail, 0, rest, NoFault);
        StartIsRight(tail);
        WrittenAtRawPosition(tail, 0, rest);
        assert r.files[1..] == s.files;
        SliceSplits(g.content, Raw(s.files), p, |data|);
        assert data == sent + rest;
      }
    }
  }

  ghost predicate SameExceptAt(u: seq<byte>, v: seq<byte>, p: int) {
    |u| == |v| && forall x | 0 <= x < |u| && x != p :: u[x] == v[x]
  }

  lemma PutOneByte(f: File, p: nat, a: seq<byte>, b: seq<byte>)
    requires a != [] && |a| == |b| && a[1..] == b[1..]
    ensures SameExceptAt(Put(f, p, a).content, Put(f, p, b).content, p)
  {
    assert forall k | 1 <= k < |a| :: a[k] == a[1..][k - 1] == b[1..][k - 1] == b[k];
  }

  lemma SameAppended(u: seq<byte>, v: seq<byte>, p: int, s: seq<byte>)
    requires SameExceptAt(u, v, p)
    ensures SameExceptAt(u + s, v + s, p)
    ensures SameExceptAt(s + u, s + v, |s| + p)
  {
  }

  /** Two data that differ in their first byte only leave raw bytes that differ in one place only. */
  lemma {:induction false} OneByteLands(fs: seq<File>, p: nat, a: seq<byte>, b: seq<byte>)
    requires a != [] && |a| == |b| && a[1..] == b[1..]
    ensures SameExceptAt(Raw(WriteFiles(fs, p, a, NoFault).files), Raw(WriteFiles(fs, p, b, NoFault).files),
                         RawPosition(fs, p))
    decreases |fs|
  {
    hide Portion, Put, SameExceptAt;
    var ra, rb := WriteFiles(fs, p, a, NoFault), WriteFiles(fs, p, b, NoFault);
    if fs == [] {
      assert SameExceptAt([], [], p) by { NothingDiffers(p); }
    } else if p >= fs[0].length {
      var q := p - fs[0].length;
      OneByteLands(fs[1..], q, a, b);
      assert ra.files[1..] == WriteFiles(fs[1..], q, a, NoFault).files;
      assert rb.files[1..] == WriteFiles(fs[1..], q, b, NoFault).files;
      SameAppended(Raw(ra.files[1..]), Raw(rb.files[1..]), RawPosition(fs[1..], q), fs[0].content);
    } else {
      var u, v := Portion(fs[0].length, p, a, None), Portion(fs[0].length, p, b, None);
      TailsAgree(a, b, u, v);
      PutOneByte(fs[0], p, u, v);
      var ga, gb := Put(fs[0], p, u), Put(fs[0], p, v);
      var tail := ra.files[1..];
      assert tail == rb.files[1..] ==
             if |u| == |a| then fs[1..] else WriteFiles(fs[1..], 0, a[|u|..], NoFault).files;
      SameAppended(ga.content, gb.content, p, Raw(tail));
    }
  }

  lemma NothingDiffers(p: int)
    ensures SameExceptAt([], [], p)
  {
  }

  lemma TailsAgree(a: seq<byte>, b: seq<byte>, u: seq<byte>, v: seq<byte>)
    requires a != [] && |a| == |b| && a[1..] == b[1..]
    requires u <= a && v <= b && |u| == |v| > 0
    ensures u[1..] == v[1..] && a[|u|..] == b[|v|..]
  {
    assert u[1..] == a[1..][..|u| - 1] && v[1..] == b[1..][..|v| - 1];
    assert a[|u|..] == a[1..][|u| - 1..] && b[|v|..] == b[1..][|v| - 1..];
  }

  /** Data written at p is what a read of the same range returns. */
  ghost predicate ReadsBack(fs: seq<File>, p: nat, data: seq<byte>) {
    ReadFiles(WriteFiles(fs, p, data, NoFault).files, p, |data|, None) == Some(data)
  }

  lemma ReadsBackWhenFullBefore(fs: seq<File>, p: nat, data: seq<byte>)
    requires Bounded(fs) && data != [] && p + |data| <= |Flat(fs)| && FullBefore(fs, p)
    ensures ReadsBack(fs, p, data)
  {
    hide WriteFiles, ReadFiles, Raw, Slice, Flat;
    RawPositionIsRightExactly(fs, p);
    WrittenAtRawPosition(fs, p, data);
    ReadRefinesSlice(WriteFiles(fs, p, data, NoFault).files, p, |data|, None);
  }

  lemma FirstOfSlice(s: seq<byte>, p: nat, n: nat)
    ensures Slice(s, p, n) != [] ==> p < |s| && Slice(s, p, n)[0] == s[p]
  {
  }

  /** With a short file before p, of any two data that differ in their first byte only at most one
      reads back. */
  lemma OneOfTwoDoesNotReadBack(fs: seq<File>, p: nat, a: seq<byte>, b: seq<byte>)
    requires Bounded(fs) && !FullBefore(fs, p)
    requires a != [] && |a| == |b| && a[1..] == b[1..] && a[0] != b[0]
    ensures !ReadsBack(fs, p, a) || !ReadsBack(fs, p, b)
  {
    hide WriteFiles, ReadFiles, Raw, Slice;
    RawPositionIsRightExactly(fs, p);
    OneByteLands(fs, p, a, b);
    var fa, fb := WriteFiles(fs, p, a, NoFault).files, WriteFiles(fs, p, b, NoFault).files;
    ReadRefinesSlice(fa, p, |a|, None);
    ReadRefinesSlice(fb, p, |b|, None);
    FirstOfSlice(Raw(fa), p, |a|);
    FirstOfSlice(Raw(fb), p, |b|);
  }

  /** All data of a given length written at p read back exactly when every file that ends at or
      before p is full. */
  lemma AllReadBackExactlyWhenFullBefore(fs: seq<File>, p: nat, n: nat)
    requires Bounded(fs) && 0 < n && p + n <= |Flat(fs)|
    ensures (forall data: seq<byte> | |data| == n :: ReadsBack(fs, p, data)) <==> FullBefore(fs, p)
  {
    hide ReadsBack, Flat, FullBefore;
    if FullBefore(fs, p) {
      forall data: seq<byte> | |data| == n
        ensures ReadsBack(fs, p, data)
      {
        ReadsBackWhenFullBefore(fs, p, data);
      }
    } else {
      var a: seq<byte>, b: seq<byte> := [0] + Zeros(n - 1), [1] + Zeros(n - 1);
      assert a[1..] == Zeros(n - 1) == b[1..];
      OneOfTwoDoesNotReadBack(fs, p, a, b);
    }
  }

  // ----- files that fill up -----

  /** Writing never makes a full file short. */
  lemma {:induction false} FullBeforeStays(fs: seq<File>, gs: seq<File>, p: int)
    requires Lengths(fs) == Lengths(gs) && FullBefore(fs, p)
    requires forall i | 0 <= i < |fs| :: |fs[i].content| == fs[i].length ==> |gs[i].content| == gs[i].length
    ensures FullBefore(gs, p)
    decreases |fs|
  {
    if fs != [] {
      assert Lengths(fs)[0] == Lengths(gs)[0];
      if p >= fs[0].length {
        assert Lengths(fs[1..]) == Lengths(fs)[1..] == Lengths(gs)[1..] == Lengths(gs[1..]);
        FullBeforeStays(fs[1..], gs[1..], p - fs[0].length);
      }
    }
  }

  lemma {:induction false} FullIsFullBefore(fs: seq<File>, p: int)
    requires Full(fs)
    ensures FullBefore(fs, p)
  {
    if fs != [] && p >= fs[0].length {
      FullIsFullBefore(fs[1..], p - fs[0].length);
    }
  }

  lemma WriteKeepsFullBefore(fs: seq<File>, p: int, data: seq<byte>, fault: Fault, q: int)
    requires FullBefore(fs, q)
    ensures FullBefore(WriteFiles(fs, p, data, fault).files, q)
  {
    hide WriteFiles, Full, Lengths, FullBefore;
    var gs := WriteFiles(fs, p, data, fault).files;
    WriteKeepsFull(fs, p, data, fault);
    WriteKeepsShape(fs, p, data, fault, 0);
    forall i: nat | i < |fs| && |fs[i].content| == fs[i].length
      ensures |gs[i].content| == gs[i].length
    {
      WriteKeepsShape(fs, p, data, fault, i);
    }
    FullBeforeStays(fs, gs, q);
  }

  // ----- stretches stored so far -----

  /** Everything below q is stored: the files before it are full and the file that holds it reaches
      that far. */
  ghost predicate StoredUpTo(fs: seq<File>, q: int) {
    fs == []
    || (if q <= fs[0].length then |fs[0].content| >= q
        else |fs[0].content| == fs[0].length && StoredUpTo(fs[1..], q - fs[0].length))
  }

  /** What is stored up to q is read as it lies in the flat array. */
  lemma {:induction false} StoredUpToIsFlat(fs: seq<File>, q: nat)
    requires Bounded(fs) && StoredUpTo(fs, q) && q <= |Flat(fs)|
    ensures q <= |Raw(fs)| && Raw(fs)[..q] == Flat(fs)[..q]
  {
    if fs != [] {
      var f := fs[0];
      if q <= f.length {
        assert Raw(fs)[..q] == f.content[..q] == Pad(f)[..q] == Flat(fs)[..q];
      } else {
        StoredUpToIsFlat(fs[1..], q - f.length);
        assert Raw(fs)[..q] == f.content + Raw(fs[1..])[..q - f.length];
        assert Flat(fs)[..q] == f.content + Flat(fs[1..])[..q - f.length];
      }
    }
  }

  lemma {:induction false} StartIsFullBefore(fs: seq<File>)
    requires Bounded(fs)
    ensures FullBefore(fs, 0)
  {
    if fs != [] && fs[0].length == 0 {
      assert fs[0] in fs;
      StartIsFullBefore(fs[1..]);
    }
  }

  lemma {:induction false} StoredUpToIsFullBefore(fs: seq<File>, q: int)
    requires Bounded(fs) && StoredUpTo(fs, q)
    ensures FullBefore(fs, q)
  {
    if fs != [] {
      if q == fs[0].length {
        assert fs[0] in fs;
        StartIsFullBefore(fs[1..]);
      } else if q > fs[0].length {
        StoredUpToIsFullBefore(fs[1..], q - fs[0].length);
      }
    }
  }

  /** A write at a position that will be found again stores everything up to its end. */
  lemma {:induction false} WriteStoresUpToItsEnd(fs: seq<File>, p: nat, data: seq<byte>)
    requires Bounded(fs) && FullBefore(fs, p) && data != [] && p + |data| <= |Flat(fs)|
    ensures StoredUpTo(WriteFiles(fs, p, data, NoFault).files, p + |data|)
    decreases |fs|
  {
    hide Portion, Put, Pad;
    var r := WriteFiles(fs, p, data, NoFault);
    var f, tail := fs[0], fs[1..];
    if p >= f.length {
      WriteStoresUpToItsEnd(tail, p - f.length, data);
      assert r.files[1..] == WriteFiles(tail, p - f.length, data, NoFault).files;
    } else {
      var sent := Portion(f.length, p, data, None);
      PutHolds(f, p, sent);
      if |sent| < |data| {
        var rest := data[|sent|..];
        StartIsFullBefore(tail);
        WriteStoresUpToItsEnd(tail, 0, rest);
        assert r.files[1..] == WriteFiles(tail, 0, rest, NoFault).files;
      }
    }
  }

  lemma {:induction false} StoredUpToStays(fs: seq<File>, gs: seq<File>, q: int)
    requires Lengths(fs) == Lengths(gs) && Bounded(gs) && StoredUpTo(fs, q)
    requires forall i | 0 <= i < |fs| :: |fs[i].content| <= |gs[i].content|
    ensures StoredUpTo(gs, q)
    decreases |fs|
  {
    if fs != [] {
      assert Lengths(fs)[0] == Lengths(gs)[0];
      if q > fs[0].length {
        assert gs[0] in gs;
        assert Lengths(fs[1..]) == Lengths(fs)[1..] == Lengths(gs)[1..] == Lengths(gs[1..]);
        StoredUpToStays(fs[1..], gs[1..], q - fs[0].length);
      }
    }
  }

  lemma WriteKeepsStoredUpTo(fs: seq<File>, p: int, data: seq<byte>, fault: Fault, q: int)
    requires Bounded(fs) && StoredUpTo(fs, q)
    ensures StoredUpTo(WriteFiles(fs, p, data, fault).files, q)
  {
    hide WriteFiles, Full, Lengths, StoredUpTo;
    var gs := WriteFiles(fs, p, data, fault).files;
    WriteKeepsFull(fs, p, data, fault);
    WriteKeepsShape(fs, p, data, fault, 0);
    forall i: nat | i < |fs|
      ensures |fs[i].content| <= |gs[i].content|
    {
      WriteKeepsShape(fs, p, data, fault, i);
    }
    StoredUpToStays(fs, gs, q);
  }
}
