/**
  The files of a torrent, seen as one flat array of bytes.

  A file is its stored bytes together with the length the metainfo declares for it.  Writing
  walks the files by declared length, reading walks them by stored size; this module defines
  both walks and proves what they do to the flat array.
 */
module FlatStore {
  import opened Bytes

  datatype File = File(content: seq<byte>, length: nat)

  function Zeros(n: nat): seq<byte> {
    seq(n, _ => 0)
  }

  /** The first `length` bytes of a file, those never written counting as zero. */
  function Pad(f: File): (s: seq<byte>)
    ensures |s| == f.length
  {
    if |f.content| >= f.length then f.content[..f.length]
    else f.content + Zeros(f.length - |f.content|)
  }

  /** The files laid end to end at their declared lengths. */
  function Flat(fs: seq<File>): seq<byte> {
    if fs == [] then [] else Pad(fs[0]) + Flat(fs[1..])
  }

  /** The bytes actually stored, laid end to end. */
  function Raw(fs: seq<File>): seq<byte> {
    if fs == [] then [] else fs[0].content + Raw(fs[1..])
  }

  function Lengths(fs: seq<File>): (ls: seq<nat>)
    ensures |ls| == |fs|
  {
    seq(|fs|, i requires 0 <= i < |fs| => fs[i].length)
  }

  /** Every file has exactly its declared length. */
  ghost predicate Full(fs: seq<File>) {
    forall f <- fs :: |f.content| == f.length
  }

  /** No file is longer than declared. */
  ghost predicate Bounded(fs: seq<File>) {
    forall f <- fs :: |f.content| <= f.length
  }

  /** `flat` with data[0], data[1], ... at positions p, p+1, ..., as far as `flat` reaches. */
  function Overwrite(flat: seq<byte>, p: nat, data: seq<byte>): (r: seq<byte>)
    ensures |r| == |flat|
  {
    seq(|flat|, i requires 0 <= i < |flat| => if p <= i < p + |data| then data[i - p] else flat[i])
  }

  /** The at most n bytes of s from position p on; none when p is outside s. */
  function Slice(s: seq<byte>, p: int, n: int): seq<byte> {
    if 0 <= p < |s| && 0 < n then s[p..Min(p + n, |s|)] else []
  }

  // ----- writing -----

  /** The outcome of the operating system's writes: all succeed, or the one to file number `file`
      reports an error after storing `stored` bytes. */
  datatype Fault = NoFault | FaultAt(file: nat, stored: nat)

  function Later(fault: Fault, i: nat): Fault {
    if fault.FaultAt? && fault.file >= i then FaultAt(fault.file - i, fault.stored) else NoFault
  }

  /** If the write to file i fails: after how many bytes. */
  function Cut(fault: Fault, i: nat): Option<nat> {
    if fault.FaultAt? && fault.file == i then Some(fault.stored) else None
  }

  /** The part of data that goes into a file of the given length from offset off on. */
  function Portion(length: nat, off: nat, data: seq<byte>, cut: Option<nat>): (sent: seq<byte>)
    requires off < length
    ensures sent <= data && off + |sent| <= length
    ensures cut.None? ==> |sent| == Min(|data|, length - off)
  {
    var n := Min(|data|, length - off);
    data[..if cut.Some? then Min(cut.value, n) else n]
  }

  /** File contents after data is written at offset off; a gap reads as zeros, and writing nothing
      does not extend the file. */
  function WriteAt(content: seq<byte>, off: nat, data: seq<byte>): seq<byte> {
    if data == [] then content
    else if off + |data| <= |content| then content[..off] + data + content[off + |data|..]
    else if off <= |content| then content[..off] + data
    else content + Zeros(off - |content|) + data
  }

  function Put(f: File, off: nat, data: seq<byte>): File {
    f.(content := WriteAt(f.content, off, data))
  }

  datatype WriteResult = WriteResult(files: seq<File>, ok: bool, stored: nat)

  function WriteFiles(fs: seq<File>, off: int, data: seq<byte>, fault: Fault): WriteResult {
    if fs == [] then WriteResult([], true, 0)
    else if off >= fs[0].length then
      var r := WriteFiles(fs[1..], off - fs[0].length, data, Later(fault, 1));
      r.(files := [fs[0]] + r.files)
    else if off < 0 then WriteResult(fs, false, 0)
    else
      var sent := Portion(fs[0].length, off, data, Cut(fault, 0));
      var f := Put(fs[0], off, sent);
      if Cut(fault, 0).Some? || |sent| == |data| then
        WriteResult([f] + fs[1..], Cut(fault, 0).None?, |sent|)
      else
        var r := WriteFiles(fs[1..], 0, data[|sent|..], Later(fault, 1));
        WriteResult([f] + r.files, r.ok, |sent| + r.stored)
  }

  lemma PadWriteAt(f: File, off: nat, data: seq<byte>)
    requires off + |data| <= f.length
    ensures Pad(Put(f, off, data)) == Overwrite(Pad(f), off, data)
    ensures |f.content| <= f.length ==> |Put(f, off, data).content| <= f.length
    ensures |f.content| == f.length ==> |Put(f, off, data).content| == f.length
    ensures |f.content| <= |Put(f, off, data).content|
  {
  }

  lemma OverwriteSkips(a: seq<byte>, b: seq<byte>, p: nat, data: seq<byte>)
    requires p >= |a|
    ensures Overwrite(a + b, p, data) == a + Overwrite(b, p - |a|, data)
  {
  }

  lemma OverwriteSplits(a: seq<byte>, b: seq<byte>, p: nat, d: seq<byte>, e: seq<byte>)
    requires p + |d| <= |a|
    requires e == [] || p + |d| == |a|
    ensures Overwrite(a + b, p, d + e) == Overwrite(a, p, d) + Overwrite(b, 0, e)
  {
  }

  lemma OverwriteNothing(a: seq<byte>, p: nat)
    ensures Overwrite(a, p, []) == a
  {
  }

  /** A write, failed or not, overwrites the flat array at p with the bytes it stored and nothing
      else. */
  lemma {:induction false} WriteRefinesOverwrite(fs: seq<File>, p: nat, data: seq<byte>, fault: Fault)
    ensures var r := WriteFiles(fs, p, data, fault);
            r.stored <= |data| && Flat(r.files) == Overwrite(Flat(fs), p, data[..r.stored])
    decreases |fs|
  {
    hide Portion, Put, Pad, Overwrite;
    if fs == [] {
      assert Overwrite([], p, data[..0]) == [];
    } else if p >= fs[0].length {
      WriteRefinesOverwrite(fs[1..], p - fs[0].length, data, Later(fault, 1));
      OverwriteSkips(Pad(fs[0]), Flat(fs[1..]), p, data[..WriteFiles(fs, p, data, fault).stored]);
    } else {
      var sent := Portion(fs[0].length, p, data, Cut(fault, 0));
      if Cut(fault, 0).None? && |sent| < |data| {
        var rest := data[|sent|..];
        var r := WriteFiles(fs[1..], 0, rest, Later(fault, 1));
        WriteRefinesOverwrite(fs[1..], 0, rest, Later(fault, 1));
        assert sent + rest[..r.stored] == data[..|sent| + r.stored];
        FlatPut(fs, p, sent, r.files, rest[..r.stored]);
      } else {
        assert sent + [] == data[..|sent|];
        OverwriteNothing(Flat(fs[1..]), 0);
        FlatPut(fs, p, sent, fs[1..], []);
      }
    }
  }

  /** Writing d into the first file and e into the following ones. */
  lemma FlatPut(fs: seq<File>, p: nat, d: seq<byte>, tail: seq<File>, e: seq<byte>)
    requires fs != [] && p + |d| <= fs[0].length && (e == [] || p + |d| == fs[0].length)
    requires Flat(tail) == Overwrite(Flat(fs[1..]), 0, e)
    ensures Flat([Put(fs[0], p, d)] + tail) == Overwrite(Flat(fs), p, d + e)
  {
    hide Put, Pad, Overwrite;
    var gs := [Put(fs[0], p, d)] + tail;
    assert gs[1..] == tail;
    PadWriteAt(fs[0], p, d);
    OverwriteSplits(Pad(fs[0]), Flat(fs[1..]), p, d, e);
  }

  /** Unless an I/O error interrupts it, a write stores all that fits below the total length. */
  lemma {:induction false} WriteStoresAllThatFits(fs: seq<File>, p: nat, data: seq<byte>, fault: Fault)
    ensures var r := WriteFiles(fs, p, data, fault);
            && (r.ok ==> r.stored == Min(|data|, if p < |Flat(fs)| then |Flat(fs)| - p else 0))
            && (fault.NoFault? ==> r.ok)
    decreases |fs|
  {
    hide Portion, Put, Pad;
    if fs != [] {
      if p >= fs[0].length {
        WriteStoresAllThatFits(fs[1..], p - fs[0].length, data, Later(fault, 1));
      } else {
        WriteStoresAllThatFits(fs[1..], 0, data[|Portion(fs[0].length, p, data, Cut(fault, 0))|..], Later(fault, 1));
      }
    }
  }

  /** Written files keep their declared lengths, do not shrink, do not outgrow their lengths, and stay
      full if they were. */
  lemma {:induction false} WriteKeepsShape(fs: seq<File>, p: int, data: seq<byte>, fault: Fault, i: nat)
    ensures var gs := WriteFiles(fs, p, data, fault).files;
            && |gs| == |fs|
            && (i < |fs| ==> && gs[i].length == fs[i].length && |fs[i].content| <= |gs[i].content|
                             && (|fs[i].content| <= fs[i].length ==> |gs[i].content| <= gs[i].length)
                             && (|fs[i].content| == fs[i].length ==> |gs[i].content| == gs[i].length))
    decreases |fs|
  {
    hide Portion, WriteAt, Pad, Overwrite;
    if fs != [] {
      var j := if i == 0 then 0 else i - 1;
      if p >= fs[0].length {
        WriteKeepsShape(fs[1..], p - fs[0].length, data, Later(fault, 1), j);
      } else if p >= 0 {
        var sent := Portion(fs[0].length, p, data, Cut(fault, 0));
        PadWriteAt(fs[0], p, sent);
        WriteKeepsShape(fs[1..], 0, data[|sent|..], Later(fault, 1), j);
      }
    }
  }

  lemma WriteKeepsFull(fs: seq<File>, p: int, data: seq<byte>, fault: Fault)
    ensures var gs := WriteFiles(fs, p, data, fault).files;
            && Lengths(gs) == Lengths(fs)
            && (Full(fs) ==> Full(gs))
            && (Bounded(fs) ==> Bounded(gs))
  {
    var gs := WriteFiles(fs, p, data, fault).files;
    WriteKeepsShape(fs, p, data, fault, 0);
    forall i: nat | i < |fs|
      ensures gs[i].length == fs[i].length
      ensures |fs[i].content| <= fs[i].length ==> |gs[i].content| <= gs[i].length
      ensures |fs[i].content| == fs[i].length ==> |gs[i].content| == gs[i].length
    {
      WriteKeepsShape(fs, p, data, fault, i);
    }
  }

  /** A negative position reaches the operating system as a negative offset (or, where the length
      computation overflows, panics): nothing is stored. */
  lemma NegativeOffsetStoresNothing(fs: seq<File>, p: int, data: seq<byte>, fault: Fault)
    requires p < 0
    ensures WriteFiles(fs, p, data, fault) == WriteResult(fs, fs == [], 0)
  {
  }

  // ----- reading -----

  /** What one read at an offset inside the file returns. */
  function Got(content: seq<byte>, off: nat, n: nat): (got: seq<byte>)
    requires off < |content|
    ensures |got| == Min(n, |content| - off)
  {
    content[off..off + Min(n, |content| - off)]
  }

  function BackBy(fault: Option<nat>, i: nat): Option<nat> {
    if fault.Some? && fault.value >= i then Some(fault.value - i) else None
  }

  /** The read that fails, if any, is the one of file number `fault`. */
  function ReadFiles(fs: seq<File>, off: int, n: nat, fault: Option<nat>): Option<seq<byte>> {
    if fs == [] then Some([])
    else if fault == Some(0) then None
    else
      var size := |fs[0].content|;
      if off >= size then ReadFiles(fs[1..], off - size, n, BackBy(fault, 1))
      else if off < 0 then None
      else
        var got := Got(fs[0].content, off, n);
        if |got| == n then Some(got)
        else
          match ReadFiles(fs[1..], 0, n - |got|, BackBy(fault, 1))
          case None => None
          case Some(more) => Some(got + more)
  }

  /** A read that meets no I/O error returns a slice of what is stored: the requested range of the
      raw bytes, which is a range of the flat array only if the files are full. */
  lemma {:induction false} ReadRefinesSlice(fs: seq<File>, p: nat, n: nat, fault: Option<nat>)
    ensures var r := ReadFiles(fs, p, n, fault);
            && (fault.None? ==> r.Some?)
            && (r.Some? ==> r.value == Slice(Raw(fs), p, n))
    decreases |fs|
  {
    hide Slice;
    if fs == [] {
      NothingToSlice(p, n);
    } else if fault != Some(0) {
      var size := |fs[0].content|;
      if p >= size {
        ReadRefinesSlice(fs[1..], p - size, n, BackBy(fault, 1));
        SliceSkips(fs[0].content, Raw(fs[1..]), p, n);
      } else if p + n <= size {
        SliceInside(fs[0].content, Raw(fs[1..]), p, n);
      } else {
        ReadRefinesSlice(fs[1..], 0, p + n - size, BackBy(fault, 1));
        SliceSplits(fs[0].content, Raw(fs[1..]), p, n);
      }
    }
  }

  lemma NothingToSlice(p: int, n: int)
    ensures Slice([], p, n) == []
  {
  }

  lemma SliceSkips(a: seq<byte>, b: seq<byte>, p: nat, n: nat)
    requires |a| <= p
    ensures Slice(a + b, p, n) == Slice(b, p - |a|, n)
  {
  }

  lemma SliceInside(a: seq<byte>, b: seq<byte>, p: nat, n: nat)
    requires p + n <= |a|
    ensures Slice(a + b, p, n) == a[p..p + n]
  {
  }

  lemma SliceSplits(a: seq<byte>, b: seq<byte>, p: nat, n: nat)
    requires p < |a| < p + n
    ensures Slice(a + b, p, n) == a[p..] + Slice(b, 0, p + n - |a|)
  {
  }

  lemma {:induction false} FullStoresFlat(fs: seq<File>)
    requires Full(fs)
    ensures Raw(fs) == Flat(fs)
  {
    if fs != [] {
      FullStoresFlat(fs[1..]);
    }
  }

  lemma {:induction false} RawLength(fs: seq<File>)
    requires Bounded(fs)
    ensures |Raw(fs)| <= |Flat(fs)|
    ensures |Raw(fs)| == |Flat(fs)| ==> Full(fs)
  {
    if fs != [] {
      RawLength(fs[1..]);
    }
  }

  ghost predicate ReadsFlat(fs: seq<File>, p: nat, n: nat) {
    ReadFiles(fs, p, n, None) == Some(Slice(Flat(fs), p, n))
  }

  /** Reading agrees with the flat array everywhere exactly when every file is full. */
  lemma ReadsFlatExactlyWhenFull(fs: seq<File>)
    requires Bounded(fs)
    ensures (forall p: nat, n: nat :: ReadsFlat(fs, p, n)) <==> Full(fs)
  {
    if Full(fs) {
      FullStoresFlat(fs);
      forall p: nat, n: nat
        ensures ReadsFlat(fs, p, n)
      {
        ReadRefinesSlice(fs, p, n, None);
      }
    } else {
      RawLength(fs);
      ReadRefinesSlice(fs, 0, |Flat(fs)|, None);
      assert !ReadsFlat(fs, 0, |Flat(fs)|);
    }
  }

  // ----- reading and writing together -----

  lemma OverwriteThenSlice(flat: seq<byte>, p: nat, data: seq<byte>, k: nat)
    requires k == Min(|data|, if p < |flat| then |flat| - p else 0)
    ensures Slice(Overwrite(flat, p, data[..k]), p, |data|) == data[..k]
    ensures Overwrite(flat, p, data[..k]) == Overwrite(flat, p, data)
  {
  }

  lemma OverwriteApart(flat: seq<byte>, p: nat, data: seq<byte>, q: int, m: int)
    requires Apart(p, |data|, q, m, |flat|)
    ensures Slice(Overwrite(flat, p, data), q, m) == Slice(flat, q, m)
  {
  }

  /** Reading back the range just written gives the data, as far as the files reach. */
  lemma ReadAfterWrite(fs: seq<File>, p: nat, data: seq<byte>)
    requires Full(fs)
    ensures var r := WriteFiles(fs, p, data, NoFault);
            && r.stored <= |data|
            && ReadFiles(r.files, p, |data|, None) == Some(data[..r.stored])
    ensures p + |data| <= |Flat(fs)| ==> WriteFiles(fs, p, data, NoFault).stored == |data|
  {
    hide WriteFiles, ReadFiles, Overwrite, Slice, Flat, Raw, Full;
    var r := WriteFiles(fs, p, data, NoFault);
    WriteRefinesOverwrite(fs, p, data, NoFault);
    WriteStoresAllThatFits(fs, p, data, NoFault);
    WriteKeepsFull(fs, p, data, NoFault);
    FullStoresFlat(r.files);
    ReadRefinesSlice(r.files, p, |data|, None);
    OverwriteThenSlice(Flat(fs), p, data, r.stored);
  }

  /** Ranges [p, p+n) and [q, q+m) of an array of the given size have no position in common. */
  predicate Apart(p: int, n: int, q: int, m: int, size: int) {
    || p < 0 || q < 0 || n <= 0 || m <= 0
    || p + n <= q || q + m <= p || size <= p || size <= q
  }

  /** A write leaves every range that it does not meet as it was, even when it fails half way. */
  lemma WriteLeavesApartRanges(fs: seq<File>, p: int, data: seq<byte>, fault: Fault, q: int, m: int)
    requires Apart(p, |data|, q, m, |Flat(fs)|)
    ensures Slice(Flat(WriteFiles(fs, p, data, fault).files), q, m) == Slice(Flat(fs), q, m)
  {
    if p >= 0 {
      WriteRefinesOverwrite(fs, p, data, fault);
      OverwriteApart(Flat(fs), p, data[..WriteFiles(fs, p, data, fault).stored], q, m);
    } else {
      NegativeOffsetStoresNothing(fs, p, data, fault);
    }
  }

  lemma {:induction false} FlatDetermines(fs: seq<File>, gs: seq<File>)
    requires Full(fs) && Full(gs) && Lengths(fs) == Lengths(gs) && Flat(fs) == Flat(gs)
    ensures fs == gs
  {
    if fs != [] {
      assert fs[0].length == Lengths(fs)[0] == Lengths(gs)[0] == gs[0].length;
      assert Flat(fs)[..fs[0].length] == fs[0].content;
      assert Flat(gs)[..gs[0].length] == gs[0].content;
      assert Lengths(fs[1..]) == Lengths(fs)[1..] == Lengths(gs)[1..] == Lengths(gs[1..]);
      assert Flat(fs)[fs[0].length..] == Flat(fs[1..]);
      assert Flat(gs)[gs[0].length..] == Flat(gs[1..]);
      FlatDetermines(fs[1..], gs[1..]);
    }
  }

  /** Writes to ranges that do not meet commute, down to the contents of each file. */
  lemma ApartWritesCommute(fs: seq<File>, p: nat, a: seq<byte>, q: nat, b: seq<byte>)
    requires Full(fs) && Apart(p, |a|, q, |b|, |Flat(fs)|)
    ensures WriteFiles(WriteFiles(fs, p, a, NoFault).files, q, b, NoFault).files
         == WriteFiles(WriteFiles(fs, q, b, NoFault).files, p, a, NoFault).files
  {
    var fa := WriteFiles(fs, p, a, NoFault).files;
    var fb := WriteFiles(fs, q, b, NoFault).files;
    WriteIs(fs, p, a); WriteIs(fs, q, b); WriteIs(fa, q, b); WriteIs(fb, p, a);
    var flat := Flat(fs);
    assert Overwrite(Overwrite(flat, p, a), q, b) == Overwrite(Overwrite(flat, q, b), p, a);
    FlatDetermines(WriteFiles(fa, q, b, NoFault).files, WriteFiles(fb, p, a, NoFault).files);
  }

  /** A write without I/O errors, in one equation: data beyond the last file is dropped. */
  lemma WriteIs(fs: seq<File>, p: nat, data: seq<byte>)
    ensures var r := WriteFiles(fs, p, data, NoFault);
            && Flat(r.files) == Overwrite(Flat(fs), p, data)
            && Lengths(r.files) == Lengths(fs)
            && (Full(fs) ==> Full(r.files))
  {
    hide WriteFiles, Overwrite, Slice, Flat, Full, Lengths;
    WriteRefinesOverwrite(fs, p, data, NoFault);
    WriteStoresAllThatFits(fs, p, data, NoFault);
    WriteKeepsFull(fs, p, data, NoFault);
    OverwriteThenSlice(Flat(fs), p, data, WriteFiles(fs, p, data, NoFault).stored);
  }

  // ----- I/O errors -----

  lemma FilePrefix(fs: seq<File>, k: nat)
    requires 0 < k <= |fs|
    ensures |Flat(fs[..k])| == fs[0].length + |Flat(fs[1..][..k - 1])|
    ensures |Raw(fs[..k])| == |fs[0].content| + |Raw(fs[1..][..k - 1])|
  {
    hide Pad;
    assert fs[..k][1..] == fs[1..][..k - 1];
  }

  lemma FirstFileFails(fs: seq<File>, p: nat, data: seq<byte>, cut: nat)
    requires fs != []
    ensures var r := WriteFiles(fs, p, data, FaultAt(0, cut));
            && (!r.ok <==> p < fs[0].length)
            && (!r.ok ==> r.stored == Min(Min(|data|, fs[0].length - p), cut))
  {
    hide Put;
    assert Later(FaultAt(0, cut), 1) == NoFault;
    if p >= fs[0].length {
      WriteStoresAllThatFits(fs[1..], p - fs[0].length, data, NoFault);
    }
  }

  /** An error in writing file k is met exactly by the writes that have something to store there, or
      that store nothing at a position inside it.  Then what goes to earlier files and what the error
      lets through is stored. */
  lemma {:induction false} WriteFailsExactly(fs: seq<File>, p: nat, data: seq<byte>, k: nat, cut: nat)
    requires k < |fs|
    ensures var r := WriteFiles(fs, p, data, FaultAt(k, cut));
            var from, to := |Flat(fs[..k])|, |Flat(fs[..k])| + fs[k].length;
            && (!r.ok <==> from < to && p < to && (from <= p || from < p + |data|))
            && (!r.ok ==> r.stored == Min(Min(|data|, to - p), (if p < from then from - p else 0) + cut))
    decreases |fs|
  {
    hide Put, Pad, Portion;
    if k == 0 {
      FirstFileFails(fs, p, data, cut);
    } else {
      FilePrefix(fs, k);
      hide Flat;
      var n := fs[0].length;
      if p >= n {
        WriteFailsExactly(fs[1..], p - n, data, k - 1, cut);
      } else {
        WriteFailsExactly(fs[1..], 0, data[|Portion(n, p, data, None)|..], k - 1, cut);
      }
    }
  }

  /** The file that cannot be read is one that reading n bytes from p on comes to: those before it do
      not hold the range, which for an empty range means its position. */
  ghost predicate Strikes(fs: seq<File>, p: int, n: int, fault: Option<nat>) {
    fault.Some? && fault.value < |fs|
    && (|Raw(fs[..fault.value])| <= p || |Raw(fs[..fault.value])| < p + n)
  }

  /** An error in reading file k is met exactly by the reads that come to it. */
  lemma {:induction false} ReadFailsExactly(fs: seq<File>, p: nat, n: nat, k: nat)
    ensures ReadFiles(fs, p, n, Some(k)).None? <==> Strikes(fs, p, n, Some(k))
    decreases |fs|
  {
    if fs != [] && k > 0 {
      var size := |fs[0].content|;
      if k < |fs| {
        FilePrefix(fs, k);
      }
      hide Raw;
      if p >= size {
        ReadFailsExactly(fs[1..], p - size, n, k - 1);
      } else if p + n > size {
        ReadFailsExactly(fs[1..], 0, p + n - size, k - 1);
      }
    }
  }

  lemma ReadsUnlessStruck(fs: seq<File>, p: nat, n: nat, fault: Option<nat>)
    ensures ReadFiles(fs, p, n, fault).Some? <==> !Strikes(fs, p, n, fault)
  {
    hide ReadFiles, Raw;
    if fault.Some? {
      ReadFailsExactly(fs, p, n, fault.value);
    } else {
      ReadRefinesSlice(fs, p, n, None);
    }
  }

  /** Two files declared one and two bytes long, nothing stored yet: a byte written at position 2
      is not found by reading position 2, because reading skips the first file by its size, zero. */
  lemma EmptyFilesMisplaceReads(x: byte)
    ensures var fs := [File([], 1), File([], 2)];
            var r := WriteFiles(fs, 2, [x], NoFault);
            && r.ok && Slice(Flat(r.files), 2, 1) == [x]
            && ReadFiles(r.files, 2, 1, None) == Some([])
  {
    var g := File([0, x], 2);
    WriteToSecondFile(x);
    assert [File([], 1), g][1..] == [g];
    assert Flat([g]) == [0, x];
    assert Pad(File([], 1)) == [0];
    assert Flat([File([], 1), g]) == [0] + [0, x] == [0, 0, x];
    assert ReadFiles([g], 2, 1, None) == ReadFiles([], 0, 1, None);
  }

  lemma WriteToSecondFile(x: byte)
    ensures WriteFiles([File([], 1), File([], 2)], 2, [x], NoFault)
         == WriteResult([File([], 1), File([0, x], 2)], true, 1)
  {
    hide Flat, Raw, Pad, Overwrite, Slice, ReadFiles;
    var f := File([], 2);
    assert Portion(2, 1, [x], None) == [x];
    assert WriteAt([], 1, [x]) == [0, x];
    var r := WriteFiles([f], 1, [x], NoFault);
    assert r == WriteResult([File([0, x], 2)] + [], true, 1);
    assert [File([], 1), f][1..] == [f];
  }
}
