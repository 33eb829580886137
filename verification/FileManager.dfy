/** The files of a torrent and the loops that write and read pieces across them. */
module FileManagers {
  import opened Bytes
  import opened FlatStore
  import opened MetaInfos

  /** How many pieces of the given size a length takes, in int64 arithmetic. */
  function PieceCount(total: int, size: int): int
    requires size != 0
  {
    Quot(Int64(total + size - 1), size)
  }

  lemma PieceCountIsCeiling(total: int, size: int)
    requires 0 <= total && 0 < size && total + size - 1 <= MAX_INT64
    ensures (PieceCount(total, size) - 1) * size < total <= PieceCount(total, size) * size
  {
    Int64InRange(total + size - 1);
    QuotRem(total + size - 1, size);
  }

  /** The int64 offsets at which the first n files start (or, for the last of them, end). */
  function Offsets(lengths: seq<nat>, n: nat): (s: seq<int>)
    requires n <= |lengths| + 1
    ensures |s| == n
    ensures forall k | 0 <= k < n :: s[k] == Int64(Sum(lengths[..k]))
  {
    if n == 0 then [] else Offsets(lengths, n - 1) + [Int64(Sum(lengths[..n - 1]))]
  }

  class FileManager {
    var files: seq<File>
    var pieceSize: int
    var pieceOffsets: seq<int>
    var totalLength: int
    var numPieces: int

    constructor ()
      ensures files == [] && pieceOffsets == []
      ensures pieceSize == totalLength == numPieces == 0
    {
      files, pieceOffsets := [], [];
      pieceSize, totalLength, numPieces := 0, 0, 0;
    }

    /** Dividing by a zero piece size panics. */
    method SetPieceSize(size: int)
      requires size != 0
      modifies `pieceSize, `numPieces
      ensures pieceSize == size && numPieces == PieceCount(totalLength, size)
    {
      pieceSize := size;
      numPieces := PieceCount(totalLength, size);
    }

    method SetTotalLength(length: int)
      requires pieceSize != 0
      modifies `totalLength, `numPieces
      ensures totalLength == length && numPieces == PieceCount(length, pieceSize)
    {
      totalLength := length;
      numPieces := PieceCount(length, pieceSize);
    }

    /** Opens the files: found[i] is what the i-th path already holds.  Offsets accumulate, also
        over repeated calls. */
    method Initialize(lengths: seq<nat>, found: seq<seq<byte>>)
      requires |found| == |lengths|
      modifies `files, `pieceOffsets, `totalLength, `numPieces
      ensures |files| == |lengths|
      ensures forall i | 0 <= i < |lengths| :: files[i] == File(found[i], lengths[i])
      ensures pieceOffsets == old(pieceOffsets) + Offsets(lengths, |lengths| + 1)
      ensures totalLength == Int64(Sum(lengths))
      ensures numPieces == if pieceSize > 0 then PieceCount(totalLength, pieceSize) else 1
    {
      files := [];
      var offset := 0;
      for i := 0 to |lengths|
        invariant |files| == i
        invariant forall k | 0 <= k < i :: files[k] == File(found[k], lengths[k])
        invariant offset == Int64(Sum(lengths[..i]))
        invariant pieceOffsets == old(pieceOffsets) + Offsets(lengths, i)
      {
        files := files + [File(found[i], lengths[i])];
        pieceOffsets := pieceOffsets + [offset];
        Int64Absorbs(Sum(lengths[..i]), lengths[i]);
        assert lengths[..i + 1][..i] == lengths[..i];
        offset := Int64(offset + lengths[i]);
      }
      assert lengths[..|lengths|] == lengths;
      totalLength := offset;
      pieceOffsets := pieceOffsets + [offset];
      numPieces := if pieceSize > 0 then PieceCount(totalLength, pieceSize) else 1;
    }

    /** Creates files of the given lengths, as the main program does first of all: truncating to a
        negative length fails. */
    method CreateFiles(lengths: seq<int>) returns (ok: bool)
      ensures ok <==> forall n <- lengths :: n >= 0
    {
      for i := 0 to |lengths|
        invariant forall k | 0 <= k < i :: lengths[k] >= 0
      {
        if lengths[i] < 0 {
          assert lengths[i] in lengths;
          return false;
        }
      }
      return true;
    }

    /** Writes across file boundaries by declared length.  On the flat array a successful call is
        one overwrite; data beyond the last file is dropped. */
    method WritePiece(index: int, offset: int, data: seq<byte>, fault: Fault) returns (ok: bool)
      modifies `files
      ensures var r := WriteFiles(old(files), Int64(index * pieceSize + offset), data, fault);
              files == r.files && ok == r.ok
      ensures var p := Int64(index * pieceSize + offset);
              p >= 0 && ok ==> Flat(files) == Overwrite(Flat(old(files)), p, data)
    {
      var pieceOffset := Int64(index * pieceSize + offset);
      WriteFlat(files, pieceOffset, data, fault);
      ghost var r := WriteFrom(files, 0, pieceOffset, data, fault);
      var remaining := data;
      for i := 0 to |files|
        invariant |files| == |old(files)|
        invariant r == WriteFrom(files, i, pieceOffset, remaining, fault)
      {
        var f := files[i];
        if pieceOffset >= f.length {
          pieceOffset := pieceOffset - f.length;
          continue;
        }
        if pieceOffset < 0 {
          return false;
        }
        var sent := Portion(f.length, pieceOffset, remaining, Cut(fault, i));
        files := files[i := Put(f, pieceOffset, sent)];
        if Cut(fault, i).Some? {
          return false;
        }
        remaining := remaining[|sent|..];
        if |remaining| == 0 {
          return true;
        }
        pieceOffset := 0;
      }
      return true;
    }

    /** Reads across file boundaries by stored size, which gives a range of the raw bytes. */
    method ReadPiece(index: int, begin: int, length: nat, fault: Option<nat>)
      returns (r: Option<seq<byte>>)
      ensures r == ReadFiles(files, Int64(index * pieceSize + begin), length, fault)
      ensures var p := Int64(index * pieceSize + begin);
              p >= 0 && r.Some? ==> r.value == Slice(Raw(files), p, length)
    {
      var offset := Int64(index * pieceSize + begin);
      ReadFlat(files, offset, length, fault);
      ghost var was := ReadFrom(files, 0, offset, [], length, fault);
      var data: seq<byte> := [];
      for i := 0 to |files|
        invariant |data| <= length
        invariant was == ReadFrom(files, i, offset, data, length, fault)
      {
        if fault == Some(i) {
          return None;
        }
        var size := |files[i].content|;
        if offset >= size {
          offset := offset - size;
          continue;
        }
        if offset < 0 {
          return None;
        }
        data := data + Got(files[i].content, offset, length - |data|);
        if |data| == length {
          return Some(data);
        }
        offset := 0;
      }
      return Some(data);
    }
  }

  /** The write loop from file i on, as it changes the list of files. */
  ghost function WriteFrom(fs: seq<File>, i: nat, off: int, data: seq<byte>, fault: Fault): (seq<File>, bool)
    requires i <= |fs|
    decreases |fs| - i
  {
    if i == |fs| then (fs, true)
    else if off >= fs[i].length then WriteFrom(fs, i + 1, off - fs[i].length, data, fault)
    else if off < 0 then (fs, false)
    else
      var sent := Portion(fs[i].length, off, data, Cut(fault, i));
      var gs := fs[i := Put(fs[i], off, sent)];
      if Cut(fault, i).Some? || |sent| == |data| then (gs, Cut(fault, i).None?)
      else WriteFrom(gs, i + 1, 0, data[|sent|..], fault)
  }

  /** The loop leaves files before i alone and walks the rest. */
  lemma {:induction false} WriteFromWalks(fs: seq<File>, i: nat, off: int, data: seq<byte>, fault: Fault)
    requires i <= |fs|
    ensures var r := WriteFiles(fs[i..], off, data, Later(fault, i));
            WriteFrom(fs, i, off, data, fault) == (fs[..i] + r.files, r.ok)
    decreases |fs| - i
  {
    hide Portion, Put;
    if i == |fs| {
      assert fs[..i] + [] == fs;
    } else {
      var f, later := fs[i], Later(fault, i);
      assert fs[i..][0] == f && fs[i..][1..] == fs[i + 1..];
      assert Cut(later, 0) == Cut(fault, i) && Later(later, 1) == Later(fault, i + 1);
      if off >= f.length {
        WriteFromWalks(fs, i + 1, off - f.length, data, fault);
        Regroup(fs, i, f, WriteFiles(fs[i + 1..], off - f.length, data, Later(fault, i + 1)).files);
      } else if off < 0 {
        assert fs == fs[..i] + fs[i..];
      } else {
        var sent := Portion(f.length, off, data, Cut(fault, i));
        var g := Put(f, off, sent);
        if Cut(fault, i).None? && |sent| < |data| {
          WriteFromWalks(fs[i := g], i + 1, 0, data[|sent|..], fault);
          Regroup(fs, i, g, WriteFiles(fs[i + 1..], 0, data[|sent|..], Later(fault, i + 1)).files);
        } else {
          Regroup(fs, i, g, fs[i + 1..]);
        }
      }
    }
  }

  lemma Regroup(fs: seq<File>, i: nat, g: File, tail: seq<File>)
    requires i < |fs|
    ensures fs[i := g][..i + 1] + tail == fs[..i] + ([g] + tail)
    ensures fs[i := g][i + 1..] == fs[i + 1..]
    ensures fs[i := g] == fs[i := g][..i + 1] + fs[i + 1..]
    ensures g == fs[i] ==> fs[i := g] == fs
  {
  }

  /** The read loop from file i on, with the bytes read so far. */
  ghost function ReadFrom(
    fs: seq<File>, i: nat, off: int, data: seq<byte>, length: nat, fault: Option<nat>): Option<seq<byte>>
    requires i <= |fs| && |data| <= length
    decreases |fs| - i
  {
    if i == |fs| then Some(data)
    else if fault == Some(i) then None
    else
      var size := |fs[i].content|;
      if off >= size then ReadFrom(fs, i + 1, off - size, data, length, fault)
      else if off < 0 then None
      else
        var more := data + Got(fs[i].content, off, length - |data|);
        if |more| == length then Some(more) else ReadFrom(fs, i + 1, 0, more, length, fault)
  }

  lemma {:induction false} ReadFromWalks(
    fs: seq<File>, i: nat, off: int, data: seq<byte>, length: nat, fault: Option<nat>)
    requires i <= |fs| && |data| <= length
    ensures var r := ReadFiles(fs[i..], off, length - |data|, BackBy(fault, i));
            ReadFrom(fs, i, off, data, length, fault) == if r.Some? then Some(data + r.value) else None
    decreases |fs| - i
  {
    hide Got;
    if i == |fs| {
      assert data + [] == data;
    } else if fault != Some(i) {
      var f := fs[i];
      assert fs[i..][0] == f && fs[i..][1..] == fs[i + 1..];
      assert BackBy(BackBy(fault, i), 1) == BackBy(fault, i + 1);
      var size := |f.content|;
      if off >= size {
        ReadFromWalks(fs, i + 1, off - size, data, length, fault);
      } else if off >= 0 {
        var got := Got(f.content, off, length - |data|);
        if |data| + |got| < length {
          ReadFromWalks(fs, i + 1, 0, data + got, length, fault);
          var r := ReadFiles(fs[i + 1..], 0, length - |data + got|, BackBy(fault, i + 1));
          if r.Some? {
            assert (data + got) + r.value == data + (got + r.value);
          }
        }
      }
    }
  }

  lemma ReadFlat(fs: seq<File>, p: int, n: nat, fault: Option<nat>)
    ensures ReadFrom(fs, 0, p, [], n, fault) == ReadFiles(fs, p, n, fault)
    ensures var r := ReadFiles(fs, p, n, fault);
            p >= 0 && r.Some? ==> r.value == Slice(Raw(fs), p, n)
  {
    hide ReadFrom, ReadFiles, Slice;
    ReadFromWalks(fs, 0, p, [], n, fault);
    assert fs[0..] == fs;
    var r := ReadFiles(fs, p, n, fault);
    if r.Some? {
      assert [] + r.value == r.value;
    }
    if p >= 0 {
      ReadRefinesSlice(fs, p, n, fault);
    }
  }

  lemma WriteFlat(fs: seq<File>, p: int, data: seq<byte>, fault: Fault)
    ensures var r := WriteFiles(fs, p, data, fault);
            WriteFrom(fs, 0, p, data, fault) == (r.files, r.ok)
    ensures var r := WriteFiles(fs, p, data, fault);
            p >= 0 && r.ok ==> Flat(r.files) == Overwrite(Flat(fs), p, data)
  {
    hide WriteFrom, WriteFiles, Overwrite, Slice, Flat;
    var r := WriteFiles(fs, p, data, fault);
    WriteFromWalks(fs, 0, p, data, fault);
    assert fs[0..] == fs && fs[..0] + r.files == r.files;
    if p >= 0 && r.ok {
      WriteRefinesOverwrite(fs, p, data, fault);
      WriteStoresAllThatFits(fs, p, data, fault);
      OverwriteThenSlice(Flat(fs), p, data, r.stored);
    }
  }
}
