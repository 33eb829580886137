/** The parsed description of a torrent, and how its pieces lie in the stored data. */
module MetaInfos {
  import opened Bytes

  datatype FileEntry = FileEntry(length: int, path: seq<seq<byte>>)

  datatype MetaInfo = MetaInfo(
    pieceLength: int, pieces: seq<byte>, name: seq<byte>, length: int, files: seq<FileEntry>)
  {
    /** Twenty bytes of hash for each piece. */
    function NumPieces(): (n: nat)
      ensures 20 * n <= |pieces| < 20 * n + 20
    {
      |pieces| / 20
    }

    /** The hash of one piece; out of range is an error. */
    function PieceHash(index: int): (r: Option<seq<byte>>)
      ensures r.Some? <==> 0 <= index < NumPieces()
      ensures r.Some? ==> |r.value| == 20
                          && forall k | 0 <= k < 20 :: r.value[k] == pieces[20 * index + k]
    {
      if index < 0 || index >= NumPieces() then None
      else Some(pieces[index * 20..index * 20 + 20])
    }

    /** The info dictionary can be encoded, and so hashed: a list of file entries cannot, because
        the encoder takes no structs. */
    predicate HasInfoHash() {
      length > 0 || files == []
    }

    /** The length of a single file if one is given, else that of all files together, in int64. */
    function TotalLength(): int {
      if length > 0 then length else Int64(Sum(LengthsOf(files)))
    }

    function PieceLengthAt(index: int): int {
      if pieceLength == 0 then 0
      else if index == NumPieces() - 1 then Rem(TotalLength(), pieceLength)
      else pieceLength
    }

    /** What SetFileManager passes to the file manager: the files, or the one file named by the
        torrent. */
    function FileLengths(): seq<int> {
      if files == [] then [length] else LengthsOf(files)
    }
  }

  function LengthsOf(files: seq<FileEntry>): seq<int> {
    seq(|files|, i requires 0 <= i < |files| => files[i].length)
  }

  function Sum(ls: seq<int>): int {
    if ls == [] then 0 else Sum(ls[..|ls| - 1]) + ls[|ls| - 1]
  }

  /** The accumulation in TotalLength. */
  method TotalLength(m: MetaInfo) returns (total: int)
    ensures total == m.TotalLength()
    ensures m.length > 0 ==> total == m.length
    ensures m.length <= 0 && 0 <= Sum(LengthsOf(m.files)) <= MAX_INT64 ==> total == Sum(LengthsOf(m.files))
  {
    if m.length > 0 {
      return m.length;
    }
    total := 0;
    ghost var ls := LengthsOf(m.files);
    for i := 0 to |m.files|
      invariant total == Int64(Sum(ls[..i]))
    {
      Int64Absorbs(Sum(ls[..i]), ls[i]);
      assert ls[..i + 1][..i] == ls[..i];
      total := Int64(total + m.files[i].length);
    }
    assert ls[..|m.files|] == ls;
  }

  /** The metainfo of a well-made torrent: positive lengths, and a hash for every started piece. */
  predicate Regular(m: MetaInfo) {
    m.pieceLength > 0 && 0 < m.TotalLength() <= MAX_INT64
    && m.NumPieces() == (m.TotalLength() + m.pieceLength - 1) / m.pieceLength
  }

  function SumOfPieces(m: MetaInfo, n: nat): int {
    if n == 0 then 0 else SumOfPieces(m, n - 1) + m.PieceLengthAt(n - 1)
  }

  lemma CeilDiv(t: int, p: int)
    requires t > 0 && p > 0
    ensures var n := (t + p - 1) / p;
            && n >= 1 && (n - 1) * p < t <= n * p
            && (t % p != 0 ==> (n - 1) * p == t - t % p)
            && (t % p == 0 ==> n * p == t)
  {
    var n, r := (t + p - 1) / p, (t + p - 1) % p;
    var q, s := t / p, t % p;
    assert n * p + r == t + p - 1 && q * p + s == t;
    assert (n - 1) * p == n * p - p;
    if n < 1 {
      MulMonotone(p, n, 0);
    }
    SameMultiple(p, n, if s == 0 then q else q + 1);
    assert (q + 1) * p == q * p + p;
  }

  lemma SameMultiple(p: int, a: int, b: int)
    requires p > 0 && -p < a * p - b * p < p
    ensures a == b
  {
    assert (a + 1) * p == a * p + p && (b + 1) * p == b * p + p;
    if a < b {
      MulMonotone(p, a + 1, b);
    } else if b < a {
      MulMonotone(p, b + 1, a);
    }
  }

  lemma MulMonotone(p: int, a: int, b: int)
    requires p >= 0 && a <= b
    ensures a * p <= b * p
  {
  }

  ghost predicate InPiece(m: MetaInfo, i: int, x: int) {
    i * m.pieceLength <= x < i * m.pieceLength + m.PieceLengthAt(i)
  }

  ghost predicate Covered(m: MetaInfo, x: int) {
    exists i :: 0 <= i < m.NumPieces() && InPiece(m, i, x)
  }

  /** Where the last piece starts and ends. */
  lemma LastPiece(m: MetaInfo)
    requires Regular(m)
    ensures var n, p, t := m.NumPieces(), m.pieceLength, m.TotalLength();
            && p > 0 && n >= 1 && (n - 1) * p < t && m.PieceLengthAt(n - 1) == t % p
            && (t % p != 0 ==> (n - 1) * p + t % p == t)
            && (t % p == 0 ==> (n - 1) * p == t - p)
  {
    var n, p, t := m.NumPieces(), m.pieceLength, m.TotalLength();
    CeilDiv(t, p);
    assert (n - 1) * p == n * p - p;
  }

  /** Pieces lie in order inside the data and do not overlap. */
  lemma PiecesAreDisjoint(m: MetaInfo, i: int, j: int)
    requires Regular(m) && 0 <= i < j < m.NumPieces()
    ensures 0 <= i * m.pieceLength
    ensures i * m.pieceLength + m.PieceLengthAt(i) <= j * m.pieceLength
    ensures j * m.pieceLength + m.PieceLengthAt(j) <= m.TotalLength()
    ensures m.PieceLengthAt(i) == m.pieceLength
  {
    var p := m.pieceLength;
    LastPiece(m);
    MulMonotone(p, 0, i);
    MulMonotone(p, i + 1, j);
    assert (i + 1) * p == i * p + p;
    if j < m.NumPieces() - 1 {
      MulMonotone(p, j + 1, m.NumPieces() - 1);
      assert (j + 1) * p == j * p + p;
    }
  }

  lemma {:induction false} SumOfFullPieces(m: MetaInfo, n: nat)
    requires m.pieceLength != 0 && n < m.NumPieces()
    ensures SumOfPieces(m, n) == n * m.pieceLength
  {
    if n > 0 {
      SumOfFullPieces(m, n - 1);
      assert n * m.pieceLength == (n - 1) * m.pieceLength + m.pieceLength;
    }
  }

  /** The piece lengths add up to the total length, or to one piece less when the piece length
      divides it: the last piece is then given length zero. */
  lemma SumOfAllPieces(m: MetaInfo)
    requires Regular(m)
    ensures SumOfPieces(m, m.NumPieces())
         == m.TotalLength() - if m.TotalLength() % m.pieceLength == 0 then m.pieceLength else 0
  {
    LastPiece(m);
    SumOfFullPieces(m, m.NumPieces() - 1);
  }

  /** Every byte lies in a piece exactly when the piece length does not divide the total. */
  lemma PiecesCoverExactlyWhenNotDivisible(m: MetaInfo)
    requires Regular(m)
    ensures (forall x :: 0 <= x < m.TotalLength() ==> Covered(m, x))
       <==> m.TotalLength() % m.pieceLength != 0
  {
    var n, p, t := m.NumPieces(), m.pieceLength, m.TotalLength();
    LastPiece(m);
    if t % p != 0 {
      forall x | 0 <= x < t
        ensures Covered(m, x)
      {
        PieceOf(m, x);
        assert InPiece(m, x / p, x);
      }
    } else {
      var x := t - 1;
      assert !Covered(m, x) by {
        forall i | 0 <= i < n && InPiece(m, i, x)
          ensures false
        {
          if i < n - 1 {
            PiecesAreDisjoint(m, i, n - 1);
          }
        }
      }
    }
  }

  lemma PieceOf(m: MetaInfo, x: int)
    requires Regular(m) && m.TotalLength() % m.pieceLength != 0 && 0 <= x < m.TotalLength()
    ensures 0 <= x / m.pieceLength < m.NumPieces()
    ensures InPiece(m, x / m.pieceLength, x)
  {
    hide Regular;
    var n, p := m.NumPieces(), m.pieceLength;
    LastPiece(m);
    var q := x / p;
    assert q * p + x % p == x;
    assert n * p == (n - 1) * p + p;
    if q >= n {
      MulMonotone(p, n, q);
    }
  }
}
