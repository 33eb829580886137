/** How pieces lie in the store, and when a download completes. */
module Convergence {
  import opened Bytes
  import opened FlatStore
  import opened Landing
  import opened MetaInfos
  import opened Wire
  import opened Engine
  import opened Safety

  /** The pieces a new torrent is given. */
  function ConfigOf(m: MetaInfo, sha1: seq<byte> -> seq<byte>): (c: Config)
    ensures c.sha1 == sha1 && c.pieceSize == m.pieceLength && |c.pieces| == m.NumPieces()
    ensures forall i: nat | i < |c.pieces| :: c.pieces[i] == Piece(m.PieceHash(i).value, m.PieceLengthAt(i))
  {
    Config(sha1, m.pieceLength,
           seq(m.NumPieces(), i requires 0 <= i < m.NumPieces() =>
             Piece(m.PieceHash(i).value, m.PieceLengthAt(i))))
  }

  function Start(c: Config, i: nat): int {
    i * c.pieceSize
  }

  /** Pieces lie in order, without overlap, in a store of the given size. */
  ghost predicate Laid(c: Config, size: nat) {
    && size <= MAX_INT64 && c.pieceSize >= 0
    && (forall i: nat | i < |c.pieces| ::
          0 <= c.pieces[i].length && Start(c, i) + c.pieces[i].length <= size)
    && (forall i: nat, j: nat | i < j < |c.pieces| ::
          Start(c, i) + c.pieces[i].length <= Start(c, j))
  }

  lemma RegularIsLaid(m: MetaInfo, sha1: seq<byte> -> seq<byte>)
    requires Regular(m)
    ensures Laid(ConfigOf(m, sha1), m.TotalLength())
  {
    var c := ConfigOf(m, sha1);
    forall i: nat | i < |c.pieces|
      ensures 0 <= c.pieces[i].length && Start(c, i) + c.pieces[i].length <= m.TotalLength()
    {
      LastPiece(m);
      if i < |c.pieces| - 1 {
        PiecesAreDisjoint(m, i, |c.pieces| - 1);
      }
    }
    forall i: nat, j: nat | i < j < |c.pieces|
      ensures Start(c, i) + c.pieces[i].length <= Start(c, j)
    {
      PiecesAreDisjoint(m, i, j);
    }
  }

  lemma LaidOffset(c: Config, size: nat, i: nat, begin: nat)
    requires Laid(c, size) && i < |c.pieces| && begin <= c.pieces[i].length
    ensures Offset(c, i, begin) == Start(c, i) + begin >= 0
  {
    hide Int64;
    MulMonotone(c.pieceSize, 0, i);
    assert Start(c, i) + c.pieces[i].length <= size;
    Int64InRange(i * c.pieceSize + begin);
  }

  /** The block ends within the piece it names. */
  predicate Inside(c: Config, e: Event) {
    e.Block? && Accepts(c, e.payload) ==>
      Field(e.payload, 1) + (|e.payload| - 8) <= c.pieces[Field(e.payload, 0)].length
  }

  lemma InsideIsConfined(c: Config, size: nat, e: Event)
    requires Laid(c, size) && Inside(c, e)
    ensures Confined(c, size, e)
  {
    hide Field, Offset, Laid, Start;
    if e.Block? && Accepts(c, e.payload) {
      var i, begin, n := Field(e.payload, 0), Field(e.payload, 1), |e.payload| - 8;
      LaidOffset(c, size, i, begin);
      forall j: nat | j < |c.pieces| && j != i
        ensures Apart(Offset(c, i, begin), n, Offset(c, j, 0), c.pieces[j].length, size)
      {
        LaidApart(c, size, i, j);
        LaidLength(c, size, j);
        LaidOffset(c, size, j, 0);
      }
    }
  }

  lemma LaidApart(c: Config, size: nat, i: nat, j: nat)
    requires Laid(c, size) && i < |c.pieces| && j < |c.pieces| && i != j
    ensures Start(c, i) + c.pieces[i].length <= Start(c, j)
         || Start(c, j) + c.pieces[j].length <= Start(c, i)
  {
  }

  lemma LaidLength(c: Config, size: nat, i: nat)
    requires Laid(c, size) && i < |c.pieces|
    ensures 0 <= c.pieces[i].length && Start(c, i) + c.pieces[i].length <= size
  {
  }

  // ----- completing -----

  /** A flagged piece stays flagged, and its bytes are not written by its own blocks. */
  lemma {:induction false} FlagsStay(c: Config, s: State, es: seq<Event>, i: nat)
    requires Consistent(c, s) && i < |c.pieces| && s.flags[i]
    ensures Run(c, s, es).flags[i]
    decreases |es|
  {
    hide Step;
    if es != [] {
      StepWrites(c, s, es[0]);
      FlagsStay(c, Step(c, s, es[0]), es[1..], i);
    }
  }

  /** Piece i sent as one whole block, met by no I/O error. */
  function Delivery(i: nat, content: seq<byte>): Event
    requires i < TWO_TO_THE_32
  {
    Block(PiecePayload(i, 0, content), NoFault, None)
  }

  /** The true content of piece i. */
  ghost predicate Genuine(c: Config, i: nat, content: seq<byte>) {
    i < |c.pieces| && |content| == c.pieces[i].length && c.sha1(content) == c.pieces[i].hash
  }

  /** Files of the right total length in which a delivered piece will be found again. */
  ghost predicate Sized(files: seq<File>, size: nat) {
    Bounded(files) && |Flat(files)| == size
  }

  /** A piece's true content arriving whole is accepted, if every file that ends at or before the
      piece's start is full; an empty piece needs no such files. */
  lemma DeliveryFlags(c: Config, s: State, i: nat, content: seq<byte>, size: nat)
    requires Consistent(c, s) && Sized(s.files, size) && Laid(c, size)
    requires i < TWO_TO_THE_32 && Genuine(c, i, content)
    requires content == [] || FullBefore(s.files, Start(c, i))
    ensures Step(c, s, Delivery(i, content)).flags[i]
  {
    hide Flat, Bounded, WriteFiles, ReadFiles, FullBefore, PiecePayload, Offset, Laid;
    PieceFieldsRecovered(i, 0, content);
    LaidOffset(c, size, i, 0);
    LaidLength(c, size, i);
    var p := Offset(c, i, 0);
    WriteStoresAllThatFits(s.files, p, content, NoFault);
    var w := WriteFiles(s.files, p, content, NoFault);
    if content == [] {
      NothingReadIsEmpty(w.files, p, None);
      ReadRefinesSlice(w.files, p, 0, None);
    } else {
      ReadsBackWhenFullBefore(s.files, p, content);
    }
    assert Verifies(c, w.files, i, None);
  }

  /** Every content a piece might have is accepted on delivery exactly when every file that ends at
      or before the piece's start is full. */
  lemma DeliveriesFlagExactlyWhenFullBefore(c: Config, s: State, i: nat, size: nat)
    requires Consistent(c, s) && Sized(s.files, size) && Laid(c, size)
    requires i < |c.pieces| && i < TWO_TO_THE_32 && c.pieces[i].length > 0 && !s.flags[i]
    ensures (forall content: seq<byte> | |content| == c.pieces[i].length ::
               Step(Recognising(c, content), s, Delivery(i, content)).flags[i])
       <==> FullBefore(s.files, Start(c, i))
  {
    hide Step, Flat, Bounded, WriteFiles, ReadFiles, FullBefore, ReadsBack, Delivery, Laid, Offset, Recognising;
    var n := c.pieces[i].length;
    LaidOffset(c, size, i, 0);
    LaidLength(c, size, i);
    forall content: seq<byte> | |content| == n
      ensures Step(Recognising(c, content), s, Delivery(i, content)).flags[i]
         <==> ReadsBack(s.files, Start(c, i), content)
    {
      FlaggedExactlyWhenReadBack(c, s, i, content, size);
    }
    AllReadBackExactlyWhenFullBefore(s.files, Start(c, i), n);
  }

  lemma FlaggedExactlyWhenReadBack(c: Config, s: State, i: nat, content: seq<byte>, size: nat)
    requires Consistent(c, s) && Sized(s.files, size) && Laid(c, size)
    requires i < |c.pieces| && i < TWO_TO_THE_32 && |content| == c.pieces[i].length && !s.flags[i]
    requires Start(c, i) >= 0
    ensures Step(Recognising(c, content), s, Delivery(i, content)).flags[i]
       <==> ReadsBack(s.files, Start(c, i), content)
  {
    hide Flat, Bounded, WriteFiles, ReadFiles, PiecePayload, Laid, Int64;
    PieceFieldsRecovered(i, 0, content);
    LaidOffset(c, size, i, 0);
    var p := Start(c, i);
    WriteStoresAllThatFits(s.files, p, content, NoFault);
    var files := WriteFiles(s.files, p, content, NoFault).files;
    ReadRefinesSlice(files, p, |content|, None);
  }

  /** In files like these every piece will be found where it is written. */
  ghost predicate Findable(c: Config, files: seq<File>, size: nat) {
    Sized(files, size)
    && forall i: nat | i < |c.pieces| && c.pieces[i].length > 0 :: FullBefore(files, Start(c, i))
  }

  lemma FilledIsFindable(c: Config, files: seq<File>, size: nat)
    requires Filled(files, size)
    ensures Findable(c, files, size)
  {
    hide Flat, FullBefore;
    forall i: nat | i < |c.pieces|
      ensures FullBefore(files, Start(c, i))
    {
      FullIsFullBefore(files, Start(c, i));
    }
  }

  /** A single file makes every piece findable, even when nothing is stored in it yet. */
  lemma SingleFileIsFindable(c: Config, f: File, size: nat)
    requires Laid(c, size) && f.length == size && |f.content| <= size
    ensures Findable(c, [f], size)
  {
    assert [f][1..] == [];
    assert Flat([f]) == Pad(f) + [];
    forall i: nat | i < |c.pieces| && c.pieces[i].length > 0
      ensures FullBefore([f], Start(c, i))
    {
      LaidLength(c, size, i);
    }
  }

  lemma StepKeepsFindable(c: Config, s: State, e: Event, size: nat)
    requires Consistent(c, s) && Findable(c, s.files, size)
    ensures Findable(c, Step(c, s, e).files, size)
  {
    hide Step, Flat, Bounded, FullBefore, WriteFiles, Lengths, Offset;
    StepWrites(c, s, e);
    if e.Block? && Accepts(c, e.payload) && !s.flags[Field(e.payload, 0)] {
      var p, data := Offset(c, Field(e.payload, 0), Field(e.payload, 1)), e.payload[8..];
      WriteKeepsSize(s.files, p, data, e.write);
      WriteKeepsFull(s.files, p, data, e.write);
      forall i: nat | i < |c.pieces| && c.pieces[i].length > 0
        ensures FullBefore(Step(c, s, e).files, Start(c, i))
      {
        WriteKeepsFullBefore(s.files, p, data, e.write, Start(c, i));
      }
    }
  }

  lemma {:induction false} DeliveredStaysFlagged(
    c: Config, s: State, es: seq<Event>, k: nat, i: nat, content: seq<byte>, size: nat)
    requires Consistent(c, s) && Findable(c, s.files, size) && Laid(c, size)
    requires i < TWO_TO_THE_32 && Genuine(c, i, content)
    requires k < |es| && es[k] == Delivery(i, content)
    ensures Run(c, s, es).flags[i]
    decreases |es|
  {
    hide Step, Sized, Laid, Delivery;
    if k == 0 {
      DeliveryFlags(c, s, i, content, size);
      FlagsStay(c, Step(c, s, es[0]), es[1..], i);
    } else {
      StepKeepsFindable(c, s, es[0], size);
      DeliveredStaysFlagged(c, Step(c, s, es[0]), es[1..], k - 1, i, content, size);
    }
  }

  /** A run in which each piece's true content arrives once as a whole block ends complete, whatever
      else arrives in between, inside or outside the pieces. */
  lemma Converges(c: Config, s: State, es: seq<Event>, contents: seq<seq<byte>>, size: nat)
    requires Consistent(c, s) && Findable(c, s.files, size) && Laid(c, size)
    requires |c.pieces| == |contents| <= TWO_TO_THE_32
    requires forall i: nat | i < |contents| :: Genuine(c, i, contents[i]) && Delivery(i, contents[i]) in es
    ensures IsComplete(Run(c, s, es))
  {
    hide Run, Findable, Laid, Genuine, Delivery;
    forall i: nat | i < |c.pieces|
      ensures Run(c, s, es).flags[i]
    {
      assert Delivery(i, contents[i]) in es;
      var k :| 0 <= k < |es| && es[k] == Delivery(i, contents[i]);
      DeliveredStaysFlagged(c, s, es, k, i, contents[i], size);
    }
  }

  /** Once complete, no event changes a stored byte or a flag. */
  lemma {:induction false} CompleteIsFinal(c: Config, s: State, es: seq<Event>)
    requires Consistent(c, s) && IsComplete(s)
    ensures Run(c, s, es).files == s.files && Run(c, s, es).flags == s.flags
    decreases |es|
  {
    hide Step;
    if es != [] {
      StepWrites(c, s, es[0]);
      CompleteIsFinal(c, Step(c, s, es[0]), es[1..]);
    }
  }

  // ----- the final content -----

  /** The bytes of piece i in the original data. */
  function Original(m: MetaInfo, data: seq<byte>, i: nat): seq<byte> {
    Slice(data, i * m.pieceLength, m.PieceLengthAt(i))
  }

  /** The hashes are those of the data, and no other bytes of the same length share one. */
  ghost predicate Identifies(m: MetaInfo, sha1: seq<byte> -> seq<byte>, data: seq<byte>) {
    forall i: nat, d: seq<byte> | i < m.NumPieces() && |d| == m.PieceLengthAt(i) ::
      sha1(d) == m.PieceHash(i).value <==> d == Original(m, data, i)
  }

  /** A run of confined blocks that starts unflagged and ends complete leaves exactly the original
      data in the files, if the hashes identify it and the last piece is not cut to nothing. */
  lemma CompleteRunReproducesData(
    m: MetaInfo, sha1: seq<byte> -> seq<byte>, s: State, es: seq<Event>, data: seq<byte>)
    requires Regular(m) && m.TotalLength() % m.pieceLength != 0 && |data| == m.TotalLength()
    requires Identifies(m, sha1, data)
    requires Consistent(ConfigOf(m, sha1), s) && Filled(s.files, |data|)
    requires forall i | 0 <= i < |s.flags| :: !s.flags[i]
    requires forall e <- es :: Confined(ConfigOf(m, sha1), |data|, e)
    requires IsComplete(Run(ConfigOf(m, sha1), s, es))
    ensures Flat(Run(ConfigOf(m, sha1), s, es).files) == data
  {
    hide Run, Flat, Full, Confined, Slice, Laid, Holds, Identifies;
    var c := ConfigOf(m, sha1);
    var files := Run(c, s, es).files;
    RunIsSafe(c, s, es, |data|);
    CompleteRunIsVerified(c, s, es, |data|);
    forall x | 0 <= x < |data|
      ensures Flat(files)[x] == data[x]
    {
      PieceOf(m, x);
      assert Holds(c, files, x / m.pieceLength);
      PieceHoldsData(m, sha1, files, data, x / m.pieceLength, x);
    }
  }

  lemma PieceHoldsData(
    m: MetaInfo, sha1: seq<byte> -> seq<byte>, files: seq<File>, data: seq<byte>, i: nat, x: nat)
    requires Regular(m) && i < m.NumPieces() && InPiece(m, i, x)
    requires Identifies(m, sha1, data) && Filled(files, |data|) && |data| == m.TotalLength()
    requires Holds(ConfigOf(m, sha1), files, i)
    ensures x < |data| && Flat(files)[x] == data[x]
  {
    hide Flat, Full, Slice, Laid, Int64, Offset, Regular;
    var c := ConfigOf(m, sha1);
    RegularIsLaid(m, sha1);
    LaidOffset(c, |data|, i, 0);
    LaidLength(c, |data|, i);
    SliceAt(Flat(files), data, Start(c, i), c.pieces[i].length, x);
    assert Stored(c, files, i) == Slice(Flat(files), Start(c, i), c.pieces[i].length);
  }

  lemma SliceAt(a: seq<byte>, b: seq<byte>, p: nat, n: nat, x: nat)
    requires |a| == |b| && p <= x < p + n <= |a|
    ensures |Slice(a, p, n)| == n
    ensures Slice(a, p, n) == Slice(b, p, n) ==> a[x] == b[x]
  {
    assert x < |a| ==> Slice(a, p, n)[x - p] == a[x] && Slice(b, p, n)[x - p] == b[x];
  }

  // ----- the last piece of a divisible torrent -----

  lemma {:induction false} NothingReadIsEmpty(fs: seq<File>, p: int, fault: Option<nat>)
    ensures var r := ReadFiles(fs, p, 0, fault); r.Some? ==> r.value == []
    decreases |fs|
  {
    if fs != [] && p >= |fs[0].content| {
      NothingReadIsEmpty(fs[1..], p - |fs[0].content|, BackBy(fault, 1));
    }
  }

  /** Whatever arrives, a piece of length zero is flagged only if its hash is that of no bytes. */
  lemma {:induction false} ZeroLengthPieceNeedsEmptyHash(c: Config, s: State, es: seq<Event>, i: nat)
    requires Consistent(c, s) && i < |c.pieces| && c.pieces[i].length == 0
    requires !s.flags[i] && Run(c, s, es).flags[i]
    ensures c.sha1([]) == c.pieces[i].hash
    decreases |es|
  {
    hide Step, ReadFiles, WriteFiles, Offset;
    if es != [] {
      var t := Step(c, s, es[0]);
      StepWrites(c, s, es[0]);
      if t.flags[i] {
        NothingReadIsEmpty(t.files, Offset(c, i, 0), es[0].read);
      } else {
        ZeroLengthPieceNeedsEmptyHash(c, t, es[1..], i);
      }
    }
  }

  /** The metainfo's hashes are those of the data's consecutive blocks of one piece length, the last
      one as long as the data reaches. */
  ghost predicate Honest(m: MetaInfo, sha1: seq<byte> -> seq<byte>, data: seq<byte>) {
    |data| == m.TotalLength() &&
    forall i: nat | i < m.NumPieces() ::
      m.PieceHash(i).value == sha1(Slice(data, i * m.pieceLength, m.pieceLength))
  }

  ghost predicate CanComplete(c: Config, s: State)
    requires Consistent(c, s)
  {
    exists es :: IsComplete(Run(c, s, es))
  }

  /** A download of honest data can complete exactly when the piece length does not divide the total
      length, or the hash of the last block is also the hash of no bytes at all. */
  lemma CanCompleteExactlyWhenLastPieceCan(
    m: MetaInfo, sha1: seq<byte> -> seq<byte>, s: State, data: seq<byte>)
    requires Regular(m) && Honest(m, sha1, data) && m.NumPieces() <= TWO_TO_THE_32
    requires Consistent(ConfigOf(m, sha1), s) && Findable(ConfigOf(m, sha1), s.files, |data|)
    requires forall i | 0 <= i < |s.flags| :: !s.flags[i]
    ensures CanComplete(ConfigOf(m, sha1), s)
       <==> (m.TotalLength() % m.pieceLength != 0
             || sha1([]) == sha1(Slice(data, (m.NumPieces() - 1) * m.pieceLength, m.pieceLength)))
  {
    hide Run, Findable, Slice, Laid, Delivery, Genuine;
    var c, n := ConfigOf(m, sha1), m.NumPieces();
    LastPiece(m);
    if m.TotalLength() % m.pieceLength != 0
       || sha1([]) == sha1(Slice(data, (n - 1) * m.pieceLength, m.pieceLength)) {
      var contents := seq(n, i requires 0 <= i < n => Original(m, data, i));
      var es := seq(n, i requires 0 <= i < n => Delivery(i, contents[i]));
      RegularIsLaid(m, sha1);
      forall i: nat | i < n
        ensures Genuine(c, i, contents[i]) && Delivery(i, contents[i]) in es
      {
        OriginalIsGenuine(m, sha1, data, i);
        assert es[i] == Delivery(i, contents[i]);
      }
      Converges(c, s, es, contents, |data|);
      assert IsComplete(Run(c, s, es));
    } else {
      forall es | IsComplete(Run(c, s, es))
        ensures false
      {
        ZeroLengthPieceNeedsEmptyHash(c, s, es, n - 1);
      }
    }
  }

  lemma OriginalIsGenuine(m: MetaInfo, sha1: seq<byte> -> seq<byte>, data: seq<byte>, i: nat)
    requires Regular(m) && Honest(m, sha1, data) && i < m.NumPieces()
    requires m.TotalLength() % m.pieceLength != 0
          || sha1([]) == sha1(Slice(data, (m.NumPieces() - 1) * m.pieceLength, m.pieceLength))
    ensures Genuine(ConfigOf(m, sha1), i, Original(m, data, i))
  {
    hide Slice, Regular;
    var n, p := m.NumPieces(), m.pieceLength;
    LastPiece(m);
    MulMonotone(p, 0, i);
    if i < n - 1 {
      PiecesAreDisjoint(m, i, n - 1);
      ClippedSlice(data, i * p, p, p);
    } else {
      ClippedSlice(data, i * p, m.PieceLengthAt(i), p);
    }
  }

  lemma ClippedSlice(a: seq<byte>, p: nat, n: nat, k: nat)
    requires p + n <= |a| && n <= k
    ensures |Slice(a, p, n)| == n
    ensures n == k || p + n == |a| ==> Slice(a, p, n) == Slice(a, p, k)
    ensures n == 0 ==> Slice(a, p, n) == []
  {
  }

  // ----- files that are not full -----

  /** Without full files, genuine content can be refused: of a three-byte torrent kept in files of
      one and two bytes that start empty, the last piece arrives first, is written in its place, and
      fails verification because it is read from elsewhere. */
  lemma EmptyFilesRefuseGenuinePiece(c: Config, x: byte)
    requires c.pieceSize == 2 && |c.pieces| == 2 && c.pieces[0].length == 2
    requires Genuine(c, 1, [x]) && c.sha1([]) != c.pieces[1].hash
    ensures var s := State([File([], 1), File([], 2)], [false, false], 0, 3);
            var t := Step(c, s, Delivery(1, [x]));
            && Slice(Flat(t.files), 2, 1) == [x]
            && t.flags == [false, false] && t.downloaded == 0 && t.left == 3
  {
    hide WriteFiles, ReadFiles, Flat, Slice, PiecePayload, Field, Int64;
    PieceFieldsRecovered(1, 0, [x]);
    EmptyFilesMisplaceReads(x);
    var s := State([File([], 1), File([], 2)], [false, false], 0, 3);
    assert Offset(c, 1, 0) == 2 by { Int64InRange(2); }
    var w := WriteFiles(s.files, 2, [x], NoFault);
    assert !Verifies(c, w.files, 1, None);
    assert Step(c, s, Delivery(1, [x])) == ProcessPiece(c, s, 1, 0, [x], NoFault, None).0;
  }
}
