/** A download that a block reaching out of its piece spoils, and that is yet reported as verified. */
module Overrun {
  import opened Bytes
  import opened FlatStore
  import opened MetaInfos
  import opened Wire
  import opened Engine
  import opened Safety
  import opened Convergence
  import opened Accounting

  /** Every piece of the data, delivered in order. */
  function Deliveries(m: MetaInfo, data: seq<byte>): (es: seq<Event>)
    requires m.NumPieces() <= TWO_TO_THE_32
    ensures |es| == m.NumPieces()
    ensures forall i | 0 <= i < |es| :: es[i] == Delivery(i, Original(m, data, i))
  {
    seq(m.NumPieces(), i requires 0 <= i < m.NumPieces() => Delivery(i, Original(m, data, i)))
  }

  lemma DeliveryIsInside(c: Config, i: nat, content: seq<byte>)
    requires i < |c.pieces| && i < TWO_TO_THE_32 && |content| <= c.pieces[i].length
    ensures Inside(c, Delivery(i, content))
  {
    hide PiecePayload, Field;
    PieceFieldsRecovered(i, 0, content);
  }

  lemma DeliveriesAreConfined(m: MetaInfo, sha1: seq<byte> -> seq<byte>, data: seq<byte>)
    requires Regular(m) && m.TotalLength() % m.pieceLength != 0 && Honest(m, sha1, data)
    requires m.NumPieces() <= TWO_TO_THE_32
    ensures forall e <- Deliveries(m, data) :: Confined(ConfigOf(m, sha1), |data|, e)
  {
    hide Regular, Honest, Confined, Inside, Delivery, Laid, Original;
    var c := ConfigOf(m, sha1);
    RegularIsLaid(m, sha1);
    assert |data| == m.TotalLength() by { HonestLength(m, sha1, data); }
    forall e <- Deliveries(m, data)
      ensures Confined(c, |data|, e)
    {
      var i: nat :| i < m.NumPieces() && e == Delivery(i, Original(m, data, i));
      OriginalIsGenuine(m, sha1, data, i);
      DeliveryIsInside(c, i, Original(m, data, i));
      InsideIsConfined(c, |data|, e);
    }
  }

  lemma HonestLength(m: MetaInfo, sha1: seq<byte> -> seq<byte>, data: seq<byte>)
    requires Honest(m, sha1, data)
    ensures |data| == m.TotalLength()
  {
  }

  /** With piece 0 unflagged, a block for it with bytes `bad` is stored from the start of the store on. */
  lemma BlockForPieceZero(c: Config, s: State, bad: seq<byte>, size: nat)
    requires Consistent(c, s) && Filled(s.files, size) && Laid(c, size) && |bad| <= size
    requires |c.pieces| > 1 && !s.flags[0] && |bad| != c.pieces[0].length
    ensures var t := Step(c, s, Delivery(0, bad));
            Filled(t.files, size) && t.flags == s.flags && Flat(t.files)[..|bad|] == bad
  {
    hide Step, Flat, Full, WriteFiles, Overwrite, PiecePayload, Field, Laid, Offset;
    var e := Delivery(0, bad);
    PieceFieldsRecovered(0, 0, bad);
    LaidLength(c, size, 0);
    LaidOffset(c, size, 0, 0);
    StepWrites(c, s, e);
    StepKeepsFilled(c, s, e, size);
    StepFlagsExactly(c, s, e, 0);
    WriteIs(s.files, 0, bad);
    assert Start(c, 0) == 0;
    OverwrittenStart(Flat(s.files), bad);
  }

  lemma OverwrittenStart(flat: seq<byte>, bad: seq<byte>)
    requires |bad| <= |flat|
    ensures Overwrite(flat, 0, bad)[..|bad|] == bad
  {
  }

  /** Only the delivered piece is flagged. */
  lemma DeliverPieceOne(c: Config, s: State, content: seq<byte>, size: nat)
    requires Consistent(c, s) && Filled(s.files, size) && Laid(c, size)
    requires |c.pieces| > 1 && Genuine(c, 1, content)
    requires forall i | 0 <= i < |s.flags| :: !s.flags[i]
    ensures var t := Step(c, s, Delivery(1, content));
            Filled(t.files, size) && forall j | 0 <= j < |t.flags| :: t.flags[j] <==> j == 1
  {
    hide Step, Filled, PiecePayload, Field, Laid, Sized;
    var e := Delivery(1, content);
    PieceFieldsRecovered(1, 0, content);
    FilledIsFindable(c, s.files, size);
    assert 1 < |c.pieces| && c.pieces[1].length == |content|;
    DeliveryFlags(c, s, 1, content, size);
    StepWrites(c, s, e);
    StepKeepsFilled(c, s, e, size);
  }

  lemma RunTwo(c: Config, s: State, e: Event, f: Event, es: seq<Event>)
    requires Consistent(c, s)
    ensures Run(c, s, [e, f] + es) == Run(c, Step(c, Step(c, s, e), f), es)
  {
    hide Step;
    var all := [e, f] + es;
    assert all[1..] == [f] + es && ([f] + es)[1..] == es;
    assert Run(c, s, all) == Run(c, Step(c, s, e), [f] + es);
  }

  /** Of every well-made torrent of two or more pieces there is a download, from any full files, that ends
      complete and is reported as verified although its second piece is not the original: the piece
      is delivered, the first piece is sent one byte too long, and then every piece is delivered.
      Verification finds the wrong hash and takes the piece out of the counters, but clears the flag
      of a copy. */
  lemma OverrunSpoilsCompleteDownload(
    m: MetaInfo, sha1: seq<byte> -> seq<byte>, s: State, data: seq<byte>) returns (es: seq<Event>)
    requires Regular(m) && m.TotalLength() % m.pieceLength != 0 && Honest(m, sha1, data)
    requires 2 <= m.NumPieces() <= TWO_TO_THE_32
    requires Consistent(ConfigOf(m, sha1), s) && Filled(s.files, |data|)
    requires forall i | 0 <= i < |s.flags| :: !s.flags[i]
    ensures var c := ConfigOf(m, sha1);
            var t := Run(c, s, es);
            && IsComplete(t) && VerifyDownload(c, t, map[]).1
            && Flat(t.files) != data && Stored(c, t.files, 1) != Original(m, data, 1)
            && (Identifies(m, sha1, data) ==>
                  && !Holds(c, t.files, 1)
                  && VerifyDownload(c, t, map[]).0.downloaded == t.downloaded - m.PieceLengthAt(1)
                  && VerifyDownload(c, t, map[]).0.left == t.left + m.PieceLengthAt(1))
  {
    hide Regular, Honest, Run, Step, Flat, Full, Slice, Delivery, Genuine, Laid, Identifies, Holds, Original,
      Confined, Offset;
    var c, p, size := ConfigOf(m, sha1), m.pieceLength, |data|;
    HonestLength(m, sha1, data);
    RegularIsLaid(m, sha1);
    SecondPiece(m);
    var bad := data[..p] + [if data[p] == 0 then 1 else 0];
    var ds := Deliveries(m, data);
    var e, f := Delivery(1, Original(m, data, 1)), Delivery(0, bad);
    es := [e, f] + ds;
    OriginalIsGenuine(m, sha1, data, 1);
    assert |bad| != c.pieces[0].length;
    DeliverPieceOne(c, s, Original(m, data, 1), size);
    var s1 := Step(c, s, e);
    BlockForPieceZero(c, s1, bad, size);
    var s2 := Step(c, s1, f);
    RunTwo(c, s, e, f, ds);
    var t := Run(c, s2, ds);
    DeliveriesComplete(m, sha1, s2, data);
    DeliveriesAreConfined(m, sha1, data);
    FlaggedPieceIsUntouched(c, s2, ds, 1, size);
    RunKeepsFilled(c, s2, ds, size);
    assert Flat(s2.files)[p] == Flat(s2.files)[..|bad|][p] != data[p];
    SpoiltPiece(m, sha1, s2.files, data);
    assert Stored(c, t.files, 1) != Original(m, data, 1);
    StoredOf(m, sha1, t.files, data);
    if Identifies(m, sha1, data) {
      forall j: nat | j < |c.pieces| && j != 1
        ensures Holds(c, t.files, j)
      {
        assert s2.flags == s1.flags && !s1.flags[j];
        RunKeepsPiece(c, s2, ds, size, j);
      }
      FailureCosts(c, t, 1, size);
    }
  }

  /** When one flagged piece does not hold and the others do, its length is taken out of Downloaded. */
  lemma FailureCosts(c: Config, t: State, i: nat, size: nat)
    requires Consistent(c, t) && Filled(t.files, size) && Laid(c, size)
    requires i < |c.pieces| && t.flags[i] && !Holds(c, t.files, i)
    requires forall j: nat | j < |c.pieces| && j != i :: Holds(c, t.files, j)
    ensures var u := VerifyDownload(c, t, map[]).0;
            u.downloaded == t.downloaded - c.pieces[i].length && u.left == t.left + c.pieces[i].length
  {
    hide Verifies, FailedLength, Flat, Full, Laid, Holds, VerifyDownload, Offset;
    VerifiesIsHolds(c, t.files, i, None);
    assert !Verifies(c, t.files, i, FaultOf(map[], i));
    forall j: nat | j < |c.pieces| && j != i
      ensures Verifies(c, t.files, j, FaultOf(map[], j))
    {
      LaidLength(c, size, j);
      LaidOffset(c, size, j, 0);
      VerifiesIsHolds(c, t.files, j, None);
    }
    OneFailureCostsItsLength(c, t, map[], i);
  }

  lemma SecondPiece(m: MetaInfo)
    requires Regular(m) && m.TotalLength() % m.pieceLength != 0 && m.NumPieces() >= 2
    ensures m.PieceLengthAt(0) == m.pieceLength
    ensures 0 < m.pieceLength < m.pieceLength + m.PieceLengthAt(1) <= m.TotalLength()
  {
    PiecesAreDisjoint(m, 0, 1);
    LastPiece(m);
    if m.NumPieces() > 2 {
      PiecesAreDisjoint(m, 1, 2);
    }
  }

  lemma DeliveriesComplete(m: MetaInfo, sha1: seq<byte> -> seq<byte>, s: State, data: seq<byte>)
    requires Regular(m) && m.TotalLength() % m.pieceLength != 0 && Honest(m, sha1, data)
    requires m.NumPieces() <= TWO_TO_THE_32
    requires Consistent(ConfigOf(m, sha1), s) && Filled(s.files, |data|)
    ensures IsComplete(Run(ConfigOf(m, sha1), s, Deliveries(m, data)))
  {
    hide Regular, Honest, Run, Filled, Findable, Delivery, Genuine, Laid, Original;
    var c, n := ConfigOf(m, sha1), m.NumPieces();
    var contents := seq(n, i requires 0 <= i < n => Original(m, data, i));
    HonestLength(m, sha1, data);
    RegularIsLaid(m, sha1);
    FilledIsFindable(c, s.files, |data|);
    forall i: nat | i < n
      ensures Genuine(c, i, contents[i]) && Delivery(i, contents[i]) in Deliveries(m, data)
    {
      OriginalIsGenuine(m, sha1, data, i);
      assert Deliveries(m, data)[i] == Delivery(i, contents[i]);
    }
    Converges(c, s, Deliveries(m, data), contents, |data|);
  }

  /** If the first byte of the second piece is wrong, what is stored for it is not the original. */
  lemma SpoiltPiece(m: MetaInfo, sha1: seq<byte> -> seq<byte>, files: seq<File>, data: seq<byte>)
    requires Regular(m) && m.TotalLength() % m.pieceLength != 0 && m.NumPieces() >= 2
    requires |data| == m.TotalLength() == |Flat(files)|
    requires m.pieceLength < |data| && Flat(files)[m.pieceLength] != data[m.pieceLength]
    ensures Stored(ConfigOf(m, sha1), files, 1) != Original(m, data, 1)
  {
    hide Regular, Flat, Slice, Laid, Int64, Offset;
    var c := ConfigOf(m, sha1);
    SecondPiece(m);
    RegularIsLaid(m, sha1);
    LaidOffset(c, |data|, 1, 0);
    assert Start(c, 1) == m.pieceLength;
    SliceAt(Flat(files), data, m.pieceLength, m.PieceLengthAt(1), m.pieceLength);
  }

  /** What wrong bytes for the second piece mean. */
  lemma StoredOf(m: MetaInfo, sha1: seq<byte> -> seq<byte>, files: seq<File>, data: seq<byte>)
    requires Regular(m) && m.TotalLength() % m.pieceLength != 0 && m.NumPieces() >= 2
    requires |data| == m.TotalLength() == |Flat(files)|
    requires Stored(ConfigOf(m, sha1), files, 1) != Original(m, data, 1)
    ensures Flat(files) != data
    ensures Identifies(m, sha1, data) ==> !Holds(ConfigOf(m, sha1), files, 1)
  {
    hide Regular, Flat, Slice, Laid, Int64, Offset;
    var c := ConfigOf(m, sha1);
    SecondPiece(m);
    RegularIsLaid(m, sha1);
    LaidOffset(c, |data|, 1, 0);
    assert Start(c, 1) == m.pieceLength;
    SliceAt(Flat(files), data, m.pieceLength, m.PieceLengthAt(1), m.pieceLength);
  }
}
