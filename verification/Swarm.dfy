/** A complete torrent answering the requests of one that downloads. */
module Swarm {
  import opened Bytes
  import opened FlatStore
  import opened MetaInfos
  import opened Wire
  import opened Requests
  import opened Engine
  import opened Safety
  import opened Convergence

  /** The bytes sent in answer to a request: what can be read, framed as a piece. */
  function AnswerTo(c: Config, files: seq<File>, request: seq<byte>, fault: Option<nat>): Option<seq<byte>> {
    if |request| < 12 then None
    else
      var index, begin, length := Field(request, 0), Field(request, 1), Field(request, 2);
      var data := ReadFiles(files, Offset(c, index, begin), length, fault);
      if data.None? then None else Frame(MSG_PIECE, PiecePayload(index, begin, data.value))
  }

  /** The answer arrives as a message, which becomes an event of the downloading torrent. */
  ghost predicate Arrives(c: Config, files: seq<File>, request: seq<byte>, e: Event) {
    var answer := AnswerTo(c, files, request, None);
    && answer.Some? && e.Block? && e.write == NoFault && e.read == None
    && Receive(answer.value) == Message(MSG_PIECE, e.payload, [])
  }

  /** The whole-piece request for piece i. */
  function RequestFor(m: MetaInfo, i: nat): seq<byte>
    requires i < TWO_TO_THE_32 && 0 <= m.PieceLengthAt(i) < TWO_TO_THE_32
  {
    RequestPayload(i, 0, m.PieceLengthAt(i))
  }

  /** requestPiece asks for a piece with exactly that one request. */
  lemma OneRequestPerPiece(m: MetaInfo, i: nat)
    requires Regular(m) && m.TotalLength() % m.pieceLength != 0 && i < m.NumPieces() <= TWO_TO_THE_32
    requires m.pieceLength < TWO_TO_THE_32
    ensures 0 < m.PieceLengthAt(i) < TWO_TO_THE_32
    ensures var rs := RequestsFrom(m.pieceLength, m.PieceLengthAt(i), 0);
            rs == [Request(0, m.PieceLengthAt(i))]
            && RequestMessages(i, rs) == [Sent(MSG_REQUEST, RequestFor(m, i))]
  {
    hide Regular, RequestPayload;
    LastPiece(m);
    if i < m.NumPieces() - 1 {
      PiecesAreDisjoint(m, i, m.NumPieces() - 1);
    }
    WholePieceRequest(m.pieceLength, m.PieceLengthAt(i));
    Uint32Cuts(m.PieceLengthAt(i));
    var rs := [Request(0, m.PieceLengthAt(i))];
    assert rs[1..] == [];
    assert RequestMessages(i, rs) == [Sent(MSG_REQUEST, RequestFor(m, i))] + RequestMessages(i, rs[1..]);
  }

  lemma SliceIsShort(s: seq<byte>, p: int, n: nat)
    ensures |Slice(s, p, n)| <= n
  {
  }

  /** What any torrent answers to any request, whatever follows its three fields: unless a file that
      reading comes to cannot be read, a piece message arrives with the request's index and begin and
      what is stored from there on, as long as the request asks and the files reach. */
  lemma AnswerIsStoredRange(
    c: Config, files: seq<File>, index: nat, begin: nat, length: nat, extra: seq<byte>, fault: Option<nat>,
    rest: seq<byte>)
    requires index < TWO_TO_THE_32 && begin < TWO_TO_THE_32 && length < TWO_TO_THE_32
    requires Offset(c, index, begin) >= 0 && |Slice(Raw(files), Offset(c, index, begin), length)| + 13 < TWO_TO_THE_32
    ensures var p := Offset(c, index, begin);
            var answer := AnswerTo(c, files, RequestPayload(index, begin, length) + extra, fault);
            var data := Slice(Raw(files), p, length);
            && (answer.Some? <==> !Strikes(files, p, length, fault))
            && (answer.Some? ==>
                  Receive(answer.value + rest) == Message(MSG_PIECE, PiecePayload(index, begin, data), rest))
  {
    hide RequestPayload, PiecePayload, Field, Frame, Receive, Slice, ReadFiles, Raw, Offset, Strikes;
    RequestFieldsRecovered(index, begin, length);
    FieldsIgnoreExtra(RequestPayload(index, begin, length), extra);
    var p := Offset(c, index, begin);
    ReadRefinesSlice(files, p, length, fault);
    ReadsUnlessStruck(files, p, length, fault);
    var data := Slice(Raw(files), p, length);
    PieceFieldsRecovered(index, begin, data);
    ReceivedAsSentExactlyWhenItFits(MSG_PIECE, PiecePayload(index, begin, data), rest);
  }

  lemma FieldsIgnoreExtra(p: seq<byte>, extra: seq<byte>)
    requires |p| == 12
    ensures Field(p + extra, 0) == Field(p, 0) && Field(p + extra, 1) == Field(p, 1)
    ensures Field(p + extra, 2) == Field(p, 2)
  {
    var q := p + extra;
    assert q[0..4] == p[0..4] && q[4..8] == p[4..8] && q[8..12] == p[8..12];
  }

  /** A torrent that has the data answers a request for any range of a piece with that range of the
      original. */
  lemma AnswerIsOriginalRange(
    m: MetaInfo, sha1: seq<byte> -> seq<byte>, files: seq<File>, data: seq<byte>, i: nat, begin: nat, length: nat,
    rest: seq<byte>)
    requires Regular(m) && i < m.NumPieces() <= TWO_TO_THE_32
    requires begin + length <= m.PieceLengthAt(i) && begin < TWO_TO_THE_32 && length + 13 < TWO_TO_THE_32
    requires Full(files) && Flat(files) == data && |data| == m.TotalLength()
    ensures var answer := AnswerTo(ConfigOf(m, sha1), files, RequestPayload(i, begin, length), None);
            var range := Slice(data, i * m.pieceLength + begin, length);
            && answer.Some? && |range| == length
            && Receive(answer.value + rest) == Message(MSG_PIECE, PiecePayload(i, begin, range), rest)
  {
    hide Regular, Flat, Full, AnswerTo, RequestPayload, PiecePayload, Receive, Slice, Raw, Laid, Offset;
    var c := ConfigOf(m, sha1);
    RegularIsLaid(m, sha1);
    LaidOffset(c, |data|, i, begin);
    LaidOffset(c, |data|, i, 0);
    LaidLength(c, |data|, i);
    FullStoresFlat(files);
    SliceIsShort(Raw(files), Offset(c, i, begin), length);
    AnswerIsStoredRange(c, files, i, begin, length, [], None, rest);
    assert RequestPayload(i, begin, length) + [] == RequestPayload(i, begin, length);
    assert Start(c, i) == i * m.pieceLength;
    ClippedSlice(data, i * m.pieceLength + begin, length, length);
  }

  /** What a complete torrent answers to a whole-piece request arrives, and arrives as the delivery
      of that piece's original bytes. */
  lemma AnswerIsDelivery(
    m: MetaInfo, sha1: seq<byte> -> seq<byte>, files: seq<File>, data: seq<byte>, i: nat, e: Event)
    requires Regular(m) && i < m.NumPieces() <= TWO_TO_THE_32
    requires m.pieceLength + 13 < TWO_TO_THE_32
    requires Full(files) && Flat(files) == data && |data| == m.TotalLength()
    requires 0 <= m.PieceLengthAt(i) < TWO_TO_THE_32
    ensures Arrives(ConfigOf(m, sha1), files, RequestFor(m, i), e) <==> e == Delivery(i, Original(m, data, i))
  {
    hide Regular, Flat, Full, AnswerTo, RequestPayload, PiecePayload, Receive, Slice, ConfigOf;
    PieceIsShort(m, i);
    AnswerIsOriginalRange(m, sha1, files, data, i, 0, m.PieceLengthAt(i), []);
    var answer := AnswerTo(ConfigOf(m, sha1), files, RequestFor(m, i), None).value;
    assert answer + [] == answer;
    assert i * m.pieceLength + 0 == i * m.pieceLength;
  }

  lemma PieceIsShort(m: MetaInfo, i: nat)
    requires Regular(m) && i < m.NumPieces()
    ensures m.PieceLengthAt(i) <= m.pieceLength
  {
    hide Regular;
    LastPiece(m);
    if i < m.NumPieces() - 1 {
      PiecesAreDisjoint(m, i, m.NumPieces() - 1);
    }
  }

  /** The answer to the request for piece i is among the events. */
  ghost predicate Answered(
    m: MetaInfo, sha1: seq<byte> -> seq<byte>, seeder: seq<File>, es: seq<Event>, i: nat)
  {
    && i < TWO_TO_THE_32 && 0 <= m.PieceLengthAt(i) < TWO_TO_THE_32
    && exists e :: e in es && Arrives(ConfigOf(m, sha1), seeder, RequestFor(m, i), e)
  }

  /** A new download whose whole-piece requests are all answered by a complete torrent, amid any
      other confined blocks from anyone, ends complete with the same data. */
  lemma AnsweredDownloadCompletes(
    m: MetaInfo, sha1: seq<byte> -> seq<byte>, seeder: seq<File>, s: State, es: seq<Event>, data: seq<byte>)
    requires Regular(m) && m.TotalLength() % m.pieceLength != 0
    requires m.NumPieces() <= TWO_TO_THE_32 && m.pieceLength + 13 < TWO_TO_THE_32
    requires Identifies(m, sha1, data) && |data| == m.TotalLength()
    requires Full(seeder) && Flat(seeder) == data
    requires Consistent(ConfigOf(m, sha1), s) && Filled(s.files, |data|)
    requires forall i | 0 <= i < |s.flags| :: !s.flags[i]
    requires forall e <- es :: Confined(ConfigOf(m, sha1), |data|, e)
    requires forall i: nat | i < m.NumPieces() :: Answered(m, sha1, seeder, es, i)
    ensures var t := Run(ConfigOf(m, sha1), s, es);
            IsComplete(t) && Flat(t.files) == data
  {
    hide Regular, Flat, Full, Run, Identifies, Confined, Arrives, Delivery, Laid, Original, Genuine, Consistent, RequestFor;
    var c, n := ConfigOf(m, sha1), m.NumPieces();
    var contents := seq(n, i requires 0 <= i < n => Original(m, data, i));
    RegularIsLaid(m, sha1);
    forall i: nat | i < n
      ensures Genuine(c, i, contents[i]) && Delivery(i, contents[i]) in es
    {
      assert Answered(m, sha1, seeder, es, i);
      var e :| e in es && Arrives(c, seeder, RequestFor(m, i), e);
      AnswerIsDelivery(m, sha1, seeder, data, i, e);
      IdentifiedIsGenuine(m, sha1, data, i);
    }
    assert Findable(c, s.files, |data|) by {
      FilledIsFindable(c, s.files, |data|);
    }
    Converges(c, s, es, contents, |data|);
    CompleteRunReproducesData(m, sha1, s, es, data);
  }

  lemma IdentifiedIsGenuine(m: MetaInfo, sha1: seq<byte> -> seq<byte>, data: seq<byte>, i: nat)
    requires Regular(m) && Identifies(m, sha1, data) && |data| == m.TotalLength() && i < m.NumPieces()
    ensures Genuine(ConfigOf(m, sha1), i, Original(m, data, i))
  {
    hide Slice, Laid;
    var c := ConfigOf(m, sha1);
    RegularIsLaid(m, sha1);
    LaidLength(c, |data|, i);
    MulMonotone(m.pieceLength, 0, i);
    ClippedSlice(data, i * m.pieceLength, m.PieceLengthAt(i), m.PieceLengthAt(i));
  }
}
