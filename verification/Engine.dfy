/**
  The download as a state machine.  Each locked call of the program is one step over the stored
  files, the pieces' flags and the two counters; peers may send any bytes in any order, and every
  write and read may fail.  SHA-1 is a parameter.
 */
module Engine {
  import opened Bytes
  import opened FlatStore
  import opened Wire

  datatype Piece = Piece(hash: seq<byte>, length: int)

  datatype Config = Config(sha1: seq<byte> -> seq<byte>, pieceSize: int, pieces: seq<Piece>)

  datatype State = State(files: seq<File>, flags: seq<bool>, downloaded: int, left: int)

  /** A Piece message with the outcome of the I/O it causes, or a verification of the whole download
      in which reading piece i fails at file faults[i]. */
  datatype Event =
    | Block(payload: seq<byte>, write: Fault, read: Option<nat>)
    | VerifyAll(faults: map<int, nat>)

  ghost predicate Consistent(c: Config, s: State) {
    |s.flags| == |c.pieces|
  }

  /** Where a position inside a piece lies in the store, in int64 arithmetic. */
  function Offset(c: Config, index: nat, begin: int): int {
    Int64(index * c.pieceSize + begin)
  }

  /** verifyPiece succeeds: the piece can be read and what is read has the right hash. */
  predicate Verifies(c: Config, files: seq<File>, index: nat, fault: Option<nat>)
    requires index < |c.pieces|
  {
    var piece := c.pieces[index];
    piece.length >= 0 &&
    var data := ReadFiles(files, Offset(c, index, 0), piece.length, fault);
    data.Some? && c.sha1(data.value) == piece.hash
  }

  function ProcessPiece(
    c: Config, s: State, index: nat, begin: nat, data: seq<byte>, write: Fault, read: Option<nat>)
    : (State, bool)
    requires Consistent(c, s) && index < |c.pieces|
  {
    if s.flags[index] then (s, true)
    else
      var w := WriteFiles(s.files, Offset(c, index, begin), data, write);
      if !w.ok then (s.(files := w.files), false)
      else
        var length := c.pieces[index].length;
        var added := State(w.files, s.flags, s.downloaded + |data|, s.left - |data|);
        if begin + |data| != length then (added, true)
        else if Verifies(c, w.files, index, read) then (added.(flags := s.flags[index := true]), true)
        else (added.(downloaded := added.downloaded - length, left := added.left + length), false)
  }

  /** The handler drops payloads without a header and pieces that do not exist; it does not compare
      the block with its piece's length. */
  predicate Accepts(c: Config, payload: seq<byte>) {
    |payload| >= 8 && Field(payload, 0) < |c.pieces|
  }

  /** The block is written in full: its piece exists and is not flagged, and no write failed. */
  predicate Applied(c: Config, s: State, e: Event)
    requires Consistent(c, s)
  {
    && e.Block? && Accepts(c, e.payload)
    && var i := Field(e.payload, 0);
    && !s.flags[i]
    && WriteFiles(s.files, Offset(c, i, Field(e.payload, 1)), e.payload[8..], e.write).ok
  }

  predicate IsComplete(s: State) {
    forall i | 0 <= i < |s.flags| :: s.flags[i]
  }

  function FaultOf(faults: map<int, nat>, i: int): Option<nat> {
    if i in faults then Some(faults[i]) else None
  }

  /** The lengths of those of the first n pieces that are flagged but fail verification. */
  function FailedLength(c: Config, s: State, faults: map<int, nat>, n: nat): int
    requires Consistent(c, s) && n <= |c.pieces|
  {
    if n == 0 then 0
    else
      var i := n - 1;
      FailedLength(c, s, faults, i)
      + if s.flags[i] && !Verifies(c, s.files, i, FaultOf(faults, i))
        then c.pieces[i].length else 0
  }

  /** verifyDownload moves failed lengths between the counters, leaves the flags alone, and reports
      success if every piece is flagged. */
  function VerifyDownload(c: Config, s: State, faults: map<int, nat>): (State, bool)
    requires Consistent(c, s)
  {
    var failed := FailedLength(c, s, faults, |c.pieces|);
    (s.(downloaded := s.downloaded - failed, left := s.left + failed), IsComplete(s))
  }

  function Step(c: Config, s: State, e: Event): (t: State)
    requires Consistent(c, s)
    ensures Consistent(c, t)
  {
    match e
    case Block(payload, write, read) =>
      if !Accepts(c, payload) then s
      else ProcessPiece(c, s, Field(payload, 0), Field(payload, 1), payload[8..], write, read).0
    case VerifyAll(faults) => VerifyDownload(c, s, faults).0
  }

  function Run(c: Config, s: State, es: seq<Event>): (t: State)
    requires Consistent(c, s)
    ensures Consistent(c, t)
    decreases |es|
  {
    if es == [] then s else Run(c, Step(c, s, es[0]), es[1..])
  }

  /** The stored bytes of a piece, as far as the files reach. */
  function Stored(c: Config, files: seq<File>, index: nat): seq<byte>
    requires index < |c.pieces|
  {
    Slice(Flat(files), Offset(c, index, 0), c.pieces[index].length)
  }

  ghost predicate Holds(c: Config, files: seq<File>, index: nat)
    requires index < |c.pieces|
  {
    c.sha1(Stored(c, files, index)) == c.pieces[index].hash
  }

  /** Every flagged piece is stored with the bytes its hash was taken from. */
  ghost predicate Safe(c: Config, s: State)
    requires Consistent(c, s)
  {
    forall i: nat | i < |c.pieces| && s.flags[i] :: Holds(c, s.files, i)
  }

  /** The block touches no byte of a piece other than the one it names. */
  ghost predicate Confined(c: Config, size: nat, e: Event) {
    e.Block? && Accepts(c, e.payload) ==>
      var i, begin, n := Field(e.payload, 0), Field(e.payload, 1), |e.payload| - 8;
      forall j: nat | j < |c.pieces| && j != i ::
        Apart(Offset(c, i, begin), n, Offset(c, j, 0), c.pieces[j].length, size)
  }

  /** Full files with a given number of bytes in all. */
  ghost predicate Filled(files: seq<File>, size: nat) {
    Full(files) && |Flat(files)| == size
  }
}
