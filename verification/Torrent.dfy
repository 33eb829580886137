/** The torrent object: its methods change the pieces' flags, the counters and the files in place,
    and each is one step of the state machine. */
module Torrents {
  import opened Bytes
  import opened FlatStore
  import opened FileManagers
  import opened MetaInfos
  import opened Wire
  import opened Bitfields
  import opened Requests
  import Engine
  import opened Convergence
  import opened Swarm

  datatype Piece = Piece(index: int, hash: seq<byte>, length: int, downloaded: bool)

  function FlagsOf(ps: seq<Piece>): (r: seq<bool>)
    ensures |r| == |ps|
    ensures forall i | 0 <= i < |ps| :: r[i] == ps[i].downloaded
  {
    seq(|ps|, i requires 0 <= i < |ps| => ps[i].downloaded)
  }

  function SpecsOf(ps: seq<Piece>): (r: seq<Engine.Piece>)
    ensures |r| == |ps|
    ensures forall i | 0 <= i < |ps| :: r[i] == Engine.Piece(ps[i].hash, ps[i].length)
  {
    seq(|ps|, i requires 0 <= i < |ps| => Engine.Piece(ps[i].hash, ps[i].length))
  }

  class Torrent {
    const metaInfo: MetaInfo
    const sha1: seq<byte> -> seq<byte>
    const pieces: array<Piece>
    const pieceSize: int
    var downloaded: int
    var left: int
    var fileManager: FileManager?

    /** Only pieces that can be read are flagged. */
    ghost predicate Valid()
      reads this, pieces
    {
      fileManager != null && forall i | 0 <= i < pieces.Length && pieces[i].downloaded :: pieces[i].length >= 0
    }

    ghost function Config(): Engine.Config
      reads this, pieces, fileManager
      requires fileManager != null
    {
      Engine.Config(sha1, fileManager.pieceSize, SpecsOf(pieces[..]))
    }

    ghost function State(): Engine.State
      reads this, pieces, fileManager
      requires fileManager != null
    {
      Engine.State(fileManager.files, FlagsOf(pieces[..]), downloaded, left)
    }

    constructor (metaInfo: MetaInfo, sha1: seq<byte> -> seq<byte>)
      ensures fresh(pieces) && pieces.Length == metaInfo.NumPieces() && fileManager == null
      ensures this.metaInfo == metaInfo && this.sha1 == sha1 && pieceSize == metaInfo.pieceLength
      ensures forall i | 0 <= i < pieces.Length ::
                pieces[i] == Piece(i, metaInfo.PieceHash(i).value, metaInfo.PieceLengthAt(i), false)
      ensures downloaded == 0 && left == metaInfo.TotalLength()
    {
      this.metaInfo, this.sha1, pieceSize := metaInfo, sha1, metaInfo.pieceLength;
      var ps := new Piece[metaInfo.NumPieces()](_ => Piece(0, [], 0, false));
      for i := 0 to ps.Length
        invariant forall k | 0 <= k < i ::
                    ps[k] == Piece(k, metaInfo.PieceHash(k).value, metaInfo.PieceLengthAt(k), false)
      {
        ps[i] := Piece(i, metaInfo.PieceHash(i).value, metaInfo.PieceLengthAt(i), false);
      }
      pieces := ps;
      downloaded := 0;
      fileManager := null;
      var total := TotalLength(metaInfo);
      left := total;
    }

    /** NewTorrent refuses a metainfo without pieces or without info hash. */
    static method NewTorrent(metaInfo: MetaInfo, sha1: seq<byte> -> seq<byte>) returns (t: Torrent?)
      ensures t == null <==> |metaInfo.pieces| < 20 || (metaInfo.length <= 0 && metaInfo.files != [])
      ensures t != null ==> fresh(t) && fresh(t.pieces) && t.fileManager == null
                            && t.metaInfo == metaInfo && t.sha1 == sha1
                            && SpecsOf(t.pieces[..]) == ConfigOf(metaInfo, sha1).pieces
                            && (forall i | 0 <= i < t.pieces.Length :: !t.pieces[i].downloaded)
                            && t.downloaded == 0 && t.left == metaInfo.TotalLength()
    {
      if metaInfo.NumPieces() == 0 || !metaInfo.HasInfoHash() {
        return null;
      }
      t := new Torrent(metaInfo, sha1);
      assert SpecsOf(t.pieces[..]) == ConfigOf(metaInfo, sha1).pieces;
    }

    /** Attaches the file manager; found[i] is what the i-th path already holds.  A zero piece
        length panics in SetPieceSize.  Pieces and counters are as they were. */
    method SetFileManager(fm: FileManager, found: seq<seq<byte>>)
      requires |found| == |metaInfo.FileLengths()| && forall n <- metaInfo.FileLengths() :: n >= 0
      requires metaInfo.pieceLength != 0
      modifies this`fileManager, fm
      ensures fileManager == fm && fm.pieceSize == metaInfo.pieceLength
      ensures fm.totalLength == metaInfo.TotalLength()
      ensures |fm.files| == |found|
      ensures forall i | 0 <= i < |found| :: fm.files[i].content == found[i]
                                             && fm.files[i].length == metaInfo.FileLengths()[i]
      ensures metaInfo.files == [] ==> |fm.files| == 1 && fm.files[0].length == metaInfo.length
      ensures metaInfo.files != [] ==>
                && |fm.files| == |metaInfo.files|
                && forall i | 0 <= i < |fm.files| :: fm.files[i].length == metaInfo.files[i].length
      ensures Config() == Engine.Config(sha1, metaInfo.pieceLength, SpecsOf(pieces[..]))
      ensures State() == Engine.State(fm.files, FlagsOf(pieces[..]), downloaded, left)
    {
      fileManager := fm;
      assert forall i | 0 <= i < |found| :: metaInfo.FileLengths()[i] in metaInfo.FileLengths();
      var lengths: seq<nat> := metaInfo.FileLengths();
      fm.Initialize(lengths, found);
      fm.SetPieceSize(metaInfo.pieceLength);
      var total := TotalLength(metaInfo);
      fm.SetTotalLength(total);
    }

    /** The main program's way to a download: it sets the piece size, creates the files, which fails
        on a negative length, makes the torrent and attaches the files; found[i] is what the i-th
        path holds when it is opened.  What results is the state that runs start from. */
    static method NewDownload(metaInfo: MetaInfo, sha1: seq<byte> -> seq<byte>, found: seq<seq<byte>>)
      returns (t: Torrent?)
      requires metaInfo.pieceLength != 0 && |found| == |metaInfo.FileLengths()|
      ensures t != null <==> (forall n <- metaInfo.FileLengths() :: n >= 0)
                             && |metaInfo.pieces| >= 20 && (metaInfo.length > 0 || metaInfo.files == [])
      ensures t != null ==>
                && fresh(t) && t.Valid()
                && t.Config() == ConfigOf(metaInfo, sha1)
                && (forall i | 0 <= i < |t.State().flags| :: !t.State().flags[i])
                && t.State().downloaded == 0 && t.State().left == metaInfo.TotalLength()
                && Lengths(t.State().files) == metaInfo.FileLengths()
                && (forall i | 0 <= i < |found| :: t.State().files[i].content == found[i])
      ensures t != null && (forall i | 0 <= i < |found| :: |found[i]| == metaInfo.FileLengths()[i]) ==>
                && Sum(metaInfo.FileLengths()) >= 0
                && Engine.Filled(t.State().files, Sum(metaInfo.FileLengths()))
                && (metaInfo.files == [] ==> Sum(metaInfo.FileLengths()) == metaInfo.TotalLength())
    {
      hide ConfigOf, SpecsOf, FlagsOf, Sum;
      var fm := new FileManager();
      fm.SetPieceSize(metaInfo.pieceLength);
      var created := fm.CreateFiles(metaInfo.FileLengths());
      if !created {
        return null;
      }
      t := NewTorrent(metaInfo, sha1);
      if t != null {
        t.SetFileManager(fm, found);
        assert t.Config() == ConfigOf(metaInfo, sha1);
        assert Lengths(fm.files) == metaInfo.FileLengths();
        if forall i | 0 <= i < |found| :: |found[i]| == metaInfo.FileLengths()[i] {
          FoundFull(fm.files, metaInfo.FileLengths());
          FullFilesMakeTheStore(metaInfo, fm.files);
        }
      }
    }

    method IsComplete() returns (r: bool)
      ensures r <==> forall i | 0 <= i < pieces.Length :: FlagsOf(pieces[..])[i]
      ensures fileManager != null ==> (r <==> Engine.IsComplete(State()))
    {
      for i := 0 to pieces.Length
        invariant forall k | 0 <= k < i :: pieces[k].downloaded
      {
        if !pieces[i].downloaded {
          assert !FlagsOf(pieces[..])[i];
          return false;
        }
      }
      return true;
    }

    /** Flags the piece if it can be read and has the right hash. */
    method VerifyPiece(index: nat, fault: Option<nat>) returns (ok: bool)
      requires Valid() && index < pieces.Length
      requires pieces[index].length >= 0 // make panics on a negative length
      modifies pieces
      ensures Valid() && Config() == old(Config())
      ensures ok <==> Engine.Verifies(old(Config()), old(State()).files, index, fault)
      ensures pieces[..] == if ok then old(pieces[..])[index := old(pieces[index]).(downloaded := true)]
                            else old(pieces[..])
    {
      var piece := pieces[index];
      var data := fileManager.ReadPiece(index, 0, piece.length, fault);
      ok := data.Some? && sha1(data.value) == piece.hash;
      if ok {
        pieces[index] := piece.(downloaded := true);
      }
      assert SpecsOf(pieces[..]) == SpecsOf(old(pieces[..]));
    }

    /** One block under the lock. */
    method ProcessPiece(index: nat, begin: nat, data: seq<byte>, write: Fault, read: Option<nat>)
      returns (ok: bool)
      requires Valid() && index < pieces.Length
      modifies this`downloaded, this`left, pieces, fileManager`files
      ensures Valid() && Config() == old(Config())
      ensures (State(), ok) == Engine.ProcessPiece(old(Config()), old(State()), index, begin, data, write, read)
    {
      hide WriteFiles, ReadFiles, Int64;
      ghost var ps := pieces[..];
      var piece := pieces[index];
      if piece.downloaded {
        return true;
      }
      var written := fileManager.WritePiece(index, begin, data, write);
      if !written {
        return false;
      }
      downloaded := downloaded + |data|;
      left := left - |data|;
      if begin + |data| == piece.length {
        var verified := VerifyPiece(index, read);
        if !verified {
          downloaded := downloaded - piece.length;
          left := left + piece.length;
          return false;
        }
        pieces[index] := pieces[index].(downloaded := true);
        assert pieces[..] == ps[index := piece.(downloaded := true)];
        assert FlagsOf(pieces[..]) == FlagsOf(ps)[index := true];
        assert SpecsOf(pieces[..]) == SpecsOf(ps);
      }
      return true;
    }

    /** The Piece case of the message handler. */
    method OnPiece(payload: seq<byte>, write: Fault, read: Option<nat>)
      requires Valid()
      modifies this`downloaded, this`left, pieces, fileManager`files
      ensures Valid() && Config() == old(Config())
      ensures State() == Engine.Step(old(Config()), old(State()), Engine.Block(payload, write, read))
      ensures |payload| < 8 ==> State() == old(State())
    {
      hide Engine.ProcessPiece;
      if |payload| < 8 {
        return;
      }
      var index := GetUint32(payload[0..4]);
      var begin := GetUint32(payload[4..8]);
      if index >= pieces.Length {
        return;
      }
      var _ := ProcessPiece(index, begin, payload[8..], write, read);
    }

    /** Verifies the flagged pieces and counts the unflagged ones. */
    method VerifyDownload(faults: map<int, nat>) returns (ok: bool)
      requires Valid()
      modifies this`downloaded, this`left, pieces
      ensures Valid() && Config() == old(Config())
      ensures (State(), ok) == Engine.VerifyDownload(old(Config()), old(State()), faults)
    {
      hide Engine.Verifies;
      ghost var c, s, ps := Config(), State(), pieces[..];
      for i := 0 to pieces.Length
        invariant Valid() && pieces[..] == ps && fileManager == old(fileManager)
        invariant downloaded == s.downloaded - Engine.FailedLength(c, s, faults, i)
        invariant left == s.left + Engine.FailedLength(c, s, faults, i)
      {
        var piece := pieces[i];
        if !piece.downloaded {
          continue;
        }
        var verified := VerifyPiece(i, Engine.FaultOf(faults, i));
        assert pieces[..] == ps;
        if !verified {
          // The loop variable is a copy: clearing its flag changes no piece.
          piece := piece.(downloaded := false);
          downloaded := downloaded - piece.length;
          left := left + piece.length;
        }
      }
      var missing := 0;
      for i := 0 to pieces.Length
        invariant missing >= 0 && (missing == 0 <==> forall k | 0 <= k < i :: pieces[k].downloaded)
      {
        if !pieces[i].downloaded {
          missing := missing + 1;
        }
      }
      ok := missing == 0;
    }

    /** Sends the requests for a piece; a piece size that is not positive never ends a piece that
        has bytes.  What goes out is the request frames in order, up to where the connection
        breaks. */
    method RequestPiece(conn: Conn, index: nat) returns (ok: bool)
      requires index < pieces.Length && (pieceSize > 0 || pieces[index].length <= 0)
      modifies conn`output, conn`capacity
      ensures var all := if pieces[index].downloaded then []
                         else RequestBytes(index, pieceSize, pieces[index].length, 0);
              && (ok <==> |all| <= old(conn.capacity))
              && conn.output == old(conn.output) + all[..Min(|all|, old(conn.capacity))]
    {
      hide RequestBytes, Frame, Uint32, RequestPayload;
      var piece := pieces[index];
      if piece.downloaded {
        return true;
      }
      ghost var all := RequestBytes(index, pieceSize, piece.length, 0);
      ghost var sent: seq<byte> := [];
      var begin := 0;
      while begin < piece.length
        invariant begin >= 0 && (pieceSize > 0 || begin >= piece.length)
        invariant all == sent + RequestBytes(index, pieceSize, piece.length, begin)
        invariant |sent| <= old(conn.capacity) && conn.capacity == old(conn.capacity) - |sent|
        invariant conn.output == old(conn.output) + sent
        decreases piece.length - begin
      {
        var length := Min(pieceSize, piece.length - begin);
        var request := NewRequestMessage(Uint32(index), Uint32(begin), Uint32(length));
        RequestBytesUnfold(index, pieceSize, piece.length, begin);
        ghost var f := Frame(MSG_REQUEST, request[..]).value;
        var r := conn.SendMessage(MSG_REQUEST, request[..]);
        CutAtCapacity(all, sent, f, RequestBytes(index, pieceSize, piece.length, begin + pieceSize), old(conn.capacity));
        if r != Delivered {
          return false;
        }
        sent := sent + f;
        begin := begin + pieceSize;
      }
      NoMoreRequests(index, pieceSize, piece.length, begin);
      assert all == sent;
      return true;
    }

    /** The pieces for which requestPieces starts a request. */
    method RequestPieces(bitfield: seq<bv8>) returns (started: seq<nat>)
      ensures forall i :: i in started <==> 0 <= i < pieces.Length && !pieces[i].downloaded && HasPiece(bitfield, i)
      ensures forall i, j | 0 <= i < j < |started| :: started[i] < started[j]
    {
      started := [];
      for i := 0 to pieces.Length
        invariant forall k :: k in started <==> 0 <= k < i && !pieces[k].downloaded && HasPiece(bitfield, k)
        invariant forall j, k | 0 <= j < k < |started| :: started[j] < started[k]
        invariant forall k | 0 <= k < |started| :: started[k] < i
      {
        if !pieces[i].downloaded && HasPiece(bitfield, i) {
          started := started + [i];
        }
      }
    }

    /** Answers a request with whatever can be read. */
    method HandlePieceRequest(conn: Conn, index: nat, begin: nat, length: nat, fault: Option<nat>)
      requires Valid() && index < TWO_TO_THE_32 && begin < TWO_TO_THE_32
      modifies conn`output, conn`capacity
      ensures var data := ReadFiles(fileManager.files, Engine.Offset(Config(), index, begin), length, fault);
              var answer := if data.None? then None else Frame(MSG_PIECE, PiecePayload(index, begin, data.value));
              conn.output == old(conn.output) + if answer.None? then []
                                                else answer.value[..Min(|answer.value|, old(conn.capacity))]
    {
      hide ReadFiles, Frame;
      var data := fileManager.ReadPiece(index, begin, length, fault);
      if data.None? {
        return;
      }
      var msg := NewPieceMessage(index, begin, data.value);
      var _ := conn.SendMessage(MSG_PIECE, msg[..]);
    }

    /** The Request case of the message handler. */
    method OnRequest(conn: Conn, payload: seq<byte>, fault: Option<nat>)
      requires Valid()
      modifies conn`output, conn`capacity
      ensures var answer := AnswerTo(Config(), fileManager.files, payload, fault);
              conn.output == old(conn.output) + if answer.None? then []
                                                else answer.value[..Min(|answer.value|, old(conn.capacity))]
      ensures |payload| < 12 ==> conn.output == old(conn.output)
    {
      hide ReadFiles, Frame, Engine.Offset, PiecePayload;
      if |payload| < 12 {
        return;
      }
      var index := GetUint32(payload[0..4]);
      var begin := GetUint32(payload[4..8]);
      var length := GetUint32(payload[8..12]);
      HandlePieceRequest(conn, index, begin, length, fault);
    }
  }

  lemma FoundFull(files: seq<File>, lengths: seq<int>)
    requires Lengths(files) == lengths && forall i | 0 <= i < |files| :: |files[i].content| == lengths[i]
    ensures Full(files)
  {
    assert forall i | 0 <= i < |files| :: files[i].length == Lengths(files)[i];
  }

  lemma CutAtCapacity(all: seq<byte>, sent: seq<byte>, f: seq<byte>, rest: seq<byte>, capacity: nat)
    requires all == sent + (f + rest) && |sent| <= capacity
    ensures all == (sent + f) + rest
    ensures |sent| + |f| > capacity ==> all[..capacity] == sent + f[..capacity - |sent|]
  {
  }

  lemma {:induction false} FlatLengthIsSum(fs: seq<File>)
    ensures |Flat(fs)| == Sum(Lengths(fs))
  {
    if fs != [] {
      var n := |fs| - 1;
      FlatLengthIsSum(fs[..n]);
      FlatSnoc(fs[..n], fs[n]);
      assert fs == fs[..n] + [fs[n]];
      assert Lengths(fs)[..n] == Lengths(fs[..n]);
    }
  }

  lemma {:induction false} FlatSnoc(fs: seq<File>, f: File)
    ensures Flat(fs + [f]) == Flat(fs) + Pad(f)
  {
    if fs == [] {
      assert ([f])[1..] == [] && fs + [f] == [f];
    } else {
      FlatSnoc(fs[1..], f);
      assert (fs + [f])[1..] == fs[1..] + [f];
    }
  }

  /** Files of exactly the lengths that the metainfo gives are full and make a store of the sum of
      those lengths.  That is the torrent's total length for a single file, and for a list of files
      without a single length exactly while the sum fits int64. */
  lemma FullFilesMakeTheStore(m: MetaInfo, files: seq<File>)
    requires Lengths(files) == m.FileLengths() && Full(files)
    ensures Sum(m.FileLengths()) >= 0 && Engine.Filled(files, Sum(m.FileLengths()))
    ensures m.files == [] ==> Sum(m.FileLengths()) == m.TotalLength()
    ensures m.files != [] && m.length <= 0 ==>
              (Sum(m.FileLengths()) == m.TotalLength() <==> Sum(m.FileLengths()) <= MAX_INT64)
  {
    FlatLengthIsSum(files);
    if m.files == [] {
      assert Sum([m.length]) == Sum([]) + m.length;
      assert Lengths(files)[0] >= 0;
      Int64InRange(0);
    } else if Sum(m.FileLengths()) <= MAX_INT64 {
      Int64InRange(Sum(m.FileLengths()));
    }
  }

  lemma NoMoreRequests(index: int, size: int, length: int, begin: nat)
    requires begin >= length
    ensures RequestBytes(index, size, length, begin) == []
  {
  }
}
