/** Pieces that arrive in several blocks. */
module Assembly {
  import opened Bytes
  import opened FlatStore
  import opened Landing
  import opened Wire
  import opened Engine
  import opened Safety
  import opened Convergence

  /** A block of piece i, met by no I/O error. */
  function Part(i: nat, begin: nat, data: seq<byte>): Event
    requires i < TWO_TO_THE_32 && begin < TWO_TO_THE_32
  {
    Block(PiecePayload(i, begin, data), NoFault, None)
  }

  /** The event names another piece, if any, and touches no byte of piece i. */
  ghost predicate LeavesAlone(c: Config, size: nat, e: Event, i: nat)
    requires i < |c.pieces|
  {
    e.Block? && Accepts(c, e.payload) ==>
      var j, begin, n := Field(e.payload, 0), Field(e.payload, 1), |e.payload| - 8;
      j != i && Apart(Offset(c, j, begin), n, Offset(c, i, 0), c.pieces[i].length, size)
  }

  /** The content of piece i from `begin` on arrives as consecutive blocks in order, up to the one that
      ends the piece; in between come events that leave the piece alone, and afterwards anything. */
  ghost predicate Assembles(c: Config, size: nat, es: seq<Event>, i: nat, content: seq<byte>, begin: nat)
    requires i < |c.pieces| && i < TWO_TO_THE_32
    decreases |es|
  {
    es != [] &&
    ((LeavesAlone(c, size, es[0], i) && Assembles(c, size, es[1..], i, content, begin))
     || exists end: nat :: Continues(c, size, es, i, content, begin, end))
  }

  ghost predicate Continues(
    c: Config, size: nat, es: seq<Event>, i: nat, content: seq<byte>, begin: nat, end: nat)
    requires i < |c.pieces| && i < TWO_TO_THE_32 && es != []
    decreases |es|, 0
  {
    && begin < TWO_TO_THE_32 && begin <= end <= |content|
    && es[0] == Part(i, begin, content[begin..end])
    && (end == |content| || Assembles(c, size, es[1..], i, content, end))
  }

  /** The store holds the content of piece i up to `end`, where it will be found again. */
  ghost predicate Holding(c: Config, files: seq<File>, size: nat, i: nat, content: seq<byte>, end: nat) {
    && Sized(files, size) && end <= |content|
    && (content == [] || FullBefore(files, Start(c, i)))
    && (end > 0 ==> StoredUpTo(files, Start(c, i) + end))
    && Slice(Flat(files), Start(c, i), end) == content[..end]
  }

  lemma WriteKeepsSized(files: seq<File>, p: int, data: seq<byte>, fault: Fault, size: nat)
    requires Sized(files, size)
    ensures Sized(WriteFiles(files, p, data, fault).files, size)
  {
    hide WriteFiles, Flat, Bounded;
    WriteKeepsSize(files, p, data, fault);
    WriteKeepsFull(files, p, data, fault);
  }

  lemma ApartFromStart(p: int, n: int, q: int, m: int, k: int, size: int)
    requires Apart(p, n, q, m, size) && 0 <= k <= m
    ensures Apart(p, n, q, k, size)
  {
  }

  /** Events that leave the piece alone do not disturb what is held of it. */
  lemma HoldingStays(c: Config, s: State, e: Event, size: nat, i: nat, content: seq<byte>, end: nat)
    requires Consistent(c, s) && Laid(c, size) && i < |c.pieces| && |content| == c.pieces[i].length
    requires Holding(c, s.files, size, i, content, end) && LeavesAlone(c, size, e, i)
    ensures Holding(c, Step(c, s, e).files, size, i, content, end)
  {
    hide Step, Flat, Bounded, FullBefore, StoredUpTo, WriteFiles, Slice, Offset, Apart, Laid, Field;
    StepWrites(c, s, e);
    if e.Block? && Accepts(c, e.payload) && !s.flags[Field(e.payload, 0)] {
      var p, data := Offset(c, Field(e.payload, 0), Field(e.payload, 1)), e.payload[8..];
      LaidOffset(c, size, i, 0);
      ApartFromStart(p, |data|, Start(c, i), |content|, end, size);
      WriteKeepsSized(s.files, p, data, e.write, size);
      WriteLeavesApartRanges(s.files, p, data, e.write, Start(c, i), end);
      if content != [] {
        WriteKeepsFullBefore(s.files, p, data, e.write, Start(c, i));
      }
      if end > 0 {
        WriteKeepsStoredUpTo(s.files, p, data, e.write, Start(c, i) + end);
      }
    }
  }

  lemma Extended(flat: seq<byte>, p: nat, n: nat, data: seq<byte>)
    requires p + n + |data| <= |flat|
    ensures Slice(Overwrite(flat, p + n, data), p, n + |data|) == Slice(flat, p, n) + data
  {
  }

  /** Writing the next block holds the content up to its end. */
  lemma NextBlockHeld(
    c: Config, files: seq<File>, size: nat, i: nat, content: seq<byte>, begin: nat, end: nat)
    requires Laid(c, size) && i < |c.pieces| && |content| == c.pieces[i].length
    requires Holding(c, files, size, i, content, begin) && begin <= end <= |content|
    ensures var w := WriteFiles(files, Offset(c, i, begin), content[begin..end], NoFault);
            w.ok && Holding(c, w.files, size, i, content, end)
  {
    hide Flat, Bounded, FullBefore, StoredUpTo, WriteFiles, Overwrite, Slice, Offset, Laid;
    LaidOffset(c, size, i, begin);
    LaidOffset(c, size, i, 0);
    LaidLength(c, size, i);
    var p, data := Start(c, i), content[begin..end];
    WriteStoresAllThatFits(files, p + begin, data, NoFault);
    WriteKeepsSized(files, p + begin, data, NoFault, size);
    WriteIs(files, p + begin, data);
    Extended(Flat(files), p, begin, data);
    assert content[..begin] + data == content[..end];
    if content != [] {
      WriteKeepsFullBefore(files, p + begin, data, NoFault, p);
    }
    if data != [] {
      if begin > 0 {
        StoredUpToIsFullBefore(files, p + begin);
      }
      WriteStoresUpToItsEnd(files, p + begin, data);
    } else if end > 0 {
      WriteKeepsStoredUpTo(files, p + begin, data, NoFault, p + end);
    }
  }

  lemma SameRange(a: seq<byte>, b: seq<byte>, p: nat, n: nat)
    requires p + n <= |a| && p + n <= |b| && a[..p + n] == b[..p + n]
    ensures Slice(a, p, n) == Slice(b, p, n)
  {
    if n > 0 {
      assert a[p..p + n] == a[..p + n][p..] && b[p..p + n] == b[..p + n][p..];
    }
  }

  /** What is held in full is what is read. */
  lemma HeldIsRead(c: Config, files: seq<File>, size: nat, i: nat, content: seq<byte>)
    requires Laid(c, size) && i < |c.pieces| && |content| == c.pieces[i].length
    requires Holding(c, files, size, i, content, |content|)
    ensures ReadFiles(files, Offset(c, i, 0), |content|, None) == Some(content)
  {
    hide Flat, Raw, Bounded, FullBefore, StoredUpTo, ReadFiles, Slice, Offset, Laid;
    LaidOffset(c, size, i, 0);
    LaidLength(c, size, i);
    var p := Start(c, i);
    ReadRefinesSlice(files, p, |content|, None);
    if content == [] {
      NothingReadIsEmpty(files, p, None);
    } else {
      StoredUpToIsFlat(files, p + |content|);
      SameRange(Raw(files), Flat(files), p, |content|);
      assert content[..|content|] == content;
    }
  }

  /** The next block is stored behind what is held; the one that ends the piece flags it. */
  lemma PartAdvances(
    c: Config, s: State, size: nat, i: nat, content: seq<byte>, begin: nat, end: nat)
    requires Consistent(c, s) && Laid(c, size) && i < TWO_TO_THE_32 && Genuine(c, i, content)
    requires !s.flags[i] && begin < TWO_TO_THE_32 && begin <= end <= |content|
    requires Holding(c, s.files, size, i, content, begin)
    ensures var t := Step(c, s, Part(i, begin, content[begin..end]));
            Holding(c, t.files, size, i, content, end) && (end == |content| ==> t.flags[i])
  {
    hide Flat, Holding, WriteFiles, ReadFiles, PiecePayload, Field, Offset, Laid, Step;
    var data := content[begin..end];
    var e := Part(i, begin, data);
    var t := Step(c, s, e);
    PieceFieldsRecovered(i, begin, data);
    NextBlockHeld(c, s.files, size, i, content, begin, end);
    StepWrites(c, s, e);
    if end == |content| {
      HeldIsRead(c, t.files, size, i, content);
      StepFlagsExactly(c, s, e, i);
    }
  }

  /** A piece's true content sent as consecutive blocks in order, the last one ending the piece, amid
      any events that leave the piece alone, ends flagged. */
  lemma {:induction false} AssembledIsFlagged(
    c: Config, s: State, es: seq<Event>, size: nat, i: nat, content: seq<byte>, begin: nat)
    requires Consistent(c, s) && Laid(c, size) && i < TWO_TO_THE_32 && Genuine(c, i, content)
    requires s.flags[i] || Holding(c, s.files, size, i, content, begin)
    requires Assembles(c, size, es, i, content, begin)
    ensures Run(c, s, es).flags[i]
    decreases |es|
  {
    hide Step, Laid, Holding, LeavesAlone, Part;
    if s.flags[i] {
      FlagsStay(c, s, es, i);
    } else if LeavesAlone(c, size, es[0], i) && Assembles(c, size, es[1..], i, content, begin) {
      HoldingStays(c, s, es[0], size, i, content, begin);
      AssembledIsFlagged(c, Step(c, s, es[0]), es[1..], size, i, content, begin);
    } else {
      var end: nat :| Continues(c, size, es, i, content, begin, end);
      PartAdvances(c, s, size, i, content, begin, end);
      var t := Step(c, s, es[0]);
      if end == |content| {
        FlagsStay(c, t, es[1..], i);
      } else {
        AssembledIsFlagged(c, t, es[1..], size, i, content, end);
      }
    }
  }

  // ----- completing from parts -----

  /** From some point of the run on, the content of piece i arrives in consecutive blocks. */
  ghost predicate ArrivesInParts(c: Config, size: nat, es: seq<Event>, i: nat, content: seq<byte>)
    requires i < |c.pieces| && i < TWO_TO_THE_32
    decreases |es|
  {
    es != [] && (Assembles(c, size, es, i, content, 0) || ArrivesInParts(c, size, es[1..], i, content))
  }

  lemma FindableHoldsNothing(c: Config, files: seq<File>, size: nat, i: nat, content: seq<byte>)
    requires Findable(c, files, size) && i < |c.pieces| && |content| == c.pieces[i].length
    ensures Holding(c, files, size, i, content, 0)
  {
    hide Flat, Bounded, FullBefore, Start;
  }

  lemma {:induction false} ArrivedIsFlagged(
    c: Config, s: State, es: seq<Event>, size: nat, i: nat, content: seq<byte>)
    requires Consistent(c, s) && Findable(c, s.files, size) && Laid(c, size)
    requires i < TWO_TO_THE_32 && Genuine(c, i, content) && ArrivesInParts(c, size, es, i, content)
    ensures Run(c, s, es).flags[i]
    decreases |es|
  {
    hide Step, Findable, Laid, Assembles, Holding;
    if Assembles(c, size, es, i, content, 0) {
      FindableHoldsNothing(c, s.files, size, i, content);
      AssembledIsFlagged(c, s, es, size, i, content, 0);
    } else {
      StepKeepsFindable(c, s, es[0], size);
      ArrivedIsFlagged(c, Step(c, s, es[0]), es[1..], size, i, content);
    }
  }

  /** A run in which every piece's true content arrives in consecutive blocks, however each piece is
      divided and the pieces are interleaved, ends complete. */
  lemma ConvergesFromParts(c: Config, s: State, es: seq<Event>, contents: seq<seq<byte>>, size: nat)
    requires Consistent(c, s) && Findable(c, s.files, size) && Laid(c, size)
    requires |c.pieces| == |contents| <= TWO_TO_THE_32
    requires forall i: nat | i < |contents| ::
               Genuine(c, i, contents[i]) && ArrivesInParts(c, size, es, i, contents[i])
    ensures IsComplete(Run(c, s, es))
  {
    hide Run, Findable, Laid, Genuine, ArrivesInParts;
    forall i: nat | i < |c.pieces|
      ensures Run(c, s, es).flags[i]
    {
      assert Genuine(c, i, contents[i]);
      ArrivedIsFlagged(c, s, es, size, i, contents[i]);
    }
  }

  /** A whole delivery is an arrival in one part, whatever comes before and after it. */
  lemma {:induction false} DeliveryArrives(
    c: Config, size: nat, es: seq<Event>, i: nat, content: seq<byte>)
    requires i < |c.pieces| && i < TWO_TO_THE_32 && Delivery(i, content) in es
    ensures ArrivesInParts(c, size, es, i, content)
    decreases |es|
  {
    hide LeavesAlone, PiecePayload;
    if es[0] == Delivery(i, content) {
      assert content[0..|content|] == content;
      assert Continues(c, size, es, i, content, 0, |content|);
    } else {
      assert Delivery(i, content) in es[1..];
      DeliveryArrives(c, size, es[1..], i, content);
    }
  }

  /** Two blocks, the second behind the first, are such an arrival. */
  lemma TwoPartsArrive(c: Config, size: nat, i: nat, content: seq<byte>, k: nat)
    requires i < |c.pieces| && i < TWO_TO_THE_32 && k < TWO_TO_THE_32 && k <= |content|
    ensures ArrivesInParts(c, size, [Part(i, 0, content[..k]), Part(i, k, content[k..])], i, content)
  {
    hide LeavesAlone, PiecePayload;
    var es := [Part(i, 0, content[..k]), Part(i, k, content[k..])];
    assert content[0..k] == content[..k] && content[k..|content|] == content[k..];
    assert Continues(c, size, es[1..], i, content, k, |content|);
    assert Assembles(c, size, es[1..], i, content, k);
    assert Continues(c, size, es, i, content, 0, k);
  }
}
