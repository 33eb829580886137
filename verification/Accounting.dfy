/** The counters Downloaded and Left, and what verifying the download does to them. */
module Accounting {
  import opened Bytes
  import opened FlatStore
  import opened MetaInfos
  import opened Wire
  import opened Engine
  import opened Safety
  import opened Convergence

  /** The lengths of the flagged ones among the first n pieces. */
  function FlaggedLength(c: Config, flags: seq<bool>, n: nat): int
    requires n <= |c.pieces| == |flags|
  {
    if n == 0 then 0
    else FlaggedLength(c, flags, n - 1) + if flags[n - 1] then c.pieces[n - 1].length else 0
  }

  function AllLength(c: Config, n: nat): int
    requires n <= |c.pieces|
  {
    if n == 0 then 0 else AllLength(c, n - 1) + c.pieces[n - 1].length
  }

  /** How far Downloaded is ahead of the flagged pieces. */
  function Drift(c: Config, s: State): int
    requires Consistent(c, s)
  {
    s.downloaded - FlaggedLength(c, s.flags, |c.pieces|)
  }

  lemma {:induction false} FlagOne(c: Config, flags: seq<bool>, i: nat, n: nat)
    requires n <= |c.pieces| == |flags| && i < |flags| && !flags[i]
    ensures FlaggedLength(c, flags[i := true], n)
         == FlaggedLength(c, flags, n) + if i < n then c.pieces[i].length else 0
  {
    if n > 0 {
      FlagOne(c, flags, i, n - 1);
    }
  }

  /** What a step adds to the drift: a block that does not end its piece counts in full, one that
      does counts its start negatively, verified or not. */
  function DriftOf(c: Config, s: State, e: Event): int
    requires Consistent(c, s)
  {
    if e.VerifyAll? then -FailedLength(c, s, e.faults, |c.pieces|)
    else if !Applied(c, s, e) then 0
    else
      var begin: int, n: int := Field(e.payload, 1), |e.payload| - 8;
      if begin + n == c.pieces[Field(e.payload, 0)].length then -begin else n
  }

  /** Every step moves bytes between the counters, and lets them drift from the flags exactly as
      DriftOf says. */
  lemma StepAccounts(c: Config, s: State, e: Event)
    requires Consistent(c, s)
    ensures var t := Step(c, s, e);
            && t.downloaded + t.left == s.downloaded + s.left
            && Drift(c, t) == Drift(c, s) + DriftOf(c, s, e)
  {
    hide WriteFiles, Verifies, Offset, Field, FlaggedLength;
    if e.Block? && Applied(c, s, e) {
      FlagOne(c, s.flags, Field(e.payload, 0), |c.pieces|);
    }
  }

  lemma {:induction false} RunConserves(c: Config, s: State, es: seq<Event>)
    requires Consistent(c, s)
    ensures Run(c, s, es).downloaded + Run(c, s, es).left == s.downloaded + s.left
    decreases |es|
  {
    hide Step;
    if es != [] {
      StepAccounts(c, s, es[0]);
      RunConserves(c, Step(c, s, es[0]), es[1..]);
    }
  }

  /** The block is a whole piece, which is what requestPiece asks for. */
  predicate Whole(c: Config, e: Event) {
    e.Block? && Accepts(c, e.payload) ==>
      Field(e.payload, 1) == 0 && |e.payload| - 8 == c.pieces[Field(e.payload, 0)].length
  }

  /** A block keeps Downloaded in step with the flags exactly when it is not applied, is a whole
      piece, or is empty and does not end its piece. */
  lemma DriftKeptExactly(c: Config, s: State, e: Event)
    requires Consistent(c, s) && e.Block?
    ensures Drift(c, Step(c, s, e)) == Drift(c, s)
       <==> !Applied(c, s, e) || Whole(c, e)
            || (|e.payload| == 8 && Field(e.payload, 1) != c.pieces[Field(e.payload, 0)].length)
  {
    hide Step, WriteFiles, Offset, Field, FlaggedLength;
    StepAccounts(c, s, e);
  }

  /** A proper part of a piece sent twice is counted twice. */
  lemma RepeatedPartCountsTwice(c: Config, s: State, i: nat, data: seq<byte>, size: nat)
    requires Consistent(c, s) && Filled(s.files, size) && Laid(c, size)
    requires i < |c.pieces| && i < TWO_TO_THE_32 && !s.flags[i] && 0 < |data| < c.pieces[i].length
    ensures var t := Run(c, s, [Delivery(i, data), Delivery(i, data)]);
            && t.flags == s.flags && t.downloaded == s.downloaded + 2 * |data|
  {
    hide WriteFiles, Verifies, Flat, Full, Offset, PiecePayload;
    PieceFieldsRecovered(i, 0, data);
    LaidOffset(c, size, i, 0);
    var e := Delivery(i, data);
    var t := Step(c, s, e);
    WriteStoresAllThatFits(s.files, Offset(c, i, 0), data, NoFault);
    WriteStoresAllThatFits(t.files, Offset(c, i, 0), data, NoFault);
    assert t.flags == s.flags && t.downloaded == s.downloaded + |data|;
    var u := Step(c, t, e);
    assert u.flags == s.flags && u.downloaded == s.downloaded + 2 * |data|;
    assert [e, e][1..] == [e] && [e][1..] == [];
    assert Run(c, t, [e]) == Run(c, u, []);
  }

  // ----- verifyDownload -----

  lemma {:induction false} NothingFails(c: Config, s: State, n: nat, size: nat)
    requires Consistent(c, s) && Filled(s.files, size) && Safe(c, s) && Laid(c, size) && n <= |c.pieces|
    ensures FailedLength(c, s, map[], n) == 0
  {
    hide Filled, Laid, Verifies, Offset;
    if n > 0 {
      NothingFails(c, s, n - 1, size);
      if s.flags[n - 1] {
        assert Holds(c, s.files, n - 1);
        LaidLength(c, size, n - 1);
        LaidOffset(c, size, n - 1, 0);
        assert Full(s.files) by { FilledIsFull(s.files, size); }
        VerifiesIsHolds(c, s.files, n - 1, None);
      }
    }
  }

  /** verifyDownload leaves the counters as they are exactly when no flagged piece with bytes fails;
      whether it reports success depends on the flags alone. */
  lemma VerifyKeepsCountersExactly(c: Config, s: State, faults: map<int, nat>)
    requires Consistent(c, s) && forall p <- c.pieces :: p.length >= 0
    ensures var (t, ok) := VerifyDownload(c, s, faults);
            && (t == s <==> forall i: nat | i < |c.pieces| && s.flags[i] && c.pieces[i].length > 0 ::
                              Verifies(c, s.files, i, FaultOf(faults, i)))
            && t.flags == s.flags && t.files == s.files
            && (ok <==> forall i | 0 <= i < |s.flags| :: s.flags[i])
  {
    hide Verifies, FailedLength;
    FailedLengthIsZeroExactly(c, s, faults, |c.pieces|);
  }

  /** The flagged pieces that pass verification. */
  function Kept(c: Config, s: State, faults: map<int, nat>): (kept: seq<bool>)
    requires Consistent(c, s)
    ensures |kept| == |c.pieces|
    ensures forall i | 0 <= i < |kept| ::
              kept[i] == (s.flags[i] && Verifies(c, s.files, i, FaultOf(faults, i)))
  {
    seq(|c.pieces|, i requires 0 <= i < |c.pieces| => s.flags[i] && Verifies(c, s.files, i, FaultOf(faults, i)))
  }

  /** verifyDownload takes out of Downloaded, and adds to Left, the lengths of the flagged pieces less
      those of the flagged pieces that pass. */
  lemma VerifyTakesOutWhatFails(c: Config, s: State, faults: map<int, nat>)
    requires Consistent(c, s)
    ensures var t := VerifyDownload(c, s, faults).0;
            var n := |c.pieces|;
            var failed := FlaggedLength(c, s.flags, n) - FlaggedLength(c, Kept(c, s, faults), n);
            t.downloaded == s.downloaded - failed && t.left == s.left + failed
  {
    hide FailedLength, FlaggedLength, Kept;
    FailedIsFlaggedLessKept(c, s, faults, |c.pieces|);
  }

  lemma {:induction false} FailedIsFlaggedLessKept(c: Config, s: State, faults: map<int, nat>, n: nat)
    requires Consistent(c, s) && n <= |c.pieces|
    ensures FailedLength(c, s, faults, n)
         == FlaggedLength(c, s.flags, n) - FlaggedLength(c, Kept(c, s, faults), n)
  {
    hide Verifies;
    if n > 0 {
      FailedIsFlaggedLessKept(c, s, faults, n - 1);
    }
  }

  /** When one flagged piece fails and the others pass, exactly its length is taken out. */
  lemma OneFailureCostsItsLength(c: Config, s: State, faults: map<int, nat>, i: nat)
    requires Consistent(c, s) && i < |c.pieces| && s.flags[i]
    requires !Verifies(c, s.files, i, FaultOf(faults, i))
    requires forall j: nat | j < |c.pieces| && j != i && s.flags[j] :: Verifies(c, s.files, j, FaultOf(faults, j))
    ensures var t := VerifyDownload(c, s, faults).0;
            t.downloaded == s.downloaded - c.pieces[i].length && t.left == s.left + c.pieces[i].length
  {
    hide Verifies, FailedLength, FlaggedLength;
    var kept := Kept(c, s, faults);
    assert kept[i := true] == s.flags;
    FlagOne(c, kept, i, |c.pieces|);
    VerifyTakesOutWhatFails(c, s, faults);
  }

  lemma {:induction false} FailedLengthIsZeroExactly(c: Config, s: State, faults: map<int, nat>, n: nat)
    requires Consistent(c, s) && n <= |c.pieces| && forall p <- c.pieces :: p.length >= 0
    ensures FailedLength(c, s, faults, n) >= 0
    ensures FailedLength(c, s, faults, n) == 0
       <==> forall i: nat | i < n && s.flags[i] && c.pieces[i].length > 0 ::
              Verifies(c, s.files, i, FaultOf(faults, i))
  {
    hide Verifies;
    if n > 0 {
      FailedLengthIsZeroExactly(c, s, faults, n - 1);
      assert c.pieces[n - 1] in c.pieces;
    }
  }

  lemma FilledIsFull(files: seq<File>, size: nat)
    requires Filled(files, size)
    ensures Full(files) && |Flat(files)| == size
  {
  }

  /** After any run of confined blocks, verifying the download with reads that work changes neither
      flags nor counters, and succeeds exactly if the download is complete. */
  lemma VerifyAfterRunChangesNothing(c: Config, s: State, es: seq<Event>, size: nat)
    requires Consistent(c, s) && Filled(s.files, size) && Laid(c, size)
    requires forall i | 0 <= i < |s.flags| :: !s.flags[i]
    requires forall e <- es :: Confined(c, size, e)
    ensures var t := Run(c, s, es);
            VerifyDownload(c, t, map[]) == (t, IsComplete(t))
  {
    hide Run, Filled, Laid, Confined, FailedLength, IsComplete;
    RunIsSafe(c, s, es, size);
    NothingFails(c, Run(c, s, es), |c.pieces|, size);
  }

  // ----- runs of whole pieces -----

  ghost predicate Healthy(e: Event) {
    e.VerifyAll? ==> e.faults == map[]
  }

  lemma WholeIsInside(c: Config, e: Event)
    requires Whole(c, e)
    ensures Inside(c, e)
    ensures e.Block? ==> forall s: State | Consistent(c, s) :: DriftOf(c, s, e) == 0
  {
    hide WriteFiles, Offset, Field;
  }

  /** In every run of whole pieces, good or bad, with any failing writes, Downloaded keeps in step
      with the flags. */
  lemma {:induction false} WholePiecesDoNotDrift(c: Config, s: State, es: seq<Event>, size: nat)
    requires Consistent(c, s) && Filled(s.files, size) && Safe(c, s) && Laid(c, size)
    requires forall e <- es :: Whole(c, e) && Healthy(e)
    ensures Drift(c, Run(c, s, es)) == Drift(c, s)
    decreases |es|
  {
    hide Step, Filled, Laid, Safe, Drift, Applied, Inside;
    if es != [] {
      var e := es[0];
      assert Whole(c, e) && Healthy(e);
      if e.VerifyAll? {
        NothingFails(c, s, |c.pieces|, size);
      }
      StepAccounts(c, s, e);
      WholeIsInside(c, e);
      InsideIsConfined(c, size, e);
      StepIsSafe(c, s, e, size);
      StepKeepsFilled(c, s, e, size);
      WholePiecesDoNotDrift(c, Step(c, s, e), es[1..], size);
    }
  }

  lemma {:induction false} FlaggedWithinAll(c: Config, flags: seq<bool>, n: nat)
    requires n <= |c.pieces| == |flags|
    requires forall i | 0 <= i < n :: c.pieces[i].length >= 0
    ensures 0 <= FlaggedLength(c, flags, n) <= AllLength(c, n)
    ensures (forall i | 0 <= i < n :: flags[i]) ==> FlaggedLength(c, flags, n) == AllLength(c, n)
  {
    if n > 0 {
      FlaggedWithinAll(c, flags, n - 1);
    }
  }

  lemma {:induction false} AllLengthIsSumOfPieces(m: MetaInfo, sha1: seq<byte> -> seq<byte>, n: nat)
    requires n <= m.NumPieces()
    ensures AllLength(ConfigOf(m, sha1), n) == SumOfPieces(m, n)
  {
    if n > 0 {
      AllLengthIsSumOfPieces(m, sha1, n - 1);
    }
  }

  /** From a new torrent on, any run of whole pieces keeps Downloaded between zero and the total
      length and Left the rest; when complete, Left is what the pieces do not cover. */
  lemma WholePieceRunsAccount(m: MetaInfo, sha1: seq<byte> -> seq<byte>, s: State, es: seq<Event>)
    requires Regular(m) && Consistent(ConfigOf(m, sha1), s) && Filled(s.files, m.TotalLength())
    requires forall i | 0 <= i < |s.flags| :: !s.flags[i]
    requires s.downloaded == 0 && s.left == m.TotalLength()
    requires forall e <- es :: Whole(ConfigOf(m, sha1), e) && Healthy(e)
    ensures var c := ConfigOf(m, sha1);
            var t := Run(c, s, es);
            && t.downloaded == FlaggedLength(c, t.flags, m.NumPieces())
            && t.left == m.TotalLength() - t.downloaded
            && 0 <= t.downloaded <= m.TotalLength()
            && (IsComplete(t) ==> t.left == if m.TotalLength() % m.pieceLength == 0 then m.pieceLength else 0)
  {
    hide Run, Filled, ConfigOf, Whole, Healthy;
    var c := ConfigOf(m, sha1);
    RegularIsLaid(m, sha1);
    WholePiecesDoNotDrift(c, s, es, m.TotalLength());
    RunConserves(c, s, es);
    NoneFlagged(c, s.flags, |c.pieces|);
    FlaggedWithinAll(c, Run(c, s, es).flags, |c.pieces|);
    AllLengthIsSumOfPieces(m, sha1, |c.pieces|);
    SumOfAllPieces(m);
  }

  lemma {:induction false} NoneFlagged(c: Config, flags: seq<bool>, n: nat)
    requires n <= |c.pieces| == |flags| && forall i | 0 <= i < |flags| :: !flags[i]
    ensures FlaggedLength(c, flags, n) == 0
  {
    if n > 0 {
      NoneFlagged(c, flags, n - 1);
    }
  }
}
