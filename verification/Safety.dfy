/** What the store holds after any run. */
module Safety {
  import opened Bytes
  import opened FlatStore
  import opened Wire
  import opened Engine

  /** On full files, verification without I/O errors is exactly the hash test on the flat array. */
  lemma VerifiesIsHolds(c: Config, files: seq<File>, i: nat, fault: Option<nat>)
    requires i < |c.pieces| && Full(files)
    ensures Verifies(c, files, i, fault) ==> Holds(c, files, i)
    ensures fault.None? && c.pieces[i].length >= 0 && Offset(c, i, 0) >= 0 ==>
              (Verifies(c, files, i, fault) <==> Holds(c, files, i))
  {
    hide Flat, Raw, Full, Int64;
    var p, n := Offset(c, i, 0), c.pieces[i].length;
    if n >= 0 {
      FullStoresFlat(files);
      if p >= 0 {
        ReadRefinesSlice(files, p, n, fault);
      } else if Verifies(c, files, i, fault) {
        assert files == [];
        assert Flat(files) == [] by { EmptyIsFlat(); }
      }
    }
  }

  /** On any files, verification is the hash test on the raw bytes from the piece's position on, unless
      a file it comes to cannot be read. */
  lemma VerifiesExactly(c: Config, files: seq<File>, i: nat, fault: Option<nat>)
    requires i < |c.pieces| && c.pieces[i].length >= 0 && Offset(c, i, 0) >= 0
    ensures var p, n := Offset(c, i, 0), c.pieces[i].length;
            Verifies(c, files, i, fault)
            <==> !Strikes(files, p, n, fault) && c.sha1(Slice(Raw(files), p, n)) == c.pieces[i].hash
  {
    hide ReadFiles, Raw, Slice, Offset, Strikes;
    var p, n := Offset(c, i, 0), c.pieces[i].length;
    ReadRefinesSlice(files, p, n, fault);
    ReadsUnlessStruck(files, p, n, fault);
  }

  lemma EmptyIsFlat()
    ensures Flat([]) == []
  {
  }

  /** What a step does to the store: a block for an unflagged piece is one write there, and a piece
      is flagged only after it verified in the new store. */
  lemma StepWrites(c: Config, s: State, e: Event)
    requires Consistent(c, s)
    ensures var t := Step(c, s, e);
            if e.Block? && Accepts(c, e.payload) && !s.flags[Field(e.payload, 0)] then
              var i, begin, data := Field(e.payload, 0), Field(e.payload, 1), e.payload[8..];
              && t.files == WriteFiles(s.files, Offset(c, i, begin), data, e.write).files
              && (t.flags == s.flags
                  || (t.flags == s.flags[i := true] && Verifies(c, t.files, i, e.read)))
            else t.files == s.files && t.flags == s.flags
  {
    hide Verifies, WriteFiles, Offset;
  }

  lemma StepKeepsFilled(c: Config, s: State, e: Event, size: nat)
    requires Consistent(c, s) && Filled(s.files, size)
    ensures Filled(Step(c, s, e).files, size)
  {
    hide Step, Full, Flat, WriteFiles, Lengths, Offset;
    StepWrites(c, s, e);
    if e.Block? && Accepts(c, e.payload) && !s.flags[Field(e.payload, 0)] {
      WriteKeepsSize(s.files, Offset(c, Field(e.payload, 0), Field(e.payload, 1)), e.payload[8..], e.write);
    }
  }

  lemma {:induction false} RunKeepsFilled(c: Config, s: State, es: seq<Event>, size: nat)
    requires Consistent(c, s) && Filled(s.files, size)
    ensures Filled(Run(c, s, es).files, size)
    decreases |es|
  {
    hide Step, Filled;
    if es != [] {
      StepKeepsFilled(c, s, es[0], size);
      RunKeepsFilled(c, Step(c, s, es[0]), es[1..], size);
    }
  }

  lemma WriteKeepsSize(fs: seq<File>, p: int, data: seq<byte>, fault: Fault)
    ensures var gs := WriteFiles(fs, p, data, fault).files;
            |Flat(gs)| == |Flat(fs)| && (Full(fs) ==> Full(gs))
  {
    hide WriteFiles, Flat, Full, Overwrite;
    WriteKeepsFull(fs, p, data, fault);
    if p >= 0 {
      WriteRefinesOverwrite(fs, p, data, fault);
    } else {
      NegativeOffsetStoresNothing(fs, p, data, fault);
    }
  }

  /** What a block does to the flags: it sets that of its piece if it is applied, ends the piece, and
      what is then stored verifies; wherever it begins.  Nothing else changes. */
  lemma StepFlagsExactly(c: Config, s: State, e: Event, j: nat)
    requires Consistent(c, s) && j < |c.pieces|
    ensures var t := Step(c, s, e);
            t.flags[j] <==> s.flags[j]
                            || (&& Applied(c, s, e) && j == Field(e.payload, 0)
                                && Field(e.payload, 1) + (|e.payload| - 8) == c.pieces[j].length
                                && Verifies(c, t.files, j, e.read))
  {
    hide Verifies, WriteFiles, Offset, Field;
  }

  /** The call reports an error exactly if a write fails or the piece it ends does not verify. */
  lemma StepReportsExactly(
    c: Config, s: State, i: nat, begin: nat, data: seq<byte>, write: Fault, read: Option<nat>)
    requires Consistent(c, s) && i < |c.pieces|
    ensures var w := WriteFiles(s.files, Offset(c, i, begin), data, write);
            ProcessPiece(c, s, i, begin, data, write, read).1
            <==> s.flags[i] || (w.ok && (begin + |data| == c.pieces[i].length ==> Verifies(c, w.files, i, read)))
  {
    hide Verifies, WriteFiles, Offset;
  }

  /** One step keeps a flagged piece intact, provided its block is confined to its own piece. */
  lemma StepKeepsPiece(c: Config, s: State, e: Event, size: nat, j: nat)
    requires Consistent(c, s) && Filled(s.files, size) && Confined(c, size, e) && j < |c.pieces|
    requires s.flags[j] ==> Holds(c, s.files, j)
    ensures Step(c, s, e).flags[j] ==> Holds(c, Step(c, s, e).files, j)
  {
    hide Step, Full, Flat, WriteFiles, Verifies, Apart, Offset;
    StepWrites(c, s, e);
    StepKeepsFilled(c, s, e, size);
    var t := Step(c, s, e);
    if e.Block? && Accepts(c, e.payload) && !s.flags[Field(e.payload, 0)] && t.flags[j] {
      var i, begin, data := Field(e.payload, 0), Field(e.payload, 1), e.payload[8..];
      if j == i {
        VerifiesIsHolds(c, t.files, i, e.read);
      } else {
        WriteLeavesApartRanges(s.files, Offset(c, i, begin), data, e.write,
                               Offset(c, j, 0), c.pieces[j].length);
      }
    }
  }

  /** One step keeps every flagged piece intact, provided its block is confined to its piece. */
  lemma StepIsSafe(c: Config, s: State, e: Event, size: nat)
    requires Consistent(c, s) && Filled(s.files, size) && Safe(c, s) && Confined(c, size, e)
    ensures Safe(c, Step(c, s, e))
  {
    hide Step, Filled, Holds, Confined;
    forall j: nat | j < |c.pieces| && Step(c, s, e).flags[j]
      ensures Holds(c, Step(c, s, e).files, j)
    {
      StepKeepsPiece(c, s, e, size, j);
    }
  }

  lemma {:induction false} RunKeepsPiece(c: Config, s: State, es: seq<Event>, size: nat, j: nat)
    requires Consistent(c, s) && Filled(s.files, size) && j < |c.pieces|
    requires s.flags[j] ==> Holds(c, s.files, j)
    requires forall e <- es :: Confined(c, size, e)
    ensures Run(c, s, es).flags[j] ==> Holds(c, Run(c, s, es).files, j)
    decreases |es|
  {
    hide Step, Filled, Holds, Confined;
    if es != [] {
      StepKeepsPiece(c, s, es[0], size, j);
      StepKeepsFilled(c, s, es[0], size);
      RunKeepsPiece(c, Step(c, s, es[0]), es[1..], size, j);
    }
  }

  /** In every run of confined blocks, with any duplicates, bad data and I/O errors, every flagged
      piece is stored with bytes that hash to its hash. */
  lemma {:induction false} RunIsSafe(c: Config, s: State, es: seq<Event>, size: nat)
    requires Consistent(c, s) && Filled(s.files, size) && Safe(c, s)
    requires forall e <- es :: Confined(c, size, e)
    ensures Safe(c, Run(c, s, es)) && Filled(Run(c, s, es).files, size)
    decreases |es|
  {
    hide Step, Filled, Safe, Confined;
    if es != [] {
      StepIsSafe(c, s, es[0], size);
      StepKeepsFilled(c, s, es[0], size);
      RunIsSafe(c, Step(c, s, es[0]), es[1..], size);
    }
  }

  /** A download that starts with nothing flagged and ends complete is verified as a whole. */
  lemma CompleteRunIsVerified(c: Config, s: State, es: seq<Event>, size: nat)
    requires Consistent(c, s) && Filled(s.files, size)
    requires forall i | 0 <= i < |s.flags| :: !s.flags[i]
    requires forall e <- es :: Confined(c, size, e)
    requires IsComplete(Run(c, s, es))
    ensures forall i: nat | i < |c.pieces| :: Holds(c, Run(c, s, es).files, i)
  {
    hide Step, Run, Filled, Holds, Confined;
    RunIsSafe(c, s, es, size);
  }

  /** A flagged piece's bytes are not changed by confined blocks. */
  lemma {:induction false} FlaggedPieceIsUntouched(c: Config, s: State, es: seq<Event>, j: nat, size: nat)
    requires Consistent(c, s) && Filled(s.files, size) && j < |c.pieces| && s.flags[j]
    requires forall e <- es :: Confined(c, size, e)
    ensures Stored(c, Run(c, s, es).files, j) == Stored(c, s.files, j)
    decreases |es|
  {
    hide Step, Flat, Full, WriteFiles, Apart, Offset, Slice;
    if es != [] {
      var e := es[0];
      assert Confined(c, size, e);
      StepWrites(c, s, e);
      StepKeepsFilled(c, s, e, size);
      if e.Block? && Accepts(c, e.payload) && !s.flags[Field(e.payload, 0)] {
        WriteLeavesApartRanges(s.files, Offset(c, Field(e.payload, 0), Field(e.payload, 1)), e.payload[8..], e.write,
                               Offset(c, j, 0), c.pieces[j].length);
      }
      FlaggedPieceIsUntouched(c, Step(c, s, e), es[1..], j, size);
    }
  }

  // ----- the condition on blocks is exact -----

  ghost predicate SameLayout(c: Config, d: Config) {
    c.pieceSize == d.pieceSize && |c.pieces| == |d.pieces|
    && forall i | 0 <= i < |c.pieces| :: c.pieces[i].length == d.pieces[i].length
  }

  /** The step keeps safety for all hashes and all stored data. */
  ghost predicate AlwaysSafe(c: Config, size: nat, e: Event) {
    forall d: Config, s: State ::
      SameLayout(c, d) && Consistent(d, s) && Filled(s.files, size) && Safe(d, s) ==> Safe(d, Step(d, s, e))
  }

  /** One file of the given size whose bytes are all b. */
  function Uniform(size: nat, b: byte): seq<File> {
    [File(seq(size, _ => b), size)]
  }

  lemma UniformIsFlat(size: nat, b: byte)
    ensures Flat(Uniform(size, b)) == seq(size, _ => b) && Filled(Uniform(size, b), size)
  {
    var fs := Uniform(size, b);
    assert fs[1..] == [];
    assert Flat(fs) == Pad(fs[0]) + [];
  }

  lemma OverlapHasWitness(p: int, n: int, q: int, m: int, size: int) returns (x: int)
    requires !Apart(p, n, q, m, size)
    ensures 0 <= p <= x < p + n && 0 <= q <= x < q + m && x < size
  {
    x := if p < q then q else p;
  }

  /** The layout of c with a hash that recognises one byte string. */
  function Recognising(c: Config, good: seq<byte>): (d: Config)
    ensures SameLayout(c, d)
  {
    Config(h => if h == good then [1] else [0], c.pieceSize,
           seq(|c.pieces|, k requires 0 <= k < |c.pieces| => Piece([1], c.pieces[k].length)))
  }

  lemma RecognisesOnly(c: Config, good: seq<byte>, j: nat, files: seq<File>)
    requires j < |c.pieces|
    ensures Holds(Recognising(c, good), files, j) <==> Stored(c, files, j) == good
  {
    hide Slice, Flat, Int64;
  }

  /** A block that shares position x with piece j, and disagrees there with a store of equal bytes,
      changes the stored bytes of j. */
  lemma SharedByteChanges(c: Config, s: State, e: Event, size: nat, b: byte, j: nat, x: int)
    requires Consistent(c, s) && s.files == Uniform(size, b) && j < |c.pieces|
    requires e.Block? && e.write.NoFault? && Accepts(c, e.payload) && !s.flags[Field(e.payload, 0)]
    requires var p := Offset(c, Field(e.payload, 0), Field(e.payload, 1));
             0 <= p <= x < p + |e.payload| - 8 && e.payload[8..][x - p] != b
    requires 0 <= Offset(c, j, 0) <= x < Offset(c, j, 0) + c.pieces[j].length && x < size
    ensures Stored(c, Step(c, s, e).files, j) != Slice(seq(size, _ => b), Offset(c, j, 0), c.pieces[j].length)
  {
    hide Step, Flat, Filled, WriteFiles, Overwrite, Slice, Offset, Uniform, Lengths, Full, Verifies;
    var p := Offset(c, Field(e.payload, 0), Field(e.payload, 1));
    UniformIsFlat(size, b);
    StepWrites(c, s, e);
    WriteIs(s.files, p, e.payload[8..]);
    SlicesDiffer(seq(size, _ => b), p, e.payload[8..], Offset(c, j, 0), c.pieces[j].length, x);
  }

  /** A block that meets another piece's bytes spoils some store: one where only that piece is
      flagged, rightly, and where one of the bytes it shares with the block changes. */
  lemma UnconfinedBlockSpoils(c: Config, size: nat, e: Event) returns (d: Config, s: State)
    requires e.Block? && e.write.NoFault? && !Confined(c, size, e)
    ensures SameLayout(c, d) && Consistent(d, s) && Filled(s.files, size)
    ensures Safe(d, s) && !Safe(d, Step(d, s, e))
  {
    hide Step, Flat, Filled, Slice, Recognising, Holds, Int64, Uniform, Verifies;
    var i, begin, data := Field(e.payload, 0), Field(e.payload, 1), e.payload[8..];
    var p := Offset(c, i, begin);
    var j: nat :| j < |c.pieces| && j != i
                  && !Apart(p, |data|, Offset(c, j, 0), c.pieces[j].length, size);
    hide Confined;
    var q, m := Offset(c, j, 0), c.pieces[j].length;
    var x := OverlapHasWitness(p, |data|, q, m, size);
    hide Apart;
    var b: byte := if data[x - p] == 0 then 1 else 0;
    var good := Slice(seq(size, _ => b), q, m);
    d := Recognising(c, good);
    s := State(Uniform(size, b), seq(|c.pieces|, k => k == j), 0, 0);
    UniformIsFlat(size, b);
    StepWrites(d, s, e);
    SharedByteChanges(d, s, e, size, b, j, x);
    RecognisesOnly(c, good, j, s.files);
    RecognisesOnly(c, good, j, Step(d, s, e).files);
  }

  lemma SlicesDiffer(flat: seq<byte>, p: nat, data: seq<byte>, q: nat, m: nat, x: int)
    requires p <= x < p + |data| && q <= x < q + m && x < |flat| && flat[x] != data[x - p]
    ensures Slice(Overwrite(flat, p, data), q, m) != Slice(flat, q, m)
  {
    assert Slice(Overwrite(flat, p, data), q, m)[x - q] == data[x - p];
    assert Slice(flat, q, m)[x - q] == flat[x];
  }

  /** Exactly the confined blocks keep every store safe. */
  lemma SafeExactlyWhenConfined(c: Config, size: nat, e: Event)
    requires e.Block? ==> e.write.NoFault?
    ensures AlwaysSafe(c, size, e) <==> Confined(c, size, e)
  {
    hide Filled, Safe, Step;
    if Confined(c, size, e) {
      forall d: Config, s: State
        | SameLayout(c, d) && Consistent(d, s) && Filled(s.files, size) && Safe(d, s)
        ensures Safe(d, Step(d, s, e))
      {
        LayoutDecidesConfined(c, d, size, e);
        StepIsSafe(d, s, e, size);
      }
    } else {
      var d, s := UnconfinedBlockSpoils(c, size, e);
      assert !AlwaysSafe(c, size, e);
    }
  }

  lemma LayoutDecidesConfined(c: Config, d: Config, size: nat, e: Event)
    requires SameLayout(c, d)
    ensures Confined(c, size, e) ==> Confined(d, size, e)
  {
    hide Apart, Int64;
  }
}
