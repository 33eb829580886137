# A BitTorrent client in Go: model and proofs

This project models the download engine, the bencode codec and the wire formats of the client, and
proves what they keep, undo and reproduce.

- **Store** (`FlatStore`, `Landing`, `FileManagers`). Files are byte strings with a declared length.
  `WritePiece` walks them by declared length, `ReadPiece` by stored size. Both are proved against one
  flat array, and `Landing` says when what was written is found again.
- **Download** (`Engine`, `Safety`, `Convergence`, `Assembly`, `Accounting`, `Overrun`, `Torrents`).
  Every locked call is one step over files, flags and counters. An event is the payload of a Piece
  message, any bytes at all, with any outcome of the writes and reads it causes, or a verification of
  the whole download. SHA-1 is a parameter. The methods of class `Torrent` are proved to be these
  steps; theorems are about every run. `Convergence` is about pieces that arrive whole, which is what
  the client asks for, `Assembly` about pieces that arrive in several blocks.
- **Swarm** (`Requests`, `Swarm`). The request loop, and a complete torrent that answers the requests
  of another one, down to the framed bytes.
- **Bencode** (`Decimal`, `KeyOrder`, `Bencode`, `BencodeLaws`, `Canonical`, `BencodeReader`,
  `BencodeWriter`, `TrackerDecoder`). The encoder, the decoder over a shared reader, and the tracker's
  own decoder.
- **Wire** (`Wire`, `Bitfields`, `PeerCount`). Frames, payloads, the peer's bitfield, the counter of
  active peers. `Literals` writes out some encodings and frames byte by byte.

I/O errors are parameters of the calls they strike: which file fails, and after how many bytes. A Go
panic counts as a failure of the call; where the model has a precondition instead, a comment names the
panic. Positions inside the store are computed in wrapping int64, lengths on the wire in wrapping
uint32.

## What the code does not do

These came out of the proofs. Each is stated with the exact condition or with all the inputs it
concerns.

- The message handler checks a block's piece index but not its end. A block that reaches into another
  piece can spoil one already verified; exactly the blocks that touch no other piece are harmless
  (`Safety.SafeExactlyWhenConfined`). Every well-made torrent of two or more pieces whose piece length
  does not divide the total has a download that ends complete with wrong data because of one such
  block (`Overrun.OverrunSpoilsCompleteDownload`).
- The last piece has length `total % pieceLength`. When the piece length divides the total, that is
  zero, the last piece is never requested, and the download cannot complete unless the hash of its
  last block is the hash of no bytes (`Convergence.CanCompleteExactlyWhenLastPieceCan`).
- Reading skips files by stored size, so all reads agree with writing exactly when every file is full
  (`FlatStore.ReadsFlatExactlyWhenFull`), and a delivered piece is accepted, whatever its content,
  exactly when every file that ends at or before its start is full
  (`Convergence.DeliveriesFlagExactlyWhenFullBefore`). A single file always is good enough
  (`Convergence.SingleFileIsFindable`). `CreateFiles` fills other paths than `Initialize` opens when
  there are several files (`internal/file/file.go:193-206`, `internal/file/file.go:52-57`).
- `verifyDownload` clears the flag of a copy, so a failed piece is taken out of the counters, stays
  flagged, and success is reported (`Accounting.VerifyKeepsCountersExactly`). The spoilt download above
  shows it (`Overrun.OverrunSpoilsCompleteDownload`); after runs of confined blocks it cannot happen
  (`Accounting.VerifyAfterRunChangesNothing`).
- Blocks that are not whole pieces make `Downloaded` run ahead of the flags
  (`Accounting.DriftKeptExactly`, `Accounting.RepeatedPartCountsTwice`).
- `SendMessage` computes its buffer size in uint32. A message survives exactly when its payload is
  shorter than 2^32 - 5 bytes (`Wire.ReceivedAsSentExactlyWhenItFits`).
- The tracker's decoder has no limit on string lengths; the other one stops at MaxInt32. The two
  disagree exactly on inputs that the tracker's accepts after reading a longer string, as an item, key
  or value at any depth, however its length is spelled and whether or not the result keeps it
  (`TrackerDecoder.DecodersAgreeExactlyWithoutLongStrings`).
- Peers found by the DHT are uncounted twice (`PeerCount.CountIsRightExactlyWithoutDhtEndsAndCleanups`).
- A metainfo that lists files and gives no single length has no info hash, because the encoder takes
  no structs, so `NewTorrent` refuses it (`Torrents.Torrent.NewTorrent`). This is written down from
  the encoder's default case, not derived from a model of Go's structs.

## Model

| member | source | states |
|---|---|---|
| FlatStore.WriteRefinesOverwrite | internal/file/file.go:85-112 | Whether it succeeds or fails half way, a write across any files replaces, in the files seen as one zero-padded array, exactly the bytes it stored from its position on |
| FlatStore.WriteStoresAllThatFits | internal/file/file.go:98-109 | A successful write stores the data up to the end of the last file, and it succeeds if no write reports an error |
| FlatStore.WriteKeepsFull | internal/file/file.go:92-109 | Declared lengths are kept, files do not outgrow them, full files stay full |
| FlatStore.NegativeOffsetStoresNothing | internal/file/file.go:89-101 | A position that wrapped to a negative one fails at the first file and stores nothing |
| FlatStore.WriteFailsExactly | internal/file/file.go:98-109 | A write error at one file strikes exactly the writes that have something to store there, or nothing to store at a position inside it; what goes to earlier files and what the error lets through is then stored |
| FlatStore.ReadFailsExactly | internal/file/file.go:146-174 | An error in reading one file is met exactly when the files before it do not hold the requested range |
| FlatStore.ReadRefinesSlice | internal/file/file.go:138-177 | A read without I/O errors returns the requested range of the stored bytes laid end to end, clipped at their end |
| FlatStore.ReadsFlatExactlyWhenFull | internal/file/file.go:146-177 | All reads return ranges of the flat array if and only if every file has its declared length |
| FlatStore.ReadAfterWrite | internal/file/file.go:85-177 | On full files, reading the range just written returns the data, as far as the files reach |
| FlatStore.WriteLeavesApartRanges | internal/file/file.go:85-112 | Ranges that a write does not meet keep their bytes, also when the write fails |
| FlatStore.ApartWritesCommute | internal/file/file.go:85-112 | Two writes to ranges that do not meet give the same file contents in either order |
| FlatStore.EmptyFilesMisplaceReads | internal/file/file.go:152-156 | With a short first file, a byte that was written at a position is not found by reading that position |
| Landing.RawPositionIsRightExactly | internal/file/file.go:152-156 | Where a position lies among the stored bytes is never later than the position, and is the position itself if and only if every file that ends at or before it is full |
| Landing.WrittenAtRawPosition | internal/file/file.go:85-112 | What is written across any files is stored in one stretch, beginning where its position lies among the stored bytes |
| Landing.OneByteLands | internal/file/file.go:85-112 | Two data that differ in the first byte leave stored bytes that differ in that one place |
| Landing.AllReadBackExactlyWhenFullBefore | internal/file/file.go:85-177 | All data of a length written at a position are read back from it if and only if every file that ends at or before it is full |
| Landing.WriteKeepsFullBefore | internal/file/file.go:92-109 | No write, failed or not, undoes that condition |
| Landing.StoredUpToIsFlat | internal/file/file.go:146-177 | What is stored without a gap up to a position is read as it lies in the flat array |
| Landing.WriteStoresUpToItsEnd | internal/file/file.go:85-112 | A write whose position will be found again leaves everything up to its end stored without a gap |
| Landing.WriteKeepsStoredUpTo | internal/file/file.go:85-112 | No write, failed or not, opens such a gap |
| FileManagers.FileManager.WritePiece | internal/file/file.go:85-112 | The loop does what the walk says under any I/O fault, and a successful call is one overwrite of the flat array at index*pieceSize+offset |
| FileManagers.FileManager.ReadPiece | internal/file/file.go:138-177 | The loop returns the range of the stored bytes at index*pieceSize+begin, or fails where an I/O operation fails |
| FileManagers.WriteFromWalks | internal/file/file.go:92-109 | The loop from any file on leaves earlier files alone and writes the rest as the recursive walk does |
| FileManagers.ReadFromWalks | internal/file/file.go:146-174 | The loop with what it has read so far continues as the recursive walk does |
| FileManagers.FileManager.CreateFiles | internal/file/file.go:193-223 | Succeeds exactly when no length is negative |
| FileManagers.FileManager.Initialize | internal/file/file.go:47-82 | Files get their declared lengths, offsets accumulate to the running sums, the total and the number of pieces follow |
| FileManagers.FileManager.SetPieceSize | internal/file/file.go:36-39 | Recomputes the number of pieces for the new size and changes nothing else |
| FileManagers.FileManager.SetTotalLength | internal/file/file.go:41-44 | Recomputes the number of pieces for the new total and changes nothing else |
| FileManagers.PieceCountIsCeiling | internal/file/file.go:38 | For positive sizes without overflow the count is the least number of pieces that reaches the total |
| MetaInfos.TotalLength | internal/torrent/metainfo.go:91-101 | The accumulating loop returns the single length if there is one, else the sum of all files, wrapped to int64 where it does not fit |
| MetaInfos.MetaInfo.NumPieces | internal/torrent/metainfo.go:104-106 | The number of whole stretches of twenty bytes in the hashes |
| MetaInfos.MetaInfo.PieceHash | internal/torrent/metainfo.go:109-119 | Exactly the indices below the piece count have a hash, the twenty bytes at that place |
| MetaInfos.PiecesAreDisjoint | internal/torrent/torrent.go:604-612 | Piece ranges follow each other without overlap inside the total length |
| MetaInfos.PiecesCoverExactlyWhenNotDivisible | internal/torrent/torrent.go:604-612 | Every byte of the total lies in a piece if and only if the piece length does not divide the total |
| MetaInfos.SumOfAllPieces | internal/torrent/torrent.go:604-612 | The piece lengths add up to the total, or to one piece less when the piece length divides it |
| Safety.VerifiesIsHolds | internal/torrent/torrent.go:570-584 | On full files a verification that succeeds has tested the stored bytes of that piece, and without I/O errors it is that test |
| Safety.VerifiesExactly | internal/torrent/torrent.go:570-584 | On any files, verification is the hash test on the stored bytes from the position of the piece on, unless a file that reading comes to cannot be read |
| Safety.StepFlagsExactly | internal/torrent/torrent.go:548-565 | After a step a piece is flagged if and only if it was before, or a block for it was written in full, ends it wherever it begins, and what is now stored verifies |
| Safety.StepReportsExactly | internal/torrent/torrent.go:529-568 | The call succeeds if and only if the piece is flagged already, or no write fails and a piece that the block ends verifies |
| Safety.StepWrites | internal/torrent/torrent.go:529-568 | A step changes the store only by one write for an unflagged piece, and sets only the flag of a piece that verified in the new store |
| Safety.StepIsSafe | internal/torrent/torrent.go:529-584 | A confined block keeps every flagged piece stored with bytes of the right hash |
| Safety.StepKeepsPiece | internal/torrent/torrent.go:529-584 | The same for each single piece: whether other pieces are stored rightly does not matter |
| Safety.RunKeepsPiece | internal/torrent/torrent.go:529-584 | In every run of confined blocks a piece that is rightly stored if flagged remains so |
| Safety.RunIsSafe | internal/torrent/torrent.go:529-584 | In every run of confined blocks, in any order, with duplicates, bad data and failing I/O, every flagged piece hashes to its hash |
| Safety.CompleteRunIsVerified | internal/torrent/torrent.go:289-296 | If such a run from nothing ends complete, every piece in the store hashes to its hash |
| Safety.FlaggedPieceIsUntouched | internal/torrent/torrent.go:537-546 | In every run of confined blocks the stored bytes of a flagged piece stay what they are |
| Safety.UnconfinedBlockSpoils | internal/torrent/torrent.go:453-462 | For every block that meets another piece there are hashes and a safe store that it makes unsafe |
| Safety.SafeExactlyWhenConfined | internal/torrent/torrent.go:453-462 | A block keeps all stores safe under all hashes if and only if it touches no byte of another piece |
| Convergence.RegularIsLaid | internal/torrent/torrent.go:604-612 | The pieces made from a well-formed metainfo lie in order inside a store of the total length |
| Convergence.InsideIsConfined | internal/torrent/torrent.go:457-462 | A block that ends within its piece touches no other piece |
| Convergence.FlagsStay | internal/torrent/torrent.go:537-540 | No event ever clears a flag |
| Convergence.DeliveryFlags | internal/torrent/torrent.go:529-568 | A piece's true content arriving whole flags it, whatever was stored before, if the files that end at or before its start are full |
| Convergence.DeliveriesFlagExactlyWhenFullBefore | internal/torrent/torrent.go:529-584 | Every content an unflagged piece might have is accepted on delivery if and only if every file that ends at or before the piece's start is full |
| Convergence.SingleFileIsFindable | internal/file/file.go:152-156 | In a single file, also one that starts empty, every piece is found where it is written |
| Convergence.StepKeepsFindable | internal/torrent/torrent.go:542-546 | No event makes a piece's place unfindable |
| Convergence.Converges | internal/torrent/torrent.go:529-584 | A run in which each piece's true content arrives whole once ends complete, whatever other blocks are interleaved, from any files in which pieces are found where they are written |
| Assembly.NextBlockHeld | internal/torrent/torrent.go:542-546 | With the content of a piece stored up to the begin of a block, writing that block stores it up to the end of the block, where it will be found again |
| Assembly.HoldingStays | internal/torrent/torrent.go:529-568 | Events that name other pieces and touch no byte of this one do not disturb what is held of it |
| Assembly.PartAdvances | internal/torrent/torrent.go:548-565 | The next block in order extends what is held, and the one that ends the piece flags it |
| Assembly.AssembledIsFlagged | internal/torrent/torrent.go:529-568 | True content of a piece sent as consecutive blocks in order, the last one ending it, amid any events that leave the piece alone, ends flagged |
| Assembly.ConvergesFromParts | internal/torrent/torrent.go:529-584 | A run in which the true content of every piece arrives in consecutive blocks, however divided and interleaved, ends complete |
| Assembly.DeliveryArrives | internal/torrent/torrent.go:529-568 | A whole delivery anywhere in a run is such an arrival in one block |
| Assembly.TwoPartsArrive | internal/torrent/torrent.go:529-568 | A piece cut anywhere in two is such an arrival |
| Convergence.CompleteIsFinal | internal/torrent/torrent.go:537-540 | After completion no event changes a stored byte or a flag |
| Convergence.CompleteRunReproducesData | internal/torrent/torrent.go:529-584 | A run of confined blocks that ends complete leaves exactly the original data in the files, when hashes identify the pieces and the last piece is not empty |
| Convergence.ZeroLengthPieceNeedsEmptyHash | internal/torrent/torrent.go:553-565 | In no run at all is a piece of length zero flagged unless its hash is that of no bytes |
| Convergence.CanCompleteExactlyWhenLastPieceCan | internal/torrent/torrent.go:604-612 | Some run completes if and only if the piece length does not divide the total or the last hash is that of no bytes |
| Convergence.EmptyFilesRefuseGenuinePiece | internal/file/file.go:152-156 | A concrete input of the other kind: with an empty file before it, true content delivered whole is written in place and yet refused |
| Accounting.StepAccounts | internal/torrent/torrent.go:548-564 | Every step keeps Downloaded plus Left, and the distance of Downloaded from the flagged lengths changes by a stated amount |
| Accounting.RunConserves | internal/torrent/torrent.go:153-157 | Downloaded plus Left is the same after every run |
| Accounting.DriftKeptExactly | internal/torrent/torrent.go:548-564 | A block keeps Downloaded equal to the flagged lengths if and only if it is not applied, is a whole piece, or is empty short of the piece's end |
| Accounting.RepeatedPartCountsTwice | internal/torrent/torrent.go:548-553 | A part of a piece sent twice is counted twice while nothing is flagged |
| Accounting.WholePiecesDoNotDrift | internal/torrent/torrent.go:529-568 | Runs of whole pieces, good or bad, keep Downloaded in step with the flags |
| Accounting.WholePieceRunsAccount | internal/torrent/torrent.go:548-564 | From a new torrent such runs keep Downloaded between zero and the total, Left the rest, and Left at completion is what the pieces leave uncovered |
| Accounting.VerifyAfterRunChangesNothing | internal/torrent/torrent.go:298-330 | After any run of confined blocks, verification with working reads changes nothing and succeeds exactly when complete |
| Accounting.VerifyKeepsCountersExactly | internal/torrent/torrent.go:298-330 | In every state the counters are kept if and only if no flagged piece with bytes fails, no flag changes, and success depends on the flags alone |
| Accounting.VerifyTakesOutWhatFails | internal/torrent/torrent.go:306-311 | What goes from Downloaded to Left is the lengths of the flagged pieces less those of the flagged pieces that pass |
| Accounting.OneFailureCostsItsLength | internal/torrent/torrent.go:306-311 | When one flagged piece fails and the others pass, exactly its length goes from Downloaded to Left |
| Overrun.OverrunSpoilsCompleteDownload | internal/torrent/torrent.go:301-314 | Every well-made torrent of two or more pieces, the last not empty, has from any full files a run that ends complete and is reported as verified with a spoilt second piece; with identifying hashes, verification takes exactly the length of that piece out of Downloaded and leaves its flag |
| Overrun.FailureCosts | internal/torrent/torrent.go:306-311 | On full files, when one flagged piece does not hold and the others do, verification moves exactly its length from Downloaded to Left |
| Torrents.Torrent.constructor | internal/torrent/torrent.go:135-157 | Pieces with their hashes and lengths, none flagged, nothing downloaded, everything left |
| Torrents.Torrent.NewTorrent | internal/torrent/torrent.go:126-171 | Refuses exactly a metainfo with less than one hash, or with files and no single length; otherwise the pieces are those of the metainfo |
| Torrents.Torrent.SetFileManager | internal/torrent/torrent.go:687-715 | The files have the metainfo's lengths, the file manager its piece size and total, and pieces and counters are as before |
| Torrents.Torrent.NewDownload | cmd/bittorrent-client/main.go:121-149 | The main program's calls give, unless a length is negative or the torrent is refused, the state that runs start from: the metainfo's pieces, none flagged, nothing downloaded, the metainfo's files, and a filled store if the paths hold full files |
| Torrents.Torrent.IsComplete | internal/torrent/torrent.go:289-296 | True exactly when every piece is flagged |
| Torrents.Torrent.VerifyPiece | internal/torrent/torrent.go:570-584 | Flags the piece exactly when it reads back with its hash, and changes nothing else |
| Torrents.Torrent.ProcessPiece | internal/torrent/torrent.go:529-568 | The method is the machine's step for a block, new state and result, under any I/O outcome |
| Torrents.Torrent.OnPiece | internal/torrent/torrent.go:448-466 | Any payload whatever is one step of the machine; short ones and unknown pieces are dropped |
| Torrents.Torrent.VerifyDownload | internal/torrent/torrent.go:298-330 | The two loops move failed lengths between the counters, keep all flags, and report whether every piece is flagged |
| Torrents.Torrent.RequestPiece | internal/torrent/torrent.go:497-513 | What goes out is the request frames in order, cut where the connection breaks, and success means all of them |
| Torrents.Torrent.RequestPieces | internal/torrent/torrent.go:489-495 | Starts a request, in order, for exactly the unflagged pieces the peer has |
| Torrents.Torrent.HandlePieceRequest | internal/torrent/torrent.go:515-527 | Sends the piece frame of what can be read, or nothing |
| Torrents.Torrent.OnRequest | internal/torrent/torrent.go:438-446 | Any payload of twelve bytes or more is answered as its three fields say, a shorter one with nothing |
| Torrents.FullFilesMakeTheStore | internal/torrent/torrent.go:690-713 | Files of the metainfo's lengths make a store of their sum, which is the total length for a single file, and for a list of files without a single length exactly while the sum fits int64 |
| Requests.RequestsTileExactlyWhenTheyFit | internal/torrent/torrent.go:504-510 | The requests tile the piece without gap, overlap or empty request if and only if starts and lengths fit uint32; pieces below 2^32 always do |
| Requests.RequestCount | internal/torrent/torrent.go:504-510 | There are as many requests as blocks started, none longer than the piece size |
| Requests.WholePieceRequest | internal/torrent/torrent.go:504-510 | A piece no longer than the piece size is asked for by one request, an empty one by none |
| Swarm.OneRequestPerPiece | internal/torrent/torrent.go:497-513 | Every piece of a non-divisible torrent is asked for by exactly one whole-piece request |
| Swarm.AnswerIsStoredRange | internal/torrent/torrent.go:515-527 | To any request for any range, whatever follows its three fields, any torrent answers with what it has stored from the position of index and begin on, framed under that index and begin, unless a file that reading comes to cannot be read |
| Swarm.AnswerIsOriginalRange | internal/torrent/torrent.go:515-527 | A torrent that has the data answers a request for any range inside a piece with exactly that range of the original |
| Swarm.AnswerIsDelivery | internal/torrent/torrent.go:515-527 | The case of that for a whole piece: what arrives is exactly the delivery of the original bytes of the piece, and nothing else |
| Swarm.AnsweredDownloadCompletes | internal/torrent/torrent.go:438-466 | A download whose requests a complete torrent answers ends complete with the same data, amid any other confined blocks |
| Decimal.ParseFormat | internal/bencode/bencode.go:31-32 | Every int64 printed by %d is read back by ParseInt |
| Decimal.FormatIsShortest | internal/bencode/bencode.go:206 | No accepted digits, signs or leading zeros are shorter than what is printed for their value |
| Decimal.AcceptedSpellings | internal/bencode/bencode.go:206 | Digits are accepted up to the limits of int64, also with zeros before them, with a plus sign, or negated by a minus sign |
| Decimal.RefusedSpellings | internal/bencode/bencode.go:206 | Nothing is accepted that is not digits after at most one sign |
| KeyOrder.LessIsBytewise | internal/bencode/bencode.go:55-57 | One key comes before another if and only if, at the first place where they differ, it has ended or has the smaller byte |
| KeyOrder.SortedKeysAreBytewise | internal/bencode/bencode.go:54-57 | Of any two keys, the one that comes out first is the smaller in that sense |
| KeyOrder.SortedKeysIncrease | internal/bencode/bencode.go:54-57 | Keys come out strictly increasing bytewise |
| KeyOrder.IncreasingIsSorted | internal/bencode/bencode.go:54-57 | An increasing arrangement is determined by the set of keys, so every sort gives the same one |
| KeyOrder.SortKeys | internal/bencode/bencode.go:55-57 | Sorting distinct keys in place gives the arrangement of their set in which of any two keys the earlier one is bytewise smaller |
| BencodeLaws.ParseEncode | internal/bencode/bencode.go:172-290 | A value within the limits, followed by any bytes, is read back and reading stops exactly at those bytes |
| BencodeLaws.RoundTripExactlyWhenEncodable | internal/bencode/bencode.go:26-73 | A value is read back as itself if and only if its integers fit int64 and its strings MaxInt32 |
| BencodeLaws.EncodingIsPrefixFree | internal/bencode/bencode.go:26-73 | No encoding is a prefix of another value's, so encoding is injective |
| BencodeLaws.ParsedIsEncodable | internal/bencode/bencode.go:172-290 | Whatever is decoded is within the limits of encoding |
| BencodeLaws.FromPairsMember | internal/bencode/bencode.go:287 | Every entry of a decoded dictionary is one of the pairs read |
| BencodeReader.AssignLast | internal/bencode/bencode.go:287 | Of repeated keys the last one wins |
| BencodeLaws.ParseEncodeEntries | internal/bencode/bencode.go:263-290 | Entries written under keys in any order, also repeated, are read back in that order |
| Canonical.TakeOut | internal/bencode/bencode.go:59-69 | The length of a dictionary is a sum over its keys, whatever their order |
| Canonical.FromPairsIsNoLonger | internal/bencode/bencode.go:263-290 | Sorting entries and letting the last of repeated keys win never lengthens them |
| Canonical.EncodingIsNoLonger | internal/bencode/bencode.go:172-290 | The encoding of a decoded value is no longer than the bytes it was decoded from |
| Canonical.CanonicalForm | internal/bencode/bencode.go:159-170 | For every accepted input, encoding the result gives bytes that stand for the same value, are no longer, and are a fixed point |
| Canonical.DecodeIsStrict | internal/bencode/bencode.go:159-170 | An encoding followed by anything at all is refused |
| Canonical.ResultIsBoundedByInput | internal/bencode/bencode.go:172-290 | Every success consumes at least two bytes for each node of the result, dictionary keys counted |
| BencodeReader.DecodeValue | internal/bencode/bencode.go:172-192 | With its stepping back, the decoder terminates on all inputs, returns the grammar's value, and leaves the reader right behind it |
| BencodeReader.DecodeInt | internal/bencode/bencode.go:194-207 | Reads up to the next e and accepts exactly what ParseInt does |
| BencodeReader.DecodeString | internal/bencode/bencode.go:209-240 | Accepts exactly lengths from zero to MaxInt32 that the input can supply |
| BencodeReader.DecodeList | internal/bencode/bencode.go:243-261 | The loop returns the grammar's items in order |
| BencodeReader.DecodeDict | internal/bencode/bencode.go:263-290 | The loop returns the grammar's entries assigned in order, the last one winning |
| BencodeReader.DecodeAll | internal/bencode/bencode.go:159-170 | Accepts a value only if nothing follows it |
| BencodeWriter.EncodeValue | internal/bencode/bencode.go:26-73 | Appends one encoding for each value, whatever order the keys of any map inside it are enumerated in |
| BencodeWriter.EncodeSlice | internal/bencode/bencode.go:37-48 | Appends the items in order |
| BencodeWriter.EncodeMap | internal/bencode/bencode.go:49-69 | Appends the entries under the sorted keys, from keys enumerated in any order |
| BencodeWriter.EncodeAll | internal/bencode/bencode.go:14-24 | Returns the encoding of the value |
| Literals.IntLiteral | internal/bencode/bencode.go:30-32 | The three bytes of a one-digit integer |
| Literals.NegativeLiteral | internal/bencode/bencode.go:30-32 | The bytes of -42 |
| Literals.StringLiteral | internal/bencode/bencode.go:33-35 | The bytes of the string spam |
| Literals.EmptyLiterals | internal/bencode/bencode.go:37-69 | The bytes of the empty list and the empty dictionary |
| Literals.ListLiteral | internal/bencode/bencode.go:37-48 | The bytes of the list of 1 and 2, in that order |
| Literals.DictLiteral | internal/bencode/bencode.go:49-69 | The bytes of a dictionary with the keys b and a: a comes first |
| TrackerDecoder.DecodeString | internal/tracker/tracker.go:272-292 | The loop splits off one string as int64 arithmetic and slice bounds allow |
| TrackerDecoder.DecodeInteger | internal/tracker/tracker.go:311-327 | The loop splits off one integer |
| TrackerDecoder.DecodeValue | internal/tracker/tracker.go:294-309 | Dispatches on the first byte and returns value and remainder, or fails |
| TrackerDecoder.DecodeList | internal/tracker/tracker.go:329-345 | The loop returns all items and the bytes behind the list |
| TrackerDecoder.DecodeDictionary | internal/tracker/tracker.go:248-270 | The loop returns the last value of each key and the bytes behind the dictionary |
| TrackerDecoder.StringsCompare | internal/tracker/tracker.go:272-292 | The limited string reader is the tracker's, failing also on strings longer than MaxInt32 |
| TrackerDecoder.KeysCompare | internal/tracker/tracker.go:251-254 | Reading a value and asking for a string is reading a string, up to that limit |
| TrackerDecoder.DecodersAgreeExactlyWithoutLongStrings | internal/tracker/tracker.go:248-345 | On all inputs the two decoders agree on value, remainder and failure if and only if the tracker's does not succeed past a string longer than MaxInt32, at any depth; where it does, the other fails |
| TrackerDecoder.DecodersAgree | internal/tracker/tracker.go:248-345 | On inputs shorter than 2^31 bytes the decoders always agree; on all inputs the tracker's accepts what the other accepts, with the same result |
| TrackerDecoder.LongStringsDisagree | internal/bencode/bencode.go:228-230 | A concrete family for the other side: every string longer than MaxInt32, as encoded, is accepted by the tracker's decoder alone |
| Wire.Uint32RoundTrip | internal/peer/peer.go:207-209 | Four big-endian bytes, whatever follows, give back the number |
| Wire.ReceivedAsSentExactlyWhenItFits | internal/peer/peer.go:169-221 | A message arrives as sent if and only if its type is a byte and its frame fits a uint32 |
| Wire.WhatArrives | internal/peer/peer.go:169-221 | Of any message whatever: its type arrives reduced to a byte and its payload cut where its length, reduced to uint32, ends; and exactly which lengths panic |
| Wire.KeepAliveLooksLikeChoke | internal/peer/peer.go:185-188 | A keep-alive is received exactly as a Choke without payload |
| Wire.StreamRoundTrip | internal/peer/peer.go:169-221 | Messages written back to back are read back in order and every byte is used |
| Wire.RequestFieldsRecovered | internal/peer/peer.go:261-267 | The handler's slicing recovers the three fields of a request |
| Wire.PieceFieldsRecovered | internal/peer/peer.go:269-275 | The handler's slicing recovers index, begin and data of a piece |
| Literals.BigEndian | internal/peer/peer.go:207-209 | Numbers are written and read with the most significant byte first |
| Literals.FrameLiterals | internal/peer/peer.go:201-275 | The bytes of one request frame and of one piece frame |
| Wire.NewRequestMessage | internal/peer/peer.go:261-267 | Fills a buffer with the request payload |
| Wire.NewPieceMessage | internal/peer/peer.go:269-275 | Fills a buffer with the piece payload |
| Wire.Conn.SendMessage | internal/peer/peer.go:201-221 | Writes the frame, a prefix of it if the connection breaks, nothing if filling the buffer panics |
| Wire.Conn.ReadMessage | internal/peer/peer.go:169-198 | Consumes exactly one message, or reports that the input ends inside it |
| Bitfields.SetPieceAddsExactlyOne | internal/peer/peer.go:53-70 | For all indices, negative ones included, setting a piece adds that index if it is in range and changes nothing else |
| Bitfields.HavesAddTheInRangeOnes | internal/torrent/torrent.go:428-431 | After any run of Have messages the set is the old one plus the in-range indices |
| Bitfields.MembersAreInRange | internal/peer/peer.go:53-60 | Only indices inside the bitfield are ever members |
| Bitfields.MembersOfPayload | internal/peer/peer.go:53-60 | Index i is a member of a received bitfield if and only if bit i % 8, most significant first, of byte i / 8 is one, said in whole numbers for all i |
| Bitfields.NewBitfield | internal/peer/peer.go:48-50 | Room for the given number of pieces, none of them present |
| Bitfields.SetPiece | internal/peer/peer.go:63-70 | The in-place change is the set's insertion |
| Bitfields.OnBitfield | internal/torrent/torrent.go:433-436 | A Bitfield message replaces the set by exactly the indices whose bit is one in the payload |
| Bitfields.OnHave | internal/torrent/torrent.go:428-431 | A Have message inserts the index in its first four bytes |
| PeerCount.CountIsRightExactlyWithoutDhtEndsAndCleanups | internal/torrent/torrent.go:825-840 | In every run the counter is the running handlers less ended DHT connections less cleaned entries; it is right if and only if no DHT wrapper has returned and no cleanup has met the table |
| PeerCount.TrackerPeersAreCounted | internal/torrent/torrent.go:671-676 | With tracker peers only the counter is the number of running handlers and never negative |
| PeerCount.OneDhtPeerLeavesMinusOne | internal/torrent/torrent.go:832-840 | One DHT peer that comes and goes leaves the counter at minus one |
| PeerCount.PeerTable.CleanupDisconnectedPeers | internal/torrent/torrent.go:361-373 | The loop uncounts each idle peer once and leaves in the table exactly the peers that were active at the deadline or later, with their times |
| PeerCount.PeerTable.TrackerConnected | internal/torrent/torrent.go:671-673 | Counts one more and leaves the table |
| PeerCount.PeerTable.DhtConnected | internal/torrent/torrent.go:825-828 | Counts one more and enters the peer |
| PeerCount.PeerTable.HandlerExit | internal/torrent/torrent.go:376-381 | Uncounts one, whoever started the handler |
| PeerCount.PeerTable.DhtWrapperEnds | internal/torrent/torrent.go:832-838 | Removes the peer from the table and uncounts one |

## Left out

- Sockets, deadlines, timers, retries, keep-alive goroutine, rate limiter, DHT and tracker exchanges: I/O and libraries that are not part of this model; a connection is a byte sequence with a limit on what it takes.
- File paths, directories, sync and close, and files that cannot be opened: operating-system calls; a file is its stored bytes and declared length.
- Two entries of one torrent that name the same path: files are values in a list, so sharing one file is not captured.
- Negative file lengths in the store: the main program calls `CreateFiles` first, which fails on them (`Torrents.Torrent.NewDownload`), so `Initialize` and `SetFileManager` are modelled for declared lengths that are not negative.
- FileManagers.FileManager.ReadPiece: does not model that Go's `os.File.Read` returns at most 1 GiB (2^30 bytes) at a time; a genuine piece with more than that in one file is read short and refused.
- MetaInfos.MetaInfo.HasInfoHash: states that file entries cannot be encoded; structs themselves are not among the modelled values.
- Engine.Step: keeps Downloaded and Left as unbounded integers; wrapping them takes 2^63 delivered bytes.
- `Unmarshal`, `populateValue`, `ParseMetaInfo`, magnet links: the Go type system is their content; the model starts from a given MetaInfo.
- SHA-1 and `InfoHash`: the hash is a parameter; of `InfoHash` only whether it fails is modelled.
- Exit codes and messages of the main program: `NewDownload` returns nothing where the program exits.
- Encoding of nil, of other kinds and of maps whose keys are not strings: outside the values that decoding returns.
- BencodeWriter.EncodeMap: writes each key as a string directly where the source calls the encoder on it; the algorithm inside `sort.Slice` is a selection sort.
- Handshakes, peer lists, failed-peer expiry, progress reports, logging: simple members.
- Unlocked reads of the pieces by other goroutines: each call is one atomic step.
- `handlePeer` messages Choke to NotInterested, Cancel and unknown types: they set one flag or log.
