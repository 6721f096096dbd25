# Verification of peer-pressure

`peer-pressure` is a BitTorrent client written from scratch in Go. This project
models its logic in Dafny and proves what its protocols, codecs and data
structures promise. SHA-1, SHA-256 and Ed25519 are parameters of the model;
clocks are nondecreasing numbers; peers, servers, disks and files are arbitrary
sequences of messages, replies or bytes.

| module | files | what it models |
|---|---|---|
| Bytes, Powers, FiniteSets, Decimal, ByteOrder | same names | byte strings, powers of two, counting, decimal text, key order |
| TorrentLayout, BlockAssembly | same names | the piece grid and the block download of one piece |
| PiecePicker | PiecePicker.dfy | the shared rarest-first picker with endgame |
| Reservation, ReservationRuns, ReservationProgress, PieceDelivery, EndgameDuplicates | same names | the piece reservation protocol of peer and seed workers as a step system |
| DownloadSession | Session.dfy | the loop that collects results into the file |
| DownloadedData | same name | the downloaded file as the data check reads it |
| Bencode, BencodeLaws, BencodeRaw | same names | the codec, its laws, raw dictionaries and the info-hash |
| BencodeGrammar, BencodeRawGrammar | same names | the bencode language as a grammar on bytes, which the decoders accept exactly |
| Merkle | Merkle.dfy | BEP 52 hash trees |
| PieceHashing, DataVerification | same names | torrent creation and data verification |
| NodeIds, Routing | NodeIds.dfy, RoutingTable.dfy | Kademlia identifiers and the routing table (BEP 5) |
| LookupRounds, Lookup | same names | the iterative lookups of nodes and of peers |
| MutableStore | MutableStore.dfy | the BEP 44 store |
| Utp, RttEstimator | same names | the uTP packet codec (BEP 29) and the RTT estimator |
| SelectOnly | SelectOnly.dfy | BEP 53 index lists |
| Throttle | Throttle.dfy | the token bucket and the throttled writer |

Loops and objects of the source are methods and classes, each proved against a
function that says what it computes; the laws are lemmas about those functions.
The reservation protocol is concurrent, so it is a step system: one action is
one critical section of the picker's lock, one channel operation, or one message
handled by a reader, and a run is any sequence of enabled actions of any number
of workers.

Where the code does less than its comments or callers expect, the model keeps
the code and proves the exact condition under which it does what they expect:

- In endgame two workers can produce the same piece, and `File` counts both
  results, so it can return success with a piece never written. No piece is
  produced twice exactly when no worker finishes a piece that is done already,
  which never happens before endgame or with one peer worker at a time. A success
  with distinct results is always right; any other is right exactly when every
  piece it never wrote was right in the initial file.
- The comment that the job queue bounds the pieces in flight (pipeline.go:21-22)
  holds exactly for torrents with no more pieces than the queue has room for: the
  reader drains the queue into its active set.
- A piece counts as complete after as many blocks as it has, whatever they cover.
  From right blocks the buffer is right exactly when they cover every nonzero byte.
- A piece read goes on with the next file when one is too short. It is right
  exactly when the files that hold the piece reach far enough and do not fail.
- The bencode decoder accepts spellings the encoder never writes; re-encoding
  reproduces the input exactly when its numbers were in shortest spelling.
- A Merkle proof is checked against the absolute value of the index modulo the
  tree size, which is the index itself exactly when that is in range. The length of
  the proof is not checked: what is accepted for each length is stated.
- In endgame a worker can be given a piece it is already filling; registering it
  again, and nothing else, throws away the blocks received.
- A BEP 44 put with the held sequence number and another value is accepted and
  not stored; an accepted value is stored in every other case.
- A printed index list is parsed back exactly when it has no negative index and no
  run that ends at the largest 64-bit integer, where the range loop never ends.

Torrents are assumed well formed where their layout matters: a positive piece
length and one hash per started piece. The parser does not check this.

## Model

| member | source | states |
|---|---|---|
| PiecePicker.Picker.constructor | peer-pressure/download/picker.go:26-34 | a new picker has zero counts, nothing done, nothing in flight and endgame off |
| PiecePicker.Picker.AddPeer | peer-pressure/download/picker.go:38-47 | adds one to exactly the counts of the pieces in the bitfield; nothing else changes |
| PiecePicker.Picker.RemovePeer | peer-pressure/download/picker.go:49-58 | takes one from exactly the counts of the pieces in the bitfield; nothing else changes |
| PiecePicker.Picker.Pick | peer-pressure/download/picker.go:67-107 | outside endgame the choice is an eligible piece of least count and becomes in flight; with nothing eligible and everything left reserved, endgame starts and a duplicate is chosen; otherwise none, state unchanged |
| PiecePicker.Picker.PickEndgame | peer-pressure/download/picker.go:111-126 | an unfinished in-flight piece the peer has, or none only if there is none |
| PiecePicker.Picker.ShouldEnterEndgame | peer-pressure/download/picker.go:130-143 | true exactly when all unfinished pieces are in flight and there is one |
| PiecePicker.Picker.Finish | peer-pressure/download/picker.go:153-158 | the piece is done and not in flight; no other piece changes |
| PiecePicker.Picker.Abort | peer-pressure/download/picker.go:168-172 | the piece is not in flight; nothing else changes |
| PiecePicker.RunCountsPeers | peer-pressure/download/picker.go:38-58 | over any run of picker operations each count equals the number of registered bitfields with that piece |
| PiecePicker.PickIsRarestFirst | peer-pressure/download/picker.go:59-107 | after any run, a choice outside endgame has least availability among the pieces the peer has that are neither done nor in flight |
| PiecePicker.PickDecides | peer-pressure/download/picker.go:67-126 | in terms of the marks: a pick is of an unfinished piece the peer has, and of none only if it must be; unless it starts endgame it is one of least count among those not reserved (all, in endgame) and becomes reserved; starting endgame reserves nothing new |
| PiecePicker.BitOfPiece | peer-pressure/download/picker.go:201-208 | bit 7 of the first byte is piece 0, down to bit 0 for piece 7, and so on |
| PiecePicker.MakeFullBitfield | peer-pressure/download/piece.go:125-142 | the bitfield has exactly the pieces of the torrent, spare bits clear |
| Reservation.StepKeepsWorkerOk | peer-pressure/download/pipeline.go:34-204 | every step keeps each worker consistent: job buffers have the piece's length, blocks received stay below the count until the piece is being settled, the queue stays within the depth, verified results match length and hash, a finished worker holds nothing |
| Reservation.StepMoves | peer-pressure/download/pipeline.go:39-204 | a step adds a reservation only of an unfinished piece now marked in flight (already marked only in endgame), and drops one only if the mark is cleared, another is held, or the piece is done |
| Reservation.StepProduces | peer-pressure/download/pipeline.go:166-197 | a step produces a verified result for a piece exactly when it is the step that finishes that piece |
| Reservation.StepFinishes | peer-pressure/download/picker.go:153-158 | a step changes the done marks exactly at the piece it finishes |
| Reservation.StepKeepsInv | peer-pressure/download/pipeline.go:39-204 | every step of any worker keeps the system invariant |
| Reservation.RunKeepsInv | peer-pressure/download/pipeline.go:39-204 | the system invariant holds after any interleaving of any length |
| Reservation.NoPieceIsLost | peer-pressure/download/pipeline.go:85-95 | in every reachable state an in-flight piece is not done and is held by a worker that has not returned; with endgame off, in flight means held exactly once and nothing else is held |
| Reservation.ReturnedHoldsNothing | peer-pressure/download/pipeline.go:85-95 | a returned download holds no reservation in hand, queue or active set; when all have returned no piece is in flight |
| Reservation.RunGrows | peer-pressure/download/picker.go:152-158 | over any run done marks and endgame never revert and sent results stay |
| ReservationProgress.NobodyIsStuck | peer-pressure/download/pipeline.go:39-204 | in every reachable state every worker that is still there can take a step that is no error: it waits at most for its own peer |
| ReservationProgress.SenderEnds | peer-pressure/download/pipeline.go:42-72 | being offered nothing ends a seed's download and a peer worker's sender, and so does a failed write, which frees the piece in hand; a stopped sender reserves nothing more |
| ReservationProgress.FailureAborts | peer-pressure/download/pipeline.go:127-142 | a failure of the reader or a choke makes it give everything back, and changes nothing else |
| ReservationProgress.AbortingGivesBack | peer-pressure/download/pipeline.go:85-95 | from then on its steps only free pieces until it holds none and returns; it sends no more results |
| ReservationProgress.RunInOrder | peer-pressure/download/pipeline.go:42-83 | over any run the pieces that reach a worker's reader are a first part of those pending and reserved since, in the order of reservation |
| PieceDelivery.BlockLands | peer-pressure/download/pipeline.go:148-160 | each byte of a block that fits an active piece goes to its own place in the buffer, the count goes up by one, and nothing else changes; any other block changes nothing |
| PieceDelivery.DeliveredIsComplete | peer-pressure/download/pipeline.go:148-166 | from any invariant state, once a job without blocks has received each block of a genuine piece, in any order and with any other steps in between, its buffer is the piece and it is being settled |
| PieceDelivery.RegisterStarts | peer-pressure/download/pipeline.go:76-81 | a registered piece starts with no blocks and a zero buffer of its length |
| PieceDelivery.AskDoneDecides | peer-pressure/download/pipeline.go:168-173 | a complete piece that is done is dropped without a result, one that is not goes on to verification |
| PieceDelivery.SettleDecides | peer-pressure/download/pipeline.go:175-197 | with the torrent's hash the piece is done and a verified result of exactly its bytes follows; otherwise it is free again and a failure follows |
| PieceDelivery.DeliveredIsVerified | peer-pressure/download/pipeline.go:168-197 | so a genuine piece that has arrived and is not done when asked for becomes a verified result with its bytes |
| PieceDelivery.SendingIsSent | peer-pressure/download/pipeline.go:179-197 | a result about to be sent stays so until it is sent, unchanged |
| PieceDelivery.FetchDecides | peer-pressure/download/webseed.go:79-110 | a fetched body is verified exactly when it has the piece's length and hash; otherwise the piece is free again |
| ReservationRuns.ProducedOnceIffNeverRepeats | peer-pressure/download/pipeline.go:166-191 | from a state in which no piece was produced twice, none is at the end of a run exactly when no step of the run finishes a piece that is done already: the test that webseed.go:109 lacks and pipeline.go:170 makes too early |
| ReservationRuns.DistinctWhenNeverRepeats | peer-pressure/download/pipeline.go:166-191 | a run without such a step sends verified results for distinct pieces only |
| ReservationRuns.ReservationsAreRarestFirst | peer-pressure/download/picker.go:67-107 | in every reachable state a reservation outside endgame takes an unheld, unfinished piece offered by fewest connected workers |
| ReservationRuns.DistinctBeforeEndgame | peer-pressure/download/pipeline.go:166-197 | until endgame starts the verified results of all workers are for distinct pieces |
| ReservationRuns.DoneMeansProduced | peer-pressure/download/pipeline.go:186-191 | in every reachable state a piece is done exactly when a verified result for it was produced |
| ReservationRuns.DistinctWhenSolo | peer-pressure/download/pipeline.go:166-173 | with one peer worker at a time and no seeds, verified results are for distinct pieces over the whole run, endgame included |
| ReservationRuns.DepthBoundsOnlyTheQueue | peer-pressure/download/pipeline.go:21-22 | the queue never exceeds the depth; what a worker has active, and all it has in flight, stays within the depth in every reachable state exactly when the torrent has no more pieces than the depth |
| ReservationRuns.BlocksLostIffRegisteredAgain | peer-pressure/download/pipeline.go:98-102 | a step lowers the block count of a job that stays active exactly when its worker registers the same piece again, which happens only in endgame |
| ReservationRuns.BlocksCanBeLost | peer-pressure/download/pipeline.go:98-102 | for every torrent and piece of at least two blocks a reachable state has one worker about to do so |
| EndgameDuplicates.SeedsDuplicate | peer-pressure/download/webseed.go:95-110 | a run of three seed workers on any two-piece torrent that yields two verified results for piece 0 and none for piece 1 |
| EndgameDuplicates.PeersDuplicate | peer-pressure/download/pipeline.go:166-191 | the same with two peer workers that both pass the done check before either finishes |
| EndgameDuplicates.DuplicateSuccessVerifiesIff | peer-pressure/download/session.go:45-54 | in both runs the resulting file is verified exactly when the piece never written was genuine in the initial file |
| DownloadSession.CollectResults | peer-pressure/download/session.go:143-179 | the file is the initial file with the consumed verified results written in order, and after a failed write the part of that piece the disk took; success means as many verified results as pieces, incompleteness means the channel closed with fewer |
| DownloadSession.WriteAt | peer-pressure/download/session.go:152-155 | exactly the given range of the file is replaced |
| DownloadSession.WritesAreVerified | peer-pressure/download/session.go:143-165 | of every piece written, the bytes from index times piece length on have the piece's hash; of every other piece they are what they were |
| DownloadSession.SuccessCoversIffDistinct | peer-pressure/download/session.go:142-165 | on success every piece was written exactly when the counted results are for distinct pieces |
| DownloadSession.VerifiedIffWrittenOrGenuine | peer-pressure/download/session.go:142-165 | whatever the results, the file ends up with every piece genuine exactly when each piece was written or was genuine in the initial file |
| DownloadSession.SuccessVerifies | peer-pressure/download/session.go:142-179 | a success with distinct results leaves every piece genuine; with a duplicate some piece is still what it was, and the file is verified exactly when every unwritten piece was genuine already |
| DownloadSession.UnrepeatedSuccessIsVerified | peer-pressure/download/session.go:143-179 | success after a run in which no step finished a done piece leaves every piece genuine |
| DownloadSession.SoloSuccessIsVerified | peer-pressure/download/session.go:143-179 | a successful download by one peer worker at a time leaves every piece of the file verified |
| DownloadSession.EarlySuccessIsVerified | peer-pressure/download/session.go:143-179 | the same for any workers as long as endgame has not started |
| DownloadedData.GenuineIffReadValid | peer-pressure/seed/verify.go:22-53 | a piece of the downloaded file is genuine exactly when the data check, reading that file cut into the torrent's files, finds it valid |
| DownloadedData.DownloadThenVerify | peer-pressure/download/session.go:142-179 | downloading and then checking: the check reports exactly the pieces that are not genuine, and none after a success with distinct results |
| DownloadedData.UnrepeatedDownloadReadsValid | peer-pressure/download/session.go:142-179 | every piece reads as valid after a success of a run in which no step finished a done piece |
| TorrentLayout.ComputeTotalLength | peer-pressure/torrent/torrent.go:104-113 | the length of a single-file torrent, or the sum of the file lengths |
| TorrentLayout.PiecesPartition | peer-pressure/torrent/torrent.go:93-101 | piece ranges are nonempty, fit and partition the data: byte k is in piece i exactly when i is k divided by the piece length |
| TorrentLayout.PieceRangesDisjoint | peer-pressure/torrent/torrent.go:93-101 | an earlier piece ends before a later one starts |
| TorrentLayout.BlockRequests | peer-pressure/download/pipeline.go:53-64 | the requests are nonempty blocks of at most 16 KiB that tile the piece in order |
| BlockAssembly.DownloadBlocks | peer-pressure/download/piece.go:148-228 | the outcome, error cases included, is the specified one for every message sequence; a request that could not be sent counts once all blocks are in |
| BlockAssembly.EndsAt | peer-pressure/download/piece.go:184-220 | after messages that pass, with blocks still missing, the next message that does not pass decides the error, and the end of the messages is a lost connection |
| BlockAssembly.CompletesAt | peer-pressure/download/piece.go:184-220 | with as many blocks as the piece has among messages that pass, the piece is assembled |
| BlockAssembly.AnsweredIsAssembled | peer-pressure/download/piece.go:184-227 | if each request is answered once, in any order and between any other messages, the buffer is the piece |
| BlockAssembly.AssembledIffCovered | peer-pressure/download/piece.go:184-227 | from blocks that fit and carry their own bytes, the assembled buffer is the piece exactly when the blocks counted cover every nonzero byte |
| BlockAssembly.RepeatedBlockCompletes | peer-pressure/download/piece.go:208-209 | an instance in which they do not: one block sent twice completes a two-block piece with the other block still zero |
| Bencode.AppendEncoded | peer-pressure/bencode/bencode.go:62-99 | the buffer grows by exactly the encoding of the value, dictionary keys sorted |
| Bencode.RunDecodeString | peer-pressure/bencode/bencode.go:217-246 | the string parser accepts and rejects exactly as specified, with the same error |
| Bencode.EndOverflowsIff | peer-pressure/bencode/bencode.go:238-245 | the end of the string in 64-bit arithmetic is the true end exactly when that fits; otherwise it is negative, and the model gives the too-short error |
| Bencode.RunDecodeInt | peer-pressure/bencode/bencode.go:249-283 | the integer parser accepts and rejects exactly as specified, with the same error |
| Bencode.RunDecodeValue | peer-pressure/bencode/bencode.go:197-214 | the dispatch computes the specified parse |
| Bencode.RunDecodeList | peer-pressure/bencode/bencode.go:286-305 | the list loop computes the specified parse |
| Bencode.RunDecodeDict | peer-pressure/bencode/bencode.go:308-348 | the dictionary loop computes the specified parse, rejecting unsorted keys |
| Bencode.DecodeValue | peer-pressure/bencode/bencode.go:197-214 | every success consumes input and leaves a suffix of it |
| BencodeGrammar.DecodedIffSpelled | peer-pressure/bencode/bencode.go:197-348 | the decoder accepts exactly the texts of a grammar given on bytes, each for its value and whatever follows: strings by decimal length, integers without leading zero, lists, and dictionaries with keys in strictly ascending byte order |
| BencodeGrammar.EncodingIsShortestSpelling | peer-pressure/bencode/bencode.go:62-99 | the encoder writes the one spelling of a value that is shorter than all others |
| BencodeGrammar.UnsortedRefused | peer-pressure/bencode/bencode.go:331-336 | a key that does not come strictly after the one before it is a format error |
| BencodeGrammar.StringFails | peer-pressure/bencode/bencode.go:217-244 | a string ends too early exactly when its length is read and too large |
| BencodeGrammar.IntFails | peer-pressure/bencode/bencode.go:250-253 | an integer ends too early exactly with fewer than three bytes |
| Decimal.FormatParses | peer-pressure/bencode/bencode.go:66-74 | parsing the printed form of a 64-bit integer gives it back |
| Decimal.FormatShortest | peer-pressure/bencode/bencode.go:233-277 | re-printing a parsed number is never longer, and as long only when the text was canonical |
| Decimal.ParsedIffSpelled | peer-pressure/bencode/bencode.go:234 | the number parser accepts exactly digits with an optional sign whose positional value fits 64 bits, for that value |
| BencodeLaws.RoundTrip | peer-pressure/bencode/bencode.go:62-99 | decoding an encoded value before any suffix gives exactly the value and the suffix, for arbitrarily nested values |
| BencodeLaws.EncodingPrefixFree | peer-pressure/bencode/bencode.go:57-99 | no encoding is a prefix of another |
| BencodeLaws.EncodingInjective | peer-pressure/bencode/bencode.go:57-99 | encodings are equal exactly when the values are |
| BencodeLaws.ValueRespells | peer-pressure/bencode/bencode.go:197-348 | a decoded value can be encoded again, giving the consumed bytes if all its numbers were in shortest spelling and strictly fewer otherwise |
| BencodeLaws.Reencoding | peer-pressure/bencode/bencode.go:110-119 | for every accepted input the re-encoded value decodes to itself, is never longer, and equals the input exactly when the input was plain |
| BencodeLaws.NonCanonicalStringAccepted | peer-pressure/bencode/bencode.go:225-236 | `03:abc` is accepted although the encoder never writes it |
| BencodeLaws.NonCanonicalIntAccepted | peer-pressure/bencode/bencode.go:269-280 | `i+5e` and `i-03e` are accepted although the encoder never writes them |
| BencodeRaw.ValueLocal | peer-pressure/bencode/bencode.go:182-195 | a parse depends only on the bytes it consumes |
| BencodeRaw.RunDecodeDictRaw | peer-pressure/bencode/bencode.go:141-180 | the raw dictionary loop computes the specified result |
| BencodeRaw.RawAgreesWithDict | peer-pressure/bencode/bencode.go:141-180 | the raw decoder succeeds exactly when the dictionary decoder does, with the same keys and values, and each raw slice alone decodes to its value |
| BencodeRawGrammar.DictRawIffSpelled | peer-pressure/bencode/bencode.go:141-180 | the raw decoder succeeds exactly on texts that begin with a dictionary, and gives each key with the bytes that spell its value there |
| BencodeRawGrammar.InfoHashIsOfSlice | peer-pressure/torrent/torrent.go:273-278 | the info-hash is the hash of the bytes in the input that spell the value of `info` |
| BencodeRaw.RawDictOfEncoded | peer-pressure/bencode/bencode.go:138-180 | on an encoded dictionary each raw slice is the encoding of its value |
| BencodeRaw.InfoHashOfEncoded | peer-pressure/torrent/torrent.go:272-278 | the info-hash of an encoded torrent is the hash of its re-encoded info dictionary |
| BencodeRaw.InfoHashNeedsRaw | peer-pressure/torrent/torrent.go:277-278 | the raw info bytes equal the re-encoded ones exactly when their numbers are in shortest spelling |
| ByteOrder.SortedAscends | peer-pressure/bencode/bencode.go:87-91 | the key order of the encoder is strictly ascending |
| ByteOrder.SortedInOrder | peer-pressure/bencode/bencode.go:86-91 | the sorted keys are the keys, each before all later ones by prefix or the smaller byte at the first difference |
| ByteOrder.LessIsPrecedes | peer-pressure/bencode/bencode.go:331-336 | the order of keys is that relation |
| Merkle.MerkleRoot | peer-pressure/torrent/merkle.go:113-122 | the loop computes the layer-by-layer root |
| Merkle.FoldIsTree | peer-pressure/torrent/merkle.go:113-122 | on 2^h leaves the layer-by-layer root is the recursive split-in-half root |
| Merkle.RootOfHalves | peer-pressure/torrent/merkle.go:113-129 | the root of two halves side by side is the hash of the left root followed by the right one |
| Merkle.MerkleLayers | peer-pressure/torrent/merkle.go:75-94 | layers start with the leaves, each hash above is the hash of its two neighbours below with the left one first, the last layer is the root alone |
| Merkle.VerifyMerkleProof | peer-pressure/torrent/merkle.go:99-111 | accepts exactly when the leaf and its uncles give the root, for any integer index under truncating division |
| Merkle.ProofClimbs | peer-pressure/torrent/merkle.go:99-111 | the check climbs from the leaf, each uncle hashed on the right of an even node and on the left of an odd one |
| Merkle.HalfAndOdd | peer-pressure/torrent/merkle.go:102-108 | an index is twice its truncated half plus its remainder, which has its sign |
| Merkle.SiblingPathAccepted | peer-pressure/torrent/merkle.go:96-111 | the sibling path of every leaf is accepted |
| Merkle.ForgedProofCollides | peer-pressure/torrent/merkle.go:96-111 | an accepted proof of full length with another leaf, or another path, exhibits two 64-byte inputs with one hash |
| Merkle.IndexAliases | peer-pressure/torrent/merkle.go:99-111 | an index gets the verdict of its absolute value modulo the tree size: its range is not checked |
| Merkle.PositionIsIndexIff | peer-pressure/torrent/merkle.go:99-111 | the position an index stands for is the index itself exactly when the index is in range |
| Merkle.AcceptedIffAtPosition | peer-pressure/torrent/merkle.go:96-111 | a full-length proof is accepted at any index when it is the leaf and sibling path of the position that index stands for, and otherwise acceptance exhibits two 64-byte inputs with one hash |
| Merkle.ShortProofIsOfLayer | peer-pressure/torrent/merkle.go:96-111 | a proof shorter than the tree is high is accepted at any index when it is a node and sibling path of the layer of its own height, and otherwise acceptance exhibits a collision |
| Merkle.LongProofLeadsToLeaf | peer-pressure/torrent/merkle.go:96-111 | a longer proof is accepted when its first levels lead to the leaf whose sibling path the rest is, and otherwise acceptance exhibits a collision |
| Merkle.NextPow2 | peer-pressure/torrent/merkle.go:131-140 | the least power of two that is at least n |
| Merkle.MerkleLeaves | peer-pressure/torrent/merkle.go:41-59 | one hash per 16 KiB block, padded with zero hashes to the next power of two; empty data is one leaf |
| Merkle.LeafCountIs | peer-pressure/torrent/merkle.go:41-59 | there is a leaf for exactly the blocks that start inside the data |
| Merkle.MerkleHash | peer-pressure/torrent/merkle.go:15-37 | the root over those leaves |
| Merkle.MerkleHashBinds | peer-pressure/torrent/merkle.go:11-37 | two different files of one size with the same root exhibit a collision |
| PieceHashing.HashMultiFiles | peer-pressure/torrent/create.go:205-256 | succeeds exactly when all files are readable, and then gives the hashes of the fixed-size pieces of the concatenated contents, whatever the read sizes |
| PieceHashing.HashFile | peer-pressure/torrent/create.go:180-203 | the same for one file read in full buffers |
| PieceHashing.ChoosePieceLength | peer-pressure/torrent/create.go:258-270 | the requested size, or a doubling of 16 KiB within 16 MiB that reaches a 1500th of the total and is the least such |
| PieceHashing.SplitPieces | peer-pressure/torrent/torrent.go:316-323 | accepts exactly multiples of 20 bytes and splits them into the digests that join back to the string |
| PieceHashing.JoinedInjective | peer-pressure/torrent/torrent.go:319-323 | the string of digests determines the digests |
| PieceHashing.JoinedAt | peer-pressure/torrent/create.go:180-226 | digest i is bytes 20 i to 20 i + 20 of the string |
| PieceHashing.PieceHashesAt | peer-pressure/torrent/create.go:180-203 | digest i is the hash of piece i of the data |
| DataVerification.NewLayout | peer-pressure/seed/verify.go:67-99 | each file's span starts at the sum of the sizes before it |
| DataVerification.ReadPiece | peer-pressure/seed/verify.go:102-138 | for files of any size and with failing reads, the buffer starts with exactly the bytes that the spans deliver, and the read succeeds exactly when nothing broke and the buffer is full |
| DataVerification.ReadRightIffIntact | peer-pressure/seed/verify.go:102-138 | a read delivers every byte from its own place exactly when the files that hold the range reach to the end of their part of it and do not break, whatever the other files are like |
| DataVerification.ShortFileSpills | peer-pressure/seed/verify.go:115-127 | what a short file lacks is read from the start of the next one |
| DataVerification.HealthyRead | peer-pressure/seed/verify.go:102-138 | on files of their recorded sizes every read is that range of their concatenation |
| DataVerification.VerifyData | peer-pressure/seed/verify.go:22-53 | for files of any size, changing or failing between reads, lists in order exactly the pieces whose read is not complete or has another hash; valid and invalid counts add up |
| DataVerification.HealthyValid | peer-pressure/seed/verify.go:22-53 | on files of their recorded sizes a piece is found valid exactly when that chunk of the data has the torrent's hash |
| DataVerification.CreatedDataIsValid | peer-pressure/seed/verify.go:19-53 | a torrent with the created hashes is well formed and all pieces of its files are valid |
| DataVerification.CreateThenVerify | peer-pressure/seed/verify.go:19-53 | hashing readable files in any chunks, storing, parsing back and verifying them counts every piece of their concatenation and finds all valid |
| NodeIds.ComputeXor | peer-pressure/dht/table.go:18-25 | the loop computes the bytewise XOR |
| NodeIds.XorInvolutive | peer-pressure/dht/table.go:18-25 | the distance from an identifier determines the other one |
| NodeIds.XorSymmetric | peer-pressure/dht/table.go:18-25 | distance is symmetric |
| NodeIds.CompareDist | peer-pressure/dht/table.go:137-147 | the loop computes the comparison at the first differing byte |
| NodeIds.CompareIsNumeric | peer-pressure/dht/table.go:137-147 | comparison is numeric order of the big-endian values, zero exactly for equal identifiers |
| NodeIds.ComputeBucketIndex | peer-pressure/dht/table.go:30-37 | the loop computes the bucket index |
| NodeIds.BucketIndexIsLog2 | peer-pressure/dht/table.go:27-37 | the index is the floor of log2 of the big-endian value, -1 exactly for zero |
| NodeIds.BucketOfSelf | peer-pressure/dht/table.go:54-57 | an identifier has no bucket exactly when it is the own one |
| NodeIds.RandomIDInBucket | peer-pressure/dht/node.go:494-518 | for every own identifier, filling and index the result is in that bucket, and every identifier of the bucket is reached |
| Routing.InsertKeepsTable | peer-pressure/dht/table.go:53-80 | insertion keeps the table in order, adds at most the given identifier and drops none; success makes the node the most recently seen of its bucket, and a refusal changes nothing |
| Routing.InsertDecides | peer-pressure/dht/table.go:53-80 | a node is refused exactly when it is the own one or would be a ninth of its bucket; otherwise its bucket becomes the others in their order and then the node, and the other buckets stay |
| Routing.RemoveKeepsTable | peer-pressure/dht/table.go:83-99 | removal keeps the table in order and removes exactly that identifier |
| Routing.RemoveDecides | peer-pressure/dht/table.go:84-101 | removal takes the node out of its bucket and leaves all others in order |
| Routing.AnyRunIsOk | peer-pressure/dht/table.go:53-99 | after any run every node is in the bucket of its distance, identifiers are distinct, buckets hold at most 8, and the own identifier is absent |
| Routing.RoutingTable.Insert | peer-pressure/dht/table.go:53-80 | the table becomes the specified one and the result is the specified one |
| Routing.RoutingTable.Remove | peer-pressure/dht/table.go:83-99 | the table becomes the specified one |
| Routing.RoutingTable.Closest | peer-pressure/dht/table.go:102-123 | exactly the n nearest entries in strictly increasing distance |
| Routing.SortByDistance | peer-pressure/dht/node.go:403-414 | in place: a permutation in nondecreasing distance |
| Lookup.IdSpace | peer-pressure/dht/node.go:298-299 | a set of identifiers has at most 2^160 members, which bounds the rounds |
| Lookup.AskNearest | peer-pressure/dht/node.go:307-358 | one turn asks the at most three nearest unqueried nodes and takes all their replies, and stops exactly when the shortlist did not grow; with nobody left to ask it stops and changes nothing |
| Lookup.TakeReply | peer-pressure/dht/node.go:149-173 | the node that answered is offered to the table, its token kept, new peers appended, unknown nodes shortlisted and offered; the reply counts as adding exactly when the shortlist grew |
| Lookup.IterativeLookup | peer-pressure/dht/node.go:286-370 | for arbitrary replies the lookup ends after rounds as above, asks no identifier twice and never itself; its shortlist is exactly the seeds and what the asked nodes named; the table is offered exactly the nodes that answered with nodes and those that joined the shortlist; it ends with everyone asked or with a round that named nobody new; it returns the at most 8 nearest of the shortlist in strictly increasing distance |
| Lookup.GetPeers | peer-pressure/dht/node.go:91-184 | the same rounds; the result lists each peer that an asked node named exactly once, and the remembered tokens are those of the asked nodes over the earlier ones |
| LookupRounds.HeardTrans | peer-pressure/dht/node.go:149-173 | hearing from some nodes and then from others gathers what hearing from all of them does, in nodes, table offers, peers and tokens |
| LookupRounds.RoundsHear | peer-pressure/dht/node.go:307-358 | over all its rounds a lookup hears from exactly the nodes it asked, each once, never itself, all shortlisted |
| LookupRounds.LookupLearns | peer-pressure/dht/node.go:302-358 | the shortlist is exactly the seeds and the nodes named by those asked |
| LookupRounds.LookupOffers | peer-pressure/dht/node.go:344-353 | the table is offered exactly the asked nodes that answered and those that joined the shortlist after the seeds |
| LookupRounds.LookupStops | peer-pressure/dht/node.go:315-357 | a lookup stops with everyone on the shortlist but itself asked, or after a nonempty round that named only known identifiers |
| LookupRounds.ShortlistIsPlaced | peer-pressure/dht/node.go:344-353 | afterwards every shortlisted node is in the routing table or its bucket is full, nobody was dropped, and every newcomer was shortlisted |
| MutableStore.MutableSignBuffer | peer-pressure/dht/store.go:142-155 | the buffer is the optional salt part, the number and the value |
| MutableStore.SignBufferInjective | peer-pressure/dht/store.go:140-155 | the signed bytes determine salt, number and encoded value |
| MutableStore.SignBufferIsDictionary | peer-pressure/dht/store.go:139-155 | the signed bytes are those of the encoded dictionary of salt, number and value without its brackets |
| MutableStore.Store.PutMutable | peer-pressure/dht/store.go:90-138 | accepted exactly when salt and value fit, the signature verifies, and what is held at the hash of key and salt has the CAS number, if any, and no greater number; otherwise the first failing test names the error |
| MutableStore.AcceptedPut | peer-pressure/dht/store.go:112-137 | an accepted put leaves its number at its target and matched any compare-and-swap number; a refused put changes nothing; other targets never change |
| MutableStore.PutDecides | peer-pressure/dht/store.go:90-137 | the new store of every put: the time renewed, the item replaced, or nothing changed |
| MutableStore.AcceptedIsStoredIff | peer-pressure/dht/store.go:121-125 | an accepted put is stored exactly when the target is new, its number is higher, or the value is the held one: the same number with another value is accepted and dropped |
| MutableStore.RunKeeps | peer-pressure/dht/store.go:112-137 | over any run, from any point on, numbers never decrease and a (target, number) pair never changes its value |
| MutableStore.RunHoldsGreatest | peer-pressure/dht/store.go:90-137 | after any unconditional puts to a new store each target holds the first of the well-signed puts with the greatest number there, and nothing where there was none |
| MutableStore.RunIsAuthentic | peer-pressure/dht/store.go:95-137 | over any run every mutable item is at the hash of its key and salt, within limits, with a valid signature over its own contents |
| Utp.EncodeHeader | peer-pressure/utp/utp.go:71-82 | the first 20 bytes become the header, the rest of the buffer stays |
| Utp.EncodePacket | peer-pressure/utp/utp.go:107-132 | the buffer is header, extension chain and payload |
| Utp.RunDecodePacket | peer-pressure/utp/utp.go:135-169 | the loop accepts and rejects exactly as specified, with the same error |
| Utp.HeaderRoundTrip | peer-pressure/utp/utp.go:71-104 | decoding an encoded header keeps every field, type and version cut to four bits |
| Utp.HeaderLayout | peer-pressure/utp/utp.go:73-82 | the fields in wire order, type and version in one byte, all numbers most significant byte first |
| Utp.ExtensionLayout | peer-pressure/utp/utp.go:114-128 | an entry is the type of the next one or 0, its length and its payload |
| Utp.DecodeThenEncode | peer-pressure/utp/utp.go:107-169 | every accepted datagram decodes to a well-formed packet that re-encodes to the same bytes |
| Utp.EncodeThenDecode | peer-pressure/utp/utp.go:107-169 | a packet decodes back to itself exactly when it is well formed, for chains of any length |
| Utp.DecodedIffEncoded | peer-pressure/utp/utp.go:107-169 | a datagram decodes to a packet exactly when the packet is well formed and the datagram is its encoding |
| Utp.HeaderFails | peer-pressure/utp/utp.go:85-104 | too short means fewer than 20 bytes, and an unsupported version means another lower half of the first byte |
| Utp.ChainFails | peer-pressure/utp/utp.go:144-161 | the first entry that is cut off, in its first two bytes or its payload, decides the error |
| RttEstimator.CongestionController.OnAck | peer-pressure/utp/congestion.go:44-64 | estimate and timeout become the specified ones, the window stays |
| RttEstimator.CongestionController.OnTimeout | peer-pressure/utp/congestion.go:103-106 | the window is the minimum and the timeout doubles; the estimate stays |
| RttEstimator.SamplesBounded | peer-pressure/utp/congestion.go:42-64 | after any samples in [lo, hi] the round trip is in [lo, hi], the variance in [0, max(hi/2, hi-lo)], the timeout within its two bounds |
| RttEstimator.SampleMoves | peer-pressure/utp/congestion.go:44-64 | in numbers: the first sample sets the round trip and half of it as variance, later ones move the variance a quarter and the round trip an eighth of the way, cut toward zero; the timeout is the round trip plus four variances, at least 500 ms |
| RttEstimator.TimeoutsKeepEstimate | peer-pressure/utp/congestion.go:44-106 | timeouts in between change neither the estimate nor the timeout after the next acknowledgement |
| RttEstimator.RttApproaches | peer-pressure/utp/congestion.go:51-57 | a sample draws the estimate toward it without overshooting, and moves it exactly when at least 8 us away |
| SelectOnly.SortInts | peer-pressure/magnet/magnet.go:187-197 | in place: the array becomes the insertion sort of its contents |
| SelectOnly.SortSorts | peer-pressure/magnet/magnet.go:186-197 | that sort is ascending and keeps every occurrence |
| SelectOnly.FormatSelectOnly | peer-pressure/magnet/magnet.go:158-184 | the text is the specified join of the maximal runs of the sorted indices |
| SelectOnly.ParseSelectOnly | peer-pressure/magnet/magnet.go:123-154 | the parse accepts and rejects exactly as specified, with parts trimmed of Unicode white space |
| SelectOnly.ParsedIffListed | peer-pressure/magnet/magnet.go:123-154 | the parser accepts exactly the comma-separated lists of numbers and dashed ranges, each trimmed, for their indices in order |
| SelectOnly.SpaceIsWhiteSpace | peer-pressure/magnet/magnet.go:126 | what trimming cuts off is exactly Unicode white space, by code point |
| SelectOnly.TrimStrips | peer-pressure/magnet/magnet.go:126 | trimming cuts white space off both ends and leaves none there |
| SelectOnly.RunsExpand | peer-pressure/magnet/magnet.go:167-182 | the collapsed runs spell the sorted list, duplicates included |
| SelectOnly.RunsMaximal | peer-pressure/magnet/magnet.go:167-181 | no run could be joined to the next one |
| SelectOnly.PrintedExamples | peer-pressure/magnet/magnet.go:175-184 | the texts of a run, of a single index and of both, in bytes |
| SelectOnly.ParseOfFormat | peer-pressure/magnet/magnet.go:122-184 | parsing a printed list gives the sorted list exactly when no index is negative and the list does not hold both of the two largest integers |
| Throttle.Limiter.constructor | peer-pressure/throttle/throttle.go:23-33 | a positive rate starts with a full burst of one second, anything else is unlimited |
| Throttle.Limiter.RefillAt | peer-pressure/throttle/throttle.go:62-70 | tokens grow by elapsed time times rate, capped at the burst, and stay in [0, burst] |
| Throttle.Limiter.Wait | peer-pressure/throttle/throttle.go:37-59 | every attempt before the last is refused; the call ends early exactly by a grant, which takes its tokens once, while without a grant none are taken; a request above the burst is never granted |
| Throttle.RunIsCovered | peer-pressure/throttle/throttle.go:37-70 | over any run by any callers tokens stay in [0, burst] and what was granted plus what is left is covered by what was there plus what flowed in |
| Throttle.RunBalances | peer-pressure/throttle/throttle.go:37-70 | over any run what was granted, what is left and what spilled over the burst are exactly what was there and what flowed in |
| Throttle.GrantedBetween | peer-pressure/throttle/throttle.go:37-70 | between any two instants at most burst plus rate times elapsed is granted |
| Throttle.RetryGrantedIff | peer-pressure/throttle/throttle.go:52-57 | after sleeping for the deficit the retry is granted exactly when the request is at most the burst |
| Throttle.RetryAfterDurationGrantedIff | peer-pressure/throttle/throttle.go:53-57 | with the sleep cut down to whole nanoseconds the next attempt at its end is granted exactly when the request is within the burst and nothing was cut off; otherwise a request within the burst lacks less than a nanosecond's worth of tokens |
| Throttle.Write | peer-pressure/throttle/throttle.go:115-134 | chunks are at most the burst, bytes are delivered in order, and all of them unless the underlying writer fails |

## Left out

- Reservation.StepKeepsInv: the goroutines, their stack frames and the results channel's capacity are not objects of the model; a worker is a value with a program counter, and a blocked send is a step that is not taken yet.
- Bencode.RunDecodeString: where the source's index overflows, as EndOverflowsIff says exactly, the result here is the too-short error instead of a failing slice.
- SelectOnly.ParseSelectOnly: the endless range loop is an error value.
- Routing.RoutingTable.Closest: the library sort is replaced by the insertion sort the lookup uses; the result is unique because distances are distinct.
- Throttle.Limiter.Wait: exact arithmetic instead of floating point; the sleeps are left to the clock readings.
- MutableStore.Store.PutMutable: SHA-1 collisions between different keys and salts are possible, so the laws are per target; immutable puts and pruning, which may replace or remove a slot, are not modelled.
- PiecePicker.Picker.Pick: counts are unbounded integers, and random tie-breaking is any choice.
- AnnouncePeer, Ping, Bootstrap and the bucket refresh only send messages or call the lookup.
- Progress: nobody is stuck, but a worker whose connection never errs may wait for its peer for ever; no termination is stated for the protocol.
- The peer pool (rotation, slots, strikes) depends on wall-clock speeds, and its natural slot bound does not hold while cancelled workers leave.
- The delay-based window update of the congestion controller is floating point.
- Sockets, HTTP, UDP, multicast, deadlines, terminal rendering, command line and file opening are I/O.
- Fixed-layout codecs, peer-ID parsing, percent encoding, peer exchange and choking would only add easy members.
