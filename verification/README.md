# A verified model of the libhdfs3 client's data paths

libhdfs3 is a C++ client of the Hadoop distributed file system. This project models the parts of it that
decide whether a file's bytes survive, and proves that they do:

- **The erasure code.** Arithmetic in GF(2^8) from its two tables, Gauss-Jordan inversion on flat arrays, the
  Cauchy generator matrix, the eight-bytes-at-a-time encoding loop with its product tables, and the encoder and
  decoder objects with the decoder's cache. The result is the round trip: for every geometry with fewer than 256
  units, every content, every choice of survivors and every list of lost units that names data units before parity
  units, decoding what encoding wrote gives the lost bytes back. For every other order of the list it does not.
- **Reading a striped file.** How a group of bytes is laid out in cells over the data blocks, how a request is cut
  into aligned stripes, how a stripe is fetched while datanodes fail, and the stream's seek and read on top. The
  result is that a read returns the file's bytes at the cursor whatever the datanodes do, as long as no stripe
  loses more units than there is parity, and that block readers only ever move forwards.
- **Writing a file.** Chunks, packets, the pool packets are recycled through, and blocks in the output stream; the
  pipeline, how it is built for a new block or an append, its queue of unacknowledged packets, its failure handling and
  its rebuilding; the bytes on the wire, header included. The stream drives the pipeline itself. The results are that
  the packets sent to a block put together exactly what was appended, that every packet carries its chunks' checksums,
  that packets are numbered in order over all blocks, that after flush or close the block's pipeline was given exactly
  the block's packets and has acknowledged them, and that every node of the pipeline then holds the content byte for
  byte, after any number of lost connections, nodes taken out and replicas copied. What that asks of the outside is
  stated as `Replicas.Run` and `Trace.kept`: the nodes named at first have the block as it was, a datanode acknowledges
  only what it has, a copied replica is a copy, and the namenode does not replace a node when it names another.
- **Writing a striped file.** Where each chunk goes, when parity is made, how the last stripe is padded. Every
  internal block of every finished group holds exactly its unit's bytes, and those are the bytes the reading side
  expects there.
- **From end to end.** What a closed striped stream has stored, a striped input stream reads back to the last byte,
  for every behaviour of the datanodes that loses no more units of a stripe than there is parity, if and only if the
  groups are shorter than 2^31 bytes (`WriteThenRead.CloseAndRead`).
- **Reading a local block.** Every byte handed out is the block's byte at the cursor, and with verification on it
  lies in a chunk whose checksum was compared.

Bytes are `bv8`; buffers of one operation are stretches of one memory, an `array`, so that overlap is a real question.
Objects whose methods update their fields are classes. 32-bit casts are written out as `Int32`; signed overflow is
taken to wrap around. What the network does is a parameter: for the reading side a function that says, for each
stripe, which reads can be opened and which complete, with whatever bytes a failing one leaves behind; for the writing
side a function that says, for each pipeline asked for, what happens to it, as a script of events. An exception is a
`None`, an `Err`, a null or a `false` result.

Files follow the layers: `GfTables`, `Gf256`, `Linear`, `GaussJordan`, `Cauchy`, `MatrixCode`, `RsUtil`, `Words`,
`EncodeLoop`, `ReedSolomon`, `ByteBuffer`, `RawCoder`, `RoundTrip` (the code); `Geometry`, `GroupContent`,
`DivideStripe`, `StripeLayout`, `ChunkStates`, `StripeReader`, `StripeContent`, `StripedInput` (striped reading);
`PacketHeader`, `Packet`, `WriteLog`, `Pipeline`, `Blocks`, `BlockWriter`, `OutputStream`, `Replicas` (writing);
`Streamers`, `UnitLayout`, `StripedWriter` (striped writing); `WriteThenRead`; `LocalReader`; `Bytes` and `Octets` hold
what they share.

## What turned out not to hold

- A decode list that names a parity unit before a data unit loses data: `ReedSolomon.MisplacedParityLost` gives the
  column, `ReedSolomon.RecoversIffDataFirst` shows that the order of the list is the exact condition. The stripe
  reader always passes an ascending list.
- The length of an internal block is computed in 32 bits: `Geometry.LongBlockMisreported` and, exactly,
  `Geometry.LengthExact`.
- So is the place of a decode input: `StripeLayout.FarBandMisplaced` and, exactly, `StripeLayout.DecodeInputExact`.
- A striped read can return no bytes before the end of the file, because the number of bytes left in the block is cut
  to 32 bits: `StripedInput.StalledRead` and, exactly, `StripedInput.ProgressIff`. A file is read to its end if and only
  if no group has 2^31 bytes or more: `WriteThenRead.ReadToEnd`.
- A block without checksums cannot be opened by a reader that asks for verification, although the code sets out to
  allow it: `LocalReaders.LocalBlockReader.Open`.
- A striped stream ends a group only at the end of a stripe. The chunk that fills the group is there if and only if a
  block is a whole number of cells: `StripedWriter.GroupEndSeen`, and `StripedWriter.GroupEndMissed` for a block that
  is not.
- An append to a file whose earlier blocks are not whole chunks does not complete the last block's partial chunk, its
  first chunk being worked out from the length of the file: `OutputStreams.AppendMisaligned` and, exactly,
  `OutputStreams.AlignedIff`.
- With a pool of a single packet the stream waits for the answer to a packet it has not written yet:
  `Pipelines.PoolOfOneWaitsInVain` and, exactly, `Pipelines.WaitedForIsWritten`.
- A packet can be written twice to one connection: `Pipelines.WrittenTwice` is a run of three sends that ends so. The
  queue having room is the exact condition that rules it out. With room, `Pipelines.Pipeline.Send` keeps every packet
  carried once, whatever happens; from every full queue with a node to spare, the events of `Overfull` lead to it. In
  any run it happens exactly when a connection was lost in the wait for room and none in the write after it. What a
  connection carries is therefore stated with a packet written twice in a row counted once (`Pipelines.Squeeze`).
- When the namenode, asked for one node more, leaves out one that was there, a node of the new pipeline gets no replica:
  `Pipelines.StrangerHasNothing` and, exactly, `Pipelines.NoStrangerIff`.

## Model

| member | source | states |
|---|---|---|
| GfTables.BaseStep | src/client/GF256.cpp:30-83 | each entry of the exponent table is the one before it times x modulo the field polynomial |
| GfTables.LogInverts | src/client/GF256.cpp:85-138 | for every nonzero byte the logarithm table gives an exponent whose table entry is that byte |
| Gf256.BaseIsPower | src/client/GF256.cpp:30-83 | entry i of the exponent table is x to the power i |
| Gf256.Period | src/client/GF256.cpp:145-150 | multiplying by x 255 times is the identity, which is why the sum of logarithms may be reduced by 255 |
| Gf256.MulIsShift | src/client/GF256.cpp:140-151 | the table product by a nonzero byte is multiplication by x as often as its logarithm says |
| Gf256.MulIsPolynomialProduct | src/client/GaloisField.h:52-53 | for all bytes the table product equals the product of polynomials modulo x^8+x^4+x^3+x^2+1 |
| Gf256.MulComm | src/client/GF256.cpp:140-151 | the product is commutative |
| Gf256.MulAssoc | src/client/GF256.cpp:140-151 | the product is associative |
| Gf256.MulDistrib | src/client/GF256.cpp:140-151 | the product distributes over exclusive or on both sides |
| Gf256.MulOne | src/client/GF256.cpp:140-151 | one is neutral |
| Gf256.MulNonzero | src/client/GF256.cpp:140-151 | there are no zero divisors |
| Gf256.MulInv | src/client/GF256.cpp:158-164 | the inverse of every nonzero byte is nonzero and multiplies with it to one, on both sides |
| GaussJordan.PivotlessKernel | src/client/GF256.cpp:187-197 | a column without a pivot exhibits a nonzero vector the matrix kills |
| GaussJordan.EliminateCorrect | src/client/GF256.cpp:185-229 | from any intermediate state, elimination ends with the identity and a left inverse of the matrix it began with, or that matrix kills a nonzero vector |
| GaussJordan.InvertCorrect | src/client/GF256.cpp:171-230 | inversion gives a left inverse and leaves the identity, or the matrix kills a nonzero vector |
| GaussJordan.FailsIffSingular | src/client/GF256.cpp:194-197 | the "Not invertible" exception is thrown exactly for singular matrices |
| MatrixCode.FindPivot | src/client/GF256.cpp:187-193 | the loop finds the first row at or below the diagonal with a nonzero entry in the column, or n |
| MatrixCode.SwapRowsIn | src/client/GF256.cpp:199-208 | in place on the flat array, two rows are exchanged and nothing else changes |
| MatrixCode.ScaleRowIn | src/client/GF256.cpp:211-216 | in place, one row is multiplied by a factor and nothing else changes |
| MatrixCode.AddRowIn | src/client/GF256.cpp:223-227 | in place, a multiple of one row is added to another and nothing else changes |
| MatrixCode.ClearColumnIn | src/client/GF256.cpp:218-228 | both matrices have the column's other entries eliminated with the multipliers of the first |
| MatrixCode.SetIdentity | src/client/GF256.cpp:175-182 | the output matrix becomes the identity and the rest of its array is kept |
| MatrixCode.ReduceColumn | src/client/GF256.cpp:185-229 | one turn of the loop on the arrays is the elimination step on matrices, and it fails exactly when no pivot exists |
| MatrixCode.GfInvertMatrix | src/client/GF256.cpp:171-230 | in place inversion of flat arrays succeeds exactly when the inversion of the matrix does, with the same two matrices left behind, and touches nothing beyond them |
| RsUtil.TableBySums | src/client/GF256.cpp:239-310 | the 32 bytes built from doublings and exclusive ors are the products of the coefficient with all low and all high nibbles |
| RsUtil.GfVectMulInit | src/client/GF256.cpp:239-310 | 32 bytes at the offset become the coefficient's product table, the others are kept |
| RsUtil.InitTables | src/client/RSUtil.cpp:31-42 | one product table per coefficient in matrix order, nothing written behind them |
| RsUtil.GenCauchyMatrix | src/client/RSUtil.cpp:47-60 | the matrix is the generator: identity rows, then rows of inverses of distinct point sums |
| Cauchy.PointInjective | src/client/RSUtil.cpp:54-59 | different unit numbers are different points with a nonzero sum, so every inverse taken exists |
| Cauchy.CauchyInjective | src/client/RSUtil.cpp:53-59 | a vector whose Cauchy sums vanish at as many points as it has entries is zero, by induction over points |
| Cauchy.SelectKernel | src/client/RSUtil.cpp:47-60 | k distinct generator rows, data and parity mixed in any way, kill only the zero vector |
| Cauchy.AnyRowsInvertible | src/client/RawErasureDecoder.cpp:126-134 | every choice of k distinct generator rows is inverted without an exception, and the result is a left inverse |
| Words.LaneOfLoad | src/client/RSUtil.cpp:88-101 | byte i of eight bytes loaded as one word is in lane i |
| Words.MulAddWord | src/client/RSUtil.cpp:90-102 | each lane of the word computed is the output byte plus the coefficient times the input byte of that lane |
| EncodeLoop.MulAddRange | src/client/RSUtil.cpp:80-109 | words and the bytes left over together add the multiple of the whole input to the whole output, at every length |
| EncodeLoop.AccumulatedDot | src/client/RSUtil.cpp:78-110 | after all inputs an output byte is its old value plus a dot product of coefficients and the column's bytes |
| EncodeLoop.EncodeOne | src/client/RSUtil.cpp:76-110 | one output gets every input's contribution with the coefficients read back from the tables, and no other byte changes |
| EncodeLoop.EncodeData | src/client/RSUtil.cpp:62-112 | every output gets its row of coefficients applied to the inputs and no byte outside the outputs changes |
| RawCoder.TablesGiveRows | src/client/RSUtil.cpp:31-42 | the coefficients read back from the tables of a matrix are the matrix |
| RawCoder.ResetOutputBuffers | src/client/CoderUtil.cpp:71-81 | the outputs' bytes become zero and no others change |
| RawCoder.ZeroAndEncode | src/client/RawErasureEncoder.cpp:97-100 | outputs hold exactly the linear combinations, whatever they held before |
| RawCoder.RawErasureEncoder.constructor | src/client/RawErasureEncoder.cpp:34-46 | the tables stand for the parity rows of the generator |
| RawCoder.RawErasureEncoder.Create | src/client/RawErasureEncoder.cpp:34-38 | construction is refused exactly when there are 256 units or more |
| RawCoder.RawErasureEncoder.Encode | src/client/RawErasureEncoder.cpp:64-88 | every parity byte is its unit's byte for the data column, data buffers are consumed, nothing else is written |
| RawCoder.GetValidIndexes | src/client/CoderUtil.cpp:44-55 | the loop returns the numbers of the inputs present |
| RawCoder.ValidIndexes | src/client/CoderUtil.cpp:44-55 | those numbers ascend, name only inputs present, and name all of them |
| RawCoder.SelectRows | src/client/RawErasureDecoder.cpp:124-132 | the matrix built is the generator rows of the first k survivors in order |
| RawCoder.InvertSelected | src/client/RawErasureDecoder.cpp:124-134 | its inverse stands in the first k rows of a matrix that is zero below, for every choice of survivors |
| RawCoder.FillDecodeMatrix | src/client/RawErasureDecoder.cpp:136-151 | every row of the decode matrix is the row the code's two loops define for its erased unit |
| RawCoder.RawErasureDecoder.constructor | src/client/RawErasureDecoder.cpp:38-47 | the generator is in place and the cache is empty but consistent |
| RawCoder.RawErasureDecoder.PrepareDecoding | src/client/RawErasureDecoder.cpp:110-119 | with or without a cache hit, the tables afterwards are those of this erased list and these survivors |
| RawCoder.CountErased | src/client/RawErasureDecoder.cpp:161-166 | the loop counts the erased data units, which is how many rows come from the inverse |
| RawCoder.MatrixTables | src/client/RawErasureDecoder.cpp:170-171 | the tables made from a decode matrix give back its rows |
| RawCoder.RawErasureDecoder.ProcessErasures | src/client/RawErasureDecoder.cpp:154-173 | the tables computed are those of the decode matrix for the erased list |
| RawCoder.RawErasureDecoder.GenerateDecodeMatrix | src/client/RawErasureDecoder.cpp:121-152 | never throws, and leaves the inverse and the decode rows for the survivors and the erased list |
| RawCoder.RawErasureDecoder.DecodeStarts | src/client/RawErasureDecoder.cpp:62-71 | outputs hold the decode rows applied to the survivors |
| RawCoder.RawErasureDecoder.Decode | src/client/RawErasureDecoder.cpp:73-99 | refused exactly when no input is present; otherwise each output gets its decode row applied to the first k inputs present, other memory is kept, all inputs present are consumed and the cache stays consistent |
| ReedSolomon.CodewordIsImage | src/client/RawErasureDecoder.cpp:126-132 | the survivors' bytes of a column are the selected rows times the column |
| ReedSolomon.DecodeRowCorrect | src/client/RawErasureDecoder.cpp:136-151 | a decode row applied to the survivors' bytes gives the erased unit's byte, for data and for parity units |
| ReedSolomon.DecodeUndoesEncode | src/client/RawErasureDecoder.cpp:121-152 | with data units before parity units in the list, every erased unit comes back from any k survivors |
| ReedSolomon.RecoversIffDataFirst | src/client/RawErasureDecoder.cpp:136-151 | decoding recovers every column if and only if the list names data units before parity units |
| ReedSolomon.MisplacedParityLost | src/client/RawErasureDecoder.cpp:136-140 | a parity unit among the first entries decodes to zero for a column where it is not zero |
| RoundTrip.UnitsAfterEncode | src/client/RawErasureEncoder.cpp:64-88 | after encoding, every byte of every unit is its generator row applied to the data column |
| RoundTrip.DecodeUndoesEncodeInMemory | src/client/RawErasureDecoder.cpp:62-99 | the memory after decode holds, in each output, the bytes encode had left for the lost unit |
| RoundTrip.ColumnHeld | src/client/RawErasureDecoder.cpp:66-70 | buffers that hold their units' bytes hold, column by column, the codeword |
| RoundTrip.DecodedUnit | src/client/RawErasureDecoder.cpp:62-71 | from k buffers holding their units' bytes decoding writes the lost unit's bytes |
| RoundTrip.SameStretch | src/client/RSUtil.cpp:62-112 | a buffer apart from all outputs keeps its bytes |
| Geometry.CodeLength | src/client/StripedBlockUtil.cpp:117-134 | the code's result is the true length at stripe boundaries and the true length wrapped to 32 bits elsewhere |
| Geometry.LengthExact | src/client/StripedBlockUtil.cpp:117-134 | the code's result is the true length if and only if the group ends at a stripe boundary or the block is shorter than 2^31 |
| Geometry.LongBlockMisreported | src/client/StripedBlockUtil.cpp:131-133 | a group of 2^32+1 bytes over two data blocks is given a block of negative length |
| Geometry.OffsetToGroupAndBack | src/client/StripedBlockUtil.cpp:158-164 | block number and offset are recovered from the group offset the code computes |
| Geometry.GroupToOffsetAndBack | src/client/StripedBlockUtil.cpp:158-164 | every group offset is the code's result for its block and offset |
| Geometry.LengthMeansInGroup | src/client/StripedBlockUtil.cpp:117-164 | an offset is below the block's length exactly when the group offset it stands for is below the group's size |
| Geometry.LengthsSumToData | src/client/StripedBlockUtil.cpp:117-134 | the lengths of the data blocks add up to the group's size |
| Geometry.LengthsOrdered | src/client/StripedBlockUtil.h:460-470 | lengths never grow with the block number, and parity blocks are as long as the first data block |
| DivideStripe.GetStripingCells | src/client/StripedBlockUtil.cpp:213-245 | the cells are those of the request, first and last cut to it, in order |
| DivideStripe.GetRanges | src/client/StripedBlockUtil.cpp:179-211 | each data block's range is what the request has in it, each parity block's spans from the earliest start to the latest end |
| DivideStripe.BandsBetween | src/client/StripedBlockUtil.cpp:271-281 | the bands tile the stretch between the smallest and the largest point without gap or overlap, and no point lies inside one |
| DivideStripe.CutAndBand | src/client/StripedBlockUtil.cpp:260-281 | the bands cover the request, and neither a cell's edge nor the end of the group's last cell lies inside one |
| DivideStripe.MergeRanges | src/client/StripedBlockUtil.cpp:247-282 | the same from the ranges, with no chunk placed yet |
| DivideStripe.PlaceCell | src/client/StripedBlockUtil.cpp:94-110 | a cell's bytes in every band get the slice of the buffer they belong in; no chunk is placed twice |
| DivideStripe.PlaceChunks | src/client/StripedBlockUtil.cpp:92-111 | the chunks placed are exactly those the request reaches |
| DivideStripe.RangeInBlock | src/client/StripedBlockUtil.cpp:213-245 | every requested byte lies below its block's end |
| DivideStripe.LengthHolds | src/client/StripedBlockUtil.cpp:284-297 | in an addressable group the lengths the code compares with are the true ones |
| DivideStripe.ZeroBand | src/client/StripedBlockUtil.cpp:288-295 | exactly the data chunks past their block's end become zero chunks, and none of them was requested |
| DivideStripe.PrepareAllZeroChunks | src/client/StripedBlockUtil.cpp:284-297 | the same for every band |
| DivideStripe.DivideOneStripe | src/client/StripedBlockUtil.cpp:72-115 | refused exactly for an empty or overlong range; otherwise the bands tile the request and each chunk is absent, a slice or zero as it should be |
| StripeLayout.NoStraddle | src/client/StripedBlockUtil.cpp:260-269 | no band straddles the end of an internal data block |
| StripeLayout.ChunkWholeOrZero | src/client/StripedBlockUtil.cpp:284-297 | a chunk is a zero chunk exactly when its band is past the block's end, and otherwise the block has the band whole |
| StripeLayout.ParityReaches | src/client/StripedBlockUtil.cpp:206-210 | every parity block reaches to the end of every band with a requested chunk |
| StripeLayout.ParityCovers | src/client/StripedBlockUtil.cpp:206-210 | and to the end of every other band |
| StripeLayout.EveryByteSlotted | src/client/StripedBlockUtil.cpp:72-115 | every requested byte has a slot in some band |
| StripeLayout.OneSlotOnly | src/client/StripedBlockUtil.cpp:72-115 | and in only one |
| StripeLayout.SlicesHoldRequest | src/client/StripedBlockUtil.cpp:92-111 | every byte of every slice is the slot of a requested byte |
| StripeLayout.SliceIsDecodeInput | src/client/StatefulStripeReader.cpp:60-72 | the slice a request was given is the one the decoder takes its input from |
| StripeLayout.DecodeInputExact | src/client/StatefulStripeReader.cpp:60-64 | the place computed from the offset cut to 32 bits is that slice's place if and only if the part cut off is a multiple of the cell size and the rest is nonnegative or the offset a cell boundary |
| StripeLayout.FarBandMisplaced | src/client/StatefulStripeReader.cpp:61-64 | 2^31+1 bytes into a block the input is taken before the start of the buffer |
| ChunkStates.SetState | src/client/StripeReader.cpp:227-310 | how one change of state moves the counts, the debt owed to parity and the total rank |
| ChunkStates.DebtMeansTooMany | src/client/StripeReader.cpp:124-135 | with every parity chunk tried, a data chunk still not made up for means more are missing than there is parity |
| ChunkStates.LiveChunks | src/client/StripeReader.cpp:272-334 | without debt, chunks in flight, fetched, zero or yet to be asked for are k together |
| ChunkStates.SurvivorCount | src/client/StripeReader.cpp:331-333 | when all reads have ended, exactly k chunks can be decoded from |
| StripeReaders.StripeReader.constructor | src/client/StripeReader.cpp:66-87 | a freshly divided stripe has nothing missing and owes nothing to parity |
| StripeReaders.StripeReader.ReadChunk | src/client/StripeReader.cpp:209-267 | a read is in flight or the chunk is missing, with counts, debt and rank to match, and the reader is not ahead of the band |
| StripeReaders.StripeReader.PrepareDecodeInputs | src/client/StatefulStripeReader.cpp:50-74 | every data chunk has been asked for, and nothing else changed |
| StripeReaders.StripeReader.ReadDataForDecoding | src/client/StripeReader.cpp:111-122 | all data chunks are in flight or decided; the exception is thrown exactly when more are missing than there is parity |
| StripeReaders.StripeReader.ReadParityChunks | src/client/StripeReader.cpp:124-135 | the debt is paid, or more chunks are missing than there is parity, and then and only then it throws |
| StripeReaders.StripeReader.Deliver | src/client/StripeReader.cpp:256-260 | only the band's own buffers are written |
| StripeReaders.StripeReader.Store | src/client/StripeReader.cpp:256-260 | a good read leaves the stored block's bytes over the band, which are the unit's, in its chunk; a bad one leaves the fetched chunks alone |
| StripeReaders.StripeReader.Complete | src/client/StripeReader.cpp:301-312 | a finished read becomes fetched or missing and moves counts, debt and rank accordingly |
| StripeReaders.StripeReader.Mark | src/client/StripeReader.cpp:301-312 | the chunk's state, the two counts, the reader and the debt change together |
| StripeReaders.StripeReader.StartReads | src/client/StripeReader.cpp:273-280 | every requested chunk is in flight or missing, and the debt is the number missing |
| StripeReaders.StripeReader.AskForMore | src/client/StripeReader.cpp:314-319 | after new losses the debt is paid again, or it throws exactly when too many are missing |
| StripeReaders.StripeReader.TakeNext | src/client/StripeReader.cpp:293-320 | one turn keeps the invariant, lowers the rank, and fails exactly when too many are missing |
| StripeReaders.StripeReader.AwaitReads | src/client/StripeReader.cpp:292-329 | the loop ends, for every outcome of the reads, and fails exactly when too many are missing |
| StripeReaders.StripeReader.FetchChunks | src/client/StripeReader.cpp:273-329 | with at most p bad reads among all units it always succeeds |
| StripeReaders.MissingAreBad | src/client/StripeReader.cpp:99-105 | no more chunks are counted missing than there are bad reads |
| StripeReaders.StripeReader.ZeroChunks | src/client/StripeReader.cpp:343-357 | after it all survivors, fetched or zero, hold their unit's bytes |
| StripeReaders.StripeReader.PrepareErasedIndices | src/client/StripeReader.cpp:391-403 | the list is the missing chunks ascending, all of them |
| StripeReaders.AscendingDataFirst | src/client/StripeReader.cpp:391-403 | an ascending list names data units before parity units, which is what decoding needs |
| StripeReaders.StripeReader.EnoughSurvivors | src/client/StripeReader.cpp:362-386 | exactly k inputs are present when the decoder is called |
| StripeReaders.StripeReader.DecodeReady | src/client/StripeReader.cpp:362-386 | what the decoder demands holds: k survivors, indices in range, inputs and outputs apart |
| StripeReaders.StripeReader.DecodedHolds | src/client/StripeReader.cpp:362-386 | decoding gives every lost chunk its unit's bytes and leaves the others as they were |
| StripeReaders.StripeReader.Recover | src/client/StripeReader.cpp:362-386 | the call of the decoder does that, with any contents of its cache |
| StripeReaders.StripeReader.DecodeStripe | src/client/StripeReader.cpp:336-386 | afterwards every chunk of the band holds its unit's bytes and only the band was written |
| StripeReaders.StripeReader.ReadStripe | src/client/StripeReader.cpp:272-334 | on success every requested chunk holds its unit's bytes; it succeeds whenever at most p reads are bad; only the band's buffers are written; no reader ends past the band |
| GroupContent.DataUnitBytes | src/client/StripedBlockUtil.cpp:158-164 | a data unit's bytes over a band are the group's bytes at the matching offsets |
| GroupContent.WriterMeetsReader | src/client/StripeReader.cpp:209-267 | over a band that lies in the block, the bytes stored of a unit are the ones the reading side computes with |
| StripeContent.ZeroPastEnd | src/client/StripedBlockUtil.cpp:284-297 | past its block's end a unit's bytes are zero, so a zero chunk holds its unit's bytes |
| StripeContent.PlacementFits | src/client/StripedInputStreamImpl.cpp:103-124 | a band's buffers fit in the stripe and parity buffers |
| StripeContent.BandAvailable | src/client/StripeReader.cpp:227-260 | unless a chunk is known to be zero, the stored block reaches to the end of the band and has the unit's bytes there |
| StripeContent.ReaderReady | src/client/StripedInputStreamImpl.cpp:279-285 | so a stripe reader finds every unit of its band stored, and its zero chunks are zero |
| StripeContent.ReadBand | src/client/StripedInputStreamImpl.cpp:279-285 | from the internal blocks as stored, after a band is read its slices hold the group's bytes, other slices keep theirs, and readers stand at most at its end; it succeeds whenever at most p reads are bad |
| StripeContent.BandAdds | src/client/StripedInputStreamImpl.cpp:279-285 | a further band read keeps what earlier bands loaded and adds its own |
| StripedInput.FindBlock | src/server/LocatedBlocks.cpp:40-77 | on every ordered list, gaps or not: the block that has the position is found if there is one, and otherwise none; past the length it is the last block |
| StripedInput.LowerBound | src/server/LocatedBlocks.cpp:49-55 | binary search: the first block that does not begin before the position |
| StripedInput.CoverFinds | src/server/LocatedBlocks.cpp:40-77 | a list without gaps has a block for every position of the file |
| StripedInput.OneBlockOnly | src/server/LocatedBlocks.cpp:40-77 | and no other block does |
| StripedInput.ReadNextBand | src/client/StripedInputStreamImpl.cpp:279-285 | the next band extends what is loaded to its end |
| StripedInput.ReadBands | src/client/StripedInputStreamImpl.cpp:278-285 | all bands together load the whole request, and with no stripe losing more than p units they succeed |
| StripedInput.StripeBounds | src/client/StripedInputStreamImpl.cpp:252-258 | the 32-bit arithmetic gives the position's place in its stripe and the stripe's end, cut at the group's end |
| StripedInput.ReadRange | src/client/StripedInputStreamImpl.cpp:271-285 | the buffer holds the group's bytes from the position to the end of its stripe |
| StripedInput.LaterRow | src/client/StripedInputStreamImpl.cpp:318-325 | the stripe after a whole one begins in a later row of cells |
| StripedInput.ProgressIff | src/client/StripedInputStreamImpl.cpp:311-326 | before the end of a block a read of a positive size returns bytes if and only if the number left, modulo 2^32, lies strictly between 0 and 2^31 |
| StripedInput.StalledRead | src/client/StripedInputStreamImpl.cpp:311-311 | with 2^31 bytes left a read returns none |
| StripedInput.StripedInputStream.constructor | src/client/StripedInputStreamImpl.cpp:41-54 | a new stream on a file whose internal blocks are stored complete stands at the start and holds nothing |
| StripedInput.StripedInputStream.Seek | src/client/StripedInputStreamImpl.cpp:353-378 | each of the four outcomes in exactly its case, the cursor moved only on success, and the buffered stripe still true to the file |
| StripedInput.StripedInputStream.SetCurBlock | src/client/StripedInputStreamImpl.cpp:89-144 | afterwards the current block contains the cursor and the readers of the old one are gone |
| StripedInput.StripedInputStream.ReadersBehind | src/client/StripeReader.cpp:251-254 | whenever a stripe is about to be read, no block reader stands past its row, after every sequence of reads and seeks |
| StripedInput.StripedInputStream.ReadOneStripe | src/client/StripedInputStreamImpl.cpp:249-300 | the buffer covers the cursor and holds the file's bytes; it succeeds whenever no stripe loses more than p units |
| StripedInput.CopyBuffered | src/client/StripedInputStreamImpl.cpp:80-87 | bytes copied out of the stripe buffer are the group's bytes at the position |
| StripedInput.StripedInputStream.CopyToTarget | src/client/StripedInputStreamImpl.cpp:80-87 | at least one byte, at most as many as asked for, and they are the file's at the cursor |
| StripedInput.StripedInputStream.ReadPart | src/client/StripedInputStreamImpl.cpp:318-325 | one turn of the loop gives at least one of the file's bytes at the cursor, reading a stripe first exactly when the cursor is outside the one buffered |
| StripedInput.StripedInputStream.ReadLoop | src/client/StripedInputStreamImpl.cpp:317-326 | exactly the wanted number of bytes, across stripes, and they are the file's |
| StripedInput.StripedInputStream.ReadCurrent | src/client/StripedInputStreamImpl.cpp:311-326 | the same with the length the code works out in 32 bits |
| StripedInput.StripedInputStream.Read | src/client/StripedInputStreamImpl.cpp:302-335 | on success the bytes are the file's from the old cursor to the new one and their number is the read length; the stream fails only if it had failed or a stripe lost more than p units, and then for good |
| Packets.PacketRoom | src/client/OutputStreamImpl.cpp:161-170 | the packet size computed is the room a header, n checksums and n chunks take |
| PacketHeaders.DecodeUndoesEncode | src/client/PacketHeader.cpp:100-123 | a header whose fields fit their widths is read back as it was written from its 31 bytes, and is refused exactly when its length is below four |
| Packets.Packet.constructor | src/client/Packet.cpp:44-51 | a new packet is empty with the room asked for |
| Packets.Packet.Reset | src/client/Packet.cpp:53-71 | a recycled packet is as empty as a new one whatever it held |
| Packets.Packet.AddChecksum | src/client/Packet.cpp:73-81 | a checksum is added behind the others and the data is untouched, or there is no slot left and nothing changes |
| Packets.Packet.AddData | src/client/Packet.cpp:83-92 | bytes are added behind the data and the checksums are untouched, or the buffer is too small and nothing changes |
| Packets.Packet.CloseGap | src/client/Packet.cpp:124-141 | moving the checksums up to the data changes neither |
| Packets.Packet.GetBuffer | src/client/Packet.cpp:124-153 | the bytes given out are the encoded header of the packet's own fields, the checksums and the data without a gap, and what the packet holds is unchanged, so a packet sent again sends the same |
| WriteLog.PatchExtends | src/client/OutputStreamImpl.cpp:410-441 | writing a stretch of the content where the replica already reaches extends it and changes no byte |
| WriteLog.ReplayHarmless | src/client/Pipeline.cpp:610-619 | however often and in whatever order such packets are written again, a replica holding a prefix of the content holds one, no shorter, as long as none begins past its end |
| WriteLog.SumsSnoc | src/client/OutputStreamImpl.cpp:356-358 | adding a chunk to whole chunks adds its checksum to theirs |
| WriteLog.ChunksPerPacket | src/client/OutputStreamImpl.cpp:161-170 | a packet has room for at least one chunk at every setting |
| WriteLog.ChunkWithinBlock | src/client/OutputStreamImpl.cpp:298-346 | no chunk crosses the end of a block, the shortened first chunk of an append included |
| OutputStreams.AddChunk | src/client/OutputStreamImpl.cpp:356-358 | neither exception of the packet can occur, and it holds the chunk and its checksum behind the rest |
| OutputStreams.AlignedIff | src/client/OutputStreamImpl.cpp:190-228 | the shortened first chunk of an append ends on a chunk boundary of its block if and only if the earlier blocks are whole chunks |
| OutputStreams.AppendMisaligned | src/client/OutputStreamImpl.cpp:190-228 | blocks of 100 bytes and chunks of 512: the first chunk ends 412 bytes into the last block |
| OutputStreams.OutputStream.FirstSizes | src/client/OutputStreamImpl.cpp:198-221 | the chunk that completes the file's partial chunk goes alone in the first packet; otherwise the packet is no larger than what is free in the block |
| OutputStreams.BlockEnds | src/client/OutputStreamImpl.cpp:512-536 | a block closed with the empty packet is stored in full, and file and packets are what they were with it at the end |
| Blocks.ContentGrows | src/client/OutputStreamImpl.cpp:298-346 | what has been sent stays a prefix of the content as it grows |
| Blocks.SendKeeps | src/client/OutputStreamImpl.cpp:361-369 | sending the stretch from the packet's start extends what is stored to its end and changes no byte, a partial chunk sent before included; how far the block reaches is how far the pipeline's packets reach |
| Blocks.EmptyPacketChangesNothing | src/client/OutputStreamImpl.cpp:523-530 | the closing packet changes nothing stored |
| Blocks.OrderNext | src/client/OutputStreamImpl.cpp:351-354 | the packets of all blocks together stay numbered 0, 1, 2, ... with their chunks' checksums, and within a block without a gap |
| BlockWriters.BlockWriter.constructor | src/client/PacketPool.cpp:35-37 | a new writer has no pipeline, no packets and nothing handed over |
| BlockWriters.BlockWriter.GetPacket | src/client/PacketPool.cpp:39-53 | the packet, recycled or new, is empty with the sizes asked for, and is neither in the pool nor in flight |
| BlockWriters.BlockWriter.Release | src/client/PacketPool.cpp:55-62 | acknowledged packets leave the queue in order and the pool never holds a packet that is still in flight |
| BlockWriters.CarriesImage | src/client/Packet.cpp:124-153 | a packet that still is what was recorded is sent as the recorded bytes |
| BlockWriters.BlockWriter.Prepare | src/client/Pipeline.cpp:610-619 | the bytes handed to the pipeline are the recorded ones |
| BlockWriters.Post | src/client/Pipeline.cpp:621-678 | a running pipeline that accepts a packet has been given exactly the log with it at the end; otherwise its recovery failed |
| BlockWriters.Drain | src/client/Pipeline.cpp:755-757 | everything the pipeline was given is acknowledged and the block's record has the length it reaches, or its recovery failed |
| BlockWriters.End | src/client/Pipeline.cpp:823-841 | the same with the closing packet acknowledged, or dropped with everything before it acknowledged |
| BlockWriters.BlockWriter.SetupPipeline | src/client/OutputStreamImpl.cpp:371-392 | a pipeline that has been given nothing and whose block has the length at which writing begins, or the reason why there is none |
| BlockWriters.BlockWriter.OpenPipeline | src/client/Pipeline.cpp:59-82 | for an append the pipeline runs exactly when its recovery succeeds |
| BlockWriters.BlockWriter.NewPipeline | src/client/Pipeline.cpp:82-87 | for a new block the pipeline runs from offset zero, or there is a reason why none could be built |
| BlockWriters.BlockWriter.Attach | src/client/OutputStreamImpl.cpp:361-364 | there is a pipeline now, or its setup failed |
| BlockWriters.BlockWriter.HandOver | src/client/OutputStreamImpl.cpp:364-368 | the packet is in flight behind the others, all of them unchanged, and the pipeline's packets are the log |
| BlockWriters.BlockWriter.Send | src/client/OutputStreamImpl.cpp:361-369 | the packet has been handed over to the block's pipeline, and packets it has given back are in the pool; it throws only when a pipeline could not be built or was lost |
| BlockWriters.BlockWriter.Flush | src/client/OutputStreamImpl.cpp:438-440 | everything handed over for the block is acknowledged and on record; it throws only when the pipeline was lost |
| BlockWriters.BlockWriter.Close | src/client/OutputStreamImpl.cpp:512-536 | the pipeline ends with everything acknowledged, a dropped closing packet aside, and all packets are free again |
| BlockWriters.BlockWriter.NotDown | src/client/OutputStreamImpl.cpp:281-296 | while the writer is in order no pipeline has failed to be built or been lost, so an exception means that one has |
| OutputStreams.EmptyHolds | src/client/OutputStreamImpl.cpp:351-354 | an empty packet of the computed size, new or recycled, has room for all its chunks |
| OutputStreams.OutputStream.constructor | src/client/OutputStreamImpl.cpp:50-73 | a stream on a block with given content satisfies the invariant |
| OutputStreams.OutputStream.OpenNew | src/client/OutputStreamImpl.cpp:232-274 | refused exactly when the packet size is below the chunk size or the block size is no multiple of it; otherwise an empty file |
| OutputStreams.OutputStream.OpenAppend | src/client/OutputStreamImpl.cpp:172-230 | for a file whose earlier blocks are whole chunks, refused in exactly those cases or when the length of the file is a multiple of the block size; otherwise the file as it was, with a first packet that completes the partial chunk |
| OutputStreams.OutputStream.ComputePacketChunkSize | src/client/OutputStreamImpl.cpp:161-170 | packet size, number of chunks and buffer size agree |
| OutputStreams.OutputStream.GetPacket | src/client/OutputStreamImpl.cpp:351-354 | the packet, recycled or new, is empty, has room for all chunks, starts where the sent chunks end and has the next number |
| OutputStreams.OutputStream.EnsurePacket | src/client/OutputStreamImpl.cpp:351-354 | there is a packet with room, with the next number, starting where the sent chunks end |
| OutputStreams.OutputStream.AppendChunkToPacket | src/client/OutputStreamImpl.cpp:348-359 | the packet holds the content from its start to the chunk's end, with its checksums |
| OutputStreams.OutputStream.FinishChunk | src/client/OutputStreamImpl.cpp:318-323 | a full chunk is in the packet and counted, and the running checksum starts over |
| OutputStreams.OutputStream.BufferBatch | src/client/OutputStreamImpl.cpp:313-324 | buffer and running checksum hold exactly the unfinished chunk |
| OutputStreams.OutputStream.TakeBatch | src/client/OutputStreamImpl.cpp:302-324 | the content grows by the batch on both ways, past the buffer and through it |
| OutputStreams.OutputStream.SendPacket | src/client/OutputStreamImpl.cpp:361-369 | the block's stored bytes reach the packet's end, packets are numbered 0, 1, 2, ... without a gap, and the pipeline has been given exactly the block's packets; it throws only when a pipeline could not be built or was lost |
| OutputStreams.OutputStream.RestoreSizes | src/client/OutputStreamImpl.cpp:332-337 | after the first packet of an append the configured sizes apply |
| OutputStreams.OutputStream.ClosePipeline | src/client/OutputStreamImpl.cpp:512-536 | the block is finished with everything stored, its pipeline has acknowledged its packets and recorded its length, and a new one begins; without a pipeline nothing happens |
| OutputStreams.OutputStream.EndBlock | src/client/OutputStreamImpl.cpp:526-535 | the block joins the finished ones as acknowledged, numbering and file unchanged, and an empty one takes its place |
| OutputStreams.OutputStream.CloseFull | src/client/OutputStreamImpl.cpp:339-341 | a full block joins the finished ones and the file is unchanged by it |
| OutputStreams.OutputStream.AfterSend | src/client/OutputStreamImpl.cpp:332-341 | after a packet the sizes and the block are those the next chunk needs, and the file is unchanged |
| OutputStreams.OutputStream.SendWhole | src/client/OutputStreamImpl.cpp:328-342 | a full packet or block is sent and closed as due, and the file is unchanged by it |
| OutputStreams.OutputStream.SendDue | src/client/OutputStreamImpl.cpp:328-342 | nothing is left that should have been sent |
| OutputStreams.OutputStream.AppendSome | src/client/OutputStreamImpl.cpp:301-343 | one turn adds a nonempty prefix of the bytes to do |
| OutputStreams.OutputStream.AppendInternal | src/client/OutputStreamImpl.cpp:298-346 | all bytes are added, through any number of chunks, packets and blocks, unless a pipeline could not be built or was lost |
| OutputStreams.OutputStream.Append | src/client/OutputStreamImpl.cpp:281-296 | the file is what it was and then the bytes; it fails exactly when a pipeline could not be built or its recovery failed, now or before |
| OutputStreams.OutputStream.GatherPacket | src/client/OutputStreamImpl.cpp:417-429 | the packet to send reaches the end of the content, the partial chunk included, or nothing is left |
| OutputStreams.OutputStream.SendRest | src/client/OutputStreamImpl.cpp:417-436 | every byte appended so far has been sent, and the partial chunk stays to be completed |
| OutputStreams.OutputStream.NowSecured | src/client/OutputStreamImpl.cpp:438-440 | a pipeline with nothing left to wait for has been given the block's packets, has them acknowledged and the content's length on record |
| OutputStreams.OutputStream.FlushInternal | src/client/OutputStreamImpl.cpp:410-441 | everything appended is sent and acknowledged by the block's pipeline, also when it returns early because nothing was written since the last flush |
| OutputStreams.OutputStream.Flush | src/client/OutputStreamImpl.cpp:398-408 | on success all of the current block's content is stored, its pipeline was given exactly its packets, has acknowledged all of them and records its length, and the file is unchanged; it fails exactly when a pipeline could not be built or was lost, now or before |
| OutputStreams.OutputStream.Close | src/client/OutputStreamImpl.cpp:538-576 | on success every block ever begun is stored in full and acknowledged by its pipeline, the packets of all blocks are numbered in order with their checksums, no block is longer than the block size and every block but the last is full; it fails exactly when a pipeline could not be built or was lost, now or before |
| Replicas.ReceiveSent | src/client/Pipeline.cpp:613-618 | a datanode that reads the header off the bytes received writes the packet's data at the packet's offset |
| Replicas.ConnectionCarries | src/client/Pipeline.cpp:610-678 | a connection that has carried a stretch of the block's packets, some of them twice in a row, leaves a replica that held what came before it with the content up to where they reach |
| Replicas.OneConnection | src/client/Pipeline.cpp:610-678 | a replica of at least what was acknowledged before a connection becomes, at a node that has received what it acknowledged, one of at least what has been acknowledged on it, and always a beginning of the content |
| Replicas.HolderHolds | src/client/Pipeline.cpp:657-670 | by induction over the life of the pipeline: after any number of failures, recoveries and copies, every node that has followed the block has at least what was acknowledged |
| Replicas.NodeHolds | src/client/Pipeline.cpp:657-677 | at every moment every node of the present pipeline has a beginning of the content that reaches at least as far as was acknowledged |
| Replicas.AcknowledgedIsHeld | src/client/Pipeline.cpp:759-813 | with everything acknowledged every node of the pipeline has the whole content, byte for byte, whatever connections were lost before |
| Replicas.ClosedIsHeld | src/client/Pipeline.cpp:823-841 | so has every node a closed block's pipeline ended with, its closing packet acknowledged or dropped |
| Replicas.FlushedIsHeld | src/client/OutputStreamImpl.cpp:398-408 | so has every node of the stream's pipeline after a flush |
| Pipelines.Offer | src/client/Pipeline.cpp:624-626 | a packet handed over joins the end of the queue |
| Pipelines.Acknowledge | src/client/Pipeline.cpp:707-708 | an acknowledgement takes the first packet off the queue |
| Pipelines.Reconnect | src/client/Pipeline.cpp:669-670 | a new connection begins at the first packet not acknowledged |
| Pipelines.Written | src/client/Pipeline.cpp:649-652 | writing the next packet keeps the connection's packets consecutive |
| Pipelines.WrittenAgain | src/client/Pipeline.cpp:631-653 | so does writing the last one once more |
| Pipelines.NewestWritten | src/client/Pipeline.cpp:648-652 | writing the newest packet leaves every packet carried once if and only if that was so and the packet was not written yet |
| Pipelines.ChronicleFails | src/client/Pipeline.cpp:657-670 | when a connection fails the next one begins where it had packets acknowledged, and its nodes are those that have followed the block |
| Pipelines.ChronicleCopies | src/client/Pipeline.cpp:164-171 | copying replicas keeps the record of the block's connections sound |
| Pipelines.AckStep | src/client/Pipeline.cpp:698-708 | the acknowledged length is the furthest end among acknowledged packets |
| Pipelines.WriteStep | src/client/Pipeline.cpp:614-617 | the sent length lies between the furthest end written and the furthest handed over |
| Pipelines.Withdraw | src/client/Pipeline.cpp:672-676 | dropping the closing packet loses no data |
| Pipelines.AllAcked | src/client/Pipeline.cpp:834-836 | an empty queue means everything was acknowledged up to the end of the data |
| Pipelines.FewerLeft | src/client/Pipeline.cpp:228-248 | excluding another node leaves fewer to exclude, so the rebuild loop ends |
| Pipelines.WaitedForIsWritten | src/client/Pipeline.cpp:631-633 | in a queue grown past the pool the packets waited for have been written if and only if the pool holds two or more |
| Pipelines.PoolOfOneWaitsInVain | src/client/Pipeline.cpp:631-633 | with a pool of one and two packets queued, the second waited for has not been written |
| Pipelines.Pipeline.constructor | src/client/Pipeline.cpp:44-88 | a new pipeline has an empty queue and has acknowledged what the block held |
| Pipelines.Pipeline.FindNewDatanode | src/client/Pipeline.cpp:90-108 | the index returned is of the first node that was not there before; the exceptions come exactly when the number of nodes did not grow by one or no node is new |
| Pipelines.Pipeline.AddDatanode | src/client/Pipeline.cpp:135-189 | nodes stay distinct and apart from the excluded ones, storage ids stay in step; success means one node more, given its neighbour's replica, and none marked bad; a node marked bad is a new one |
| Pipelines.Pipeline.AskForNode | src/client/Pipeline.cpp:135-160 | the namenode's list replaces the nodes; unless it leaves one out, all but the new one have followed the block |
| Pipelines.NoStrangerIff | src/client/Pipeline.cpp:90-108 | with one node more than before, the node found is the only new one if and only if the namenode kept all the others |
| Pipelines.StrangerHasNothing | src/client/Pipeline.cpp:90-108 | two nodes, one kept and two more named: one of them is given no replica |
| Pipelines.Pipeline.CreateBlockOutputStream | src/client/Pipeline.cpp:529-608 | which of the three endings it has and which node it blames, in every case; a failure that is retried always names a node |
| Pipelines.Pipeline.RemoveBad | src/client/Pipeline.cpp:228-247 | exactly the bad node leaves the pipeline, its storage id with it, and it was not excluded before |
| Pipelines.Pipeline.TakeOut | src/client/Pipeline.cpp:222-248 | a bad node, if one is known, is excluded for good, so that fewer are left to exclude; otherwise nothing changes |
| Pipelines.Pipeline.TryBuild | src/client/Pipeline.cpp:250-286 | an attempt keeps the membership invariant; success leaves no node marked bad and one node more exactly when there were too few |
| Pipelines.Pipeline.Turn | src/client/Pipeline.cpp:222-326 | a turn keeps the membership invariant or throws; one that did not find a node to exclude has at least not lost any, and every other leaves fewer to exclude |
| Pipelines.Pipeline.BuildLoop | src/client/Pipeline.cpp:222-326 | the loop ends for every sequence of failures, and fails only with no node left, with the retries used up by attempts that blamed no node, or on an error that is passed on |
| Pipelines.Pipeline.Rebuild | src/client/Pipeline.cpp:214-339 | success gives a nonempty pipeline of distinct nodes that all have followed the block, unless the namenode replaced one, and a block record that names them with its length unchanged; it fails only when no node is left, when the retries are used up, at a named step on an error passed on or an offer that cannot be used, or when the namenode does not record the new pipeline, and then leaves the record alone |
| Pipelines.Pipeline.BuildForAppend | src/client/Pipeline.cpp:74-82 | the pipeline of an append stands with all its nodes, old and copied to, before anything is sent |
| Pipelines.LocateNextBlock | src/client/Pipeline.cpp:341-370 | the first answer other than "not replicated yet" is taken, after at most as many repetitions as configured |
| Pipelines.BuildForNewBlock | src/client/Pipeline.cpp:394-480 | the loop ends for every sequence of failures; the pipeline built has distinct nodes, none of them found bad before; every exception has one of six reasons, each with its event |
| Pipelines.Pipeline.Connect | src/client/Pipeline.cpp:441-458 | connecting leaves the pipeline ready, or names a bad node, or passes an error on |
| Pipelines.Pipeline.TakeAck | src/client/Pipeline.cpp:691-708 | one more packet is acknowledged, in order, and the acknowledged length never falls |
| Pipelines.Pipeline.CheckResponse | src/client/Pipeline.cpp:680-753 | it throws exactly for an answer that is neither for the packet in front nor a heartbeat nor a permitted silence; exactly the answer for the packet in front acknowledges it |
| Pipelines.Pipeline.WritePacket | src/client/Pipeline.cpp:613-618 | on success the connection carries one more packet in order, or the last one again; a failed write changes nothing |
| Pipelines.Pipeline.Resend | src/client/Pipeline.cpp:610-619 | it succeeds exactly when the connection has carried the whole queue in order, each packet once |
| Pipelines.Pipeline.Failover | src/client/Pipeline.cpp:657-670 | the queue survives a failure and waits to be written from its first packet; it gives up only when the rebuild does or the block is striped |
| Pipelines.Pipeline.DropClosing | src/client/Pipeline.cpp:672-676 | only the closing packet is queued then, and without it the data reaches as far |
| Pipelines.Pipeline.Recover | src/client/Pipeline.cpp:657-676 | after a failure the queue is as it was with nothing written, or in the closing stage empty with everything acknowledged; the lost connection is on record with its nodes |
| Pipelines.Pipeline.AwaitOne | src/client/Pipeline.cpp:759-813 | one wait takes at most the first packet off the queue; after a recovery the whole queue has been written before it waits |
| Pipelines.Pipeline.WaitTurn | src/client/Pipeline.cpp:762-813 | one turn takes an answer or recovers, and says which |
| Pipelines.Pipeline.WaitForAcks | src/client/Pipeline.cpp:759-813 | forced, it leaves nothing unacknowledged; not forced, it leaves room, and the newest packet has been written by then if and only if a connection was lost; it never loses or reorders a packet, and throws only when a recovery failed |
| Pipelines.Pipeline.Enqueue | src/client/Pipeline.cpp:621-626 | the packet is last in the queue |
| Pipelines.Pipeline.WriteOnce | src/client/Pipeline.cpp:635-677 | one attempt writes everything queued, or fails and leaves the queue as it was |
| Pipelines.Pipeline.WriteNewest | src/client/Pipeline.cpp:648-652 | only the newest packet is written, for the first time or again |
| Pipelines.Pipeline.MakeRoom | src/client/Pipeline.cpp:628-633 | with room nothing happens; otherwise the newest packet has been written by the end of the wait if and only if a connection was lost in it |
| Pipelines.Pipeline.Dispatch | src/client/Pipeline.cpp:628-677 | when the packet is carried twice, and what the connection then has carried |
| Pipelines.Pipeline.WriteOut | src/client/Pipeline.cpp:635-677 | everything queued has been written to the present connection, over any number of failures, each packet once unless the newest had been written before and no connection was lost since; it throws only when a recovery failed |
| Pipelines.Pipeline.Send | src/client/Pipeline.cpp:621-678 | the packet and all before it are acknowledged or written to the present connection, counters never fall, only a closing packet may have been dropped, and it throws only when a recovery failed; the connection has carried every packet once afterwards if and only if a connection was begun after room was found, or none was lost before and it had carried every packet once until then; with room in the queue that is always kept, and from every full queue with a node to spare there is a run in which the packet is written twice |
| Pipelines.WrittenTwice | src/client/Pipeline.cpp:628-653 | a run of three sends with a pool of two: the connection fails while the third waits for room, and the next one carries the third packet twice |
| Pipelines.Pipeline.Flush | src/client/Pipeline.cpp:755-757 | everything handed over is acknowledged and the block's length is the end of the data, or a recovery failed |
| Pipelines.Pipeline.AckedWithinSent | src/client/Pipeline.cpp:615-700 | at every moment no more is acknowledged than sent, nor sent than handed over |
| Pipelines.Pipeline.SendLast | src/client/Pipeline.cpp:833-836 | the closing packet is acknowledged or dropped, with everything before it acknowledged |
| Pipelines.Pipeline.Close | src/client/Pipeline.cpp:823-841 | the same as for flush, with the closing packet acknowledged or dropped |
| LocalReaders.LocalBlockReader.constructor | src/client/LocalBlockReader.cpp:52-63 | a new reader stands at the block's start with both files in step |
| LocalReaders.LocalBlockReader.Open | src/client/LocalBlockReader.cpp:64-121 | opened exactly for the known version and checksum types, and when verifying only with checksums and a positive chunk size; the buffer is then a whole number of chunks |
| LocalReaders.LocalBlockReader.VerifyChunks | src/client/LocalBlockReader.cpp:145-162 | success means every chunk in the buffer matches its checksum; an intact block succeeds |
| LocalReaders.LocalBlockReader.SumsThere | src/client/LocalBlockReader.cpp:141-143 | an intact block has all the checksums a refill asks for |
| LocalReaders.ChunkSlice | src/client/LocalBlockReader.cpp:147-153 | the slice of the buffer summed is the chunk, the short last one included |
| LocalReaders.Advanced | src/client/LocalBlockReader.cpp:138-163 | after a refill the data and checksum files stand at the same chunk again |
| LocalReaders.LocalBlockReader.ReadAndVerify | src/client/LocalBlockReader.cpp:138-163 | the buffer holds the block's bytes at the cursor, every one of them in a chunk that was checked |
| LocalReaders.LocalBlockReader.Fill | src/client/LocalBlockReader.cpp:198-213 | the refill holds as much as fits or is left, and cannot fail on an intact block |
| LocalReaders.LocalBlockReader.ReadInternal | src/client/LocalBlockReader.cpp:165-215 | the bytes are the block's at the cursor, at least one before the end, each checked when verifying, and an intact block never fails |
| LocalReaders.LocalBlockReader.SeekToChunk | src/client/LocalBlockReader.cpp:251-265 | both files go to the start of the chunk the target is in |
| LocalReaders.LocalBlockReader.Skip | src/client/LocalBlockReader.cpp:233-289 | the cursor moves by the distance asked for with buffer and files in step, and an intact block never fails |
| Streamers.SendKeepsContent | src/client/StripedOutputStreamImpl.cpp:568-577 | sending stores what was pending and changes nothing else |
| Streamers.ChunkAdded | src/client/StripedOutputStreamImpl.cpp:442-466 | a chunk is added to the end of the internal block wherever packet boundaries fall |
| Streamers.PacketSent | src/client/StripedOutputStreamImpl.cpp:685-700 | with the last packet sent, what is stored is the whole internal block |
| UnitLayout.Position | src/client/StripedOutputStreamImpl.cpp:509-566 | a group of n bytes stands at one row, cell and offset, and every data block has the length that implies |
| UnitLayout.Grow | src/client/StripedOutputStreamImpl.cpp:509-532 | bytes appended within a cell lengthen that cell's block and no other |
| UnitLayout.NewByte | src/client/StripedBlockUtil.cpp:158-164 | they land at the block offsets the reading side maps to them |
| UnitLayout.OldByte | src/client/StripedBlockUtil.cpp:158-164 | offsets below a block's length stand for bytes the group has |
| UnitLayout.DataGrows | src/client/StripedOutputStreamImpl.cpp:509-532 | a chunk is added to its own data block and no byte of any changes |
| UnitLayout.ColumnStays | src/client/StripedOutputStreamImpl.cpp:537-545 | columns of complete rows never change |
| UnitLayout.ParityStays | src/client/StripedOutputStreamImpl.cpp:537-545 | so parity written for them stays right |
| StripedWriter.ParityOfRow | src/client/StripedOutputStreamImpl.cpp:292-305 | encoding the cells of a row, padded with zeros, gives the row's parity units |
| StripedWriter.ColumnOfCells | src/client/StripedOutputStreamImpl.cpp:275-290 | byte t of the cells is the group's column at that offset |
| StripedWriter.ChunkLaid | src/client/StripedOutputStreamImpl.cpp:523-532 | giving a chunk to the current cell's streamer keeps every internal block what the layout says |
| StripedWriter.NextPosition | src/client/StripedOutputStreamImpl.cpp:512-564 | cell and row advance exactly when the cell is full, as the layout of the new length says |
| StripedWriter.GroupEndSeen | src/client/StripedOutputStreamImpl.cpp:516-551 | the chunk that fills a group also fills its last stripe, the only place where the end is acted on, if and only if blocks are whole cells |
| StripedWriter.GroupEndMissed | src/client/StripedOutputStreamImpl.cpp:516-551 | blocks of two bytes and cells of four: with the group full the stream stands at the second cell of the first row, which is empty, and no stripe has ended |
| StripedWriter.CellsGrow | src/client/StripedOutputStreamImpl.cpp:981-987 | the cell buffers go on holding their cells' bytes of the row |
| StripedWriter.StripedOutputStream.constructor | src/client/StripedOutputStreamImpl.cpp:102-151 | a new stream has an empty group, laid out |
| StripedWriter.StripedOutputStream.WriteParity | src/client/StripedOutputStreamImpl.cpp:240-264 | a parity block grows by exactly the cell, no other block changes |
| StripedWriter.StripedOutputStream.EncodeCells | src/client/StripedOutputStreamImpl.cpp:275-300 | the parity cells hold the encoding of the data cells |
| StripedWriter.StripedOutputStream.WriteParityCells | src/client/StripedOutputStreamImpl.cpp:292-305 | every parity block grows by the row's parity and the cells are cleared |
| StripedWriter.StripedOutputStream.AddTo | src/client/StripedOutputStreamImpl.cpp:981-987 | the chunk goes behind what the cell holds |
| StripedWriter.StripedOutputStream.PutChunk | src/client/StripedOutputStreamImpl.cpp:509-532 | the chunk is in its cell, in its streamer and in the group's length, in a new group if the last was full |
| StripedWriter.GroupComplete | src/client/StripedOutputStreamImpl.cpp:548-559 | when the group is full every internal block is full, sent, and holds its unit's bytes |
| StripedWriter.StripedOutputStream.CloseBlocks | src/client/StripedOutputStreamImpl.cpp:343-358 | every streamer ends its block and stands at the start of the next |
| StripedWriter.StripedOutputStream.EndGroup | src/client/StripedOutputStreamImpl.cpp:547-559 | the finished group is recorded complete, all units, and the next begins empty |
| StripedWriter.StripedOutputStream.AppendChunkToPacket | src/client/StripedOutputStreamImpl.cpp:509-566 | the accepted bytes grow by the chunk, and cells, streamers and parity still agree with the layout |
| StripedWriter.StripedOutputStream.TakeBatch | src/client/StripedOutputStreamImpl.cpp:414-434 | the file grows by the batch on both ways |
| StripedWriter.StripedOutputStream.Append | src/client/StripedOutputStreamImpl.cpp:410-440 | the file grows by the bytes, over any number of cells, stripes and groups |
| StripedWriter.StripedOutputStream.PadCell | src/client/StripedOutputStreamImpl.cpp:673-679 | zeros behind what a cell holds up to the length, nothing else |
| StripedWriter.StripedOutputStream.PadAll | src/client/StripedOutputStreamImpl.cpp:669-681 | every cell holds its part of the row padded to the same length |
| StripedWriter.StripedOutputStream.PadCells | src/client/StripedOutputStreamImpl.cpp:658-683 | the length is that of the first cell, and no cell is longer, as the assertion says |
| StripedWriter.StripedOutputStream.EnqueueAll | src/client/StripedOutputStreamImpl.cpp:685-700 | no packet is left pending on any streamer |
| StripedWriter.StripedOutputStream.Close | src/client/StripedOutputStreamImpl.cpp:899-912 | every byte accepted is in a group, all earlier groups are full, and every internal block of every group is stored as its unit's bytes |
| WriteThenRead.Covered | src/client/StripedOutputStreamImpl.cpp:899-912 | the block list of the groups written has no gap and covers the file |
| WriteThenRead.LeftIsStored | src/client/StripedInputStreamImpl.cpp:89-144 | every group written is stored as the reading side needs to find it |
| WriteThenRead.ClosedIsLeft | src/client/StripedOutputStreamImpl.cpp:899-912 | a closed stream leaves complete groups that together are all bytes it accepted |
| WriteThenRead.StaysLong | src/client/StripedInputStreamImpl.cpp:311-326 | with 2^31 bytes or more left in a block a read leaves 2^31 or more, so that the end is never reached; with fewer it returns something |
| WriteThenRead.ReadMore | src/client/StripedInputStreamImpl.cpp:302-335 | a read that succeeds returns the file's bytes at the cursor, and none only if a block has 2^31 bytes or more ahead; it succeeds when no stripe loses more than p units |
| WriteThenRead.ReadToEnd | src/client/StripedInputStreamImpl.cpp:302-335 | reading with any buffer size ends, returns the file's bytes from the cursor on, and reaches the end of the file if and only if no block has 2^31 bytes or more ahead of the cursor |
| WriteThenRead.ReadBack | src/client/StripedInputStreamImpl.cpp:302-335 | reading back the groups a writer left gives a beginning of the bytes accepted, and all of them if and only if every group is shorter than 2^31 bytes, for every behaviour of the datanodes that loses at most p units of each stripe |
| WriteThenRead.CloseAndRead | src/client/StripedOutputStreamImpl.cpp:899-912 | a stream is closed and read back: exactly the bytes handed to it if and only if every group is shorter than 2^31 bytes |

## Left out

- StripedInput.StripedInputStream.Read: internal blocks of 2^31 bytes or more are outside its contract, because the 32-bit casts of the read path then fail as `Geometry.LengthExact` and `StripeLayout.DecodeInputExact` say; a file whose last block is still being written, whose length comes from a datanode, refreshing block locations, and retrying after a token expires are not modelled.
- StripeReaders.StripeReader.ReadStripe: reads run one after the other; threads, futures and the order in which several outstanding reads finish are reduced to the lowest-numbered one finishing next, which is how the code waits for them. That it succeeds is stated from the number of bad units, not the other way round, since a bad unit that is never asked for does no harm.
- DivideStripe.DivideOneStripe: groups of 2^31 cells or more are outside its contract, the cell numbers being 32 bits wide.
- RawCoder.RawErasureEncoder.Encode: buffers of unequal length, a null first input and too few buffers are outside its contract; the code does not check for them.
- RawCoder.RawErasureDecoder.Decode: fewer than k inputs present, other than none, and erased indexes out of range are outside its contract; the code indexes past its vectors then. The `erasureFlags` field, which nothing reads, is left out.
- MatrixCode.GfInvertMatrix: the loops that update both matrices entry by entry are run once for each matrix.
- Words.MulAddWord: a little-endian machine is assumed for loading words; the single-product table is taken to hold products.
- OutputStreams.OutputStream.Append: the exception kept is a flag, not its text.
- OutputStreams.OutputStream.OpenAppend: the block size asked for is taken to be the file's and the earlier blocks to be whole chunks, the condition `OutputStreams.AlignedIff` shows to be exact; a file for which the namenode names no last block, and the wish of the caller to create a missing file are not modelled.
- OutputStreams.OutputStream.ClosePipeline: it is stated for a stream without a packet being filled, which is how all its callers call it; the sync flag of the closing packet and the fsync at the namenode are left out.
- OutputStreams.OutputStream.Close: completing the file at the namenode and the lease are left out.
- PacketHeaders.DecodeUndoesEncode: decoding is that of the four fields in order, not of every encoding protocol buffers allow.
- Pipelines.Pipeline.Rebuild: generation stamps and tokens are left out; an answer that names a node outside the pipeline counts as a plain failure.
- Pipelines.Pipeline.AddDatanode: a namenode answer that is empty or names an excluded node ends the attempt, where the code carries on with it; transferring the block to the new node is one event that succeeds or fails.
- Pipelines.BuildForNewBlock: an offer that repeats a node or names an excluded or unknown one ends the attempt, where the code carries on with it; every attempt begins with a new object, where the code sets the fields of the same one again. At least one retry is configured, as src/common/SessionConfig.cpp:114 demands.
- Pipelines.Pipeline.CreateBlockOutputStream: connecting, sending the request and reading the answer are one event with the outcome of the three.
- Pipelines.Pipeline.constructor: the packet pool holds at least two packets, the condition `Pipelines.WaitedForIsWritten` shows to be needed; heartbeat packets are left out.
- Replicas.FlushedIsHeld: a datanode writes what it receives at the offset in the header and does not check the checksums; that the nodes meet `Run` and that the namenode has kept them is taken from outside, and a replica that a datanode cuts back in a recovery is not modelled.
- LocalReaders.LocalBlockReader.constructor: the reader owns its buffer; in the code the buffer is a reference to the caller's, and one stream gives all its readers the same one (src/client/StripedInputStreamImpl.cpp:197), so that a refill by one overwrites what another holds. Everything stated of a reader is about one that owns its buffer.
- LocalReaders.LocalBlockReader.Open: reading the header's bytes from the file is left out, and so is the skip to a first offset, which is `Skip`.
- StripedWriter.StripedOutputStream.Append: every streamer is healthy; losing streamers, replacing them, bumping generation stamps and the acknowledged length of a damaged group are left out, and so are chunk checksums on this path, whose streamers are not joined to `Pipelines.Pipeline`.
- StripedWriter.StripedOutputStream.constructor: cells are whole chunks, as the code's own check demands, and blocks are whole cells, the condition under which `StripedWriter.GroupEndSeen` shows that the end of a group is seen; for other block sizes only that lemma is stated.
- StripedWriter.StripedOutputStream.CloseBlocks: closing a streamer's pipeline is a change of its state, without the closing packet and its acknowledgement.
- StripedWriter.StripedOutputStream.Close: the closing packets, waiting for acknowledgements and completing the file are left out.
- The encoder and decoder built on the ISA-L library, a replacement for the same functions.
- Remote block readers, the client protocol with datanodes and namenodes, sockets, protobuf encoding beyond the packet header and CRC arithmetic: the checksum is any function of the bytes.
- `ByteBuffer` beyond position, limit and window: marks, reallocation and typed access; clearing and flipping the cell buffers is a change of their positions.
- File system metadata operations, RPC, Kerberos and encryption, which are separate parts of the repository.
