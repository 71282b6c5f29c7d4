# BFT-Store: proofs about its erasure code, its block store and its cache

BFT-Store keeps the blocks of a permissioned blockchain on k + m nodes. Every k blocks form an
epoch; the epoch is framed into k equally long chunks, extended by m parity chunks with a
Reed-Solomon code over GF(2^8), and spread so that each node keeps one chunk in full and only
digests of the others. This project models the library in Dafny and proves what it is for.

Check everything with `dafny verify dfyconfig.toml`.

## Main results

* **Any k of n shards give everything back.** `Recovery.Recover` runs on one memory with pointers.
  If the shards marked present are those of the codeword of some data, then after the call all n
  shards are, whatever the missing ones held; no other byte has changed; with fewer than k present
  the call answers `RecoverFailed` and changes nothing. Beneath it: the table-driven byte
  arithmetic is the field defined by shift-and-reduce, a polynomial with as many roots as
  coefficients is zero, any k rows of the coding matrix are nonsingular, Gauss-Jordan answers null
  exactly for singular matrices and a two-sided inverse otherwise, and the in-place compaction of
  the decode rows never overwrites a row before it is read.
* **Parity is polynomial evaluation.** `Encoder.Encode` and `Encoder.EncodePartial` say, on the bytes themselves,
  what parity is: if the data bytes at one offset are the values of a polynomial with k coefficients at 0..k-1
  (some polynomial always is, `Invertibility.DataIsPolynomial`), parity byte j is its value at k + j.
* **All kernels compute one function.** The reference, nibble-table and blocked kernels meet the same
  specification, and the specification has only one solution (`Kernels.MultipliedUnique`).
* **From saving to reading.** `Cluster.ReadEpoch`: the chunks that any k sealers store in full are fetched, placed,
  recovered and unpacked, and give back every block of the epoch, exactly if and only if it is shorter than
  256 * 255 * 255 bytes (its first bytes otherwise). Nothing is asked of the other sealers: they may have lost the
  epoch or never saved it. `Cluster.SaveThenRead` composes this with saving.
* **The cache is least recently used.** Over any run of gets and puts, for any capacity, a key is cached exactly
  if fewer than capacity different other keys were put, or hit by a get, since it was put or hit itself
  (`LruSpec.HeldIsCached`, counted on the operations). The linked list holds these keys in order of last
  touch, each with the value last put, and a get answers the value last put or nothing (`LruCache.Run`).
* **A node refines its history.** Over any run of saves, reads and decodes from a new node on, every answer, the
  epochs saved and the entries cached are functions of the operations alone, whatever the cache evicts
  (`StoreRuns.Run`). Once decode received a true chunk, a read of its block shows it until the chunk is evicted,
  saved over or received again (`Coherence.ReceivedThenRead`). `Coherence.WhenReadIsCurrent` says for any history
  exactly when a read shows the block saved last, and `Coherence.ReadsAreCurrent` that it always does while the
  history stays in step.

## Where the code does not do what it seems to promise

* `Erasure::decode` marks every shard present before it recovers (`generate_ptrs` sets all entries,
  libbftstore/src/Erasure.cpp:31-33, called at 253), so nothing is ever rebuilt. The model keeps this.
  `Decoding.DecodesOnlyWhatItWasGiven` states exactly when the answer is right: the wanted chunk was itself
  among those received, or it is all zeros. `Decoding.DecodeFails` carries out a failing call. The guarantee
  that decoding is meant to give is stated on `erasure_recover` with the mask of the chunks at hand
  (`Cluster.ReadEpoch`).
* The three-digit size header wraps at 256 * 255 * 255 bytes: `Framing.UnpackInvertsChunk` says what comes back
  of every block.
* A chunk that `decode` cached for another node's position stays in the cache when the same epoch is saved again
  with other blocks, and is then served instead of them. `Coherence.StaleRead` carries out such a run: the block
  saved last is 2 and the read shows 1. `Store.Erasure.SaveChunk` states, over the cache before the call, exactly
  when the cache is still current afterwards.
* The comment at libbftstore/erasure-codes/rs_encoder.h:29-30 lets the pointers of unselected parity shards be
  null, but libbftstore/erasure-codes/stream_encode.cpp:89-91 rejects any null parity pointer:
  `Encoder.EncodePartial` answers `InvalidArguments` exactly when some pointer is null, selected or not.

## How the model is laid out

| modules | what they hold |
|---|---|
| Gf256, Generator, LogTables, Symbol | the byte field, its generator 3, the tables and the arithmetic through them |
| LinearAlgebra, Polynomials, ReedSolomon, Invertibility | matrices as values, root counting, what the coding matrix guarantees, why it exists |
| Matrices, RowOperations, Inversion, CodingMatrix | matrices updated in place, Gauss-Jordan, building the coding matrix |
| Memory, Kernels, VectorKernel | pointers into one byte memory and the three multiplication kernels |
| Masks, Encoder, Recovery | presence masks, encode and recover streams, the encoder's operations |
| LruSpec, LruCache | the touch history, and the hash map with its doubly linked list |
| Framing, Keys, Placement, EpochChunks | headers and padding, store keys, chunk placement, the chunks of an epoch |
| Decoding, Store, StoreRuns, Coherence, Cluster | decoding as written, one node, runs on one node, when reads are current, several nodes together |
| Pigeonhole | counting facts about sequences without repetition |

A pointer is null or an address in one `array<Byte>`; a shard is the run of bytes behind it. Matrices are two-dimensional
arrays, and a null matrix is a null reference. The hash, the epoch's random draws and the digest are parameters:
sha256 is any function with results of 64 characters, and the draws of an epoch are any endless stream below k + m
in which every number keeps coming up.

## Model

| member | source | states |
|---|---|---|
| LogTables.ShiftReduceMul | libbftstore/log-table-generator/main.cpp:7-23 | the shift-and-reduce loop computes the field product that all field laws are proved about |
| LogTables.FillExp | libbftstore/log-table-generator/main.cpp:28-36 | entry i below 255 is the i-th power of 3; the last entry is not touched |
| LogTables.FillLog | libbftstore/log-table-generator/main.cpp:37-41 | the logarithm table undoes the exponent table on 0..254; entry 0 is not touched |
| LogTables.GenerateTables | libbftstore/log-table-generator/main.cpp:71-75 | the generator program leaves exactly the two tables the arithmetic uses: powers of 3, their exponents, and zero in the entries nothing is written to |
| LogTables.TablesInverse | libbftstore/log-table-generator/main.cpp:28-41 | the tables are mutually inverse between 0..254 and the nonzero bytes |
| Generator.PowersCoverBytes | libbftstore/log-table-generator/main.cpp:28-36 | every nonzero byte is one of the first 255 powers of 3 |
| Generator.PowInjective | libbftstore/log-table-generator/main.cpp:37-41 | the first 255 powers of 3 are pairwise different, so no log entry is written twice |
| Gf256.MulComm | libbftstore/log-table-generator/main.cpp:7-23 | shift-and-reduce multiplication is commutative |
| Gf256.MulAssoc | libbftstore/log-table-generator/main.cpp:7-23 | shift-and-reduce multiplication is associative |
| Gf256.MulAddRight | libbftstore/log-table-generator/main.cpp:7-23 | it distributes over XOR in its second operand |
| Gf256.MulAddLeft | libbftstore/log-table-generator/main.cpp:7-23 | it distributes over XOR in its first operand |
| Gf256.TimesX | libbftstore/log-table-generator/main.cpp:7-23 | doubling shifts left and reduces by 0x1B; with distributivity, associativity and the unit this fixes every product |
| Symbol.Times | libbftstore/gf-arithmetic/symbol.cpp:19-30 | the product through the two tables is the shift-and-reduce product, zero operands included |
| Symbol.Div | libbftstore/gf-arithmetic/symbol.cpp:31-45 | the quotient times the divisor is the dividend; a zero dividend gives zero |
| Symbol.DivIsUnique | libbftstore/gf-arithmetic/symbol.cpp:31-45 | no other byte is a quotient |
| Symbol.Exp | libbftstore/gf-arithmetic/symbol.cpp:47-57 | the n-th power, also of zero and with exponent zero |
| Symbol.NoZeroDivisors | libbftstore/gf-arithmetic/symbol.cpp:19-30 | a product is zero only if a factor is |
| Matrices.Multiply | libbftstore/gf-arithmetic/matrix.cpp:130-153 | the triple loop leaves the matrix product, for all shapes, empty ones included |
| Matrices.Submatrix | libbftstore/gf-arithmetic/matrix.cpp:112-128 | a fresh matrix with exactly the given rows and columns |
| Matrices.CopyRow | libbftstore/gf-arithmetic/matrix.cpp:155-162 | one row becomes another one, of the same matrix or not, and nothing else changes |
| LinearAlgebra.ProductAssoc | libbftstore/gf-arithmetic/matrix.cpp:130-153 | the product is associative for all shapes |
| LinearAlgebra.ProductDistributes | libbftstore/gf-arithmetic/matrix.cpp:130-153 | it distributes over XOR on the right |
| LinearAlgebra.ProductDistributesLeft | libbftstore/gf-arithmetic/matrix.cpp:130-153 | it distributes over XOR on the left |
| LinearAlgebra.ProductUnits | libbftstore/gf-arithmetic/matrix.cpp:130-153 | the identity is a unit on both sides |
| LinearAlgebra.InverseProducts | libbftstore/gf-arithmetic/matrix-inverse.cpp:9-81 | solving a x = y by b is the same as b being a two-sided inverse of a |
| LinearAlgebra.InverseUnique | libbftstore/gf-arithmetic/matrix-inverse.cpp:9-81 | a matrix has at most one inverse |
| Inversion.Augment | libbftstore/gf-arithmetic/matrix-inverse.cpp:16-27 | the work matrix starts as the input with the identity to its right |
| Inversion.FindPivot | libbftstore/gf-arithmetic/matrix-inverse.cpp:31-53 | nothing moves if the pivot is nonzero; otherwise the first lower row with a nonzero entry in the column is swapped up; a zero pivot afterwards means the rest of the column is zero |
| Inversion.Normalise | libbftstore/gf-arithmetic/matrix-inverse.cpp:58-64 | the pivot becomes 1 and the old row is the old pivot times the new row, although only columns from the pivot on are divided |
| Inversion.Eliminate | libbftstore/gf-arithmetic/matrix-inverse.cpp:66-77 | every other row loses its multiple of the pivot row, all rows as of before the loop |
| RowOperations.SwapKeepsReduced | libbftstore/gf-arithmetic/matrix-inverse.cpp:39-50 | a swap keeps the kernel of the work matrix and its finished columns |
| RowOperations.ScaleKeepsReduced | libbftstore/gf-arithmetic/matrix-inverse.cpp:58-64 | dividing the pivot row keeps both |
| RowOperations.EliminateKeepsReduced | libbftstore/gf-arithmetic/matrix-inverse.cpp:66-77 | elimination keeps the kernel and finishes one more identity column |
| RowOperations.ReducedGivesInverse | libbftstore/gf-arithmetic/matrix-inverse.cpp:80 | when all columns are finished, the right half is the inverse of the input |
| RowOperations.NoPivotMeansSingular | libbftstore/gf-arithmetic/matrix-inverse.cpp:54-55 | a column without a pivot gives a nonzero vector that the input maps to zero |
| Inversion.Inverse | libbftstore/gf-arithmetic/matrix-inverse.cpp:9-81 | null exactly when some nonzero vector is mapped to zero; otherwise a fresh two-sided inverse |
| CodingMatrix.InvertInPlace | libbftstore/erasure-codes/matrix.cpp:18-28 | true exactly for nonsingular matrices, which are overwritten with their inverse; others stay as they are |
| CodingMatrix.Vandermonde | libbftstore/erasure-codes/matrix.cpp:30-42 | every entry (r, c) is the c-th power of r |
| Polynomials.RootsBound | libbftstore/erasure-codes/matrix.cpp:30-42 | a polynomial with as many different roots as coefficients is zero |
| Polynomials.PowerRowsNonsingular | libbftstore/erasure-codes/matrix.cpp:30-42 | rows of powers of k different bytes form a nonsingular matrix |
| ReedSolomon.TopNonsingular | libbftstore/erasure-codes/matrix.cpp:47-50 | the top block is never singular, so the assertion there holds |
| CodingMatrix.BuildMatrix | libbftstore/erasure-codes/matrix.cpp:44-53 | builds the Vandermonde matrix in the basis that makes its top block the identity; never fails |
| ReedSolomon.AnyRowsNonsingular | libbftstore/erasure-codes/matrix.cpp:44-53 | any k different rows of the coding matrix form a nonsingular matrix |
| ReedSolomon.Systematic | libbftstore/erasure-codes/matrix.cpp:44-53 | the top k rows are the identity |
| ReedSolomon.SystematicCodeword | libbftstore/erasure-codes/matrix.cpp:44-53 | a codeword starts with its data |
| ReedSolomon.CodewordInterpolates | libbftstore/erasure-codes/matrix.cpp:44-53 | the codeword of the values of a polynomial at 0..k-1 are its values at 0..n-1, for up to k coefficients |
| Invertibility.DataIsPolynomial | libbftstore/erasure-codes/matrix.cpp:44-53 | any k bytes are the values at 0..k-1 of some polynomial with k coefficients |
| ReedSolomon.CodingUnique | libbftstore/erasure-codes/matrix.cpp:44-53 | n and k determine the coding matrix |
| ReedSolomon.EncodingIsLinear | libbftstore/erasure-codes/stream_encode.cpp:103-114 | the codeword of an XOR is the XOR of the codewords |
| ReedSolomon.AgreementDetermines | libbftstore/erasure-codes/matrix.cpp:44-53 | data columns whose codewords agree in k places are equal |
| ReedSolomon.MinimumDistance | libbftstore/erasure-codes/matrix.cpp:44-53 | codewords of different data agree in fewer than k of the n places |
| Kernels.MatrixMulBasic | libbftstore/gf-arithmetic/backends/encode_basic.cpp:11-37 | outputs hold the matrix product of the inputs whatever they held before; inputs and all other bytes are unchanged |
| Kernels.AddProducts | libbftstore/gf-arithmetic/backends/encode_basic.cpp:31-34 | the inner loop adds a multiple of one input to one output |
| Kernels.NibbleProduct | libbftstore/lohi-generator/main.cpp:31-61 | the low-table and high-table entries of a byte's nibbles XOR to the product |
| Kernels.MulRow | libbftstore/gf-arithmetic/backends/encode_adv.cpp:24-40 | one output becomes a multiple of one input, through nibble tables |
| Kernels.MulAddRow | libbftstore/gf-arithmetic/backends/encode_adv.cpp:8-23 | one output gains a multiple of one input, through nibble tables |
| Kernels.MatrixMulAdv | libbftstore/gf-arithmetic/backends/encode_adv.cpp:43-65 | with at least one input, the same contract as the reference kernel; without inputs nothing is written |
| Kernels.MultipliedUnique | libbftstore/gf-arithmetic/backends/encode_avx2.cpp:93-138 | kernels that meet the contract agree on every byte of memory |
| VectorKernel.BlockProductLane | libbftstore/gf-arithmetic/backends/encode_avx2.cpp:57-81 | every one of the 32 lanes is multiplied: bits shifted in from a neighbour are masked off, and both table halves are reached |
| VectorKernel.MulBlocks | libbftstore/gf-arithmetic/backends/encode_avx2.cpp:53-85 | the blocked loop multiplies a whole row |
| VectorKernel.MulAddBlocks | libbftstore/gf-arithmetic/backends/encode_avx2.cpp:19-52 | the blocked loop adds a multiple of a whole row |
| VectorKernel.MatrixMulBlocks | libbftstore/gf-arithmetic/backends/encode_avx2.cpp:101-114 | the blocked pass meets the kernel contract on lengths divisible by 32 |
| VectorKernel.PassesCombine | libbftstore/gf-arithmetic/backends/encode_avx2.cpp:118-137 | a pass over the first bytes and one over the rest make one pass over all of them |
| VectorKernel.MatrixMulAvx2 | libbftstore/gf-arithmetic/backends/encode_avx2.cpp:93-138 | blocks and scalar tail together meet the reference kernel's contract for every length |
| Masks.ChosenIsMask | libbftstore/erasure-codes/stream_encode.cpp:51-61 | the recorded indices are exactly the selected ones, in increasing order |
| Masks.CountIsSize | libbftstore/erasure-codes/rs_encoder.cpp:130-134 | the count is the number of selected positions |
| Masks.MissingFit | libbftstore/erasure-codes/stream_recover.cpp:67-68 | at least k present means at most n - k data shards missing: the output indices fit their part of the buffer |
| Masks.PresentDataUsed | libbftstore/erasure-codes/stream_recover.cpp:74-82 | every data shard that is present is among the k shards read |
| Encoder.RsEncoder.constructor | libbftstore/erasure-codes/rs_encoder.cpp:41-73 | an encoder holds the coding matrix of its n and k and the chosen kernel |
| Encoder.CreateEncoder | libbftstore/erasure-codes/liberasure.cpp:22-48 | null exactly for no data, no shards, no data shards or no parity; otherwise a valid encoder |
| Encoder.CreateEncodeStream | libbftstore/erasure-codes/stream_encode.cpp:38-71 | the stream holds the coding rows and indices of exactly the selected parity shards, in order |
| Encoder.StreamEncode | libbftstore/erasure-codes/stream_encode.cpp:78-119 | InvalidArguments and no change exactly when a data or parity pointer is null; otherwise the selected parity shards become those of the data's codeword and nothing else changes |
| Encoder.EncodePartial | libbftstore/erasure-codes/rs_encoder.cpp:81-97 | the same for the whole call, null pointers of unselected parity shards included; on the bytes, the selected parity holds the values at k.. of the polynomials through the data, and every byte outside the selected parity shards stays |
| Encoder.Encode | libbftstore/erasure-codes/rs_encoder.cpp:99-123 | without null pointers, data and parity together are the codeword of the data, which is left as it was; parity bytes are the values at k.. of the polynomials through the data, and every byte outside the parity shards stays |
| Encoder.CodedIsSystematic | libbftstore/erasure-codes/matrix.cpp:44-53 | the first k shards of a codeword are the data shards verbatim |
| Encoder.EncodedInterpolates | libbftstore/erasure-codes/stream_encode.cpp:103-114 | what the stream writes are values of the polynomials through the data bytes |
| Encoder.PartialAgreesWithFull | libbftstore/erasure-codes/rs_encoder.cpp:81-123 | partial encoding writes the bytes full encoding would and leaves unselected parity as it was |
| Recovery.GatherRows | libbftstore/erasure-codes/stream_recover.cpp:73-82 | the first k present shards are recorded, none before them left out, and their coding rows gathered in order |
| Recovery.CompactRows | libbftstore/erasure-codes/stream_recover.cpp:86-95 | row j ends as the original row of the j-th missing data shard; input indices are kept; at most n - k outputs |
| Recovery.CreateRecoverStream | libbftstore/erasure-codes/stream_recover.cpp:40-112 | no stream exactly when fewer than k are present; otherwise the rows of an inverse of the gathered matrix, whose inversion cannot fail |
| Recovery.UsedAndMissingApart | libbftstore/erasure-codes/stream_recover.cpp:147-150 | no shard is both read and written |
| Recovery.StreamRecoverData | libbftstore/erasure-codes/stream_recover.cpp:119-164 | InvalidArguments exactly when a pointer is null; otherwise the data shards become those whose codeword has the shards read, and only missing data shards change |
| Recovery.DecodedReencodes | libbftstore/erasure-codes/stream_recover.cpp:84 | encoding what the inverse decodes gives back the shards it was decoded from |
| Recovery.RecoverData | libbftstore/erasure-codes/rs_encoder.cpp:125-151 | RecoverFailed exactly below k present shards, InvalidArguments exactly for a null pointer with k or more, both without change; otherwise Success, and the data shards are the data behind the present ones |
| Recovery.Recover | libbftstore/erasure-codes/rs_encoder.cpp:153-185 | RecoverFailed exactly below k present shards, InvalidArguments exactly for a null pointer with k or more, both without change; otherwise Success, all n shards are the codeword of whatever data the present ones belong to, and every byte outside the missing shards stays |
| Recovery.AnyKShardsRestoreAll | libbftstore/erasure-codes/rs_encoder.cpp:125-185 | recovered shards are the codeword of every data block that the present shards belong to, whatever the missing ones held |
| Recovery.PresentDataUntouched | libbftstore/erasure-codes/stream_recover.cpp:130-131 | with all data present, recovery rewrites no data shard |
| LruCache.DLinkedNode.constructor | libbftstore/include/BlockCache.hpp:7-15 | a new node is linked to nothing |
| LruCache.Cache.constructor | libbftstore/include/BlockCache.hpp:27-33 | a new cache is well formed and empty |
| LruCache.RemoveNode | libbftstore/include/BlockCache.hpp:78-82 | the chain without that node, links mutually inverse; no other link changes |
| LruCache.AddToHead | libbftstore/include/BlockCache.hpp:70-76 | the chain with that node right behind the head |
| LruCache.Cache.MoveToHead | libbftstore/include/BlockCache.hpp:84-88 | the list is the node followed by the others in their old order |
| LruCache.Cache.RemoveTail | libbftstore/include/BlockCache.hpp:90-95 | the last list node goes, never a sentinel |
| LruCache.Cache.Get | libbftstore/include/BlockCache.hpp:35-44 | a hit answers the value of the entry, which moves to the front while the others keep their order; a miss answers nothing and changes nothing |
| LruCache.Cache.Put | libbftstore/include/BlockCache.hpp:46-68 | the new entry leads, an old one of the key is taken out of its place, the others keep their order, and the last one goes when a new key exceeds the capacity; size, map and list stay in step |
| LruSpec.RecencyLaws | libbftstore/include/BlockCache.hpp:17-96 | the recency order of a touch history lists every key once, with the value of its newest touch |
| LruSpec.PutAgrees | libbftstore/include/BlockCache.hpp:46-68 | a put on the bounded list is a touch on the unbounded history |
| LruSpec.GetAgrees | libbftstore/include/BlockCache.hpp:35-44 | a get answers from the history and counts as a touch exactly when it hits |
| LruSpec.GetListIs | libbftstore/include/BlockCache.hpp:35-44 | what a get makes of the entries, entry by entry |
| LruSpec.PutListIs | libbftstore/include/BlockCache.hpp:46-68 | what a put makes of the entries, entry by entry |
| LruSpec.PutKeepsPlace | libbftstore/include/BlockCache.hpp:46-68 | a put moves an entry of another key down by at most one place, so it outlives as many puts as there is room behind it |
| LruSpec.HeldIsCached | libbftstore/include/BlockCache.hpp:35-68 | after any run a key is cached if and only if fewer than capacity different other keys were put or hit since its own last put or hit |
| LruSpec.TouchesAre | libbftstore/include/BlockCache.hpp:35-44 | an operation counts as a touch exactly if it is a put or a get that finds its key in the cache |
| LruSpec.HeldInOrder | libbftstore/include/BlockCache.hpp:35-68 | an entry in front of another one was touched after that one was touched last |
| LruCache.Run | libbftstore/include/BlockCache.hpp:35-68 | over any run, for any capacity, counted on the operations: which keys are cached, in which order, with which values, and that a get answers the value last put if its key is cached then and nothing otherwise |
| Framing.ComputeMaxLen | libbftstore/src/Erasure.cpp:39-47 | the length of the longest of the first k blocks |
| Framing.MaxLen | libbftstore/src/Erasure.cpp:39-47 | an upper bound of the block lengths that one of them reaches |
| Framing.HeaderValue | libbftstore/src/Erasure.cpp:54-60 | the three header bytes read back as the size modulo 256 * 255 * 255 |
| Framing.ChunkBytes | libbftstore/src/Erasure.cpp:49-69 | a chunk byte by byte: the size in three base-255 digits, most significant first, the block, zeros |
| Framing.WriteRow | libbftstore/src/Erasure.cpp:58-66 | the three digits of the size and the block behind them are written at the row's start, byte by byte, and nothing else |
| Framing.Preprocess | libbftstore/src/Erasure.cpp:49-69 | row i is the frame of block i padded with zeros, rows do not overlap, and the parity rows are zero |
| Framing.UnpackInvertsChunk | libbftstore/src/Erasure.cpp:300-304 | unpacking stays within the frame and gives the first size-modulo-limit bytes of the block: all of it if and only if it is shorter than 256 * 255 * 255 |
| Framing.UnpackTakes | libbftstore/src/Erasure.cpp:300-304 | unpacking takes the bytes from the fourth on, as many as the three digits say |
| Keys.NumeralValue | libbftstore/src/Erasure.cpp:13-24 | a printed number reads back as itself, in base 16 and base 10 |
| Keys.NumeralShape | libbftstore/src/Erasure.cpp:13-24 | only digits, no plus sign, no leading zero except for zero |
| Keys.KeysInjective | libbftstore/src/Erasure.cpp:36-38 | different epoch and position pairs have different store keys and different cache keys |
| Keys.DataKeyReadsBack | libbftstore/src/Erasure.cpp:36-38 | the text before the first plus sign of a store key is the epoch in base 16, the text behind it the position |
| Keys.CacheKeyReadsBack | libbftstore/src/Erasure.cpp:120-122 | the same for a cache key in base 10 |
| Keys.DigitPrinted | libbftstore/src/Erasure.cpp:19-22 | a digit below ten is counted from the character 0, one from ten on from the capital A |
| Keys.ComputeChunkPosition | libbftstore/src/Erasure.cpp:285-289 | epoch and position determine the block number, epoch * k + position + 1, for every integer; from 1 on the position is below k, and a number below 1 gets a negative epoch or position |
| Keys.BlockKeysInjective | libbftstore/src/Erasure.cpp:285-289 | different block numbers have different keys |
| Placement.GetDistinctChunkSet | libbftstore/src/Erasure.cpp:158-174 | the loop ends; every slot holds a number below k + m that no earlier slot holds, and all draws before it first came up are in earlier slots |
| Placement.PlacementUnique | libbftstore/src/Erasure.cpp:158-174 | every node works out the same placement |
| Placement.GetChunkPosByNode | libbftstore/src/Erasure.cpp:291-298 | every slot is filled: the placement at the position of a node is that node, and the other way round |
| EpochChunks.EncodeRows | libbftstore/src/Erasure.cpp:76-90 | the rows of the buffer become the codeword of its first k rows |
| EpochChunks.EpochChunksUnique | libbftstore/src/Erasure.cpp:142 | nodes that encode the same blocks get the same chunks |
| EpochChunks.EpochChunksExist | libbftstore/src/Erasure.cpp:142 | all blocks have chunks, for all numbers of shards |
| EpochChunks.DataChunkOf | libbftstore/src/Erasure.cpp:142 | the first k chunks are the framed blocks themselves |
| EpochChunks.UnpackDataChunk | libbftstore/src/Erasure.cpp:300-304 | unpacking a data chunk gives its block, as far as the header can tell |
| Decoding.DecodeRow | libbftstore/src/Erasure.cpp:246-274 | decode as written, byte by byte: the byte of the last chunk received for the wanted row that is long enough, zero if there is none; empty chunks, for which there is no encoder, included |
| Decoding.DecodesOnlyWhatItWasGiven | libbftstore/src/Erasure.cpp:241-275 | from true chunks, the answer is the wanted chunk if and only if that chunk was received or is all zeros |
| Decoding.DecodeFails | libbftstore/src/Erasure.cpp:250-253 | a call that decodes the one-byte block 1 of two nodes from its parity chunk does not return the data chunk |
| Store.Erasure.constructor | libbftstore/src/Erasure.cpp:101-108 | nothing saved, an empty store, an empty cache, the node's place looked up; with a proper configuration the node is valid |
| Store.Erasure.FindSequenceInSealers | libbftstore/src/Erasure.cpp:92-99 | the node's place in the sealer list, or the wrapped -1 if it is not in it |
| Store.Erasure.WriteDb | libbftstore/src/Erasure.cpp:111-134 | stores chunk and digest and caches the chunk, or stores the digest alone |
| Store.Erasure.StoreChunk | libbftstore/src/Erasure.cpp:144-152 | one chunk written keeps all other values in place, and the cache changes by a put of the node's own chunk, once that is reached, and by nothing else |
| Store.Erasure.SaveChunk | libbftstore/src/Erasure.cpp:136-155 | under the key of every chunk of the epoch: chunk and digest if the placement names this node, else the digest; the values of all other saved epochs stay right; the cache is the old one after a put of the own chunk; it is current for the epoch if and only if every other chunk of it that survives the put had its new value before |
| Store.CurrentAfterPut | libbftstore/src/Erasure.cpp:120-122 | when a cache is current after a put, as a condition on the cache before it |
| LruSpec.PutLookup | libbftstore/include/BlockCache.hpp:46-68 | a put of one key leaves the entry of another one with its value, unless that is the last one and has to go |
| Store.Erasure.ComputeBlocksInWhichNode | libbftstore/src/Erasure.cpp:231-239 | the sealer that the placement names for the block's chunk; it is this node exactly if the placement names this node's position |
| Store.Erasure.OwnValue | libbftstore/src/Erasure.cpp:201-218 | what the store holds for an owned chunk is a framed chunk followed by its digest, and unpacks to the block saved |
| Store.Erasure.LocalReadBlock | libbftstore/src/Erasure.cpp:201-218 | for a stored chunk c followed by a digest d: c is unpacked if d is its digest, otherwise the answer is empty |
| Store.Erasure.GetBlockByNumber | libbftstore/src/Erasure.cpp:176-199 | over the cache's entries: a nonempty entry under the block's key is unpacked, so the entry of any version shows that version's block; without one, the block saved last if the placement names this node, else nothing; the cache sees one get and the store is untouched |
| Store.Erasure.GetStoredBlock | libbftstore/src/Erasure.cpp:187-197 | without a cached chunk: the block saved last if the placement names this node, else nothing |
| Store.Erasure.AnswerIs | libbftstore/src/Erasure.cpp:176-199 | the answer used for runs, in terms of the entries themselves |
| Store.ReceivedStays | libbftstore/src/Erasure.cpp:255-264 | a received chunk is still cached after decode if, from it on, no more chunks were received than fit the cache |
| Store.Erasure.Decode | libbftstore/src/Erasure.cpp:241-275 | the cache sees one put for every received chunk, in order, under the chunk's key; the answer is the wanted row as DecodeRow gives it |
| StoreRuns.Run | libbftstore/src/Erasure.cpp:136-275 | over any run of saves, reads and decodes, every answer, the epochs saved and the entries cached are those determined by the operations; a key is cached exactly if fewer than capacity different other keys were touched since its own last touch |
| StoreRuns.CacheStepAgrees | libbftstore/src/Erasure.cpp:136-275 | what an operation does to the cached entries is what its gets and puts do to the touch history |
| Coherence.HitShowsLastCached | libbftstore/src/Erasure.cpp:179-185 | a read of a block whose chunk is in the cache shows the version whose chunk was cached last |
| Coherence.ReceivedThenRead | libbftstore/src/Erasure.cpp:176-275 | over any run: after decode received the true chunk of a block, a read shows that block as long as the chunk is cached and was neither saved over nor received again |
| Coherence.DecodeThenRead | libbftstore/src/Erasure.cpp:176-275 | decode followed by a read shows the block of a true chunk received, if it and the chunks behind it fit the cache |
| Coherence.WhenReadIsCurrent | libbftstore/src/Erasure.cpp:176-199 | for any history, a read shows the block saved last if and only if the version cached last agrees in it, or, without a cached chunk, this node owns it or there is nothing to show |
| Coherence.ReadsAreCurrent | libbftstore/src/Erasure.cpp:176-199 | while decode gets true chunks of saved epochs and no epoch whose chunks were received is saved again with other blocks, every read shows the block saved last if it is owned or cached, and nothing otherwise |
| Coherence.StaleRead | libbftstore/src/Erasure.cpp:262-263 | a run of a save, a decode, a save and a read that shows the block saved first |
| Cluster.OneFullCopy | libbftstore/src/Erasure.cpp:144-152 | once all sealers saved an epoch, one of them stores a chunk with its digest, and each of the others the digest alone |
| Cluster.OneChunkEach | libbftstore/src/Erasure.cpp:144-152 | every sealer that saved an epoch stores one chunk with its digest, and of every other chunk the digest alone |
| Cluster.RecoverBlocks | libbftstore/erasure-codes/liberasure.cpp:139-161 | k true chunks of an epoch, recovered with the matching mask and unpacked, give every block |
| Cluster.ReadEpoch | example.cpp:68-89 | the full chunks of any k sealers, placed by node position, recover and unpack to every block of the epoch, whatever became of the other sealers |
| Cluster.SaveAll | example.cpp:37-40 | nodes without shared memory that save the same blocks end in the state the read guarantee asks for, whatever is in their caches |
| Cluster.SaveThenRead | libbftstore/src/Erasure.cpp:136-174 | from saving on some nodes to reading from any k of them: every block below the size limit comes back exactly |

## Left out

- The SSE kernel: the inner loop of its tail steps the row counter instead of the column counter (libbftstore/gf-arithmetic/backends/encode_sse.cpp:127), so it has no contract for lengths not divisible by 16.
- Failed allocations and alloca, stream destruction, exceptions, memory leaks, null pointers to whole arrays of pointers and to encoders or streams: every allocation succeeds.
- The flat row-major layout of a matrix, and copy assignment between matrices of different shape: matrices are two-dimensional arrays and only same-shape assignments occur.
- The counters of the streams are unbounded numbers here: with n below 256, the bound of the parameter type, the 8-bit ones do not wrap.
- Presence masks are booleans; mask bytes other than 0 and 1 are not modelled.
- Shard buffers that overlap in part: outputs are disjoint from each other and from the inputs; inputs may coincide.
- Exact instruction timing and alignment of the vector kernel: an instruction is a function on 32 byte lanes.
- RocksDB is a map whose writes succeed; sha256 is any function with results of 64 characters; the random engine is any stream of draws per epoch in which every number below k + m keeps coming up.
- Integer widths of block and epoch numbers: they do not overflow, and the last block number of an epoch is at least 1.
- Store.Erasure.constructor: a node with k + m of 256 or more, or with sealers that are not k + m different ones, is constructed but not valid: the encoder's parameters are bytes, and the placement indexes the sealer list, so the other methods do not work on it.
- Store.Erasure.GetBlockByNumber: block number 0 indexes the placement far out of range and is not modelled; without a cached chunk, a node asked for a chunk it owns must have saved that epoch, as the assertion on the store's status demands; a cached chunk's header must not reach past its end.
- Store.Erasure.LocalReadBlock: a stored value shorter than a digest, which makes the substring call throw, and one that carries a matching digest but a size past its end.
- Store.Erasure.Decode: the cache is filled before the rows are copied instead of in the same loop; positions out of range and chunks longer than the first one, which write past the buffer, are not modelled.
- Decoding.DecodeRow: the same positions and longer chunks are not modelled.
- Cluster.ReadEpoch: requesting the chunks over a network is left to the caller by the library; nodes are read directly, and recovery takes the place of decode.
- A node restarted on an existing database: every node starts with an empty store.
- The literal table dumps of libbftstore/gf-arithmetic/log_tables.cpp and lohi_table.cpp: the tables are defined by their generators.
- libbftstore/erasure-codes/symbol.cpp and libbftstore/erasure-codes/encode, which the matrices do not use; FixedHash, vector_ref, Common.h and the build files, which would only add easy members.
