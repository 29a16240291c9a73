# Verified models of the imaging, boot-signature and access-control tools

A Dafny project about four parts of the repository: the big-number and P-256 code of
`tools/libmincrypt`, the sparse-image library `tools/libsparse`, the ext4 image code of
`tools/ext4_utils`, and the userspace access vector cache of `tools/libselinux`. The C code works in
place, and so do the models: digit and limb arrays, linked nodes, bitmaps, directory buffers and cache
chains are arrays and objects that methods change, each proved against a function or a predicate, and
the promises of the code are lemmas about those. `dafny verify dfyconfig.toml` checks the whole.

| files | what they model |
|---|---|
| `Congruence`, `Words`, `Rounding`, `LittleEndian` | congruences, 32-bit digit sequences and carries, rounding, byte fields |
| `Rsa` | Montgomery exponentiation, for any number of words |
| `P256`, `P256Inverse` | digit arithmetic modulo an arbitrary modulus, for any number of digits |
| `Felem` | the 29/28-bit limb field in Montgomery form |
| `ScalarMult`, `Selection` | comb and window scalar multiplication over an abstract group; the masked table lookups |
| `BackedBlocks`, `BlockLists` | lists of backed blocks, as values and as linked nodes |
| `Resparse`, `SparseFiles` | cutting an image into files of limited length |
| `SparseFormat`, `Checksums`, `SparseIO` | the sparse file format, its checksum, its writer and its reader |
| `Bitmap`, `Allocator`, `Geometry` | the block allocator and the block groups it works on |
| `Extents`, `Directory` | extent trees, read at any depth, and directories, written and read back |
| `Fixup` | the restartable renumbering of inodes |
| `Avc` | the cache of access decisions |

## Main results

* RSA: `Rsa.ModPow` replaces a byte string by its e-th power modulo n, for e = 3 and 65537, in one final
  subtraction (RSAVP1, section 5.2.2 of RFC 8017).
* P-256 digits: `P256.ModMul` is exact for every operand, every modulus with an all-ones top digit, and
  every aliasing of its arguments; its three asserts never fail. `P256Inverse.ModInvVartime` ends, and
  inverts whatever can be inverted.
* P-256 limbs: `Felem.FelemMul` and `Felem.FelemSquare` stay in range and multiply modulo the prime of
  section D.1.2.3 of FIPS 186-4; no 32-bit or 64-bit word loses anything that is not made up for.
  `Felem.ReduceDegree` says for which 64-bit words that is so. `Felem.FelemInv` raises to the power
  p - 2.
* Scalar multiplication: both loops give the multiple of the point for every scalar below the order. The
  addition formula is wrong for equal, opposite or infinite operands; that its result is never kept then
  is proved word by word (`ScalarMult.CombAddition`).
* Sparse images: every list operation keeps or updates the map from block numbers to contents
  (`BlockLists.BlockList.Add`, `BackedBlocks.QueuedMap`), and leaves nothing that could be merged but a
  first block (`BackedBlocks.QueuedSettled`); cutting conserves it
  (`Resparse.OutputsConserve`), ends exactly under a condition on the limit and the list
  (`Resparse.EndsExactly`), keeps the files it makes within their limit (`SparseFormat.OutputsBytes`), and
  a dry run predicts the real run although it leaves blocks split (`Resparse.DryRunPredicts`). A file
  written with lengths that fit in an int is read back exactly if no gap is too long, and then as the
  same image (`SparseFormat.ImportBack`, `SparseIO.WriteThenImport`).
* Allocator: `Allocator.Allocator.Valid` holds over every run, regions never overlap, and an allocation
  uses as few regions as possible (`Allocator.PicksMinimal`). A file's inode counts exactly the blocks
  that the allocator has less afterwards (`Extents.AllocateExtents`).
* Renumbering: over any number of power failures and restarts, a completed run has renumbered each entry
  exactly once (`Fixup.Image.RunRepeatedly`), because a block is written only after all below it; a run
  that is not completed has made every write it had power for.
* Access decisions: over every run of checks, policy loads and notices, no decision older than a
  processed notice is used, what the table or a handle has is used without asking the kernel, and each
  answer is the one a direct computation gives, except exactly in the
  window described below; no permission widened in permissive mode survives the flush that follows a
  switch to enforcing mode (`Avc.Run`).

## Where the code and its promises part

* `tools/libmincrypt/p256_ec.c:281-290` allows any 64-bit words. The last limb and the carries into it
  have 32 bits: the result is right exactly if the value of the words, with the multiple k·p added that
  clears its low 257 bits, is below 2^517 (`Felem.ReduceDegree`). `Felem.TopLost` gives words for which it
  is wrong; a last word of at most 2^61 - 2^58 is enough (`Felem.LastWordBound`), and the two callers stay
  below 2^60 (`Felem.MulWordsFit`).
* `tools/libsparse/backed_block.c:191-245` adds lengths in 32 bits: a merge keeps the image exactly if the
  sum is below 2^32 (`BackedBlocks.MergeExact`).
* `tools/libsparse/output_file.c:366-440,695-743` computes lengths as ints and `sparse.c:126-150` ignores
  the errors of single blocks. A chunk is written whole exactly if its stored length, with the part of a
  page mapped before it, is below 2^31 (`SparseFormat.EmittedWhole`), and the file is the one the format
  asks for exactly if that is so of all (`SparseFormat.FileWhole`). A block of 2^31 bytes is lost, and the
  file is accepted (`SparseFormat.LongChunkLost`); counted by `sparse.c:193-198` it fits in any room
  (`Resparse.LongBlockFits`).
* `tools/libsparse/sparse.c:278-312` does not end for every limit: with room for less than a block it
  ends exactly if there is nothing to cut or only fills, and a fill fits (`Resparse.EndsExactly`).
* `tools/libsparse/sparse_read.c:340-346` returns a chunk's block count as an int and takes a negative one
  for an error: a file is accepted exactly if no gap has 2^31 blocks or more (`SparseFormat.ImportBack`,
  `SparseFormat.LongGapUnread`).
* `tools/ext4_utils/ext4_utils.c:137-163` measures the last group as if the first data block were 0. With
  blocks of 1K a last group that measures exactly its header is kept though it has no room for it
  (`Geometry.HeaderOutside`), and one that has room is dropped exactly if it is full
  (`Geometry.FullGroupDropped`); `Geometry.CreateFsAuxInfo` has both conditions.
* `tools/ext4_utils/extent.c:130` compares the region count with the buffer in bytes: counts between the
  capacity of the leaf and that are written past its end (`Extents.WriteLeaf`).
* `tools/ext4_utils/extent.c:89-95` splits a block off the first region, which must have two: when every
  group has at most one free block a file that needs any gets none (`Extents.AllocateExtents`).
* `tools/ext4_utils/ext4fixup.c:117-164` writes the state word and the bit of the superblock that prevents
  mounting one after the other. A file system being changed can be mounted all the same exactly if the
  first change of state was cut between the two and no change has been completed since
  (`Fixup.Image.MountableExactly`); power for one write is enough (`Fixup.CutAtFirstChange`).
* `tools/ext4_utils/ext4fixup.c:278-348` adds to the free inode counts what the group size on disk lacks,
  and writes the superblock, with the new size, before the descriptors. Cut between the two, every later
  run adds nothing: the descriptors get their new counts exactly if they were written right after the
  superblock that enlarged the groups (`Fixup.Outcome`, kept by `Fixup.Image.Run` and
  `Fixup.Image.RunRepeatedly`); `Fixup.FreeCountsLost` is a run whose restart completes with counts that
  are too small.
* `tools/libsparse/sparse_format.h:30-32` asks for a checksum of the original data with zeros for what is
  skipped, and that is what `sparse_read.c:100-199` sums. `output_file.c:366-440` sums it exactly
  if nothing is skipped and no fill is longer than a block (`Checksums.CountedIsImage`).
* `tools/libselinux/src/avc_internal.c:178-196` sets the enforcing flag before the flush. A check between
  the two is granted what the policy denies exactly if the permissions missing were asked of the same entry
  in permissive mode before (`Avc.Cache.HasPermNoaudit`); `Avc.GrantedInWindow` is such a run.
* `tools/libmincrypt/p256.c:291-329` does not end for a = 0 (`P256Inverse.RoundsOnZero`).

## Model

| member | source | states |
|---|---|---|
| Rsa.SubM | tools/libmincrypt/rsa.c:33-42 | in-place subtraction of the modulus, wrapping at R |
| Rsa.GeM | tools/libmincrypt/rsa.c:45-54 | true if and only if the number is at least the modulus |
| Rsa.ChainExtends | tools/libmincrypt/rsa.c:66-70 | one round of the two-carry chain keeps c + a·b + d·n = 2^32·(digits so far) + carry |
| Rsa.LastCarry | tools/libmincrypt/rsa.c:72-78 | the final carry is 0 or 1, and then one subtraction gives a number below R congruent to (c + a·b)/2^32 |
| Rsa.MontMulAdd | tools/libmincrypt/rsa.c:57-79 | the result times 2^32 is congruent to c + a·b modulo n, and fits in the words |
| Rsa.MontMul | tools/libmincrypt/rsa.c:82-93 | the result times R is congruent to a·b modulo n, for any word count |
| Rsa.BaseInvertible | tools/libmincrypt/rsa.c:57-79 | n·n0inv ≡ -1 makes 2^32 invertible, so results modulo n are determined |
| Rsa.EnterMontgomery | tools/libmincrypt/rsa.c:115-125 | multiplying by rr = R² mod n gives x·R |
| Rsa.SquareMontgomery | tools/libmincrypt/rsa.c:118-126 | a Montgomery square doubles the exponent |
| Rsa.LeaveMontgomery | tools/libmincrypt/rsa.c:122-127 | the last product by the plain input adds one to the exponent and removes the factor R |
| Rsa.LoadWords | tools/libmincrypt/rsa.c:105-113 | the words hold the big-endian value of the bytes, and give back exactly those bytes |
| Rsa.StoreWords | tools/libmincrypt/rsa.c:135-142 | the bytes are the big-endian form of the words' value |
| Rsa.BytesValue | tools/libmincrypt/rsa.c:105-142 | big-endian bytes and little-endian words denote the same number |
| Rsa.ReduceOnce | tools/libmincrypt/rsa.c:130-133 | with 2n > R a single conditional subtraction gives the residue |
| Rsa.ModPow | tools/libmincrypt/rsa.c:95-143 | the bytes become x^e mod n, the residue itself, for e = 3 and 65537 |
| P256.MulAdd | tools/libmincrypt/p256.c:71-85 | c plus b·a, and the carry added to the top word modulo 2^32; other digits unchanged |
| P256.SubTop | tools/libmincrypt/p256.c:88-106 | exact difference of numbers with a separate top digit; the borrow always closes (assert at 104) |
| P256.SubM | tools/libmincrypt/p256.c:110-123 | subtracts the masked modulus; the top digit takes the borrow |
| P256.AddM | tools/libmincrypt/p256.c:127-140 | adds the masked modulus; the top digit takes the carry |
| P256.QuotientGuess | tools/libmincrypt/p256.c:167-179 | taking the top digit as quotient leaves less than R + MOD when MOD's top digit is all ones |
| P256.TopIsBit | tools/libmincrypt/p256.c:174-179 | so the next top is 0 or 1, and if it is 1 the rest is below MOD |
| P256.RowAdded | tools/libmincrypt/p256.c:152-156 | row by row the product of a and the digits of b so far builds up |
| P256.MulRows | tools/libmincrypt/p256.c:148-160 | the unreduced number is a·(top_b·R + b) |
| P256.ReduceDigit | tools/libmincrypt/p256.c:163-183 | one round removes a digit and keeps the residue; its asserts top <= 1 and top = 0 hold |
| P256.ReduceOnce | tools/libmincrypt/p256.c:185-187 | one conditional subtraction |
| P256.ModMul | tools/libmincrypt/p256.c:143-190 | exactly a·(top_b·R + b) mod MOD, for any digit count and any aliasing of the arguments |
| P256Inverse.Shr1 | tools/libmincrypt/p256.c:223-233 | halving with the high bit shifted in, in place too |
| P256Inverse.Sub | tools/libmincrypt/p256.c:252-262 | difference modulo R, and the borrow if and only if a < b, also without an output |
| P256Inverse.Add | tools/libmincrypt/p256.c:265-275 | sum modulo R, and the carry if and only if it reaches R |
| P256Inverse.Mod | tools/libmincrypt/p256.c:331-336 | one conditional subtraction of the modulus |
| P256Inverse.EuclidHalve | tools/libmincrypt/p256.c:300-315 | halving U, with R halved or (R + MOD)/2, keeps U ≡ R·a, V ≡ S·a and the common divisors |
| P256Inverse.EuclidSubtract | tools/libmincrypt/p256.c:316-324 | subtracting keeps them too |
| P256Inverse.EuclidEnd | tools/libmincrypt/p256.c:317-328 | when V is 0, U is the greatest common divisor and R·a is congruent to it |
| P256Inverse.HalveStep | tools/libmincrypt/p256.c:300-315 | the branch for an even U or V, in place: the number shrinks and the invariant holds |
| P256Inverse.SubtractStep | tools/libmincrypt/p256.c:316-324 | the branch for odd U and V, in place |
| P256Inverse.EuclidRound | tools/libmincrypt/p256.c:299-326 | U + V strictly decreases, U stays positive, one of the two stays odd |
| P256Inverse.ModInvVartime | tools/libmincrypt/p256.c:291-329 | ends; b < MOD and b·a ≡ gcd(MOD, a), so b is the inverse when they are coprime, also for a >= MOD |
| P256Inverse.RoundsOnZero | tools/libmincrypt/p256.c:299-326 | for a = 0 the loop is not over after any number of rounds |
| P256Inverse.InvertibleIffCoprime | tools/libmincrypt/p256.c:290-329 | an inverse exists if and only if that divisor is 1 |
| Felem.ReduceCarry | tools/libmincrypt/p256_ec.c:196-212 | limbs stay in range and the value changes by carry·(2^257 - 2p) |
| Felem.TopValue | tools/libmincrypt/p256_ec.c:353-419 | the top half of a round clears its limb by adding a multiple of p |
| Felem.BottomValue | tools/libmincrypt/p256_ec.c:423-445 | and so does the bottom half for the next limb |
| Felem.RoundBounded | tools/libmincrypt/p256_ec.c:353-446 | bounds on every limb are kept by each of the nine rounds; a limb that falls to -1 is made up for by the carry below |
| Felem.EliminateEven | tools/libmincrypt/p256_ec.c:354-419 | the words of the array are the exact limbs modulo 2^32 |
| Felem.EliminateOdd | tools/libmincrypt/p256_ec.c:423-445 | likewise |
| Felem.SplitWords | tools/libmincrypt/p256_ec.c:301-341 | seventeen words of 64 bits become eighteen limbs of the same value; the array holds them modulo 2^32 |
| Felem.HalvesEven | tools/libmincrypt/p256_ec.c:307-336 | the pieces taken from the two halves of a word are those of the whole word |
| Felem.TopWordMod | tools/libmincrypt/p256_ec.c:338-341 | the unmasked top piece is right modulo 2^32 |
| Felem.ShiftDown | tools/libmincrypt/p256_ec.c:448-471 | the shift by half a limb gives in-range limbs and a carry below 8; what the last word cannot hold is a multiple of 2^260 and is lost |
| Felem.LastRoundValue | tools/libmincrypt/p256_ec.c:343-446 | after nine rounds the limbs times 2^257 are the value of the words plus the one multiple of p below 2^257·p that clears its low bits |
| Felem.ReduceDegree | tools/libmincrypt/p256_ec.c:281-474 | for any 64-bit words: in-range limbs, and their value times 2^257 is congruent to the words' value modulo p if and only if value + k·p is below 2^517 |
| Felem.IsMultiplier | tools/libmincrypt/p256_ec.c:343-352 | the multiple that clears the low 257 bits is unique below 2^257, so k is a function of the value |
| Felem.LossSeen | tools/libmincrypt/p256_ec.c:468-473 | a lost carry is not 0 modulo p, so it always shows |
| Felem.LastWordBound | tools/libmincrypt/p256_ec.c:281-290 | a last word of at most 2^61 - 2^58 is enough |
| Felem.TopLost | tools/libmincrypt/p256_ec.c:281-474 | words below 2^64, with a last word below 2^61, for which the result is wrong |
| Felem.MulWordsFit | tools/libmincrypt/p256_ec.c:529-596 | no product word overflows 64 bits, and the last is below 2^60 |
| Felem.MulWordsValue | tools/libmincrypt/p256_ec.c:529-596 | the seventeen words are worth the product of the operands |
| Felem.SquareWordsMul | tools/libmincrypt/p256_ec.c:480-522 | the words computed for a square are those computed for the product of a number with itself |
| Felem.FelemMul | tools/libmincrypt/p256_ec.c:524-596 | in-range limbs congruent to a·b·2^-257 modulo p; the output may be an operand |
| Felem.FelemSquare | tools/libmincrypt/p256_ec.c:476-522 | in-range limbs congruent to a²·2^-257 modulo p, in place too |
| Felem.FelemInv | tools/libmincrypt/p256_ec.c:602-668 | the chain of squarings and products raises to p - 2 |
| Felem.InverseByFermat | tools/libmincrypt/p256_ec.c:602-608 | so, given Fermat's theorem for the operand, the result is its inverse in Montgomery form |
| ScalarMult.MultiplesSeparate | tools/libmincrypt/p256_ec.c:833-840 | different positive multiples whose sum stays below the order are neither equal, opposite nor infinite |
| ScalarMult.CombAddition | tools/libmincrypt/p256_ec.c:1066-1079 | the partial scalar and the table's scalar add up within the scalar and are never equal, shown on the words' bits |
| ScalarMult.TableScalars | tools/libmincrypt/p256_ec.c:89-115 | the multiples of the two tables, by the bits of the index: 1, 2^64, 2^128, 2^192, and those times 2^32 |
| ScalarMult.PartialEnds | tools/libmincrypt/p256_ec.c:1061-1098 | a round of the comb doubles the bits read so far and appends one bit of each word |
| ScalarMult.Accumulate | tools/libmincrypt/p256_ec.c:1076-1096 | the masked copies keep the sum only where the incomplete addition is right |
| ScalarMult.ScalarBaseMult | tools/libmincrypt/p256_ec.c:1046-1099 | scalar·G for every scalar below the order, with the tables of lines 89-117 |
| ScalarMult.Precompute | tools/libmincrypt/p256_ec.c:1121-1133 | the sixteen table entries are the multiples 0 to 15 |
| ScalarMult.PrefixWindow | tools/libmincrypt/p256_ec.c:1140-1152 | four more bits make sixteen times the prefix plus the window |
| ScalarMult.WindowRound | tools/libmincrypt/p256_ec.c:1141-1168 | the register holds the multiple by the bits read so far |
| ScalarMult.ScalarWindowMult | tools/libmincrypt/p256_ec.c:1114-1169 | scalar·P for every scalar below the order |
| ScalarMult.PointsMulVartime | tools/libmincrypt/p256_ec.c:1239-1279 | n1·G + n2·P, also when a scalar is zero |
| Selection.SelectAffinePoint | tools/libmincrypt/p256_ec.c:986-1006 | the OR of all masked entries is the entry looked up, or zero |
| Selection.SelectJacobianPoint | tools/libmincrypt/p256_ec.c:1008-1041 | likewise for three coordinates |
| Selection.MaskIs | tools/libmincrypt/p256_ec.c:995-999 | the mask is all ones for the entry and zero for the fifteen others |
| LittleEndian.LowFirst | tools/libsparse/sparse_format.h:21-47 | the fields of on-disk structures have their lowest byte first |
| Fixup.NewInumSameSlot | tools/ext4_utils/ext4fixup.c:76-84 | the new number finds the same inode under the new group size |
| Fixup.NewInumInjective | tools/ext4_utils/ext4fixup.c:76-84 | different inodes get different numbers |
| Fixup.NewInumIdentity | tools/ext4_utils/ext4fixup.c:76-84 | an unchanged group size changes no number |
| Fixup.SlotIs | tools/ext4_utils/ext4fixup.c:166-173 | the group and index of an inode number, which starts at 1 |
| Fixup.HighBit | tools/ext4_utils/ext4fixup.c:649-656 | the mark is bit 31, by which each pass tells what it has finished |
| Fixup.EntryProcessed | tools/ext4_utils/ext4fixup.c:601-656 | what the walk makes of an entry is right however often earlier runs reached it, and it descends unless the subtree is finished |
| Fixup.WalkStep | tools/ext4_utils/ext4fixup.c:576-665 | the buffer's entries up to the walk's place are the final ones |
| Fixup.BlockWritten | tools/ext4_utils/ext4fixup.c:667-673 | writing any one block keeps the invariant that an entry with its mark removed has a fully updated subtree |
| Fixup.StaysFinished | tools/ext4_utils/ext4fixup.c:667-673 | a finished directory stays finished |
| Fixup.DirectoryFinished | tools/ext4_utils/ext4fixup.c:667-673 | after its last block a directory is finished |
| Fixup.Image.RecurseDir | tools/ext4_utils/ext4fixup.c:520-678 | keeps the invariant wherever power fails; returns false only then; on success the subtree is finished, and only it was written |
| Fixup.Image.WriteDirectory | tools/ext4_utils/ext4fixup.c:667-673 | likewise for one directory's blocks |
| Fixup.FinishedBelow | tools/ext4_utils/ext4fixup.c:601-673 | a finished root means that every directory is finished |
| Fixup.PassFinished | tools/ext4_utils/ext4fixup.c:785-797 | and then each entry holds exactly the pass's result |
| Fixup.MarkStarts | tools/ext4_utils/ext4fixup.c:774-787 | the original image satisfies the invariant of the marking pass |
| Fixup.UpdateStarts | tools/ext4_utils/ext4fixup.c:785-794 | the fully marked image satisfies that of the updating pass |
| Fixup.Image.SetState | tools/ext4_utils/ext4fixup.c:117-164 | both writes, one or none, by the power left; only a completed change moves the bit that prevents mounting |
| Fixup.MountableWhileChanged | tools/ext4_utils/ext4fixup.c:117-164 | over any legal changes of state, cut or not: an image being changed is mountable if and only if the first change was cut and none has been completed since |
| Fixup.Image.MountableExactly | tools/ext4_utils/ext4fixup.c:117-164 | the same of every state a run can leave |
| Fixup.CutAtFirstChange | tools/ext4_utils/ext4fixup.c:774-783 | power for one write leaves such an image |
| Fixup.Image.UpdateSuperblocks | tools/ext4_utils/ext4fixup.c:264-349 | clears the bitmaps, then writes the primary superblock, its descriptors and the backups; with less power the counts are the old ones, the new ones, or new in the superblock and old in the descriptors, the last exactly if cut between the two; on success every copy has the same |
| Fixup.Image.ClearBitmaps | tools/ext4_utils/ext4fixup.c:232-261 | the bits of the inodes a group is about to get are clear, with one write for each bitmap in which they were not |
| Fixup.Image.WriteBackups | tools/ext4_utils/ext4fixup.c:307-345 | two writes for each copy, superblock and descriptors; what each copy holds for the power there was |
| Fixup.FreeCountsLost | tools/ext4_utils/ext4fixup.c:278-348 | power for one write, and a restart that completes: the superblock counts the new inodes as free, the descriptors do not |
| Fixup.Image.CompletedAgain | tools/ext4_utils/ext4fixup.c:741-806 | a run on a completed image completes it as it was |
| Fixup.Image.MarkPhase | tools/ext4_utils/ext4fixup.c:785-790 | leads from the marking to the updating invariant, or stays |
| Fixup.Image.UpdatePhase | tools/ext4_utils/ext4fixup.c:792-797 | leads from the updating invariant to the renumbered image, or stays |
| Fixup.Image.Passes | tools/ext4_utils/ext4fixup.c:774-797 | resumes in the state found on disk |
| Fixup.Image.Run | tools/ext4_utils/ext4fixup.c:685-811 | a run that does not complete has made every write it had power for, and can be resumed; if it completes each entry is the new number of the original one, and the counts are as they should be but for the descriptors after one cut |
| Fixup.Image.RunRepeatedly | tools/ext4_utils/ext4fixup.c:685-811 | the same over any number of restarts, with the numbers changed once, not twice, and as many writes made as there was power for |
| Fixup.RenumberedMeaning | tools/ext4_utils/ext4fixup.c:76-84 | a renumbered entry leads to the inode it led to before |
| Fixup.RenumberedWellFormed | tools/ext4_utils/ext4fixup.c:741-806 | the renumbered image can itself be given to the tool |
| Fixup.RenumberedAligned | tools/ext4_utils/ext4fixup.c:741-742 | which then changes no number |
| BackedBlocks.SplitKeepsMap | tools/libsparse/backed_block.c:361-400 | splitting a block leaves every block number its contents |
| BackedBlocks.SplitOrder | tools/libsparse/backed_block.c:361-400 | the pieces are in order, next to each other, and cover what the block covered |
| BackedBlocks.MergeUndoesSplit | tools/libsparse/backed_block.c:191-245 | a merge requires whole blocks on the left, and splitting its result gives the two back |
| BackedBlocks.MergesPieces | tools/libsparse/backed_block.c:191-245 | two blocks, the left one of whole blocks, are merged if and only if they are the pieces of one block that is not in memory |
| BackedBlocks.SplitMerges | tools/libsparse/backed_block.c:191-400 | the pieces of a split block are merged to that block, unless it is in memory |
| BackedBlocks.MergeKeepsMap | tools/libsparse/backed_block.c:191-245 | a merge leaves every block number its contents |
| BackedBlocks.MergeExact | tools/libsparse/backed_block.c:191-245 | with 32-bit lengths, if and only if the sum is below 2^32 |
| BackedBlocks.MergeInList | tools/libsparse/backed_block.c:191-245 | also inside a list, which stays sorted and without overlaps |
| BackedBlocks.PlaceSplits | tools/libsparse/backed_block.c:262-272 | the search finds the gap a block without overlaps belongs to |
| BackedBlocks.InsertInList | tools/libsparse/backed_block.c:262-279 | linking it in there changes the map exactly on its own range |
| BackedBlocks.QueuedMap | tools/libsparse/backed_block.c:247-285 | so does queueing with its merges to both sides |
| BackedBlocks.QueuedSettled | tools/libsparse/backed_block.c:247-285 | in a list where no neighbours could be merged none can after queueing, if and only if the new block does not go first and before one it could be merged with |
| BlockLists.BlockList.Search | tools/libsparse/backed_block.c:262-272 | from the last used node or from the head, the same place is found |
| BlockLists.BlockList.Insert | tools/libsparse/backed_block.c:274-279 | links the node in, nothing else moves |
| BlockLists.BlockList.Merge | tools/libsparse/backed_block.c:191-245 | merges the node with its successor exactly when types, contents and alignment allow |
| BlockLists.BlockList.Queue | tools/libsparse/backed_block.c:247-285 | the linked list becomes the queued list, from a valid hint or none; the hint dangles if and only if the new node was merged away |
| BlockLists.BlockList.Add | tools/libsparse/backed_block.c:287-359 | adding a block that is clear of the list updates the image exactly on its range, in a list that stays sorted, without overlaps and with nothing left to merge but a new first block |
| BlockLists.BlockList.Split | tools/libsparse/backed_block.c:361-400 | the node is replaced by its pieces, in place |
| BlockLists.BlockList.TakeOut | tools/libsparse/backed_block.c:163-174 | unlinks a segment, which keeps its order and values |
| BlockLists.BlockList.LinkIn | tools/libsparse/backed_block.c:176-187 | links a segment in where its first block belongs |
| BlockLists.MovedOrdered | tools/libsparse/backed_block.c:176-187 | blocks that lie in a gap of the list or behind it keep order and map when moved there, if and only if they do not belong before its first block |
| BlockLists.Move | tools/libsparse/backed_block.c:144-188 | the nodes from start to end, either of which may be missing, change lists; the lists stay apart |
| Resparse.StepShrinks | tools/libsparse/sparse.c:224-276 | each file takes something off the list when the limit holds a block |
| Resparse.EndsExactly | tools/libsparse/sparse.c:278-312 | the loop ends if and only if the limit holds a block, or the list is empty, or it has only fills and a fill fits |
| Resparse.CostIs | tools/libsparse/sparse.c:193-198 | what is counted for a block, in ints, is the length of its chunk if no length exceeds an int |
| Resparse.IntRange | tools/libsparse/output_file.c:401-440 | a length as an int is congruent to it modulo 2^32 and in the range of an int |
| Resparse.SkewIs | tools/libsparse/output_file.c:695-709 | a file is mapped from the last multiple of 4096 that is not after its bytes |
| Resparse.OneFile | tools/libsparse/sparse.c:224-312 | the list stays one file if and only if its chunks take at most the limit less 80 bytes |
| Resparse.LongBlockFits | tools/libsparse/sparse.c:193-267 | a block of 2^31 bytes counts for less than nothing and is never cut |
| Resparse.StepMap | tools/libsparse/sparse.c:224-276 | what is moved and what stays make up the old map, in order |
| Resparse.OutputsConserve | tools/libsparse/sparse.c:278-312 | all the files together are the image, in disjoint increasing ranges |
| Resparse.StepAgain | tools/libsparse/sparse.c:249-266 | a cut is found again at the same place in the list of pieces it left |
| Resparse.DryRunPredicts | tools/libsparse/simg2simg.c:73-89 | with lengths that fit in an int, cutting the pieces of a dry run gives the same files |
| Resparse.MovedSize | tools/libsparse/sparse.c:234-267 | with lengths that fit in an int, a file's chunks take at most the limit and one chunk header, and 7/8 of the limit unless it is the last |
| Resparse.SkipsFewer | tools/libsparse/sparse.c:126-150 | one skip chunk per gap, and at most two at the ends |
| Resparse.OutputsSize | tools/libsparse/sparse.c:200-267 | the same of all the files: the counted length with checksum is at most the length asked for and 12 bytes per interior gap |
| SparseFiles.MoveChunksUpToLen | tools/libsparse/sparse.c:224-276 | the linked lists are cut as the specification cuts their values, also when counted lengths are negative |
| SparseFiles.LimitIs | tools/libsparse/sparse.c:234-240 | the limit less 80 bytes, in 32 bits: one below 80 becomes almost 2^32 |
| SparseFiles.CountBlock | tools/libsparse/sparse.c:104-124 | the bytes counted for a block when each length is passed as an int |
| SparseFiles.NextOutput | tools/libsparse/sparse.c:292-297 | a fresh file takes the next chunks and shares no node with any other |
| SparseFiles.SetAside | tools/libsparse/sparse.c:298-302 | chunks not handed out are kept in order in the temporary file |
| SparseFiles.PutBack | tools/libsparse/sparse.c:306-309 | and are put back into the input |
| SparseFiles.ResparseFile | tools/libsparse/sparse.c:278-312 | the count and the first files are those of the specification, and the input is left with the rest; the call ends |
| SparseFiles.DryRunThenReal | tools/libsparse/simg2simg.c:73-89 | the real call returns the count of the dry one, and fills all the files |
| SparseFormat.HeaderFields | tools/libsparse/output_file.c:340-440 | the fields of a chunk header are read as written, the total modulo 2^32 |
| SparseFormat.FileHeaderFields | tools/libsparse/sparse_format.h:21-33 | the file header in numbers: magic, version 1.0, header sizes 28 and 12, and the counts |
| SparseFormat.ChunkFields | tools/libsparse/sparse_format.h:42-54 | each kind of chunk, in numbers: type, blocks, total length, data |
| SparseFormat.ChunkAccepted | tools/libsparse/sparse_read.c:222-272 | a chunk is accepted if and only if its lengths agree with its type, in 32 bits, and its number is not taken; where the next one is and how far the image has come |
| SparseFormat.ChunksAnnounced | tools/libsparse/sparse_read.c:325-347 | the block reached is the sum of the counts in the chunk headers, in 32 bits |
| SparseFormat.ImportAccepts | tools/libsparse/sparse_read.c:274-473 | an accepted file has the magic number, version 1, long enough headers, and as many blocks in its chunks as it announces |
| SparseFormat.StoredFrom | tools/libsparse/backed_block.c:385-396 | memory is read from its address on, a file from its offset on; so also after a split |
| SparseFormat.BlockRead | tools/libsparse/sparse_read.c:100-177 | the chunk written for a block is read, and queued at its block number |
| SparseFormat.SameContents | tools/libsparse/sparse_read.c:100-177 | the block that is read has the same bytes, padding included |
| SparseFormat.QueueRead | tools/libsparse/sparse_read.c:100-177 | reading in order, only equal fills next to each other merge, and never beyond 32 bits |
| SparseFormat.StepRead | tools/libsparse/sparse_read.c:222-272 | each chunk extends the list read so far to the same image |
| SparseFormat.ReadRest | tools/libsparse/sparse_read.c:325-351 | so do all of them, and the blocks add up to the header's total, if and only if no gap from there on is too long |
| SparseFormat.ImportBack | tools/libsparse/sparse_read.c:274-473 | the bytes of the format for an image are accepted if and only if no gap has 2^31 blocks or more, and then denote that image |
| SparseFormat.ChecksumBack | tools/libsparse/output_file.c:443-602 | a file with a checksum announces one chunk more; all before it read as the image, and it is the last 16 bytes |
| SparseFormat.LongSkipUnread | tools/libsparse/sparse_read.c:325-346 | one skip of 2^31 blocks or more stops the reader |
| SparseFormat.LongGapUnread | tools/libsparse/sparse_read.c:274-354 | so the file of an image with such a gap is not accepted |
| SparseFormat.EmittedWhole | tools/libsparse/output_file.c:366-440 | what is written for a block is its chunk if and only if the stored length with the page skew is below 2^31, or for a fill the rounded length below 2^32 |
| SparseFormat.FileWhole | tools/libsparse/output_file.c:366-440 | the written file is the one the format asks for if and only if that holds of every block |
| SparseFormat.ChecksumWhole | tools/libsparse/output_file.c:366-466 | likewise for a file with a checksum |
| SparseFormat.LongChunkLost | tools/libsparse/output_file.c:401-440 | a block of 2^31 bytes: 40 bytes are written, the import accepts them, and the image is not the same |
| SparseFormat.FileSize | tools/libsparse/sparse.c:200-222 | the counted length is the number of bytes of the file, with and without checksum |
| SparseFormat.OutputsBytes | tools/libsparse/sparse.c:224-312 | the bytes written for each file of a cut list are at most the length asked for and 12 per interior gap, and 7/8 of the room unless it is the last |
| Checksums.SparseCrc32 | tools/libsparse/sparse_crc32.c:101-109 | the loop over the bytes, for any table |
| Checksums.GoesOn | tools/libsparse/sparse_crc32.c:101-109 | the checksum of a second part, from that of a first, is that of both |
| Checksums.OneByte | tools/libsparse/sparse_crc32.c:101-109 | the first step, with both complements |
| Checksums.CountedPayload | tools/libsparse/output_file.c:389-436 | what is summed of a stored block is its chunk without the header; of a fill it is one block of its value |
| Checksums.CountedIsImage | tools/libsparse/sparse_format.h:30-32 | the bytes summed are those of the image, with zeros for what is skipped, if and only if nothing is skipped and no fill is longer than a block; otherwise they are fewer |
| Checksums.Skipped | tools/libsparse/sparse_format.h:30-32 | the image has zeros where the list says nothing |
| SparseIO.OutputFile.constructor | tools/libsparse/output_file.c:541-602 | the header is written first, with a chunk more for a checksum |
| SparseIO.OutputFile.WriteSkipChunk | tools/libsparse/output_file.c:340-364 | a skip of whole blocks is written, any other refused with nothing written |
| SparseIO.OutputFile.WriteBlock | tools/libsparse/output_file.c:366-440 | what reaches the file of a block's chunk, whether it succeeds, the position moved by the int length, and the checksum gone on over the stored bytes and their padding, or one block of a fill |
| SparseIO.OutputFile.WriteEndChunk | tools/libsparse/output_file.c:442-466 | the checksum chunk, if there is to be one |
| SparseIO.CountAllChunks | tools/libsparse/sparse.c:81-102 | the number of chunks that will be written |
| SparseIO.WriteAllBlocks | tools/libsparse/sparse.c:126-150 | what is written of chunks and skips for the whole length, errors ignored; as many chunks as were counted if all succeed |
| SparseIO.PadIs | tools/libsparse/sparse.c:143-147 | the last skip is never negative |
| SparseIO.WriteSparse | tools/libsparse/sparse.c:152-170 | the whole file, with or without checksum, which is that of the counted bytes of all chunks |
| SparseIO.SparseFileLen | tools/libsparse/sparse.c:200-222 | the counted length |
| SparseIO.AddBlock | tools/libsparse/sparse_read.c:100-177 | a block read at a number already taken is an error, any other is queued |
| SparseIO.ProcessChunk | tools/libsparse/sparse_read.c:222-272 | reads a chunk, or fails, exactly as specified, the linked list being updated |
| SparseIO.ImportSparse | tools/libsparse/sparse_read.c:274-473 | accepts exactly the files the specification accepts, with its image |
| SparseIO.QueuedAscending | tools/libsparse/backed_block.c:247-285 | block numbers stay strictly increasing even where blocks of the file overlap |
| SparseIO.WriteThenImport | tools/libsparse/sparse_read.c:419-473 | with lengths that fit in an int, and only then, the file is the format's; it is accepted if and only if no gap is too long, and then is the same image |
| Bitmap.MarkOne | tools/ext4_utils/allocate.c:190-197 | setting a bit marks that block and no other |
| Bitmap.MarkEight | tools/ext4_utils/allocate.c:199-204 | setting a byte marks its eight blocks and no other |
| Bitmap.EightClear | tools/ext4_utils/allocate.c:199-204 | the byte test sees exactly whether one of the eight is in use |
| Bitmap.ClearOne | tools/ext4_utils/allocate.c:244-252 | clearing a bit frees that block and no other |
| Bitmap.LowestFirst | tools/ext4_utils/allocate.c:190-197 | a block is bit n mod 8 of byte n div 8, counted from the lowest |
| Allocator.BlockGroup.constructor | tools/ext4_utils/allocate.c:283-319 | the header and the blocks behind the image's end are in use, the rest is free and counted, and none holds data |
| Allocator.BlockGroup.Reserve | tools/ext4_utils/allocate.c:208-242 | succeeds if and only if all blocks of the range are free, and then marks exactly them |
| Allocator.BlockGroup.SetBitIn | tools/ext4_utils/allocate.c:190-197 | a bit of the range, and whether it was in use |
| Allocator.BlockGroup.Set8BitsIn | tools/ext4_utils/allocate.c:199-204 | a byte of the range, likewise |
| Allocator.BlockGroup.FreeBlocks | tools/ext4_utils/allocate.c:244-252 | the last blocks handed out are free again and the group's invariant holds |
| Allocator.BlockGroup.Allocate | tools/ext4_utils/allocate.c:344-359 | succeeds if and only if that many are free; the "already reserved" error never occurs; what is used for data is counted |
| Allocator.Allocator.constructor | tools/ext4_utils/allocate.c:321-331 | all groups at the start: each has free what it has in the image behind its header |
| Allocator.Allocator.AllocateBlock | tools/ext4_utils/allocate.c:362-373 | a block of the first group that has one, if any has |
| Allocator.Allocator.Scan | tools/ext4_utils/allocate.c:375-397 | the smallest group that fits if one fits, otherwise the largest |
| Allocator.Allocator.BestFitPartial | tools/ext4_utils/allocate.c:375-411 | a region in that group, as long as asked for or all of it |
| Allocator.Allocator.BestFit | tools/ext4_utils/allocate.c:413-437 | repeats until the length is reached, or nothing is free |
| Allocator.Allocator.AllocateBlocks | tools/ext4_utils/allocate.c:446-459 | succeeds if and only if 0 < len and so much is free, and then so much less is; distinct groups, total len, and no set of groups that holds len is smaller; one group gives all if one can, the fullest that can |
| Allocator.Allocator.ReduceAllocation | tools/ext4_utils/allocate.c:257-281 | gives back the end of a group's latest region |
| Allocator.Allocator.RegionInside | tools/ext4_utils/allocate.c:344-359 | every region lies between its group's header and limit |
| Allocator.PicksMinimal | tools/ext4_utils/allocate.c:375-437 | the greedy choice uses as few groups as any set that holds the length (exchange argument) |
| Allocator.PicksDistinct | tools/ext4_utils/allocate.c:375-437 | it takes each group once |
| Allocator.FirstPick | tools/ext4_utils/allocate.c:375-397 | if a group has the blocks, the one with the fewest of those gives them all; if none has, the one with the most comes first; the lowest number of several |
| Allocator.RegionsApart | tools/ext4_utils/allocate.c:344-359 | regions of a group do not overlap |
| Allocator.StackedReplace | tools/ext4_utils/allocate.c:257-281 | nor after one is shortened |
| Geometry.IsPowerOf | tools/ext4_utils/ext4_utils.c:53-62 | true if and only if a is a positive power of b |
| Geometry.BgHasSuperBlock | tools/ext4_utils/ext4_utils.c:83-96 | groups 0, 1 and the powers of 3, 5 and 7, or all without the sparse feature |
| Geometry.SuperGroups | tools/ext4_utils/ext4_utils.c:83-96 | below 50 those are 0, 1, 3, 5, 7, 9, 25, 27 and 49 |
| Geometry.HeaderBlocks | tools/ext4_utils/allocate.c:283-291 | the header's length |
| Geometry.HeaderLayout | tools/ext4_utils/allocate.c:170-303 | superblock, descriptors and reserved blocks where there are any, bitmaps, inode table: one after the other they are the header |
| Geometry.CreateFsAuxInfo | tools/ext4_utils/ext4_utils.c:137-163 | every group kept has room for its header if and only if blocks are above 1K or the last group's measure differs from its header; a last group with room is dropped if and only if blocks are at most 1K and it is full; the counts before that are as measured |
| Geometry.RoughMeasures | tools/ext4_utils/ext4_utils.c:139-151 | blocks, groups, descriptor blocks and inode table blocks are the least that hold what they count; the first data block is that of byte 1024 |
| Geometry.HeaderOutside | tools/ext4_utils/ext4_utils.c:137-163 | an image for which it does not |
| Geometry.FullGroupDropped | tools/ext4_utils/ext4_utils.c:137-163 | an image of one full group, of which nothing is left |
| Geometry.InitAllocator | tools/ext4_utils/allocate.c:321-331 | for all others the allocator starts in a valid state, with no more blocks than the image has |
| Directory.DentrySize | tools/ext4_utils/contents.c:47-61 | the end of the last record, "." and ".." included |
| Directory.RecLenBounds | tools/ext4_utils/contents.c:67-68 | a record has eight bytes and its name, rounded up to a multiple of four |
| Directory.Increasing | tools/ext4_utils/contents.c:63-91 | records follow each other and none crosses a block |
| Directory.GapBound | tools/ext4_utils/contents.c:63-91 | padding the previous record keeps its length within a block |
| Directory.LastPatched | tools/ext4_utils/contents.c:73-80 | changing the last record's length changes nothing else |
| Directory.RecordAdded | tools/ext4_utils/contents.c:63-91 | a record is added and the earlier ones, padded, now lead to it |
| Directory.AddDentry | tools/ext4_utils/contents.c:63-91 | in place, with the new end and the place of the record |
| Directory.AddDentries | tools/ext4_utils/contents.c:158-169 | all entries, and where each one's inode number is to be stored |
| Directory.LastBlock | tools/ext4_utils/contents.c:171-172 | the last record reaches to the end of its block |
| Directory.FinishDirectory | tools/ext4_utils/contents.c:171-172 | after which lengths sum to the directory's size |
| Directory.MakeDirectory | tools/ext4_utils/contents.c:99-175 | a well-formed directory of whole blocks that starts with ".", its own number, and "..", its parent's, and has the entries in order; besides the records' fields and names it holds zeros; the "internal error" does not occur |
| Directory.DotsFirst | tools/ext4_utils/contents.c:146-156 | the bytes of the first two records |
| Directory.RecordToWalk | tools/ext4_utils/ext4fixup.c:575-664 | each record's fields are the entry's, and its length leads to the next one or the end |
| Directory.WalkStep | tools/ext4_utils/ext4fixup.c:576-664 | the walk's checks pass, and it gives the entry and the next place |
| Directory.WalkDirectory | tools/ext4_utils/ext4fixup.c:575-664 | the entries in order, up to the first with inode number 0 |
| Directory.InodeStored | tools/ext4_utils/contents.c:93-164 | storing an inode number later leaves a directory with that entry's number |
| Directory.MakeFillWalk | tools/ext4_utils/contents.c:99-175 | written, filled in and walked, a directory gives back "." with its own number, ".." with its parent's and its entries |
| Extents.BlocksDistinct | tools/ext4_utils/extent.c:74-175 | runs that do not overlap have distinct blocks |
| Extents.InsideApart | tools/ext4_utils/extent.c:74-175 | regions of distinct groups do not overlap as block numbers |
| Extents.FirstTaken | tools/ext4_utils/extent.c:89-95 | nor after a block is taken off the first |
| Extents.LeafApart | tools/ext4_utils/extent.c:89-121 | the leaf is none of the file's blocks |
| Extents.WriteExtents | tools/ext4_utils/extent.c:149-159 | extents with running file blocks, as the reader wants them |
| Extents.WriteLeaf | tools/ext4_utils/extent.c:130-159 | which counts are refused, and which are not though they exceed the leaf |
| Extents.WriteIndex | tools/ext4_utils/extent.c:108-121 | a root with one index to the leaf |
| Extents.FinishInline | tools/ext4_utils/extent.c:90-106 | at most three runs go into the inode, and the spare block is free again |
| Extents.FinishLeaf | tools/ext4_utils/extent.c:92-147 | more go into a leaf, which is not among them |
| Extents.Finish | tools/ext4_utils/extent.c:89-159 | through a leaf if and only if there are more than three regions |
| Extents.TreeFields | tools/ext4_utils/extent.c:99-159 | the nodes in numbers: magic, entries, maximum, depth, and each extent's file block, length and block |
| Extents.AllocateExtents | tools/ext4_utils/extent.c:74-175 | fails for space if and only if there is not a block more than needed, for size only if the groups outnumber the leaf's records, and loses a non-empty file only if no group has two free blocks; otherwise the inode maps the runs, as few as any groups allow, has a leaf if and only if there are more than three, counts exactly the blocks the allocator has less, and has zeros behind its records |
| Extents.GetExtentEnts | tools/ext4_utils/ext4fixup.c:412-436 | the blocks of each extent go into the list from its file block on |
| Extents.GetExtentIdx | tools/ext4_utils/ext4fixup.c:438-469 | so do those of all extents below an index, at any depth |
| Extents.FilledAt | tools/ext4_utils/ext4fixup.c:425-433 | of extents with no block of the file in common each has its blocks in the list in the end |
| Extents.GetBlockListExtents | tools/ext4_utils/ext4fixup.c:471-490 | fails exactly for another magic number; otherwise the list is filled from the whole tree |
| Extents.MapsHolds | tools/ext4_utils/extent.c:98-159 | what the writer leaves, inline or through a leaf, is a tree of the runs in order |
| Extents.FilledRuns | tools/ext4_utils/extent.c:149-159 | which fills the list with the blocks of the runs, in file order |
| Extents.PieceHolds | tools/ext4_utils/extent.c:55-72 | the chunk queued for a run gives its k-th block the file's bytes from there on |
| Extents.CreateBackingFile | tools/ext4_utils/extent.c:55-72 | every block of the file is queued with its own data, and nothing else is |
| Extents.AllocateAndReadBack | tools/ext4_utils/extent.c:55-175 | the blocks read back are as many as the file has, distinct, none the leaf, and the j-th was given the data at j·block_size; they and the leaf are what the allocator has less and the inode counts |
| Avc.Cache.SearchNode | tools/libselinux/src/avc.c:326-357 | the first node of the key in its chain, if the table has one |
| Avc.Cache.SweepChain | tools/libselinux/src/avc.c:259-270 | the first unused node of a chain; used ones lose their mark, others keep it |
| Avc.Cache.FindVictim | tools/libselinux/src/avc.c:256-278 | the first unused node from the hint on, those before it losing their marks; the first node at all, and no mark left, if every one is in use |
| Avc.Cache.ReclaimNode | tools/libselinux/src/avc.c:250-286 | fails if and only if the table is empty; otherwise that node leaves its chain and the hint moves to it |
| Avc.Cache.ClaimNode | tools/libselinux/src/avc.c:293-324 | a node from the free list if it has one, otherwise from the table, at the head of its chain; no other entry changes |
| Avc.Cache.Lookup | tools/libselinux/src/avc.c:374-395 | an entry is found if and only if the first of the key in the table covers the request |
| Avc.Cache.Insert | tools/libselinux/src/avc.c:416-442 | a decision no older than the last flush is entered, never turned away as too old, and no entry lost but one |
| Avc.Cache.FindEntry | tools/libselinux/src/avc.c:699-734 | the entry of the handle if it serves, else the first of the key in the table if it covers the request, both as they are; else one newly computed; fails if and only if there is neither and the computation fails or there are no nodes |
| Avc.Cache.ComputeEntry | tools/libselinux/src/avc.c:722-732 | the decision of the policy at the time, in a free node if there is one |
| Avc.CoversAll | tools/libselinux/src/avc.c:381 | an entry covers a request if and only if nothing requested is undecided |
| Avc.BucketBits | tools/libselinux/src/avc.c:62-67 | which bits of a key tell chains apart |
| Avc.AvdAnswer | tools/libselinux/src/avc.c:736-749 | an entry answers as the decision it was made from together with what has been asked of it |
| Avc.Cache.Decide | tools/libselinux/src/avc.c:736-749 | the answer of a direct computation, unless a flush is pending in enforcing mode and what is missing has been asked of the entry before |
| Avc.Cache.HasPermNoaudit | tools/libselinux/src/avc.c:683-754 | under a policy no older than the last flush, the answer differs from a direct one if and only if enforcing mode awaits its flush, the domain is not permissive, and the missing permissions were asked of that entry in permissive mode; then it is granted. Fails only if neither handle nor table has an entry that covers the request; says what becomes of the entry used and that no other changes |
| Avc.Cache.FlushSlot | tools/libselinux/src/avc.c:462-473 | a chain's nodes go to the free list, cleared |
| Avc.Cache.Reset | tools/libselinux/src/avc.c:450-491 | nothing is left in the table, and the sweep starts again at the first chain |
| Avc.Cache.NetlinkStep | tools/libselinux/src/avc.c:1036-1048 | flush, then the sequence number, raised and never lowered: a check may come between the two |
| Avc.Cache.ReceiveSetenforce | tools/libselinux/src/avc_internal.c:178-196 | the mode changes at once and the flush follows; ignored when the application has fixed the mode |
| Avc.Cache.ReceivePolicyload | tools/libselinux/src/avc_internal.c:198-214 | the flush and the new sequence number follow |
| Avc.Cache.constructor | tools/libselinux/src/avc.c:119-200 | an empty table and a full free list |
| Avc.NothingWide | tools/libselinux/src/avc.c:741-744 | in enforcing mode, with no notice pending, every entry is exactly a decision of the policy |
| Avc.Run | tools/libselinux/src/avc.c:683-754 | over every run every check is logged, none fails that a cached entry covers, no answer is older than a processed notice, and each differs from a direct computation if and only if that window is open and the entry was asked before; mode, pending notice, policy and sequence number end as the events say |
| Avc.LogCheck | tools/libselinux/src/avc.c:683-754 | one check of a run |
| Avc.Happen | tools/libselinux/src/avc.c:1036-1048 | one event of a run that is no check |
| Avc.CheckTwice | tools/libselinux/src/avc.c:699-733 | a second check is answered from the table although the kernel would fail and policies have been loaded |
| Avc.GrantedInWindow | tools/libselinux/src/avc_internal.c:178-196 | a permissive check, the notice, and the same check again: granted, while a direct computation denies it |

## Left out

* Input and output: files, gzip, mmap, sockets, selinuxfs; the JavaScript front end. A disk is a map, a
  file a byte sequence, the kernel's decision a function of the policy's number. Failing reads, writes
  and allocations of memory are not modelled, except power failures in `Fixup`.
* Code that is not part of this model: mkbootimg.c, mkbootfs.c, canned_fs_config.c, context.c, mapping.c,
  label_file.c, indirect.c, extended attributes, and everything not named in the table.
* RSA and P-256: hashes, padding checks, encodings of points and signatures; the constant-time claim.
* The curve: the group law, the numbers of kPrecomputed and the coordinate formulas. `ScalarMult.PointOps`
  assumes of doubling and addition what their comments say, and `ScalarMult.CombTables` what the comment
  on the tables says. felem_sum, felem_diff, felem_scalar_3, _4 and _8, to_montgomery and from_montgomery
  are not modelled.
* A bitwise OR of fields that do not overlap is their sum. Arrays the code only reads are sequences,
  except where an output may be the same array. A long C function is several methods.
* Felem.InverseByFermat: takes Fermat's theorem for the operand and for 2^257 as hypotheses.
* Fixup: directories hold entries, each with the number of its block; their bytes are in `Directory`. The
  sanity pass and the repair of record lengths before it, the dry mode, and file systems with blocks of
  1K are left out. Images whose inode count is not groups times group size are refused before any write.
  Inode counts are unbounded.
* Fixup.NewInum: numbers are unbounded; images whose numbers need 32 bits are outside `WellFormed`, the
  high bit being the mark.
* Sparse files whose length is not a whole number of blocks: the assert at sparse.c:144 and the check at
  output_file.c:345 reject them. Files in the normal format, reading checksums (chunks of that kind are
  refused, since the reader is modelled without a checksum to add to), and verbose errors. The 256 words
  of the checksum's table are a parameter. A write of a length that is not negative, an open and a mapping
  of a positive length are taken to succeed.
* SparseFormat.ImportBack: for counts and lengths that the format's fields and the reader's variables can
  hold (`FieldsHold`); the gaps are not restricted.
* Resparse.DryRunPredicts: for lengths that fit in an int (`AllIntSized`), as Resparse.OutputsSize and its
  like; what others lead to is in Resparse.LongBlockFits and SparseFormat.LongChunkLost. Block sizes of
  2^31 or more, for which no buffer can be allocated, are left out.
* SparseIO.ImportSparse: refuses block size 0, which the source accepts as long as nothing divides by it.
* SparseIO.AddBlock: forgets a hint to a node that a merge has freed; the source would go on to read it.
* BackedBlocks.QueuedMap: for merges whose length fits in 32 bits; see BackedBlocks.MergeExact.
* BlockLists.BlockList.Queue: the C list keeps its hint after a merge that frees the node it points to;
  here the hint is only used while it is valid, and the method reports when it is not.
* Offsets, and counters that no bound of the code reaches, are unbounded integers.
* Allocator: region lists are sequences; the iterators, the lists of blocks out of band, and allocation
  of inodes are left out.
* Allocator.Allocator.ReduceAllocation: takes no more than one region has. The source works on list.last,
  which allocate_blocks sets to the first region, and has no other to go on with.
* Regions shortened to nothing stay in the record of what is handed out.
* Directory: block sizes from 264 to 65535 bytes, so that record lengths fit in their 16 bits; names of 1 to 255 bytes.
* Extents.AllocateExtents: a file is below 2^32 blocks. A count the code writes past the leaf's end, and a
  list of regions it leaves empty, are a status each.
* Avc: chains and the free list are sequences of node objects rather than next pointers. Each locked
  section is one step. Callbacks, audit, statistics, avc_ss_grant and avc_ss_revoke, avc_compute_create,
  the table of security identifiers and the parsing of messages are left out.
