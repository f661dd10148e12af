# DotaCrypto decryptor in Dafny

A model of `Decryptor`, the 64-bit block decryptor of DotaCrypto. It has four parts:

- **Key schedule** (`keyschedule.dfy`, module `KeySchedule`). `GenerateKeystream` turns a 32-bit key into 48 keystream words.
  - The key is XORed with two masks.
  - The two results are packed into four 16-bit registers.
  - 16 rounds follow. Each round rotates the registers (`Shuffle`) and then takes 15 steps.
  - Each step shifts one nibble into one of the round's three words and advances every register by `InvertLsbAndAppendAsMsb`.
- **Round function** (`roundfunction.dfy`, module `RoundFunction`). `GenerateXorKey` scrambles a 32-bit half, mixes it with three keystream words and ORs four entries of the 4096-word decryption table.
- **Block transform** (`blockcipher.dfy`, module `BlockCipher`). `PerformDecryption` runs eight Feistel-style rounds over the two big-endian halves of an 8-byte block. It uses the keystream six words a round from the end backwards, and writes the halves back swapped.
- **Buffer drivers** (`drivers.dfy`, module `Drivers`):
  - `Decrypt` over a whole buffer;
  - `DecryptParallelized`, run one index at a time in an arbitrary order;
  - the chunk loop of `DecryptStream`.

Supporting modules:

- `Bytes` (`bytes.dfy`): big-endian words and little-endian registers.
- `Rounds` (`rounds.dfy`): iterating a round function and its inverse.
- `Spans` (`spans.dfy`): sequences handled block by block.

The methods are imperative where Decryptor.cs is: arrays updated in place, loops with invariants. Each method is proved against a specification function. The properties of the cipher are lemmas about those functions:

- every keystream word fits in 20 bits, so every unchecked table read stays inside the table;
- each round can be undone, so block decryption is injective for a fixed key;
- decryption works block by block, so pieces decrypted separately add up to the whole;
- `DecryptParallelized` gives `Decrypt`'s result in every order of its indices;
- `DecryptStream` over reads of whole blocks writes exactly the decryption of what it read.

The definition of `Utilities.DecryptionTable` is not part of this model. The table is a parameter, so every result holds for any 4096-word table.

In `GenerateKeystream` the word index is `offset + i % 3` over 15 steps, so each word takes exactly five nibbles and stays below 2^20 (`KeySchedule.DrawsLength`, `KeySchedule.KeystreamWordBound`).

## Model

| member | source | states |
|---|---|---|
| Bytes.ReadAfterWrite | DotaCrypto/Decryptor.cs:256-257 | reading back the four big-endian bytes written for a word gives the word |
| Bytes.WriteAfterRead | DotaCrypto/Decryptor.cs:271-272 | writing big-endian the word read from four bytes gives the same four bytes |
| Bytes.LittleEndianUInt16 | DotaCrypto/Decryptor.cs:306 | a register formed from two buffer bytes has the first as its low byte and the second as its high byte |
| KeySchedule.InvertLsbAndAppendAsMsb | DotaCrypto/Decryptor.cs:380 | bits 15..1 of the input become bits 14..0 of the result, and bit 15 of the result is set exactly when bit 0 of the input was clear |
| KeySchedule.InvertLsbAndAppendAsMsbShape | DotaCrypto/Decryptor.cs:380 | the widening to 32-bit int and the cast back to ushort lose nothing: the step is the input shifted right by one ORed with its complement shifted into bit 15, a complemented rotation right by one |
| KeySchedule.StepsAdd | DotaCrypto/Decryptor.cs:324-328 | a steps then b steps of a register are a + b steps |
| KeySchedule.JohnsonHalfPeriod | DotaCrypto/Decryptor.cs:380 | 16 steps complement a register |
| KeySchedule.JohnsonPeriod | DotaCrypto/Decryptor.cs:380 | every register returns to its value after 32 steps |
| KeySchedule.Shuffle | DotaCrypto/Decryptor.cs:344-374 | the portable branch rotates the four registers in place by startIndex mod 4 |
| KeySchedule.RotatedAt | DotaCrypto/Decryptor.cs:350-373 | after a rotation by s, register k holds what register (k + s) mod 4 held |
| KeySchedule.RotatedPermutes | DotaCrypto/Decryptor.cs:350-373 | a rotation is a permutation of the registers |
| KeySchedule.RotatedAdd | DotaCrypto/Decryptor.cs:350-373 | rotating by a and then by b is rotating by a + b |
| KeySchedule.InitialRegistersOfKey | DotaCrypto/Decryptor.cs:300-306 | the registers before round 0 are the halves of key ^ 0x0633a998 (registers 0 and 1) and key ^ 0x4e6c32b9 (registers 2 and 3), high half first, each with its two bytes swapped by the big-endian write and the little-endian read |
| KeySchedule.RoundRotation | DotaCrypto/Decryptor.cs:311-317 | round 0 is not rotated; rounds 1, 2, 3, 7 and 8 by one place, 4, 5, 10, 12 and 14 by three, 6, 9, 11, 13 and 15 by two, each of these exactly |
| KeySchedule.RotateRound | DotaCrypto/Decryptor.cs:311-317 | a round's rotation by 1, 3, 2 or 0 positions, by round, takes the registers of the previous round's end to the round's start |
| KeySchedule.RegistersAtSteps | DotaCrypto/Decryptor.cs:320-328 | register j at step i of a round is its value at the start of the round stepped i times |
| KeySchedule.ShiftInNibbleBits | DotaCrypto/Decryptor.cs:323-328 | one step shifts the word left by four bits and ORs the low bit of register j into bit 3 - j |
| KeySchedule.AppendNibble | DotaCrypto/Decryptor.cs:322-328 | one step shifts a nibble into the word at the given index, advances every register and changes no other word |
| KeySchedule.DrawsLength | DotaCrypto/Decryptor.cs:320-322 | after i steps of a round, word round * 3 + m has taken (i + 2 - m) / 3 nibbles, so five after 15 steps |
| KeySchedule.FiveNibbles | DotaCrypto/Decryptor.cs:323 | five nibbles shifted into a zero word leave it below 2^20 |
| KeySchedule.DrawRound | DotaCrypto/Decryptor.cs:319-329 | the 15 steps of a round set its three words to their keystream values, leave every other word as it was and end with the registers at step 15 |
| KeySchedule.RunRound | DotaCrypto/Decryptor.cs:309-330 | one round of the schedule extends the finished words by the round's three |
| KeySchedule.KeystreamWordBound | DotaCrypto/Decryptor.cs:297-333 | every keystream word is below 2^20 |
| KeySchedule.KeystreamOfIsKeystream | DotaCrypto/Decryptor.cs:297-333 | the schedule yields 48 words of at most 20 bits |
| KeySchedule.GenerateKeystream | DotaCrypto/Decryptor.cs:297-333 | the in-place schedule computes exactly the keystream that the key determines |
| RoundFunction.Scramble1 | DotaCrypto/Decryptor.cs:279 | scramble1 is below 2^20; it holds bits 16..25 of the half in bits 0..9, bits 24..31 in bits 10..17 and bits 0..1 in bits 18..19 |
| RoundFunction.Scramble2 | DotaCrypto/Decryptor.cs:280 | scramble2 is below 2^20; it holds bits 0..9 of the half in bits 0..9 and bits 8..17 in bits 10..19 |
| RoundFunction.TemporariesBound | DotaCrypto/Decryptor.cs:281-284 | scrambledKey is below 2^20 whatever the third word; temp1 is when the second word is, and temp2 when the first word is |
| RoundFunction.TableLookups | DotaCrypto/Decryptor.cs:278-292 | with the first two keystream words below 2^20 the four reads lie in [0xC00, 0xFFF], [0x400, 0x7FF], [0x800, 0xBFF] and [0, 0x3FF], all inside the table |
| RoundFunction.GenerateXorKey | DotaCrypto/Decryptor.cs:275-295 | defined for keystream words 0 and 1 below 2^20; under that requirement each of its four unchecked reads has an index of at most 0xFFF (Entry's requirement, discharged by TableLookups), so every read stays inside the 4096-entry table |
| RoundFunction.WideSubkeyLeavesTable | DotaCrypto/Decryptor.cs:291 | with a 23-bit second word the third read lands at 0x1800, past the table, so the bound on the words is needed |
| Rounds.BackwardForward | DotaCrypto/Decryptor.cs:259-269 | undoing n rounds in reverse order after running them gives back the start, when each round is undone by its inverse |
| Rounds.ForwardBackward | DotaCrypto/Decryptor.cs:259-269 | running n rounds after undoing them in reverse order gives back the start |
| BlockCipher.NewDecryptor | DotaCrypto/Decryptor.cs:22 | a decryptor holds the keystream of its key |
| BlockCipher.RoundKeystreamIndex | DotaCrypto/Decryptor.cs:261-262 | round r takes six whole keystream words starting at (7 - r) * 6: words 42..47 for round 0, down to 0..5 for round 7 |
| BlockCipher.PerformRound | DotaCrypto/Decryptor.cs:264-268 | block1 takes the XOR key of block2 and words 3..5 of the round, then block2 takes that of the new block1 and words 0..2 |
| BlockCipher.UndoDecryptRound | DotaCrypto/Decryptor.cs:264-268 | applying the two XORs of a round in reverse order undoes the round |
| BlockCipher.DecryptUndoRound | DotaCrypto/Decryptor.cs:264-268 | a round undoes its reverse, so every round is a bijection on pairs of halves |
| BlockCipher.UndoStepInverts | DotaCrypto/Decryptor.cs:259-269 | the reverse step inverts each of the eight round steps, in both orders |
| BlockCipher.PerformDecryption | DotaCrypto/Decryptor.cs:251-273 | the eight output bytes are the rounds applied to the big-endian halves of the input, written back as block2 then block1. Both halves are read before anything is written, so in-place use gives the same bytes. No byte outside the eight output bytes changes |
| BlockCipher.DecryptBlock | DotaCrypto/Decryptor.cs:251-273 | a block decrypts to a block |
| BlockCipher.EncryptDecryptBlock | DotaCrypto/Decryptor.cs:251-273 | reading the swapped halves and undoing the rounds recovers the input block |
| BlockCipher.DecryptEncryptBlock | DotaCrypto/Decryptor.cs:251-273 | every block is the decryption of some block |
| BlockCipher.DecryptBlockInjective | DotaCrypto/Decryptor.cs:251-273 | two blocks decrypt to the same bytes exactly when they are equal |
| Drivers.BlockFunctionsInvert | DotaCrypto/Decryptor.cs:251-273 | the block transform and its inverse undo each other on every block |
| Drivers.DecryptBlocks | DotaCrypto/Decryptor.cs:68-71 | block-by-block decryption keeps the length |
| Drivers.DecryptBlocksAt | DotaCrypto/Decryptor.cs:68-71 | block k of a decrypted buffer is the decryption of block k of the input |
| Drivers.DecryptBlocksAppend | DotaCrypto/Decryptor.cs:68-71 | decrypting two pieces separately and joining them gives the decryption of the join, when the first piece is whole blocks |
| Drivers.DecryptEncryptBlocks | DotaCrypto/Decryptor.cs:68-71 | decrypting buffers is inverted by encrypting them, in both orders |
| Drivers.DecryptBlocksInjective | DotaCrypto/Decryptor.cs:68-71 | two buffers of one length decrypt to the same bytes exactly when they are equal |
| Drivers.BlocksCovering | DotaCrypto/Decryptor.cs:101 | a loop stepping by 8 while below length covers length rounded up to whole blocks: a multiple of 8 in [length, length + 8) |
| Drivers.CoveringUnique | DotaCrypto/Decryptor.cs:101 | that multiple of 8 is the only one in the range |
| Drivers.CheckBuffers | DotaCrypto/Decryptor.cs:53-61 | the argument checks pass exactly when the lengths are equal and a multiple of 8; different lengths are reported first |
| Drivers.DecryptBlocksUpTo | DotaCrypto/Decryptor.cs:101-104 | the block loop decrypts the blocks covering length, in place or between two arrays, and leaves the bytes after them as they were |
| Drivers.DecryptNextBlock | DotaCrypto/Decryptor.cs:70 | one pass of the block loop extends the decrypted prefix by one block and leaves the input after that block as it was |
| Drivers.Decrypt | DotaCrypto/Decryptor.cs:51-72 | a rejected call changes nothing and reports the failed check; an accepted one, empty or in place included, leaves output holding input decrypted block by block |
| Drivers.CheckParallelized | DotaCrypto/Decryptor.cs:28-46 | the checks of Decrypt come first and their failures are reported as Decrypt reports them; a non-empty call then also needs a degree of parallelism of -1 or above 0, and fails otherwise |
| Drivers.DecryptParallelized | DotaCrypto/Decryptor.cs:26-49 | a rejected call changes nothing and reports the failed check; an accepted one, with the indices run in any order, each exactly once, leaves output holding Decrypt's result |
| Drivers.DecryptInSchedule | DotaCrypto/Decryptor.cs:45-48 | running the block indices in any order, each once, decrypts every block into its own place |
| Drivers.DecryptScheduledBlock | DotaCrypto/Decryptor.cs:47-48 | index i writes block i of output only and leaves every other block of input and output as it was |
| Drivers.CheckStreams | DotaCrypto/Decryptor.cs:76-94 | the stream checks pass exactly when both streams are present, input is readable, output is writable and bufferSize is a non-negative multiple of 8; the null checks come first, and a negative multiple of 8 is refused only by Rent |
| Drivers.Chunk | DotaCrypto/Decryptor.cs:98 | a read past the given chunks returns nothing |
| Drivers.FirstEmpty | DotaCrypto/Decryptor.cs:107-108 | the loop ends at the first read that returns no bytes |
| Drivers.PassWrite | DotaCrypto/Decryptor.cs:106 | each pass writes as many bytes as its read returned |
| Drivers.Refill | DotaCrypto/Decryptor.cs:107 | the next read goes over the front of the buffer and keeps its length |
| Drivers.Run | DotaCrypto/Decryptor.cs:98-108 | after read k the buffer begins with read k and k writes have been made |
| Drivers.RunExtends | DotaCrypto/Decryptor.cs:99-108 | later passes only add writes to those made so far |
| Drivers.RunWriteLengths | DotaCrypto/Decryptor.cs:106 | write j has the length of read j |
| Drivers.StreamWrites | DotaCrypto/Decryptor.cs:98-108 | the loop makes at least one write, read 0 gets a pass even when empty, it stops at the first later read that returns nothing, and every write has its read's length |
| Drivers.StreamEnd | DotaCrypto/Decryptor.cs:108 | the writes of the stream are those of the passes up to the first empty read after read 0 |
| Drivers.StreamPass | DotaCrypto/Decryptor.cs:101-107 | one pass decrypts the blocks covering the read in place, writes the read's length from the front and reads the next chunk over the front |
| Drivers.DecryptChunks | DotaCrypto/Decryptor.cs:98-108 | the read-decrypt-write loop makes exactly the writes of the stream and one more read than writes |
| Drivers.EmptyBufferStream | DotaCrypto/Decryptor.cs:89-108 | a bufferSize of 0 passes the check, and with the empty array the pool hands out for it the stream makes one empty write |
| Drivers.DecryptStream | DotaCrypto/Decryptor.cs:74-114 | a rejected call reads, writes and changes nothing; an accepted one makes the writes of the stream, and the buffer is all zeros when it goes back to the pool |
| Drivers.PassWriteWholeBlocks | DotaCrypto/Decryptor.cs:101-106 | a pass over a read of whole blocks writes exactly that read decrypted block by block |
| Drivers.WholeBlockWrites | DotaCrypto/Decryptor.cs:98-108 | with reads of whole blocks, the first n writes joined are the first n reads joined and decrypted |
| Drivers.StreamOfWholeBlocks | DotaCrypto/Decryptor.cs:98-108 | when every read returns a non-zero multiple of 8 bytes, all writes joined are exactly Decrypt of all reads joined |
| Drivers.DecryptedUpToPartial | DotaCrypto/Decryptor.cs:101-104 | a pass over a length that is not whole blocks decrypts one more block than the whole blocks in it, holding bytes past the length |
| Drivers.PassWriteTakesStaleBytes | DotaCrypto/Decryptor.cs:101-106 | for such a read, the last block decrypted is the read's tail followed by whatever the buffer held after it, and the write is cut from that decryption |
| Drivers.FirstWrite | DotaCrypto/Decryptor.cs:98-106 | the first write is the pass over the pooled buffer with the first read over its front |
| Drivers.FirstWriteTakesStaleBytes | DotaCrypto/Decryptor.cs:94-106 | if the first read is not whole blocks, bytes the pooled buffer held from earlier use go into the decryption of its last block |

## Left out

- The decryption table's contents: the table is a parameter (`RoundFunction.Table`). The literal table is not part of this model.
- The AdvSimd branch of `Shuffle` (lines 338-343) is a hardware intrinsic and is not modelled. The portable branch is the reference meaning.
- Byte order of the host: the model assumes a little-endian host.
  - `MemoryMarshal.Cast<byte, ushort>` (line 306) reads register j from bytes 2j (low) and 2j + 1 (high).
  - `AsBytes(ReverseEndianness(x))` (lines 271-272) writes x big-endian.
- RoundFunction.GenerateXorKey: requires its first two keystream words to be below 2^20. The C# code reads the table without bounds checks, and with wider words it would read outside the table (`RoundFunction.WideSubkeyLeavesTable`). Every call from `PerformDecryption` meets the requirement (`KeySchedule.KeystreamWordBound`).
- Drivers.DecryptParallelized: `Parallel.For` scheduling is concurrency. The model runs the indices one at a time in an order given as a parameter, so any order the scheduler picks is covered, but true overlap is not. `maxDegreeOfParallelism` is modelled only through the check of its value (`Drivers.CheckParallelized`); how it limits the workers is not.
- Drivers.DecryptStream: the streams are reduced to what the checks read: present or null, readable, writable.
  - The input stream is the sequence of chunks its `Read` calls return.
  - The output stream is the list of `Write` calls.
  - Exceptions thrown by the streams mid-loop are not modelled.
  - On a throw, `finally` would clear the buffer as on the normal path.
- Drivers.DecryptStream: `ArrayPool.Rent` and `Return` are runtime plumbing. The rented array is a parameter at least `bufferSize` long, a multiple of 8, holding whatever the pool left in it. `Read` may fill all of it, even beyond `bufferSize`. A `bufferSize` of 0 passes the checks: the pool then hands out an empty array, every read returns nothing, and the call makes one empty write and decrypts nothing (`Drivers.EmptyBufferStream`).
- Drivers.DecryptStream: a read whose length is not a multiple of 8 is modelled as the code does it. The block loop decrypts the whole last block, taking in bytes past the read that the buffer held from before, and writes the read's length of that. `Drivers.PassWriteTakesStaleBytes` and `Drivers.FirstWriteTakesStaleBytes` state this. `Drivers.StreamOfWholeBlocks` states equality with `Decrypt` only for reads of whole blocks.
- Arrays that partially overlap: arrays are either the same array (in-place use) or disjoint. Spans overlapping at an offset are not modelled.
- `DecryptStreamParallelized` (lines 158-201), `DecryptStreamAsync` and `DecryptStreamParallelizedAsync` are not modelled.
  - The async variants repeat the synchronous loops with suspension points at reads and writes.
  - The parallel stream decrypts `length / 8` whole blocks per read, where the sequential stream rounds up.
- `CreateCryptoTransform` and `DotaCryptoTransform` are not modelled. They only hand 8-byte slices to `PerformDecryption`.
- The benchmarks are not modelled; they measure speed only.
- Drivers.DecryptBlocks: a trailing partial block is left as it is. The drivers never pass one, since they reject lengths that are not multiples of 8.
