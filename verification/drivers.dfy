/** The buffer drivers of Decryptor: Decrypt over a whole buffer, the
    per-index meaning of DecryptParallelized, and the chunk loop of
    DecryptStream. All of them apply the block transform to 8-byte blocks
    and differ in how they validate their arguments and walk the blocks. */
module Drivers {
  import opened Bytes
  import opened BlockCipher
  import opened Spans

  datatype Option<T> = None | Some(value: T)

  /** The exceptions the drivers throw, all before any data is touched. */
  datatype Failure =
    | ArgumentNull(paramName: string)
    | Argument(message: string)
    | ArgumentOutOfRange(paramName: string)

  datatype Outcome = Success | Failed(failure: Failure)

  const LengthsDiffer := "The input and output arrays' lengths are different."
  const LengthNotWholeBlocks := "Input array length is not divisible by 8 (block size)."
  const InputNotReadable := "Input stream is not readable."
  const OutputNotWritable := "Output stream is not writable."
  const BufferSizeNotWholeBlocks := "Buffer size is not divisible by 8 (block size)."

  // ---------------------------------------------------------------------
  // Whole buffers

  /** The block transform as a function on byte sequences; only ever applied
      to whole blocks, anything else passes through. */
  function BlockFunction(d: Decryptor): seq<Byte> -> seq<Byte>
  {
    (b: seq<Byte>) => if |b| == BlockSize then DecryptBlock(d, b) else b
  }

  /** The inverse of BlockFunction, from EncryptBlock. */
  function InverseBlockFunction(d: Decryptor): seq<Byte> -> seq<Byte>
  {
    (b: seq<Byte>) => if |b| == BlockSize then EncryptBlock(d, b) else b
  }

  /** Both block functions map blocks to blocks. */
  lemma BlockFunctionsKeepBlocks(d: Decryptor)
    ensures KeepsBlocks(BlockFunction(d)) && KeepsBlocks(InverseBlockFunction(d))
  {
  }

  /** BlockFunction is injective on blocks. */
  lemma BlockFunctionInjective(d: Decryptor)
    ensures forall b: seq<Byte>, c: seq<Byte> | |b| == 8 && |c| == 8 && BlockFunction(d)(b) == BlockFunction(d)(c) :: b == c
  {
    forall b: seq<Byte>, c: seq<Byte> | |b| == 8 && |c| == 8
      ensures BlockFunction(d)(b) == BlockFunction(d)(c) ==> b == c
    {
      DecryptBlockInjective(d, b, c);
    }
  }

  /** InverseBlockFunction undoes BlockFunction on blocks, and the other way round. */
  lemma BlockFunctionsInvert(d: Decryptor)
    ensures forall b: seq<Byte> | |b| == 8 :: InverseBlockFunction(d)(BlockFunction(d)(b)) == b
    ensures forall b: seq<Byte> | |b| == 8 :: BlockFunction(d)(InverseBlockFunction(d)(b)) == b
  {
    forall b: seq<Byte> | |b| == 8
      ensures InverseBlockFunction(d)(BlockFunction(d)(b)) == b
      ensures BlockFunction(d)(InverseBlockFunction(d)(b)) == b
    {
      EncryptDecryptBlock(d, b);
      DecryptEncryptBlock(d, b);
    }
  }

  /** A buffer decrypted block by block from the front: block k of the
      result is the block transform of block k of s. A trailing partial
      block, which the drivers never pass, is left as it is. */
  function DecryptBlocks(d: Decryptor, s: seq<Byte>): (r: seq<Byte>)
    ensures |r| == |s|
  {
    BlockFunctionsKeepBlocks(d);
    MapBlocks(BlockFunction(d), s)
  }

  /** The inverse of DecryptBlocks, block by block. */
  function EncryptBlocks(d: Decryptor, s: seq<Byte>): (r: seq<Byte>)
    ensures |r| == |s|
  {
    BlockFunctionsKeepBlocks(d);
    MapBlocks(InverseBlockFunction(d), s)
  }

  /** Block k of the decryption is the block transform of block k. */
  lemma DecryptBlocksAt(d: Decryptor, s: seq<Byte>, k: nat)
    requires 8 * k + 8 <= |s|
    ensures Block(DecryptBlocks(d, s), k) == DecryptBlock(d, Block(s, k))
  {
    BlockFunctionsKeepBlocks(d);
    MapBlocksAt(BlockFunction(d), s, k);
  }

  /** Decrypting two pieces separately and concatenating gives the
      decryption of the concatenation, when the first is whole blocks. */
  lemma DecryptBlocksAppend(d: Decryptor, s: seq<Byte>, t: seq<Byte>)
    requires |s| % BlockSize == 0
    ensures DecryptBlocks(d, s + t) == DecryptBlocks(d, s) + DecryptBlocks(d, t)
  {
    MapBlocksAppend(BlockFunction(d), s, t);
  }

  /** Encrypting and decrypting a buffer round-trip in both orders. */
  lemma DecryptEncryptBlocks(d: Decryptor, s: seq<Byte>)
    ensures DecryptBlocks(d, EncryptBlocks(d, s)) == s
    ensures EncryptBlocks(d, DecryptBlocks(d, s)) == s
  {
    BlockFunctionsKeepBlocks(d);
    BlockFunctionsInvert(d);
    MapBlocksInverse(BlockFunction(d), InverseBlockFunction(d), s);
    MapBlocksInverse(InverseBlockFunction(d), BlockFunction(d), s);
  }

  /** For a fixed key, different ciphertext buffers of one length decrypt to
      different plaintext buffers. */
  lemma DecryptBlocksInjective(d: Decryptor, s: seq<Byte>, t: seq<Byte>)
    requires |s| == |t|
    ensures DecryptBlocks(d, s) == DecryptBlocks(d, t) <==> s == t
  {
    BlockFunctionsKeepBlocks(d);
    BlockFunctionInjective(d);
    MapBlocksInjective(BlockFunction(d), s, t);
  }

  /** The length a loop `for (i = 0; i < length; i += 8)` covers: length
      rounded up to whole blocks. */
  function BlocksCovering(length: nat): (n: nat)
    ensures n % BlockSize == 0 && length <= n < length + BlockSize
  {
    if length % 8 == 0 then length else length + 8 - length % 8
  }

  /** A multiple of 8 that holds length also holds the blocks covering it. */
  lemma CoveringFits(length: nat, size: nat)
    requires length <= size && size % BlockSize == 0
    ensures BlocksCovering(length) <= size
  {
  }

  /** The length of the whole blocks at the front of length bytes: length
      rounded down to a multiple of 8. */
  function WholeBlocksIn(length: nat): (m: nat)
    ensures m % BlockSize == 0 && m <= length < m + BlockSize
  {
    length - length % 8
  }

  /** The blocks covering length are the only multiple of 8 in
      [length, length + 8). */
  lemma CoveringUnique(length: nat, n: nat)
    requires n % BlockSize == 0 && length <= n < length + BlockSize
    ensures n == BlocksCovering(length)
  {
  }

  /** f agrees with the block transform on every block. The quantifier is
      triggered by DecryptBlock terms only, so the loop proofs below, which
      speak of f, do not unfold the transform. */
  ghost predicate IsBlockFunction(d: Decryptor, f: seq<Byte> -> seq<Byte>)
  {
    && KeepsBlocks(f)
    && forall b: seq<Byte> {:trigger DecryptBlock(d, b)} | |b| == BlockSize :: f(b) == DecryptBlock(d, b)
  }

  /** BlockFunction is such a function. */
  lemma BlockFunctionIsBlockFunction(d: Decryptor)
    ensures IsBlockFunction(d, BlockFunction(d))
  {
  }

  /** The block loop of Decrypt and DecryptStream: PerformDecryption on
      input[i..i + 8] into output[i..i + 8] for i = 0, 8, ... while i < length,
      so the first `covered` bytes, length rounded up to whole blocks, are
      decrypted. input and output may be the same array. f stands for the
      block transform. */
  method DecryptBlocksUpTo(d: Decryptor, ghost f: seq<Byte> -> seq<Byte>, input: array<Byte>, output: array<Byte>, length: nat)
    returns (ghost covered: nat)
    requires IsBlockFunction(d, f)
    requires length <= input.Length && input.Length % BlockSize == 0
    requires length <= output.Length && output.Length % BlockSize == 0
    modifies output
    ensures covered == BlocksCovering(length) && covered <= input.Length && covered <= output.Length
    ensures output[..] == MapBlocks(f, old(input[..])[..covered]) + old(output[..])[covered..]
  {
    ghost var source := input[..];
    ghost var target := output[..];
    ghost var inputBlocks, outputBlocks := input.Length / 8, output.Length / 8;
    assert input.Length == 8 * inputBlocks && output.Length == 8 * outputBlocks;
    var i := 0;
    ghost var k := 0;
    while i < length
      invariant i == 8 * k && i < length + 8 && k <= inputBlocks && k <= outputBlocks
      invariant output[..] == MapBlocks(f, source[..i]) + target[i..]
      invariant input[i..] == source[i..]
    {
      DecryptNextBlock(d, f, input, output, i, source, target);
      i, k := i + 8, k + 1;
    }
    covered := i;
    CoveringUnique(length, covered);
  }

  /** One pass of the block loop: with the first i bytes of output holding
      the decryption of the first i bytes of source and input still holding
      source from i on, decrypting block i extends both by one block. */
  method DecryptNextBlock(d: Decryptor, ghost f: seq<Byte> -> seq<Byte>, input: array<Byte>, output: array<Byte>, i: nat,
                          ghost source: seq<Byte>, ghost target: seq<Byte>)
    requires IsBlockFunction(d, f)
    requires i % BlockSize == 0 && i + 8 <= input.Length && i + 8 <= output.Length
    requires |source| == input.Length && |target| == output.Length
    requires input == output ==> source == target
    requires output[..] == MapBlocks(f, source[..i]) + target[i..]
    requires input[i..] == source[i..]
    modifies output
    ensures output[..] == MapBlocks(f, source[..i + 8]) + target[i + 8..]
    ensures input[i + 8..] == source[i + 8..]
  {
    assert input[i..i + 8] == source[i..i + 8] by {
      assert input[i..i + 8] == input[i..][..8] && source[i..i + 8] == source[i..][..8];
    }
    PerformDecryption(d, input, i, output, i);
    MapBlocksStep(f, source, target, i);
    if input == output {
      assert input[i + 8..] == output[..][i + 8..];
    } else {
      assert input[i + 8..] == input[i..][8..];
      assert source[i + 8..] == source[i..][8..];
    }
  }

  /** The argument checks of Decrypt and DecryptParallelized, in the order
      they run. */
  function CheckBuffers(inputLength: nat, outputLength: nat): (outcome: Outcome)
    ensures outcome == Success <==> inputLength == outputLength && inputLength % BlockSize == 0
    ensures inputLength != outputLength ==> outcome == Failed(Argument(LengthsDiffer))
  {
    if inputLength != outputLength then Failed(Argument(LengthsDiffer))
    else if inputLength % BlockSize != 0 then Failed(Argument(LengthNotWholeBlocks))
    else Success
  }

  /** Decrypt: after the checks, every block of input decrypted into the
      same block of output; a rejected call and an empty one write nothing.
      input and output may be the same array (in-place decryption). */
  method Decrypt(d: Decryptor, input: array<Byte>, output: array<Byte>) returns (outcome: Outcome)
    modifies output
    ensures outcome == CheckBuffers(input.Length, output.Length)
    ensures outcome.Failed? ==> output[..] == old(output[..])
    ensures outcome == Success ==> output[..] == DecryptBlocks(d, old(input[..]))
  {
    if input.Length != output.Length {
      return Failed(Argument(LengthsDiffer));
    }
    if input.Length % BlockSize != 0 {
      return Failed(Argument(LengthNotWholeBlocks));
    }
    if input.Length == 0 {
      return Success;
    }
    BlockFunctionIsBlockFunction(d);
    ghost var covered := DecryptBlocksUpTo(d, BlockFunction(d), input, output, input.Length);
    assert old(input[..])[..input.Length] == old(input[..]);
    outcome := Success;
  }

  /** What Parallel.For promises about the indices 0 .. n - 1: each is run
      exactly once, in some order. */
  predicate IsSchedule(schedule: seq<nat>, n: nat)
  {
    && |schedule| == n
    && (forall j | 0 <= j < n :: schedule[j] < n)
    && (forall j, j' | 0 <= j < j' < n :: schedule[j] != schedule[j'])
    && (forall k | 0 <= k < n :: k in schedule)
  }

  /** The checks of DecryptParallelized: those of Decrypt, then, for a
      non-empty buffer only, the ParallelOptions setter, which refuses a
      degree of parallelism of 0 or below -1 (-1 means no limit). */
  function CheckParallelized(inputLength: nat, outputLength: nat, maxDegreeOfParallelism: int): (outcome: Outcome)
    ensures CheckBuffers(inputLength, outputLength).Failed? ==> outcome == CheckBuffers(inputLength, outputLength)
    ensures outcome == Success <==>
      && CheckBuffers(inputLength, outputLength) == Success
      && (inputLength == 0 || maxDegreeOfParallelism == -1 || maxDegreeOfParallelism > 0)
  {
    var buffers := CheckBuffers(inputLength, outputLength);
    if buffers.Failed? then buffers
    else if inputLength == 0 then Success
    else if maxDegreeOfParallelism == 0 || maxDegreeOfParallelism < -1 then
      Failed(ArgumentOutOfRange("MaxDegreeOfParallelism"))
    else Success
  }

  /** DecryptParallelized, run one index at a time in the order the schedule
      gives: index i decrypts block i of input into block i of output. Since
      every index touches its own block only, the result is Decrypt's
      whatever the order. */
  method DecryptParallelized(d: Decryptor, input: array<Byte>, output: array<Byte>, maxDegreeOfParallelism: int,
                             schedule: seq<nat>)
    returns (outcome: Outcome)
    requires IsSchedule(schedule, input.Length / BlockSize)
    modifies output
    ensures outcome == CheckParallelized(input.Length, output.Length, maxDegreeOfParallelism)
    ensures outcome.Failed? ==> output[..] == old(output[..])
    ensures outcome == Success ==> output[..] == DecryptBlocks(d, old(input[..]))
  {
    if input.Length != output.Length {
      return Failed(Argument(LengthsDiffer));
    }
    if input.Length % BlockSize != 0 {
      return Failed(Argument(LengthNotWholeBlocks));
    }
    if input.Length == 0 {
      return Success;
    }
    if maxDegreeOfParallelism == 0 || maxDegreeOfParallelism < -1 {
      return Failed(ArgumentOutOfRange("MaxDegreeOfParallelism"));
    }
    BlockFunctionIsBlockFunction(d);
    DecryptInSchedule(d, BlockFunction(d), input, output, schedule);
    outcome := Success;
  }

  /** The body of Parallel.For over a schedule: block schedule[j] for
      j = 0, 1, ..., with f standing for the block transform. */
  method DecryptInSchedule(d: Decryptor, ghost f: seq<Byte> -> seq<Byte>, input: array<Byte>, output: array<Byte>, schedule: seq<nat>)
    requires IsBlockFunction(d, f)
    requires input.Length == output.Length && input.Length % BlockSize == 0
    requires IsSchedule(schedule, input.Length / BlockSize)
    modifies output
    ensures output[..] == MapBlocks(f, old(input[..]))
  {
    ghost var source := input[..];
    ghost var target := output[..];
    var count := input.Length / BlockSize;
    assert input.Length == 8 * count;
    var j := 0;
    while j < count
      invariant j <= count
      invariant forall k: nat | 8 * k + 8 <= output.Length ::
        Block(output[..], k) == if k in schedule[..j] then f(Block(source, k)) else Block(target, k)
      invariant forall k: nat | 8 * k + 8 <= input.Length && k !in schedule[..j] :: Block(input[..], k) == Block(source, k)
    {
      var i := schedule[j];
      assert i !in schedule[..j];
      assert schedule[..j + 1] == schedule[..j] + [i];
      DecryptScheduledBlock(d, f, input, output, i, schedule[..j], source, target);
      j := j + 1;
    }
    assert schedule[..count] == schedule;
    forall k: nat | 8 * k + 8 <= output.Length
      ensures Block(output[..], k) == Block(MapBlocks(f, source), k)
    {
      MapBlocksAt(f, source, k);
    }
    SameBlocks(output[..], MapBlocks(f, source));
  }

  /** One index of the schedule: block i, not yet done, is decrypted into
      output; every other block of output, and of input where input is
      output, keeps what it held. */
  method DecryptScheduledBlock(d: Decryptor, ghost f: seq<Byte> -> seq<Byte>, input: array<Byte>, output: array<Byte>, i: nat,
                               ghost done: seq<nat>, ghost source: seq<Byte>, ghost target: seq<Byte>)
    requires IsBlockFunction(d, f)
    requires input.Length == output.Length == |source| == |target| && 8 * i + 8 <= input.Length
    requires input == output ==> source == target
    requires i !in done
    requires forall k: nat | 8 * k + 8 <= output.Length ::
      Block(output[..], k) == if k in done then f(Block(source, k)) else Block(target, k)
    requires forall k: nat | 8 * k + 8 <= input.Length && k !in done :: Block(input[..], k) == Block(source, k)
    modifies output
    ensures forall k: nat | 8 * k + 8 <= output.Length ::
      Block(output[..], k) == if k in done + [i] then f(Block(source, k)) else Block(target, k)
    ensures forall k: nat | 8 * k + 8 <= input.Length && k !in done + [i] :: Block(input[..], k) == Block(source, k)
  {
    assert input[i * BlockSize..i * BlockSize + BlockSize] == Block(input[..], i);
    ghost var before := output[..];
    ghost var inputBefore := input[..];
    PerformDecryption(d, input, i * BlockSize, output, i * BlockSize);
    forall k: nat | 8 * k + 8 <= output.Length
      ensures Block(output[..], k) == if k in done + [i] then f(Block(source, k)) else Block(target, k)
    {
      BlockOfSplice(before, i, f(Block(source, i)), k);
    }
    forall k: nat | 8 * k + 8 <= input.Length && k !in done + [i]
      ensures Block(input[..], k) == Block(source, k)
    {
      if input == output {
        BlockOfSplice(inputBefore, i, f(Block(source, i)), k);
      }
    }
  }

  // ---------------------------------------------------------------------
  // Streams

  /** What the model knows of a Stream argument. */
  datatype StreamInfo = StreamInfo(canRead: bool, canWrite: bool)

  /** The argument checks of DecryptStream in the order they run, with the
      negative size ArrayPool.Rent rejects last. C#'s remainder can be
      negative where Dafny's cannot, but the two are zero together. */
  function CheckStreams(input: Option<StreamInfo>, output: Option<StreamInfo>, bufferSize: int): (outcome: Outcome)
    ensures outcome == Success <==>
      && input.Some? && output.Some? && input.value.canRead && output.value.canWrite
      && bufferSize % BlockSize == 0 && bufferSize >= 0
    ensures input.None? ==> outcome == Failed(ArgumentNull("input"))
    ensures input.Some? && output.None? ==> outcome == Failed(ArgumentNull("output"))
  {
    if input.None? then Failed(ArgumentNull("input"))
    else if output.None? then Failed(ArgumentNull("output"))
    else if !input.value.canRead then Failed(Argument(InputNotReadable))
    else if !output.value.canWrite then Failed(Argument(OutputNotWritable))
    else if bufferSize % BlockSize != 0 then Failed(Argument(BufferSizeNotWholeBlocks))
    else if bufferSize < 0 then Failed(ArgumentOutOfRange("minimumLength"))
    else Success
  }

  /** The bytes the k-th call of input.Read hands over: chunks[k] while there
      are any, then nothing (end of stream). */
  function Chunk(chunks: seq<seq<Byte>>, k: nat): (chunk: seq<Byte>)
    ensures chunk != [] ==> k < |chunks|
  {
    if k < |chunks| then chunks[k] else []
  }

  /** Stream.Read never hands over more than the buffer holds. */
  predicate ChunksFit(chunks: seq<seq<Byte>>, size: nat)
  {
    forall j | 0 <= j < |chunks| :: |chunks[j]| <= size
  }

  /** The buffer after the block loop of one pass, run up to length: the
      loop rounds length up to whole blocks, so when length is not whole
      blocks it takes in bytes the buffer held from before. */
  function DecryptedUpTo(f: seq<Byte> -> seq<Byte>, buffer: seq<Byte>, length: nat): (r: seq<Byte>)
    requires length <= |buffer| && |buffer| % BlockSize == 0
    ensures KeepsBlocks(f) ==> |r| == |buffer|
  {
    CoveringFits(length, |buffer|);
    var n := BlocksCovering(length);
    MapBlocks(f, buffer[..n]) + buffer[n..]
  }

  /** What pass k hands to output.Write: the length of its read in bytes
      from the front of the buffer once the blocks covering them are
      decrypted. */
  function PassWrite(f: seq<Byte> -> seq<Byte>, filled: seq<Byte>, chunks: seq<seq<Byte>>, k: nat): (write: seq<Byte>)
    requires KeepsBlocks(f) && |filled| % BlockSize == 0 && ChunksFit(chunks, |filled|)
    ensures |write| == |Chunk(chunks, k)|
  {
    var length := |Chunk(chunks, k)|;
    DecryptedUpTo(f, filled, length)[..length]
  }

  /** The buffer after pass k and the next read: the decrypted buffer with
      read k + 1 over its front. */
  function Refill(f: seq<Byte> -> seq<Byte>, filled: seq<Byte>, chunks: seq<seq<Byte>>, k: nat): (next: seq<Byte>)
    requires KeepsBlocks(f) && |filled| % BlockSize == 0 && ChunksFit(chunks, |filled|)
    ensures |next| == |filled| && next[..|Chunk(chunks, k + 1)|] == Chunk(chunks, k + 1)
  {
    Splice(DecryptedUpTo(f, filled, |Chunk(chunks, k)|), 0, Chunk(chunks, k + 1))
  }

  /** Where DecryptStream stands after some passes: the buffer right after
      the latest read, and what has gone to output.Write so far. */
  datatype Progress = Progress(filled: seq<Byte>, writes: seq<seq<Byte>>)

  /** Where DecryptStream stands right after read k, when the pooled buffer
      started out holding `buffer`: every read goes over the front of the
      buffer as the previous pass left it, and every pass adds one write. */
  function Run(f: seq<Byte> -> seq<Byte>, buffer: seq<Byte>, chunks: seq<seq<Byte>>, k: nat): (p: Progress)
    requires KeepsBlocks(f) && |buffer| % BlockSize == 0 && ChunksFit(chunks, |buffer|)
    ensures |p.filled| == |buffer| && p.filled[..|Chunk(chunks, k)|] == Chunk(chunks, k)
    ensures |p.writes| == k
    decreases k
  {
    if k == 0 then Progress(Splice(buffer, 0, Chunk(chunks, 0)), [])
    else
      var p := Run(f, buffer, chunks, k - 1);
      Progress(Refill(f, p.filled, chunks, k - 1), p.writes + [PassWrite(f, p.filled, chunks, k - 1)])
  }

  /** One more pass: the buffer is decrypted and refilled, and its write is
      added. */
  lemma RunStep(f: seq<Byte> -> seq<Byte>, buffer: seq<Byte>, chunks: seq<seq<Byte>>, k: nat)
    requires KeepsBlocks(f) && |buffer| % BlockSize == 0 && ChunksFit(chunks, |buffer|)
    ensures var p := Run(f, buffer, chunks, k);
            Run(f, buffer, chunks, k + 1) == Progress(Refill(f, p.filled, chunks, k), p.writes + [PassWrite(f, p.filled, chunks, k)])
  {
  }

  /** Later passes only add writes: the writes after m reads are the first m
      of the writes after n reads. */
  lemma {:induction false} RunExtends(f: seq<Byte> -> seq<Byte>, buffer: seq<Byte>, chunks: seq<seq<Byte>>, m: nat, n: nat)
    requires KeepsBlocks(f) && |buffer| % BlockSize == 0 && ChunksFit(chunks, |buffer|) && m <= n
    ensures Run(f, buffer, chunks, n).writes[..m] == Run(f, buffer, chunks, m).writes
    decreases n
  {
    var writes := Run(f, buffer, chunks, n).writes;
    if m < n {
      RunExtends(f, buffer, chunks, m, n - 1);
      var p := Run(f, buffer, chunks, n - 1);
      TakeSnoc(p.writes, PassWrite(f, p.filled, chunks, n - 1), m);
    } else {
      TakeAll(writes);
    }
  }

  /** Write j has the length of read j. */
  lemma {:induction false} RunWriteLengths(f: seq<Byte> -> seq<Byte>, buffer: seq<Byte>, chunks: seq<seq<Byte>>, n: nat)
    requires KeepsBlocks(f) && |buffer| % BlockSize == 0 && ChunksFit(chunks, |buffer|)
    ensures forall j | 0 <= j < n :: |Run(f, buffer, chunks, n).writes[j]| == |Chunk(chunks, j)|
    decreases n
  {
    if n > 0 {
      RunWriteLengths(f, buffer, chunks, n - 1);
      var previous := Run(f, buffer, chunks, n - 1).writes;
      var last := PassWrite(f, Run(f, buffer, chunks, n - 1).filled, chunks, n - 1);
      forall j | 0 <= j < n
        ensures |(previous + [last])[j]| == |Chunk(chunks, j)|
      {
        if j < n - 1 {
          assert (previous + [last])[j] == previous[j];
        }
      }
    }
  }

  /** The first read from `from` on that returns no bytes. */
  function FirstEmpty(chunks: seq<seq<Byte>>, from: nat): (i: nat)
    ensures from <= i && Chunk(chunks, i) == []
    ensures forall j | from <= j < i :: Chunk(chunks, j) != []
    decreases |chunks| - from
  {
    if Chunk(chunks, from) == [] then from else FirstEmpty(chunks, from + 1)
  }

  /** The writes of DecryptStream when the pooled buffer starts out holding
      `buffer`: one pass per read up to the first read after read 0 that
      returns nothing (a do-while loop, so read 0 gets a pass even when it is
      empty), each writing as many bytes as its read returned. */
  function StreamWrites(f: seq<Byte> -> seq<Byte>, buffer: seq<Byte>, chunks: seq<seq<Byte>>): (writes: seq<seq<Byte>>)
    requires KeepsBlocks(f) && |buffer| % BlockSize == 0 && ChunksFit(chunks, |buffer|)
    ensures 1 <= |writes| && Chunk(chunks, |writes|) == []
    ensures forall j | 1 <= j < |writes| :: Chunk(chunks, j) != []
    ensures forall j | 0 <= j < |writes| :: |writes[j]| == |Chunk(chunks, j)|
  {
    var n := FirstEmpty(chunks, 1);
    RunWriteLengths(f, buffer, chunks, n);
    Run(f, buffer, chunks, n).writes
  }

  /** The stream's writes are the writes of the passes up to the first read
      after read 0 that returns nothing. */
  lemma StreamEnd(f: seq<Byte> -> seq<Byte>, buffer: seq<Byte>, chunks: seq<seq<Byte>>, n: nat)
    requires KeepsBlocks(f) && |buffer| % BlockSize == 0 && ChunksFit(chunks, |buffer|)
    requires 1 <= n && Chunk(chunks, n) == [] && forall j | 1 <= j < n :: Chunk(chunks, j) != []
    ensures StreamWrites(f, buffer, chunks) == Run(f, buffer, chunks, n).writes
  {
    var first := FirstEmpty(chunks, 1);
    assert Chunk(chunks, first) == [];
    assert first == n;
  }

  /** With an empty pooled buffer, as the pool hands out for a bufferSize of
      0, every read returns nothing and the stream makes a single empty
      write. */
  lemma EmptyBufferStream(f: seq<Byte> -> seq<Byte>, chunks: seq<seq<Byte>>)
    requires KeepsBlocks(f) && ChunksFit(chunks, 0)
    ensures StreamWrites(f, [], chunks) == [[]]
  {
    var writes := StreamWrites(f, [], chunks);
    assert Chunk(chunks, 1) == [];
    assert |writes| == 1 && writes[0] == [];
  }

  /** DecryptStream. The pooled buffer is a parameter (its contents are
      whatever the pool left in it) and the input stream is the sequence of
      chunks its Read calls return; the result lists what is written to the
      output stream, one entry per Write call, and how many reads were made.
      On every path past Rent the buffer is cleared before it goes back.
      Rent hands out at least bufferSize bytes, a multiple of 8 once the
      size check has passed. */
  method DecryptStream(d: Decryptor, input: Option<StreamInfo>, output: Option<StreamInfo>, bufferSize: int,
                       buffer: array<Byte>, chunks: seq<seq<Byte>>)
    returns (outcome: Outcome, writes: seq<seq<Byte>>, readCount: nat)
    requires bufferSize <= buffer.Length && buffer.Length % BlockSize == 0 && ChunksFit(chunks, buffer.Length)
    modifies buffer
    ensures outcome == CheckStreams(input, output, bufferSize)
    ensures outcome.Failed? ==> writes == [] && readCount == 0 && buffer[..] == old(buffer[..])
    ensures outcome == Success ==> writes == StreamWrites(BlockFunction(d), old(buffer[..]), chunks)
    ensures outcome == Success ==> readCount == |writes| + 1
    ensures outcome == Success ==> forall i | 0 <= i < buffer.Length :: buffer[i] == 0
  {
    if input.None? {
      return Failed(ArgumentNull("input")), [], 0;
    }
    if output.None? {
      return Failed(ArgumentNull("output")), [], 0;
    }
    if !input.value.canRead {
      return Failed(Argument(InputNotReadable)), [], 0;
    }
    if !output.value.canWrite {
      return Failed(Argument(OutputNotWritable)), [], 0;
    }
    if bufferSize % BlockSize != 0 {
      return Failed(Argument(BufferSizeNotWholeBlocks)), [], 0;
    }
    if bufferSize < 0 {
      return Failed(ArgumentOutOfRange("minimumLength")), [], 0;
    }
    BlockFunctionIsBlockFunction(d);
    writes, readCount := DecryptChunks(d, BlockFunction(d), buffer, chunks);
    forall i | 0 <= i < buffer.Length {
      buffer[i] := 0;
    }
    outcome := Success;
  }

  /** The try block of DecryptStream: read, decrypt in place, write, and
      read again while the read returns bytes; f stands for the block
      transform. */
  method DecryptChunks(d: Decryptor, ghost f: seq<Byte> -> seq<Byte>, buffer: array<Byte>, chunks: seq<seq<Byte>>)
    returns (writes: seq<seq<Byte>>, readCount: nat)
    requires IsBlockFunction(d, f)
    requires buffer.Length % BlockSize == 0 && ChunksFit(chunks, buffer.Length)
    modifies buffer
    ensures writes == StreamWrites(f, old(buffer[..]), chunks) && readCount == |writes| + 1
  {
    ghost var start := buffer[..];
    var chunk := Chunk(chunks, 0);
    CopyTo(chunk, buffer, 0);
    readCount := 1;
    writes := [];
    while true
      invariant 1 <= readCount <= |chunks| + 1
      invariant chunk == Chunk(chunks, readCount - 1)
      invariant forall j | 1 <= j < readCount :: Chunk(chunks, j) != []
      invariant buffer[..] == Run(f, start, chunks, readCount - 1).filled
      invariant writes == Run(f, start, chunks, readCount - 1).writes
      decreases |chunks| + 1 - readCount
    {
      ghost var k := readCount - 1;
      var write, next := StreamPass(d, f, buffer, chunks, chunk, readCount - 1);
      RunStep(f, start, chunks, k);
      writes := writes + [write];
      chunk := next;
      readCount := readCount + 1;
      assert writes == Run(f, start, chunks, readCount - 1).writes;
      if |chunk| == 0 {
        break;
      }
      forall j | 1 <= j < readCount
        ensures Chunk(chunks, j) != []
      {
        if j == k + 1 {
          assert Chunk(chunks, j) == chunk;
        }
      }
    }
    StreamEnd(f, start, chunks, readCount - 1);
  }

  /** One pass of the stream loop on the k-th chunk, already in the buffer:
      decrypt the blocks covering it, hand over its length of bytes from the
      front of the buffer, and read the next chunk into the front. */
  method StreamPass(d: Decryptor, ghost f: seq<Byte> -> seq<Byte>, buffer: array<Byte>, chunks: seq<seq<Byte>>,
                    chunk: seq<Byte>, k: nat)
    returns (write: seq<Byte>, next: seq<Byte>)
    requires IsBlockFunction(d, f)
    requires buffer.Length % BlockSize == 0 && ChunksFit(chunks, buffer.Length)
    requires chunk == Chunk(chunks, k)
    modifies buffer
    ensures next == Chunk(chunks, k + 1)
    ensures write == PassWrite(f, old(buffer[..]), chunks, k) && buffer[..] == Refill(f, old(buffer[..]), chunks, k)
  {
    ghost var filled := buffer[..];
    ghost var covered := DecryptBlocksUpTo(d, f, buffer, buffer, |chunk|);
    assert buffer[..] == DecryptedUpTo(f, filled, |chunk|);
    write := buffer[..|chunk|];
    next := Chunk(chunks, k + 1);
    CopyTo(next, buffer, 0);
  }

  /** A pass over a read of whole blocks writes exactly the read, decrypted
      block by block. */
  lemma PassWriteWholeBlocks(f: seq<Byte> -> seq<Byte>, filled: seq<Byte>, chunks: seq<seq<Byte>>, k: nat)
    requires KeepsBlocks(f) && |filled| % BlockSize == 0 && ChunksFit(chunks, |filled|)
    requires |Chunk(chunks, k)| % BlockSize == 0 && filled[..|Chunk(chunks, k)|] == Chunk(chunks, k)
    ensures PassWrite(f, filled, chunks, k) == MapBlocks(f, Chunk(chunks, k))
  {
    var length := |Chunk(chunks, k)|;
    assert BlocksCovering(length) == length;
    var decrypted := MapBlocks(f, filled[..length]);
    assert (decrypted + filled[length..])[..length] == decrypted;
  }

  /** With every read whole blocks, the first n writes put together are the
      first n reads put together, decrypted block by block. */
  lemma {:induction false} WholeBlockWrites(f: seq<Byte> -> seq<Byte>, buffer: seq<Byte>, chunks: seq<seq<Byte>>, n: nat)
    requires KeepsBlocks(f) && |buffer| % BlockSize == 0 && ChunksFit(chunks, |buffer|)
    requires forall j | 0 <= j < |chunks| :: |chunks[j]| % BlockSize == 0
    requires n <= |chunks|
    ensures Concat(Run(f, buffer, chunks, n).writes) == MapBlocks(f, Concat(chunks[..n]))
    decreases n
  {
    if n == 0 {
      assert chunks[..0] == [];
    } else {
      var m := n - 1;
      WholeBlockWrites(f, buffer, chunks, m);
      var p := Run(f, buffer, chunks, m);
      var write := PassWrite(f, p.filled, chunks, m);
      assert write == MapBlocks(f, chunks[m]) by {
        PassWriteWholeBlocks(f, p.filled, chunks, m);
      }
      RunStep(f, buffer, chunks, m);
      ConcatSnoc(p.writes, write);
      ConcatTake(chunks, n);
      var before := chunks[..m];
      assert forall j | 0 <= j < |before| :: before[j] == chunks[j];
      ConcatOfBlocks(before);
      MapBlocksAppend(f, Concat(before), chunks[m]);
    }
  }

  /** DecryptStream on reads of whole blocks: what the output stream
      receives, put together, is exactly the decryption of what the input
      stream gave, as Decrypt would compute it. */
  lemma StreamOfWholeBlocks(d: Decryptor, buffer: seq<Byte>, chunks: seq<seq<Byte>>)
    requires |buffer| % BlockSize == 0 && ChunksFit(chunks, |buffer|)
    requires forall j | 0 <= j < |chunks| :: chunks[j] != [] && |chunks[j]| % BlockSize == 0
    ensures Concat(StreamWrites(BlockFunction(d), buffer, chunks)) == DecryptBlocks(d, Concat(chunks))
  {
    var f := BlockFunction(d);
    BlockFunctionsKeepBlocks(d);
    if chunks == [] {
      assert FirstEmpty(chunks, 1) == 1;
      var write := PassWrite(f, Run(f, buffer, chunks, 0).filled, chunks, 0);
      assert StreamWrites(f, buffer, chunks) == [] + [write] && write == [];
      assert [write][..0] == [];
    } else {
      assert Chunk(chunks, |chunks|) == [];
      assert FirstEmpty(chunks, 1) == |chunks| by {
        forall j | 1 <= j < |chunks|
          ensures Chunk(chunks, j) != []
        {
          assert Chunk(chunks, j) == chunks[j];
        }
      }
      WholeBlockWrites(f, buffer, chunks, |chunks|);
      assert chunks[..|chunks|] == chunks;
    }
  }

  /** A pass over a length that is not whole blocks decrypts one block more
      than the whole blocks of the length: the block holding the last bytes
      read together with the bytes after them that were in the buffer
      already. */
  lemma DecryptedUpToPartial(f: seq<Byte> -> seq<Byte>, filled: seq<Byte>, length: nat)
    requires KeepsBlocks(f) && length <= |filled| && |filled| % BlockSize == 0 && length % BlockSize != 0
    ensures var m := WholeBlocksIn(length);
            m + BlockSize <= |filled| &&
            DecryptedUpTo(f, filled, length) == MapBlocks(f, filled[..m]) + f(filled[m..m + BlockSize]) + filled[m + BlockSize..]
  {
    var m := WholeBlocksIn(length);
    CoveringFits(length, |filled|);
    CoveringUnique(length, m + BlockSize);
    MapBlocksSnoc(f, filled, m);
  }

  /** A pass over a read that is not whole blocks: the bytes past the end
      of the read in its last block are whatever the buffer held there, and
      they go into the decryption of that block. */
  lemma PassWriteTakesStaleBytes(f: seq<Byte> -> seq<Byte>, filled: seq<Byte>, chunks: seq<seq<Byte>>, k: nat)
    requires KeepsBlocks(f) && |filled| % BlockSize == 0 && ChunksFit(chunks, |filled|)
    requires |Chunk(chunks, k)| % BlockSize != 0 && filled[..|Chunk(chunks, k)|] == Chunk(chunks, k)
    ensures var c := Chunk(chunks, k);
            var m := WholeBlocksIn(|c|);
            m + BlockSize <= |filled| &&
            PassWrite(f, filled, chunks, k) == (MapBlocks(f, c[..m]) + f(c[m..] + filled[|c|..m + BlockSize]))[..|c|]
  {
    var c := Chunk(chunks, k);
    var m := WholeBlocksIn(|c|);
    DecryptedUpToPartial(f, filled, |c|);
    TakeOfPrefix(filled, c, m);
    SliceAcrossPrefix(filled, c, m, m + BlockSize);
    var x := MapBlocks(f, c[..m]) + f(c[m..] + filled[|c|..m + BlockSize]);
    TakeOfAppend(x, filled[m + BlockSize..], |c|);
  }

  /** The first write of DecryptStream is the first pass over the pooled
      buffer with read 0 over its front. */
  lemma FirstWrite(f: seq<Byte> -> seq<Byte>, buffer: seq<Byte>, chunks: seq<seq<Byte>>)
    requires KeepsBlocks(f) && |buffer| % BlockSize == 0 && ChunksFit(chunks, |buffer|)
    ensures StreamWrites(f, buffer, chunks)[0] == PassWrite(f, Splice(buffer, 0, Chunk(chunks, 0)), chunks, 0)
  {
    RunExtends(f, buffer, chunks, 1, FirstEmpty(chunks, 1));
  }

  /** The first write of DecryptStream when the first read is not whole
      blocks: the bytes after the read in its last block are the ones the
      pooled buffer held before, left over from earlier use, and they go into
      the decryption of that block. */
  lemma FirstWriteTakesStaleBytes(f: seq<Byte> -> seq<Byte>, buffer: seq<Byte>, chunks: seq<seq<Byte>>)
    requires KeepsBlocks(f) && |buffer| % BlockSize == 0 && ChunksFit(chunks, |buffer|)
    requires |Chunk(chunks, 0)| % BlockSize != 0
    ensures var c := Chunk(chunks, 0);
            var m := WholeBlocksIn(|c|);
            m + BlockSize <= |buffer| &&
            StreamWrites(f, buffer, chunks)[0] == (MapBlocks(f, c[..m]) + f(c[m..] + buffer[|c|..m + BlockSize]))[..|c|]
  {
    var c := Chunk(chunks, 0);
    var filled := Splice(buffer, 0, c);
    FirstWrite(f, buffer, chunks);
    PassWriteTakesStaleBytes(f, filled, chunks, 0);
    CoveringFits(|c|, |buffer|);
    SliceOfSameTail(filled, buffer, |c|, WholeBlocksIn(|c|) + BlockSize);
  }
}
