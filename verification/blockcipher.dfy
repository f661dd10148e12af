/** The 64-bit block transform (Decryptor.PerformDecryption): a Feistel network
    of 8 rounds over the two big-endian halves of a block, taking the 48-word
    keystream six words a round from the end backwards, and writing the halves
    back swapped. The inverse direction (UndoRound, EncryptBlock) is not part of
    Decryptor.cs; it is defined here to prove that decryption loses nothing. */
module BlockCipher {
  import opened Bytes
  import opened KeySchedule
  import opened RoundFunction
  import opened Rounds
  import opened Spans

  const BlockSize := 8
  const DecryptionRounds := 8

  /** A Decryptor value: the keystream derived from its key, and the
      decryption table every instance shares. */
  datatype Decryptor = Decryptor(table: Table, keystream: Keystream)

  /** new Decryptor(key): the keystream is generated once, at construction. */
  method NewDecryptor(table: Table, key: bv32) returns (d: Decryptor)
    ensures d.table == table && d.keystream == KeystreamOf(key)
  {
    var keystream := GenerateKeystream(key);
    KeystreamOfIsKeystream(key);
    d := Decryptor(table, keystream);
  }

  /** The two 32-bit halves of a block: block1 from bytes 0..3, block2 from
      bytes 4..7, both big-endian. */
  datatype Halves = Halves(block1: bv32, block2: bv32)

  /** The XOR of a half with a round key, as a named function: the round
      lemmas below speak of a key applied twice without unfolding the key. */
  function Xor(a: bv32, b: bv32): bv32
  {
    a ^ b
  }

  lemma XorTwice(x: bv32, k: bv32)
    ensures Xor(Xor(x, k), k) == x
  {
  }

  /** The first of the six keystream words round r uses: rounds take the
      keystream from its last six words down to its first six. */
  function RoundKeystreamIndex(round: nat): (i: nat)
    requires round < DecryptionRounds
    ensures i + 6 <= KeystreamLength && i % 6 == 0
    ensures round == 0 ==> i == 42
    ensures round == 7 ==> i == 0
  {
    (7 - round) * 6
  }

  /** The two Feistel steps of one round: block1 takes the XOR key of block2
      and words i + 3 .. i + 5, then block2 takes the XOR key of the new
      block1 and words i .. i + 2. */
  function DecryptRound(d: Decryptor, round: nat, h: Halves): Halves
    requires round < DecryptionRounds
  {
    var i := RoundKeystreamIndex(round);
    var ks := d.keystream;
    var block1 := Xor(h.block1, GenerateXorKey(d.table, h.block2, ks[i + 3], ks[i + 4], ks[i + 5]));
    var block2 := Xor(h.block2, GenerateXorKey(d.table, block1, ks[i], ks[i + 1], ks[i + 2]));
    Halves(block1, block2)
  }

  /** The two Feistel steps of a round, undone in the opposite order. */
  function UndoRound(d: Decryptor, round: nat, h: Halves): Halves
    requires round < DecryptionRounds
  {
    var i := RoundKeystreamIndex(round);
    var ks := d.keystream;
    var block2 := Xor(h.block2, GenerateXorKey(d.table, h.block1, ks[i], ks[i + 1], ks[i + 2]));
    var block1 := Xor(h.block1, GenerateXorKey(d.table, block2, ks[i + 3], ks[i + 4], ks[i + 5]));
    Halves(block1, block2)
  }

  /** Undoing a round gives back what the round started from. */
  lemma UndoDecryptRound(d: Decryptor, round: nat, h: Halves)
    requires round < DecryptionRounds
    ensures UndoRound(d, round, DecryptRound(d, round, h)) == h
  {
    var i := RoundKeystreamIndex(round);
    var ks := d.keystream;
    var key1 := GenerateXorKey(d.table, h.block2, ks[i + 3], ks[i + 4], ks[i + 5]);
    var block1 := Xor(h.block1, key1);
    var key2 := GenerateXorKey(d.table, block1, ks[i], ks[i + 1], ks[i + 2]);
    XorTwice(h.block2, key2);
    XorTwice(h.block1, key1);
  }

  /** A round applied after its undoing gives back the halves it started from. */
  lemma DecryptUndoRound(d: Decryptor, round: nat, h: Halves)
    requires round < DecryptionRounds
    ensures DecryptRound(d, round, UndoRound(d, round, h)) == h
  {
    var i := RoundKeystreamIndex(round);
    var ks := d.keystream;
    var key2 := GenerateXorKey(d.table, h.block1, ks[i], ks[i + 1], ks[i + 2]);
    var block2 := Xor(h.block2, key2);
    var key1 := GenerateXorKey(d.table, block2, ks[i + 3], ks[i + 4], ks[i + 5]);
    XorTwice(h.block1, key1);
    XorTwice(h.block2, key2);
  }

  /** Round r of the decryption, for the eight rounds there are. */
  function DecryptStep(d: Decryptor): (nat, Halves) -> Halves
  {
    (round: nat, h: Halves) => if round < DecryptionRounds then DecryptRound(d, round, h) else h
  }

  function UndoStep(d: Decryptor): (nat, Halves) -> Halves
  {
    (round: nat, h: Halves) => if round < DecryptionRounds then UndoRound(d, round, h) else h
  }

  lemma UndoStepInverts(d: Decryptor)
    ensures forall round: nat, h: Halves :: round < DecryptionRounds ==> UndoStep(d)(round, DecryptStep(d)(round, h)) == h
    ensures forall round: nat, h: Halves :: round < DecryptionRounds ==> DecryptStep(d)(round, UndoStep(d)(round, h)) == h
  {
    forall round: nat, h: Halves | round < DecryptionRounds
      ensures UndoStep(d)(round, DecryptStep(d)(round, h)) == h
      ensures DecryptStep(d)(round, UndoStep(d)(round, h)) == h
    {
      UndoDecryptRound(d, round, h);
      DecryptUndoRound(d, round, h);
    }
  }

  /** The halves of an 8-byte block. */
  function HalvesOf(block: seq<Byte>): Halves
    requires |block| == BlockSize
  {
    Halves(ReadUInt32BigEndian(block[..4]), ReadUInt32BigEndian(block[4..]))
  }

  /** PerformDecryption as a function of the input block: eight rounds, then
      block2 big-endian into bytes 0..3 and block1 into bytes 4..7. */
  function DecryptBlock(d: Decryptor, block: seq<Byte>): (output: seq<Byte>)
    requires |block| == BlockSize
    ensures |output| == BlockSize
  {
    var h := Forward(DecryptStep(d), DecryptionRounds, HalvesOf(block));
    WriteUInt32BigEndian(h.block2) + WriteUInt32BigEndian(h.block1)
  }

  /** The body of PerformDecryption's round loop as the C# code runs it:
      the locals block1 and block2 reassigned, block1 first. DecryptRound is
      the specification it is proved against; the round lemmas and
      DecryptBlock speak of that function, the loop calls this method. */
  method PerformRound(d: Decryptor, round: nat, block1: bv32, block2: bv32) returns (next1: bv32, next2: bv32)
    requires round < DecryptionRounds
    ensures Halves(next1, next2) == DecryptRound(d, round, Halves(block1, block2))
  {
    var keystreamIndex := RoundKeystreamIndex(round);
    var ks := d.keystream;
    var block1Key := GenerateXorKey(d.table, block2, ks[keystreamIndex + 3], ks[keystreamIndex + 4], ks[keystreamIndex + 5]);
    next1 := Xor(block1, block1Key);
    var block2Key := GenerateXorKey(d.table, next1, ks[keystreamIndex], ks[keystreamIndex + 1], ks[keystreamIndex + 2]);
    next2 := Xor(block2, block2Key);
  }

  /** PerformDecryption on the 8 bytes of input at inOffset, into the 8 bytes
      of output at outOffset. Both halves are read before anything is
      written, so input and output may be the same array (in-place use). */
  method PerformDecryption(d: Decryptor, input: array<Byte>, inOffset: nat, output: array<Byte>, outOffset: nat)
    requires inOffset + BlockSize <= input.Length && outOffset + BlockSize <= output.Length
    modifies output
    ensures output[..] == Splice(old(output[..]), outOffset, DecryptBlock(d, old(input[inOffset..inOffset + BlockSize])))
  {
    ghost var block := input[inOffset..inOffset + BlockSize];
    assert block[..4] == input[inOffset..inOffset + 4];
    assert block[4..] == input[inOffset + 4..inOffset + BlockSize];
    var block1 := ReadUInt32BigEndian(input[inOffset..inOffset + 4]);
    var block2 := ReadUInt32BigEndian(input[inOffset + 4..inOffset + BlockSize]);
    var round := 0;
    while round < DecryptionRounds
      invariant round <= DecryptionRounds
      invariant Halves(block1, block2) == Forward(DecryptStep(d), round, HalvesOf(block))
      invariant output[..] == old(output[..])
    {
      block1, block2 := PerformRound(d, round, block1, block2);
      round := round + 1;
    }
    // block2 big-endian into bytes 0..3, block1 into bytes 4..7
    CopyTo(WriteUInt32BigEndian(block2) + WriteUInt32BigEndian(block1), output, outOffset);
  }

  /** The inverse of DecryptBlock: read the swapped halves, undo the rounds. */
  function EncryptBlock(d: Decryptor, block: seq<Byte>): (input: seq<Byte>)
    requires |block| == BlockSize
    ensures |input| == BlockSize
  {
    var h := Backward(UndoStep(d), DecryptionRounds, Halves(ReadUInt32BigEndian(block[4..]), ReadUInt32BigEndian(block[..4])));
    WriteUInt32BigEndian(h.block1) + WriteUInt32BigEndian(h.block2)
  }

  lemma SplitAtFour<T>(p: seq<T>, q: seq<T>)
    requires |p| == 4 && |q| == 4
    ensures (p + q)[..4] == p && (p + q)[4..] == q
  {
  }

  lemma JoinAtFour<T>(s: seq<T>)
    requires |s| == 8
    ensures s[..4] + s[4..] == s
  {
  }

  /** Reading the two words written side by side gives them back. */
  lemma ReadWrittenPair(a: bv32, b: bv32)
    ensures ReadUInt32BigEndian((WriteUInt32BigEndian(a) + WriteUInt32BigEndian(b))[..4]) == a
    ensures ReadUInt32BigEndian((WriteUInt32BigEndian(a) + WriteUInt32BigEndian(b))[4..]) == b
  {
    SplitAtFour(WriteUInt32BigEndian(a), WriteUInt32BigEndian(b));
    ReadAfterWrite(a);
    ReadAfterWrite(b);
  }

  /** Writing back the two words read from a block gives the block. */
  lemma WriteReadPair(block: seq<Byte>)
    requires |block| == BlockSize
    ensures WriteUInt32BigEndian(ReadUInt32BigEndian(block[..4])) + WriteUInt32BigEndian(ReadUInt32BigEndian(block[4..])) == block
  {
    WriteAfterRead(block[..4]);
    WriteAfterRead(block[4..]);
    JoinAtFour(block);
  }

  /** Encrypting a decrypted block gives the block back. */
  lemma EncryptDecryptBlock(d: Decryptor, block: seq<Byte>)
    requires |block| == BlockSize
    ensures EncryptBlock(d, DecryptBlock(d, block)) == block
  {
    var h := Forward(DecryptStep(d), DecryptionRounds, HalvesOf(block));
    ReadWrittenPair(h.block2, h.block1);
    UndoStepInverts(d);
    BackwardForward(DecryptStep(d), UndoStep(d), DecryptionRounds, HalvesOf(block));
    WriteReadPair(block);
  }

  /** Decrypting an encrypted block gives the block back. */
  lemma DecryptEncryptBlock(d: Decryptor, block: seq<Byte>)
    requires |block| == BlockSize
    ensures DecryptBlock(d, EncryptBlock(d, block)) == block
  {
    var start := Halves(ReadUInt32BigEndian(block[4..]), ReadUInt32BigEndian(block[..4]));
    var h := Backward(UndoStep(d), DecryptionRounds, start);
    ReadWrittenPair(h.block1, h.block2);
    UndoStepInverts(d);
    ForwardBackward(DecryptStep(d), UndoStep(d), DecryptionRounds, start);
    WriteAfterRead(block[..4]);
    WriteAfterRead(block[4..]);
    JoinAtFour(block);
  }

  /** For a fixed key the block transform is injective: different
      ciphertext blocks decrypt to different plaintext blocks. */
  lemma DecryptBlockInjective(d: Decryptor, x: seq<Byte>, y: seq<Byte>)
    requires |x| == BlockSize && |y| == BlockSize
    ensures DecryptBlock(d, x) == DecryptBlock(d, y) <==> x == y
  {
    if DecryptBlock(d, x) == DecryptBlock(d, y) {
      EncryptDecryptBlock(d, x);
      EncryptDecryptBlock(d, y);
    }
  }
}
