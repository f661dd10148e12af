/** The key schedule of the DotaCrypto block cipher (Decryptor.GenerateKeystream):
    a 32-bit key becomes 48 subkey words. Four 16-bit registers, seeded from the
    key, are rotated at the start of each of 16 rounds; every round draws 15
    nibbles, one bit from each register's least significant bit, and steps each
    register with a complemented right rotation (a 16-bit Johnson counter). */
module KeySchedule {
  import opened Bytes

  const KeyMask1: bv32 := 0x0633_A998
  const KeyMask2: bv32 := 0x4E6C_32B9
  const KeystreamLength := 48

  /** Every subkey word the schedule produces fits in 20 bits. */
  predicate IsSubkeyWord(w: bv32) {
    w < 0x10_0000
  }

  /** A keystream as the schedule produces it: 48 words of 20 bits. */
  predicate IsKeystream(ks: seq<bv32>) {
    |ks| == KeystreamLength && forall i | 0 <= i < |ks| :: IsSubkeyWord(ks[i])
  }

  type Keystream = ks: seq<bv32> | IsKeystream(ks) witness seq(48, _ => 0)

  /** The four 16-bit shift registers (the span `ks` of GenerateKeystream in Decryptor.cs). */
  type Registers = r: seq<bv16> | |r| == 4 witness [0, 0, 0, 0]

  // ---------------------------------------------------------------------
  // The register step: InvertLsbAndAppendAsMsb
  // ---------------------------------------------------------------------

  /** Shifts right by one and puts the complement of the bit that fell out into
      bit 15. The C# code computes in 32-bit int: `~(value & 1)` is -1 or -2,
      shifted left by 15, and the cast to ushort keeps the low 16 bits. The
      result keeps bits 15..1 as bits 14..0 and has bit 15 set exactly when
      bit 0 was clear. */
  function InvertLsbAndAppendAsMsb(v: bv16): (r: bv16)
    ensures r & 0x7FFF == v >> 1
    ensures (r >> 15 == 1) <==> (v & 1 == 0)
  {
    ((((v as bv32) >> 1) | (!((v as bv32) & 1) << 15)) & 0xFFFF) as bv16
  }

  /** The step in 16 bits: the widening to int and the cast back to ushort
      lose nothing, and the step is a complemented right rotation. */
  lemma InvertLsbAndAppendAsMsbShape(v: bv16, r: bv16)
    requires r == InvertLsbAndAppendAsMsb(v)
    ensures r == (v >> 1) | (!v << 15)
  {
  }

  /** n successive steps of one register. */
  function Steps(v: bv16, n: nat): bv16
  {
    if n == 0 then v else InvertLsbAndAppendAsMsb(Steps(v, n - 1))
  }

  lemma {:induction false} StepsAdd(v: bv16, a: nat, b: nat)
    ensures Steps(v, a + b) == Steps(Steps(v, a), b)
  {
    if b > 0 {
      StepsAdd(v, a, b - 1);
    }
  }

  lemma TwoSteps(v: bv16, x1: bv16, x2: bv16)
    requires x1 == InvertLsbAndAppendAsMsb(v) && x2 == InvertLsbAndAppendAsMsb(x1)
    ensures x2 == (v >> 2) | (!v << 14)
  {
    InvertLsbAndAppendAsMsbShape(v, x1);
    InvertLsbAndAppendAsMsbShape(x1, x2);
  }

  lemma TwoByTwo(v: bv16, y: bv16, z: bv16)
    requires y == (v >> 2) | (!v << 14)
    requires z == (y >> 2) | (!y << 14)
    ensures z == (v >> 4) | (!v << 12)
  {
  }

  lemma SixteenTwists(v: bv16, w4: bv16, w8: bv16, w12: bv16, w16: bv16)
    requires w4 == (v >> 4) | (!v << 12)
    requires w8 == (w4 >> 4) | (!w4 << 12)
    requires w12 == (w8 >> 4) | (!w8 << 12)
    requires w16 == (w12 >> 4) | (!w12 << 12)
    ensures w16 == !v
  {
  }

  lemma StepsSucc(v: bv16, n: nat)
    ensures Steps(v, n + 1) == InvertLsbAndAppendAsMsb(Steps(v, n))
  {
  }

  /** Four steps shift the register right by four and fill the top with the
      complement of the four bits that fell out. */
  lemma StepsFour(v: bv16)
    ensures Steps(v, 4) == (v >> 4) | (!v << 12)
  {
    var x1, x2, x3, x4 := Steps(v, 1), Steps(v, 2), Steps(v, 3), Steps(v, 4);
    assert x1 == InvertLsbAndAppendAsMsb(v) by { StepsSucc(v, 0); }
    assert x2 == InvertLsbAndAppendAsMsb(x1) by { StepsSucc(v, 1); }
    assert x3 == InvertLsbAndAppendAsMsb(x2) by { StepsSucc(v, 2); }
    assert x4 == InvertLsbAndAppendAsMsb(x3) by { StepsSucc(v, 3); }
    TwoSteps(v, x1, x2);
    TwoSteps(x2, x3, x4);
    TwoByTwo(v, x2, x4);
  }

  /** Sixteen steps complement the register. */
  lemma {:induction false} JohnsonHalfPeriod(v: bv16)
    ensures Steps(v, 16) == !v
  {
    var w4 := Steps(v, 4);
    StepsFour(v);
    StepsAdd(v, 4, 4);
    StepsFour(w4);
    var w8 := Steps(v, 8);
    StepsAdd(v, 8, 4);
    StepsFour(w8);
    var w12 := Steps(v, 12);
    StepsAdd(v, 12, 4);
    StepsFour(w12);
    SixteenTwists(v, w4, w8, w12, Steps(v, 16));
  }

  /** The register step is a 32-state Johnson counter: 32 steps restore it. */
  lemma {:induction false} JohnsonPeriod(v: bv16, n: nat)
    ensures Steps(v, n + 32) == Steps(v, n)
  {
    StepsAdd(v, n, 32);
    var w := Steps(v, n);
    StepsAdd(w, 16, 16);
    JohnsonHalfPeriod(w);
    JohnsonHalfPeriod(!w);
  }

  // ---------------------------------------------------------------------
  // Register rotation: Shuffle and the per-round schedule
  // ---------------------------------------------------------------------

  /** The registers rotated left by s positions: register k takes the value
      register (k + s) mod 4 had. */
  function Rotated(regs: Registers, s: nat): Registers
  {
    var t := s % 4;
    if t == 0 then regs
    else if t == 1 then [regs[1], regs[2], regs[3], regs[0]]
    else if t == 2 then [regs[2], regs[3], regs[0], regs[1]]
    else [regs[3], regs[0], regs[1], regs[2]]
  }

  lemma SplitPermutes<T>(r: seq<T>, t: nat)
    requires t <= |r|
    ensures multiset(r[t..] + r[..t]) == multiset(r)
  {
    assert r == r[..t] + r[t..];
  }

  lemma RotatedIsSplit(regs: Registers, s: nat)
    ensures Rotated(regs, s) == regs[s % 4..] + regs[..s % 4]
  {
  }

  /** A rotation only reorders the registers. */
  lemma RotatedPermutes(regs: Registers, s: nat)
    ensures multiset(Rotated(regs, s)) == multiset(regs)
  {
    RotatedIsSplit(regs, s);
    SplitPermutes(regs, s % 4);
  }

  /** Register k of a rotation by s is register (k + s) mod 4. */
  lemma RotatedAt(regs: Registers, s: nat, k: nat)
    requires k < 4
    ensures Rotated(regs, s)[k] == regs[(k + s) % 4]
  {
  }

  /** Rotations compose by adding their amounts. */
  lemma RotatedAdd(regs: Registers, a: nat, b: nat)
    ensures Rotated(Rotated(regs, a), b) == Rotated(regs, a + b)
  {
  }

  /** The portable branch of Shuffle: permutes the four registers in place
      through a copy; a start index that is 0 modulo 4 leaves them as they are. */
  method Shuffle(input: array<bv16>, startIndex: nat)
    requires input.Length == 4
    modifies input
    ensures input[..] == Rotated(old(input[..]), startIndex)
  {
    var copy := input[..];
    var shift := startIndex % 4;
    if shift == 1 {
      input[3] := copy[0];
      input[2] := copy[3];
      input[1] := copy[2];
      input[0] := copy[1];
    } else if shift == 2 {
      input[3] := copy[1];
      input[2] := copy[0];
      input[1] := copy[3];
      input[0] := copy[2];
    } else if shift == 3 {
      input[3] := copy[2];
      input[2] := copy[1];
      input[1] := copy[0];
      input[0] := copy[3];
    }
    assert input[..] == Rotated(copy, shift);
  }

  /** How far the registers are rotated at the start of a round: not at all
      in round 0, by one, two or three places in each of rounds 1..15. */
  function RoundRotation(round: nat): (s: nat)
    ensures s < 4
    ensures round == 0 ==> s == 0
    ensures 1 <= round < 16 ==> s != 0
    ensures s == 1 <==> round in {1, 2, 3, 7, 8}
    ensures s == 3 <==> round in {4, 5, 10, 12, 14}
    ensures s == 2 <==> round in {6, 9, 11, 13, 15}
  {
    if round == 1 || round == 2 || round == 3 || round == 7 || round == 8 then 1
    else if round == 4 || round == 5 || round == 10 || round == 12 || round == 14 then 3
    else if round == 6 || round == 9 || round == 11 || round == 13 || round == 15 then 2
    else 0
  }

  // ---------------------------------------------------------------------
  // The register state seen by each step of the schedule
  // ---------------------------------------------------------------------

  /** The registers before round 0: the key XORed with the two masks, written
      big-endian into eight bytes, read back as four little-endian 16-bit
      values (MemoryMarshal.Cast on a little-endian host). */
  function InitialRegisters(key: bv32): (r: Registers)
  {
    // the eight bytes of the buffer: first, then second
    var first, second := WriteUInt32BigEndian(key ^ KeyMask1), WriteUInt32BigEndian(key ^ KeyMask2);
    [LittleEndianUInt16(first[0], first[1]), LittleEndianUInt16(first[2], first[3]),
     LittleEndianUInt16(second[0], second[1]), LittleEndianUInt16(second[2], second[3])]
  }

  /** The registers before round 0 in terms of the masked key words: each
      register is one 16-bit half of a word, high half first, with its two
      bytes swapped by the big-endian write and the little-endian read. */
  lemma InitialRegistersOfKey(key: bv32, r: Registers)
    requires r == InitialRegisters(key)
    ensures var k1, k2 := key ^ KeyMask1, key ^ KeyMask2;
            && r[0] as bv32 == (k1 >> 24) | ((k1 >> 8) & 0xFF00)
            && r[1] as bv32 == ((k1 >> 8) & 0xFF) | ((k1 & 0xFF) << 8)
            && r[2] as bv32 == (k2 >> 24) | ((k2 >> 8) & 0xFF00)
            && r[3] as bv32 == ((k2 >> 8) & 0xFF) | ((k2 & 0xFF) << 8)
  {
    LittleEndianHalvesOfBigEndian(key ^ KeyMask1);
    LittleEndianHalvesOfBigEndian(key ^ KeyMask2);
  }

  /** Every register after one InvertLsbAndAppendAsMsb. */
  function Stepped(regs: Registers): Registers
  {
    [InvertLsbAndAppendAsMsb(regs[0]), InvertLsbAndAppendAsMsb(regs[1]),
     InvertLsbAndAppendAsMsb(regs[2]), InvertLsbAndAppendAsMsb(regs[3])]
  }

  /** The registers at step i (0 <= i < 15) of a round, after that round's
      rotation and i steps. */
  function RegistersAt(key: bv32, round: nat, i: nat): Registers
    // key is listed last so that a known round and step alone do not unfold
    // the whole schedule
    decreases round, i, key
  {
    if i > 0 then Stepped(RegistersAt(key, round, i - 1))
    else if round == 0 then Rotated(InitialRegisters(key), RoundRotation(0))
    else Rotated(RegistersAt(key, round - 1, 15), RoundRotation(round))
  }

  lemma SteppedAt(regs: Registers, j: nat)
    requires j < 4
    ensures Stepped(regs)[j] == InvertLsbAndAppendAsMsb(regs[j])
  {
  }

  /** Within a round, register j at step i is register j at the round's start
      stepped i times. */
  lemma {:induction false} RegistersAtSteps(key: bv32, round: nat, i: nat, j: nat)
    requires j < 4
    ensures RegistersAt(key, round, i)[j] == Steps(RegistersAt(key, round, 0)[j], i)
  {
    if i > 0 {
      RegistersAtSteps(key, round, i - 1, j);
      SteppedAt(RegistersAt(key, round, i - 1), j);
      StepsSucc(RegistersAt(key, round, 0)[j], i - 1);
    }
  }

  // ---------------------------------------------------------------------
  // Nibbles and keystream words
  // ---------------------------------------------------------------------

  /** Register j's least significant bit, placed at bit 3 - j of a nibble
      (the C# code shifts by ks.Length - 1 - j). */
  function NibbleBit(reg: bv16, j: nat): bv32
    requires j < 4
  {
    var bit := (reg & 1) as bv32;
    if j == 0 then bit << 3 else if j == 1 then bit << 2 else if j == 2 then bit << 1 else bit
  }

  /** One register's bit ORed into the word being built. */
  function OrBit(word: bv32, reg: bv16, j: nat): bv32
    requires j < 4
  {
    word | NibbleBit(reg, j)
  }

  /** A word after registers 0..j-1 have ORed their bits into it, register 0
      first (the C# loop over j, stopped after j registers). */
  function BitsInto(word: bv32, regs: Registers, j: nat): bv32
    requires j <= 4
  {
    if j == 0 then word else OrBit(BitsInto(word, regs, j - 1), regs[j - 1], j - 1)
  }

  /** One step's effect on the word it feeds: shift left by four, then OR in
      each register's bit, register 0 first. */
  function ShiftInNibble(word: bv32, regs: Registers): bv32
  {
    ((((word << 4) | NibbleBit(regs[0], 0)) | NibbleBit(regs[1], 1)) | NibbleBit(regs[2], 2)) | NibbleBit(regs[3], 3)
  }

  /** The register-by-register loop builds the same word. */
  lemma ShiftInNibbleBits(word: bv32, regs: Registers)
    ensures BitsInto(word << 4, regs, 4) == ShiftInNibble(word, regs)
  {
    var w := word << 4;
    assert BitsInto(w, regs, 1) == OrBit(w, regs[0], 0);
    assert BitsInto(w, regs, 2) == OrBit(BitsInto(w, regs, 1), regs[1], 1);
    assert BitsInto(w, regs, 3) == OrBit(BitsInto(w, regs, 2), regs[2], 2);
    assert BitsInto(w, regs, 4) == OrBit(BitsInto(w, regs, 3), regs[3], 3);
  }

  /** The register states that feed word m (0 <= m < 3) of a round during its
      first i steps: step j feeds word j mod 3, oldest first. */
  function Draws(key: bv32, round: nat, i: nat, m: nat): (d: seq<Registers>)
    requires m < 3
    decreases i, key
  {
    if i == 0 then []
    else if (i - 1) % 3 == m then Draws(key, round, i - 1, m) + [RegistersAt(key, round, i - 1)]
    else Draws(key, round, i - 1, m)
  }

  /** The word built by shifting in the nibbles of the given register states,
      oldest first, starting from zero. */
  function WordOf(draws: seq<Registers>): bv32
  {
    if |draws| == 0 then 0 else ShiftInNibble(WordOf(draws[..|draws| - 1]), draws[|draws| - 1])
  }

  /** Keystream word k: word k mod 3 of round k / 3, after the round's 15 steps. */
  function KeystreamWord(key: bv32, k: nat): bv32
    requires k < KeystreamLength
  {
    WordOf(Draws(key, k / 3, 15, k % 3))
  }

  /** The keystream the schedule derives from a key. */
  function KeystreamOf(key: bv32): seq<bv32>
  {
    seq(KeystreamLength, k requires 0 <= k < KeystreamLength => KeystreamWord(key, k))
  }

  /** Step i of a round feeds word i mod 3, so after i steps word m has
      received one nibble for each j < i with j mod 3 == m. */
  lemma {:induction false} DrawsLength(key: bv32, round: nat, i: nat, m: nat)
    requires m < 3
    ensures |Draws(key, round, i, m)| == (i + 2 - m) / 3
  {
    if i > 0 {
      DrawsLength(key, round, i - 1, m);
      DrawCountStep(i, m);
    }
  }

  lemma DrawCountStep(i: nat, m: nat)
    requires 0 < i && m < 3
    ensures (i - 1) % 3 == m ==> (i + 2 - m) / 3 == (i + 1 - m) / 3 + 1
    ensures (i - 1) % 3 != m ==> (i + 2 - m) / 3 == (i + 1 - m) / 3
  {
  }

  /** Shifting a nibble into a word with no bits at or above s leaves none at
      or above s + 4. */
  lemma ShiftInNibbleBelow(w: bv32, regs: Registers, s: bv32)
    requires s <= 24 && w >> s == 0
    ensures ShiftInNibble(w, regs) >> (s + 4) == 0
  {
  }

  lemma WordOfSnoc(draws: seq<Registers>, k: nat)
    requires k < |draws|
    ensures WordOf(draws[..k + 1]) == ShiftInNibble(WordOf(draws[..k]), draws[k])
  {
    assert draws[..k + 1][..k] == draws[..k];
  }

  /** Five nibbles make a 20-bit word. */
  lemma FiveNibbles(draws: seq<Registers>)
    requires |draws| == 5
    ensures IsSubkeyWord(WordOf(draws))
  {
    WordOfSnoc(draws, 0);
    ShiftInNibbleBelow(WordOf(draws[..0]), draws[0], 0);
    WordOfSnoc(draws, 1);
    ShiftInNibbleBelow(WordOf(draws[..1]), draws[1], 4);
    WordOfSnoc(draws, 2);
    ShiftInNibbleBelow(WordOf(draws[..2]), draws[2], 8);
    WordOfSnoc(draws, 3);
    ShiftInNibbleBelow(WordOf(draws[..3]), draws[3], 12);
    WordOfSnoc(draws, 4);
    ShiftInNibbleBelow(WordOf(draws[..4]), draws[4], 16);
    assert draws[..5] == draws;
  }

  /** Every keystream word has five nibbles, so it fits in 20 bits: the
      round function may use its halves as 10-bit table indices. */
  lemma KeystreamWordBound(key: bv32, k: nat)
    requires k < KeystreamLength
    ensures IsSubkeyWord(KeystreamWord(key, k))
  {
    DrawsLength(key, k / 3, 15, k % 3);
    FiveNibbles(Draws(key, k / 3, 15, k % 3));
  }

  /** The schedule's output is a Keystream: 48 words of 20 bits. */
  lemma KeystreamOfIsKeystream(key: bv32)
    ensures IsKeystream(KeystreamOf(key))
  {
    forall k | 0 <= k < KeystreamLength
      ensures IsSubkeyWord(KeystreamOf(key)[k])
    {
      KeystreamWordBound(key, k);
    }
  }

  /** The registers as a round finds them, before its rotation. */
  function RegistersBefore(key: bv32, round: nat): Registers
  {
    if round == 0 then InitialRegisters(key) else RegistersAt(key, round - 1, 15)
  }

  /** The registers a round starts from: the previous state rotated by the
      round's amount. */
  lemma RoundStart(key: bv32, round: nat, regs: Registers)
    requires regs == Rotated(RegistersBefore(key, round), RoundRotation(round))
    ensures regs == RegistersAt(key, round, 0)
  {
  }

  lemma RoundStartUnrotated(key: bv32, round: nat, regs: Registers)
    requires RoundRotation(round) == 0 && regs == RegistersBefore(key, round)
    ensures regs == RegistersAt(key, round, 0)
  {
  }

  lemma RegistersAtSucc(key: bv32, round: nat, i: nat, regs: Registers)
    requires regs == Stepped(RegistersAt(key, round, i))
    ensures regs == RegistersAt(key, round, i + 1)
  {
  }

  lemma RoundEnd(key: bv32, round: nat, regs: Registers)
    requires regs == RegistersAt(key, round, 15)
    ensures regs == RegistersBefore(key, round + 1)
  {
  }

  lemma WordOfRound(round: nat, k: nat)
    requires round * 3 <= k < round * 3 + 3
    ensures k / 3 == round && k % 3 == k - round * 3
  {
  }

  /** A step of a round shifts one more nibble into the word it feeds. */
  lemma DrawIntoWord(key: bv32, round: nat, i: nat, regs: Registers)
    requires regs == RegistersAt(key, round, i)
    ensures WordOf(Draws(key, round, i + 1, i % 3)) ==
            ShiftInNibble(WordOf(Draws(key, round, i, i % 3)), regs)
  {
    var d := Draws(key, round, i, i % 3);
    assert Draws(key, round, i + 1, i % 3) == d + [regs];
    assert (d + [regs])[..|d|] == d;
  }

  /** A step of a round leaves the other two words alone. */
  lemma DrawIntoOtherWord(key: bv32, round: nat, i: nat, m: nat)
    requires m < 3 && m != i % 3
    ensures Draws(key, round, i + 1, m) == Draws(key, round, i, m)
  {
  }

  // ---------------------------------------------------------------------
  // GenerateKeystream
  // ---------------------------------------------------------------------

  /** One step of a round (the body of the C# loop over i): shift the
      target word left by four, then let every register give its least
      significant bit and step it. */
  method AppendNibble(ks: array<bv16>, words: array<bv32>, index: nat)
    requires ks.Length == 4 && index < words.Length
    modifies ks, words
    ensures ks[..] == Stepped(old(ks[..]))
    ensures words[index] == ShiftInNibble(old(words[index]), old(ks[..]))
    ensures forall k :: 0 <= k < words.Length && k != index ==> words[k] == old(words[k])
  {
    ghost var drawn: Registers := ks[..];
    ghost var first := words[index] << 4;
    words[index] := words[index] << 4;
    var j := 0;
    while j < 4
      invariant 0 <= j <= 4
      invariant forall q :: 0 <= q < 4 ==> ks[q] == if q < j then InvertLsbAndAppendAsMsb(drawn[q]) else drawn[q]
      invariant words[index] == BitsInto(first, drawn, j)
      invariant forall k :: 0 <= k < words.Length && k != index ==> words[k] == old(words[k])
    {
      words[index] := OrBit(words[index], ks[j], j);
      ks[j] := InvertLsbAndAppendAsMsb(ks[j]);
      j := j + 1;
    }
    assert ks[..] == Stepped(drawn);
    ShiftInNibbleBits(old(words[index]), drawn);
  }

  lemma KeystreamOfWords(key: bv32, words: seq<bv32>)
    requires |words| == KeystreamLength
    requires forall k :: 0 <= k < KeystreamLength ==> words[k] == KeystreamWord(key, k)
    ensures words == KeystreamOf(key)
  {
  }

  /** Words round * 3 .. round * 3 + 2 of `words` hold what the round's first i
      steps put into them. */
  predicate RoundWordsDrawn(key: bv32, round: nat, i: nat, words: seq<bv32>)
    requires |words| == KeystreamLength && round < 16
  {
    forall m :: 0 <= m < 3 ==> words[round * 3 + m] == WordOf(Draws(key, round, i, m))
  }

  /** One step of a round, as the loop takes it: the step's word gets the
      registers' nibble, the other words stay. */
  lemma DrawStep(key: bv32, round: nat, i: nat, drawn: Registers, before: seq<bv32>, after: seq<bv32>)
    requires |before| == |after| == KeystreamLength && round < 16
    requires drawn == RegistersAt(key, round, i) && RoundWordsDrawn(key, round, i, before)
    requires after[round * 3 + i % 3] == ShiftInNibble(before[round * 3 + i % 3], drawn)
    requires forall k :: 0 <= k < KeystreamLength && k != round * 3 + i % 3 ==> after[k] == before[k]
    ensures RoundWordsDrawn(key, round, i + 1, after)
  {
    DrawIntoWord(key, round, i, drawn);
    var next := i + 1;
    forall m | 0 <= m < 3
      ensures after[round * 3 + m] == WordOf(Draws(key, round, next, m))
    {
      if m != i % 3 {
        DrawIntoOtherWord(key, round, i, m);
      }
    }
  }

  /** After the round's 15 steps, its words are keystream words. */
  lemma RoundWordsComplete(key: bv32, round: nat, k: nat, words: seq<bv32>)
    requires |words| == KeystreamLength && round < 16
    requires round * 3 <= k < round * 3 + 3
    requires RoundWordsDrawn(key, round, 15, words)
    ensures words[k] == KeystreamWord(key, k)
  {
    WordOfRound(round, k);
    assert words[round * 3 + (k - round * 3)] == WordOf(Draws(key, round, 15, k - round * 3));
  }

  /** The rotation that opens a round (the C# switch on the round
      number, shuffling by 1, 2 or 3 or not at all). */
  method RotateRound(key: bv32, round: nat, ks: array<bv16>)
    requires ks.Length == 4 && ks[..] == RegistersBefore(key, round)
    modifies ks
    ensures ks[..] == RegistersAt(key, round, 0)
  {
    var rotation := RoundRotation(round);
    if rotation != 0 {
      Shuffle(ks, rotation);
      RoundStart(key, round, ks[..]);
    } else {
      RoundStartUnrotated(key, round, ks[..]);
    }
  }

  /** The 15 steps of one round (the C# loop over i), feeding words
      round * 3, round * 3 + 1 and round * 3 + 2 in turn. */
  method DrawRound(key: bv32, round: nat, ks: array<bv16>, words: array<bv32>)
    requires ks.Length == 4 && words.Length == KeystreamLength && round < 16
    requires ks[..] == RegistersAt(key, round, 0)
    requires forall k :: round * 3 <= k < round * 3 + 3 ==> words[k] == 0
    modifies ks, words
    ensures ks[..] == RegistersAt(key, round, 15)
    ensures forall k :: round * 3 <= k < round * 3 + 3 ==> words[k] == KeystreamWord(key, k)
    ensures forall k :: 0 <= k < KeystreamLength && (k < round * 3 || round * 3 + 3 <= k) ==> words[k] == old(words[k])
  {
    var offset := round * 3;
    var i := 0;
    while i < 15
      invariant 0 <= i <= 15
      invariant ks[..] == RegistersAt(key, round, i)
      invariant RoundWordsDrawn(key, round, i, words[..])
      invariant forall k :: 0 <= k < KeystreamLength && (k < offset || offset + 3 <= k) ==> words[k] == old(words[k])
    {
      ghost var drawn := ks[..];
      ghost var before := words[..];
      AppendNibble(ks, words, offset + i % 3);
      RegistersAtSucc(key, round, i, ks[..]);
      DrawStep(key, round, i, drawn, before, words[..]);
      i := i + 1;
    }
    assert RoundWordsDrawn(key, round, 15, words[..]);
    forall k | offset <= k < offset + 3
      ensures words[k] == KeystreamWord(key, k)
    {
      RoundWordsComplete(key, round, k, words[..]);
    }
  }

  /** The first round * 3 words are keystream words, the rest still zero. */
  predicate RoundsDone(key: bv32, round: nat, words: seq<bv32>)
    requires |words| == KeystreamLength && round <= 16
  {
    (forall k :: 0 <= k < round * 3 ==> words[k] == KeystreamWord(key, k)) &&
    (forall k :: round * 3 <= k < KeystreamLength ==> words[k] == 0)
  }

  /** A round fills its three words and leaves the others alone. */
  lemma NextRound(key: bv32, round: nat, before: seq<bv32>, after: seq<bv32>)
    requires |before| == |after| == KeystreamLength && round < 16
    requires RoundsDone(key, round, before)
    requires forall k :: round * 3 <= k < round * 3 + 3 ==> after[k] == KeystreamWord(key, k)
    requires forall k :: 0 <= k < KeystreamLength && (k < round * 3 || round * 3 + 3 <= k) ==> after[k] == before[k]
    ensures RoundsDone(key, round + 1, after)
  {
  }

  /** One round of the schedule: rotate, then the 15 steps. */
  method RunRound(key: bv32, round: nat, ks: array<bv16>, words: array<bv32>)
    requires ks.Length == 4 && words.Length == KeystreamLength && round < 16
    requires ks[..] == RegistersBefore(key, round) && RoundsDone(key, round, words[..])
    modifies ks, words
    ensures ks[..] == RegistersBefore(key, round + 1) && RoundsDone(key, round + 1, words[..])
  {
    ghost var before := words[..];
    RotateRound(key, round, ks);
    DrawRound(key, round, ks, words);
    RoundEnd(key, round, ks[..]);
    NextRound(key, round, before, words[..]);
  }

  /** The key schedule as Decryptor.cs runs it: 16 rounds of 15 steps, step i of
      a round feeding word round * 3 + i mod 3. */
  method GenerateKeystream(key: bv32) returns (keystream: seq<bv32>)
    ensures keystream == KeystreamOf(key)
  {
    var regs := InitialRegisters(key);
    var ks := new bv16[4](j requires 0 <= j < 4 => regs[j]);
    var words := new bv32[KeystreamLength](_ => 0);
    var round := 0;
    while round < 16
      invariant 0 <= round <= 16
      invariant ks[..] == RegistersBefore(key, round)
      invariant RoundsDone(key, round, words[..])
    {
      RunRound(key, round, ks, words);
      round := round + 1;
    }
    keystream := words[..];
    KeystreamOfWords(key, keystream);
  }
}
