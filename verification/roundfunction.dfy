/** The round function of the cipher (Decryptor.GenerateXorKey): one 32-bit
    half is scrambled into two 20-bit values, mixed with three keystream words,
    and four 10-bit indices select entries of the 4096-word decryption table,
    which are ORed together. */
module RoundFunction {
  import opened KeySchedule

  /** Utilities.DecryptionTable: 4096 words whose contents are not part of the
      model, so every property here holds for any table. */
  type Table = t: seq<bv32> | |t| == 4096 witness seq(4096, _ => 0)

  /** Bits 16..25 to 0..9, bits 24..31 to 10..17, bits 0..1 to 18..19. */
  function Scramble1(block: bv32): (s: bv32)
    ensures s < 0x10_0000
    ensures s & 0x3FF == (block >> 16) & 0x3FF
    ensures (s >> 10) & 0xFF == block >> 24
    ensures s >> 18 == block & 0x3
  {
    ((block >> 16) & 0x3FF) | ((block & 0x3) << 18) | ((block >> 24) << 10)
  }

  /** Bits 0..9 stay, bits 8..17 move to 10..19. */
  function Scramble2(block: bv32): (s: bv32)
    ensures s < 0x10_0000
    ensures s & 0x3FF == block & 0x3FF
    ensures s >> 10 == (block >> 8) & 0x3FF
  {
    (block & 0x3FF) | ((block & (0x3FF << 8)) << 2)
  }

  /** The four table positions GenerateXorKey reads, in the order it ORs them. */
  datatype Lookups = Lookups(first: bv32, second: bv32, third: bv32, fourth: bv32)

  /** The temporaries are 20-bit whenever k0 and k1 are: scrambledKey is
      below 2^20 whatever k2 is, because it is masked by the scrambles. */
  lemma TemporariesBound(block: bv32, k0: bv32, k1: bv32, k2: bv32)
    ensures var s1, s2 := Scramble1(block), Scramble2(block);
            var scrambledKey := k2 & (s1 ^ s2);
            && scrambledKey < 0x10_0000
            && (IsSubkeyWord(k1) ==> scrambledKey ^ s2 ^ k1 < 0x10_0000)
            && (IsSubkeyWord(k0) ==> scrambledKey ^ s1 ^ k0 < 0x10_0000)
  {
  }

  /** The table positions for one half and the keystream slice k0, k1, k2:
      the low ten bits of temp1 in the top quarter, the low ten bits of temp2
      in the second, the high bits of temp1 in the third, the high bits of
      temp2 in the first. With 20-bit k0 and k1 every read lands in its own
      quarter of the table: [0xC00, 0xFFF], [0x400, 0x7FF], [0x800, 0xBFF]
      and [0, 0x3FF]. The reads are unchecked (Unsafe.Add), so this is what
      keeps them inside the 4096 entries. */
  function TableLookups(block: bv32, k0: bv32, k1: bv32, k2: bv32): (l: Lookups)
    ensures IsSubkeyWord(k0) && IsSubkeyWord(k1) ==>
              0xC00 <= l.first <= 0xFFF && 0x400 <= l.second <= 0x7FF &&
              0x800 <= l.third <= 0xBFF && l.fourth <= 0x3FF
  {
    var scramble1 := Scramble1(block);
    var scramble2 := Scramble2(block);
    var scrambledKey := k2 & (scramble1 ^ scramble2);
    var temp1 := scrambledKey ^ scramble2 ^ k1;
    var temp2 := scrambledKey ^ scramble1 ^ k0;
    TemporariesBound(block, k0, k1, k2);
    Lookups((temp1 & 0x3FF) | 0xC00, (temp2 & 0x3FF) | 0x400, (temp1 >> 10) | 0x800, temp2 >> 10)
  }

  /** The bound on k1 cannot be dropped: a 23-bit k1 sends the third read to
      0x1800, past the end of the table. */
  lemma WideSubkeyLeavesTable()
    ensures TableLookups(0, 0, 0x40_0000, 0).third == 0x1800
  {
  }

  /** The table entry at a position of at most 0xFFF (Unsafe.Add on the
      table's first element). */
  function Entry(table: Table, x: bv32): bv32
    requires x <= 0xFFF
  {
    table[x]
  }

  /** GenerateXorKey: the OR of the four table entries. The C# code reads
      without bounds checks; the requirement on k0 and k1 is what every call
      from PerformDecryption meets (KeystreamWordBound), and under it every
      read is inside the table (TableLookups). */
  function GenerateXorKey(table: Table, block: bv32, k0: bv32, k1: bv32, k2: bv32): bv32
    requires IsSubkeyWord(k0) && IsSubkeyWord(k1)
  {
    var l := TableLookups(block, k0, k1, k2);
    Entry(table, l.first) | Entry(table, l.second) | Entry(table, l.third) | Entry(table, l.fourth)
  }
}
