/** Byte-level helpers shared by the cipher: big-endian 32-bit reads and writes
    (BinaryPrimitives.ReadUInt32BigEndian / WriteUInt32BigEndian) and the
    little-endian view of two bytes as one 16-bit register. */
module Bytes {

  type Byte = bv8

  /** Reads four bytes as a big-endian unsigned 32-bit word. */
  function ReadUInt32BigEndian(b: seq<Byte>): (x: bv32)
    requires |b| == 4
  {
    (b[0] as bv32 << 24) | (b[1] as bv32 << 16) | (b[2] as bv32 << 8) | b[3] as bv32
  }

  /** Writes a 32-bit word as four bytes, most significant first. */
  function WriteUInt32BigEndian(x: bv32): (b: seq<Byte>)
    ensures |b| == 4
  {
    [(x >> 24) as Byte, ((x >> 16) & 0xFF) as Byte, ((x >> 8) & 0xFF) as Byte, (x & 0xFF) as Byte]
  }

  lemma BigEndianBytesOfWord(x: bv32, b0: Byte, b1: Byte, b2: Byte, b3: Byte)
    requires b0 as bv32 == x >> 24 && b1 as bv32 == (x >> 16) & 0xFF
    requires b2 as bv32 == (x >> 8) & 0xFF && b3 as bv32 == x & 0xFF
    ensures (b0 as bv32 << 24) | (b1 as bv32 << 16) | (b2 as bv32 << 8) | b3 as bv32 == x
  {
  }

  /** Splitting a word built from four bytes gives those bytes back. */
  lemma BigEndianWordOfBytes(x: bv32, b0: Byte, b1: Byte, b2: Byte, b3: Byte)
    requires x == (b0 as bv32 << 24) | (b1 as bv32 << 16) | (b2 as bv32 << 8) | b3 as bv32
    ensures (x >> 24) as Byte == b0 && ((x >> 16) & 0xFF) as Byte == b1
    ensures ((x >> 8) & 0xFF) as Byte == b2 && (x & 0xFF) as Byte == b3
  {
  }

  lemma WriteOfBytes(x: bv32, b0: Byte, b1: Byte, b2: Byte, b3: Byte)
    requires x == (b0 as bv32 << 24) | (b1 as bv32 << 16) | (b2 as bv32 << 8) | b3 as bv32
    ensures WriteUInt32BigEndian(x) == [b0, b1, b2, b3]
  {
    BigEndianWordOfBytes(x, b0, b1, b2, b3);
  }

  lemma FourBytes(b: seq<Byte>)
    requires |b| == 4
    ensures b == [b[0], b[1], b[2], b[3]]
  {
  }

  /** Reading back what was written gives the word. */
  lemma ReadAfterWrite(x: bv32)
    ensures ReadUInt32BigEndian(WriteUInt32BigEndian(x)) == x
  {
    var b := WriteUInt32BigEndian(x);
    BigEndianBytesOfWord(x, b[0], b[1], b[2], b[3]);
  }

  /** Writing back what was read gives the bytes. */
  lemma WriteAfterRead(b: seq<Byte>)
    requires |b| == 4
    ensures WriteUInt32BigEndian(ReadUInt32BigEndian(b)) == b
  {
    WriteOfBytes(ReadUInt32BigEndian(b), b[0], b[1], b[2], b[3]);
    FourBytes(b);
  }

  /** A word written big-endian and read back as two little-endian 16-bit
      values: each value holds two bytes of the word, the more significant
      one low. */
  lemma LittleEndianHalvesOfBigEndian(x: bv32)
    ensures var b := WriteUInt32BigEndian(x);
            && LittleEndianUInt16(b[0], b[1]) as bv32 == (x >> 24) | ((x >> 8) & 0xFF00)
            && LittleEndianUInt16(b[2], b[3]) as bv32 == ((x >> 8) & 0xFF) | ((x & 0xFF) << 8)
  {
  }

  /** The 16-bit value whose bytes, least significant first, are lo and hi
      (the little-endian reinterpretation done by MemoryMarshal.Cast). */
  function LittleEndianUInt16(lo: Byte, hi: Byte): (v: bv16)
    ensures v & 0xFF == lo as bv16 && v >> 8 == hi as bv16
  {
    lo as bv16 | (hi as bv16 << 8)
  }
}
