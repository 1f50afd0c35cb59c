/** The byte order of instruction words in a program's byte stream. */
module ByteOrder {
  import opened Bits

  /** Bytes of a word, least significant first (`u32::to_le_bytes`). */
  function LeBytes(w: Word): (r: seq<Byte>)
    ensures |r| == 4
  {
    var q1 := w / 0x100; var q2 := q1 / 0x100;
    [w % 0x100, q1 % 0x100, q2 % 0x100, q2 / 0x100]
  }

  /** The word whose little-endian bytes are `b` (`u32::from_le_bytes`). */
  function FromLeBytes(b: seq<Byte>): Word
    requires |b| == 4
  {
    b[0] as int + 0x100 * (b[1] as int + 0x100 * (b[2] as int + 0x100 * b[3] as int))
  }

  /** The low byte and the rest of `lo + 256 * hi`. */
  lemma SplitByte(lo: Byte, hi: int)
    ensures (lo + 0x100 * hi) % 0x100 == lo && (lo + 0x100 * hi) / 0x100 == hi
  {
  }

  /** Reading back the bytes of a word gives the word. */
  lemma LeBytesRoundTrip(w: Word)
    ensures FromLeBytes(LeBytes(w)) == w
  {
    var q1 := w / 0x100;
    var q2 := q1 / 0x100;
    assert w == w % 0x100 + 0x100 * q1;
    assert q1 == q1 % 0x100 + 0x100 * q2;
    assert q2 == q2 % 0x100 + 0x100 * (q2 / 0x100);
  }

  /** Writing the word read from four bytes gives the same four bytes. */
  lemma FromLeBytesRoundTrip(b: seq<Byte>)
    requires |b| == 4
    ensures LeBytes(FromLeBytes(b)) == b
  {
    var x2 := b[2] as int + 0x100 * b[3] as int;
    var x1 := b[1] as int + 0x100 * x2;
    SplitByte(b[0], x1);
    SplitByte(b[1], x2);
    SplitByte(b[2], b[3]);
  }
}
