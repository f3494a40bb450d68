/**
  Fixed-width little-endian integers as they appear in a binary graph file,
  and the single-value read that the decoder performs on its input stream.
 */
module Wire {

  /** One byte of the input file. */
  type Byte = b: int | 0 <= b < 0x100

  /** A signed 16-bit integer (Go's int16). */
  type Int16 = x: int | -0x8000 <= x < 0x8000

  /** Two's-complement value of the little-endian pair (lo, hi). */
  function DecodeInt16(lo: Byte, hi: Byte): (v: Int16)
    ensures (hi < 0x80) <==> (v >= 0)
    ensures v % 0x100 == lo
  {
    var u := lo + 0x100 * hi;
    if u >= 0x8000 then u - 0x10000 else u
  }

  /** Little-endian two's-complement bytes of v. */
  function EncodeInt16(v: Int16): (bs: seq<Byte>)
    ensures |bs| == 2
    ensures (bs[1] < 0x80) <==> (v >= 0)
  {
    var u := if v < 0 then v + 0x10000 else v;
    [u % 0x100, u / 0x100]
  }

  lemma DecodeEncodeInt16(v: Int16)
    ensures DecodeInt16(EncodeInt16(v)[0], EncodeInt16(v)[1]) == v
  {
  }

  lemma EncodeDecodeInt16(lo: Byte, hi: Byte)
    ensures EncodeInt16(DecodeInt16(lo, hi)) == [lo, hi]
  {
  }

  /** The int16 stored at byte offset i of s. */
  function Int16At(s: seq<Byte>, i: nat): Int16
    requires i + 2 <= |s|
  {
    DecodeInt16(s[i], s[i + 1])
  }

  /**
    Outcome of reading one int16 from a stream, as Go's binary.Read reports it
    (it reads with io.ReadFull): no byte left is io.EOF, one byte left is
    io.ErrUnexpectedEOF, two or more give a value.
   */
  datatype ReadOutcome = Value(v: Int16) | Eof | UnexpectedEof

  /** Reads one int16 from the stream `data` positioned at byte offset `pos`. */
  function ReadInt16(data: seq<Byte>, pos: nat): (r: ReadOutcome)
    requires pos <= |data|
    ensures r.Eof? <==> pos == |data|
    ensures r.UnexpectedEof? <==> pos + 1 == |data|
    ensures r.Value? <==> pos + 2 <= |data|
    ensures r.Value? ==> r.v == Int16At(data, pos)
  {
    if pos == |data| then Eof
    else if pos + 1 == |data| then UnexpectedEof
    else Value(DecodeInt16(data[pos], data[pos + 1]))
  }
}
