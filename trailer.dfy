/** The 8-byte trailer a chunk buffer ends with, read by get_buffer_meta
    (src/crc32.cc:117-137): a 4-byte CRC field at length - 8 and a 4-byte
    length field at length - 4, both little-endian.

    The C code reads one signed `char` at each of the two offsets and
    widens it, and it never checks that the buffer holds 8 bytes.  The
    model decodes the fields it evidently means to (GetBufferMeta) and
    keeps the single-byte read beside it (LiteralMeta, SizeSub) to show
    where the two differ. */
module Trailer {
  import opened Words
  import opened Wrappers

  /** A byte of a Buffer, as its unsigned value. */
  type Byte = b: int | 0 <= b < 0x100

  /** A JavaScript value passed as a chunk: a Buffer with its bytes, or
      anything else (including the `undefined` that reading past the end
      of an array gives). */
  datatype Element = Buffer(data: seq<Byte>) | NotBuffer

  /** A decoded (crc, len) pair. */
  datatype Meta = Meta(crc: Word, len: nat)

  const TwoTo32: nat := 0x1_0000_0000

  /** 2^32, the number of values of a uint32_t. */
  lemma Pow2Of32()
    ensures Pow2(32) == TwoTo32
  {
    assert Pow2(8) == 0x100;
    Pow2Add(8, 8, 16);
    Pow2Add(16, 16, 32);
  }

  /** The value of a 32-bit word is below 2^32. */
  lemma WordValueBound(w: Word)
    ensures BitsNat(w) < TwoTo32
  {
    BitsNatBound(w);
    Pow2Of32();
  }

  // ---------------------------------------------------------------------
  // The fields

  /** The number stored little-endian in d[at..at + 4]. */
  function FieldValue(d: seq<Byte>, at: nat): (n: nat)
    requires at + 4 <= |d|
    ensures n < TwoTo32
  {
    d[at] as nat + 0x100 * (d[at + 1] as nat + 0x100 * (d[at + 2] as nat + 0x100 * d[at + 3] as nat))
  }

  /** The 32-bit word stored little-endian in d[at..at + 4]: the binary
      digits of the field's value. */
  function FieldWord(d: seq<Byte>, at: nat): Word
    requires at + 4 <= |d|
  {
    NatBits(FieldValue(d, at), 32)
  }

  /** The four bytes of a number below 2^32, least significant first. */
  function ValueBytes(n: nat): (bs: seq<Byte>)
    requires n < TwoTo32
    ensures |bs| == 4
  {
    var n1 := n / 0x100;
    var n2 := n1 / 0x100;
    [n % 0x100, n1 % 0x100, n2 % 0x100, n2 / 0x100]
  }

  /** The four bytes of a word, least significant first. */
  function WordBytes(w: Word): (bs: seq<Byte>)
    ensures |bs| == 4
  {
    WordValueBound(w);
    ValueBytes(BitsNat(w))
  }

  /** The trailer that stores m. */
  function EncodeTrailer(m: Meta): (t: seq<Byte>)
    requires m.len < TwoTo32
    ensures |t| == 8
  {
    WordBytes(m.crc) + ValueBytes(m.len)
  }

  // ---------------------------------------------------------------------
  // get_buffer_meta as intended

  /** get_buffer_meta with 4-byte little-endian fields: fails for a value
      that is not a Buffer and for a Buffer shorter than 8 bytes. */
  function GetBufferMeta(e: Element): (r: Option<Meta>)
    ensures r.Some? <==> e.Buffer? && |e.data| >= 8
    ensures r.Some? ==> r.value.len < TwoTo32
  {
    match e
    case NotBuffer => None
    case Buffer(d) =>
      if |d| < 8 then None
      else Some(Meta(FieldWord(d, |d| - 8), FieldValue(d, |d| - 4)))
  }

  // ---------------------------------------------------------------------
  // The trailer round trip

  /** The lowest base-256 digit and the rest of a + 256 * rest. */
  lemma Digit(a: nat, rest: nat)
    requires a < 0x100
    ensures (a + 0x100 * rest) % 0x100 == a && (a + 0x100 * rest) / 0x100 == rest
  {
  }

  lemma Halves(t: seq<Byte>)
    requires |t| == 8
    ensures t == t[0..4] + t[4..8]
  {
  }

  lemma WordFieldRoundTrip(w: Word, d: seq<Byte>, at: nat)
    requires at + 4 <= |d| && d[at..at + 4] == WordBytes(w)
    ensures FieldWord(d, at) == w
  {
    WordValueBound(w);
    ValueFieldRoundTrip(BitsNat(w), d, at);
    NatBitsBack(w);
  }

  lemma ValueFieldRoundTrip(n: nat, d: seq<Byte>, at: nat)
    requires n < TwoTo32
    requires at + 4 <= |d| && d[at..at + 4] == ValueBytes(n)
    ensures FieldValue(d, at) == n
  {
    var n1 := n / 0x100;
    var n2 := n1 / 0x100;
    assert d[at] == n % 0x100 && d[at + 1] == n1 % 0x100;
    assert d[at + 2] == n2 % 0x100 && d[at + 3] == n2 / 0x100;
  }

  /** Decoding the trailer of any buffer that ends in EncodeTrailer(m)
      gives m back. */
  lemma DecodeEncode(prefix: seq<Byte>, m: Meta)
    requires m.len < TwoTo32
    ensures GetBufferMeta(Buffer(prefix + EncodeTrailer(m))) == Some(m)
  {
    var d := prefix + EncodeTrailer(m);
    var at := |d| - 8;
    assert d[at..at + 4] == WordBytes(m.crc);
    assert d[at + 4..at + 8] == ValueBytes(m.len);
    WordFieldRoundTrip(m.crc, d, at);
    ValueFieldRoundTrip(m.len, d, at + 4);
  }

  lemma WordBytesOfField(d: seq<Byte>, at: nat)
    requires at + 4 <= |d|
    ensures WordBytes(FieldWord(d, at)) == d[at..at + 4]
  {
    Pow2Of32();
    BitsNatBack(FieldValue(d, at), 32);
    ValueBytesOfField(d, at);
  }

  lemma ValueBytesOfField(d: seq<Byte>, at: nat)
    requires at + 4 <= |d|
    ensures ValueBytes(FieldValue(d, at)) == d[at..at + 4]
  {
    var a, b, c, e := d[at] as nat, d[at + 1] as nat, d[at + 2] as nat, d[at + 3] as nat;
    Digit(a, b + 0x100 * (c + 0x100 * e));
    Digit(b, c + 0x100 * e);
    Digit(c, e);
  }

  lemma EncodeFields(d: seq<Byte>, at: nat)
    requires at + 8 == |d|
    ensures EncodeTrailer(Meta(FieldWord(d, at), FieldValue(d, at + 4))) == d[at..]
  {
    WordBytesOfField(d, at);
    ValueBytesOfField(d, at + 4);
    Halves(d[at..]);
    assert d[at..][0..4] == d[at..at + 4] && d[at..][4..8] == d[at + 4..at + 8];
  }

  /** Re-encoding what a buffer's trailer decodes to gives its last 8
      bytes back. */
  lemma EncodeDecode(d: seq<Byte>)
    requires |d| >= 8
    ensures EncodeTrailer(GetBufferMeta(Buffer(d)).value) == d[|d| - 8..]
  {
    EncodeFields(d, |d| - 8);
  }

  // ---------------------------------------------------------------------
  // get_buffer_meta as written

  const TwoTo64: nat := 0x1_0000_0000_0000_0000

  /** `length - k` on size_t, the 64-bit unsigned type of length at
      src/crc32.cc:126. */
  function SizeSub(length: nat, k: nat): nat
    requires length < TwoTo64
  {
    (length - k) % TwoTo64
  }

  /** The offset the C code reads the CRC at lies inside the buffer exactly
      when the buffer holds at least 8 bytes; for a shorter one the
      subtraction wraps and the read is outside the buffer. */
  lemma CrcOffsetInside(length: nat)
    requires length < TwoTo64
    ensures SizeSub(length, 8) < length <==> length >= 8
  {
    if length < 8 {
      assert SizeSub(length, 8) == length - 8 + TwoTo64;
    }
  }

  /** A 3-byte Buffer: the CRC is read 2^64 - 5 bytes past its start. */
  lemma ShortBufferReadsOutside()
    ensures SizeSub(3, 8) == TwoTo64 - 5
  {
  }

  /** The value of `(uint32_t) c` for the signed `char` c holding byte b:
      a byte of 0x80 or more is negative and wraps modulo 2^32. */
  function LiteralValue(b: Byte): (n: nat)
    ensures n < TwoTo32
  {
    if b < 0x80 then b else b - 0x100 + TwoTo32
  }

  /** `(uint32_t) c` as a word. */
  function LiteralWord(b: Byte): Word
  {
    NatBits(LiteralValue(b), 32)
  }

  /** get_buffer_meta as written for a little-endian host with signed
      `char`: one byte is read at each offset and widened.  Its reads are
      only defined for a Buffer of 8 bytes or more. */
  function LiteralMeta(e: Element): (r: Option<Meta>)
    requires e.Buffer? ==> |e.data| >= 8
    ensures r.Some? <==> e.Buffer?
  {
    match e
    case NotBuffer => None
    case Buffer(d) => Some(Meta(LiteralWord(d[|d| - 8]), LiteralValue(d[|d| - 4])))
  }

  /** The one-byte read gives the stored value of the field at at
      exactly when its three upper bytes are the sign extension of its
      lowest. */
  lemma LiteralValueAgrees(d: seq<Byte>, at: nat)
    requires at + 4 <= |d|
    ensures LiteralValue(d[at]) == FieldValue(d, at)
      <==> ((d[at] < 0x80 && d[at + 1] == 0 && d[at + 2] == 0 && d[at + 3] == 0)
        || (d[at] >= 0x80 && d[at + 1] == 0xFF && d[at + 2] == 0xFF && d[at + 3] == 0xFF))
  {
    var rest := d[at + 1] as nat + 0x100 * (d[at + 2] as nat + 0x100 * d[at + 3] as nat);
    assert FieldValue(d, at) == d[at] + 0x100 * rest;
    assert rest == 0 <==> d[at + 1] == 0 && d[at + 2] == 0 && d[at + 3] == 0;
    assert rest == 0xFF_FFFF <==> d[at + 1] == 0xFF && d[at + 2] == 0xFF && d[at + 3] == 0xFF;
  }

  /** Two numbers below 2^32 with the same 32 binary digits are equal. */
  lemma NatBitsInjective(x: nat, y: nat)
    requires x < TwoTo32 && y < TwoTo32
    ensures NatBits(x, 32) == NatBits(y, 32) <==> x == y
  {
    Pow2Of32();
    BitsNatBack(x, 32);
    BitsNatBack(y, 32);
  }

  /** The two CRCs are equal exactly when their values are. */
  lemma LiteralCrcValue(d: seq<Byte>)
    requires |d| >= 8
    ensures LiteralMeta(Buffer(d)).value.crc == GetBufferMeta(Buffer(d)).value.crc
      <==> LiteralValue(d[|d| - 8]) == FieldValue(d, |d| - 8)
  {
    var x, y := LiteralValue(d[|d| - 8]), FieldValue(d, |d| - 8);
    var wx, wy := LiteralMeta(Buffer(d)).value.crc, GetBufferMeta(Buffer(d)).value.crc;
    assert wx == NatBits(x, 32) && wy == NatBits(y, 32);
    NatBitsInjective(x, y);
  }

  /** The one-byte read gives the stored CRC exactly when the three upper
      bytes of the CRC field are the sign extension of its lowest. */
  lemma LiteralCrcAgrees(d: seq<Byte>)
    requires |d| >= 8
    ensures var at := |d| - 8;
      LiteralMeta(Buffer(d)).value.crc == GetBufferMeta(Buffer(d)).value.crc
      <==> ((d[at] < 0x80 && d[at + 1] == 0 && d[at + 2] == 0 && d[at + 3] == 0)
        || (d[at] >= 0x80 && d[at + 1] == 0xFF && d[at + 2] == 0xFF && d[at + 3] == 0xFF))
  {
    LiteralCrcValue(d);
    LiteralValueAgrees(d, |d| - 8);
  }

  /** The one-byte read gives the stored length exactly when the three
      upper bytes of the length field are the sign extension of its
      lowest. */
  lemma LiteralLengthAgrees(d: seq<Byte>)
    requires |d| >= 8
    ensures var at := |d| - 4;
      LiteralMeta(Buffer(d)).value.len == GetBufferMeta(Buffer(d)).value.len
      <==> ((d[at] < 0x80 && d[at + 1] == 0 && d[at + 2] == 0 && d[at + 3] == 0)
        || (d[at] >= 0x80 && d[at + 1] == 0xFF && d[at + 2] == 0xFF && d[at + 3] == 0xFF))
  {
    LiteralValueAgrees(d, |d| - 4);
  }

  /** The trailer 78 56 34 12 02 01 00 00 stores crc 0x12345678 and length
      0x102; the one-byte read gives crc 0x78 and length 2. */
  lemma LiteralDiffers()
    ensures var d: seq<Byte> := [0x78, 0x56, 0x34, 0x12, 0x02, 0x01, 0x00, 0x00];
      && GetBufferMeta(Buffer(d)).value.len == 0x102
      && LiteralMeta(Buffer(d)).value.len == 2
      && GetBufferMeta(Buffer(d)).value.crc == NatBits(0x1234_5678, 32)
      && LiteralMeta(Buffer(d)).value.crc == NatBits(0x78, 32)
      && LiteralMeta(Buffer(d)).value.crc != GetBufferMeta(Buffer(d)).value.crc
  {
    var d: seq<Byte> := [0x78, 0x56, 0x34, 0x12, 0x02, 0x01, 0x00, 0x00];
    LiteralCrcAgrees(d);
  }

  /** A length byte of 0x80 or more is sign-extended into a length of
      nearly 4 GiB. */
  lemma LiteralSignExtends(d: seq<Byte>)
    requires |d| >= 8 && d[|d| - 4] >= 0x80
    ensures LiteralMeta(Buffer(d)).value.len == d[|d| - 4] as nat + 0xFFFF_FF00
  {
  }
}
