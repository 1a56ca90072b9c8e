/**
 * Fixed-width unsigned integers as Python's `struct` module packs them under
 * the `=` prefix: standard sizes (1, 2 and 4 bytes), no padding, and the
 * host's byte order, which this model takes as a parameter.
 */
module ByteCodec {

  type byte = x: int | 0 <= x < 0x100
  type u16 = x: int | 0 <= x < 0x1_0000
  type u32 = x: int | 0 <= x < 0x1_0000_0000

  /** The native byte order that `=` selects; encoder and decoder share it. */
  datatype ByteOrder = LittleEndian | BigEndian

  /** `struct.pack('=H', v)`: two bytes that decode back to `v`. */
  function PackU16(o: ByteOrder, v: u16): (r: seq<byte>)
    ensures |r| == 2
    ensures UnpackU16(o, r) == v
  {
    var lo: byte := v % 0x100;
    var hi: byte := v / 0x100;
    match o
    case LittleEndian => [lo, hi]
    case BigEndian => [hi, lo]
  }

  /** `struct.unpack('=H', b)` on exactly two bytes. */
  function UnpackU16(o: ByteOrder, b: seq<byte>): u16
    requires |b| == 2
  {
    match o
    case LittleEndian => b[0] as int + 0x100 * (b[1] as int)
    case BigEndian => b[1] as int + 0x100 * (b[0] as int)
  }

  /** `struct.pack('=I', v)`: four bytes that decode back to `v`. */
  function PackU32(o: ByteOrder, v: u32): (r: seq<byte>)
    ensures |r| == 4
    ensures UnpackU32(o, r) == v
  {
    var lo: u16 := v % 0x1_0000;
    var hi: u16 := v / 0x1_0000;
    var r := match o
      case LittleEndian => PackU16(o, lo) + PackU16(o, hi)
      case BigEndian => PackU16(o, hi) + PackU16(o, lo);
    assert r[..2] == PackU16(o, if o.LittleEndian? then lo else hi);
    assert r[2..] == PackU16(o, if o.LittleEndian? then hi else lo);
    r
  }

  /** `struct.unpack('=I', b)` on exactly four bytes. */
  function UnpackU32(o: ByteOrder, b: seq<byte>): u32
    requires |b| == 4
  {
    match o
    case LittleEndian => UnpackU16(o, b[..2]) as int + 0x1_0000 * (UnpackU16(o, b[2..]) as int)
    case BigEndian => UnpackU16(o, b[2..]) as int + 0x1_0000 * (UnpackU16(o, b[..2]) as int)
  }

  /** Every two-byte string is the packing of the value it decodes to. */
  lemma UnpackPackU16(o: ByteOrder, b: seq<byte>)
    requires |b| == 2
    ensures PackU16(o, UnpackU16(o, b)) == b
  {
  }

  /** Every four-byte string is the packing of the value it decodes to. */
  lemma {:induction false} UnpackPackU32(o: ByteOrder, b: seq<byte>)
    requires |b| == 4
    ensures PackU32(o, UnpackU32(o, b)) == b
  {
    var lo := UnpackU16(o, if o.LittleEndian? then b[..2] else b[2..]);
    var hi := UnpackU16(o, if o.LittleEndian? then b[2..] else b[..2]);
    var v: int := lo as int + 0x1_0000 * (hi as int);
    assert UnpackU32(o, b) == v;
    assert v % 0x1_0000 == lo && v / 0x1_0000 == hi;
    UnpackPackU16(o, b[..2]);
    UnpackPackU16(o, b[2..]);
    assert b == b[..2] + b[2..];
  }
}
