/** Integer and result conventions shared by the C sources: fixed-width
    integers, Linux errno values, and the optional/failing values that stand
    for NULL pointers and negative return codes. */
module CTypes {

  /** A value that may be absent (a NULL pointer, a missing file, an unset timer). */
  datatype Option<+T> = None | Some(value: T)

  const TwoTo32: int := 0x1_0000_0000

  type u32 = x: int | 0 <= x < 0x1_0000_0000
  type i32 = x: int | -0x8000_0000 <= x < 0x8000_0000
  type byte = x: int | 0 <= x < 256

  /** errno as left by a failing libc call: always positive. */
  type Errno = x: int | 0 < x witness 1

  /** The negative status a failing helper returns. */
  type NegCode = x: int | x < 0 witness -1

  /** Linux errno values used by the modules. */
  const EINTR: int := 4
  const ENODEV: int := 19
  const EINVAL: int := 22
  const ENOTSUP: int := 95

  /** The result of one helper read (sys_get_int, sys_get_str): a value or a negative code. */
  datatype Read<+T> = Got(value: T) | Failed(code: NegCode)
  {
    /** The status the helper returned: 0 on success, the negative code otherwise. */
    function Status(): (s: int)
      ensures s <= 0
      ensures s == 0 <==> Got?
    {
      match this
      case Got(_) => 0
      case Failed(c) => c
    }
  }

  /** C's conversion of a signed int to `unsigned int`: reduction modulo 2^32. */
  function ToU32(x: int): (r: u32)
    ensures 0 <= x ==> x < TwoTo32 ==> r == x
    ensures x < 0 ==> -TwoTo32 <= x ==> r == x + TwoTo32
  {
    x % TwoTo32
  }

  /** Reading a 32-bit pattern back as a two's-complement `int`. */
  function ToI32(u: u32): (r: i32)
    ensures ToU32(r) == u
  {
    if u < 0x8000_0000 then u else u - TwoTo32
  }

  /** Every `int` survives the round trip through `unsigned int`. */
  lemma SignedRoundTrip(x: i32)
    ensures ToI32(ToU32(x)) == x
  {
  }

  /** Byte `k` (0 = least significant) of a 32-bit value: `(u >> 8k) & 0xFF`. */
  function ByteAt(u: u32, k: nat): (b: byte)
    requires k < 4
    ensures k == 3 ==> b == u / 0x100_0000
  {
    if k == 0 then u % 256
    else if k == 1 then (u / 0x100) % 256
    else if k == 2 then (u / 0x1_0000) % 256
    else (u / 0x100_0000) % 256
  }

  /** Assembles four little-endian bytes into a 32-bit value. */
  function LittleEndian(b0: byte, b1: byte, b2: byte, b3: byte): (u: u32)
    ensures u % 256 == b0
    ensures u / 0x100_0000 == b3
  {
    var low := b0 + 0x100 * b1 + 0x1_0000 * b2;
    assert 0 <= low < 0x100_0000;
    low + 0x100_0000 * b3
  }

  /** Splitting a 32-bit value into its bytes and assembling them again gives the value back. */
  lemma BytesRoundTrip(u: u32)
    ensures LittleEndian(ByteAt(u, 0), ByteAt(u, 1), ByteAt(u, 2), ByteAt(u, 3)) == u
  {
    var q1 := u / 0x100;
    var q2 := q1 / 0x100;
    var q3 := q2 / 0x100;
    assert u == u % 256 + 0x100 * q1;
    assert q1 == q1 % 256 + 0x100 * q2;
    assert q2 == q2 % 256 + 0x100 * q3;
    assert u / 0x1_0000 == q2;
    assert u / 0x100_0000 == q3;
    assert q3 < 256;
  }
}
