/** `ir_transmit` of hw/ir/ir.c: argument checks, the "set only when
    different" rules for the carrier frequency and the buffer length, the
    little-endian packing of the pattern, and the mapping of the write's
    result to a return code. The LIRC device's answers are inputs. */
module Ir {
  import opened CTypes

  /** The result of `write(fd, pattern, len)`: a byte count, or -1 with errno set. */
  datatype WriteResult = Wrote(count: nat) | WriteFailed(errno: Errno)

  /** What the LIRC device answers during one transmission: whether it could
      be opened, the frequency and length LIRC_GET_FREQUENCY and
      LIRC_GET_LENGTH report (None when the ioctl fails and leaves `temp`
      alone), the errno of a failing LIRC_SET_FREQUENCY, and the write's result. */
  datatype Lirc = Lirc(
    opens: bool,
    frequency: Option<u32>,
    setFrequencyFails: Option<Errno>,
    length: Option<u32>,
    write: WriteResult)

  /** What a transmission did: its return code, the frequency and length it
      asked the device to set, and the bytes it handed to `write`. */
  datatype Transmission = Transmission(
    ret: int,
    frequencySet: Option<u32>,
    lengthSet: Option<u32>,
    written: Option<seq<byte>>)

  /** The largest pattern size for which `(size - 1) * 4` fits in an `int`. */
  const MaxSize: int := 0x2000_0000

  /** The bytes the packing loop produces: four per element after the first. */
  function PayloadLength(size: int): (len: nat)
    requires 1 <= size <= MaxSize
    ensures len < 0x8000_0000 && len % 4 == 0
  {
    (size - 1) * 4
  }

  /** The four bytes of a word, least significant first. */
  function LeBytes(u: u32): (b: seq<byte>)
    ensures |b| == 4 && LittleEndian(b[0], b[1], b[2], b[3]) == u
  {
    BytesRoundTrip(u);
    [ByteAt(u, 0), ByteAt(u, 1), ByteAt(u, 2), ByteAt(u, 3)]
  }

  /** The `m`-th group of four bytes of a buffer. */
  function Word(buf: seq<byte>, m: nat): (w: seq<byte>)
    requires 4 * m + 4 <= |buf|
    ensures |w| == 4
  {
    buf[4 * m .. 4 * m + 4]
  }

  /** Reads a little-endian byte buffer back as 32-bit words. */
  function Unpack(buf: seq<byte>): (words: seq<u32>)
    requires |buf| % 4 == 0
    ensures |words| == |buf| / 4
  {
    seq(|buf| / 4, m requires 0 <= m < |buf| / 4 =>
      var w := Word(buf, m); LittleEndian(w[0], w[1], w[2], w[3]))
  }

  /** Group `m` of the buffer holds element `m + 1` of the pattern. */
  predicate PackedAt(buf: seq<byte>, pattern: seq<i32>, m: nat)
    requires 4 * m + 4 <= |buf| && m + 1 < |pattern|
  {
    Word(buf, m) == LeBytes(ToU32(pattern[m + 1]))
  }

  /** Byte by byte: byte `4 * m + k` of a packed buffer is byte `k`, counted
      from the least significant, of element `m + 1` as `unsigned int`. */
  lemma PackedBytes(buf: seq<byte>, pattern: seq<i32>, m: nat, k: nat)
    requires 4 * m + 4 <= |buf| && m + 1 < |pattern| && k < 4
    requires PackedAt(buf, pattern, m)
    ensures buf[4 * m + k] == ByteAt(ToU32(pattern[m + 1]), k)
  {
    assert buf[4 * m + k] == Word(buf, m)[k];
  }

  /** The packing loop of ir_transmit: elements 1 to size - 1 of the pattern,
      each converted to `unsigned int` and written as four bytes, least
      significant first. Byte `4 * (i - 1) + k` is byte `k` of element `i`,
      so element 0, the carrier frequency, never reaches the buffer, and
      reading the buffer back as little-endian words gives the elements
      again. */
  method Pack(pattern: seq<i32>, size: int) returns (buf: seq<byte>)
    requires 1 <= size <= MaxSize && size <= |pattern|
    ensures |buf| == PayloadLength(size)
    ensures forall m :: 0 <= m < size - 1 ==> PackedAt(buf, pattern, m)
    ensures Unpack(buf) == seq(size - 1, m requires 0 <= m < size - 1 => ToU32(pattern[m + 1]))
  {
    buf := [];
    var i := 1;
    while i < size
      invariant 1 <= i <= size
      invariant |buf| == 4 * (i - 1)
      invariant forall m :: 0 <= m < i - 1 ==> PackedAt(buf, pattern, m)
    {
      var next := buf + LeBytes(ToU32(pattern[i]));
      forall m | 0 <= m < i ensures PackedAt(next, pattern, m) {
        if m < i - 1 {
          assert PackedAt(buf, pattern, m);
          assert Word(next, m) == Word(buf, m);
        } else {
          assert Word(next, m) == next[|buf|..];
        }
      }
      buf := next;
      i := i + 1;
    }
    UnpackPacked(pattern, size, buf);
  }

  /** Reading a packed buffer back gives the unsigned elements. */
  lemma UnpackPacked(pattern: seq<i32>, size: int, buf: seq<byte>)
    requires 1 <= size <= |pattern| && |buf| == 4 * (size - 1)
    requires forall m :: 0 <= m < size - 1 ==> PackedAt(buf, pattern, m)
    ensures Unpack(buf) == seq(size - 1, m requires 0 <= m < size - 1 => ToU32(pattern[m + 1]))
  {
    var words := Unpack(buf);
    forall m | 0 <= m < size - 1
      ensures words[m] == ToU32(pattern[m + 1])
    {
      assert PackedAt(buf, pattern, m);
    }
  }

  /** Decoding the payload as signed words recovers elements 1 to size - 1 of the pattern exactly. */
  lemma PayloadRoundTrip(pattern: seq<i32>, size: int, buf: seq<byte>)
    requires 1 <= size <= |pattern| && |buf| == 4 * (size - 1)
    requires Unpack(buf) == seq(size - 1, m requires 0 <= m < size - 1 => ToU32(pattern[m + 1]))
    ensures seq(size - 1, m requires 0 <= m < size - 1 => ToI32(Unpack(buf)[m])) == pattern[1..size]
  {
    forall m | 0 <= m < size - 1
      ensures ToI32(Unpack(buf)[m]) == pattern[1..size][m]
    {
      SignedRoundTrip(pattern[m + 1]);
    }
  }

  /** ir_transmit(pattern, size). `pattern` is None for a NULL pointer and
      otherwise holds at least `size` elements.
      - A size below 2 or a NULL pattern is refused with -EINVAL before the
        device is touched; a device that cannot be opened gives -ENODEV.
      - The frequency is set to element 0, converted to `unsigned int`, only
        when it differs from what LIRC_GET_FREQUENCY left in `temp` (0 if
        that failed); a failing set returns -errno.
      - The payload is packed; the length is set to `(size - 1) * 4` only when
        it differs from what LIRC_GET_LENGTH left in `temp`, which still holds
        the frequency when that ioctl fails; a failing length set is ignored.
      - A failed write returns -errno, a short one -EINTR, a full one 0. */
  method Transmit(pattern: Option<seq<i32>>, size: i32, dev: Lirc) returns (t: Transmission)
    requires pattern.Some? ==> size <= |pattern.value|
    requires size <= MaxSize
    ensures size <= 1 || pattern.None? ==> t == Transmission(-EINVAL, None, None, None)
    ensures size > 1 && pattern.Some? && !dev.opens ==> t == Transmission(-ENODEV, None, None, None)
    ensures size > 1 && pattern.Some? && dev.opens ==>
              var p := pattern.value;
              var before := match dev.frequency case Some(f) => f case None => 0;
              (t.frequencySet.Some? <==> before != ToU32(p[0]))
              && (t.frequencySet.Some? ==> t.frequencySet.value == ToU32(p[0]))
              && (t.frequencySet.Some? && dev.setFrequencyFails.Some? ==>
                    t == Transmission(-(dev.setFrequencyFails.value as int), t.frequencySet, None, None))
    ensures t.written.Some? ==>
              var p := pattern.value;
              var len := PayloadLength(size);
              |t.written.value| == len
              && (forall m :: 0 <= m < size - 1 ==> PackedAt(t.written.value, p, m))
              && Unpack(t.written.value) == seq(size - 1, m requires 0 <= m < size - 1 => ToU32(p[m + 1]))
              && var before := match dev.length case Some(n) => n case None => match dev.frequency case Some(f) => f case None => 0;
                 (t.lengthSet.Some? <==> before != len) && (t.lengthSet.Some? ==> t.lengthSet.value == len)
    ensures t.written.Some? <==> size > 1 && pattern.Some? && dev.opens
                                 && (t.frequencySet.None? || dev.setFrequencyFails.None?)
    ensures t.written.Some? ==>
              t.ret == match dev.write
                       case WriteFailed(e) => -(e as int)
                       case Wrote(n) => if n != PayloadLength(size) then -EINTR else 0
  {
    if size <= 1 {
      return Transmission(-EINVAL, None, None, None);
    }
    if pattern.None? {
      return Transmission(-EINVAL, None, None, None);
    }
    var p := pattern.value;
    if !dev.opens {
      return Transmission(-ENODEV, None, None, None);
    }
    var temp: u32 := 0;
    if dev.frequency.Some? {
      temp := dev.frequency.value;
    }
    var frequencySet: Option<u32> := None;
    if temp != ToU32(p[0]) {
      var freq := ToU32(p[0]);
      frequencySet := Some(freq);
      if dev.setFrequencyFails.Some? {
        return Transmission(-(dev.setFrequencyFails.value as int), frequencySet, None, None);
      }
    }
    var len := PayloadLength(size);
    var buf := Pack(p, size);
    if dev.length.Some? {
      temp := dev.length.value;
    }
    var lengthSet: Option<u32> := None;
    if temp != len {
      lengthSet := Some(len);
    }
    var ret: int;
    match dev.write {
      case WriteFailed(e) =>
        ret := -(e as int);
      case Wrote(n) =>
        ret := if n != len then -EINTR else 0;
    }
    return Transmission(ret, frequencySet, lengthSet, Some(buf));
  }
}
