/** Bytes on the wire: the byte type, the readers the reply decoders are
    specified with (each takes what is left of a datagram and returns the
    value at its front together with what follows), the writers that state
    their round trips, and the integer conversions of .NET's BitConverter
    on a little-endian host. */
module Wire {

  newtype byte = b: int | 0 <= b < 0x100

  type uint16 = x: int | 0 <= x < 0x1_0000
  type int16 = x: int | -0x8000 <= x < 0x8000
  type int32 = x: int | -0x8000_0000 <= x < 0x8000_0000
  type uint64 = x: int | 0 <= x < 0x1_0000_0000_0000_0000

  datatype Option<+T> = None | Some(value: T) {
    predicate IsFailure() { None? }

    function PropagateFailure<U>(): Option<U>
      requires None?
    {
      None
    }

    function Extract(): T
      requires Some?
    {
      value
    }

    function GetOr(default: T): T {
      if Some? then value else default
    }
  }

  /** A value read from the front of a byte sequence, and the bytes after it. */
  datatype Parsed<+T> = Parsed(value: T, rest: seq<byte>)

  /** The bytes of `t` from position `n` on, or nothing when `t` is shorter:
      a cursor may be moved past the end without a read. */
  function Drop(t: seq<byte>, n: nat): (r: seq<byte>)
    ensures n <= |t| ==> r == t[n..]
    ensures n > |t| ==> r == []
  {
    if n <= |t| then t[n..] else []
  }

  // ---------------------------------------------------------------------
  // Zero-terminated strings
  // ---------------------------------------------------------------------

  /** The bytes up to the first zero byte, and what follows that zero; no
      value when `t` holds no zero byte. */
  function CString(t: seq<byte>): (r: Option<Parsed<seq<byte>>>)
    ensures r.None? ==> 0 !in t
    ensures r.Some? ==> 0 !in r.value.value && t == r.value.value + [0] + r.value.rest
    decreases |t|
  {
    if |t| == 0 then None
    else if t[0] == 0 then Some(Parsed([], t[1..]))
    else
      var tail :- CString(t[1..]);
      Some(Parsed([t[0]] + tail.value, tail.rest))
  }

  /** Reading a string written with its terminator gives back the string and
      exactly the bytes written after it. */
  lemma {:induction false} CStringRoundTrip(s: seq<byte>, rest: seq<byte>)
    requires 0 !in s
    ensures CString(s + [0] + rest) == Some(Parsed(s, rest))
  {
    var t := s + [0] + rest;
    if s == [] {
      assert t[0] == 0 && t[1..] == rest;
    } else {
      assert t[0] == s[0] && s[0] != 0;
      assert t[1..] == s[1..] + [0] + rest;
      CStringRoundTrip(s[1..], rest);
      assert CString(t) == Some(Parsed([s[0]] + s[1..], rest));
      assert [s[0]] + s[1..] == s;
    }
  }

  /** Bytes appended after a string's terminator do not change the string read. */
  lemma {:induction false} CStringExtend(t: seq<byte>, z: seq<byte>)
    requires CString(t).Some?
    ensures CString(t + z) == Some(Parsed(CString(t).value.value, CString(t).value.rest + z))
  {
    var p := CString(t).value;
    calc {
      t + z;
      (p.value + [0] + p.rest) + z;
      p.value + [0] + (p.rest + z);
    }
    CStringRoundTrip(p.value, p.rest + z);
  }

  /** A string followed by its terminator, as a writer puts it on the wire. */
  function Terminated(s: seq<byte>): (w: seq<byte>)
    ensures |w| == |s| + 1 && w[..|s|] == s && w[|s|] == 0
  {
    s + [0]
  }

  /** Where the first zero byte at or after `start` is, the string read
      from `start` ends. */
  lemma CStringAt(buf: seq<byte>, start: nat, i: nat)
    requires start <= i <= |buf|
    requires forall k | start <= k < i :: buf[k] != 0
    requires i == |buf| || buf[i] == 0
    ensures i == |buf| ==> CString(buf[start..]).None?
    ensures i < |buf| ==> CString(buf[start..]) == Some(Parsed(buf[start..i], buf[i + 1..]))
  {
    assert 0 !in buf[start..i];
    if i < |buf| {
      assert buf[start..] == buf[start..i] + [0] + buf[i + 1..];
      CStringRoundTrip(buf[start..i], buf[i + 1..]);
    } else {
      assert buf[start..] == buf[start..i];
    }
  }

  /** The loop that appends bytes to a string builder until it meets a zero
      byte, starting at cursor `start`; it does not read past the end of
      `buf` and reports whether a terminator was found. On success `next` is
      the position one past the terminator. */
  method ReadCString(buf: seq<byte>, start: nat) returns (found: bool, text: seq<byte>, next: nat)
    requires start <= |buf|
    ensures found <==> CString(buf[start..]).Some?
    ensures found ==> next <= |buf| && CString(buf[start..]) == Some(Parsed(text, buf[next..]))
  {
    text := [];
    var i := start;
    while i < |buf| && buf[i] != 0
      invariant start <= i <= |buf|
      invariant text == buf[start..i]
      invariant forall k | start <= k < i :: buf[k] != 0
    {
      text := text + [buf[i]];
      i := i + 1;
    }
    CStringAt(buf, start, i);
    if i == |buf| {
      return false, text, i;
    }
    return true, text, i + 1;
  }

  // ---------------------------------------------------------------------
  // Little-endian integers
  // ---------------------------------------------------------------------

  function Pow256(n: nat): (p: nat)
    ensures p > 0
  {
    if n == 0 then 1 else 256 * Pow256(n - 1)
  }

  /** The unsigned value of `s` read least significant byte first. */
  function LittleEndian(s: seq<byte>): (v: nat)
    ensures v < Pow256(|s|)
  {
    if |s| == 0 then 0 else s[0] as nat + 256 * LittleEndian(s[1..])
  }

  /** The `n` bytes that write `v` least significant byte first. */
  function ToLittleEndian(v: nat, n: nat): (s: seq<byte>)
    requires v < Pow256(n)
    ensures |s| == n && LittleEndian(s) == v
  {
    if n == 0 then []
    else
      var s := [(v % 256) as byte] + ToLittleEndian(v / 256, n - 1);
      assert s[1..] == ToLittleEndian(v / 256, n - 1);
      s
  }

  /** Writing back the value read from `s` gives `s` again: the value determines its bytes. */
  lemma {:induction false} LittleEndianInjective(s: seq<byte>)
    ensures ToLittleEndian(LittleEndian(s), |s|) == s
  {
    if s != [] {
      LittleEndianInjective(s[1..]);
      var v := LittleEndian(s);
      assert v % 256 == s[0] as int && v / 256 == LittleEndian(s[1..]);
    }
  }

  /** Half the range of `n` bytes: the least value whose top bit is set. */
  function Half(n: nat): (h: int)
    requires n > 0
    ensures h > 0 && 2 * h == Pow256(n)
  {
    128 * Pow256(n - 1)
  }

  /** Two's complement reading of an unsigned value `u` of `n` bytes. */
  function Signed(u: nat, n: nat): (x: int)
    requires n > 0 && u < Pow256(n)
    ensures -Half(n) <= x < Half(n)
    ensures x >= 0 <==> u < Half(n)
    ensures x == u || x == u - Pow256(n)
  {
    if u < Half(n) then u else u - Pow256(n)
  }

  /** The unsigned value whose two's complement reading on `n` bytes is `x`. */
  function Unsigned(x: int, n: nat): (u: nat)
    requires n > 0 && -Half(n) <= x < Half(n)
    ensures u < Pow256(n) && Signed(u, n) == x
  {
    if x < 0 then x + Pow256(n) else x
  }

  /** BitConverter.ToInt16: the signed 16-bit value of two bytes, low byte first. */
  function Int16Of(s: seq<byte>): (x: int16)
    requires |s| == 2
    ensures x as int % 0x1_0000 == s[0] as int + 256 * s[1] as int
  {
    assert LittleEndian(s) == s[0] as int + 256 * s[1] as int by {
      assert s[1..][1..] == [];
    }
    Signed(LittleEndian(s), 2)
  }

  /** Bytes 0..3 combined by shifts and `|` in C# `int`: the two's complement
      32-bit value of four bytes, low byte first. */
  function Int32Of(s: seq<byte>): (x: int32)
    requires |s| == 4
    ensures x as int % 0x1_0000_0000 == s[0] as int + 0x100 * s[1] as int + 0x1_0000 * s[2] as int + 0x100_0000 * s[3] as int
    ensures x >= 0 <==> s[3] < 0x80
  {
    assert LittleEndian(s) == s[0] as int + 0x100 * s[1] as int + 0x1_0000 * s[2] as int + 0x100_0000 * s[3] as int by {
      var s1, s2, s3 := s[1..], s[2..], s[3..];
      assert s1[1..] == s2 && s2[1..] == s3 && s3[1..] == [];
      assert LittleEndian(s3) == s[3] as int;
      assert LittleEndian(s2) == s[2] as int + 0x100 * s[3] as int;
      assert LittleEndian(s1) == s[1] as int + 0x100 * s[2] as int + 0x1_0000 * s[3] as int;
    }
    Signed(LittleEndian(s), 4)
  }

  /** BitConverter.ToUInt64: the unsigned 64-bit value of eight bytes, low byte first. */
  function UInt64Of(s: seq<byte>): (x: uint64)
    requires |s| == 8
    ensures x == s[0] as int + 0x100 * s[1] as int + 0x1_0000 * s[2] as int + 0x100_0000 * s[3] as int
               + 0x1_0000_0000 * s[4] as int + 0x100_0000_0000 * s[5] as int
               + 0x1_0000_0000_0000 * s[6] as int + 0x100_0000_0000_0000 * s[7] as int
  {
    var s1, s2, s3, s4, s5, s6, s7 := s[1..], s[2..], s[3..], s[4..], s[5..], s[6..], s[7..];
    assert s1[1..] == s2 && s2[1..] == s3 && s3[1..] == s4 && s4[1..] == s5;
    assert s5[1..] == s6 && s6[1..] == s7 && s7[1..] == [];
    assert LittleEndian(s7) == s[7] as int;
    assert LittleEndian(s6) == s[6] as int + 0x100 * s[7] as int;
    assert LittleEndian(s5) == s[5] as int + 0x100 * s[6] as int + 0x1_0000 * s[7] as int;
    assert LittleEndian(s4) == s[4] as int + 0x100 * s[5] as int + 0x1_0000 * s[6] as int + 0x100_0000 * s[7] as int;
    assert LittleEndian(s3) == s[3] as int + 0x100 * s[4] as int + 0x1_0000 * s[5] as int + 0x100_0000 * s[6] as int
                               + 0x1_0000_0000 * s[7] as int;
    assert LittleEndian(s2) == s[2] as int + 0x100 * s[3] as int + 0x1_0000 * s[4] as int + 0x100_0000 * s[5] as int
                               + 0x1_0000_0000 * s[6] as int + 0x100_0000_0000 * s[7] as int;
    assert LittleEndian(s1) == s[1] as int + 0x100 * s[2] as int + 0x1_0000 * s[3] as int + 0x100_0000 * s[4] as int
                               + 0x1_0000_0000 * s[5] as int + 0x100_0000_0000 * s[6] as int
                               + 0x1_0000_0000_0000 * s[7] as int;
    LittleEndian(s)
  }

  function Int16Bytes(x: int16): (s: seq<byte>)
    ensures |s| == 2 && Int16Of(s) == x
  {
    ToLittleEndian(Unsigned(x, 2), 2)
  }

  function Int32Bytes(x: int32): (s: seq<byte>)
    ensures |s| == 4 && Int32Of(s) == x
  {
    ToLittleEndian(Unsigned(x, 4), 4)
  }

  function UInt64Bytes(x: uint64): (s: seq<byte>)
    ensures |s| == 8 && UInt64Of(s) == x
  {
    ToLittleEndian(x, 8)
  }

  // ---------------------------------------------------------------------
  // Fixed-width readers
  // ---------------------------------------------------------------------

  function ReadByte(t: seq<byte>): (r: Option<Parsed<byte>>)
    ensures r.Some? <==> |t| >= 1
    ensures r.Some? ==> t == [r.value.value] + r.value.rest
  {
    if |t| < 1 then None else Some(Parsed(t[0], t[1..]))
  }

  function ReadInt16(t: seq<byte>): (r: Option<Parsed<int16>>)
    ensures r.Some? <==> |t| >= 2
    ensures r.Some? ==> t == t[..2] + r.value.rest && r.value.value == Int16Of(t[..2])
  {
    if |t| < 2 then None else Some(Parsed(Int16Of(t[..2]), t[2..]))
  }

  function ReadUInt64(t: seq<byte>): (r: Option<Parsed<uint64>>)
    ensures r.Some? <==> |t| >= 8
    ensures r.Some? ==> t == t[..8] + r.value.rest && r.value.value == UInt64Of(t[..8])
  {
    if |t| < 8 then None else Some(Parsed(UInt64Of(t[..8]), t[8..]))
  }

  lemma {:induction false} Int16RoundTrip(x: int16, rest: seq<byte>)
    ensures ReadInt16(Int16Bytes(x) + rest) == Some(Parsed(x, rest))
  {
    assert (Int16Bytes(x) + rest)[..2] == Int16Bytes(x);
  }

  lemma {:induction false} UInt64RoundTrip(x: uint64, rest: seq<byte>)
    ensures ReadUInt64(UInt64Bytes(x) + rest) == Some(Parsed(x, rest))
  {
    assert (UInt64Bytes(x) + rest)[..8] == UInt64Bytes(x);
  }

  /** The two bytes BitConverter.ToInt16 reads are the ones that write its result. */
  lemma {:induction false} Int16BytesOf(s: seq<byte>)
    requires |s| == 2
    ensures Int16Bytes(Int16Of(s)) == s
  {
    LittleEndianInjective(s);
  }

  /** The eight bytes BitConverter.ToUInt64 reads are the ones that write its result. */
  lemma {:induction false} UInt64BytesOf(s: seq<byte>)
    requires |s| == 8
    ensures UInt64Bytes(UInt64Of(s)) == s
  {
    LittleEndianInjective(s);
  }

  /** Dropping a prefix of `t` from `t + z` leaves the rest of `t`, then `z`. */
  lemma DropAppend(t: seq<byte>, z: seq<byte>, k: nat)
    requires k <= |t|
    ensures (t + z)[k..] == t[k..] + z
  {
  }

  /** Bytes after a fixed-width field do not change the field read. */
  lemma {:induction false} ReadByteExtend(t: seq<byte>, z: seq<byte>)
    requires ReadByte(t).Some?
    ensures ReadByte(t + z) == Some(Parsed(ReadByte(t).value.value, ReadByte(t).value.rest + z))
  {
    assert (t + z)[1..] == t[1..] + z;
  }

  lemma {:induction false} ReadInt16Extend(t: seq<byte>, z: seq<byte>)
    requires ReadInt16(t).Some?
    ensures ReadInt16(t + z) == Some(Parsed(ReadInt16(t).value.value, ReadInt16(t).value.rest + z))
  {
    assert (t + z)[..2] == t[..2];
    assert (t + z)[2..] == t[2..] + z;
  }

  lemma {:induction false} ReadUInt64Extend(t: seq<byte>, z: seq<byte>)
    requires ReadUInt64(t).Some?
    ensures ReadUInt64(t + z) == Some(Parsed(ReadUInt64(t).value.value, ReadUInt64(t).value.rest + z))
  {
    assert (t + z)[..8] == t[..8];
    assert (t + z)[8..] == t[8..] + z;
  }

  // ---------------------------------------------------------------------
  // The receive buffer
  // ---------------------------------------------------------------------

  /** The size of the buffer every reply datagram is received into. */
  const BufferSize := 12288

  /** The receive buffer after a datagram `d` arrived: `d`, then zeros. */
  function Padded(d: seq<byte>): (p: seq<byte>)
    requires |d| <= BufferSize
    ensures |p| == BufferSize && p[..|d|] == d
    ensures forall k | |d| <= k < BufferSize :: p[k] == 0
  {
    d + seq(BufferSize - |d|, _ => 0)
  }
}
