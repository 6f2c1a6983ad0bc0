/**
 * The part of ns-3's Buffer::Iterator that the AIMF headers use: writing
 * and reading single bytes and 16/32-bit values in network (big-endian)
 * order. A Writer appends to a byte sequence; a Reader walks a fixed byte
 * sequence and reports a read past its end instead of aborting.
 */
module Wire {
  import opened AimfTypes

  /** WriteHtonU16: most significant byte first. */
  function U16Bytes(v: U16): (r: seq<Byte>)
    ensures |r| == 2
  {
    [v / 0x100, v % 0x100]
  }

  /** WriteHtonU32: most significant byte first. */
  function U32Bytes(v: U32): (r: seq<Byte>)
    ensures |r| == 4
  {
    [v / 0x100_0000, (v / 0x1_0000) % 0x100, (v / 0x100) % 0x100, v % 0x100]
  }

  /** ReadNtohU16 of the first two bytes. */
  function U16Of(s: seq<Byte>): U16
    requires |s| >= 2
  {
    s[0] as int * 0x100 + s[1] as int
  }

  /** ReadNtohU32 of the first four bytes. */
  function U32Of(s: seq<Byte>): U32
    requires |s| >= 4
  {
    s[0] as int * 0x100_0000 + s[1] as int * 0x1_0000 + s[2] as int * 0x100 + s[3] as int
  }

  /** Reading back a value written in network order gives the value, whatever follows it. */
  lemma U16RoundTrip(v: U16, rest: seq<Byte>)
    ensures U16Of(U16Bytes(v) + rest) == v
  {
  }

  lemma U32RoundTrip(v: U32, rest: seq<Byte>)
    ensures U32Of(U32Bytes(v) + rest) == v
  {
    var q1, q2, q3 := v / 0x100, v / 0x1_0000, v / 0x100_0000;
    assert v == q1 * 0x100 + v % 0x100;
    assert q1 == q2 * 0x100 + q1 % 0x100;
    assert q2 == q3 * 0x100 + q2 % 0x100;
    assert q2 % 0x100 == (v / 0x1_0000) % 0x100 && q1 % 0x100 == (v / 0x100) % 0x100;
  }

  /** Distinct values have distinct wire images. */
  lemma U16BytesInjective(v: U16, w: U16)
    ensures U16Bytes(v) == U16Bytes(w) <==> v == w
  {
    if U16Bytes(v) == U16Bytes(w) {
      U16RoundTrip(v, []);
      U16RoundTrip(w, []);
      assert U16Bytes(v) + [] == U16Bytes(w) + [];
    }
  }

  lemma U32BytesInjective(v: U32, w: U32)
    ensures U32Bytes(v) == U32Bytes(w) <==> v == w
  {
    if U32Bytes(v) == U32Bytes(w) {
      U32RoundTrip(v, []);
      U32RoundTrip(w, []);
      assert U32Bytes(v) + [] == U32Bytes(w) + [];
    }
  }

  /** A Buffer::Iterator used for writing: everything written so far, in order. */
  class Writer {
    var bytes: seq<Byte>

    constructor ()
      ensures bytes == []
    {
      bytes := [];
    }

    method WriteU8(v: Byte)
      modifies this
      ensures bytes == old(bytes) + [v]
    {
      bytes := bytes + [v];
    }

    method WriteHtonU16(v: U16)
      modifies this
      ensures bytes == old(bytes) + U16Bytes(v)
    {
      bytes := bytes + U16Bytes(v);
    }

    method WriteHtonU32(v: U32)
      modifies this
      ensures bytes == old(bytes) + U32Bytes(v)
    {
      bytes := bytes + U32Bytes(v);
    }
  }

  /** A Buffer::Iterator used for reading: the bytes of the packet and the read position. */
  class Reader {
    const data: seq<Byte>
    var pos: nat

    ghost predicate Valid()
      reads this
    {
      pos <= |data|
    }

    /** The bytes not read yet. */
    ghost function Rest(): seq<Byte>
      reads this
      requires Valid()
    {
      data[pos..]
    }

    constructor (packet: seq<Byte>)
      ensures data == packet && pos == 0 && Valid()
    {
      data := packet;
      pos := 0;
    }

    method ReadU8() returns (r: Option<Byte>)
      requires Valid()
      modifies this
      ensures Valid()
      ensures old(pos) + 1 <= |data| ==> r == Some(data[old(pos)]) && pos == old(pos) + 1
      ensures old(pos) + 1 > |data| ==> r == None && pos == old(pos)
    {
      if pos + 1 <= |data| {
        r := Some(data[pos]);
        pos := pos + 1;
      } else {
        r := None;
      }
    }

    method ReadNtohU16() returns (r: Option<U16>)
      requires Valid()
      modifies this
      ensures Valid()
      ensures old(pos) + 2 <= |data| ==> r == Some(U16Of(data[old(pos)..])) && pos == old(pos) + 2
      ensures old(pos) + 2 > |data| ==> r == None && pos == old(pos)
    {
      if pos + 2 <= |data| {
        r := Some(U16Of(data[pos..]));
        pos := pos + 2;
      } else {
        r := None;
      }
    }

    method ReadNtohU32() returns (r: Option<U32>)
      requires Valid()
      modifies this
      ensures Valid()
      ensures old(pos) + 4 <= |data| ==> r == Some(U32Of(data[old(pos)..])) && pos == old(pos) + 4
      ensures old(pos) + 4 > |data| ==> r == None && pos == old(pos)
    {
      if pos + 4 <= |data| {
        r := Some(U32Of(data[pos..]));
        pos := pos + 4;
      } else {
        r := None;
      }
    }
  }
}
