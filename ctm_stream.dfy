/**
 * CTM.Stream: the byte reader over an OpenCTM file.  Every multi-byte
 * quantity of the format is little-endian; a read past the end of the data
 * yields `undefined & 0xff`, that is 0.
 */
module CtmStream {
  import opened JsInt

  /** The byte at `off`, or 0 when `off` is outside the data. */
  function ByteAt(data: seq<byte>, off: int): byte
  {
    if 0 <= off < |data| then data[off] else 0
  }

  /** The unsigned value of the four little-endian bytes at `off`. */
  function Word32At(data: seq<byte>, off: int): (r: uint32)
  {
    ByteAt(data, off) + TWO8 * ByteAt(data, off + 1) + TWO16 * ByteAt(data, off + 2)
      + TWO24 * ByteAt(data, off + 3)
  }

  /**
   * The signed value readInt32 assembles at `off`.  Its `|` operations join
   * disjoint bit fields, so they add; `<< 24` leaves a signed 32-bit result.
   */
  function Int32At(data: seq<byte>, off: int): (r: int)
    ensures IsInt32(r) && ToUint32(r) == Word32At(data, off)
  {
    ToInt32(Word32At(data, off))
  }

  /** The four bytes an OpenCTM writer emits for a 32-bit integer. */
  function EncodeInt32(v: int): (r: seq<byte>)
    ensures |r| == 4
  {
    var u := ToUint32(v);
    [u % 256, (u / TWO8) % 256, (u / TWO16) % 256, u / TWO24]
  }

  /** Reading back what EncodeInt32 wrote yields the value, wherever it sits. */
  lemma Int32RoundTrip(prefix: seq<byte>, v: int, suffix: seq<byte>)
    requires IsInt32(v)
    ensures Int32At(prefix + EncodeInt32(v) + suffix, |prefix|) == v
    ensures Word32At(prefix + EncodeInt32(v) + suffix, |prefix|) == ToUint32(v)
  {
    var data := prefix + EncodeInt32(v) + suffix;
    var u := ToUint32(v);
    var o := |prefix|;
    assert ByteAt(data, o) == u % 256;
    assert ByteAt(data, o + 1) == (u / TWO8) % 256;
    assert ByteAt(data, o + 2) == (u / TWO16) % 256;
    assert ByteAt(data, o + 3) == u / TWO24;
    assert u / TWO16 == (u / TWO8) / 256;
    assert u / TWO24 == (u / TWO16) / 256;
    assert Word32At(data, o) == u;
  }

  /**
   * `TypedArray.prototype.subarray(begin, end)`: a negative index counts from
   * the end, both are clamped to the array, and an end before the begin gives
   * an empty view.
   */
  function Subarray(data: seq<byte>, begin: int, end: int): (r: seq<byte>)
    ensures |r| <= |data|
    ensures 0 <= begin <= end <= |data| ==> r == data[begin..end]
  {
    var b := RelativeIndex(begin, |data|);
    var e := RelativeIndex(end, |data|);
    if b <= e then data[b..e] else []
  }

  function RelativeIndex(i: int, len: nat): (r: nat)
    ensures r <= len
  {
    if i < 0 then Max(len + i, 0) else Min(i, len)
  }

  /** String.fromCharCode applied to bytes: one character per byte, code equal to the byte. */
  function Latin1(bytes: seq<byte>): (s: string)
    ensures |s| == |bytes| && forall i :: 0 <= i < |s| ==> s[i] as int == bytes[i]
  {
    seq(|bytes|, i requires 0 <= i < |bytes| => bytes[i] as char)
  }

  /** The bytes of a string whose characters are all below 256. */
  function Latin1Bytes(s: string): (r: seq<byte>)
    requires forall i :: 0 <= i < |s| ==> s[i] as int < 256
    ensures Latin1(r) == s
  {
    seq(|s|, i requires 0 <= i < |s| => s[i] as int)
  }

  /** What readString returns, and the offset after it, for a read starting at `off`. */
  function StringAt(data: seq<byte>, off: int): (string, int)
  {
    var len := Int32At(data, off);
    (Latin1(Subarray(data, off + 4, off + 4 + len)), off + 4 + len)
  }

  /** The writer's form of a string: its length as a 32-bit integer, then its bytes. */
  function EncodeString(s: string): (r: seq<byte>)
    requires |s| < TWO31
    requires forall i :: 0 <= i < |s| ==> s[i] as int < 256
    ensures |r| == 4 + |s|
  {
    EncodeInt32(|s|) + Latin1Bytes(s)
  }

  /** readString returns a string written by EncodeString and steps over it. */
  lemma {:induction false} StringRoundTrip(prefix: seq<byte>, s: string, suffix: seq<byte>)
    requires |s| < TWO31
    requires forall i :: 0 <= i < |s| ==> s[i] as int < 256
    ensures StringAt(prefix + EncodeString(s) + suffix, |prefix|) == (s, |prefix| + 4 + |s|)
  {
    var bytes := Latin1Bytes(s);
    var data := prefix + EncodeString(s) + suffix;
    assert data == prefix + EncodeInt32(|s|) + (bytes + suffix);
    Int32RoundTrip(prefix, |s|, bytes + suffix);
    var o := |prefix| + 4;
    assert |data| == o + |s| + |suffix|;
    assert data[o..o + |s|] == bytes by {
      forall i | 0 <= i < |s| ensures data[o + i] == bytes[i] {
        assert data[o + i] == (bytes + suffix)[i];
      }
    }
    assert Subarray(data, o, o + |s|) == bytes;
  }

  class Stream {
    const data: seq<byte>
    var offset: int

    constructor (data: seq<byte>)
      ensures this.data == data && offset == 0
    {
      this.data := data;
      offset := 0;
    }

    method ReadByte() returns (b: byte)
      modifies this
      ensures b == ByteAt(data, old(offset)) && offset == old(offset) + 1
    {
      b := ByteAt(data, offset);
      offset := offset + 1;
    }

    method ReadInt32() returns (v: int)
      modifies this
      ensures v == Int32At(data, old(offset)) && offset == old(offset) + 4
    {
      var b0 := ReadByte();
      var b1 := ReadByte();
      var b2 := ReadByte();
      var b3 := ReadByte();
      v := ToInt32(b0 + TWO8 * b1 + TWO16 * b2 + TWO24 * b3);
    }

    method ReadString() returns (s: string)
      modifies this
      ensures (s, offset) == StringAt(data, old(offset))
    {
      ghost var start := offset + 4;
      var len := ReadInt32();
      offset := offset + len;
      assert offset - len == start && offset == start + len;
      s := Latin1(Subarray(data, offset - len, offset));
    }

    /** Fills a Uint32Array with successive 32-bit integers (stored modulo 2^32). */
    method ReadArrayInt32(a: array<uint32>)
      modifies this, a
      ensures offset == old(offset) + 4 * a.Length
      ensures forall i :: 0 <= i < a.Length ==> a[i] == Word32At(data, old(offset) + 4 * i)
    {
      var i := 0;
      while i < a.Length
        invariant 0 <= i <= a.Length
        invariant offset == old(offset) + 4 * i
        invariant forall j :: 0 <= j < i ==> a[j] == Word32At(data, old(offset) + 4 * j)
      {
        var v := ReadInt32();
        a[i] := ToUint32(v);
        i := i + 1;
      }
    }
  }
}
