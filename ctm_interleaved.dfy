/**
 * CTM.InterleavedStream: the sink that LZMA output is written into.  The MG1
 * and MG2 writers store an array of `n`-element groups of 32-bit words as four
 * byte planes (all most significant bytes first on a little-endian host), and
 * within a plane byte `e` of every group in turn.  Writing the planes one
 * byte at a time scatters them back into the array's native layout.
 */
module CtmInterleaved {
  import opened JsInt
  import opened CtmStream

  /** A buffer of `len` bytes holding whole groups of `count` bytes (`count` = 4 * elements per group). */
  predicate Shape(len: int, count: int)
  {
    count >= 4 && count % 4 == 0 && len >= 0 && len % count == 0
  }

  /** The byte of a 32-bit word that plane `p` carries: planes run from the most significant byte down. */
  function Lane(p: int, littleEndian: bool): int
  {
    if littleEndian then 3 - p else p
  }

  /** The buffer offset that the `k`-th byte of the plane stream belongs at. */
  function PlaneOffset(k: int, len: int, count: int, littleEndian: bool): (r: int)
    requires Shape(len, count) && 0 <= k < len
    ensures 0 <= r < len
  {
    PartsInRange(k, len, count);
    var groups := len / count;
    var g := k % groups;
    var r := k / groups;
    var e := r % (count / 4);
    var lane := Lane(r / (count / 4), littleEndian);
    OffsetBound(g, e, lane, len, count);
    g * count + 4 * e + lane
  }

  /** The group, element and plane that `k` denotes are within their ranges. */
  lemma PartsInRange(k: int, len: int, count: int)
    requires Shape(len, count) && 0 <= k < len
    ensures len / count > 0
    ensures 0 <= k / (len / count) / (count / 4) < 4
  {
    var groups, n := len / count, count / 4;
    ShapeParts(len, count);
    if groups <= 0 {
      MulLe(count, groups, 0);
    }
    DivBelow(k, groups, 4 * n);
    DivBelow(k / groups, n, 4);
  }

  /** The buffer is `len / count` groups of `count / 4` words. */
  lemma ShapeParts(len: int, count: int)
    requires Shape(len, count)
    ensures len == (len / count) * count && len / count >= 0
    ensures count == 4 * (count / 4) && count / 4 >= 1
  {
    DivModParts(len, count);
    DivModParts(count, 4);
  }

  lemma OffsetBound(g: int, e: int, lane: int, len: int, count: int)
    requires Shape(len, count) && 0 <= g < len / count && 0 <= e < count / 4 && 0 <= lane < 4
    ensures 0 <= g * count + 4 * e + lane < len
  {
    ShapeParts(len, count);
    MixedRadixBelow(lane, 4, e, count / 4);
    MixedRadixBelow(4 * e + lane, count, g, len / count);
  }

  /** The position in the plane stream of the byte that belongs at buffer offset `o`. */
  function PlaneIndex(o: int, len: int, count: int, littleEndian: bool): int
    requires Shape(len, count) && 0 <= o < len
  {
    var groups := len / count;
    var w := o % count;
    o / count + groups * (w / 4 + (count / 4) * Lane(w % 4, littleEndian))
  }

  /** The offset update of writeByte. */
  function NextOffset(offset: int, len: int, count: int, littleEndian: bool): int
  {
    var o := offset + count;
    if o >= len then
      var o2 := o - (len - 4);
      if o2 >= count then o2 - (count + (if littleEndian then 1 else -1)) else o2
    else o
  }

  /** Stream position k stands for group g, element e and plane p. */
  lemma PlaneOffsetOf(g: int, e: int, p: int, len: int, count: int, littleEndian: bool)
    requires Shape(len, count) && len > 0
    requires 0 <= g < len / count && 0 <= e < count / 4 && 0 <= p < 4
    ensures 0 <= g + (len / count) * (e + (count / 4) * p) < len
    ensures PlaneOffset(g + (len / count) * (e + (count / 4) * p), len, count, littleEndian)
      == g * count + 4 * e + Lane(p, littleEndian)
  {
    var groups, n := len / count, count / 4;
    var r := e + n * p;
    var k := g + groups * r;
    ShapeParts(len, count);
    MixedRadixBelow(e, n, p, 4);
    MixedRadixBelow(g, groups, r, count);
    DivModUnique(k, groups, r, g);
    DivModUnique(r, n, p, e);
  }

  /** Buffer offset o stands for group g, element e and byte b. */
  lemma PlaneIndexOf(g: int, e: int, b: int, len: int, count: int, littleEndian: bool)
    requires Shape(len, count) && len > 0
    requires 0 <= g < len / count && 0 <= e < count / 4 && 0 <= b < 4
    ensures 0 <= g * count + 4 * e + b < len
    ensures PlaneIndex(g * count + 4 * e + b, len, count, littleEndian)
      == g + (len / count) * (e + (count / 4) * Lane(b, littleEndian))
  {
    var groups, n := len / count, count / 4;
    var o := g * count + 4 * e + b;
    ShapeParts(len, count);
    OffsetBound(g, e, b, len, count);
    MixedRadixBelow(b, 4, e, n);
    DivModUnique(o, count, g, 4 * e + b);
    DivModUnique(4 * e + b, 4, e, b);
  }

  /** Splits a stream position into group, element and plane. */
  lemma Decompose(k: int, len: int, count: int) returns (g: int, e: int, p: int)
    requires Shape(len, count) && 0 <= k < len
    ensures 0 <= g < len / count && 0 <= e < count / 4 && 0 <= p < 4
    ensures k == g + (len / count) * (e + (count / 4) * p)
  {
    var groups, n := len / count, count / 4;
    PartsInRange(k, len, count);
    var r := k / groups;
    g, e, p := k % groups, r % n, r / n;
    DivModParts(k, groups);
    DivModParts(r, n);
  }

  /** Splits a buffer offset into group, element and byte. */
  lemma DecomposeOffset(o: int, len: int, count: int) returns (g: int, e: int, b: int)
    requires Shape(len, count) && 0 <= o < len
    ensures 0 <= g < len / count && 0 <= e < count / 4 && 0 <= b < 4
    ensures o == g * count + 4 * e + b
  {
    var groups, n := len / count, count / 4;
    ShapeParts(len, count);
    var w := o % count;
    g, e, b := o / count, w / 4, w % 4;
    DivModParts(o, count);
    DivModParts(w, 4);
    DivBelow(o, count, groups);
  }

  /** PlaneOffset and PlaneIndex are inverse bijections of [0, len). */
  lemma {:induction false} PlaneBijection(len: int, count: int, littleEndian: bool)
    requires Shape(len, count)
    ensures forall k :: 0 <= k < len ==>
      0 <= PlaneOffset(k, len, count, littleEndian) < len
      && PlaneIndex(PlaneOffset(k, len, count, littleEndian), len, count, littleEndian) == k
    ensures forall o :: 0 <= o < len ==>
      0 <= PlaneIndex(o, len, count, littleEndian) < len
      && PlaneOffset(PlaneIndex(o, len, count, littleEndian), len, count, littleEndian) == o
  {
    forall k | 0 <= k < len
      ensures 0 <= PlaneOffset(k, len, count, littleEndian) < len
      ensures PlaneIndex(PlaneOffset(k, len, count, littleEndian), len, count, littleEndian) == k
    {
      var g, e, p := Decompose(k, len, count);
      PlaneOffsetOf(g, e, p, len, count, littleEndian);
      PlaneIndexOf(g, e, Lane(p, littleEndian), len, count, littleEndian);
    }
    forall o | 0 <= o < len
      ensures 0 <= PlaneIndex(o, len, count, littleEndian) < len
      ensures PlaneOffset(PlaneIndex(o, len, count, littleEndian), len, count, littleEndian) == o
    {
      var g, e, b := DecomposeOffset(o, len, count);
      PlaneIndexOf(g, e, b, len, count, littleEndian);
      PlaneOffsetOf(g, e, Lane(b, littleEndian), len, count, littleEndian);
    }
  }

  /** writeByte's offset update moves from the k-th target to the (k+1)-th. */
  lemma {:induction false} NextOffsetFollowsPlanes(k: int, len: int, count: int, littleEndian: bool)
    requires Shape(len, count) && 0 <= k && k + 1 < len
    ensures NextOffset(PlaneOffset(k, len, count, littleEndian), len, count, littleEndian)
      == PlaneOffset(k + 1, len, count, littleEndian)
  {
    var groups, n := len / count, count / 4;
    var g, e, p := Decompose(k, len, count);
    PlaneOffsetOf(g, e, p, len, count, littleEndian);
    if g + 1 < groups {
      NextInGroupRow(g, e, p, len, count, littleEndian);
    } else if e + 1 < n {
      NextElement(e, p, len, count, littleEndian);
    } else {
      NextPlane(p, len, count, littleEndian);
    }
  }

  /** Within a plane and element, the next byte is one group further on. */
  lemma NextInGroupRow(g: int, e: int, p: int, len: int, count: int, littleEndian: bool)
    requires Shape(len, count) && len > 0
    requires 0 <= g && g + 1 < len / count && 0 <= e < count / 4 && 0 <= p < 4
    ensures var k := g + (len / count) * (e + (count / 4) * p);
      0 <= k + 1 < len
      && NextOffset(g * count + 4 * e + Lane(p, littleEndian), len, count, littleEndian)
        == PlaneOffset(k + 1, len, count, littleEndian)
  {
    var groups, n := len / count, count / 4;
    var r := e + n * p;
    var lane := Lane(p, littleEndian);
    var o := g * count + 4 * e + lane;
    PlaneOffsetOf(g + 1, e, p, len, count, littleEndian);
    OffsetBound(g + 1, e, lane, len, count);
    assert (g + 1) * count == g * count + count;
    assert o + count < len;
    assert NextOffset(o, len, count, littleEndian) == o + count;
    assert g + groups * r + 1 == (g + 1) + groups * r;
  }

  /** After the last group, the next byte is the following element of the same plane. */
  lemma NextElement(e: int, p: int, len: int, count: int, littleEndian: bool)
    requires Shape(len, count) && len > 0
    requires 0 <= e && e + 1 < count / 4 && 0 <= p < 4
    ensures var g := len / count - 1;
      var k := g + (len / count) * (e + (count / 4) * p);
      0 <= k + 1 < len
      && NextOffset(g * count + 4 * e + Lane(p, littleEndian), len, count, littleEndian)
        == PlaneOffset(k + 1, len, count, littleEndian)
  {
    var lane := Lane(p, littleEndian);
    WrapsToFirstGroup(len, count, 4 * e + lane, littleEndian);
    MulSucc(len / count, e + (count / 4) * p);
    PlaneOffsetOf(0, e + 1, p, len, count, littleEndian);
  }

  /** From byte `x` of the last group, writeByte's update wraps to byte `x + 4` of the first group. */
  lemma WrapsToFirstGroup(len: int, count: int, x: int, littleEndian: bool)
    requires Shape(len, count) && len > 0 && 0 <= x && x + 4 < count
    ensures NextOffset((len / count - 1) * count + x, len, count, littleEndian) == x + 4
  {
    ShapeParts(len, count);
    MulSucc(count, len / count - 1);
  }

  /** After the last group and element, the next byte starts the following plane. */
  lemma NextPlane(p: int, len: int, count: int, littleEndian: bool)
    requires Shape(len, count) && len > 0 && 0 <= p < 4
    requires var k := (len / count - 1) + (len / count) * (count / 4 - 1 + (count / 4) * p);
      k + 1 < len
    ensures var g := len / count - 1;
      var e := count / 4 - 1;
      var k := g + (len / count) * (e + (count / 4) * p);
      NextOffset(g * count + 4 * e + Lane(p, littleEndian), len, count, littleEndian)
        == PlaneOffset(k + 1, len, count, littleEndian)
  {
    var groups, n := len / count, count / 4;
    var g, e := groups - 1, n - 1;
    assert len == groups * count;
    assert g * count == len - count;
    var k := g + groups * (e + n * p);
    assert k + 1 == groups * (n * (p + 1)) by {
      assert e + n * p + 1 == n * (p + 1);
    }
    assert p + 1 < 4 by {
      if p + 1 >= 4 {
        MulLe(n, 4, p + 1);
        MulLe(groups, 4 * n, n * (p + 1));
      }
    }
    assert k + 1 == 0 + groups * (0 + n * (p + 1));
    PlaneOffsetOf(0, 0, p + 1, len, count, littleEndian);
  }

  /** The buffer that results once the whole plane stream `w` has been written. */
  function Deinterleave(w: seq<byte>, count: int, littleEndian: bool): (r: seq<byte>)
    requires Shape(|w|, count)
    ensures |r| == |w|
  {
    PlaneBijection(|w|, count, littleEndian);
    seq(|w|, o requires 0 <= o < |w| => w[PlaneIndex(o, |w|, count, littleEndian)])
  }

  class InterleavedStream {
    const data: array<byte>
    const count: int
    const len: int
    const littleEndian: bool
    var offset: int
    /** Every byte written so far, in order. */
    ghost var Written: seq<byte>

    /** The constructor's view: `n` interleaved elements per group over the bytes of `data`. */
    constructor (data: array<byte>, n: int, littleEndian: bool)
      ensures this.data == data && count == 4 * n && len == data.Length
      ensures this.littleEndian == littleEndian
      ensures offset == (if littleEndian then 3 else 0) && Written == []
    {
      this.data := data;
      this.count := 4 * n;
      this.len := data.Length;
      this.littleEndian := littleEndian;
      offset := if littleEndian then 3 else 0;
      Written := [];
    }

    /**
     * Each byte written so far sits where its plane position maps it, and the
     * offset is the target of the next one.
     */
    ghost predicate Scattered()
      reads this, data
    {
      Shape(len, count) && len == data.Length && |Written| <= len
      && (|Written| < len ==> offset == PlaneOffset(|Written|, len, count, littleEndian))
      && forall k :: 0 <= k < |Written| ==>
           data[PlaneOffset(k, len, count, littleEndian)] == Written[k]
    }

    /** A fresh stream over a buffer of whole groups starts out scattering correctly. */
    lemma StartsScattered()
      requires Shape(len, count) && len == data.Length && Written == []
      requires offset == (if littleEndian then 3 else 0)
      ensures Scattered()
    {
      if len > 0 {
        PlaneOffsetOf(0, 0, 0, len, count, littleEndian);
      }
    }

    method WriteByte(value: byte)
      modifies this, data
      ensures Written == old(Written) + [value]
      ensures offset == NextOffset(old(offset), len, count, littleEndian)
      ensures data[..] == if 0 <= old(offset) < data.Length then old(data[..])[old(offset) := value] else old(data[..])
      ensures old(Scattered()) && old(|Written|) < len ==> Scattered()
    {
      ghost var k := |Written|;
      ghost var wasScattered := Scattered();
      if 0 <= offset < data.Length {
        data[offset] := value;
      }
      Written := Written + [value];
      offset := NextOffset(offset, len, count, littleEndian);
      if wasScattered && k < len {
        PlaneBijection(len, count, littleEndian);
        if k + 1 < len {
          NextOffsetFollowsPlanes(k, len, count, littleEndian);
        }
        forall j | 0 <= j < |Written|
          ensures data[PlaneOffset(j, len, count, littleEndian)] == Written[j]
        {
          if j < k {
            assert PlaneIndex(PlaneOffset(j, len, count, littleEndian), len, count, littleEndian) == j;
          }
        }
      }
    }

    /** Once a whole buffer's worth has been written, the buffer holds the de-interleaved stream. */
    lemma Complete()
      requires Scattered() && |Written| == len
      ensures data[..] == Deinterleave(Written, count, littleEndian)
    {
      PlaneBijection(len, count, littleEndian);
      forall o | 0 <= o < len
        ensures data[o] == Written[PlaneIndex(o, len, count, littleEndian)]
      {
        var k := PlaneIndex(o, len, count, littleEndian);
        assert data[PlaneOffset(k, len, count, littleEndian)] == Written[k];
      }
    }
  }

  /** Writes a whole plane stream of exactly the buffer's length and yields its native layout. */
  method WriteAll(s: InterleavedStream, bytes: seq<byte>)
    requires s.Scattered() && s.Written == [] && |bytes| == s.len
    modifies s, s.data
    ensures s.data[..] == Deinterleave(bytes, s.count, s.littleEndian)
  {
    var i := 0;
    while i < |bytes|
      invariant 0 <= i <= |bytes|
      invariant s.Scattered() && s.Written == bytes[..i]
    {
      s.WriteByte(bytes[i]);
      i := i + 1;
    }
    assert bytes[..i] == bytes;
    s.Complete();
  }

  // ----- the words a restore pass reads back -----

  /** An array of 32-bit words in a little-endian host's memory: four bytes per word, least significant first. */
  function NativeBytes(words: seq<uint32>): (r: seq<byte>)
    ensures |r| == 4 * |words|
  {
    seq(4 * |words|, o requires 0 <= o < 4 * |words| => EncodeInt32(words[o / 4])[o % 4])
  }

  /** The plane stream a writer emits for a native layout: byte k is the one that belongs at offset PlaneOffset(k). */
  function Interleave(native: seq<byte>, count: int, littleEndian: bool): (r: seq<byte>)
    requires Shape(|native|, count)
    ensures |r| == |native|
  {
    seq(|native|, k requires 0 <= k < |native| => native[PlaneOffset(k, |native|, count, littleEndian)])
  }

  /** De-interleaving undoes the writer's interleaving. */
  lemma DeinterleaveInterleave(native: seq<byte>, count: int, littleEndian: bool)
    requires Shape(|native|, count)
    ensures Deinterleave(Interleave(native, count, littleEndian), count, littleEndian) == native
  {
    var len := |native|;
    PlaneBijection(len, count, littleEndian);
    var w := Interleave(native, count, littleEndian);
    forall o | 0 <= o < len
      ensures Deinterleave(w, count, littleEndian)[o] == native[o]
    {
      var k := PlaneIndex(o, len, count, littleEndian);
      assert w[k] == native[PlaneOffset(k, len, count, littleEndian)];
    }
  }

  /** The four bytes of a word read back as that word. */
  lemma WordReadBack(words: seq<uint32>, i: int)
    requires 0 <= i < |words|
    ensures Word32At(NativeBytes(words), 4 * i) == words[i]
  {
    var data := NativeBytes(words);
    forall b | 0 <= b < 4 ensures ByteAt(data, 4 * i + b) == EncodeInt32(words[i])[b] {
      DivModUnique(4 * i + b, 4, i, b);
    }
    EncodedWord(words[i], data, 4 * i);
  }

  /** Four bytes that EncodeInt32 gives for a word, wherever they sit, read back as the word. */
  lemma EncodedWord(u: uint32, data: seq<byte>, o: int)
    requires forall b :: 0 <= b < 4 ==> ByteAt(data, o + b) == EncodeInt32(u)[b]
    ensures Word32At(data, o) == u
  {
    assert ByteAt(data, o) == EncodeInt32(u)[0];
    assert ByteAt(data, o + 1) == EncodeInt32(u)[1];
    assert ByteAt(data, o + 2) == EncodeInt32(u)[2];
    assert ByteAt(data, o + 3) == EncodeInt32(u)[3];
    assert u / TWO16 == (u / TWO8) / 256;
    assert u / TWO24 == (u / TWO16) / 256;
  }

  /**
   * A plane stream written whole into an interleaved stream over a
   * little-endian buffer leaves every word of the array where the
   * Uint32Array view of the same buffer reads it: word i at byte 4i.
   */
  lemma WrittenWordsReadBack(words: seq<uint32>, count: int)
    requires Shape(4 * |words|, count)
    ensures var data := Deinterleave(Interleave(NativeBytes(words), count, true), count, true);
      forall i :: 0 <= i < |words| ==> Word32At(data, 4 * i) == words[i]
  {
    DeinterleaveInterleave(NativeBytes(words), count, true);
    forall i | 0 <= i < |words| ensures Word32At(NativeBytes(words), 4 * i) == words[i] {
      WordReadBack(words, i);
    }
  }
}
