/**
 * LZMA.OutWindow: the LZ77 sliding window of the decoder.  Decoded bytes
 * go into a circular buffer of windowSize bytes, from which back-references
 * are copied, and the buffer is flushed into the output stream (an
 * InterleavedStream) whenever it fills up and at the end of decoding.
 *
 * The ghost `Output` is every byte put since init, and `Base` what the
 * stream had received before; the window's invariant ties the buffer to the
 * tail of `Output` and the stream to its flushed prefix.
 */
module LzmaWindow {
  import opened JsInt
  import opened CtmInterleaved

  /** An LZ77 back-reference: len more bytes, each a copy of the byte distance + 1 positions back. */
  function LzCopy(out: seq<byte>, distance: nat, len: nat): (r: seq<byte>)
    requires distance < |out|
    ensures |r| == |out| + len
    decreases len
  {
    if len == 0 then out else LzCopy(out + [out[|out| - 1 - distance]], distance, len - 1)
  }

  /** A copy keeps what was there and repeats, byte by byte, what lies distance + 1 back, overlapping copies included. */
  lemma {:induction false} LzCopyRepeats(out: seq<byte>, distance: nat, len: nat)
    requires distance < |out|
    ensures var r := LzCopy(out, distance, len);
      && r[..|out|] == out
      && forall i :: |out| <= i < |r| ==> r[i] == r[i - distance - 1]
    decreases len
  {
    if len > 0 {
      var next := out + [out[|out| - 1 - distance]];
      LzCopyRepeats(next, distance, len - 1);
      var r := LzCopy(out, distance, len);
      assert r[..|next|] == next;
      assert r[..|out|] == next[..|out|];
    }
  }

  /** Where the byte distance + 1 back sits in the circular buffer, the next write going to pos. */
  function Back(pos: int, windowSize: int, distance: int): int
  {
    if distance < pos then pos - 1 - distance else pos - 1 - distance + windowSize
  }

  class OutWindow {
    const windowSize: nat
    const buffer: array<byte>
    var pos: int
    var streamPos: int
    var stream: InterleavedStream

    ghost var Output: seq<byte>
    ghost var Base: seq<byte>

    /** The invariant, allowing the full buffer that putByte and copyBlock flush at once. */
    ghost predicate Holds()
      reads this, buffer, stream
    {
      && buffer.Length == windowSize > 0
      && buffer != stream.data
      && 0 <= streamPos <= pos <= windowSize
      && pos - streamPos <= |Output|
      && (forall d :: 0 <= d < |Output| && d < windowSize ==>
            buffer[Back(pos, windowSize, d)] == Output[|Output| - 1 - d])
      && stream.Written == Base + Output[..|Output| - (pos - streamPos)]
    }

    /** The invariant between two operations: the next write has room. */
    ghost predicate Valid()
      reads this, buffer, stream
    {
      Holds() && pos < windowSize
    }

    /** `new OutWindow()` followed by create(windowSize) and setStream. */
    constructor (windowSize: nat, stream: InterleavedStream)
      requires windowSize > 0
      ensures this.windowSize == windowSize && this.stream == stream && fresh(buffer)
      ensures Valid() && Output == [] && Base == stream.Written
    {
      this.windowSize := windowSize;
      buffer := new byte[windowSize];
      this.stream := stream;
      pos := 0;
      streamPos := 0;
      Output := [];
      Base := stream.Written;
    }

    /** init(false): the window starts empty. */
    method Init()
      requires buffer.Length == windowSize > 0 && buffer != stream.data
      modifies this
      ensures stream == old(stream) && Valid() && Output == [] && Base == stream.Written
    {
      pos := 0;
      streamPos := 0;
      Output := [];
      Base := stream.Written;
    }

    /**
     * flush: the bytes put since the last flush go to the stream in order;
     * a full buffer starts over at its beginning.
     */
    method Flush()
      requires Holds()
      modifies this, stream, stream.data
      ensures stream == old(stream) && Output == old(Output) && Base == old(Base)
      ensures Valid() && streamPos == pos
      ensures pos == (if old(pos) >= windowSize then 0 else old(pos))
      ensures stream.Written == Base + Output
      ensures old(stream.Scattered()) && |stream.Written| <= stream.len ==> stream.Scattered()
    {
      WriteOut();
      if pos >= windowSize {
        pos := 0;
        forall d | 0 <= d < |Output| && d < windowSize
          ensures buffer[Back(pos, windowSize, d)] == Output[|Output| - 1 - d]
        {
          assert Back(pos, windowSize, d) == Back(old(pos), windowSize, d);
        }
      }
      streamPos := pos;
    }

    /** The loop of flush: the buffered bytes from streamPos to pos go to the stream. */
    method WriteOut()
      requires Holds()
      modifies this`streamPos, stream, stream.data
      ensures stream == old(stream) && Holds() && streamPos == pos
      ensures stream.Written == Base + Output
      ensures old(stream.Scattered()) && |stream.Written| <= stream.len ==> stream.Scattered()
    {
      var size := pos - streamPos;
      ghost var wasScattered := stream.Scattered();
      while size > 0
        invariant 0 <= size == pos - streamPos && streamPos <= pos
        invariant stream == old(stream)
        invariant stream.Written == Base + Output[..|Output| - size]
        invariant wasScattered && |Base + Output| <= stream.len ==> stream.Scattered()
      {
        var d := pos - 1 - streamPos;
        assert buffer[Back(pos, windowSize, d)] == Output[|Output| - 1 - d];
        assert Output[..|Output| - size + 1] == Output[..|Output| - size] + [buffer[streamPos]];
        stream.WriteByte(buffer[streamPos]);
        streamPos := streamPos + 1;
        size := size - 1;
      }
      assert Output[..|Output|] == Output;
    }

    /** putByte: one more decoded byte. */
    method PutByte(b: byte)
      requires Valid()
      modifies this, buffer, stream, stream.data
      ensures stream == old(stream) && Base == old(Base) && Valid()
      ensures Output == old(Output) + [b]
      ensures pos == (if old(pos) + 1 == windowSize then 0 else old(pos) + 1)
      ensures old(stream.Scattered()) && |Base + Output| <= stream.len ==> stream.Scattered()
    {
      ghost var out := Output;
      ghost var p := pos;
      buffer[pos] := b;
      pos := pos + 1;
      Output := Output + [b];
      forall d | 0 <= d < |Output| && d < windowSize
        ensures buffer[Back(pos, windowSize, d)] == Output[|Output| - 1 - d]
      {
        if d > 0 {
          assert Back(pos, windowSize, d) == Back(p, windowSize, d - 1);
          assert Output[|Output| - 1 - d] == out[|out| - 1 - (d - 1)];
        }
      }
      assert Output[..|Output| - (pos - streamPos)] == out[..|out| - (p - streamPos)];
      if pos >= windowSize {
        Flush();
      }
    }

    /** getByte: the byte distance + 1 positions back, read through the circular buffer. */
    method GetByte(distance: nat) returns (b: byte)
      requires Valid()
      ensures distance < |Output| && distance < windowSize ==> b == Output[|Output| - 1 - distance]
    {
      var p := pos - distance - 1;
      if p < 0 {
        p := p + windowSize;
      }
      if distance < |Output| && distance < windowSize {
        assert p == Back(pos, windowSize, distance);
      }
      b := if 0 <= p < windowSize then buffer[p] else 0;
    }

    /**
     * copyBlock: len bytes copied from distance + 1 positions back, one at a
     * time, so that a copy may overlap the bytes it produces.
     */
    method CopyBlock(distance: nat, len: nat)
      requires Valid() && distance < |Output| && distance < windowSize
      modifies this, buffer, stream, stream.data
      ensures stream == old(stream) && Base == old(Base) && Valid()
      ensures Output == LzCopy(old(Output), distance, len)
      ensures old(stream.Scattered()) && |Base + Output| <= stream.len ==> stream.Scattered()
    {
      var p := pos - distance - 1;
      if p < 0 {
        p := p + windowSize;
      }
      var n := len;
      ghost var wasScattered := stream.Scattered();
      while n > 0
        invariant 0 <= n <= len && Valid() && stream == old(stream) && Base == old(Base)
        invariant distance < |Output| && |Output| == |old(Output)| + len - n
        invariant 0 <= p <= windowSize && (if p == windowSize then 0 else p) == Back(pos, windowSize, distance)
        invariant LzCopy(Output, distance, n) == LzCopy(old(Output), distance, len)
        invariant wasScattered && |Base| + |old(Output)| + len <= stream.len ==> stream.Scattered()
      {
        if p >= windowSize {
          p := 0;
        }
        CopyByte(distance, p);
        p := p + 1;
        n := n - 1;
      }
    }

    /** One step of copyBlock: `buffer[_pos++] = buffer[pos++]`, then the flush of a full buffer. */
    method CopyByte(distance: nat, p: int)
      requires Valid() && distance < |Output| && distance < windowSize
      requires p == Back(pos, windowSize, distance)
      modifies this, buffer, stream, stream.data
      ensures stream == old(stream) && Base == old(Base) && Valid()
      ensures Output == old(Output) + [old(Output)[|old(Output)| - 1 - distance]]
      ensures (if p + 1 == windowSize then 0 else p + 1) == Back(pos, windowSize, distance)
      ensures old(stream.Scattered()) && |Base + Output| <= stream.len ==> stream.Scattered()
    {
      BackAfterPut(pos, windowSize, distance);
      PutByte(buffer[p]);
    }
  }

  /** After a byte is put, the copy source moves one position on, wrapping at the end of the buffer. */
  lemma BackAfterPut(pos: int, windowSize: int, distance: int)
    requires 0 <= pos < windowSize && 0 <= distance < windowSize
    ensures var p, next := Back(pos, windowSize, distance), if pos + 1 == windowSize then 0 else pos + 1;
      (if p + 1 == windowSize then 0 else p + 1) == Back(next, windowSize, distance)
  {
  }
}
