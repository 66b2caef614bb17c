/**
 * The adaptive binary range decoder of the LZMA SDK as LZMA.RangeDecoder
 * runs it, its 11-bit probability models, and the bit-tree decoders built
 * on it.
 *
 * `_code` and `_range` are JavaScript numbers that the decoder only ever
 * reads through 32-bit operators (`>>>`, `&`, `^`, `<<`); the subtractions it
 * performs never leave the register's residue class. Both registers are
 * therefore modelled as their unsigned 32-bit value.
 */
module LzmaRange {
  import opened JsInt
  import opened CtmStream

  /** The value initBitModels gives every probability: one half, out of 2048. */
  const PROB_INIT: int := 1024

  /** The bounds between which adaptation keeps every probability. */
  const PROB_MIN: int := 31
  const PROB_MAX: int := 2017

  /** A range below 2^24 is shifted up by a byte before the next bit. */
  const TOP: int := 0x100_0000

  predicate ProbOk(p: int)
  {
    PROB_MIN <= p <= PROB_MAX
  }

  /**
   * A probability of a 0, in 2048ths, as the decoder's arrays hold them:
   * adaptation never leaves the bounds (AdaptKeepsBounds), so the bound is
   * carried by the element type of every array of models.
   */
  type prob = p: int | ProbOk(p) witness PROB_INIT

  /** The update of decodeBit: a 0 moves the probability of 0 up by 1/32 of its distance to 2048, a 1 down by 1/32 of itself. */
  function Adapt(p: int, bit: int): int
  {
    if bit == 0 then p + (2048 - p) / 32 else p - p / 32
  }

  /** Adaptation keeps the probability within bounds and moves it towards the bit it saw. */
  lemma AdaptKeepsBounds(p: int, bit: int)
    requires ProbOk(p)
    ensures ProbOk(Adapt(p, bit))
    ensures bit == 0 ==> Adapt(p, bit) >= p
    ensures bit != 0 ==> Adapt(p, bit) <= p
    ensures p < PROB_MAX && bit == 0 && 2048 - p >= 32 ==> Adapt(p, bit) > p
  {
  }

  /** The split point of decodeBit: the part of the range that codes a 0. */
  function Bound(range: uint32, p: int): int
  {
    (range / 2048) * p
  }

  /** The 32-bit code register after shifting in one more input byte. */
  function ShiftIn(code: uint32, b: byte): uint32
  {
    (code * 256 + b) % TWO32
  }

  /** A normalized range leaves both parts of the split at least 2^17 wide. */
  lemma SplitWidth(range: uint32, p: int)
    requires range >= TOP && ProbOk(p)
    ensures TWO16 < Bound(range, p) < range
    ensures TWO16 < range - Bound(range, p)
  {
    var q := range / 2048;
    assert q >= 0x2000;
    MulLe(q, PROB_MIN, p);
    MulLe(q, p, 2048 - PROB_MIN);
    assert q * 2048 <= range;
    assert range - q * p >= q * 2048 - q * p == q * (2048 - p);
    MulLe(q, PROB_MIN, 2048 - p);
  }

  /** The value of bits read most significant first: the result of a bit-tree decode. */
  function MsbValue(bits: seq<int>): int
  {
    if bits == [] then 0 else 2 * MsbValue(bits[..|bits| - 1]) + bits[|bits| - 1]
  }

  /** The value of bits read least significant first: the result of a reverse bit-tree decode. */
  function LsbValue(bits: seq<int>): int
  {
    if bits == [] then 0 else bits[0] + 2 * LsbValue(bits[1..])
  }

  predicate IsBits(bits: seq<int>)
  {
    forall i :: 0 <= i < |bits| ==> 0 <= bits[i] <= 1
  }

  function Reverse(bits: seq<int>): (r: seq<int>)
    ensures |r| == |bits|
    ensures forall i :: 0 <= i < |bits| ==> r[i] == bits[|bits| - 1 - i]
  {
    if bits == [] then [] else Reverse(bits[1..]) + [bits[0]]
  }

  /** n bits hold a value below 2^n. */
  lemma {:induction false} MsbValueBound(bits: seq<int>)
    requires IsBits(bits)
    ensures 0 <= MsbValue(bits) < Pow2(|bits|)
    decreases |bits|
  {
    if bits != [] {
      MsbValueBound(bits[..|bits| - 1]);
    }
  }

  /** Reading bits least significant first is reading their reversal most significant first. */
  lemma {:induction false} LsbIsReversedMsb(bits: seq<int>)
    ensures LsbValue(bits) == MsbValue(Reverse(bits))
    decreases |bits|
  {
    if bits != [] {
      LsbIsReversedMsb(bits[1..]);
      var r := Reverse(bits);
      assert r[..|r| - 1] == Reverse(bits[1..]);
    }
  }

  /** Appending a bit at the low end, as `(m << 1) | bit` does. */
  lemma MsbAppend(bits: seq<int>, b: int)
    ensures MsbValue(bits + [b]) == 2 * MsbValue(bits) + b
  {
    assert (bits + [b])[..|bits|] == bits;
  }

  /** Adding a bit at position |bits|, as `symbol |= bit << i` does. */
  lemma {:induction false} LsbAppend(bits: seq<int>, b: int)
    ensures LsbValue(bits + [b]) == LsbValue(bits) + b * Pow2(|bits|)
    decreases |bits|
  {
    if bits != [] {
      assert (bits + [b])[1..] == bits[1..] + [b];
      LsbAppend(bits[1..], b);
    }
  }

  /** LZMA.initBitModels: the first len probabilities set to one half. */
  method InitBitModels(probs: array<prob>, len: nat)
    requires len <= probs.Length
    modifies probs
    ensures forall i :: 0 <= i < len ==> probs[i] == PROB_INIT
    ensures forall i :: len <= i < probs.Length ==> probs[i] == old(probs[i])
  {
    var n := len;
    while n > 0
      invariant 0 <= n <= len
      invariant forall i :: n <= i < len ==> probs[i] == PROB_INIT
      invariant forall i :: len <= i < probs.Length ==> probs[i] == old(probs[i])
    {
      n := n - 1;
      probs[n] := PROB_INIT;
    }
  }

  /** Shifting five bytes into an empty register keeps the last four, the first most significant. */
  lemma ShiftInFive(b0: byte, b1: byte, b2: byte, b3: byte, b4: byte)
    ensures ShiftIn(ShiftIn(ShiftIn(ShiftIn(ShiftIn(0, b0), b1), b2), b3), b4)
      == TWO24 * b1 + TWO16 * b2 + TWO8 * b3 + b4
  {
    var c := TWO24 * b0 + TWO16 * b1 + TWO8 * b2 + b3;
    assert ShiftIn(0, b0) == b0;
    assert ShiftIn(b0, b1) == TWO8 * b0 + b1;
    assert ShiftIn(TWO8 * b0 + b1, b2) == TWO16 * b0 + TWO8 * b1 + b2;
    assert ShiftIn(TWO16 * b0 + TWO8 * b1 + b2, b3) == c;
    DivModUnique(c * 256 + b4, TWO32, b0, TWO24 * b1 + TWO16 * b2 + TWO8 * b3 + b4);
  }

  // ----- the range decoder on values -----

  /** The two registers of a range decoder and the offset of the next byte it reads. */
  datatype RangeState = RangeState(code: uint32, range: uint32, offset: int)

  /** The shift after a bit: a range below 2^24 takes the next input byte into the code and grows by 256. */
  function NormalizeState(code: uint32, range: int, offset: int, data: seq<byte>): (s: RangeState)
    requires TWO16 < range < TWO32
    ensures s.range >= TOP
    ensures s.offset == offset + (if range < TOP then 1 else 0)
  {
    if range < TOP then RangeState(ShiftIn(code, ByteAt(data, offset)), range * 256, offset + 1)
    else RangeState(code, range, offset)
  }

  /** The bit decodeBit gives with probability p: 0 exactly when the code lies below the split. */
  function BitOf(s: RangeState, p: int): (bit: int)
    ensures bit == 0 || bit == 1
  {
    if s.code < Bound(s.range, p) then 0 else 1
  }

  /**
   * The registers after decodeBit: the part of the range of the decoded bit
   * (the code moved down with it for a 1), then the normalizing shift.
   */
  function AfterBit(s: RangeState, p: prob, data: seq<byte>): (s': RangeState)
    requires s.range >= TOP
    ensures s'.range >= TOP
    ensures s.offset <= s'.offset <= s.offset + 1
  {
    var nb := Bound(s.range, p);
    SplitWidth(s.range, p);
    if s.code < nb then NormalizeState(s.code, nb, s.offset, data)
    else NormalizeState(s.code - nb, s.range - nb, s.offset, data)
  }

  /** What a walk down a tree produces: the bits, the registers after them and the adapted models. */
  datatype Walked = Walked(bits: seq<int>, after: RangeState, models: seq<prob>)

  /** A walk that starts with the given bits, then goes on as w. */
  function Prepend(bits: seq<int>, w: Walked): (r: Walked)
    ensures r.bits == bits + w.bits && r.after == w.after && r.models == w.models
  {
    Walked(bits + w.bits, w.after, w.models)
  }

  /** Nothing in front of a walk leaves it as it is. */
  lemma PrependNothing(w: Walked)
    ensures Prepend([], w) == w
  {
    assert [] + w.bits == w.bits;
  }

  lemma PrependPrepend(a: seq<int>, b: seq<int>, w: Walked)
    ensures Prepend(a, Prepend(b, w)) == Prepend(a + b, w)
  {
    assert a + (b + w.bits) == (a + b) + w.bits;
  }

  /**
   * The walk of decode, reverseDecode, reverseDecode2 and decodeNormal on
   * values: from node m of a tree whose models are models[start + 1..], n
   * more bits, each decoded with the model at start + m, which it adapts to
   * the bit, the next node being 2m + bit.  (An index outside the models,
   * which none of those callers reaches, reads one half and adapts nothing.)
   */
  function TreeWalk(data: seq<byte>, s: RangeState, models: seq<prob>, start: int, m: int, n: nat): (w: Walked)
    requires s.range >= TOP
    ensures |w.bits| == n && IsBits(w.bits) && w.after.range >= TOP && |w.models| == |models|
    ensures s.offset <= w.after.offset <= s.offset + n
    decreases n, 1
  {
    if n == 0 then Walked([], s, models) else TreeBit(data, s, models, start, m, n)
  }

  /** The first bit of a TreeWalk with bits still to come, and the walk from the next node. */
  function TreeBit(data: seq<byte>, s: RangeState, models: seq<prob>, start: int, m: int, n: nat): (w: Walked)
    requires s.range >= TOP && n > 0
    ensures |w.bits| == n && IsBits(w.bits) && w.after.range >= TOP && |w.models| == |models|
    ensures s.offset <= w.after.offset <= s.offset + n
    decreases n, 0
  {
    var i := start + m;
    var p: prob := if 0 <= i < |models| then models[i] else PROB_INIT;
    var bit := BitOf(s, p);
    AdaptKeepsBounds(p, bit);
    var models' := if 0 <= i < |models| then models[i := Adapt(p, bit)] else models;
    Prepend([bit], TreeWalk(data, AfterBit(s, p, data), models', start, 2 * m + bit, n - 1))
  }

  /** One step of a walk whose next model lies within the models. */
  lemma TreeWalkStep(data: seq<byte>, s: RangeState, models: seq<prob>, start: int, m: int, n: nat)
    requires s.range >= TOP && n > 0 && 0 <= start + m < |models|
    ensures var p := models[start + m]; var bit := BitOf(s, p);
      ProbOk(Adapt(p, bit)) &&
      TreeWalk(data, s, models, start, m, n)
        == Prepend([bit], TreeWalk(data, AfterBit(s, p, data), models[start + m := Adapt(p, bit)], start, 2 * m + bit, n - 1))
  {
    AdaptKeepsBounds(models[start + m], BitOf(s, models[start + m]));
  }

  /** The children of node m start at 2m, and their subtrees end where m's does. */
  lemma SubtreeBound(m: int, m': int, n: nat)
    requires m >= 1 && n >= 1 && 2 * m <= m' <= 2 * m + 1
    ensures (m' + 1) * Pow2(n - 1) <= (m + 1) * Pow2(n)
    ensures 2 * m < (m + 1) * Pow2(n)
  {
    assert Pow2(n) == 2 * Pow2(n - 1);
    MulLe(Pow2(n - 1), m' + 1, 2 * m + 2);
    MulLe(m + 1, 2, Pow2(n));
  }

  /**
   * A walk from node m >= 1 only adapts the models of m's subtree: none
   * below start + m, and none from start + (m + 1) * 2^(n - 1) on.
   */
  lemma {:induction false} TreeWalkSubtree(data: seq<byte>, s: RangeState, models: seq<prob>, start: int, m: int, n: nat)
    requires s.range >= TOP && m >= 1
    ensures var w := TreeWalk(data, s, models, start, m, n);
      forall j :: 0 <= j < |models| && (j < start + m || 2 * (j - start) >= (m + 1) * Pow2(n)) ==> w.models[j] == models[j]
    decreases n
  {
    if n > 0 {
      var i := start + m;
      var p: prob := if 0 <= i < |models| then models[i] else PROB_INIT;
      var bit := BitOf(s, p);
      AdaptKeepsBounds(p, bit);
      var models' := if 0 <= i < |models| then models[i := Adapt(p, bit)] else models;
      var m' := 2 * m + bit;
      var rest := TreeWalk(data, AfterBit(s, p, data), models', start, m', n - 1);
      assert TreeWalk(data, s, models, start, m, n).models == rest.models;
      TreeWalkSubtree(data, AfterBit(s, p, data), models', start, m', n - 1);
      SubtreeBound(m, m', n);
      forall j | 0 <= j < |models| && (j < start + m || 2 * (j - start) >= (m + 1) * Pow2(n))
        ensures rest.models[j] == models[j]
      {
        assert j != i;
        assert models'[j] == models[j];
      }
    }
  }

  /**
   * A whole tree walk, from the root, only adapts the tree's own models,
   * models[start + 1] to models[start + 2^n - 1]: trees laid out side by
   * side in one array, as reverseDecode2 lays the position slots, do not
   * disturb each other.
   */
  lemma TreeWalkFrame(data: seq<byte>, s: RangeState, models: seq<prob>, start: int, n: nat)
    requires s.range >= TOP
    ensures var w := TreeWalk(data, s, models, start, 1, n);
      forall j :: 0 <= j < |models| && !(start < j < start + Pow2(n)) ==> w.models[j] == models[j]
  {
    TreeWalkSubtree(data, s, models, start, 1, n);
  }

  /**
   * decodeDirectBits on values: n bits at probability one half, most
   * significant first.  The range is halved; the bit is 1 when the code is
   * at least the half, which is then taken off the code.
   */
  function DirectWalk(data: seq<byte>, s: RangeState, n: nat): (w: (seq<int>, RangeState))
    requires s.range >= TOP
    ensures |w.0| == n && IsBits(w.0) && w.1.range >= TOP
    decreases n
  {
    if n == 0 then ([], s)
    else
      var range := s.range / 2;
      var t := if (s.code - range) % TWO32 >= TWO31 then 1 else 0;
      var code: uint32 := if t == 0 then (s.code - range) % TWO32 else s.code;
      var rest := DirectWalk(data, NormalizeState(code, range, s.offset, data), n - 1);
      ([1 - t] + rest.0, rest.1)
  }

  /** While the code stays below the range, a direct bit is 1 exactly when the code lies in the upper half. */
  lemma DirectBitIsUpperHalf(data: seq<byte>, s: RangeState, n: nat)
    requires s.range >= TOP && s.code < s.range && n > 0
    ensures DirectWalk(data, s, n).0[0] == (if s.code >= s.range / 2 then 1 else 0)
  {
    var range := s.range / 2;
    if s.code >= range {
      DivModUnique(s.code - range, TWO32, 0, s.code - range);
    } else {
      DivModUnique(s.code - range, TWO32, -1, s.code - range + TWO32);
    }
  }

  class RangeDecoder {
    var code: uint32
    var range: uint32
    var stream: Stream

    /** The range decoder's invariant between two decoded bits. */
    predicate Normalized()
      reads this
    {
      range >= TOP
    }

    /** The registers and the stream offset, as a value. */
    ghost function State(): RangeState
      reads this, stream
    {
      RangeState(code, range, stream.offset)
    }

    constructor (stream: Stream)
      ensures this.stream == stream && code == 0 && range == TWO32 - 1
    {
      this.stream := stream;
      code := 0;
      range := TWO32 - 1;
    }

    /**
     * init: five bytes shifted into the code register, of which the first
     * falls out; the range spans all 32 bits.
     */
    method Init()
      modifies this, stream
      ensures stream == old(stream) && stream.offset == old(stream.offset) + 5
      ensures range == TWO32 - 1 && Normalized()
      ensures var d, o := stream.data, old(stream.offset);
        code == TWO24 * ByteAt(d, o + 1) + TWO16 * ByteAt(d, o + 2) + TWO8 * ByteAt(d, o + 3) + ByteAt(d, o + 4)
    {
      code := 0;
      range := TWO32 - 1;
      var b0 := stream.ReadByte();
      var b1 := stream.ReadByte();
      var b2 := stream.ReadByte();
      var b3 := stream.ReadByte();
      var b4 := stream.ReadByte();
      ShiftInFive(b0, b1, b2, b3, b4);
      code := ShiftIn(ShiftIn(ShiftIn(ShiftIn(ShiftIn(code, b0), b1), b2), b3), b4);
    }

    /** The shift that follows a bit when the range has dropped below 2^24. */
    method Normalize()
      requires range > TWO16
      modifies this, stream
      ensures stream == old(stream) && Normalized()
      ensures State() == NormalizeState(old(code), old(range), old(stream.offset), stream.data)
    {
      if range < TOP {
        var b := stream.ReadByte();
        code := ShiftIn(code, b);
        range := range * 256;
      }
    }

    /**
     * decodeBit: decodes one bit with the probability at probs[index] and
     * adapts that probability to the bit.  A 0 is decoded exactly when the
     * code lies below the split of the range the probability gives; the
     * registers move as AfterBit says.
     */
    method DecodeBit(probs: array<prob>, index: int) returns (bit: int)
      requires 0 <= index < probs.Length && Normalized()
      modifies this, stream, probs
      ensures stream == old(stream) && Normalized()
      ensures bit == BitOf(old(State()), old(probs[index]))
      ensures State() == AfterBit(old(State()), old(probs[index]), stream.data)
      ensures probs[index] == Adapt(old(probs[index]), bit)
      ensures probs[..] == old(probs[..])[index := probs[index]]
    {
      var prob := probs[index];
      var newBound := (range / 2048) * prob;
      SplitWidth(range, prob);
      AdaptKeepsBounds(prob, 0);
      AdaptKeepsBounds(prob, 1);
      if code < newBound {
        range := newBound;
        probs[index] := Adapt(prob, 0);
        Normalize();
        return 0;
      }
      range := range - newBound;
      code := code - newBound;
      probs[index] := Adapt(prob, 1);
      Normalize();
      return 1;
    }

    /**
     * decodeDirectBits: n bits at probability one half, most significant
     * first, by halving the range for each; the result is their value.
     */
    method DecodeDirectBits(n: nat) returns (result: int)
      requires Normalized()
      modifies this, stream
      ensures stream == old(stream) && Normalized()
      ensures var w := DirectWalk(stream.data, old(State()), n); result == MsbValue(w.0) && State() == w.1
      ensures 0 <= result < Pow2(n)
    {
      result := 0;
      var i := 0;
      ghost var bits: seq<int> := [];
      ghost var w0 := DirectWalk(stream.data, State(), n);
      assert [] + w0.0 == w0.0;
      while i < n
        invariant 0 <= i <= n && Normalized() && stream == old(stream)
        invariant |bits| == i && IsBits(bits) && result == MsbValue(bits)
        invariant var w := DirectWalk(stream.data, State(), n - |bits|); w0 == (bits + w.0, w.1)
      {
        result, bits := DirectStep(n, result, bits, w0);
        i := i + 1;
      }
      assert bits == w0.0;
      MsbValueBound(bits);
    }

    /** The body of decodeDirectBits' loop: the range halved, one bit, and the normalizing shift. */
    method DirectStep(n: nat, result: int, ghost bits: seq<int>, ghost w0: (seq<int>, RangeState))
      returns (result': int, ghost bits': seq<int>)
      requires Normalized() && |bits| < n && IsBits(bits) && result == MsbValue(bits)
      requires var w := DirectWalk(stream.data, State(), n - |bits|); w0 == (bits + w.0, w.1)
      modifies this, stream
      ensures Normalized() && stream == old(stream)
      ensures |bits'| == |bits| + 1 && IsBits(bits') && result' == MsbValue(bits')
      ensures var w := DirectWalk(stream.data, State(), n - |bits'|); w0 == (bits' + w.0, w.1)
    {
      var bit := DirectBit(n - |bits|);
      result' := 2 * result + bit;
      ghost var w := DirectWalk(stream.data, State(), n - |bits| - 1);
      assert bits + ([bit] + w.0) == (bits + [bit]) + w.0;
      MsbAppend(bits, bit);
      bits' := bits + [bit];
    }

    /** One direct bit: the range halved, the bit, and the normalizing shift, as the first step of DirectWalk. */
    method DirectBit(ghost k: nat) returns (bit: int)
      requires Normalized() && k > 0
      modifies this, stream
      ensures Normalized() && stream == old(stream) && (bit == 0 || bit == 1)
      ensures var r := DirectWalk(stream.data, State(), k - 1);
        DirectWalk(stream.data, old(State()), k) == ([bit] + r.0, r.1)
    {
      ghost var s := State();
      range := range / 2;
      var t := if (code - range) % TWO32 >= TWO31 then 1 else 0;
      if t == 0 {
        code := (code - range) % TWO32;
      }
      Normalize();
      bit := 1 - t;
    }
  }

  /**
   * One bit of a tree walk: decodeBit with the model of node m.  When the
   * bits so far followed by the walk from m make up w0, so do the bits with
   * this one followed by the walk from its child.
   */
  method WalkBit(models: array<prob>, start: int, m: int, rd: RangeDecoder, n: nat, ghost bits: seq<int>, ghost w0: Walked)
    returns (bit: int)
    requires 0 <= start + m < models.Length && rd.Normalized() && |bits| < n
    requires w0 == Prepend(bits, TreeWalk(rd.stream.data, rd.State(), models[..], start, m, n - |bits|))
    modifies rd, rd.stream, models
    ensures rd.Normalized() && rd.stream == old(rd.stream) && (bit == 0 || bit == 1)
    ensures w0 == Prepend(bits + [bit], TreeWalk(rd.stream.data, rd.State(), models[..], start, 2 * m + bit, n - |bits + [bit]|))
  {
    TreeWalkStep(rd.stream.data, rd.State(), models[..], start, m, n - |bits|);
    bit := rd.DecodeBit(models, start + m);
    PrependPrepend(bits, [bit], TreeWalk(rd.stream.data, rd.State(), models[..], start, 2 * m + bit, n - |bits + [bit]|));
  }

  /**
   * The body of the tree loops, `m = (m << 1) | decodeBit(models, start + m)`:
   * node m is the bits so far behind a leading 1, and the walk they began
   * goes on from the child the new bit chooses.
   */
  method TreeStep(models: array<prob>, start: int, rd: RangeDecoder, n: nat, m: int, ghost bits: seq<int>, ghost w0: Walked)
    returns (bit: int, m': int, ghost bits': seq<int>)
    requires 0 <= start + 1 && start + Pow2(n) <= models.Length && rd.Normalized()
    requires |bits| < n && IsBits(bits) && m == Pow2(|bits|) + MsbValue(bits)
    requires w0 == Prepend(bits, TreeWalk(rd.stream.data, rd.State(), models[..], start, m, n - |bits|))
    modifies rd, rd.stream, models
    ensures rd.Normalized() && rd.stream == old(rd.stream)
    ensures bits' == bits + [bit] && IsBits(bits') && m' == Pow2(|bits'|) + MsbValue(bits')
    ensures w0 == Prepend(bits', TreeWalk(rd.stream.data, rd.State(), models[..], start, m', n - |bits'|))
  {
    MsbValueBound(bits);
    Pow2Mono(|bits| + 1, n);
    bit := WalkBit(models, start, m, rd, n, bits, w0);
    MsbAppend(bits, bit);
    m' := 2 * m + bit;
    bits' := bits + [bit];
  }

  /** LZMA.BitTreeDecoder: 2^numBitLevels probabilities addressed by the bits decoded so far. */
  class BitTreeDecoder {
    const numBitLevels: nat
    const models: array<prob>

    /** Room for the whole tree: 2^numBitLevels models, of which the first is unused. */
    ghost predicate Valid()
    {
      models.Length == Pow2(numBitLevels)
    }

    /** The constructor: room for the models, which init sets. */
    constructor (numBitLevels: nat)
      ensures this.numBitLevels == numBitLevels && fresh(models) && Valid()
    {
      this.numBitLevels := numBitLevels;
      models := new prob[Pow2(numBitLevels)];
    }

    /** init: every model back to one half. */
    method Init()
      requires Valid()
      modifies models
      ensures forall i :: 0 <= i < models.Length ==> models[i] == PROB_INIT
    {
      InitBitModels(models, Pow2(numBitLevels));
    }

    /**
     * decode: numBitLevels bits, most significant first, each decoded with
     * the model of the path from the root; the result is their value.
     */
    method Decode(rd: RangeDecoder) returns (r: int)
      requires Valid() && rd.Normalized()
      modifies rd, rd.stream, models
      ensures rd.Normalized() && rd.stream == old(rd.stream)
      ensures var w := TreeWalk(rd.stream.data, old(rd.State()), old(models[..]), 0, 1, numBitLevels);
        r == MsbValue(w.bits) && rd.State() == w.after && models[..] == w.models
      ensures 0 <= r < Pow2(numBitLevels)
    {
      var m := 1;
      var i := 0;
      ghost var bits := [];
      ghost var w0 := TreeWalk(rd.stream.data, rd.State(), models[..], 0, 1, numBitLevels);
      assert [] + w0.bits == w0.bits;
      while i < numBitLevels
        invariant 0 <= i <= numBitLevels && |bits| == i && IsBits(bits)
        invariant m == Pow2(i) + MsbValue(bits)
        invariant rd.Normalized() && rd.stream == old(rd.stream)
        invariant w0 == Prepend(bits, TreeWalk(rd.stream.data, rd.State(), models[..], 0, m, numBitLevels - |bits|))
      {
        var bit;
        bit, m, bits := TreeStep(models, 0, rd, numBitLevels, m, bits, w0);
        i := i + 1;
      }
      assert w0.bits == bits + [];
      assert bits + [] == bits;
      MsbValueBound(bits);
      r := m - Pow2(numBitLevels);
    }

    /** reverseDecode: the same walk, with the bits taken least significant first. */
    method ReverseDecode(rd: RangeDecoder) returns (r: int)
      requires Valid() && rd.Normalized()
      modifies rd, rd.stream, models
      ensures rd.Normalized() && rd.stream == old(rd.stream)
      ensures var w := TreeWalk(rd.stream.data, old(rd.State()), old(models[..]), 0, 1, numBitLevels);
        r == LsbValue(w.bits) && rd.State() == w.after && models[..] == w.models
      ensures 0 <= r < Pow2(numBitLevels)
    {
      r := ReverseDecode2(models, 0, rd, numBitLevels);
    }
  }

  /**
   * LZMA.reverseDecode2: numBitLevels bits least significant first, with
   * the tree's models starting at models[startIndex + 1].
   */
  method ReverseDecode2(models: array<prob>, startIndex: int, rd: RangeDecoder, numBitLevels: nat) returns (r: int)
    requires 0 <= startIndex + 1 && startIndex + Pow2(numBitLevels) <= models.Length
    requires rd.Normalized()
    modifies rd, rd.stream, models
    ensures rd.Normalized() && rd.stream == old(rd.stream)
    ensures var w := TreeWalk(rd.stream.data, old(rd.State()), old(models[..]), startIndex, 1, numBitLevels);
      r == LsbValue(w.bits) && rd.State() == w.after && models[..] == w.models
    ensures 0 <= r < Pow2(numBitLevels)
  {
    var m := 1;
    var i := 0;
    r := 0;
    ghost var bits := [];
    ghost var w0 := TreeWalk(rd.stream.data, rd.State(), models[..], startIndex, 1, numBitLevels);
    assert [] + w0.bits == w0.bits;
    while i < numBitLevels
      invariant 0 <= i <= numBitLevels && |bits| == i && IsBits(bits)
      invariant m == Pow2(i) + MsbValue(bits)
      invariant r == LsbValue(bits)
      invariant rd.Normalized() && rd.stream == old(rd.stream)
      invariant w0 == Prepend(bits, TreeWalk(rd.stream.data, rd.State(), models[..], startIndex, m, numBitLevels - |bits|))
    {
      m, r, bits := ReverseStep(models, startIndex, rd, numBitLevels, i, m, r, bits, w0);
      i := i + 1;
    }
    assert w0.bits == bits + [];
    assert bits + [] == bits;
    LsbIsReversedMsb(bits);
    MsbValueBound(Reverse(bits));
  }

  /** The body of reverseDecode2's loop: bit i, decoded at node m, goes to position i of the symbol. */
  method ReverseStep(models: array<prob>, startIndex: int, rd: RangeDecoder, numBitLevels: nat,
    i: nat, m: int, r: int, ghost bits: seq<int>, ghost w0: Walked) returns (m': int, r': int, ghost bits': seq<int>)
    requires 0 <= startIndex + 1 && startIndex + Pow2(numBitLevels) <= models.Length
    requires i < numBitLevels && |bits| == i && IsBits(bits) && m == Pow2(i) + MsbValue(bits) && r == LsbValue(bits)
    requires rd.Normalized()
    requires w0 == Prepend(bits, TreeWalk(rd.stream.data, rd.State(), models[..], startIndex, m, numBitLevels - |bits|))
    modifies rd, rd.stream, models
    ensures |bits'| == i + 1 && IsBits(bits') && m' == Pow2(i + 1) + MsbValue(bits') && r' == LsbValue(bits')
    ensures rd.Normalized() && rd.stream == old(rd.stream)
    ensures w0 == Prepend(bits', TreeWalk(rd.stream.data, rd.State(), models[..], startIndex, m', numBitLevels - |bits'|))
  {
    var bit;
    bit, m', bits' := TreeStep(models, startIndex, rd, numBitLevels, m, bits, w0);
    LsbAppend(bits, bit);
    r' := r + bit * Pow2(i);
  }
}
