/**
 * The pure parts of the LZMA decoder: the 12-state packet history, the four
 * rep distances, the distance slots, the literal-coder context and the
 * properties byte.
 */
module LzmaModel {
  import opened JsInt
  import opened CtmStream
  import opened Wrappers

  // ----- the state machine of Decoder.decode -----

  /** The four kinds of packet an LZMA stream is made of. */
  datatype Packet = Literal | Match | LongRep | ShortRep

  predicate IsState(s: int) { 0 <= s < 12 }

  /** The state after a packet: `state < 4 ? 0 : state - (state < 10 ? 3 : 6)` after a literal, and so on. */
  function NextState(s: int, p: Packet): (r: int)
    requires IsState(s)
    ensures IsState(r)
    ensures r < 7 <==> p == Literal
  {
    match p
    case Literal => if s < 4 then 0 else if s < 10 then s - 3 else s - 6
    case Match => if s < 7 then 7 else 10
    case LongRep => if s < 7 then 8 else 11
    case ShortRep => if s < 7 then 9 else 11
  }

  /** The state after a sequence of packets, starting from state 0. */
  function Run(ps: seq<Packet>): (r: int)
    ensures IsState(r)
  {
    if ps == [] then 0 else NextState(Run(ps[..|ps| - 1]), ps[|ps| - 1])
  }

  /**
   * The state remembers the last two packets: it is below 7 exactly when
   * the last packet was a literal (or there was none), and after a match or
   * a rep it names that packet and whether a literal came before it.
   */
  lemma {:induction false} StateRemembersLastPackets(ps: seq<Packet>)
    ensures Run(ps) < 7 <==> ps == [] || ps[|ps| - 1] == Literal
    ensures ps != [] && ps[|ps| - 1] != Literal ==>
      var afterLiteral := |ps| == 1 || ps[|ps| - 2] == Literal;
      Run(ps) == match ps[|ps| - 1]
        case Match => if afterLiteral then 7 else 10
        case LongRep => if afterLiteral then 8 else 11
        case _ => if afterLiteral then 9 else 11
  {
    if ps != [] {
      var init := ps[..|ps| - 1];
      StateRemembersLastPackets(init);
      if |ps| > 1 {
        assert init[|init| - 1] == ps[|ps| - 2];
      }
    }
  }

  /** Literals after a run of at least three literals, or at the start, leave the state at 0. */
  lemma {:induction false} LiteralsSettle(ps: seq<Packet>, k: nat)
    requires k <= |ps| && forall i :: |ps| - k <= i < |ps| ==> ps[i] == Literal
    requires k >= 4 || k == |ps|
    ensures Run(ps) == 0
    decreases k
  {
    if k > 0 {
      var init := ps[..|ps| - 1];
      assert forall i :: |init| - (k - 1) <= i < |init| ==> init[i] == ps[i];
      if k - 1 >= 4 || k - 1 == |init| {
        LiteralsSettle(init, k - 1);
      } else {
        // Three literals bring any state below 4.
        var s := Run(init[..|init| - 3]);
        assert init[..|init| - 1][..|init| - 2] == init[..|init| - 2];
        assert init[..|init| - 2][..|init| - 3] == init[..|init| - 3];
        assert Run(init[..|init| - 2]) == NextState(s, Literal);
        assert Run(init[..|init| - 1]) == NextState(NextState(s, Literal), Literal);
      }
    }
  }

  // ----- the rep distances -----

  /** rep0..rep3: the four most recently used match distances, most recent first. */
  datatype Reps = Reps(rep0: int, rep1: int, rep2: int, rep3: int)

  function RepList(r: Reps): seq<int>
  {
    [r.rep0, r.rep1, r.rep2, r.rep3]
  }

  /** Every rep distance is one a copy was checked against: none is negative. */
  predicate RepsOk(r: Reps)
  {
    r.rep0 >= 0 && r.rep1 >= 0 && r.rep2 >= 0 && r.rep3 >= 0
  }

  /** A normal match pushes its distance in front and drops rep3. */
  function AfterMatch(r: Reps, distance: int): (r': Reps)
    ensures RepList(r') == [distance] + RepList(r)[..3]
  {
    Reps(distance, r.rep0, r.rep1, r.rep2)
  }

  /** A rep match with rep n (the isRepG0/G1/G2 choices) moves that distance to the front. */
  function AfterRep(r: Reps, n: int): Reps
    requires 0 <= n < 4
  {
    match n
    case 0 => r
    case 1 => Reps(r.rep1, r.rep0, r.rep2, r.rep3)
    case 2 => Reps(r.rep2, r.rep0, r.rep1, r.rep3)
    case _ => Reps(r.rep3, r.rep0, r.rep1, r.rep2)
  }

  /** A rep match only reorders the distances, so none of them becomes negative. */
  lemma RepsOkAfterRep(r: Reps, n: int)
    requires RepsOk(r) && 0 <= n < 4
    ensures RepsOk(AfterRep(r, n))
  {
  }

  /** A rep match is a move to front: the chosen distance first, the others in their old order, none lost. */
  lemma RepIsMoveToFront(r: Reps, n: int)
    requires 0 <= n < 4
    ensures RepList(AfterRep(r, n)) == [RepList(r)[n]] + RepList(r)[..n] + RepList(r)[n + 1..]
    ensures multiset(RepList(AfterRep(r, n))) == multiset(RepList(r))
  {
    var l := RepList(r);
    var front := [l[n]] + l[..n] + l[n + 1..];
    if n == 0 {
      assert l[..0] == [] && l[1..] == [r.rep1, r.rep2, r.rep3];
      assert front == [r.rep0] + [] + [r.rep1, r.rep2, r.rep3];
      assert front == [r.rep0, r.rep1, r.rep2, r.rep3] == RepList(AfterRep(r, n));
    } else if n == 1 {
      assert l[..1] == [r.rep0] && l[2..] == [r.rep2, r.rep3];
      assert front == [r.rep1] + [r.rep0] + [r.rep2, r.rep3];
      assert front == [r.rep1, r.rep0, r.rep2, r.rep3] == RepList(AfterRep(r, n));
    } else if n == 2 {
      assert l[..2] == [r.rep0, r.rep1] && l[3..] == [r.rep3];
      assert front == [r.rep2] + [r.rep0, r.rep1] + [r.rep3];
      assert front == [r.rep2, r.rep0, r.rep1, r.rep3] == RepList(AfterRep(r, n));
    } else {
      assert l[..3] == [r.rep0, r.rep1, r.rep2] && l[4..] == [];
      assert front == [r.rep3] + [r.rep0, r.rep1, r.rep2] + [];
      assert front == [r.rep3, r.rep0, r.rep1, r.rep2] == RepList(AfterRep(r, n));
    }
    MoveToFrontPermutes(l, n);
  }

  /** Moving one element to the front of a sequence keeps its multiset. */
  lemma MoveToFrontPermutes(l: seq<int>, n: int)
    requires 0 <= n < |l|
    ensures multiset([l[n]] + l[..n] + l[n + 1..]) == multiset(l)
  {
    assert l == l[..n] + [l[n]] + l[n + 1..];
  }

  // ----- distance slots -----

  /** `(posSlot >> 1) - 1`: the number of low bits below a slot's two top bits. */
  function DirectBits(posSlot: int): int
  {
    posSlot / 2 - 1
  }

  /** `(2 | (posSlot & 1)) << numDirectBits`: the smallest distance of a slot, as a signed 32-bit value. */
  function SlotBase(posSlot: int): int
    requires 4 <= posSlot < 64
  {
    ToInt32((2 + posSlot % 2) * Pow2(DirectBits(posSlot)))
  }

  /**
   * The slots from 4 on tile the distances: slot 4 starts at 4, and each slot
   * covers 2^DirectBits distances, ending where the next one starts, up to
   * slot 61.  Slots 62 and 63 wrap to negative 32-bit values.
   */
  lemma SlotsTile(posSlot: int)
    requires 4 <= posSlot < 62
    ensures 0 < SlotBase(posSlot) && SlotBase(posSlot) + Pow2(DirectBits(posSlot)) <= TWO31
    ensures posSlot < 61 ==> SlotBase(posSlot) + Pow2(DirectBits(posSlot)) == SlotBase(posSlot + 1)
  {
    var k := DirectBits(posSlot);
    var v := Pow2(k);
    SlotBaseExact(posSlot);
    if posSlot < 61 {
      SlotBaseExact(posSlot + 1);
      if posSlot % 2 == 0 {
        assert (posSlot + 1) % 2 == 1 && DirectBits(posSlot + 1) == k;
      } else {
        assert (posSlot + 1) % 2 == 0 && DirectBits(posSlot + 1) == k + 1;
        assert Pow2(k + 1) == 2 * v;
      }
    }
  }

  /** Below slot 62 the shift does not reach the sign bit. */
  lemma SlotBaseExact(posSlot: int)
    requires 4 <= posSlot < 62
    ensures SlotBase(posSlot) == if posSlot % 2 == 0 then 2 * Pow2(DirectBits(posSlot)) else 3 * Pow2(DirectBits(posSlot))
    ensures 4 * Pow2(DirectBits(posSlot)) <= TWO31
  {
    var k := DirectBits(posSlot);
    Pow2Mono(k, 29);
    Pow2Values();
    var v := Pow2(k);
    assert 4 * v <= TWO31;
    if posSlot % 2 == 0 {
      assert (2 + posSlot % 2) * v == 2 * v;
    } else {
      assert (2 + posSlot % 2) * v == 3 * v;
    }
    assert IsInt32((2 + posSlot % 2) * v);
  }

  /** Slots 62 and 63 shift into the sign bit: their bases are -2^31 and -2^30. */
  lemma SlotBaseTop()
    ensures SlotBase(62) == -TWO31 && SlotBase(63) == -0x4000_0000
    ensures DirectBits(62) == 30 && DirectBits(63) == 30 && Pow2(30) == 0x4000_0000
  {
    Pow2Values();
  }

  lemma Pow2Values()
    ensures Pow2(1) == 2 && Pow2(2) == 4 && Pow2(3) == 8 && Pow2(4) == 16 && Pow2(5) == 32
    ensures Pow2(6) == 64 && Pow2(7) == 128 && Pow2(8) == 256
    ensures Pow2(29) == 0x2000_0000 && Pow2(30) == 0x4000_0000
  {
    assert Pow2(8) == 256;
    Pow2Add(8, 8);
    Pow2Add(16, 8);
    Pow2Add(24, 5);
    assert Pow2(30) == 2 * Pow2(29);
  }

  /**
   * The distance of a normal match from its slot and the low bits decoded
   * after it; -1 (all 32 bits set) is the end marker.
   */
  function Distance(posSlot: int, low: int): int
    requires 0 <= posSlot < 64
  {
    if posSlot < 4 then posSlot else SlotBase(posSlot) + low
  }

  /**
   * A distance lies in its slot's range, so different slots give different
   * distances; only slot 63 with every low bit set gives the end marker, and
   * slot 62 always gives an invalid negative distance.
   */
  lemma DistanceInSlot(posSlot: int, low: int)
    requires 0 <= posSlot < 64
    requires posSlot >= 4 ==> 0 <= low < Pow2(DirectBits(posSlot))
    ensures posSlot < 4 ==> Distance(posSlot, low) == posSlot
    ensures 4 <= posSlot < 62 ==>
      SlotBase(posSlot) <= Distance(posSlot, low) < SlotBase(posSlot) + Pow2(DirectBits(posSlot)) <= TWO31
    ensures 4 <= posSlot < 61 ==> Distance(posSlot, low) < SlotBase(posSlot + 1)
    ensures Distance(posSlot, low) < 0 <==> posSlot >= 62
    ensures Distance(posSlot, low) == -1 <==> posSlot == 63 && low == 0x3fff_ffff
  {
    if 4 <= posSlot < 62 {
      SlotsTile(posSlot);
    }
    if posSlot >= 4 {
      if posSlot >= 62 {
        SlotBaseTop();
        Pow2Values();
      }
    }
  }

  /**
   * For the slots below 14 the low bits come from the shared posDecoders
   * table: the reverse tree of slot s starts right after index
   * SlotBase(s) - s - 1, and all of the trees fit in its 114 models.
   */
  lemma PosDecodersFit(posSlot: int)
    requires 4 <= posSlot < 14
    ensures 1 <= DirectBits(posSlot) <= 5
    ensures 0 <= SlotBase(posSlot) - posSlot - 1 + 1
    ensures SlotBase(posSlot) - posSlot - 1 + Pow2(DirectBits(posSlot)) <= 114
  {
    var k := DirectBits(posSlot);
    SlotBaseExact(posSlot);
    var v := Pow2(k);
    assert 2 * Pow2(k - 1) == v;
    Pow2Mono(k, 5);
    Pow2Values();
    assert posSlot == 2 * k + 2 + posSlot % 2;
  }


  // ----- literal coders -----

  /** getDecoder: the literal coder for a position and the previous byte, from lp position bits and lc high bits. */
  function LiteralIndex(pos: nat, prevByte: byte, lc: nat, lp: nat): int
    requires lc <= 8
  {
    (pos % Pow2(lp)) * Pow2(lc) + prevByte / Pow2(8 - lc)
  }

  /** There are 2^(lc + lp) literal coders, and getDecoder always picks one of them. */
  lemma LiteralIndexInRange(pos: nat, prevByte: byte, lc: nat, lp: nat)
    requires lc <= 8
    ensures 0 <= LiteralIndex(pos, prevByte, lc, lp) < Pow2(lc + lp)
  {
    var p, q, d := Pow2(lc), Pow2(lp), Pow2(8 - lc);
    Pow2Add(8 - lc, lc);
    Pow2Add(lp, lc);
    Pow2Values();
    DivBelow(prevByte, d, p);
    MixedRadix(pos % q, prevByte / d, p, q);
  }

  lemma DivBelow(x: int, d: int, m: int)
    requires 0 <= x < d * m && d > 0
    ensures 0 <= x / d < m
  {
  }

  /** A digit below q followed by one below p makes a number below q * p. */
  lemma MixedRadix(hi: int, lo: int, p: int, q: int)
    requires 0 <= hi < q && 0 <= lo < p
    ensures 0 <= hi * p + lo < q * p
  {
    MulLe(p, hi, q - 1);
  }

  // ----- the properties byte -----

  /** The decoder properties: literal context bits, literal position bits, position bits, dictionary size. */
  datatype Props = Props(lc: nat, lp: nat, pb: nat, dictionarySize: nat)

  /** setDecoderProperties: the first byte is (pb * 5 + lp) * 9 + lc. */
  function SplitLcLpPb(v: byte): (nat, nat, nat)
  {
    (v % 9, (v / 9) % 5, v / 9 / 5)
  }

  function JoinLcLpPb(lc: nat, lp: nat, pb: nat): int
  {
    (pb * 5 + lp) * 9 + lc
  }

  /**
   * Every byte splits into lc <= 8 and lp <= 4, so of the checks of
   * setLcLpPb only pb > 4 can fail, exactly for the bytes from 225 on.
   */
  lemma SplitBounds(v: byte)
    ensures var (lc, lp, pb) := SplitLcLpPb(v);
      lc <= 8 && lp <= 4 && (pb <= 4 <==> v < 225) && JoinLcLpPb(lc, lp, pb) == v
  {
  }

  /** An encoder's byte for valid lc, lp and pb splits back into them. */
  lemma JoinSplits(lc: nat, lp: nat, pb: nat)
    requires lc <= 8 && lp <= 4 && pb <= 4
    ensures 0 <= JoinLcLpPb(lc, lp, pb) < 225
    ensures SplitLcLpPb(JoinLcLpPb(lc, lp, pb)) == (lc, lp, pb)
  {
    var v := JoinLcLpPb(lc, lp, pb);
    DivModUnique(v, 9, pb * 5 + lp, lc);
    DivModUnique(pb * 5 + lp, 5, pb, lp);
  }

  /**
   * The five property bytes as setDecoderProperties reads them from the
   * CTM stream.  Its `properties.size < 5` guard reads a field the stream
   * does not have, so it never rejects: missing bytes read as 0.
   */
  function PropertiesAsWritten(data: seq<byte>, off: int): (r: Option<Props>)
    ensures r.Some? <==> ByteAt(data, off) < 225
  {
    var (lc, lp, pb) := SplitLcLpPb(ByteAt(data, off));
    SplitBounds(ByteAt(data, off));
    if pb > 4 then None else Some(Props(lc, lp, pb, Word32At(data, off + 1)))
  }

  /** A truncated stream with no property bytes at all is accepted, as lc = lp = pb = 0 and an empty dictionary. */
  lemma PropertiesAsWrittenAcceptsNoBytes()
    ensures PropertiesAsWritten([], 0) == Some(Props(0, 0, 0, 0))
  {
  }

  /** The properties with the intended guard: fewer than five bytes left in the stream are rejected. */
  function Properties(data: seq<byte>, off: int): Option<Props>
  {
    if |data| - off < 5 then None else PropertiesAsWritten(data, off)
  }

  /**
   * The properties are accepted exactly when five bytes remain and the
   * first is below 225; they are then the split of the first byte and the
   * little-endian dictionary size of the next four.
   */
  lemma PropertiesAccepted(data: seq<byte>, off: nat)
    ensures Properties(data, off).Some? <==> off + 5 <= |data| && data[off] < 225
    ensures Properties(data, off).Some? ==>
      var p := Properties(data, off).value;
      && JoinLcLpPb(p.lc, p.lp, p.pb) == data[off] && p.lc <= 8 && p.lp <= 4 && p.pb <= 4
      && p.dictionarySize == data[off + 1] + TWO8 * data[off + 2] + TWO16 * data[off + 3] + TWO24 * data[off + 4]
  {
    if off + 5 <= |data| {
      SplitBounds(data[off]);
    }
  }

  /** The five bytes an encoder writes for valid properties. */
  function EncodeProperties(p: Props): (r: seq<byte>)
    requires p.lc <= 8 && p.lp <= 4 && p.pb <= 4 && p.dictionarySize < TWO32
    ensures |r| == 5
  {
    JoinSplits(p.lc, p.lp, p.pb);
    [JoinLcLpPb(p.lc, p.lp, p.pb) as byte] + EncodeInt32(p.dictionarySize)
  }

  /** Properties an encoder writes are read back, whatever follows them. */
  lemma PropertiesRoundTrip(p: Props, rest: seq<byte>)
    requires p.lc <= 8 && p.lp <= 4 && p.pb <= 4 && p.dictionarySize < TWO32
    ensures Properties(EncodeProperties(p) + rest, 0) == Some(p)
  {
    JoinSplits(p.lc, p.lp, p.pb);
    var v: byte := JoinLcLpPb(p.lc, p.lp, p.pb);
    Int32RoundTrip([v], ToInt32(p.dictionarySize), rest);
    assert EncodeInt32(ToInt32(p.dictionarySize)) == EncodeInt32(p.dictionarySize);
    assert EncodeProperties(p) + rest == [v] + EncodeInt32(p.dictionarySize) + rest;
  }
}
