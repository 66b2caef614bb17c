/**
 * LZMA.Decoder and LZMA.decompress: the packet loop that turns the range
 * decoder's bits into literals and LZ77 copies, written through the
 * sliding window into an InterleavedStream.
 *
 * The ghost `ops` of a decode is the sequence of packets as the output sees
 * them, a byte or a copy; `Replay` rebuilds the output from them, and the
 * decoder promises that what it wrote is exactly that replay.
 */
module LzmaDecoder {
  import opened JsInt
  import opened Wrappers
  import opened CtmStream
  import opened CtmInterleaved
  import opened LzmaModel
  import opened LzmaRange
  import opened LzmaWindow
  import opened LzmaCoders

  // ----- what a packet does to the output -----

  /** A decoded packet as the output sees it: one literal byte, or len bytes copied from distance + 1 back. */
  datatype Op = Lit(b: byte) | Copy(distance: nat, len: nat)

  /** One packet applied to the output so far; a copy reaching before the first byte has no meaning. */
  function Step(out: seq<byte>, op: Op): Option<seq<byte>>
  {
    match op
    case Lit(b) => Some(out + [b])
    case Copy(distance, len) => if distance < |out| then Some(LzCopy(out, distance, len)) else None
  }

  /** `b` is the last byte of `out`: what decode keeps as prevByte. */
  predicate LastIs(out: seq<byte>, b: byte)
  {
    |out| > 0 && out[|out| - 1] == b
  }

  /** The output a sequence of packets builds from nothing. */
  function Replay(ops: seq<Op>): Option<seq<byte>>
  {
    if ops == [] then Some([])
    else match Replay(ops[..|ops| - 1])
      case None => None
      case Some(out) => Step(out, ops[|ops| - 1])
  }

  /** The number of bytes a packet produces. */
  function Size(op: Op): nat
  {
    match op
    case Lit(_) => 1
    case Copy(_, len) => len
  }

  function TotalSize(ops: seq<Op>): nat
  {
    if ops == [] then 0 else TotalSize(ops[..|ops| - 1]) + Size(ops[|ops| - 1])
  }

  lemma ReplaySnoc(ops: seq<Op>, op: Op)
    ensures Replay(ops + [op]) == if Replay(ops).None? then None else Step(Replay(ops).value, op)
    ensures TotalSize(ops + [op]) == TotalSize(ops) + Size(op)
  {
    assert (ops + [op])[..|ops|] == ops;
  }

  /** The output of the packets is as long as their sizes add up to. */
  lemma {:induction false} ReplaySize(ops: seq<Op>)
    requires Replay(ops).Some?
    ensures |Replay(ops).value| == TotalSize(ops)
    decreases |ops|
  {
    if ops != [] {
      var init, op := ops[..|ops| - 1], ops[|ops| - 1];
      assert ops == init + [op];
      ReplaySnoc(init, op);
      ReplaySize(init);
    }
  }

  /** The output only grows: the first k packets replay to a prefix of what all of them replay to. */
  lemma {:induction false} ReplayPrefix(ops: seq<Op>, k: nat)
    requires Replay(ops).Some? && k <= |ops|
    ensures Replay(ops[..k]).Some? && Replay(ops[..k]).value <= Replay(ops).value
    decreases |ops|
  {
    if k < |ops| {
      var init, op := ops[..|ops| - 1], ops[|ops| - 1];
      assert ops == init + [op];
      ReplaySnoc(init, op);
      var out := Replay(init).value;
      ReplayPrefix(init, k);
      assert ops[..k] == init[..k];
      if op.Copy? {
        LzCopyRepeats(out, op.distance, op.len);
      }
      assert out <= Replay(ops).value;
    } else {
      assert ops[..k] == ops;
    }
  }

  // ----- the decoder -----

  /** The largest window of a dictionary size: at least one byte of check, and at least 4096 bytes of buffer. */
  function DictionaryCheck(dictionarySize: nat): nat { Max(dictionarySize, 1) }
  function WindowSize(dictionarySize: nat): nat { Max(DictionaryCheck(dictionarySize), 4096) }

  /** How one packet of the decode loop ends: the loop goes on, meets the end marker, or returns false. */
  datatype Status = Next | EndMarker | Corrupt

  /**
   * A packet that makes decode return false: a match or rep whose distance
   * is neither the end marker, -1, nor a copy from within the nowPos bytes
   * produced so far and the dictionary.
   */
  predicate CorruptDistance(p: Packet, distance: int, nowPos: int, dictionarySizeCheck: int)
  {
    p != Literal && distance != -1 && !(0 <= distance < nowPos && distance < dictionarySizeCheck)
  }

  // ----- the loop of decode on values -----

  /** getByte(rep0) of a literal after a match or rep: the byte distance + 1 back in the output (0 outside it, where decode never reads). */
  function MatchByte(out: seq<byte>, distance: int): byte
  {
    if 0 <= distance < |out| then out[|out| - 1 - distance] else 0
  }

  /** The decoder between two packets: registers, models, output, state, rep distances and previous byte. */
  datatype Dec = Dec(s: RangeState, m: Snap, out: seq<byte>, state: int, reps: Reps, prevByte: byte)

  /** What the bits before a packet's bytes give: its kind, its length, the new rep distances, and the registers and models after them. */
  datatype Header = Header(p: Packet, len: int, reps: Reps, after: RangeState, models: Snap)

  /** Which rep distance a rep packet takes, whether it is a short rep, and the registers and models after its bits. */
  datatype Chosen = Chosen(n: int, short: bool, after: RangeState, models: Snap)

  /** The length, slot and low bits of a normal match, with the registers and models after them. */
  datatype Matched = Matched(len: int, posSlot: int, low: int, after: RangeState, models: Snap)

  /**
   * One iteration of the loop: it goes on with the packet op and the
   * decoder next, or it stops the loop with st, the range decoder's
   * registers at after.  p and distance are the kind and the rep0 of the
   * packet.
   */
  datatype Pkt = Go(p: Packet, distance: int, op: Op, next: Dec) | Stop(st: Status, p: Packet, distance: int, after: RangeState)

  /**
   * How a run of the loop ends: its packets as the output sees them, the
   * status, the kind and rep0 of the last packet, and the range decoder's
   * registers, whose offset is where the input is left.
   */
  datatype Outcome = Outcome(ops: seq<Op>, end: Status, last: Packet, distance: int, after: RangeState)

  /** The packets ops, then those of the outcome o. */
  function Extend(ops: seq<Op>, o: Outcome): (r: Outcome)
    ensures |r.ops| == |ops| + |o.ops| && r.ops[..|ops|] == ops && r.end == o.end && r.last == o.last && r.distance == o.distance && r.after == o.after
  {
    assert (ops + o.ops)[..|ops|] == ops;
    o.(ops := ops + o.ops)
  }

  /** Packets ops, then op, then the outcome o, are ops + [op] then o. */
  lemma ExtendTwice(ops: seq<Op>, op: Op, o: Outcome)
    ensures Extend(ops, Extend([op], o)) == Extend(ops + [op], o)
  {
    assert ops + ([op] + o.ops) == (ops + [op]) + o.ops;
  }

  /** The registers after init from offset: four bytes of code after one that falls out, and a range of all 32 bits. */
  function InitialRange(data: seq<byte>, offset: int): (s: RangeState)
    ensures s.range >= TOP && s.offset == offset + 5
  {
    RangeState(TWO24 * ByteAt(data, offset + 1) + TWO16 * ByteAt(data, offset + 2) + TWO8 * ByteAt(data, offset + 3) + ByteAt(data, offset + 4),
      TWO32 - 1, offset + 5)
  }

  /** Every array of models at one half, as init leaves it. */
  ghost function InitSnap(arrays: set<array<prob>>): (m: Snap)
    ensures m.Keys == arrays
  {
    map a | a in arrays :: seq(a.Length, _ => PROB_INIT)
  }

  /** Arrays all at one half hold InitSnap. */
  lemma SnapInit(arrays: set<array<prob>>)
    requires AllInit(arrays)
    ensures SnapOf(arrays) == InitSnap(arrays)
  {
    forall a | a in arrays
      ensures a[..] == seq(a.Length, _ => PROB_INIT)
    {
    }
  }

  /** putByte, beside arrays of models that it leaves as they are. */
  method PutByteBeside(w: OutWindow, b: byte, ghost arrays: set<array<prob>>)
    requires w.Valid()
    modifies w, w.buffer, w.stream, w.stream.data
    ensures w.stream == old(w.stream) && w.Base == old(w.Base) && w.Valid() && w.Output == old(w.Output) + [b]
    ensures old(w.stream.Scattered()) && |w.Base + w.Output| <= w.stream.len ==> w.stream.Scattered()
    ensures SnapOf(arrays) == old(SnapOf(arrays))
  {
    w.PutByte(b);
    assert forall a :: a in arrays ==> a[..] == old(a[..]);
  }

  /**
   * A literal's byte, decoded by one literal coder with the byte at rep0 as
   * match byte when the literal follows a match or rep, and put into the
   * window; only that coder's models change.
   */
  method LiteralInto(w: OutWindow, rd: RangeDecoder, d: Decoder2, matched: bool, rep0: int, ghost arrays: set<array<prob>>) returns (b: byte)
    requires w.Valid() && rd.Normalized() && d.Valid() && d.decoders in arrays
    requires matched ==> 0 <= rep0 < |w.Output| && rep0 < w.windowSize
    modifies w, w.buffer, w.stream, w.stream.data, rd, rd.stream, d.decoders
    ensures w.stream == old(w.stream) && w.Base == old(w.Base) && w.Valid() && w.Output == old(w.Output) + [b]
    ensures old(w.stream.Scattered()) && |w.Base + w.Output| <= w.stream.len ==> w.stream.Scattered()
    ensures rd.Normalized() && rd.stream == old(rd.stream)
    ensures var m := old(SnapOf(arrays)); var a := d.decoders;
      var walk := if matched then MatchWalk(rd.stream.data, old(rd.State()), At(m, a), MatchByte(old(w.Output), rep0), 1, 8) else TreeWalk(rd.stream.data, old(rd.State()), At(m, a), 0, 1, 8);
      b as int == MsbValue(walk.bits) && rd.State() == walk.after && SnapOf(arrays) == m[a := walk.models]
  {
    if matched {
      var matchByte := GetByteBeside(w, rep0 as nat, arrays);
      b := d.TrackedWithMatchByte(rd, matchByte, arrays);
    } else {
      b := d.TrackedNormal(rd, arrays);
    }
    PutByteBeside(w, b, arrays);
  }

  /** getByte, beside arrays of models that it leaves as they are. */
  method GetByteBeside(w: OutWindow, distance: nat, ghost arrays: set<array<prob>>) returns (b: byte)
    requires w.Valid() && distance < |w.Output| && distance < w.windowSize
    ensures b == MatchByte(w.Output, distance) && SnapOf(arrays) == old(SnapOf(arrays))
  {
    b := w.GetByte(distance);
  }

  /** copyBlock, beside arrays of models that it leaves as they are. */
  method CopyBlockBeside(w: OutWindow, distance: nat, len: nat, ghost arrays: set<array<prob>>)
    requires w.Valid() && distance < |w.Output| && distance < w.windowSize
    modifies w, w.buffer, w.stream, w.stream.data
    ensures w.stream == old(w.stream) && w.Base == old(w.Base) && w.Valid() && w.Output == LzCopy(old(w.Output), distance, len)
    ensures old(w.stream.Scattered()) && |w.Base + w.Output| <= w.stream.len ==> w.stream.Scattered()
    ensures SnapOf(arrays) == old(SnapOf(arrays))
  {
    w.CopyBlock(distance, len);
    assert forall a :: a in arrays ==> a[..] == old(a[..]);
  }

  /** The window's init, beside arrays of models that it leaves as they are. */
  method WindowInitBeside(w: OutWindow, ghost arrays: set<array<prob>>)
    requires w.buffer.Length == w.windowSize > 0 && w.buffer != w.stream.data
    modifies w
    ensures w.stream == old(w.stream) && w.Valid() && w.Output == [] && w.Base == w.stream.Written
    ensures SnapOf(arrays) == old(SnapOf(arrays))
  {
    w.Init();
  }

  /** The range decoder's init, beside arrays of models that it leaves as they are. */
  method RangeInitBeside(rd: RangeDecoder, ghost arrays: set<array<prob>>)
    modifies rd, rd.stream
    ensures rd.stream == old(rd.stream) && rd.Normalized()
    ensures rd.State() == InitialRange(rd.stream.data, old(rd.stream.offset))
    ensures SnapOf(arrays) == old(SnapOf(arrays))
  {
    rd.Init();
    assert forall a :: a in arrays ==> a[..] == old(a[..]);
  }

  class Decoder {
    const window: OutWindow
    const rd: RangeDecoder
    const isMatch: array<prob>
    const isRep: array<prob>
    const isRepG0: array<prob>
    const isRepG1: array<prob>
    const isRepG2: array<prob>
    const isRep0Long: array<prob>
    const posSlotDecoder: seq<BitTreeDecoder>
    const posDecoders: array<prob>
    const posAlignDecoder: BitTreeDecoder
    const lenDecoder: LenDecoder
    const repLenDecoder: LenDecoder
    const literalDecoder: LiteralDecoder
    const dictionarySize: nat
    const dictionarySizeCheck: nat
    const pb: nat
    /** The arrays of probability models, fixed when the decoder is made. */
    ghost const models: set<array<prob>>

    /** Every array of probability models of the decoder, coder by coder. */
    ghost function Models(): set<array<prob>>
    {
      {isMatch, isRep, isRepG0, isRepG1, isRepG2, isRep0Long, posDecoders, posAlignDecoder.models}
        + TreeModels(posSlotDecoder) + lenDecoder.Models() + repLenDecoder.Models() + literalDecoder.Models()
    }

    /** The arrays a length decoder decodes with are among the models. */
    ghost predicate Holds(l: LenDecoder)
    {
      && l.choice in models && l.highCoder.models in models
      && (forall i :: 0 <= i < |l.lowCoder| ==> l.lowCoder[i].models in models)
      && (forall i :: 0 <= i < |l.midCoder| ==> l.midCoder[i].models in models)
    }

    /** The single-bit models and the position models: sized as init sizes them, and among the models. */
    ghost predicate Flat()
    {
      && isMatch.Length == 192 && isRep0Long.Length == 192
      && isRep.Length == 12 && isRepG0.Length == 12 && isRepG1.Length == 12 && isRepG2.Length == 12
      && posDecoders.Length == 114
      && isMatch in models && isRep in models && isRepG0 in models && isRepG1 in models
      && isRepG2 in models && isRep0Long in models && posDecoders in models
    }

    /** The four position-slot trees of 6 levels and the alignment tree of 4, among the models. */
    ghost predicate Slots()
    {
      && |posSlotDecoder| == 4
      && Tree(posSlotDecoder[0], 6) && Tree(posSlotDecoder[1], 6) && Tree(posSlotDecoder[2], 6) && Tree(posSlotDecoder[3], 6)
      && posSlotDecoder[0].models in models && posSlotDecoder[1].models in models
      && posSlotDecoder[2].models in models && posSlotDecoder[3].models in models
      && Tree(posAlignDecoder, 4) && posAlignDecoder.models in models
    }

    /** A length decoder of 2^pb position states, among the models. */
    ghost predicate Coder(l: LenDecoder)
    {
      l.Valid() && l.numPosStates == Pow2(pb) && Holds(l)
    }

    /** The length and rep length decoders. */
    ghost predicate Lengths()
    {
      pb <= 4 && Coder(lenDecoder) && Coder(repLenDecoder)
    }

    /** The literal coders, among the models. */
    ghost predicate Literals()
    {
      literalDecoder.Valid() && literalDecoder.Models() <= models
    }

    /** The dictionary check and the window of setDictionarySize. */
    ghost predicate Sized()
    {
      && dictionarySizeCheck == DictionaryCheck(dictionarySize)
      && window.windowSize == WindowSize(dictionarySize) && window.buffer.Length == window.windowSize
    }

    /** What the constructor, setLcLpPb and setDictionarySize leave: every coder sized for its models. */
    ghost predicate Valid()
    {
      Flat() && Slots() && Lengths() && Literals() && Sized()
    }

    /** Between two packets: the window holds the output and the range decoder is normalized. */
    ghost predicate Ready()
      reads window, window.buffer, window.stream, rd
    {
      Valid() && window.Valid() && rd.Normalized()
    }

    // ----- the specification on values -----

    /** The decoder as it stands between two packets, with the loop's state, rep distances and previous byte. */
    ghost function Now(state: int, reps: Reps, prevByte: byte): Dec
      reads rd, rd.stream, window, models
    {
      Dec(rd.State(), SnapOf(models), window.Output, state, reps, prevByte)
    }

    /** The decoder after init on the range coder's five bytes from offset: every model at one half, nothing output, state 0. */
    ghost function Start(data: seq<byte>, offset: int): Dec
    {
      Dec(InitialRange(data, offset), InitSnap(models), [], 0, Reps(0, 0, 0, 0), 0)
    }

    /**
     * The bits before a packet's bytes: the isMatch bit of the state and
     * position state is 0 for a literal; otherwise the isRep bit is 1 for a
     * rep packet (RepIn) and 0 for a normal match (MatchIn), whose distance
     * goes in front of the rep distances.
     */
    ghost function HeaderIn(data: seq<byte>, s: RangeState, m: Snap, state: int, posState: int, reps: Reps): (h: Header)
      requires Slots() && Lengths() && s.range >= TOP && 0 <= posState < Pow2(pb)
      ensures h.after.range >= TOP
      ensures h.p == Literal ==> h.len == 1 && h.reps == reps
      ensures h.p != Literal ==> 1 <= h.len
    {
      var b := BitIn(data, s, m, isMatch, state * 16 + posState);
      if b.value == 0 then Header(Literal, 1, reps, b.after, b.models)
      else
        var r := BitIn(data, b.after, b.models, isRep, state);
        if r.value == 1 then RepIn(data, r.after, r.models, state, posState, reps)
        else
          var x := MatchIn(data, r.after, r.models, posState);
          Header(Match, x.len, AfterMatch(reps, Distance(x.posSlot, x.low)), x.after, x.models)
    }

    /**
     * A rep packet after its isRep bit: isRepG0 0 and isRep0Long 0 make a
     * short rep of rep0; otherwise isRepG0, isRepG1 and isRepG2 choose rep
     * 0, 1, 2 or 3, which moves to the front (AfterRep), and the rep length
     * decoder gives the length.
     */
    ghost function RepIn(data: seq<byte>, s: RangeState, m: Snap, state: int, posState: int, reps: Reps): (h: Header)
      requires pb <= 4 && Coder(repLenDecoder) && s.range >= TOP && 0 <= posState < Pow2(pb)
      ensures h.after.range >= TOP && (h.p == ShortRep || h.p == LongRep)
      ensures (h.p == ShortRep <==> h.len == 1) && 1 <= h.len
    {
      var c := RepChoiceIn(data, s, m, state, posState);
      if c.short then Header(ShortRep, 1, reps, c.after, c.models)
      else RepLenIn(data, c.after, c.models, posState, AfterRep(reps, c.n))
    }

    /** The bits that choose a rep distance: the number n of the rep taken, and whether it is a short rep (n is then 0). */
    ghost function RepChoiceIn(data: seq<byte>, s: RangeState, m: Snap, state: int, posState: int): (c: Chosen)
      requires s.range >= TOP
      ensures c.after.range >= TOP && 0 <= c.n < 4 && (c.short ==> c.n == 0)
    {
      var g0 := BitIn(data, s, m, isRepG0, state);
      if g0.value == 0 then
        var long := BitIn(data, g0.after, g0.models, isRep0Long, state * 16 + posState);
        Chosen(0, long.value == 0, long.after, long.models)
      else
        var g1 := BitIn(data, g0.after, g0.models, isRepG1, state);
        if g1.value == 0 then Chosen(1, false, g1.after, g1.models)
        else
          var g2 := BitIn(data, g1.after, g1.models, isRepG2, state);
          Chosen(2 + g2.value, false, g2.after, g2.models)
    }

    /** A long rep: its length is 2 plus the symbol of the rep length decoder. */
    ghost function RepLenIn(data: seq<byte>, s: RangeState, m: Snap, posState: int, reps: Reps): (h: Header)
      requires Coder(repLenDecoder) && s.range >= TOP && 0 <= posState < Pow2(pb)
      ensures h.after.range >= TOP && h.p == LongRep && MATCH_MIN_LEN <= h.len <= MATCH_MAX_LEN && h.reps == reps
    {
      var l := repLenDecoder.In(data, s, m, posState);
      Header(LongRep, MATCH_MIN_LEN + l.value, reps, l.after, l.models)
    }

    /**
     * A normal match after its isRep bit: the length from the length
     * decoder, the slot from the slot tree of min(len - 2, 3), and the
     * slot's low bits (LowIn).
     */
    ghost function MatchIn(data: seq<byte>, s: RangeState, m: Snap, posState: int): (x: Matched)
      requires Slots() && Lengths() && s.range >= TOP && 0 <= posState < Pow2(pb)
      ensures x.after.range >= TOP && 0 <= x.posSlot < 64 && MATCH_MIN_LEN <= x.len <= MATCH_MAX_LEN
    {
      var l := lenDecoder.In(data, s, m, posState);
      var len := MATCH_MIN_LEN + l.value;
      var slot := TreeIn(data, l.after, l.models, posSlotDecoder[if len <= 5 then len - 2 else 3].models, 6);
      Pow2Values();
      var low := LowIn(data, slot.after, slot.models, slot.value);
      Matched(len, slot.value, low.value, low.after, low.models)
    }

    /**
     * The low bits of a slot: none below slot 4; below slot 14 a reverse
     * walk of the position models from SlotBase - posSlot - 1; from slot 14
     * on, direct bits above four bits reverse-decoded by the alignment tree.
     */
    ghost function LowIn(data: seq<byte>, s: RangeState, m: Snap, posSlot: int): (c: Coded)
      requires s.range >= TOP && 0 <= posSlot < 64
      ensures c.after.range >= TOP
    {
      if posSlot < 4 then Coded(0, s, m)
      else if posSlot < 14 then ReverseIn(data, s, m, posDecoders, SlotBase(posSlot) - posSlot - 1, DirectBits(posSlot))
      else
        var d := DirectWalk(data, s, DirectBits(posSlot) - 4);
        var a := ReverseIn(data, d.1, m, posAlignDecoder.models, 0, 4);
        Coded(MsbValue(d.0) * 16 + a.value, a.after, a.models)
    }

    /**
     * One iteration of decode's loop on values.  A literal decodes a byte
     * with the coder of the position and the previous byte, using the byte
     * at rep0 after a match or rep, and appends it.  A match or rep copies
     * from rep0 when that lies within the output and the dictionary;
     * otherwise the loop stops, at the end marker for -1 and as corrupt
     * data for any other distance.
     */
    ghost function PacketIn(data: seq<byte>, d: Dec): (k: Pkt)
      requires Valid() && d.s.range >= TOP && IsState(d.state)
      ensures k.Go? ==> k.next.s.range >= TOP && IsState(k.next.state) && |k.next.out| > |d.out|
      ensures k.Stop? ==> k.st != Next && k.after.range >= TOP
    {
      PacketTail(data, d.out, d.state, d.prevByte, HeaderIn(data, d.s, d.m, d.state, |d.out| % Pow2(pb), d.reps))
    }

    /**
     * A packet from its header on: the literal's byte is appended, a copy
     * from within the output and the dictionary is made, and any other
     * distance stops the loop.
     */
    ghost function PacketTail(data: seq<byte>, out: seq<byte>, state: int, prevByte: byte, h: Header): (k: Pkt)
      requires Literals() && h.after.range >= TOP && IsState(state) && (h.p != Literal ==> 1 <= h.len)
      ensures k.Go? ==> k.next.s.range >= TOP && IsState(k.next.state) && |k.next.out| > |out|
      ensures k.Stop? ==> k.st != Next && k.after.range >= TOP
    {
      if h.p == Literal then
        var c := literalDecoder.In(data, h.after, h.models, |out|, prevByte, state >= 7, MatchByte(out, h.reps.rep0));
        var b := c.value as byte;
        Go(Literal, h.reps.rep0, Lit(b), Dec(c.after, c.models, out + [b], NextState(state, Literal), h.reps, b))
      else
        var distance := h.reps.rep0;
        if 0 <= distance < |out| && distance < dictionarySizeCheck then
          var o := LzCopy(out, distance, h.len);
          Go(h.p, distance, Copy(distance, h.len), Dec(h.after, h.models, o, NextState(state, h.p), h.reps, o[|o| - 1]))
        else Stop(if distance == -1 then EndMarker else Corrupt, h.p, distance, h.after)
    }

    /**
     * What one packet on values promises.  One that goes on is a step of the
     * output that ends in the new previous byte, moves the state by its kind
     * and keeps the rep distances non-negative; a match or rep copies from
     * within the output and the dictionary.  One that stops is a match or
     * rep, at the end marker exactly for -1, as corrupt data otherwise.
     */
    lemma PacketFacts(data: seq<byte>, d: Dec)
      requires Valid() && d.s.range >= TOP && IsState(d.state) && RepsOk(d.reps)
      ensures var k := PacketIn(data, d); k.Stop? ==>
        && k.p != Literal && (k.st == EndMarker <==> k.distance == -1)
        && (k.st == Corrupt <==> CorruptDistance(k.p, k.distance, |d.out|, dictionarySizeCheck))
      ensures var k := PacketIn(data, d); k.Go? ==>
        && Step(d.out, k.op) == Some(k.next.out) && LastIs(k.next.out, k.next.prevByte)
        && k.next.state == NextState(d.state, k.p) && RepsOk(k.next.reps) && k.next.reps.rep0 == k.distance
        && (k.p == Literal <==> k.op.Lit?)
        && (k.p == Literal ==> k.next.reps == d.reps)
        && (k.p != Literal ==> 0 <= k.distance < |d.out| && k.distance < dictionarySizeCheck)
        && (k.p == Match ==> k.next.reps == AfterMatch(d.reps, k.distance))
    {
      var posState := |d.out| % Pow2(pb);
      var h := HeaderIn(data, d.s, d.m, d.state, posState, d.reps);
      HeaderReps(data, d.s, d.m, d.state, posState, d.reps);
      TailFacts(data, d.out, d.state, d.prevByte, d.reps, h);
    }

    /** PacketFacts from the header on, for any header a literal leaves the rep distances of. */
    lemma TailFacts(data: seq<byte>, out: seq<byte>, state: int, prevByte: byte, reps: Reps, h: Header)
      requires Literals() && h.after.range >= TOP && IsState(state) && (h.p != Literal ==> 1 <= h.len)
      requires h.p == Literal ==> h.reps == reps
      requires RepsOk(reps) && (h.p == Match ==> h.reps == AfterMatch(reps, h.reps.rep0))
      requires h.p == ShortRep || h.p == LongRep ==> RepsOk(h.reps)
      ensures var k := PacketTail(data, out, state, prevByte, h); k.Stop? ==>
        && k.p != Literal && (k.st == EndMarker <==> k.distance == -1)
        && (k.st == Corrupt <==> CorruptDistance(k.p, k.distance, |out|, dictionarySizeCheck))
      ensures var k := PacketTail(data, out, state, prevByte, h); k.Go? ==>
        && Step(out, k.op) == Some(k.next.out) && LastIs(k.next.out, k.next.prevByte)
        && k.next.state == NextState(state, k.p) && RepsOk(k.next.reps) && k.next.reps.rep0 == k.distance
        && (k.p == Literal <==> k.op.Lit?)
        && (k.p == Literal ==> k.next.reps == reps)
        && (k.p != Literal ==> 0 <= k.distance < |out| && k.distance < dictionarySizeCheck)
        && (k.p == Match ==> k.next.reps == AfterMatch(reps, k.distance))
    {
      if h.p != Literal && 0 <= h.reps.rep0 < |out| && h.reps.rep0 < dictionarySizeCheck {
        assert Step(out, Copy(h.reps.rep0, h.len)) == Some(LzCopy(out, h.reps.rep0, h.len));
      }
    }

    /**
     * The rep distances a header leaves: the match's distance in front of
     * them after a normal match, and still non-negative after a rep.
     */
    lemma HeaderReps(data: seq<byte>, s: RangeState, m: Snap, state: int, posState: int, reps: Reps)
      requires Slots() && Lengths() && s.range >= TOP && 0 <= posState < Pow2(pb) && RepsOk(reps)
      ensures var h := HeaderIn(data, s, m, state, posState, reps);
        && (h.p == Match ==> h.reps == AfterMatch(reps, h.reps.rep0))
        && (h.p == ShortRep || h.p == LongRep ==> RepsOk(h.reps))
    {
      var b := BitIn(data, s, m, isMatch, state * 16 + posState);
      if b.value != 0 {
        var r := BitIn(data, b.after, b.models, isRep, state);
        if r.value == 1 {
          var c := RepChoiceIn(data, r.after, r.models, state, posState);
          RepsOkAfterRep(reps, c.n);
        }
      }
    }

    /**
     * decode's loop on values, from d until outSize bytes are out or a
     * packet stops it; last and distance are the kind and rep0 of the packet
     * before d.
     */
    ghost function Run(data: seq<byte>, d: Dec, outSize: nat, last: Packet, distance: int): Outcome
      requires Valid() && d.s.range >= TOP && IsState(d.state)
      decreases outSize - |d.out|
    {
      if |d.out| >= outSize then Outcome([], Next, last, distance, d.s)
      else
        var k := PacketIn(data, d);
        if k.Stop? then Outcome([], k.st, k.p, k.distance, k.after)
        else Extend([k.op], Run(data, k.next, outSize, k.p, k.distance))
    }

    /** The loop's invariant: the run from d0 is the packets ops so far, then the run from d while the loop goes on. */
    ghost predicate Follows(data: seq<byte>, d0: Dec, outSize: nat, ops: seq<Op>, st: Status, d: Dec, last: Packet, distance: int)
      requires Valid() && d0.s.range >= TOP && IsState(d0.state) && d.s.range >= TOP && IsState(d.state)
    {
      Run(data, d0, outSize, Literal, 0) == if st == Next then Extend(ops, Run(data, d, outSize, last, distance)) else Outcome(ops, st, last, distance, d.s)
    }

    /** One more packet keeps the invariant: appended when it goes on, as the end when it stops. */
    lemma FollowsStep(data: seq<byte>, d0: Dec, outSize: nat, ops: seq<Op>, d: Dec, last: Packet, distance: int)
      requires Valid() && d0.s.range >= TOP && IsState(d0.state) && d.s.range >= TOP && IsState(d.state)
      requires Follows(data, d0, outSize, ops, Next, d, last, distance) && |d.out| < outSize
      ensures var k := PacketIn(data, d);
        if k.Go? then Follows(data, d0, outSize, ops + [k.op], Next, k.next, k.p, k.distance)
        else Follows(data, d0, outSize, ops, k.st, d.(s := k.after), k.p, k.distance)
    {
      var k := PacketIn(data, d);
      RunStep(data, d, outSize, last, distance);
      if k.Go? {
        ExtendTwice(ops, k.op, Run(data, k.next, outSize, k.p, k.distance));
      } else {
        assert ops + [] == ops;
      }
    }

    /** A run with output still to come is its first packet, then the run after it. */
    lemma RunStep(data: seq<byte>, d: Dec, outSize: nat, last: Packet, distance: int)
      requires Valid() && d.s.range >= TOP && IsState(d.state) && |d.out| < outSize
      ensures var k := PacketIn(data, d);
        Run(data, d, outSize, last, distance) == if k.Stop? then Outcome([], k.st, k.p, k.distance, k.after) else Extend([k.op], Run(data, k.next, outSize, k.p, k.distance))
    {
    }

    /** When the output is long enough the run from d adds nothing: the invariant gives the whole run. */
    lemma FollowsEnd(data: seq<byte>, d0: Dec, outSize: nat, ops: seq<Op>, d: Dec, last: Packet, distance: int)
      requires Valid() && d0.s.range >= TOP && IsState(d0.state) && d.s.range >= TOP && IsState(d.state)
      requires Follows(data, d0, outSize, ops, Next, d, last, distance) && |d.out| >= outSize
      ensures Run(data, d0, outSize, Literal, 0) == Outcome(ops, Next, last, distance, d.s)
    {
      assert ops + [] == ops;
    }

    /**
     * A decoder whose coders are sized as setLcLpPb and setDictionarySize
     * size them, and whose models are those of all its coders, is valid.
     */
    lemma Assembled()
      requires models == Models() && pb <= 4 && Sized()
      requires isMatch.Length == 192 && isRep0Long.Length == 192 && posDecoders.Length == 114
      requires isRep.Length == 12 && isRepG0.Length == 12 && isRepG1.Length == 12 && isRepG2.Length == 12
      requires |posSlotDecoder| == 4 && Tree(posAlignDecoder, 4)
      requires Tree(posSlotDecoder[0], 6) && Tree(posSlotDecoder[1], 6) && Tree(posSlotDecoder[2], 6) && Tree(posSlotDecoder[3], 6)
      requires lenDecoder.Valid() && lenDecoder.numPosStates == Pow2(pb)
      requires repLenDecoder.Valid() && repLenDecoder.numPosStates == Pow2(pb)
      requires literalDecoder.Valid()
      ensures Valid()
    {
      forall i | 0 <= i < |lenDecoder.lowCoder|
        ensures lenDecoder.lowCoder[i].models in models
      {
        assert lenDecoder.lowCoder[i] in lenDecoder.lowCoder;
      }
      forall i | 0 <= i < |lenDecoder.midCoder|
        ensures lenDecoder.midCoder[i].models in models
      {
        assert lenDecoder.midCoder[i] in lenDecoder.midCoder;
      }
      forall i | 0 <= i < |repLenDecoder.lowCoder|
        ensures repLenDecoder.lowCoder[i].models in models
      {
        assert repLenDecoder.lowCoder[i] in repLenDecoder.lowCoder;
      }
      forall i | 0 <= i < |repLenDecoder.midCoder|
        ensures repLenDecoder.midCoder[i].models in models
      {
        assert repLenDecoder.midCoder[i] in repLenDecoder.midCoder;
      }
      forall k | 0 <= k < |posSlotDecoder|
        ensures posSlotDecoder[k].models in models
      {
        assert posSlotDecoder[k] in posSlotDecoder;
      }
      assert Slots();
    }

    /**
     * `new LZMA.Decoder()` followed by the setLcLpPb and setDictionarySize
     * of accepted properties, and the setStream calls of decode.
     */
    constructor (props: Props, inStream: Stream, outStream: InterleavedStream)
      requires props.lc <= 8 && props.lp <= 4 && props.pb <= 4
      ensures Valid() && models == Models() && fresh(window) && fresh(window.buffer) && fresh(rd) && fresh(models)
      ensures rd.stream == inStream && window.stream == outStream && window.buffer.Length == window.windowSize > 0
      ensures dictionarySize == props.dictionarySize && pb == props.pb
      ensures literalDecoder.numPrevBits == props.lc && literalDecoder.numPosBits == props.lp
    {
      var m, r, g0, g1, g2, r0, pd, align, slots, len, repLen, literal, all := NewModels(props);
      var ds := props.dictionarySize;
      window := new OutWindow(WindowSize(ds), outStream);
      rd := new RangeDecoder(inStream);
      isMatch, isRep, isRepG0, isRepG1, isRepG2, isRep0Long, posDecoders := m, r, g0, g1, g2, r0, pd;
      posAlignDecoder, posSlotDecoder := align, slots;
      lenDecoder, repLenDecoder, literalDecoder := len, repLen, literal;
      dictionarySize := ds;
      dictionarySizeCheck := DictionaryCheck(ds);
      pb := props.pb;
      models := all;
      new;
      Assembled();
    }

    /** Every coder of the decoder, sized for lc, lp and pb, and the set of all their arrays, all new. */
    static method NewModels(props: Props)
      returns (isMatch: array<prob>, isRep: array<prob>, isRepG0: array<prob>, isRepG1: array<prob>, isRepG2: array<prob>,
        isRep0Long: array<prob>, posDecoders: array<prob>, posAlignDecoder: BitTreeDecoder, posSlotDecoder: seq<BitTreeDecoder>,
        lenDecoder: LenDecoder, repLenDecoder: LenDecoder, literalDecoder: LiteralDecoder, ghost all: set<array<prob>>)
      requires props.lc <= 8 && props.lp <= 4 && props.pb <= 4
      ensures isMatch.Length == 192 && isRep0Long.Length == 192 && posDecoders.Length == 114
      ensures isRep.Length == 12 && isRepG0.Length == 12 && isRepG1.Length == 12 && isRepG2.Length == 12
      ensures Tree(posAlignDecoder, 4) && |posSlotDecoder| == 4
      ensures Tree(posSlotDecoder[0], 6) && Tree(posSlotDecoder[1], 6) && Tree(posSlotDecoder[2], 6) && Tree(posSlotDecoder[3], 6)
      ensures lenDecoder.Valid() && lenDecoder.numPosStates == Pow2(props.pb)
      ensures repLenDecoder.Valid() && repLenDecoder.numPosStates == Pow2(props.pb)
      ensures literalDecoder.Valid() && literalDecoder.numPosBits == props.lp && literalDecoder.numPrevBits == props.lc
      ensures all == {isMatch, isRep, isRepG0, isRepG1, isRepG2, isRep0Long, posDecoders, posAlignDecoder.models}
        + TreeModels(posSlotDecoder) + lenDecoder.Models() + repLenDecoder.Models() + literalDecoder.Models()
      ensures fresh(all)
    {
      isMatch, isRep, isRepG0, isRepG1, isRepG2, isRep0Long, posDecoders := NewFlatModels();
      ghost var flat := {isMatch, isRep, isRepG0, isRepG1, isRepG2, isRep0Long, posDecoders};
      posAlignDecoder, posSlotDecoder := NewTrees();
      ghost var trees := {posAlignDecoder.models} + TreeModels(posSlotDecoder);
      assert fresh(flat + trees);
      lenDecoder, repLenDecoder, literalDecoder := NewCoders(props);
      ghost var coders := lenDecoder.Models() + repLenDecoder.Models() + literalDecoder.Models();
      all := flat + trees + coders;
    }

    /** setLcLpPb: the literal decoder of lp and lc, and the two length decoders of 2^pb position states. */
    static method NewCoders(props: Props) returns (lenDecoder: LenDecoder, repLenDecoder: LenDecoder, literalDecoder: LiteralDecoder)
      requires props.lc <= 8 && props.lp <= 4 && props.pb <= 4
      ensures lenDecoder.Valid() && lenDecoder.numPosStates == Pow2(props.pb)
      ensures repLenDecoder.Valid() && repLenDecoder.numPosStates == Pow2(props.pb)
      ensures literalDecoder.Valid() && literalDecoder.numPosBits == props.lp && literalDecoder.numPrevBits == props.lc
      ensures fresh(lenDecoder.Models()) && fresh(repLenDecoder.Models()) && fresh(literalDecoder.Models())
    {
      literalDecoder := new LiteralDecoder(props.lp, props.lc);
      lenDecoder := new LenDecoder(Pow2(props.pb));
      repLenDecoder := new LenDecoder(Pow2(props.pb));
    }

    /** The arrays of the decoder's single-bit models, each one of the size init gives it. */
    static method NewFlatModels() returns (isMatch: array<prob>, isRep: array<prob>, isRepG0: array<prob>,
      isRepG1: array<prob>, isRepG2: array<prob>, isRep0Long: array<prob>, posDecoders: array<prob>)
      ensures fresh({isMatch, isRep, isRepG0, isRepG1, isRepG2, isRep0Long, posDecoders})
      ensures isMatch.Length == 192 && isRep0Long.Length == 192 && posDecoders.Length == 114
      ensures isRep.Length == 12 && isRepG0.Length == 12 && isRepG1.Length == 12 && isRepG2.Length == 12
    {
      isMatch := new prob[192];
      isRep := new prob[12];
      isRepG0 := new prob[12];
      isRepG1 := new prob[12];
      isRepG2 := new prob[12];
      isRep0Long := new prob[192];
      posDecoders := new prob[114];
    }

    /** The alignment tree of 4 levels and the four position-slot trees of 6 levels. */
    static method NewTrees() returns (posAlignDecoder: BitTreeDecoder, posSlotDecoder: seq<BitTreeDecoder>)
      ensures Tree(posAlignDecoder, 4) && |posSlotDecoder| == 4
      ensures Tree(posSlotDecoder[0], 6) && Tree(posSlotDecoder[1], 6) && Tree(posSlotDecoder[2], 6) && Tree(posSlotDecoder[3], 6)
      ensures fresh(posAlignDecoder.models) && fresh(TreeModels(posSlotDecoder))
    {
      posAlignDecoder := new BitTreeDecoder(4);
      var p0 := new BitTreeDecoder(6);
      var p1 := new BitTreeDecoder(6);
      var p2 := new BitTreeDecoder(6);
      var p3 := new BitTreeDecoder(6);
      posSlotDecoder := [p0, p1, p2, p3];
      assert TreeModels(posSlotDecoder) == {p0.models, p1.models, p2.models, p3.models};
    }

    /** The model part of init: every probability of every coder back to one half. */
    method InitModels()
      requires Valid() && models == Models()
      modifies models
      ensures AllInit(models) && SnapOf(models) == InitSnap(models)
    {
      InitModelsInto(isMatch, 192, {});
      ghost var done: set<array<prob>> := {isMatch};
      InitModelsInto(isRep0Long, 192, done);
      done := done + {isRep0Long};
      InitModelsInto(isRep, 12, done);
      done := done + {isRep};
      InitModelsInto(isRepG0, 12, done);
      done := done + {isRepG0};
      InitModelsInto(isRepG1, 12, done);
      done := done + {isRepG1};
      InitModelsInto(isRepG2, 12, done);
      done := done + {isRepG2};
      InitModelsInto(posDecoders, 114, done);
      done := done + {posDecoders};
      InitLiteralInto(literalDecoder, done);
      done := done + literalDecoder.Models();
      InitPosSlots(done);
      done := done + TreeModels(posSlotDecoder);
      InitLenInto(lenDecoder, done);
      done := done + lenDecoder.Models();
      InitLenInto(repLenDecoder, done);
      done := done + repLenDecoder.Models();
      InitTreeInto(posAlignDecoder, done);
      done := done + {posAlignDecoder.models};
      assert models <= done;
      SnapInit(models);
    }

    /** The `while (i--)` loop of init over the four position-slot trees. */
    method InitPosSlots(ghost done: set<array<prob>>)
      requires Valid() && AllInit(done)
      modifies TreeModels(posSlotDecoder)
      ensures AllInit(done + TreeModels(posSlotDecoder))
    {
      var i := 4;
      ghost var all := done;
      while i > 0
        invariant 0 <= i <= 4
        invariant all == done + TreeModels(posSlotDecoder[i..]) && AllInit(all)
      {
        i := i - 1;
        TreeModelsCons(posSlotDecoder, i);
        SlotTree(i);
        InitTreeInto(posSlotDecoder[i], all);
        all := all + {posSlotDecoder[i].models};
      }
      assert posSlotDecoder[0..] == posSlotDecoder;
    }

    /** Each of the four position-slot trees has 6 levels and is among the models. */
    lemma SlotTree(i: int)
      requires Slots() && 0 <= i < 4
      ensures Tree(posSlotDecoder[i], 6) && posSlotDecoder[i].models in models
    {
    }

    /** init: the window emptied, every model at one half, and the range decoder primed with five bytes. */
    method Init()
      requires Valid() && models == Models() && window.buffer != window.stream.data
      modifies models, window, rd, rd.stream
      ensures window.Valid() && rd.Normalized()
      ensures window.stream == old(window.stream) && window.Output == [] && window.Base == window.stream.Written
      ensures rd.stream == old(rd.stream) && rd.stream.offset == old(rd.stream.offset) + 5
      ensures rd.State() == InitialRange(rd.stream.data, old(rd.stream.offset)) && SnapOf(models) == InitSnap(models)
    {
      InitModels();
      RangeInitBeside(rd, models);
      WindowInitBeside(window, models);
    }

    /**
     * The literal branch of decode: the coder chosen by the position and the
     * previous byte decodes one byte, using the byte at rep0 as match byte
     * after a match or rep, and the window appends it.
     */
    method LiteralPacket(nowPos: nat, state: int, rep0: int, prevByte: byte) returns (b: byte)
      requires Literals() && Sized() && window.Valid() && rd.Normalized() && IsState(state) && nowPos == |window.Output|
      requires state >= 7 ==> 0 <= rep0 < nowPos && rep0 < dictionarySizeCheck
      modifies models, rd, rd.stream, window, window.buffer, window.stream, window.stream.data
      ensures window.Valid() && rd.Normalized() && rd.stream == old(rd.stream) && window.stream == old(window.stream) && window.Base == old(window.Base)
      ensures window.Output == old(window.Output) + [b]
      ensures old(window.stream.Scattered()) && |window.Base + window.Output| <= window.stream.len ==> window.stream.Scattered()
      ensures var c := literalDecoder.In(rd.stream.data, old(rd.State()), old(SnapOf(models)), nowPos, prevByte, state >= 7, MatchByte(old(window.Output), rep0));
        b as int == c.value && rd.State() == c.after && SnapOf(models) == c.models
    {
      var decoder2 := literalDecoder.GetDecoder(nowPos, prevByte);
      b := LiteralInto(window, rd, decoder2, state >= 7, rep0, models);
    }

    /**
     * The rep branch of decode: isRepG0, isRep0Long, isRepG1 and isRepG2
     * choose one of the four rep distances and move it to the front; a short
     * rep (rep0 again, isRep0Long 0) is one byte, any other rep takes its
     * length from the rep length decoder.
     */
    method RepPacket(state: int, posState: int, reps: Reps) returns (len: int, reps': Reps, ghost n: int)
      requires Flat() && pb <= 4 && Coder(repLenDecoder) && rd.Normalized() && IsState(state) && 0 <= posState < Pow2(pb)
      modifies models, rd, rd.stream
      ensures rd.Normalized() && rd.stream == old(rd.stream)
      ensures 0 <= n < 4 && reps' == AfterRep(reps, n)
      ensures len == 1 ==> n == 0
      ensures len == 1 || MATCH_MIN_LEN <= len <= MATCH_MAX_LEN
      ensures var h := RepIn(rd.stream.data, old(rd.State()), old(SnapOf(models)), state, posState, reps);
        len == h.len && reps' == h.reps && rd.State() == h.after && SnapOf(models) == h.models
    {
      ghost var h := RepIn(rd.stream.data, rd.State(), SnapOf(models), state, posState, reps);
      ghost var c := RepChoiceIn(rd.stream.data, rd.State(), SnapOf(models), state, posState);
      Pow2Mono(pb, 4);
      Pow2Values();
      len, reps', n := RepChoice(state, posState, reps);
      if len == 0 {
        assert h == RepLenIn(rd.stream.data, c.after, c.models, posState, reps');
        var l := repLenDecoder.TrackedDecode(rd, posState, models);
        len := MATCH_MIN_LEN + l;
      } else {
        assert h == Header(ShortRep, 1, reps, c.after, c.models);
      }
    }

    /**
     * The distance choice of a rep packet: len is 1 for a short rep and 0
     * while the length is still to come; the chosen rep moves to the front.
     */
    method RepChoice(state: int, posState: int, reps: Reps) returns (len: int, reps': Reps, ghost n: int)
      requires Flat() && rd.Normalized() && IsState(state) && 0 <= posState < 16
      modifies models, rd, rd.stream
      ensures rd.Normalized() && rd.stream == old(rd.stream)
      ensures var c := RepChoiceIn(rd.stream.data, old(rd.State()), old(SnapOf(models)), state, posState);
        n == c.n && (len == 1 <==> c.short) && (len == 0 <==> !c.short)
        && reps' == AfterRep(reps, n) && rd.State() == c.after && SnapOf(models) == c.models
    {
      var rep0, rep1, rep2, rep3 := reps.rep0, reps.rep1, reps.rep2, reps.rep3;
      len := 0;
      var g0 := TrackedBit(rd, isRepG0, state, models);
      if g0 == 0 {
        var long := TrackedBit(rd, isRep0Long, state * 16 + posState, models);
        if long == 0 {
          len := 1;
        }
        n := 0;
      } else {
        var distance;
        var g1 := TrackedBit(rd, isRepG1, state, models);
        if g1 == 0 {
          distance := rep1;
          n := 1;
        } else {
          var g2 := TrackedBit(rd, isRepG2, state, models);
          if g2 == 0 {
            distance := rep2;
            n := 2;
          } else {
            distance := rep3;
            rep3 := rep2;
            n := 3;
          }
          rep2 := rep1;
        }
        rep1 := rep0;
        rep0 := distance;
      }
      reps' := Reps(rep0, rep1, rep2, rep3);
    }

    /**
     * The match branch of decode: a length from the length decoder, a slot
     * from the slot tree of that length, and the slot's low bits, from the
     * position models below slot 14 and as direct bits and four aligned bits
     * from slot 14 on.
     */
    method MatchPacket(posState: int) returns (len: int, distance: int, posSlot: int, ghost low: int)
      requires Flat() && Slots() && Lengths() && rd.Normalized() && 0 <= posState < Pow2(pb)
      modifies models, rd, rd.stream
      ensures rd.Normalized() && rd.stream == old(rd.stream)
      ensures MATCH_MIN_LEN <= len <= MATCH_MAX_LEN
      ensures 0 <= posSlot < 64 && (posSlot >= 4 ==> 0 <= low < Pow2(DirectBits(posSlot)))
      ensures distance == Distance(posSlot, low)
      ensures var x := MatchIn(rd.stream.data, old(rd.State()), old(SnapOf(models)), posState);
        len == x.len && posSlot == x.posSlot && low == x.low && rd.State() == x.after && SnapOf(models) == x.models
    {
      var l := lenDecoder.TrackedDecode(rd, posState, models);
      len := MATCH_MIN_LEN + l;
      var k := if len <= 5 then len - 2 else 3;
      SlotTree(k);
      posSlot := TrackedTree(posSlotDecoder[k], rd, models);
      Pow2Values();
      distance, low := SlotDistance(posSlot);
    }

    /**
     * The distance of a normal match from its slot: the slot itself below 4,
     * and from slot 4 on the slot's base plus its low bits, from the position
     * models below slot 14 and as direct bits and four aligned bits above.
     */
    method SlotDistance(posSlot: int) returns (distance: int, low: int)
      requires posDecoders.Length == 114 && Tree(posAlignDecoder, 4) && rd.Normalized() && 0 <= posSlot < 64
      requires posDecoders in models && posAlignDecoder.models in models
      modifies posDecoders, posAlignDecoder.models, rd, rd.stream
      ensures rd.Normalized() && rd.stream == old(rd.stream)
      ensures posSlot >= 4 ==> 0 <= low < Pow2(DirectBits(posSlot))
      ensures distance == Distance(posSlot, low)
      ensures var c := LowIn(rd.stream.data, old(rd.State()), old(SnapOf(models)), posSlot);
        low == c.value && rd.State() == c.after && SnapOf(models) == c.models
    {
      ghost var h := LowIn(rd.stream.data, rd.State(), SnapOf(models), posSlot);
      if posSlot >= 4 {
        var numDirectBits := DirectBits(posSlot);
        distance := SlotBase(posSlot);
        if posSlot < 14 {
          assert h == ReverseIn(rd.stream.data, rd.State(), SnapOf(models), posDecoders, distance - posSlot - 1, numDirectBits);
          low := PosBits(posSlot, numDirectBits, distance);
        } else {
          low := AlignedBits(numDirectBits);
        }
        distance := distance + low;
      } else {
        distance := posSlot;
        low := 0;
      }
    }

    /** The low bits of a slot below 14, reverse-decoded with the position models from `base - posSlot - 1` on. */
    method PosBits(posSlot: int, numDirectBits: nat, base: int) returns (low: int)
      requires posDecoders.Length == 114 && posDecoders in models && rd.Normalized() && 4 <= posSlot < 14
      requires numDirectBits == DirectBits(posSlot) && base == SlotBase(posSlot)
      modifies posDecoders, rd, rd.stream
      ensures rd.Normalized() && rd.stream == old(rd.stream)
      ensures 0 <= low < Pow2(numDirectBits)
      ensures var c := ReverseIn(rd.stream.data, old(rd.State()), old(SnapOf(models)), posDecoders, base - posSlot - 1, numDirectBits);
        low == c.value && rd.State() == c.after && SnapOf(models) == c.models
    {
      PosDecodersFit(posSlot);
      var start := base - posSlot - 1;
      assert 0 <= start + 1 && start + Pow2(numDirectBits) <= posDecoders.Length;
      low := TrackedReverse(posDecoders, start, rd, numDirectBits, models);
    }

    /** The low bits of a slot from 14 on: direct bits above four bits reverse-decoded by the alignment tree. */
    method AlignedBits(numDirectBits: nat) returns (low: int)
      requires Tree(posAlignDecoder, 4) && posAlignDecoder.models in models && rd.Normalized() && numDirectBits >= 4
      modifies posAlignDecoder.models, rd, rd.stream
      ensures rd.Normalized() && rd.stream == old(rd.stream)
      ensures 0 <= low < Pow2(numDirectBits)
      ensures var d := DirectWalk(rd.stream.data, old(rd.State()), numDirectBits - 4);
        var a := ReverseIn(rd.stream.data, d.1, old(SnapOf(models)), posAlignDecoder.models, 0, 4);
        low == MsbValue(d.0) * 16 + a.value && rd.State() == a.after && SnapOf(models) == a.models
    {
      var direct := TrackedDirect(rd, numDirectBits - 4, models);
      var align := TrackedReverseTree(posAlignDecoder, rd, models);
      Pow2Values();
      LowBits(direct, align, numDirectBits);
      low := direct * 16 + align;
    }

    /**
     * Everything of a packet but its bytes: the isMatch bit tells a literal
     * from a copy, then the isRep bit chooses between a rep packet and a
     * normal match, which decode the length and the new rep distances.
     */
    method PacketHeader(state: int, posState: int, reps: Reps)
      returns (p: Packet, len: int, reps': Reps, ghost n: int)
      requires Flat() && Slots() && Lengths() && rd.Normalized() && IsState(state) && 0 <= posState < Pow2(pb)
      modifies models, rd, rd.stream
      ensures rd.Normalized() && rd.stream == old(rd.stream)
      ensures p == Literal ==> reps' == reps
      ensures p != Literal ==> 1 <= len <= MATCH_MAX_LEN && (len == 1 <==> p == ShortRep)
      ensures p == LongRep || p == ShortRep ==> 0 <= n < 4 && reps' == AfterRep(reps, n) && (p == ShortRep ==> n == 0)
      ensures p == Match ==> reps' == AfterMatch(reps, reps'.rep0)
      ensures var h := HeaderIn(rd.stream.data, old(rd.State()), old(SnapOf(models)), state, posState, reps);
        p == h.p && len == h.len && reps' == h.reps && rd.State() == h.after && SnapOf(models) == h.models
    {
      Pow2Mono(pb, 4);
      Pow2Values();
      n := 0;
      var m := TrackedBit(rd, isMatch, state * 16 + posState, models);
      if m == 0 {
        p, len, reps' := Literal, 1, reps;
        return;
      }
      var r := TrackedBit(rd, isRep, state, models);
      if r == 1 {
        len, reps', n := RepPacket(state, posState, reps);
        p := if len == 1 then ShortRep else LongRep;
      } else {
        var distance, posSlot;
        ghost var low;
        len, distance, posSlot, low := MatchPacket(posState);
        reps' := AfterMatch(reps, distance);
        p := Match;
      }
    }

    /**
     * One iteration of decode's loop: an isMatch bit, then a literal or a
     * copy.  A match whose distance is negative is the end marker when it is
     * -1 and corrupt data otherwise; a copy from before the first byte or
     * beyond the dictionary is corrupt data, and leaves the output as it was.
     */
    method DecodePacket(nowPos: nat, state: int, reps: Reps, prevByte: byte)
      returns (st: Status, state': int, reps': Reps, prevByte': byte, len: nat, p: Packet, ghost op: Op)
      requires Ready() && IsState(state) && nowPos == |window.Output|
      requires state >= 7 ==> 0 <= reps.rep0 < nowPos && reps.rep0 < dictionarySizeCheck
      modifies models, rd, rd.stream, window, window.buffer, window.stream, window.stream.data
      ensures window.Valid() && rd.Normalized() && rd.stream == old(rd.stream) && window.stream == old(window.stream) && window.Base == old(window.Base)
      ensures old(window.stream.Scattered()) && |window.Base + window.Output| <= window.stream.len ==> window.stream.Scattered()
      ensures st != Next ==> window.Output == old(window.Output)
      ensures st == Next ==> |window.Output| == nowPos + len
      ensures var k := PacketIn(rd.stream.data, old(Now(state, reps, prevByte)));
        && p == k.p && reps'.rep0 == k.distance && (st == Next <==> k.Go?)
        && (k.Go? ==> op == k.op && Now(state', reps', prevByte') == k.next)
        && (k.Stop? ==> st == k.st && rd.State() == k.after)
    {
      Pow2Mono(pb, 4);
      var posState := nowPos % Pow2(pb);
      var l;
      ghost var n;
      p, l, reps', n := PacketHeader(state, posState, reps);
      assert unchanged(window, window.buffer, window.stream, window.stream.data);
      label header:
      state' := NextState(state, p);
      len := if p == Literal then 1 else l;
      st, prevByte', op := PacketBytes(nowPos, state, p, reps', len, prevByte);
      assert PacketIn(rd.stream.data, old(Now(state, reps, prevByte)))
        == PacketTail(rd.stream.data, old(window.Output), state, prevByte, Header(p, len, reps', old@header(rd.State()), old@header(SnapOf(models))));
    }

    /**
     * The bytes of a packet whose header is decoded: a literal byte, or the
     * copy of a match or rep at distance rep0.
     */
    method PacketBytes(nowPos: nat, state: int, p: Packet, reps: Reps, len: nat, prevByte: byte)
      returns (st: Status, prevByte': byte, ghost op: Op)
      requires Literals() && Sized() && window.Valid() && rd.Normalized() && IsState(state) && nowPos == |window.Output|
      requires p == Literal ==> len == 1 && (state >= 7 ==> 0 <= reps.rep0 < nowPos && reps.rep0 < dictionarySizeCheck)
      requires p != Literal ==> 1 <= len
      modifies models, rd, rd.stream, window, window.buffer, window.stream, window.stream.data
      ensures window.Valid() && rd.Normalized() && rd.stream == old(rd.stream) && window.stream == old(window.stream) && window.Base == old(window.Base)
      ensures old(window.stream.Scattered()) && |window.Base + window.Output| <= window.stream.len ==> window.stream.Scattered()
      ensures st == EndMarker <==> p != Literal && reps.rep0 == -1
      ensures st == Next <==> p == Literal || (0 <= reps.rep0 < nowPos && reps.rep0 < dictionarySizeCheck)
      ensures st == Corrupt <==> CorruptDistance(p, reps.rep0, nowPos, dictionarySizeCheck)
      ensures st != Next ==> window.Output == old(window.Output)
      ensures st == Next ==> Step(old(window.Output), op) == Some(window.Output)
      ensures st == Next ==> |window.Output| == nowPos + len
      ensures st == Next ==> LastIs(window.Output, prevByte')
      ensures st == Next ==> (p == Literal ==> op == Lit(prevByte')) && (p != Literal ==> op == Copy(reps.rep0, len))
      ensures var k := PacketTail(rd.stream.data, old(window.Output), state, prevByte, Header(p, len, reps, old(rd.State()), old(SnapOf(models))));
        && (st == Next <==> k.Go?) && (k.Stop? ==> st == k.st && k.p == p && k.distance == reps.rep0 && k.after == rd.State())
        && (k.Go? ==> k.p == p && k.distance == reps.rep0 && op == k.op && k.next == Dec(rd.State(), SnapOf(models), window.Output, NextState(state, p), reps, prevByte'))
    {
      op := Lit(0);
      ghost var k := PacketTail(rd.stream.data, window.Output, state, prevByte, Header(p, len, reps, rd.State(), SnapOf(models)));
      if p == Literal {
        prevByte' := LiteralPacket(nowPos, state, reps.rep0, prevByte);
        st, op := Next, Lit(prevByte');
        return;
      }
      ghost var before := window.Output;
      st, prevByte' := CopyPacket(nowPos, reps.rep0, len);
      if st == Next {
        op := Copy(reps.rep0, len);
        assert Step(before, op) == Some(LzCopy(before, reps.rep0, len));
      }
    }

    /**
     * The copy of a match or rep packet: a negative distance ends the loop
     * (-1, the end marker) or fails it; so does a distance reaching before
     * the first byte or beyond the dictionary.  Otherwise the window copies
     * len bytes and the last of them becomes the previous byte.
     */
    method CopyPacket(nowPos: nat, distance: int, len: nat) returns (st: Status, prevByte': byte)
      requires Sized() && window.Valid() && nowPos == |window.Output|
      modifies window, window.buffer, window.stream, window.stream.data
      ensures window.Valid() && window.stream == old(window.stream) && window.Base == old(window.Base)
      ensures old(window.stream.Scattered()) && |window.Base + window.Output| <= window.stream.len ==> window.stream.Scattered()
      ensures st == EndMarker <==> distance == -1
      ensures st == Next <==> 0 <= distance < nowPos && distance < dictionarySizeCheck
      ensures st != Next ==> window.Output == old(window.Output)
      ensures st == Next ==> window.Output == LzCopy(old(window.Output), distance, len)
      ensures st == Next ==> LastIs(window.Output, prevByte')
      ensures SnapOf(models) == old(SnapOf(models))
    {
      prevByte' := 0;
      if distance < 0 {
        st := if distance == -1 then EndMarker else Corrupt;
        return;
      }
      if distance >= nowPos || distance >= dictionarySizeCheck {
        st := Corrupt;
        return;
      }
      CopyBlockBeside(window, distance, len, models);
      prevByte' := GetByteBeside(window, 0, models);
      st := Next;
    }

    /**
     * decode: packets until outSize bytes are produced or the end marker is
     * met, then the window is flushed.  The ghost `ops` are the packets as
     * the output sees them: what reaches the output stream is exactly their
     * replay.  `last` and `distance` are the kind and the rep0 of the last
     * packet decoded: decode returns false, without flushing, exactly when
     * that is a match or rep whose distance is neither the end marker nor a
     * copy from within the output and the dictionary.
     */
    method Decode(outSize: nat) returns (ok: bool, ghost ops: seq<Op>, ghost end: Status, ghost last: Packet, ghost distance: int)
      requires Valid() && models == Models() && window.buffer != window.stream.data
      modifies models, window, window.buffer, window.stream, window.stream.data, rd, rd.stream
      ensures rd.stream == old(rd.stream) && window.stream == old(window.stream)
      ensures ok <==> end != Corrupt
      ensures Replay(ops).Some?
      ensures !ok <==> CorruptDistance(last, distance, |Replay(ops).value|, dictionarySizeCheck)
      ensures end == EndMarker <==> last != Literal && distance == -1
      ensures end == Next ==> |Replay(ops).value| >= outSize
      ensures end != Next ==> |Replay(ops).value| < outSize
      ensures ok ==> window.stream.Written == old(window.stream.Written) + Replay(ops).value
      ensures ok && old(window.stream.Scattered()) && |window.stream.Written| <= window.stream.len ==> window.stream.Scattered()
      ensures Run(rd.stream.data, Start(rd.stream.data, old(rd.stream.offset)), outSize, Literal, 0) == Outcome(ops, end, last, distance, rd.State())
    {
      Init();
      assert Now(0, Reps(0, 0, 0, 0), 0) == Start(rd.stream.data, old(rd.stream.offset));
      ok, ops, end, last, distance := PacketsAndFlush(outSize);
    }

    /** decode after init: the loop, then the flush unless the data was corrupt. */
    method PacketsAndFlush(outSize: nat) returns (ok: bool, ghost ops: seq<Op>, ghost end: Status, ghost last: Packet, ghost distance: int)
      requires Ready() && window.Output == []
      modifies models, window, window.buffer, window.stream, window.stream.data, rd, rd.stream
      ensures rd.stream == old(rd.stream) && window.stream == old(window.stream)
      ensures ok <==> end != Corrupt
      ensures Replay(ops).Some?
      ensures !ok <==> CorruptDistance(last, distance, |Replay(ops).value|, dictionarySizeCheck)
      ensures end == EndMarker <==> last != Literal && distance == -1
      ensures end == Next ==> |Replay(ops).value| >= outSize
      ensures end != Next ==> |Replay(ops).value| < outSize
      ensures ok ==> window.stream.Written == old(window.Base) + Replay(ops).value
      ensures ok && old(window.stream.Scattered()) && |window.stream.Written| <= window.stream.len ==> window.stream.Scattered()
      ensures Run(rd.stream.data, old(Now(0, Reps(0, 0, 0, 0), 0)), outSize, Literal, 0) == Outcome(ops, end, last, distance, rd.State())
    {
      ok, ops, end, last, distance := Packets(outSize);
      ghost var out := window.Output;
      assert Replay(ops) == Some(out);
      if ok {
        window.Flush();
        assert window.stream.Written == old(window.Base) + out;
      }
    }

    /**
     * One iteration of decode's loop, with the packet appended to the ghost
     * replay; p and distance are the kind and the rep0 of the packet decoded.
     */
    method Advance(nowPos: nat, state: int, reps: Reps, prevByte: byte, ghost ops: seq<Op>)
      returns (st: Status, state': int, reps': Reps, prevByte': byte, nowPos': nat, ghost ops': seq<Op>, ghost p: Packet, ghost distance: int)
      requires Ready() && IsState(state) && RepsOk(reps)
      requires Replay(ops) == Some(window.Output) && nowPos == |window.Output|
      requires state >= 7 ==> reps.rep0 < nowPos && reps.rep0 < dictionarySizeCheck
      modifies models, window, window.buffer, window.stream, window.stream.data, rd, rd.stream
      ensures window.Valid() && rd.Normalized() && rd.stream == old(rd.stream) && window.stream == old(window.stream) && window.Base == old(window.Base)
      ensures old(window.stream.Scattered()) && |window.Base + window.Output| <= window.stream.len ==> window.stream.Scattered()
      ensures st != Next ==> window.Output == old(window.Output) && nowPos' == nowPos && ops' == ops
      ensures IsState(state') && RepsOk(reps')
      ensures Replay(ops') == Some(window.Output) && nowPos' == |window.Output|
      ensures st == Next ==> nowPos' > nowPos
      ensures state' >= 7 ==> reps'.rep0 < nowPos' && reps'.rep0 < dictionarySizeCheck
      ensures st == EndMarker <==> p != Literal && distance == -1
      ensures st == Corrupt <==> CorruptDistance(p, distance, nowPos, dictionarySizeCheck)
      ensures var k := PacketIn(rd.stream.data, old(Now(state, reps, prevByte)));
        && p == k.p && distance == k.distance && (st == Next <==> k.Go?)
        && (k.Go? ==> ops' == ops + [k.op] && Now(state', reps', prevByte') == k.next)
        && (k.Stop? ==> st == k.st && rd.State() == k.after)
    {
      PacketFacts(rd.stream.data, Now(state, reps, prevByte));
      var len;
      ghost var op;
      st, state', reps', prevByte', len, p, op := DecodePacket(nowPos, state, reps, prevByte);
      distance := reps'.rep0;
      if st != Next {
        return st, state, reps, prevByte, nowPos, ops, p, distance;
      }
      ReplaySnoc(ops, op);
      ops' := ops + [op];
      nowPos' := nowPos + len;
    }

    /**
     * The loop of decode, from a freshly initialised decoder up to outSize
     * bytes, the end marker or corrupt data; last and distance are the kind
     * and the rep0 of the last packet decoded (a literal before the first).
     */
    method Packets(outSize: nat) returns (ok: bool, ghost ops: seq<Op>, ghost end: Status, ghost last: Packet, ghost distance: int)
      requires Ready() && window.Output == []
      modifies models, window, window.buffer, window.stream, window.stream.data, rd, rd.stream
      ensures window.Valid() && rd.stream == old(rd.stream) && window.stream == old(window.stream) && window.Base == old(window.Base)
      ensures ok <==> end != Corrupt
      ensures Replay(ops) == Some(window.Output)
      ensures end == Next ==> |window.Output| >= outSize
      ensures end != Next ==> |window.Output| < outSize
      ensures end == EndMarker <==> last != Literal && distance == -1
      ensures end == Corrupt <==> CorruptDistance(last, distance, |window.Output|, dictionarySizeCheck)
      ensures old(window.stream.Scattered()) && |window.Base + window.Output| <= window.stream.len ==> window.stream.Scattered()
      ensures Run(rd.stream.data, old(Now(0, Reps(0, 0, 0, 0), 0)), outSize, Literal, 0) == Outcome(ops, end, last, distance, rd.State())
    {
      var state, reps, nowPos, prevByte := 0, Reps(0, 0, 0, 0), 0, 0;
      ops, last, distance := [], Literal, 0;
      ghost var wasScattered := window.stream.Scattered();
      ghost var data, d0 := rd.stream.data, Now(state, reps, prevByte);
      var st := Next;
      while nowPos < outSize && st == Next
        invariant window.Valid() && rd.Normalized() && rd.stream == old(rd.stream)
        invariant window.stream == old(window.stream) && window.Base == old(window.Base)
        invariant IsState(state) && RepsOk(reps)
        invariant Replay(ops) == Some(window.Output) && nowPos == |window.Output|
        invariant state >= 7 ==> reps.rep0 < nowPos && reps.rep0 < dictionarySizeCheck
        invariant st == Next ==> last == Literal || (0 <= distance < nowPos && distance < dictionarySizeCheck)
        invariant st != Next ==> nowPos < outSize
        invariant st == EndMarker <==> last != Literal && distance == -1
        invariant st == Corrupt <==> CorruptDistance(last, distance, nowPos, dictionarySizeCheck)
        invariant wasScattered && |window.Base + window.Output| <= window.stream.len ==> window.stream.Scattered()
        invariant Follows(data, d0, outSize, ops, st, Now(state, reps, prevByte), last, distance)
        decreases outSize - nowPos, if st == Next then 1 else 0
      {
        FollowsStep(data, d0, outSize, ops, Now(state, reps, prevByte), last, distance);
        st, state, reps, prevByte, nowPos, ops, last, distance := Advance(nowPos, state, reps, prevByte, ops);
      }
      if st == Next {
        FollowsEnd(data, d0, outSize, ops, Now(state, reps, prevByte), last, distance);
      }
      end := st;
      ok := st != Corrupt;
    }
  }

  /** Why LZMA.decompress throws. */
  datatype Failure = IncorrectProperties | DataError

  /**
   * setDecoderProperties: the first byte gives lc, lp and pb, rejected when
   * pb > 4 before anything else is read; four more bytes give the
   * dictionary size.  The `size < 5` guard is modelled as written: it never
   * rejects.
   */
  method SetDecoderProperties(properties: Stream) returns (r: Option<Props>)
    modifies properties
    ensures r == PropertiesAsWritten(properties.data, old(properties.offset))
    ensures properties.offset == old(properties.offset) + (if r.Some? then 5 else 1)
  {
    var value := properties.ReadByte();
    var (lc, lp, pb) := SplitLcLpPb(value);
    SplitBounds(value);
    if pb > 4 {
      return None;
    }
    var b0 := properties.ReadByte();
    var b1 := properties.ReadByte();
    var b2 := properties.ReadByte();
    var b3 := properties.ReadByte();
    r := Some(Props(lc, lp, pb, b0 + TWO8 * b1 + TWO16 * b2 + (b3 as int) * 0x100_0000));
  }

  /**
   * LZMA.decompress over a CTM chunk: the properties and the packed data
   * come from the same stream, the output goes to an interleaved stream.
   * Bad properties and a corrupt data stream are the two errors; on success
   * the stream has received the replay of the decoded packets, at least
   * outSize bytes of it unless the end marker came first.
   */
  method Decompress(inStream: Stream, outStream: InterleavedStream, outSize: nat)
    returns (r: Option<Failure>, ghost ops: seq<Op>, ghost end: Status, ghost last: Packet, ghost distance: int, ghost decoder: Decoder?)
    modifies inStream, outStream, outStream.data
    ensures r == Some(IncorrectProperties) <==> ByteAt(inStream.data, old(inStream.offset)) >= 225
    ensures r == Some(DataError) <==>
      && PropertiesAsWritten(inStream.data, old(inStream.offset)).Some?
      && Replay(ops).Some?
      && CorruptDistance(last, distance, |Replay(ops).value|,
           DictionaryCheck(PropertiesAsWritten(inStream.data, old(inStream.offset)).value.dictionarySize))
    ensures r.None? ==> Replay(ops).Some? && outStream.Written == old(outStream.Written) + Replay(ops).value
    ensures r.None? && old(outStream.Scattered()) && |outStream.Written| <= outStream.len ==> outStream.Scattered()
    ensures r != Some(IncorrectProperties) ==>
      && PropertiesAsWritten(inStream.data, old(inStream.offset)).Some?
      && var props := PropertiesAsWritten(inStream.data, old(inStream.offset)).value;
      && decoder != null && decoder.Valid() && decoder.dictionarySize == props.dictionarySize && decoder.pb == props.pb
      && decoder.literalDecoder.numPrevBits == props.lc && decoder.literalDecoder.numPosBits == props.lp
      && decoder.rd.stream == inStream
      && var o := decoder.Run(inStream.data, decoder.Start(inStream.data, old(inStream.offset) + 5), outSize, Literal, 0);
      && o == Outcome(ops, end, last, distance, decoder.rd.State()) && inStream.offset == o.after.offset
  {
    ghost var scattered, written := outStream.Scattered(), outStream.Written;
    var props := SetDecoderProperties(inStream);
    if props.None? {
      return Some(IncorrectProperties), [], Next, Literal, 0, null;
    }
    SplitBounds(ByteAt(inStream.data, old(inStream.offset)));
    var d := new Decoder(props.value, inStream, outStream);
    assert outStream.Scattered() == scattered && outStream.Written == written;
    var ok;
    ok, ops, end, last, distance := d.Decode(outSize);
    decoder := d;
    r := if ok then None else Some(DataError);
  }

  /** The direct bits above the four aligned bits fill exactly the slot's low bits. */
  lemma LowBits(direct: int, align: int, n: int)
    requires n >= 4 && 0 <= direct < Pow2(n - 4) && 0 <= align < 16
    ensures 0 <= direct * 16 + align < Pow2(n)
  {
    Pow2Add(n - 4, 4);
    Pow2Values();
    MulLe(16, direct, Pow2(n - 4) - 1);
  }
}
