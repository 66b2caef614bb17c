/**
 * The composite coders of the LZMA decoder: the match-length decoder
 * (LZMA.LenDecoder), the literal coder of one context (LZMA.Decoder2) and
 * the table of literal coders indexed by position and previous byte
 * (LZMA.LiteralDecoder).
 *
 * Each coder owns arrays of probability models; the ghost set `Models`
 * collects them for the frames of the methods, and `Valid` says that each
 * array is sized for its coder; the bounds of every probability are carried
 * by the element type `prob`.  Whether two coders share an array is never
 * relied on.
 */
module LzmaCoders {
  import opened JsInt
  import opened LzmaRange
  import opened LzmaModel

  /** Every probability of a set of models is at one half, as initBitModels leaves it. */
  ghost predicate AllInit(models: set<array<prob>>)
    reads models
  {
    forall a, i :: a in models && 0 <= i < a.Length ==> a[i] == PROB_INIT
  }

  // ----- the models as a value -----

  /** The contents of arrays of models, by array: what the decoder's specification functions read and adapt. */
  type Snap = map<array<prob>, seq<prob>>

  /** What a set of arrays of models holds now. */
  ghost function SnapOf(arrays: set<array<prob>>): (m: Snap)
    reads arrays
    ensures m.Keys == arrays
  {
    map a | a in arrays :: a[..]
  }

  /** The models of one array of a snapshot; an array the snapshot does not hold has none. */
  function At(m: Snap, a: array<prob>): seq<prob>
  {
    if a in m then m[a] else []
  }

  /** A value decoded with the models of a snapshot: the value, the registers after it and the adapted snapshot. */
  datatype Coded = Coded(value: int, after: RangeState, models: Snap)

  /**
   * decodeBit on a snapshot: the bit of model i of array a, which adapts to
   * it.  (An index outside the array reads one half and adapts nothing.)
   */
  function BitIn(data: seq<byte>, s: RangeState, m: Snap, a: array<prob>, i: int): (c: Coded)
    requires s.range >= TOP
    ensures (c.value == 0 || c.value == 1) && c.after.range >= TOP
    ensures 0 <= i < |At(m, a)| ==> c.models == m[a := At(m, a)[i := Adapt(At(m, a)[i], c.value)]]
  {
    var ms := At(m, a);
    var p: prob := if 0 <= i < |ms| then ms[i] else PROB_INIT;
    var bit := BitOf(s, p);
    AdaptKeepsBounds(p, bit);
    Coded(bit, AfterBit(s, p, data), m[a := if 0 <= i < |ms| then ms[i := Adapt(p, bit)] else ms])
  }

  /** A bit-tree decode of n levels on a snapshot: the value of the bits of TreeWalk down the tree in array a. */
  function TreeIn(data: seq<byte>, s: RangeState, m: Snap, a: array<prob>, n: nat): (c: Coded)
    requires s.range >= TOP
    ensures 0 <= c.value < Pow2(n) && c.after.range >= TOP
  {
    var w := TreeWalk(data, s, At(m, a), 0, 1, n);
    MsbValueBound(w.bits);
    Coded(MsbValue(w.bits), w.after, m[a := w.models])
  }

  /** A reverse bit-tree decode of n levels on a snapshot, from index start of array a: the bits read least significant first. */
  function ReverseIn(data: seq<byte>, s: RangeState, m: Snap, a: array<prob>, start: int, n: nat): (c: Coded)
    requires s.range >= TOP
    ensures c.after.range >= TOP && c.models.Keys == m.Keys + {a}
  {
    var w := TreeWalk(data, s, At(m, a), start, 1, n);
    Coded(LsbValue(w.bits), w.after, m[a := w.models])
  }

  /** After a change to array a alone, a snapshot of the arrays is the old one with a's new contents. */
  lemma SnapAfter(arrays: set<array<prob>>, m0: Snap, a: array<prob>)
    requires m0.Keys == arrays && a in arrays
    requires forall b :: b in arrays && b != a ==> b[..] == m0[b]
    ensures SnapOf(arrays) == m0[a := a[..]]
  {
  }

  /** After a change to arrays a and b alone, a snapshot of the arrays is the old one with their new contents. */
  lemma SnapAfter2(arrays: set<array<prob>>, m0: Snap, a: array<prob>, b: array<prob>)
    requires m0.Keys == arrays && a in arrays && b in arrays
    requires forall c :: c in arrays && c != a && c != b ==> c[..] == m0[c]
    ensures SnapOf(arrays) == m0[a := a[..]][b := b[..]]
  {
  }

  /** decodeBit of model i of array a, one of the arrays: the bit, the registers and the arrays' snapshot are those of BitIn. */
  method TrackedBit(rd: RangeDecoder, a: array<prob>, i: int, ghost arrays: set<array<prob>>) returns (bit: int)
    requires rd.Normalized() && a in arrays && 0 <= i < a.Length
    modifies rd, rd.stream, a
    ensures rd.Normalized() && rd.stream == old(rd.stream)
    ensures var c := BitIn(rd.stream.data, old(rd.State()), old(SnapOf(arrays)), a, i);
      bit == c.value && rd.State() == c.after && SnapOf(arrays) == c.models
  {
    ghost var m0 := SnapOf(arrays);
    bit := rd.DecodeBit(a, i);
    assert forall b :: b in arrays && b != a ==> b[..] == old(b[..]);
    SnapAfter(arrays, m0, a);
  }

  /** A bit-tree decode of tree t, whose models are among the arrays: value, registers and snapshot as TreeIn gives them. */
  method TrackedTree(t: BitTreeDecoder, rd: RangeDecoder, ghost arrays: set<array<prob>>) returns (r: int)
    requires t.Valid() && rd.Normalized() && t.models in arrays
    modifies rd, rd.stream, t.models
    ensures rd.Normalized() && rd.stream == old(rd.stream)
    ensures var c := TreeIn(rd.stream.data, old(rd.State()), old(SnapOf(arrays)), t.models, t.numBitLevels);
      r == c.value && rd.State() == c.after && SnapOf(arrays) == c.models
  {
    ghost var m0 := SnapOf(arrays);
    r := t.Decode(rd);
    assert forall b :: b in arrays && b != t.models ==> b[..] == old(b[..]);
    SnapAfter(arrays, m0, t.models);
  }

  /** reverseDecode of tree t, whose models are among the arrays: the walk of ReverseIn from index 0, on the arrays' snapshot. */
  method TrackedReverseTree(t: BitTreeDecoder, rd: RangeDecoder, ghost arrays: set<array<prob>>) returns (r: int)
    requires t.Valid() && rd.Normalized() && t.models in arrays
    modifies rd, rd.stream, t.models
    ensures rd.Normalized() && rd.stream == old(rd.stream) && 0 <= r < Pow2(t.numBitLevels)
    ensures var c := ReverseIn(rd.stream.data, old(rd.State()), old(SnapOf(arrays)), t.models, 0, t.numBitLevels);
      r == c.value && rd.State() == c.after && SnapOf(arrays) == c.models
  {
    ghost var m0 := SnapOf(arrays);
    r := t.ReverseDecode(rd);
    assert forall b :: b in arrays && b != t.models ==> b[..] == old(b[..]);
    SnapAfter(arrays, m0, t.models);
  }

  /** reverseDecode2 on models among the arrays: value, registers and snapshot as ReverseIn gives them. */
  method TrackedReverse(models: array<prob>, startIndex: int, rd: RangeDecoder, numBitLevels: nat, ghost arrays: set<array<prob>>)
    returns (r: int)
    requires 0 <= startIndex + 1 && startIndex + Pow2(numBitLevels) <= models.Length
    requires rd.Normalized() && models in arrays
    modifies rd, rd.stream, models
    ensures rd.Normalized() && rd.stream == old(rd.stream) && 0 <= r < Pow2(numBitLevels)
    ensures var c := ReverseIn(rd.stream.data, old(rd.State()), old(SnapOf(arrays)), models, startIndex, numBitLevels);
      r == c.value && rd.State() == c.after && SnapOf(arrays) == c.models
  {
    ghost var m0 := SnapOf(arrays);
    r := ReverseDecode2(models, startIndex, rd, numBitLevels);
    assert forall b :: b in arrays && b != models ==> b[..] == old(b[..]);
    SnapAfter(arrays, m0, models);
  }

  /** decodeDirectBits beside the arrays of models, which it leaves as they are. */
  method TrackedDirect(rd: RangeDecoder, n: nat, ghost arrays: set<array<prob>>) returns (result: int)
    requires rd.Normalized()
    modifies rd, rd.stream
    ensures rd.Normalized() && rd.stream == old(rd.stream) && 0 <= result < Pow2(n)
    ensures var w := DirectWalk(rd.stream.data, old(rd.State()), n);
      result == MsbValue(w.0) && rd.State() == w.1 && SnapOf(arrays) == old(SnapOf(arrays))
  {
    result := rd.DecodeDirectBits(n);
    assert forall b :: b in arrays ==> b[..] == old(b[..]);
  }

  /** The smallest and largest match lengths: 2 + the 3-bit low, 3-bit mid or 8-bit high symbol. */
  const MATCH_MIN_LEN: int := 2
  const MATCH_MAX_LEN: int := 273

  /** The model arrays of a sequence of trees. */
  ghost function TreeModels(ts: seq<BitTreeDecoder>): set<array<prob>>
  {
    set t | t in ts :: t.models
  }

  lemma TreeModelsCons(ts: seq<BitTreeDecoder>, i: nat)
    requires i < |ts|
    ensures TreeModels(ts[i..]) == {ts[i].models} + TreeModels(ts[i + 1..])
  {
    assert ts[i..] == [ts[i]] + ts[i + 1..];
    assert forall u :: u in ts[i..] <==> u == ts[i] || u in ts[i + 1..];
  }

  /** initBitModels over a whole array, adding it to a set of arrays already at one half. */
  method InitModelsInto(probs: array<prob>, len: nat, ghost done: set<array<prob>>)
    requires len == probs.Length && AllInit(done)
    modifies probs
    ensures AllInit(done + {probs})
  {
    InitBitModels(probs, len);
    forall a, i | a in done + {probs} && 0 <= i < a.Length
      ensures a[i] == PROB_INIT
    {
      if a != probs {
        assert old(a[i]) == PROB_INIT;
      }
    }
  }

  /** A tree's init, adding its models to a set of arrays already at one half. */
  method InitTreeInto(t: BitTreeDecoder, ghost done: set<array<prob>>)
    requires t.Valid() && AllInit(done)
    modifies t.models
    ensures AllInit(done + {t.models})
  {
    t.Init();
    forall a, i | a in done + {t.models} && 0 <= i < a.Length
      ensures a[i] == PROB_INIT
    {
      if a != t.models {
        assert old(a[i]) == PROB_INIT;
      }
    }
  }

  /** A tree of n levels, its models sized for it. */
  ghost predicate Tree(t: BitTreeDecoder, n: nat)
  {
    t.numBitLevels == n && t.models.Length == Pow2(n)
  }

  class LenDecoder {
    const choice: array<prob>
    const lowCoder: seq<BitTreeDecoder>
    const midCoder: seq<BitTreeDecoder>
    const highCoder: BitTreeDecoder
    const numPosStates: nat

    /** Every array of models the decoder owns. */
    ghost function Models(): set<array<prob>>
    {
      {choice, highCoder.models} + TreeModels(lowCoder) + TreeModels(midCoder)
    }

    /** The shape create leaves: two choice models, a low and a mid tree per position state, a high tree. */
    ghost predicate Valid()
    {
      && choice.Length == 2
      && |lowCoder| == |midCoder| == numPosStates
      && (forall i :: 0 <= i < numPosStates ==> Tree(lowCoder[i], 3) && Tree(midCoder[i], 3))
      && (forall i :: 0 <= i < numPosStates ==> lowCoder[i].models != choice && midCoder[i].models != choice)
      && Tree(highCoder, 8) && highCoder.models != choice
    }

    /** `new LenDecoder()` and create(numPosStates); the probabilities are set by init. */
    constructor (numPosStates: nat)
      ensures this.numPosStates == numPosStates && Valid() && fresh(Models())
    {
      var ch := new prob[2];
      var high := new BitTreeDecoder(8);
      var low: seq<BitTreeDecoder> := [];
      var mid: seq<BitTreeDecoder> := [];
      while |low| < numPosStates
        invariant |low| == |mid| <= numPosStates
        invariant forall i :: 0 <= i < |low| ==> Tree(low[i], 3) && Tree(mid[i], 3)
        invariant forall i :: 0 <= i < |low| ==> fresh(low[i].models) && fresh(mid[i].models)
        invariant forall i :: 0 <= i < |low| ==> low[i].models != ch && mid[i].models != ch
      {
        var l := new BitTreeDecoder(3);
        var m := new BitTreeDecoder(3);
        low := low + [l];
        mid := mid + [m];
      }
      choice := ch;
      highCoder := high;
      lowCoder := low;
      midCoder := mid;
      this.numPosStates := numPosStates;
    }

    /** init: the two choice models and every tree back to one half. */
    method Init()
      requires Valid()
      modifies Models()
      ensures AllInit(Models())
    {
      InitModelsInto(choice, 2, {});
      var i := numPosStates;
      ghost var done: set<array<prob>> := {choice};
      while i > 0
        invariant 0 <= i <= numPosStates
        invariant done == {choice} + TreeModels(lowCoder[i..]) + TreeModels(midCoder[i..])
        invariant AllInit(done)
      {
        i := i - 1;
        TreeModelsCons(lowCoder, i);
        TreeModelsCons(midCoder, i);
        InitTreeInto(lowCoder[i], done);
        done := done + {lowCoder[i].models};
        InitTreeInto(midCoder[i], done);
        done := done + {midCoder[i].models};
      }
      InitTreeInto(highCoder, done);
      assert lowCoder[0..] == lowCoder && midCoder[0..] == midCoder;
      assert done + {highCoder.models} == Models();
    }

    /** The tree a length symbol comes from: the low tree below 8, the mid tree from 8 to 15, the high tree from 16 on. */
    ghost function Tier(posState: int, len: int): (t: array<prob>)
      requires Valid() && 0 <= posState < numPosStates
      ensures t != choice
      ensures t == lowCoder[posState].models || t == midCoder[posState].models || t == highCoder.models
    {
      if len < 8 then lowCoder[posState].models else if len < 16 then midCoder[posState].models else highCoder.models
    }

    /**
     * The models after a decode of the symbol len: the choice models are
     * choice', the tree of len holds tree, and the other two trees of the
     * position state still hold low, mid and high.
     */
    ghost predicate Decoded(posState: int, len: int, choice': seq<prob>, tree: seq<prob>, low: seq<prob>, mid: seq<prob>, high: seq<prob>)
      requires Valid() && 0 <= posState < numPosStates
      reads choice, lowCoder[posState].models, midCoder[posState].models, highCoder.models
    {
      var t := Tier(posState, len);
      && choice[..] == choice'
      && lowCoder[posState].models[..] == (if lowCoder[posState].models == t then tree else low)
      && midCoder[posState].models[..] == (if midCoder[posState].models == t then tree else mid)
      && highCoder.models[..] == (if highCoder.models == t then tree else high)
    }

    /**
     * decode on a snapshot: LenWalk over the choice models and the three
     * trees of the position state, after which the choice models and the
     * tree of the symbol hold their adapted models.  (Choice models that are
     * not two in number, which create never leaves, decode nothing.)
     */
    ghost function In(data: seq<byte>, s: RangeState, m: Snap, posState: int): (c: Coded)
      requires Valid() && 0 <= posState < numPosStates && s.range >= TOP
      ensures c.after.range >= TOP && 0 <= c.value <= MATCH_MAX_LEN - MATCH_MIN_LEN
    {
      var ch, low, mid, high := At(m, choice), At(m, lowCoder[posState].models), At(m, midCoder[posState].models), At(m, highCoder.models);
      if |ch| != 2 then Coded(0, s, m)
      else
        var w := LenWalk(data, s, ch, low, mid, high);
        LenTiers(data, s, ch, low, mid, high);
        Coded(w.len, w.after, m[choice := w.choice][Tier(posState, w.len) := w.tree])
    }

    /** decode with the position state's arrays among the arrays: symbol, registers and snapshot as In gives them. */
    method TrackedDecode(rd: RangeDecoder, posState: int, ghost arrays: set<array<prob>>) returns (len: int)
      requires Valid() && rd.Normalized() && 0 <= posState < numPosStates
      requires choice in arrays && lowCoder[posState].models in arrays && midCoder[posState].models in arrays && highCoder.models in arrays
      modifies rd, rd.stream, choice, lowCoder[posState].models, midCoder[posState].models, highCoder.models
      ensures rd.Normalized() && rd.stream == old(rd.stream)
      ensures var c := In(rd.stream.data, old(rd.State()), old(SnapOf(arrays)), posState);
        len == c.value && rd.State() == c.after && SnapOf(arrays) == c.models
    {
      ghost var m0 := SnapOf(arrays);
      ghost var w := LenWalk(rd.stream.data, rd.State(), choice[..], lowCoder[posState].models[..], midCoder[posState].models[..], highCoder.models[..]);
      assert In(rd.stream.data, rd.State(), m0, posState) == Coded(w.len, w.after, m0[choice := w.choice][Tier(posState, w.len) := w.tree]);
      len := Decode(rd, posState);
      ghost var t := Tier(posState, len);
      assert choice[..] == w.choice && t[..] == w.tree;
      assert forall b :: b in arrays && b != choice && b != t ==> b[..] == m0[b];
      SnapAfter2(arrays, m0, choice, t);
    }

    /**
     * decode: a first choice bit picks the low coder of the position state,
     * a second one the mid coder, otherwise the high coder: symbols 0 to 7,
     * 8 to 15 and 16 to 271 (LenTiers), for match lengths 2 to 273.  Each
     * choice model decoded adapts to its bit, and so do the models on the
     * path down the chosen tree; the two other trees keep theirs.
     */
    method Decode(rd: RangeDecoder, posState: int) returns (len: int)
      requires Valid() && rd.Normalized() && 0 <= posState < numPosStates
      modifies rd, rd.stream, choice, lowCoder[posState].models, midCoder[posState].models, highCoder.models
      ensures rd.Normalized() && rd.stream == old(rd.stream)
      ensures var w := LenWalk(rd.stream.data, old(rd.State()), old(choice[..]),
          old(lowCoder[posState].models[..]), old(midCoder[posState].models[..]), old(highCoder.models[..]));
        && len == w.len && rd.State() == w.after
        && Decoded(posState, len, w.choice, w.tree,
             old(lowCoder[posState].models[..]), old(midCoder[posState].models[..]), old(highCoder.models[..]))
      ensures 0 <= len <= MATCH_MAX_LEN - MATCH_MIN_LEN
    {
      ghost var s0, ch0 := rd.State(), choice[..];
      ghost var low, mid, high := lowCoder[posState].models[..], midCoder[posState].models[..], highCoder.models[..];
      Apart(rd, posState);
      var c0 := rd.DecodeBit(choice, 0);
      assert lowCoder[posState].models[..] == low && midCoder[posState].models[..] == mid && highCoder.models[..] == high;
      if c0 == 0 {
        len := lowCoder[posState].Decode(rd);
        assert Pow2(3) == 8 by { Pow2Values(); }
      } else {
        len := DecodeUpper(rd, posState);
      }
      LenTiers(rd.stream.data, s0, ch0, low, mid, high);
    }

    /** None of the arrays of the position state is the range decoder or its stream. */
    lemma Apart(rd: RangeDecoder, posState: int)
      requires Valid() && 0 <= posState < numPosStates
      ensures choice as object != rd && choice as object != rd.stream
      ensures lowCoder[posState].models as object != rd && lowCoder[posState].models as object != rd.stream
      ensures midCoder[posState].models as object != rd && midCoder[posState].models as object != rd.stream
      ensures highCoder.models as object != rd && highCoder.models as object != rd.stream
    {
    }

    /** decode after a first choice bit of 1: the second choice bit picks the mid coder or the high coder. */
    method DecodeUpper(rd: RangeDecoder, posState: int) returns (len: int)
      requires Valid() && rd.Normalized() && 0 <= posState < numPosStates
      modifies rd, rd.stream, choice, midCoder[posState].models, highCoder.models
      ensures rd.Normalized() && rd.stream == old(rd.stream) && 8 <= len
      ensures var w := UpperWalk(rd.stream.data, old(rd.State()), old(choice[..]), old(midCoder[posState].models[..]), old(highCoder.models[..]));
        && len == w.len && rd.State() == w.after
        && Decoded(posState, len, w.choice, w.tree,
             old(lowCoder[posState].models[..]), old(midCoder[posState].models[..]), old(highCoder.models[..]))
    {
      ghost var s1, ch1 := rd.State(), choice[..];
      ghost var low, mid, high := lowCoder[posState].models[..], midCoder[posState].models[..], highCoder.models[..];
      Apart(rd, posState);
      var c1 := rd.DecodeBit(choice, 1);
      assert lowCoder[posState].models[..] == low && midCoder[posState].models[..] == mid && highCoder.models[..] == high;
      len := DecodeTier(rd, posState, c1);
      UpperSplit(rd.stream.data, s1, ch1, mid, high);
    }

    /** The tree the second choice bit c1 picks: the mid tree of the position state for 0, the high tree for 1. */
    method DecodeTier(rd: RangeDecoder, posState: int, c1: int) returns (len: int)
      requires Valid() && rd.Normalized() && 0 <= posState < numPosStates && (c1 == 0 || c1 == 1)
      modifies rd, rd.stream, midCoder[posState].models, highCoder.models
      ensures rd.Normalized() && rd.stream == old(rd.stream)
      ensures (c1 == 0 <==> len < 16) && 8 <= len
      ensures var t := if c1 == 0 then TreeWalk(rd.stream.data, old(rd.State()), old(midCoder[posState].models[..]), 0, 1, 3)
          else TreeWalk(rd.stream.data, old(rd.State()), old(highCoder.models[..]), 0, 1, 8);
        && len == 8 + 8 * c1 + MsbValue(t.bits) && rd.State() == t.after
        && Decoded(posState, len, old(choice[..]), t.models,
             old(lowCoder[posState].models[..]), old(midCoder[posState].models[..]), old(highCoder.models[..]))
    {
      assert Pow2(3) == 8 by { Pow2Values(); }
      Apart(rd, posState);
      if c1 == 0 {
        var m := midCoder[posState].Decode(rd);
        len := 8 + m;
      } else {
        var h := highCoder.Decode(rd);
        len := 16 + h;
      }
    }
  }

  /** What LenDecoder.decode produces on values: the symbol, the registers after it, and the adapted choice and tree models. */
  datatype LenWalked = LenWalked(len: int, after: RangeState, choice: seq<prob>, tree: seq<prob>)

  /**
   * LenDecoder.decode on values: the choice bit 0 (model 0) sends the walk
   * down the 3-level low tree, otherwise UpperWalk goes on.
   */
  function LenWalk(data: seq<byte>, s: RangeState, choice: seq<prob>, low: seq<prob>, mid: seq<prob>, high: seq<prob>): (w: LenWalked)
    requires s.range >= TOP && |choice| == 2
    ensures w.after.range >= TOP && |w.choice| == 2
  {
    var c0 := BitOf(s, choice[0]);
    var s1 := AfterBit(s, choice[0], data);
    AdaptKeepsBounds(choice[0], c0);
    var choice1 := choice[0 := Adapt(choice[0], c0)];
    if c0 == 0 then
      var t := TreeWalk(data, s1, low, 0, 1, 3);
      LenWalked(MsbValue(t.bits), t.after, choice1, t.models)
    else UpperWalk(data, s1, choice1, mid, high)
  }

  /** The rest of LenWalk after a first choice bit of 1: the choice bit 1 (model 1) picks the 3-level mid tree or the 8-level high tree. */
  function UpperWalk(data: seq<byte>, s: RangeState, choice: seq<prob>, mid: seq<prob>, high: seq<prob>): (w: LenWalked)
    requires s.range >= TOP && |choice| == 2
    ensures w.after.range >= TOP && |w.choice| == 2
  {
    var c1 := BitOf(s, choice[1]);
    var s2 := AfterBit(s, choice[1], data);
    AdaptKeepsBounds(choice[1], c1);
    var choice2 := choice[1 := Adapt(choice[1], c1)];
    if c1 == 0 then
      var t := TreeWalk(data, s2, mid, 0, 1, 3);
      LenWalked(8 + MsbValue(t.bits), t.after, choice2, t.models)
    else
      var t := TreeWalk(data, s2, high, 0, 1, 8);
      LenWalked(16 + MsbValue(t.bits), t.after, choice2, t.models)
  }

  /** UpperWalk as the second choice bit followed by the walk down the tree that bit picks. */
  lemma UpperSplit(data: seq<byte>, s: RangeState, choice: seq<prob>, mid: seq<prob>, high: seq<prob>)
    requires s.range >= TOP && |choice| == 2
    ensures var c1 := BitOf(s, choice[1]); var s2 := AfterBit(s, choice[1], data);
      var t := if c1 == 0 then TreeWalk(data, s2, mid, 0, 1, 3) else TreeWalk(data, s2, high, 0, 1, 8);
      ProbOk(Adapt(choice[1], c1)) &&
      UpperWalk(data, s, choice, mid, high) == LenWalked(8 + 8 * c1 + MsbValue(t.bits), t.after, choice[1 := Adapt(choice[1], c1)], t.models)
  {
    AdaptKeepsBounds(choice[1], BitOf(s, choice[1]));
  }

  /** The second choice bit splits the upper symbols: 8 to 15 when it is 0, 16 to 271 when it is 1. */
  lemma UpperTiers(data: seq<byte>, s: RangeState, choice: seq<prob>, mid: seq<prob>, high: seq<prob>)
    requires s.range >= TOP && |choice| == 2
    ensures var w := UpperWalk(data, s, choice, mid, high); var c1 := BitOf(s, choice[1]);
      && (8 <= w.len < 16 <==> c1 == 0)
      && (16 <= w.len <= MATCH_MAX_LEN - MATCH_MIN_LEN <==> c1 == 1)
  {
    var s2 := AfterBit(s, choice[1], data);
    MsbValueBound(TreeWalk(data, s2, mid, 0, 1, 3).bits);
    MsbValueBound(TreeWalk(data, s2, high, 0, 1, 8).bits);
    Pow2Values();
  }

  /**
   * The three tiers of a length symbol: below 8 exactly when the first
   * choice bit is 0, from 8 to 15 exactly when it is 1 and the second is 0,
   * from 16 to 271 exactly when both are 1.
   */
  lemma LenTiers(data: seq<byte>, s: RangeState, choice: seq<prob>, low: seq<prob>, mid: seq<prob>, high: seq<prob>)
    requires s.range >= TOP && |choice| == 2
    ensures var w := LenWalk(data, s, choice, low, mid, high);
      var c0 := BitOf(s, choice[0]); var c1 := BitOf(AfterBit(s, choice[0], data), choice[1]);
      && (0 <= w.len < 8 <==> c0 == 0)
      && (8 <= w.len < 16 <==> c0 == 1 && c1 == 0)
      && (16 <= w.len <= MATCH_MAX_LEN - MATCH_MIN_LEN <==> c0 == 1 && c1 == 1)
  {
    var s1 := AfterBit(s, choice[0], data);
    MsbValueBound(TreeWalk(data, s1, low, 0, 1, 3).bits);
    AdaptKeepsBounds(choice[0], BitOf(s, choice[0]));
    UpperTiers(data, s1, choice[0 := Adapt(choice[0], BitOf(s, choice[0]))], mid, high);
    Pow2Values();
  }

  /** The models of one literal context: 0x300 of them, three trees of 8 levels side by side. */
  const LITERAL_MODELS: int := 0x300

  /** LZMA.Decoder2: the literal coder of one context. */
  class Decoder2 {
    const decoders: array<prob>

    ghost predicate Valid()
    {
      decoders.Length == LITERAL_MODELS
    }

    /** `new Decoder2()`: the probabilities are set by init. */
    constructor ()
      ensures decoders.Length == LITERAL_MODELS && fresh(decoders)
    {
      decoders := new prob[LITERAL_MODELS];
    }

    /** init: every model back to one half. */
    method Init()
      requires decoders.Length == LITERAL_MODELS
      modifies decoders
      ensures forall i :: 0 <= i < decoders.Length ==> decoders[i] == PROB_INIT
    {
      InitBitModels(decoders, LITERAL_MODELS);
    }

    /** decodeNormal: eight bits, most significant first, down the first tree; the byte is their value. */
    method DecodeNormal(rd: RangeDecoder) returns (b: byte)
      requires Valid() && rd.Normalized()
      modifies rd, rd.stream, decoders
      ensures rd.Normalized() && rd.stream == old(rd.stream)
      ensures var w := TreeWalk(rd.stream.data, old(rd.State()), old(decoders[..]), 0, 1, 8);
        b == MsbValue(w.bits) && rd.State() == w.after && decoders[..] == w.models
    {
      ghost var w := TreeWalk(rd.stream.data, rd.State(), decoders[..], 0, 1, 8);
      PrependNothing(w);
      b := DecodeRest(rd, 1, [], w);
    }

    /**
     * decodeWithMatchByte: while the decoded bits agree with those of the
     * byte at distance rep0, each bit is decoded with the second or third
     * tree (the one of the match byte's bit); after the first disagreement
     * the rest come from the first tree.  The byte is the value of the eight
     * bits.
     */
    method DecodeWithMatchByte(rd: RangeDecoder, matchByte: byte) returns (b: byte)
      requires Valid() && rd.Normalized()
      modifies rd, rd.stream, decoders
      ensures rd.Normalized() && rd.stream == old(rd.stream)
      ensures var w := MatchWalk(rd.stream.data, old(rd.State()), old(decoders[..]), matchByte, 1, 8);
        b == MsbValue(w.bits) && rd.State() == w.after && decoders[..] == w.models
    {
      var symbol := 1;
      var mb: int := matchByte;
      ghost var bits := [];
      ghost var w0 := MatchWalk(rd.stream.data, rd.State(), decoders[..], matchByte, 1, 8);
      PrependNothing(w0);
      while symbol < 0x100
        invariant Matching(rd, mb, symbol, bits, w0) && rd.stream == old(rd.stream)
        decreases 8 - |bits|
      {
        var done;
        done, b, symbol, bits := MatchIteration(rd, mb, symbol, bits, w0);
        if done {
          return;
        }
        mb := mb * 2;
      }
      WalksEnd(rd.stream.data, rd.State(), decoders[..], mb, symbol);
      b := FinishTree(rd, symbol, bits, w0);
    }

    /** decodeNormal with the coder's models among the arrays: the walk of DecodeNormal, on the arrays' snapshot. */
    method TrackedNormal(rd: RangeDecoder, ghost arrays: set<array<prob>>) returns (b: byte)
      requires Valid() && rd.Normalized() && decoders in arrays
      modifies rd, rd.stream, decoders
      ensures rd.Normalized() && rd.stream == old(rd.stream)
      ensures var w := TreeWalk(rd.stream.data, old(rd.State()), At(old(SnapOf(arrays)), decoders), 0, 1, 8);
        b == MsbValue(w.bits) && rd.State() == w.after && SnapOf(arrays) == old(SnapOf(arrays))[decoders := w.models]
    {
      ghost var m0 := SnapOf(arrays);
      b := DecodeNormal(rd);
      assert forall a :: a in arrays && a != decoders ==> a[..] == old(a[..]);
      SnapAfter(arrays, m0, decoders);
    }

    /** decodeWithMatchByte with the coder's models among the arrays: the walk of DecodeWithMatchByte, on the arrays' snapshot. */
    method TrackedWithMatchByte(rd: RangeDecoder, matchByte: byte, ghost arrays: set<array<prob>>) returns (b: byte)
      requires Valid() && rd.Normalized() && decoders in arrays
      modifies rd, rd.stream, decoders
      ensures rd.Normalized() && rd.stream == old(rd.stream)
      ensures var w := MatchWalk(rd.stream.data, old(rd.State()), At(old(SnapOf(arrays)), decoders), matchByte, 1, 8);
        b == MsbValue(w.bits) && rd.State() == w.after && SnapOf(arrays) == old(SnapOf(arrays))[decoders := w.models]
    {
      ghost var m0 := SnapOf(arrays);
      b := DecodeWithMatchByte(rd, matchByte);
      assert forall a :: a in arrays && a != decoders ==> a[..] == old(a[..]);
      SnapAfter(arrays, m0, decoders);
    }

    /** The state between two bits of decodeWithMatchByte while they agree: the bits so far, and the rest of the walk w0 from here. */
    ghost predicate Matching(rd: RangeDecoder, mb: int, symbol: int, bits: seq<int>, w0: Walked)
      reads rd, rd.stream, decoders
    {
      |bits| <= 8 && IsBits(bits) && symbol == Pow2(|bits|) + MsbValue(bits)
      && (symbol < 0x100 <==> |bits| < 8)
      && rd.Normalized()
      && w0 == Prepend(bits, MatchWalk(rd.stream.data, rd.State(), decoders[..], mb, symbol, 8 - |bits|))
    }

    /**
     * One pass of decodeWithMatchByte's outer loop: done, with the byte, at
     * the first bit that disagrees with the match byte's, and with the walk
     * going on with the next match bit otherwise.
     */
    method MatchIteration(rd: RangeDecoder, mb: int, symbol: int, ghost bits: seq<int>, ghost w0: Walked)
      returns (done: bool, b: byte, symbol': int, ghost bits': seq<int>)
      requires Valid() && Matching(rd, mb, symbol, bits, w0) && symbol < 0x100
      modifies rd, rd.stream, decoders
      ensures rd.Normalized() && rd.stream == old(rd.stream)
      ensures done ==> b == MsbValue(w0.bits) && rd.State() == w0.after && decoders[..] == w0.models
      ensures !done ==> Matching(rd, mb * 2, symbol', bits', w0) && |bits'| == |bits| + 1
    {
      var matchBit := (mb / 0x80) % 2;
      var bit;
      bit, symbol', bits' := MatchStep(rd, mb, symbol, bits, w0);
      done := matchBit != bit;
      b := 0;
      if done {
        b := FinishTree(rd, symbol', bits', w0);
      }
    }

    /** The end of decodeWithMatchByte after the first disagreement: the rest of the byte down the first tree. */
    method FinishTree(rd: RangeDecoder, symbol: int, ghost bits: seq<int>, ghost w0: Walked) returns (b: byte)
      requires Valid() && rd.Normalized()
      requires |bits| <= 8 && IsBits(bits) && symbol == Pow2(|bits|) + MsbValue(bits)
      requires w0 == Prepend(bits, TreeWalk(rd.stream.data, rd.State(), decoders[..], 0, symbol, 8 - |bits|))
      modifies rd, rd.stream, decoders
      ensures rd.Normalized() && rd.stream == old(rd.stream)
      ensures b == MsbValue(w0.bits) && rd.State() == w0.after && decoders[..] == w0.models
    {
      SymbolBelowByte(bits);
      if symbol < 0x100 {
        b := DecodeRest(rd, symbol, bits, w0);
      } else {
        Pow2Values();
        assert w0.bits == bits + [] == bits;
        MsbValueBound(bits);
        b := symbol - 0x100;
      }
    }

    /**
     * One iteration of decodeWithMatchByte's outer loop: a bit decoded with
     * the model of the match byte's next bit, as the first step of MatchWalk,
     * after which the walk goes on with the match trees while the bits agree
     * and down the first tree from the first disagreement.
     */
    method MatchStep(rd: RangeDecoder, mb: int, symbol: int, ghost bits: seq<int>, ghost w0: Walked)
      returns (bit: int, symbol': int, ghost bits': seq<int>)
      requires Valid() && rd.Normalized()
      requires |bits| < 8 && IsBits(bits) && symbol == Pow2(|bits|) + MsbValue(bits)
      requires w0 == Prepend(bits, MatchWalk(rd.stream.data, rd.State(), decoders[..], mb, symbol, 8 - |bits|))
      modifies rd, rd.stream, decoders
      ensures rd.Normalized() && rd.stream == old(rd.stream)
      ensures bits' == bits + [bit] && IsBits(bits') && symbol' == Pow2(|bits'|) + MsbValue(bits')
      ensures symbol' < 0x100 <==> |bits'| < 8
      ensures (mb / 0x80) % 2 == bit ==>
        w0 == Prepend(bits', MatchWalk(rd.stream.data, rd.State(), decoders[..], mb * 2, symbol', 8 - |bits'|))
      ensures (mb / 0x80) % 2 != bit ==>
        w0 == Prepend(bits', TreeWalk(rd.stream.data, rd.State(), decoders[..], 0, symbol', 8 - |bits'|))
    {
      MsbValueBound(bits);
      SymbolBelowByte(bits);
      bit := MatchBit(rd, mb, symbol, bits, w0);
      ghost var rest := MatchRest(rd.stream.data, rd.State(), decoders[..], mb, 2 * symbol + bit, 8 - |bits + [bit]|, (mb / 0x80) % 2 != bit);
      if (mb / 0x80) % 2 != bit {
        assert rest == TreeWalk(rd.stream.data, rd.State(), decoders[..], 0, 2 * symbol + bit, 8 - |bits + [bit]|);
      } else {
        assert rest == MatchWalk(rd.stream.data, rd.State(), decoders[..], mb * 2, 2 * symbol + bit, 8 - |bits + [bit]|);
      }
      MsbAppend(bits, bit);
      symbol' := 2 * symbol + bit;
      bits' := bits + [bit];
      SymbolBelowByte(bits');
    }

    /** The decodeBit of MatchStep, with the model of the match byte's next bit at (1 + matchBit) * 0x100 + symbol. */
    method MatchBit(rd: RangeDecoder, mb: int, symbol: int, ghost bits: seq<int>, ghost w0: Walked) returns (bit: int)
      requires Valid() && rd.Normalized() && 1 <= symbol < 0x100 && |bits| < 8
      requires w0 == Prepend(bits, MatchWalk(rd.stream.data, rd.State(), decoders[..], mb, symbol, 8 - |bits|))
      modifies rd, rd.stream, decoders
      ensures rd.Normalized() && rd.stream == old(rd.stream) && (bit == 0 || bit == 1)
      ensures w0 == Prepend(bits + [bit], MatchRest(rd.stream.data, rd.State(), decoders[..], mb, 2 * symbol + bit, 8 - |bits + [bit]|,
        (mb / 0x80) % 2 != bit))
    {
      var index := (1 + (mb / 0x80) % 2) * 0x100 + symbol;
      ghost var s0, m0 := rd.State(), decoders[..];
      MatchWalkStep(rd.stream.data, s0, m0, mb, symbol, 8 - |bits|);
      bit := rd.DecodeBit(decoders, index);
      assert decoders[..] == m0[index := Adapt(m0[index], bit)];
      ghost var rest := MatchRest(rd.stream.data, rd.State(), decoders[..], mb, 2 * symbol + bit, 8 - |bits + [bit]|,
        (mb / 0x80) % 2 != bit);
      assert MatchWalk(rd.stream.data, s0, m0, mb, symbol, 8 - |bits|) == Prepend([bit], rest);
      PrependPrepend(bits, [bit], rest);
    }

    /**
     * The inner loop of decodeWithMatchByte: the remaining bits down the
     * first tree, from node symbol0, as TreeWalk gives them.
     */
    method DecodeRest(rd: RangeDecoder, symbol0: int, ghost bits0: seq<int>, ghost w0: Walked) returns (b: byte)
      requires Valid() && rd.Normalized()
      requires |bits0| < 8 && IsBits(bits0) && symbol0 == Pow2(|bits0|) + MsbValue(bits0)
      requires w0 == Prepend(bits0, TreeWalk(rd.stream.data, rd.State(), decoders[..], 0, symbol0, 8 - |bits0|))
      modifies rd, rd.stream, decoders
      ensures rd.Normalized() && rd.stream == old(rd.stream)
      ensures b == MsbValue(w0.bits) && rd.State() == w0.after && decoders[..] == w0.models
    {
      var symbol := symbol0;
      ghost var bits := bits0;
      SymbolBelowByte(bits);
      while symbol < 0x100
        invariant Resting(rd, symbol, bits, w0) && rd.stream == old(rd.stream)
        decreases 8 - |bits|
      {
        symbol, bits := RestStep(rd, symbol, bits, w0);
      }
      Pow2Values();
      assert w0.bits == bits + [] == bits;
      MsbValueBound(bits);
      b := symbol - 0x100;
    }

    /** The state between two bits of decodeNormal: the bits so far, and the rest of the walk w0 from here. */
    ghost predicate Resting(rd: RangeDecoder, symbol: int, bits: seq<int>, w0: Walked)
      reads rd, rd.stream, decoders
    {
      |bits| <= 8 && IsBits(bits) && symbol == Pow2(|bits|) + MsbValue(bits)
      && (symbol < 0x100 <==> |bits| < 8)
      && rd.Normalized()
      && w0 == Prepend(bits, TreeWalk(rd.stream.data, rd.State(), decoders[..], 0, symbol, 8 - |bits|))
    }

    /** One bit of decodeNormal's loop. */
    method RestStep(rd: RangeDecoder, symbol: int, ghost bits: seq<int>, ghost w0: Walked) returns (symbol': int, ghost bits': seq<int>)
      requires Valid() && Resting(rd, symbol, bits, w0) && symbol < 0x100
      modifies rd, rd.stream, decoders
      ensures Resting(rd, symbol', bits', w0) && rd.stream == old(rd.stream) && |bits'| == |bits| + 1
    {
      Pow2Values();
      var bit;
      bit, symbol', bits' := TreeStep(decoders, 0, rd, 8, symbol, bits, w0);
      SymbolBelowByte(bits');
    }
  }

  /**
   * decodeWithMatchByte on values: while the bits agree with the match
   * byte's, from its top bit down, each is decoded with the model of the
   * match bit's tree (0x100 or 0x200 on from the node); from the first bit
   * that disagrees on the walk goes on down the first tree.
   */
  function MatchWalk(data: seq<byte>, s: RangeState, models: seq<prob>, matchByte: int, symbol: int, n: nat): (w: Walked)
    requires s.range >= TOP
    ensures |w.bits| == n && IsBits(w.bits) && w.after.range >= TOP && |w.models| == |models|
    decreases n, 2
  {
    if n == 0 then Walked([], s, models) else MatchBit(data, s, models, matchByte, symbol, n)
  }

  /** The first bit of a MatchWalk with bits still to come, decoded with the match bit's model, and how the walk goes on. */
  function MatchBit(data: seq<byte>, s: RangeState, models: seq<prob>, matchByte: int, symbol: int, n: nat): (w: Walked)
    requires s.range >= TOP && n > 0
    ensures |w.bits| == n && IsBits(w.bits) && w.after.range >= TOP && |w.models| == |models|
    decreases n, 1
  {
    var matchBit := (matchByte / 0x80) % 2;
    var i := (1 + matchBit) * 0x100 + symbol;
    var p: prob := if 0 <= i < |models| then models[i] else PROB_INIT;
    var bit := BitOf(s, p);
    AdaptKeepsBounds(p, bit);
    var models' := if 0 <= i < |models| then models[i := Adapt(p, bit)] else models;
    var s' := AfterBit(s, p, data);
    Prepend([bit], MatchRest(data, s', models', matchByte, 2 * symbol + bit, n - 1, matchBit != bit))
  }

  /** How MatchWalk goes on after a bit: down the first tree after a disagreement, with the next match bit otherwise. */
  function MatchRest(data: seq<byte>, s: RangeState, models: seq<prob>, matchByte: int, symbol: int, n: nat, disagreed: bool): (w: Walked)
    requires s.range >= TOP
    ensures |w.bits| == n && IsBits(w.bits) && w.after.range >= TOP && |w.models| == |models|
    decreases n, 3
  {
    if disagreed then TreeWalk(data, s, models, 0, symbol, n) else MatchWalk(data, s, models, matchByte * 2, symbol, n)
  }

  /** One step of MatchWalk whose model lies within the models. */
  lemma MatchWalkStep(data: seq<byte>, s: RangeState, models: seq<prob>, matchByte: int, symbol: int, n: nat)
    requires s.range >= TOP && n > 0
    requires 0 <= (1 + (matchByte / 0x80) % 2) * 0x100 + symbol < |models|
    ensures var i := (1 + (matchByte / 0x80) % 2) * 0x100 + symbol;
      var p := models[i]; var bit := BitOf(s, p);
      ProbOk(Adapt(p, bit)) &&
      MatchWalk(data, s, models, matchByte, symbol, n)
        == Prepend([bit], MatchRest(data, AfterBit(s, p, data), models[i := Adapt(p, bit)], matchByte, 2 * symbol + bit, n - 1,
          (matchByte / 0x80) % 2 != bit))
  {
    var i := (1 + (matchByte / 0x80) % 2) * 0x100 + symbol;
    AdaptKeepsBounds(models[i], BitOf(s, models[i]));
  }

  /** The top n bits of a match byte as decodeWithMatchByte reads them, shifting it left after each. */
  function MatchBits(matchByte: int, n: nat): (bits: seq<int>)
    ensures |bits| == n
    decreases n
  {
    if n == 0 then [] else [(matchByte / 0x80) % 2] + MatchBits(matchByte * 2, n - 1)
  }

  /** Two model sequences of one length that agree below index k. */
  ghost predicate SameBelow(a: seq<prob>, b: seq<prob>, k: int)
  {
    |a| == |b| && forall j :: 0 <= j < |a| && j < k ==> a[j] == b[j]
  }

  /**
   * A literal whose bits all agree with the match byte's never leaves the
   * match trees: the first tree's models, 1 to 0xff, are left as they were.
   */
  lemma MatchWalkAgrees(data: seq<byte>, s: RangeState, models: seq<prob>, matchByte: int, symbol: int, n: nat)
    requires s.range >= TOP && 1 <= symbol
    requires MatchWalk(data, s, models, matchByte, symbol, n).bits == MatchBits(matchByte, n)
    ensures SameBelow(MatchWalk(data, s, models, matchByte, symbol, n).models, models, 0x100)
  {
    MatchWalkKeeps(data, s, models, matchByte, symbol, n, models);
  }

  /** MatchWalkAgrees, for models that already agree with base below 0x100. */
  lemma {:induction false} MatchWalkKeeps(data: seq<byte>, s: RangeState, models: seq<prob>, matchByte: int, symbol: int, n: nat, base: seq<prob>)
    requires s.range >= TOP && 1 <= symbol && SameBelow(models, base, 0x100)
    requires MatchWalk(data, s, models, matchByte, symbol, n).bits == MatchBits(matchByte, n)
    ensures SameBelow(MatchWalk(data, s, models, matchByte, symbol, n).models, base, 0x100)
    decreases n
  {
    if n > 0 {
      var s', models' := MatchAgreeStep(data, s, models, matchByte, symbol, n, base);
      MatchWalkKeeps(data, s', models', matchByte * 2, 2 * symbol + (matchByte / 0x80) % 2, n - 1, base);
    } else {
      assert MatchWalk(data, s, models, matchByte, symbol, n).models == models;
    }
  }

  /**
   * The first step of a MatchWalk that follows the match byte: the walk goes
   * on with the next match bit from the child, and the model it adapts lies
   * in a match tree, at 0x100 or above.
   */
  lemma MatchAgreeStep(data: seq<byte>, s: RangeState, models: seq<prob>, matchByte: int, symbol: int, n: nat, base: seq<prob>)
    returns (s': RangeState, models': seq<prob>)
    requires s.range >= TOP && n > 0 && 1 <= symbol && SameBelow(models, base, 0x100)
    requires MatchWalk(data, s, models, matchByte, symbol, n).bits == MatchBits(matchByte, n)
    ensures s'.range >= TOP && SameBelow(models', base, 0x100)
    ensures var w := MatchWalk(data, s, models, matchByte, symbol, n);
      var rest := MatchWalk(data, s', models', matchByte * 2, 2 * symbol + (matchByte / 0x80) % 2, n - 1);
      w.models == rest.models && rest.bits == MatchBits(matchByte * 2, n - 1)
  {
    var matchBit := (matchByte / 0x80) % 2;
    var i := (1 + matchBit) * 0x100 + symbol;
    var p: prob := if 0 <= i < |models| then models[i] else PROB_INIT;
    AdaptKeepsBounds(p, matchBit);
    models' := if 0 <= i < |models| then models[i := Adapt(p, matchBit)] else models;
    s' := AfterBit(s, p, data);
    var w := MatchWalk(data, s, models, matchByte, symbol, n);
    var rest := MatchWalk(data, s', models', matchByte * 2, 2 * symbol + matchBit, n - 1);
    assert w == MatchBit(data, s, models, matchByte, symbol, n);
    assert w.bits[0] == matchBit;
    assert w == Prepend([matchBit], rest);
    assert rest.bits == w.bits[1..];
  }

  /** With no bits left both walks are empty. */
  lemma WalksEnd(data: seq<byte>, s: RangeState, models: seq<prob>, matchByte: int, symbol: int)
    requires s.range >= TOP
    ensures MatchWalk(data, s, models, matchByte, symbol, 0) == TreeWalk(data, s, models, 0, symbol, 0)
  {
  }

  /** The symbol of a bit-tree walk stays below 0x100 exactly while fewer than eight bits are decoded. */
  lemma SymbolBelowByte(bits: seq<int>)
    requires |bits| <= 8 && IsBits(bits)
    ensures Pow2(|bits|) + MsbValue(bits) < 0x100 <==> |bits| < 8
  {
    MsbValueBound(bits);
    Pow2Values();
    if |bits| < 8 {
      assert Pow2(|bits| + 1) == 2 * Pow2(|bits|);
      Pow2Mono(|bits| + 1, 8);
    }
  }

  /** A literal coder's init, adding its models to a set of arrays already at one half. */
  method InitCoderInto(c: Decoder2, ghost done: set<array<prob>>)
    requires c.Valid() && AllInit(done)
    modifies c.decoders
    ensures AllInit(done + {c.decoders})
  {
    c.Init();
    forall a, i | a in done + {c.decoders} && 0 <= i < a.Length
      ensures a[i] == PROB_INIT
    {
      if a != c.decoders {
        assert old(a[i]) == PROB_INIT;
      }
    }
  }

  /** The model arrays of a sequence of literal coders. */
  ghost function CoderModels(cs: seq<Decoder2>): set<array<prob>>
  {
    set c | c in cs :: c.decoders
  }

  lemma CoderModelsCons(cs: seq<Decoder2>, i: nat)
    requires i < |cs|
    ensures CoderModels(cs[i..]) == {cs[i].decoders} + CoderModels(cs[i + 1..])
  {
    assert cs[i..] == [cs[i]] + cs[i + 1..];
    assert forall c :: c in cs[i..] <==> c == cs[i] || c in cs[i + 1..];
  }

  /** LZMA.LiteralDecoder: one Decoder2 per context of lp position bits and lc previous-byte bits. */
  class LiteralDecoder {
    const numPosBits: nat
    const numPrevBits: nat
    const coders: seq<Decoder2>

    ghost function Models(): set<array<prob>>
    {
      CoderModels(coders)
    }

    ghost predicate Valid()
    {
      && numPrevBits <= 8
      && |coders| == Pow2(numPrevBits + numPosBits)
      && forall i :: 0 <= i < |coders| ==> coders[i].decoders.Length == LITERAL_MODELS
    }

    /** `new LiteralDecoder()` and create(numPosBits, numPrevBits): 2^(lc + lp) coders, made from the last down. */
    constructor (numPosBits: nat, numPrevBits: nat)
      requires numPrevBits <= 8 && numPosBits <= 4
      ensures this.numPosBits == numPosBits && this.numPrevBits == numPrevBits && Valid() && fresh(Models())
    {
      var n := Pow2(numPrevBits + numPosBits);
      var cs: seq<Decoder2> := [];
      var i := n;
      while i > 0
        invariant 0 <= i <= n && |cs| == n - i
        invariant forall j :: 0 <= j < |cs| ==> cs[j].decoders.Length == LITERAL_MODELS && fresh(cs[j].decoders)
      {
        i := i - 1;
        var d := new Decoder2();
        cs := [d] + cs;
      }
      this.numPosBits := numPosBits;
      this.numPrevBits := numPrevBits;
      coders := cs;
    }

    /** init: every coder's models back to one half. */
    method Init()
      requires Valid()
      modifies Models()
      ensures AllInit(Models())
    {
      var i := |coders|;
      ghost var done: set<array<prob>> := {};
      while i > 0
        invariant 0 <= i <= |coders|
        invariant done == CoderModels(coders[i..]) && AllInit(done)
      {
        i := i - 1;
        CoderModelsCons(coders, i);
        InitCoderInto(coders[i], done);
        done := done + {coders[i].decoders};
      }
      assert coders[0..] == coders;
    }

    /**
     * The literal byte at position pos after prevByte, on a snapshot: the
     * eight bits of the coder GetDecoder picks, down its first tree, or with
     * the match byte's trees while they agree when the literal follows a
     * match or rep.
     */
    ghost function In(data: seq<byte>, s: RangeState, m: Snap, pos: nat, prevByte: byte, matched: bool, matchByte: byte): (c: Coded)
      requires Valid() && s.range >= TOP
      ensures 0 <= c.value < 256 && c.after.range >= TOP
    {
      var a := GetDecoder(pos, prevByte).decoders;
      var w := if matched then MatchWalk(data, s, At(m, a), matchByte, 1, 8) else TreeWalk(data, s, At(m, a), 0, 1, 8);
      MsbValueBound(w.bits);
      Pow2Values();
      Coded(MsbValue(w.bits), w.after, m[a := w.models])
    }

    /** getDecoder: the coder of the position's low lp bits and the previous byte's high lc bits. */
    function GetDecoder(pos: nat, prevByte: byte): (d: Decoder2)
      requires Valid()
      ensures d in coders && d.decoders in Models() && d.decoders.Length == LITERAL_MODELS
    {
      LiteralIndexInRange(pos, prevByte, numPrevBits, numPosBits);
      coders[LiteralIndex(pos, prevByte, numPrevBits, numPosBits)]
    }
  }

  /** A length decoder's init, adding its models to a set of arrays already at one half. */
  method InitLenInto(l: LenDecoder, ghost done: set<array<prob>>)
    requires l.Valid() && AllInit(done)
    modifies l.Models()
    ensures AllInit(done + l.Models())
  {
    l.Init();
    forall a, i | a in done + l.Models() && 0 <= i < a.Length
      ensures a[i] == PROB_INIT
    {
      if a !in l.Models() {
        assert old(a[i]) == PROB_INIT;
      }
    }
  }

  /** The literal decoder's init, adding its models to a set of arrays already at one half. */
  method InitLiteralInto(l: LiteralDecoder, ghost done: set<array<prob>>)
    requires l.Valid() && AllInit(done)
    modifies l.Models()
    ensures AllInit(done + l.Models())
  {
    l.Init();
    forall a, i | a in done + l.Models() && 0 <= i < a.Length
      ensures a[i] == PROB_INIT
    {
      if a !in l.Models() {
        assert old(a[i]) == PROB_INIT;
      }
    }
  }
}
