/**
 * The integer restoration passes that OpenCTM's MG1 and MG2 methods run
 * after LZMA decompression.  Each works in place on a Uint32Array, so every
 * sum is taken modulo 2^32; each is paired with the writer-side transform it
 * undoes.
 */
module CtmRestore {
  import opened JsInt

  // ----- triangle indices (restoreIndices) -----

  /**
   * Entry i of the triangle list that restoreIndices rebuilds from the stored
   * deltas `d`.  In the first triangle the second and third entries are
   * stored relative to the first.  In every later triangle the first entry is
   * stored relative to the previous triangle's first entry; the second
   * relative to the previous triangle's second entry when the two first
   * entries coincide, and otherwise relative to its own first entry; the third
   * relative to its own first entry.  Sums wrap modulo 2^32.
   */
  function Restored(d: seq<uint32>, i: nat): uint32
    requires i < |d|
    decreases i
  {
    if i < 3 then
      if i == 0 then d[0] else Add32(d[i], d[0])
    else if i % 3 == 0 then Add32(d[i], Restored(d, i - 3))
    else if i % 3 == 1 then
      if Restored(d, i - 1) == Restored(d, i - 4) then Add32(d[i], Restored(d, i - 3))
      else Add32(d[i], Restored(d, i - 1))
    else Add32(d[i], Restored(d, i - 2))
  }

  /** The whole triangle list restoreIndices produces. */
  function RestoredIndices(d: seq<uint32>): (r: seq<uint32>)
    ensures |r| == |d|
  {
    seq(|d|, i requires 0 <= i < |d| => Restored(d, i))
  }

  /** Entry i of the writer's index delta coding, the transform Restored undoes. */
  function Delta(s: seq<uint32>, i: nat): uint32
    requires i < |s|
  {
    if i < 3 then
      if i == 0 then s[0] else Sub32(s[i], s[0])
    else if i % 3 == 0 then Sub32(s[i], s[i - 3])
    else if i % 3 == 1 then
      if s[i - 1] == s[i - 4] then Sub32(s[i], s[i - 3]) else Sub32(s[i], s[i - 1])
    else Sub32(s[i], s[i - 2])
  }

  function DeltaIndices(s: seq<uint32>): (r: seq<uint32>)
    ensures |r| == |s|
  {
    seq(|s|, i requires 0 <= i < |s| => Delta(s, i))
  }

  /** Restoring the writer's deltas gives back every entry of the triangle list. */
  lemma {:induction false} RestoreUndoesDeltaAt(s: seq<uint32>, i: nat)
    requires i < |s|
    ensures Restored(DeltaIndices(s), i) == s[i]
    decreases i, 1
  {
    if i < 3 {
      if i > 0 {
        AddSubCancel(s[i], s[0]);
      }
    } else if i % 3 == 1 {
      RestoreUndoesDeltaSecond(s, i);
    } else {
      RestoreUndoesDeltaOther(s, i);
    }
  }

  /** The second entry of a later triangle, whose reference depends on the first entries. */
  lemma {:induction false} RestoreUndoesDeltaSecond(s: seq<uint32>, i: nat)
    requires 3 <= i < |s| && i % 3 == 1
    ensures Restored(DeltaIndices(s), i) == s[i]
    decreases i, 0
  {
    RestoreUndoesDeltaAt(s, i - 1);
    RestoreUndoesDeltaAt(s, i - 3);
    RestoreUndoesDeltaAt(s, i - 4);
    AddSubCancel(s[i], s[i - 3]);
    AddSubCancel(s[i], s[i - 1]);
  }

  /** The first and third entries of a later triangle. */
  lemma {:induction false} RestoreUndoesDeltaOther(s: seq<uint32>, i: nat)
    requires 3 <= i < |s| && i % 3 != 1
    ensures Restored(DeltaIndices(s), i) == s[i]
    decreases i, 0
  {
    if i % 3 == 0 {
      RestoreUndoesDeltaAt(s, i - 3);
      AddSubCancel(s[i], s[i - 3]);
    } else {
      RestoreUndoesDeltaAt(s, i - 2);
      AddSubCancel(s[i], s[i - 2]);
    }
  }

  /** Restoring the writer's deltas gives back the triangle list. */
  lemma RestoreUndoesDelta(s: seq<uint32>)
    ensures RestoredIndices(DeltaIndices(s)) == s
  {
    forall i | 0 <= i < |s| ensures RestoredIndices(DeltaIndices(s))[i] == s[i] {
      RestoreUndoesDeltaAt(s, i);
    }
  }

  /** Delta coding a restored list gives back the stored deltas: the coding is a bijection. */
  lemma DeltaUndoesRestore(d: seq<uint32>)
    ensures DeltaIndices(RestoredIndices(d)) == d
  {
    forall i | 0 <= i < |d| ensures DeltaIndices(RestoredIndices(d))[i] == d[i] {
      DeltaUndoesRestoreAt(d, i);
    }
  }

  lemma DeltaUndoesRestoreAt(d: seq<uint32>, i: nat)
    requires i < |d|
    ensures Delta(RestoredIndices(d), i) == d[i]
  {
    var r := RestoredIndices(d);
    if i < 3 {
      if i > 0 {
        AddSubCancel(d[i], d[0]);
      }
    } else if i % 3 == 0 {
      AddSubCancel(d[i], r[i - 3]);
    } else if i % 3 == 1 {
      AddSubCancel(d[i], r[i - 3]);
      AddSubCancel(d[i], r[i - 1]);
    } else {
      AddSubCancel(d[i], r[i - 2]);
    }
  }

  /** restoreIndices: rewrites the stored deltas into the triangle list, in place. */
  method RestoreIndices(indices: array<uint32>)
    requires indices.Length % 3 == 0
    modifies indices
    ensures indices[..] == RestoredIndices(old(indices[..]))
  {
    ghost var d := indices[..];
    var len := indices.Length;
    var i := 3;
    if len > 0 {
      indices[2] := Add32(indices[2], indices[0]);
      indices[1] := Add32(indices[1], indices[0]);
    }
    ghost var t := 1;
    while i < len
      invariant i == 3 * t && (len > 0 ==> 3 <= i <= len)
      invariant forall k :: 0 <= k < len && k < i ==> indices[k] == Restored(d, k)
      invariant forall k :: i <= k < len ==> indices[k] == d[k]
    {
      RestoredTriangle(d, t);
      RestoreTriangle(indices, i);
      i, t := i + 3, t + 1;
    }
  }

  /** One iteration of restoreIndices: triangle i / 3 from its stored deltas and the previous triangle. */
  method RestoreTriangle(indices: array<uint32>, i: nat)
    requires 3 <= i && i + 2 < indices.Length
    modifies indices
    ensures forall k :: 0 <= k < indices.Length && (k < i || i + 2 < k) ==> indices[k] == old(indices[k])
    ensures indices[i] == Add32(old(indices[i]), old(indices[i - 3]))
    ensures indices[i + 1] ==
      if indices[i] == old(indices[i - 3]) then Add32(old(indices[i + 1]), old(indices[i - 2]))
      else Add32(old(indices[i + 1]), indices[i])
    ensures indices[i + 2] == Add32(old(indices[i + 2]), indices[i])
  {
    indices[i] := Add32(indices[i], indices[i - 3]);
    if indices[i] == indices[i - 3] {
      indices[i + 1] := Add32(indices[i + 1], indices[i - 2]);
    } else {
      indices[i + 1] := Add32(indices[i + 1], indices[i]);
    }
    indices[i + 2] := Add32(indices[i + 2], indices[i]);
  }

  /** The three entries of triangle t >= 1, each in terms of entries already restored. */
  lemma RestoredTriangle(d: seq<uint32>, t: nat)
    requires 1 <= t && 3 * t + 2 < |d|
    ensures Restored(d, 3 * t) == Add32(d[3 * t], Restored(d, 3 * t - 3))
    ensures Restored(d, 3 * t + 1) ==
      if Restored(d, 3 * t) == Restored(d, 3 * t - 3) then Add32(d[3 * t + 1], Restored(d, 3 * t - 2))
      else Add32(d[3 * t + 1], Restored(d, 3 * t))
    ensures Restored(d, 3 * t + 2) == Add32(d[3 * t + 2], Restored(d, 3 * t))
  {
    DivModUnique(3 * t, 3, t, 0);
    DivModUnique(3 * t + 1, 3, t, 1);
    DivModUnique(3 * t + 2, 3, t, 2);
  }

  // ----- grid indices (restoreGridIndices) -----

  /** Entry i of the running sum restoreGridIndices computes: stored entry i plus entry i - 1. */
  function RunningSum(d: seq<uint32>, i: nat): uint32
    requires i < |d|
    decreases i
  {
    if i == 0 then d[0] else Add32(d[i], RunningSum(d, i - 1))
  }

  function PrefixSums(d: seq<uint32>): (r: seq<uint32>)
    ensures |r| == |d|
  {
    seq(|d|, i requires 0 <= i < |d| => RunningSum(d, i))
  }

  /** The sum of the first n stored entries, as an exact integer. */
  function SumTo(d: seq<uint32>, n: nat): int
    requires n <= |d|
  {
    if n == 0 then 0 else SumTo(d, n - 1) + d[n - 1]
  }

  /** The writer's grid-index coding: each entry minus its predecessor. */
  function Differences(s: seq<uint32>): (r: seq<uint32>)
    ensures |r| == |s|
  {
    seq(|s|, i requires 0 <= i < |s| => if i == 0 then s[0] else Sub32(s[i], s[i - 1]))
  }

  /** Entry i of the running sums is the sum of the stored entries 0..i, modulo 2^32. */
  lemma {:induction false} PrefixSumsAreSums(d: seq<uint32>, i: nat)
    requires i < |d|
    ensures PrefixSums(d)[i] == ToUint32(SumTo(d, i + 1))
    decreases i
  {
    if i > 0 {
      PrefixSumsAreSums(d, i - 1);
      Add32IsModular(d[i], RunningSum(d, i - 1));
      AddMod(SumTo(d, i), d[i]);
    }
  }

  lemma {:induction false} RunningSumOfDifferences(s: seq<uint32>, i: nat)
    requires i < |s|
    ensures RunningSum(Differences(s), i) == s[i]
    decreases i
  {
    if i > 0 {
      RunningSumOfDifferences(s, i - 1);
      AddSubCancel(s[i], s[i - 1]);
    }
  }

  /** Running sums undo the writer's differences. */
  lemma PrefixSumsUndoDifferences(s: seq<uint32>)
    ensures PrefixSums(Differences(s)) == s
  {
    forall i | 0 <= i < |s| ensures PrefixSums(Differences(s))[i] == s[i] {
      RunningSumOfDifferences(s, i);
    }
  }

  /** Differences undo running sums: the grid-index coding is a bijection. */
  lemma DifferencesUndoPrefixSums(s: seq<uint32>)
    ensures Differences(PrefixSums(s)) == s
  {
    forall i | 0 <= i < |s| ensures Differences(PrefixSums(s))[i] == s[i] {
      if i > 0 {
        DifferenceOfPrefixSums(s, i);
      }
    }
  }

  lemma DifferenceOfPrefixSums(s: seq<uint32>, i: nat)
    requires 0 < i < |s|
    ensures Differences(PrefixSums(s))[i] == s[i]
  {
    var p := PrefixSums(s);
    var a, b := p[i], p[i - 1];
    assert a == Add32(s[i], b);
    assert Differences(p)[i] == Sub32(a, b);
    AddSubCancel(s[i], b);
  }

  /** restoreGridIndices: in-place running sum. */
  method RestoreGridIndices(gridIndices: array<uint32>)
    modifies gridIndices
    ensures gridIndices[..] == PrefixSums(old(gridIndices[..]))
  {
    ghost var d := gridIndices[..];
    var i := 1;
    while i < gridIndices.Length
      invariant 1 <= i
      invariant forall k :: 0 <= k < gridIndices.Length && k < i ==> gridIndices[k] == RunningSum(d, k)
      invariant forall k :: i <= k < gridIndices.Length ==> gridIndices[k] == d[k]
    {
      gridIndices[i] := Add32(gridIndices[i], gridIndices[i - 1]);
      i := i + 1;
    }
  }

  // ----- grid cells and vertex residuals (integer part of restoreVertices) -----

  /** A grid cell of the MG2 vertex grid. */
  datatype Cell = Cell(x: int, y: int, z: int)

  /** `~~(a / b)`: the quotient truncated toward zero, then ToInt32; a zero divisor yields 0. */
  function TruncDiv(a: int, b: int): (r: int)
    ensures IsInt32(r)
    ensures b != 0 && 0 <= a && 0 < b && a / b < TWO31 ==> r == a / b
  {
    if b == 0 then 0
    else
      var q := (if a < 0 then -a else a) / (if b < 0 then -b else b);
      ToInt32(if (a < 0) != (b < 0) then -q else q)
  }

  /**
   * The cell restoreVertices computes from grid index g: z from the product
   * divx * divy, then y from divx, each remainder taken by subtracting the
   * ToInt32 of the truncated product.
   */
  function GridCell(g: uint32, divx: int, divy: int): Cell
  {
    var zdiv := divx * divy;
    var z := TruncDiv(g, zdiv);
    var rest := g - ToInt32(z * zdiv);
    var y := TruncDiv(rest, divx);
    Cell(rest - ToInt32(y * divx), y, z)
  }

  /** The cells of the first n grid indices. */
  function GridCells(gi: seq<uint32>, divx: int, divy: int, n: nat): (r: seq<Cell>)
    requires n <= |gi|
    ensures |r| == n
  {
    if n == 0 then [] else GridCells(gi, divx, divy, n - 1) + [GridCell(gi[n - 1], divx, divy)]
  }

  /** The grid index of a cell: x + divx * (y + divy * z). */
  function GridIndexOf(c: Cell, divx: int, divy: int): int
  {
    c.x + divx * (c.y + divy * c.z)
  }

  /** A grid index below 2^31 decomposes into a cell inside the grid that maps back to it. */
  lemma GridCellDecomposes(g: uint32, divx: int, divy: int)
    requires 1 <= divx && 1 <= divy && g < TWO31
    ensures var c := GridCell(g, divx, divy);
      0 <= c.x < divx && 0 <= c.y < divy && 0 <= c.z && GridIndexOf(c, divx, divy) == g
  {
    var zdiv := divx * divy;
    MulLe(divx, 1, divy);
    TruncDivNonneg(g, zdiv);
    var z, rest := g / zdiv, g % zdiv;
    assert TruncDiv(g, zdiv) == z && g - ToInt32(z * zdiv) == rest;
    TruncDivNonneg(rest, divx);
    var y, x := rest / divx, rest % divx;
    assert TruncDiv(rest, divx) == y && rest - ToInt32(y * divx) == x;
    QuotientBelow(rest, divx, divy);
    assert GridCell(g, divx, divy) == Cell(x, y, z);
    Distribute(divx, divy, y, z);
    assert g == x + divx * y + zdiv * z;
  }

  /** Every cell inside the grid whose index is below 2^31 is recovered from its index. */
  lemma GridCellOfIndex(c: Cell, divx: int, divy: int)
    requires 1 <= divx && 1 <= divy
    requires 0 <= c.x < divx && 0 <= c.y < divy && 0 <= c.z
    requires GridIndexOf(c, divx, divy) < TWO31
    ensures 0 <= GridIndexOf(c, divx, divy) && GridCell(GridIndexOf(c, divx, divy), divx, divy) == c
  {
    var g := GridIndexOf(c, divx, divy);
    IndexSplit(c, divx, divy);
    GridCellDecomposes(g, divx, divy);
    var c' := GridCell(g, divx, divy);
    IndexSplit(c', divx, divy);
    var zdiv := divx * divy;
    DivModUnique(g, zdiv, c.z, c.x + divx * c.y);
    DivModUnique(g, zdiv, c'.z, c'.x + divx * c'.y);
    DivModUnique(c.x + divx * c.y, divx, c.y, c.x);
    DivModUnique(c'.x + divx * c'.y, divx, c'.y, c'.x);
  }

  /** A cell inside the grid: its index splits into the offset within a layer and whole layers. */
  lemma IndexSplit(c: Cell, divx: int, divy: int)
    requires 1 <= divx && 1 <= divy
    requires 0 <= c.x < divx && 0 <= c.y < divy && 0 <= c.z
    ensures GridIndexOf(c, divx, divy) == (c.x + divx * c.y) + divx * divy * c.z
    ensures 0 <= c.x + divx * c.y < divx * divy
    ensures 0 <= GridIndexOf(c, divx, divy)
  {
    Distribute(divx, divy, c.y, c.z);
    MulLe(divx, c.y, divy - 1);
    assert divx * (divy - 1) == divx * divy - divx;
    MulLe(divx, 0, c.y);
    MulLe(divx * divy, 0, c.z);
  }

  /** For a non-negative int32 dividend and a positive divisor, `~~(a / b)` is the Euclidean quotient. */
  lemma TruncDivNonneg(a: int, b: int)
    requires 0 <= a < TWO31 && 1 <= b
    ensures TruncDiv(a, b) == a / b && 0 <= a / b
    ensures a == b * (a / b) + a % b && 0 <= a % b < b
    ensures ToInt32(a / b * b) == a / b * b == a - a % b
  {
    var q, r := a / b, a % b;
    assert a == b * q + r && 0 <= r < b;
    assert q >= 0;
    MulLe(q, 1, b);
    assert q * b == b * q;
    assert IsInt32(q) && IsInt32(q * b);
  }

  lemma Distribute(divx: int, divy: int, y: int, z: int)
    ensures divx * (y + divy * z) == divx * y + divx * divy * z
  {
  }

  /** A remainder below divx * divy has a quotient by divx below divy. */
  lemma QuotientBelow(rest: int, divx: int, divy: int)
    requires 0 <= rest < divx * divy && 1 <= divx && 1 <= divy
    ensures rest / divx < divy
  {
    if rest / divx >= divy {
      MulLe(divx, divy, rest / divx);
    }
  }

  /**
   * The x residual restoreVertices uses for vertex i: the stored word, plus the
   * previous vertex's residual when both vertices lie in the same grid cell.
   * The first vertex is compared with 0x7fffffff and a zero previous residual,
   * so it always takes its stored word.  The sum is an exact integer (a
   * JavaScript number), not a 32-bit word.
   */
  function ChainedDelta(intVertices: seq<uint32>, gridIndices: seq<uint32>, i: nat): int
    requires |intVertices| == 3 * |gridIndices| && i < |gridIndices|
  {
    if i > 0 && gridIndices[i] == gridIndices[i - 1] then
      intVertices[3 * i] + ChainedDelta(intVertices, gridIndices, i - 1)
    else intVertices[3 * i]
  }

  /** The writer's x coding: the residual minus the previous one inside the same cell. */
  function StoredResidual(xs: seq<int>, gridIndices: seq<uint32>, i: nat): int
    requires |xs| == |gridIndices| && i < |xs|
  {
    if i > 0 && gridIndices[i] == gridIndices[i - 1] then xs[i] - xs[i - 1] else xs[i]
  }

  /** Chaining the stored words gives back the writer's residuals. */
  lemma {:induction false} ChainUndoesResiduals(xs: seq<int>, intVertices: seq<uint32>, gridIndices: seq<uint32>, i: nat)
    requires |xs| == |gridIndices| && |intVertices| == 3 * |gridIndices| && i < |xs|
    requires forall k :: 0 <= k < |xs| ==> intVertices[3 * k] == StoredResidual(xs, gridIndices, k)
    ensures ChainedDelta(intVertices, gridIndices, i) == xs[i]
  {
    if i > 0 && gridIndices[i] == gridIndices[i - 1] {
      ChainUndoesResiduals(xs, intVertices, gridIndices, i - 1);
    }
  }

  /** Inside a run of vertices sharing one cell the residual only accumulates; a new cell restarts it. */
  lemma {:induction false} ChainAccumulates(intVertices: seq<uint32>, gridIndices: seq<uint32>, s: nat, i: nat)
    requires |intVertices| == 3 * |gridIndices| && s <= i < |gridIndices|
    requires s == 0 || gridIndices[s] != gridIndices[s - 1]
    requires forall k :: s <= k <= i ==> gridIndices[k] == gridIndices[s]
    ensures ChainedDelta(intVertices, gridIndices, i) == ColumnSum(intVertices, s, i)
    decreases i
  {
    if i > s {
      ChainAccumulates(intVertices, gridIndices, s, i - 1);
    }
  }

  /** The sum of the stored x words of vertices s..i. */
  function ColumnSum(intVertices: seq<uint32>, s: nat, i: nat): int
    requires s <= i && 3 * i < |intVertices|
    decreases i
  {
    if i == s then intVertices[3 * s] else ColumnSum(intVertices, s, i - 1) + intVertices[3 * i]
  }

  /**
   * The integer part of restoreVertices: for each vertex its grid cell and its
   * chained x residual.  The coordinates themselves are floating point.
   */
  method RestoreVertices(intVertices: array<uint32>, gridIndices: array<uint32>, divx: int, divy: int)
    returns (cells: seq<Cell>, deltas: seq<int>)
    requires intVertices.Length == 3 * gridIndices.Length
    ensures |cells| == |deltas| == gridIndices.Length
    ensures cells == GridCells(gridIndices[..], divx, divy, gridIndices.Length)
    ensures forall i :: 0 <= i < |deltas| ==> deltas[i] == ChainedDelta(intVertices[..], gridIndices[..], i)
  {
    ghost var iv, gi := intVertices[..], gridIndices[..];
    var prevGridIdx: int, prevDelta: int := 0x7fff_ffff, 0;
    var i, len := 0, gridIndices.Length;
    cells, deltas := [], [];
    while i < len
      invariant 0 <= i <= len
      invariant |cells| == |deltas| == i
      invariant cells == GridCells(gi, divx, divy, i)
      invariant forall k :: 0 <= k < i ==> deltas[k] == ChainedDelta(iv, gi, k)
      invariant i == 0 ==> prevDelta == 0
      invariant i > 0 ==> prevGridIdx == gi[i - 1] && prevDelta == ChainedDelta(iv, gi, i - 1)
    {
      var cell, delta := RestoreVertex(intVertices, gridIndices, i, divx, divy, prevGridIdx, prevDelta);
      cells, deltas := cells + [cell], deltas + [delta];
      prevGridIdx, prevDelta := gridIndices[i], delta;
      i := i + 1;
    }
  }

  /** One pass of the loop of restoreVertices, at vertex i, after the vertex whose grid index and residual are given. */
  method RestoreVertex(intVertices: array<uint32>, gridIndices: array<uint32>, i: nat, divx: int, divy: int,
                       prevGridIdx: int, prevDelta: int) returns (cell: Cell, delta: int)
    requires intVertices.Length == 3 * gridIndices.Length && i < gridIndices.Length
    requires i == 0 ==> prevDelta == 0
    requires i > 0 ==> prevGridIdx == gridIndices[i - 1] && prevDelta == ChainedDelta(intVertices[..], gridIndices[..], i - 1)
    ensures cell == GridCell(gridIndices[i], divx, divy)
    ensures delta == ChainedDelta(intVertices[..], gridIndices[..], i)
  {
    var gridIdx := gridIndices[i];
    cell := GridCell(gridIdx, divx, divy);
    delta := intVertices[3 * i];
    if gridIdx == prevGridIdx {
      delta := delta + prevDelta;
    }
  }

  // ----- zig-zag maps (restoreMap) -----

  /**
   * The signed value restoreMap reads from a stored word: `value & 1` selects
   * `-((value + 1) >> 1)` or `value >> 1`, where `>>` first converts to a
   * signed 32-bit integer and then halves rounding down.
   */
  function ZigZag(v: uint32): int
  {
    if v % 2 == 1 then -(ToInt32(v + 1) / 2) else ToInt32(v) / 2
  }

  /** The writer's zig-zag coding of a signed 32-bit value: 2d for d >= 0, -2d - 1 below. */
  function ZigZagEncode(d: int): uint32
    requires IsInt32(d)
  {
    if d >= 0 then ToUint32(2 * d) else ToUint32(-2 * d - 1)
  }

  /** Zig-zag decoding undoes the coding exactly for the values strictly between -2^30 and 2^30. */
  lemma ZigZagRoundTrip(d: int)
    requires IsInt32(d)
    ensures ZigZag(ZigZagEncode(d)) == d <==> -0x4000_0000 < d < 0x4000_0000
  {
    if d >= 0x4000_0000 {
      var v := 2 * d;
      assert ZigZagEncode(d) == v && v % 2 == 0;
      assert ToInt32(v) == v - TWO32;
    } else if d >= 0 {
      assert ZigZagEncode(d) == 2 * d;
    } else if d > -0x4000_0000 {
      var v := -2 * d - 1;
      assert ZigZagEncode(d) == v && v % 2 == 1;
    } else {
      var v := -2 * d - 1;
      assert ZigZagEncode(d) == v && v % 2 == 1;
      assert ToInt32(v + 1) == v + 1 - TWO32;
    }
  }

  /** The component a map entry belongs to: its index modulo count, by repeated subtraction. */
  function Column(k: nat, count: nat): (r: nat)
    requires count >= 1
    ensures r < count
  {
    if k < count then k else Column(k - count, count)
  }

  /** Entries of one component are count apart: none lies strictly between j and j + count. */
  lemma {:induction false} ColumnGap(j: nat, k: nat, count: nat)
    requires count >= 1 && j < k < j + count
    ensures Column(k, count) != Column(j, count)
    decreases j
  {
    if j >= count {
      ColumnGap(j - count, k - count, count);
    } else if k >= count {
      assert Column(k, count) == k - count;
    }
  }

  /** The value restoreMap leaves at entry j: the running sum of the decoded entries of its component up to j. */
  function MapValue(d: seq<uint32>, count: nat, j: nat): int
    requires count >= 1 && j < |d|
  {
    (if j >= count then MapValue(d, count, j - count) else 0) + ZigZag(d[j])
  }

  /** The words of a Uint32Array view of the map. */
  function AsWords(s: seq<int>): (r: seq<uint32>)
    requires forall k :: 0 <= k < |s| ==> 0 <= s[k] < TWO32
    ensures |r| == |s| && forall k :: 0 <= k < |s| ==> r[k] == s[k]
  {
    seq(|s|, k requires 0 <= k < |s| => s[k] as uint32)
  }

  /**
   * restoreMap before the multiplication by the precision: the Float32Array and
   * its Uint32Array view share one buffer, so the map is a single array holding
   * the stored words on entry and the restored integers on exit.  Each entry is
   * read before it is overwritten.
   */
  method RestoreMap(data: array<int>, count: int)
    requires forall k :: 0 <= k < data.Length ==> 0 <= data[k] < TWO32
    modifies data
    ensures count < 1 ==> data[..] == old(data[..])
    ensures count >= 1 ==> forall k :: 0 <= k < data.Length ==> data[k] == MapValue(AsWords(old(data[..])), count, k)
  {
    ghost var d := AsWords(data[..]);
    var i := 0;
    while i < count
      invariant 0 <= i && (count >= 1 ==> i <= count)
      invariant count < 1 ==> data[..] == old(data[..])
      invariant count >= 1 ==> Restoring(data[..], d, count, i, 0)
    {
      RestoreComponent(data, count, i, d);
      i := i + 1;
    }
  }

  /**
   * The state of restoreMap while it works on component i: the components
   * before i and the entries of component i below j are restored, every other
   * entry still holds its stored word.
   */
  ghost predicate Restoring(s: seq<int>, d: seq<uint32>, count: nat, i: nat, j: nat)
    requires count >= 1
  {
    |s| == |d| &&
    forall k :: 0 <= k < |s| ==>
      s[k] == if Column(k, count) < i || (Column(k, count) == i && k < j) then MapValue(d, count, k) else d[k]
  }

  /** The inner loop of restoreMap: the running sum of component i, every count-th entry from i. */
  method RestoreComponent(data: array<int>, count: nat, i: nat, ghost d: seq<uint32>)
    requires i < count && Restoring(data[..], d, count, i, 0)
    modifies data
    ensures Restoring(data[..], d, count, i + 1, 0)
  {
    var delta := 0;
    var j, len := i, data.Length;
    while j < len
      invariant i <= j && Column(j, count) == i && (j >= count ==> j - count < len)
      invariant delta == if j >= count then MapValue(d, count, j - count) else 0
      invariant Restoring(data[..], d, count, i, j)
    {
      var value: uint32 := data[j];
      delta := delta + ZigZag(value);
      assert delta == MapValue(d, count, j);
      forall k | j < k < j + count ensures Column(k, count) != i {
        ColumnGap(j, k, count);
      }
      data[j] := delta;
      j := j + count;
    }
  }

  /** An all-zero map restores to all zeros. */
  lemma {:induction false} ZeroMapRestoresToZero(d: seq<uint32>, count: nat, j: nat)
    requires count >= 1 && j < |d|
    requires forall k :: 0 <= k < |d| ==> d[k] == 0
    ensures MapValue(d, count, j) == 0
  {
    if j >= count {
      ZeroMapRestoresToZero(d, count, j - count);
    }
  }

  /** The difference the writer codes at entry j: the value minus the previous value of the same component. */
  function MapDifference(values: seq<int>, count: nat, j: nat): int
    requires count >= 1 && j < |values|
  {
    values[j] - if j >= count then values[j - count] else 0
  }

  /** The writer's map coding, given differences inside the signed 32-bit range. */
  function EncodeMap(values: seq<int>, count: nat): (r: seq<uint32>)
    requires count >= 1
    requires forall j :: 0 <= j < |values| ==> IsInt32(MapDifference(values, count, j))
    ensures |r| == |values|
  {
    seq(|values|, j requires 0 <= j < |values| => ZigZagEncode(MapDifference(values, count, j)))
  }

  /** Restoring a coded map gives back the values whenever every difference lies strictly between -2^30 and 2^30. */
  lemma {:induction false} RestoreMapUndoesEncode(values: seq<int>, count: nat, j: nat)
    requires count >= 1 && j < |values|
    requires forall k :: 0 <= k < |values| ==> -0x4000_0000 < MapDifference(values, count, k) < 0x4000_0000
    ensures MapValue(EncodeMap(values, count), count, j) == values[j]
  {
    ZigZagRoundTrip(MapDifference(values, count, j));
    if j >= count {
      RestoreMapUndoesEncode(values, count, j - count);
    }
  }
}

