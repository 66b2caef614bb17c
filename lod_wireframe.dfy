/**
 * Node.createWireframeMesh's index expansion: the triangle list of a mesh
 * (a Uint16Array) becomes a line list twice as long, in which triangle
 * (a, b, c) contributes the three segments a-b, b-c and c-a.
 */
module LodWireframe {
  import opened Wrappers

  /** An element of a Uint16Array. */
  type uint16 = x: int | 0 <= x < 0x1_0000

  /** Reading a typed array: past the end JavaScript yields undefined, which a Uint16Array stores as 0. */
  function At(tri: seq<uint16>, i: nat): uint16
  {
    if i < |tri| then tri[i] else 0
  }

  /** The corner of its triangle each of the six line entries of that triangle repeats. */
  function Corner(k: nat): nat
    requires k < 6
  {
    [0, 1, 1, 2, 2, 0][k]
  }

  /** Entry j of the line list built from the triangle list `tri`. */
  function LineEntry(tri: seq<uint16>, j: nat): uint16
  {
    At(tri, 3 * (j / 6) + Corner(j % 6))
  }

  /** Writing past the end of a typed array is ignored. */
  method Store(a: array<uint16>, j: nat, v: uint16)
    modifies a
    ensures j < a.Length ==> a[..] == old(a[..])[j := v]
    ensures j >= a.Length ==> a[..] == old(a[..])
  {
    if j < a.Length {
      a[j] := v;
    }
  }

  /**
   * createWireframeMesh: no line list for an empty triangle list; otherwise
   * a fresh Uint16Array of twice the length, filled triangle by triangle.
   */
  method WireframeIndices(tri: seq<uint16>) returns (lines: Option<array<uint16>>)
    ensures lines.None? <==> |tri| == 0
    ensures lines.Some? ==> fresh(lines.value) && lines.value.Length == 2 * |tri|
    ensures lines.Some? ==> forall j :: 0 <= j < lines.value.Length ==> lines.value[j] == LineEntry(tri, j)
  {
    if |tri| == 0 {
      return None;
    }
    var a := new uint16[2 * |tri|](_ => 0);
    var i := 0;
    var offset := 0;
    while i < |tri|
      invariant i % 3 == 0 && offset == 2 * i
      invariant i <= |tri| + 2
      invariant forall j :: 0 <= j < a.Length && j < offset ==> a[j] == LineEntry(tri, j)
    {
      ghost var before := a[..];
      Store(a, offset, At(tri, i));
      Store(a, offset + 1, At(tri, i + 1));
      Store(a, offset + 2, At(tri, i + 1));
      Store(a, offset + 3, At(tri, i + 2));
      Store(a, offset + 4, At(tri, i + 2));
      Store(a, offset + 5, At(tri, i));
      forall j | 0 <= j < a.Length && j < offset + 6 ensures a[j] == LineEntry(tri, j) {
        if j >= offset {
          assert j / 6 == i / 3 && j % 6 == j - offset;
        } else {
          assert a[j] == before[j];
        }
      }
      i := i + 3;
      offset := offset + 6;
    }
    return Some(a);
  }

  /** A complete triangle (a, b, c) turns into the segments a-b, b-c, c-a, in that order. */
  lemma TriangleBecomesThreeSegments(tri: seq<uint16>, t: nat)
    requires 3 * t + 2 < |tri|
    ensures [LineEntry(tri, 6 * t), LineEntry(tri, 6 * t + 1)] == [tri[3 * t], tri[3 * t + 1]]
    ensures [LineEntry(tri, 6 * t + 2), LineEntry(tri, 6 * t + 3)] == [tri[3 * t + 1], tri[3 * t + 2]]
    ensures [LineEntry(tri, 6 * t + 4), LineEntry(tri, 6 * t + 5)] == [tri[3 * t + 2], tri[3 * t]]
  {
    assert (6 * t) / 6 == t && (6 * t + 1) / 6 == t && (6 * t + 2) / 6 == t;
    assert (6 * t + 3) / 6 == t && (6 * t + 4) / 6 == t && (6 * t + 5) / 6 == t;
  }

  /**
   * Segment p joins corners p mod 3 and p + 1 mod 3 of triangle p / 3: the
   * line list never connects vertices of different triangles, and walks each
   * triangle's corners in cyclic order.
   */
  lemma SegmentsStayInTriangle(tri: seq<uint16>, p: nat)
    requires |tri| % 3 == 0 && 2 * p + 1 < 2 * |tri|
    ensures var t := p / 3;
      LineEntry(tri, 2 * p) == tri[3 * t + p % 3] &&
      LineEntry(tri, 2 * p + 1) == tri[3 * t + (p + 1) % 3]
  {
    var t := p / 3;
    assert (2 * p) / 6 == t && (2 * p + 1) / 6 == t;
    assert (2 * p) % 6 == 2 * (p % 3) && (2 * p + 1) % 6 == 2 * (p % 3) + 1;
  }

  /**
   * A trailing partial triangle reads past the end of the triangle list:
   * its missing corners come out as vertex 0.
   */
  lemma PartialTriangleUsesVertexZero(tri: seq<uint16>, j: nat)
    requires j < 2 * |tri|
    requires 3 * (j / 6) + Corner(j % 6) >= |tri|
    ensures LineEntry(tri, j) == 0
  {
  }
}
