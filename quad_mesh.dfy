/** The vertex buffer shared by every filter: two triangles that together
    cover the clip-space square [-1, 1] x [-1, 1], filled by a nested loop
    from the bits of `quad = triangle + vertex`. */
module QuadMesh {

  const TrianglePair: nat := 2
  const TriangleVertices: nat := 3
  const Vec2Count: nat := 2
  const Vec2X: nat := 0
  const Vec2Y: nat := 1

  /** Entries of the buffer: two coordinates for each vertex of each triangle. */
  const MeshSize: nat := TrianglePair * TriangleVertices * Vec2Count

  /** The two bit extractions of the loop, `quad & 1` and `(quad >> 1) & 1`
      on JavaScript's 32-bit integers, are the remainder and the quotient of
      `quad` by 2 for the four corners. */
  lemma CornerBits(quad: nat)
    requires quad < 4
    ensures ((quad as bv32) & 1) as int == quad % 2
    ensures (((quad as bv32) >> 1) & 1) as int == quad / 2
  {
    if quad == 0 {
    } else if quad == 1 {
    } else if quad == 2 {
    } else {
      assert quad == 3;
    }
  }

  /** `2 * (quad & 1) - 1`: the x coordinate of corner `quad`, -1 on the
      left for even `quad` and 1 on the right for odd. */
  function CornerX(quad: nat): (x: int)
    requires quad < 4
    ensures x == -1 || x == 1
    ensures x == 1 <==> quad % 2 == 1
  {
    2 * (quad % 2) - 1
  }

  /** `2 * ((quad >> 1) & 1) - 1`: the y coordinate of corner `quad`, -1 at
      the bottom for corners 0 and 1 and 1 at the top for corners 2 and 3. */
  function CornerY(quad: nat): (y: int)
    requires quad < 4
    ensures y == -1 || y == 1
    ensures y == 1 <==> quad >= 2
  {
    2 * (quad / 2) - 1
  }

  /** Offset of coordinate `axis` of vertex `vertex` of triangle `triangle`. */
  function Offset(triangle: nat, vertex: nat, axis: nat): (i: nat)
    requires triangle < TrianglePair && vertex < TriangleVertices && axis < Vec2Count
    ensures i < MeshSize
    ensures i / Vec2Count == triangle * TriangleVertices + vertex && i % Vec2Count == axis
  {
    triangle * TriangleVertices * Vec2Count + vertex * Vec2Count + axis
  }

  /** Vertex `vertex` of triangle `triangle`, read back from a buffer. */
  function VertexOf(m: seq<int>, triangle: nat, vertex: nat): (int, int)
    requires |m| == MeshSize && triangle < TrianglePair && vertex < TriangleVertices
  {
    (m[Offset(triangle, vertex, Vec2X)], m[Offset(triangle, vertex, Vec2Y)])
  }

  /** The buffer `m` holds corner `triangle + vertex` at vertex `vertex` of
      triangle `triangle`. */
  ghost predicate HoldsCorner(m: seq<int>, triangle: nat, vertex: nat)
    requires |m| == MeshSize && triangle < TrianglePair && vertex < TriangleVertices
  {
    VertexOf(m, triangle, vertex) == (CornerX(triangle + vertex), CornerY(triangle + vertex))
  }

  /** What the loop leaves behind: every vertex of every triangle holds its corner. */
  ghost predicate IsMesh(m: seq<int>)
  {
    && |m| == MeshSize
    && forall triangle: nat, vertex: nat :: triangle < TrianglePair && vertex < TriangleVertices ==>
         HoldsCorner(m, triangle, vertex)
  }

  /** The six vertices in drawing order: three of triangle 0, three of triangle 1. */
  function Vertices(m: seq<int>): (vs: seq<(int, int)>)
    requires |m| == MeshSize
    ensures |vs| == TrianglePair * TriangleVertices
  {
    [VertexOf(m, 0, 0), VertexOf(m, 0, 1), VertexOf(m, 0, 2),
     VertexOf(m, 1, 0), VertexOf(m, 1, 1), VertexOf(m, 1, 2)]
  }

  /** The four corners of the clip-space square. */
  const Corners: set<(int, int)> := {(-1, -1), (1, -1), (-1, 1), (1, 1)}

  /** Every entry of the buffer is the x or y coordinate of exactly one vertex. */
  lemma EntryOwner(k: nat) returns (triangle: nat, vertex: nat, axis: nat)
    requires k < MeshSize
    ensures triangle < TrianglePair && vertex < TriangleVertices && axis < Vec2Count
    ensures k == Offset(triangle, vertex, axis)
  {
    triangle := k / 6;
    vertex := k % 6 / 2;
    axis := k % 2;
  }

  /** Vertex `vertex` of triangle `triangle` is corner `quad = triangle + vertex`:
      x is 1 exactly when bit 0 of `quad` is set, y exactly when bit 1 is. */
  lemma VertexIsCorner(m: seq<int>, triangle: nat, vertex: nat)
    requires IsMesh(m) && triangle < TrianglePair && vertex < TriangleVertices
    ensures VertexOf(m, triangle, vertex)
      == (if (triangle + vertex) % 2 == 1 then 1 else -1, if triangle + vertex >= 2 then 1 else -1)
  {
    assert HoldsCorner(m, triangle, vertex);
  }

  /** Every entry of the buffer is -1 or 1. */
  lemma MeshEntriesAreUnit(m: seq<int>)
    requires IsMesh(m)
    ensures forall k :: 0 <= k < MeshSize ==> m[k] == -1 || m[k] == 1
  {
    forall k | 0 <= k < MeshSize
      ensures m[k] == -1 || m[k] == 1
    {
      var triangle, vertex, axis := EntryOwner(k);
      VertexIsCorner(m, triangle, vertex);
    }
  }

  /** The loop's postcondition fixes the buffer entirely: any two buffers
      that hold every corner are equal. */
  lemma MeshUnique(m: seq<int>, m': seq<int>)
    requires IsMesh(m) && IsMesh(m')
    ensures m == m'
  {
    forall k | 0 <= k < MeshSize
      ensures m[k] == m'[k]
    {
      var triangle, vertex, axis := EntryOwner(k);
      assert HoldsCorner(m, triangle, vertex) && HoldsCorner(m', triangle, vertex);
    }
  }

  /** The buffer lists the corners (-1,-1), (1,-1), (-1,1) for the first
      triangle and (1,-1), (-1,1), (1,1) for the second. */
  lemma MeshVertices(m: seq<int>)
    requires IsMesh(m)
    ensures Vertices(m) == [(-1, -1), (1, -1), (-1, 1), (1, -1), (-1, 1), (1, 1)]
  {
    assert HoldsCorner(m, 0, 0) && HoldsCorner(m, 0, 1) && HoldsCorner(m, 0, 2);
    assert HoldsCorner(m, 1, 0) && HoldsCorner(m, 1, 1) && HoldsCorner(m, 1, 2);
  }

  /** The two triangles share their diagonal (vertices 1 and 2 of the first are
      vertices 0 and 1 of the second), and together they use exactly the four
      corners of the square. */
  lemma MeshCoversSquare(m: seq<int>)
    requires IsMesh(m)
    ensures VertexOf(m, 0, 1) == VertexOf(m, 1, 0)
    ensures VertexOf(m, 0, 2) == VertexOf(m, 1, 1)
    ensures forall c :: c in Vertices(m) <==> c in Corners
  {
    MeshVertices(m);
  }

  /** `m` after the loop body for vertex `vertex` of triangle `triangle`. */
  function Store(m: seq<int>, triangle: nat, vertex: nat): (m': seq<int>)
    requires |m| == MeshSize && triangle < TrianglePair && vertex < TriangleVertices
    ensures |m'| == MeshSize
  {
    m[Offset(triangle, vertex, Vec2X) := CornerX(triangle + vertex)]
     [Offset(triangle, vertex, Vec2Y) := CornerY(triangle + vertex)]
  }

  /** The body stores the corner of its own vertex and leaves every other
      vertex as it was. */
  lemma StoreVertex(m: seq<int>, triangle: nat, vertex: nat)
    requires |m| == MeshSize && triangle < TrianglePair && vertex < TriangleVertices
    ensures HoldsCorner(Store(m, triangle, vertex), triangle, vertex)
    ensures forall t: nat, v: nat :: t < TrianglePair && v < TriangleVertices && (t != triangle || v != vertex) ==>
      VertexOf(Store(m, triangle, vertex), t, v) == VertexOf(m, t, v)
  {
    forall t: nat, v: nat | t < TrianglePair && v < TriangleVertices && (t != triangle || v != vertex)
      ensures VertexOf(Store(m, triangle, vertex), t, v) == VertexOf(m, t, v)
    {
      assert Offset(t, v, Vec2X) == t * 6 + v * 2;
      assert Offset(triangle, vertex, Vec2X) == triangle * 6 + vertex * 2;
    }
  }

  /** The mesh-position block: allocate the `Float32Array` and fill it triangle
      by triangle, vertex by vertex, from the bits of `quad`; `CornerBits`
      shows the stored values are `CornerX` and `CornerY`. */
  method FillMeshPositions() returns (data: array<int>)
    ensures fresh(data)
    ensures IsMesh(data[..])
  {
    data := new int[MeshSize];
    var triangle := 0;
    while triangle < TrianglePair
      invariant 0 <= triangle <= TrianglePair
      invariant forall t: nat, v: nat :: t < triangle && v < TriangleVertices ==> HoldsCorner(data[..], t, v)
    {
      var vertex := 0;
      while vertex < TriangleVertices
        invariant 0 <= vertex <= TriangleVertices
        invariant forall t: nat, v: nat :: t < triangle && v < TriangleVertices ==> HoldsCorner(data[..], t, v)
        invariant forall v: nat :: v < vertex ==> HoldsCorner(data[..], triangle, v)
      {
        var quad := triangle + vertex;
        var index :=
          triangle * TriangleVertices * Vec2Count +
          vertex * Vec2Count;
        ghost var prev := data[..];
        var bits := quad as bv32;
        data[index + Vec2X] := 2 * ((bits & 1) as int) - 1;
        data[index + Vec2Y] := 2 * (((bits >> 1) & 1) as int) - 1;
        CornerBits(quad);
        assert data[..] == Store(prev, triangle, vertex);
        StoreVertex(prev, triangle, vertex);
        forall t: nat, v: nat | t < triangle && v < TriangleVertices
          ensures HoldsCorner(data[..], t, v)
        {
          assert HoldsCorner(prev, t, v);
        }
        forall v: nat | v <= vertex
          ensures HoldsCorner(data[..], triangle, v)
        {
          if v < vertex {
            assert HoldsCorner(prev, triangle, v);
          }
        }
        vertex := vertex + 1;
      }
      triangle := triangle + 1;
    }
  }
}
