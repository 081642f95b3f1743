/**
 * The 3D viewport's view model (Viewport3DViewModel.cs): merging the parts
 * of one mesh group into one vertex and index buffer, the per-model render
 * flags, and the list of active shapes.
 */
module Viewport {
  import opened Wrappers
  import opened Lists
  import opened Decimal

  datatype Vector3 = Vector3(x: real, y: real, z: real)
  datatype Vector2 = Vector2(x: real, y: real)
  /** A vertex colour as stored, four bytes; the conversion to floats is not part of this model. */
  datatype VertexColor = VertexColor(r: int, g: int, b: int, a: int)

  datatype Vertex = Vertex(position: Vector3, normal: Vector3, uv1: Vector2, color: VertexColor,
                           binormal: Vector3, tangent: Vector3)

  /** A part: its own vertices, and triangles given as indices into them. */
  datatype Part = Part(vertices: seq<Vertex>, triangleIndices: seq<int>)
  datatype MeshGroup = MeshGroup(parts: seq<Part>)
  datatype TTModel = TTModel(meshGroups: seq<MeshGroup>)

  /** The six parallel vertex collections and the index collection of a mesh. */
  datatype MeshGeometry = MeshGeometry(
    positions: seq<Vector3>, normals: seq<Vector3>, textureCoordinates: seq<Vector2>,
    colors: seq<VertexColor>, biTangents: seq<Vector3>, tangents: seq<Vector3>,
    indices: seq<int>)

  const EmptyGeometry := MeshGeometry([], [], [], [], [], [], [])

  /** Every vertex of the parts, part after part. */
  function AllVertices(parts: seq<Part>): seq<Vertex>
    decreases |parts|
  {
    if parts == [] then [] else AllVertices(parts[..|parts| - 1]) + parts[|parts| - 1].vertices
  }

  /** The number of vertices in the parts before part `k`: where part `k` starts. */
  function VertexOffset(parts: seq<Part>, k: nat): nat
    requires k <= |parts|
  {
    |AllVertices(parts[..k])|
  }

  /** The index list, each part's indices raised by the vertex count of the parts before it. */
  function MergedIndices(parts: seq<Part>): seq<int>
    decreases |parts|
  {
    if parts == [] then []
    else
      var prefix := parts[..|parts| - 1];
      MergedIndices(prefix) + Shift(parts[|parts| - 1].triangleIndices, |AllVertices(prefix)|)
  }

  function Shift(xs: seq<int>, offset: int): (r: seq<int>)
    ensures |r| == |xs| && forall i :: 0 <= i < |xs| ==> r[i] == xs[i] + offset
  {
    seq(|xs|, i requires 0 <= i < |xs| => xs[i] + offset)
  }

  /** The six vertex collections of a vertex sequence, with the given index collection. */
  function Buffers(vs: seq<Vertex>, indices: seq<int>): MeshGeometry {
    MeshGeometry(
      seq(|vs|, i requires 0 <= i < |vs| => vs[i].position),
      seq(|vs|, i requires 0 <= i < |vs| => vs[i].normal),
      seq(|vs|, i requires 0 <= i < |vs| => vs[i].uv1),
      seq(|vs|, i requires 0 <= i < |vs| => vs[i].color),
      seq(|vs|, i requires 0 <= i < |vs| => vs[i].binormal),
      seq(|vs|, i requires 0 <= i < |vs| => vs[i].tangent),
      indices)
  }

  /** The merged mesh of a group's parts. */
  function Geometry(parts: seq<Part>): (g: MeshGeometry)
    ensures |g.positions| == |g.normals| == |g.textureCoordinates| == |g.colors|
            == |g.biTangents| == |g.tangents| == |AllVertices(parts)|
    ensures g.indices == MergedIndices(parts)
  {
    Buffers(AllVertices(parts), MergedIndices(parts))
  }

  /** Appending one vertex appends one entry to each of the six collections. */
  function AddVertex(g: MeshGeometry, v: Vertex): MeshGeometry {
    g.(positions := g.positions + [v.position], normals := g.normals + [v.normal],
       textureCoordinates := g.textureCoordinates + [v.uv1], colors := g.colors + [v.color],
       biTangents := g.biTangents + [v.binormal], tangents := g.tangents + [v.tangent])
  }

  lemma BuffersSnoc(vs: seq<Vertex>, v: Vertex, indices: seq<int>)
    ensures Buffers(vs + [v], indices) == AddVertex(Buffers(vs, indices), v)
  {
  }

  function SumVertexCounts(parts: seq<Part>): nat
    decreases |parts|
  {
    if parts == [] then 0 else SumVertexCounts(parts[..|parts| - 1]) + |parts[|parts| - 1].vertices|
  }

  function SumIndexCounts(parts: seq<Part>): nat
    decreases |parts|
  {
    if parts == [] then 0 else SumIndexCounts(parts[..|parts| - 1]) + |parts[|parts| - 1].triangleIndices|
  }

  /** The offset where the indices of part `k` start in the merged list. */
  function IndexOffset(parts: seq<Part>, k: nat): nat
    requires k <= |parts|
  {
    SumIndexCounts(parts[..k])
  }

  /**
   * The six vertex collections have one entry per vertex of every part and
   * the index collection one per triangle index of every part.
   */
  lemma {:induction false} GeometrySizes(parts: seq<Part>)
    ensures |AllVertices(parts)| == SumVertexCounts(parts)
    ensures |MergedIndices(parts)| == SumIndexCounts(parts)
    decreases |parts|
  {
    if parts != [] {
      GeometrySizes(parts[..|parts| - 1]);
    }
  }

  lemma AllVerticesPrefix(parts: seq<Part>, k: nat)
    requires k <= |parts|
    ensures |AllVertices(parts[..k])| <= |AllVertices(parts)|
    ensures AllVertices(parts)[..|AllVertices(parts[..k])|] == AllVertices(parts[..k])
    decreases |parts|
  {
    if k < |parts| {
      var prefix := parts[..|parts| - 1];
      assert prefix[..k] == parts[..k];
      AllVerticesPrefix(prefix, k);
    } else {
      assert parts[..k] == parts;
    }
  }

  /** Vertex `x` of part `k` sits at the part's vertex offset plus `x`: vertices keep part order and their order within a part. */
  lemma {:induction false} VertexAt(parts: seq<Part>, k: nat, x: nat)
    requires k < |parts| && x < |parts[k].vertices|
    ensures VertexOffset(parts, k) + x < |AllVertices(parts)|
    ensures AllVertices(parts)[VertexOffset(parts, k) + x] == parts[k].vertices[x]
  {
    AllVerticesPrefix(parts, k + 1);
    assert parts[..k + 1][..k] == parts[..k];
    assert AllVertices(parts[..k + 1]) == AllVertices(parts[..k]) + parts[k].vertices;
  }

  lemma MergedIndicesPrefix(parts: seq<Part>, k: nat)
    requires k <= |parts|
    ensures |MergedIndices(parts[..k])| <= |MergedIndices(parts)|
    ensures MergedIndices(parts)[..|MergedIndices(parts[..k])|] == MergedIndices(parts[..k])
    decreases |parts|
  {
    if k < |parts| {
      var prefix := parts[..|parts| - 1];
      assert prefix[..k] == parts[..k];
      MergedIndicesPrefix(prefix, k);
    } else {
      assert parts[..k] == parts;
    }
  }

  /** Index `j` of part `k` appears at the part's index offset, raised by the part's vertex offset. */
  lemma {:induction false} IndexAt(parts: seq<Part>, k: nat, j: nat)
    requires k < |parts| && j < |parts[k].triangleIndices|
    ensures IndexOffset(parts, k) + j < |MergedIndices(parts)|
    ensures MergedIndices(parts)[IndexOffset(parts, k) + j] == parts[k].triangleIndices[j] + VertexOffset(parts, k)
  {
    MergedIndicesPrefix(parts, k + 1);
    assert parts[..k + 1][..k] == parts[..k];
    GeometrySizes(parts[..k]);
    assert MergedIndices(parts[..k + 1])
        == MergedIndices(parts[..k]) + Shift(parts[k].triangleIndices, VertexOffset(parts, k));
  }

  /**
   * Merging keeps every triangle pointing at the same vertex: when an index
   * is valid within its own part, the merged index is valid in the merged
   * buffer and names that same vertex.
   */
  lemma MergedIndexNamesSameVertex(parts: seq<Part>, k: nat, j: nat)
    requires k < |parts| && j < |parts[k].triangleIndices|
    requires 0 <= parts[k].triangleIndices[j] < |parts[k].vertices|
    ensures IndexOffset(parts, k) + j < |MergedIndices(parts)|
    ensures var m := MergedIndices(parts)[IndexOffset(parts, k) + j];
            && 0 <= m < |AllVertices(parts)|
            && AllVertices(parts)[m] == parts[k].vertices[parts[k].triangleIndices[j]]
  {
    IndexAt(parts, k, j);
    VertexAt(parts, k, parts[k].triangleIndices[j]);
  }

  /**
   * GetMeshGeometry (Viewport3DViewModel.cs:85-140): the parts of one group
   * merged in order, each part's indices raised by the vertices before it in
   * the same group; earlier groups add no offset.
   */
  method GetMeshGeometry(model: TTModel, meshGroupId: nat) returns (mg: MeshGeometry)
    requires meshGroupId < |model.meshGroups|
    ensures mg == Geometry(model.meshGroups[meshGroupId].parts)
  {
    var parts := model.meshGroups[meshGroupId].parts;
    mg := EmptyGeometry;
    var indexCount := 0;
    var vertCount := 0;
    for k := 0 to |parts|
      invariant mg == Geometry(parts[..k])
      invariant vertCount == |AllVertices(parts[..k])|
      invariant indexCount == |mg.indices|
    {
      var p := parts[k];
      assert parts[..k + 1][..k] == parts[..k];
      ghost var vs := AllVertices(parts[..k]);
      ghost var before := mg.indices;
      for j := 0 to |p.vertices|
        invariant mg == Buffers(vs + p.vertices[..j], before)
      {
        var v := p.vertices[j];
        BuffersSnoc(vs + p.vertices[..j], v, before);
        assert vs + p.vertices[..j + 1] == (vs + p.vertices[..j]) + [v];
        mg := AddVertex(mg, v);
      }
      assert p.vertices[..|p.vertices|] == p.vertices;
      for j := 0 to |p.triangleIndices|
        invariant mg == Buffers(vs + p.vertices, before + Shift(p.triangleIndices[..j], vertCount))
      {
        assert Shift(p.triangleIndices[..j + 1], vertCount) == Shift(p.triangleIndices[..j], vertCount) + [vertCount + p.triangleIndices[j]];
        mg := mg.(indices := mg.indices + [vertCount + p.triangleIndices[j]]);
      }
      assert p.triangleIndices[..|p.triangleIndices|] == p.triangleIndices;
      vertCount := vertCount + |p.vertices|;
      indexCount := indexCount + |p.triangleIndices|;
    }
    assert parts[..|parts|] == parts;
  }

  /**
   * Offsets are local to the group: the first part's indices come through
   * unchanged, whatever groups precede this one in the model.
   */
  lemma FirstPartUnshifted(parts: seq<Part>)
    requires |parts| > 0
    ensures |parts[0].triangleIndices| <= |MergedIndices(parts)|
    ensures MergedIndices(parts)[..|parts[0].triangleIndices|] == parts[0].triangleIndices
  {
    var first := parts[..1];
    assert first[..0] == [];
    assert first[0] == parts[0];
    assert MergedIndices(first) == Shift(parts[0].triangleIndices, 0);
    assert Shift(parts[0].triangleIndices, 0) == parts[0].triangleIndices;
    MergedIndicesPrefix(parts, 1);
  }

  class Viewport3DViewModel {
    /** The `IsRendering` flag of each model in the viewport, in order. */
    var rendering: array<bool>
    var activeShapes: seq<string>

    constructor(modelCount: nat)
      ensures rendering.Length == modelCount && fresh(rendering)
      ensures forall i :: 0 <= i < modelCount ==> rendering[i]
      ensures activeShapes == []
    {
      rendering := new bool[modelCount](_ => true);
      activeShapes := [];
    }

    /**
     * VisibleModels: the "all" label turns every model on; otherwise the
     * label is read as an integer and only the model at that index renders.
     * A label that does not parse throws before any flag changes.
     */
    method VisibleModels(selectedMesh: string, allLabel: string) returns (ok: bool)
      modifies rendering
      ensures selectedMesh == allLabel ==> ok && forall i :: 0 <= i < rendering.Length ==> rendering[i]
      ensures selectedMesh != allLabel ==> (ok <==> ParseInt(selectedMesh).Some?)
      ensures selectedMesh != allLabel && ok ==>
                forall i :: 0 <= i < rendering.Length ==> (rendering[i] <==> i == ParseInt(selectedMesh).value)
      ensures !ok ==> rendering[..] == old(rendering[..])
    {
      if selectedMesh == allLabel {
        for i := 0 to rendering.Length
          invariant forall x :: 0 <= x < i ==> rendering[x]
        {
          rendering[i] := true;
        }
        return true;
      }
      var parsed := ParseInt(selectedMesh);
      if parsed.None? {
        return false;
      }
      var modelNum := parsed.value;
      for i := 0 to rendering.Length
        invariant forall x :: 0 <= x < i ==> (rendering[x] <==> x == modelNum)
      {
        rendering[i] := (i == modelNum);
      }
      ok := true;
    }

    /** ActiveShapes: a copy of the list, which later changes to the list do not reach. */
    function ActiveShapes(): (r: seq<string>)
      reads this
      ensures r == activeShapes
    {
      activeShapes
    }

    /** AddShape: appends the shape. */
    method AddShape(shape: string)
      modifies this`activeShapes
      ensures activeShapes == old(activeShapes) + [shape]
    {
      activeShapes := activeShapes + [shape];
    }

    /** RemoveShape: drops the first occurrence of the shape, if any. */
    method RemoveShape(shape: string)
      modifies this`activeShapes
      ensures activeShapes == RemoveFirst(old(activeShapes), shape)
    {
      activeShapes := RemoveFirst(activeShapes, shape);
    }

    /** SetShapes: replaces the whole list. */
    method SetShapes(shapes: seq<string>)
      modifies this`activeShapes
      ensures activeShapes == shapes
    {
      activeShapes := shapes;
    }
  }
}
