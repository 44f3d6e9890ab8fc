/** The trip FE -> FV -> FE: an FE mesh of fixed-arity elements without
    faces, translated by mesh_from_fe_mesh and back by fe_mesh_from_mesh
    without tags, comes back as one polyhedral block with one element per
    original element, each listing faces whose nodes are reorderings of that
    element's face templates, over the original node positions and with the
    derived face count. */
module RoundTrip {
  import opened Wrappers
  import opened Connectivity
  import opened ElementTypes
  import opened Blocks
  import opened FeMeshes
  import opened FaceDedup
  import opened FvMeshes
  import opened FeToFv
  import opened FvToFe

  /** The derived cell->face table names faces 0 .. numFaces-1 only, and
      each of them at least once. */
  lemma DerivedFacesDense(cells: seq<ShapedCell>)
    ensures var top := DerivedTables(cells);
      && (forall k :: 0 <= k < |top.cellFaces.items| ==> 0 <= top.cellFaces.items[k] < top.numFaces)
      && forall f :: 0 <= f < top.numFaces ==> f in top.cellFaces.items
  {
    FaceIndicesOnto(Flatten(TupleLists(cells)));
  }

  /** A single block over a table whose items are exactly the faces
      0 .. numFaces-1: numFaces is the only face count fe_mesh_add_block can
      arrive at, one past the largest face index. */
  lemma CoveredIffDense(c: int, t: Table, numFaces: nat)
    requires forall k :: 0 <= k < |t.items| ==> 0 <= t.items[k] < numFaces
    requires forall f :: 0 <= f < numFaces ==> f in t.items
    ensures forall n :: FacesCovered([Block(c, Polyhedron, Some(t), None)], n) <==> n == numFaces
  {
    var blocks := [Block(c, Polyhedron, Some(t), None)];
    forall n ensures FacesCovered(blocks, n) <==> n == numFaces {
      if n == numFaces && numFaces != 0 {
        assert numFaces - 1 in t.items;
        var k :| 0 <= k < |t.items| && t.items[k] == numFaces - 1;
        assert blocks[0].elemFaces.value.items[k] == n - 1;
      }
      if FacesCovered(blocks, n) {
        if numFaces != 0 {
          assert numFaces - 1 in t.items;
          var k :| 0 <= k < |t.items| && t.items[k] == numFaces - 1;
          assert blocks[0].elemFaces.value.items[k] < n;
        }
        if n != 0 {
          var b, k :| 0 <= b < |blocks| && blocks[b].elemFaces.Some? &&
            0 <= k < |blocks[b].elemFaces.value.items| && blocks[b].elemFaces.value.items[k] == n - 1;
          assert t.items[k] == n - 1;
        }
      }
    }
  }

  /** An FV mesh whose cell->face and face->node tables are those derived
      from the given cells, as mesh_from_fe_mesh builds them. */
  ghost predicate DerivedFrom(fv: FvMesh, cells: seq<ShapedCell>)
  {
    var top := DerivedTables(cells);
    fv.numCells == |cells| && fv.cellFaces == top.cellFaces && fv.faceNodes == top.faceNodes
    && fv.numFaces == top.numFaces
  }

  /** FV -> FE of an FV mesh derived from fixed-arity cells: the single block
      "block_1" holds one polyhedral element per cell; element k's j-th face
      is a face of the FV mesh whose nodes reorder the j-th face template of
      cell k; and the face count fe_mesh_add_block arrives at is the number
      of derived faces. */
  lemma DerivedRoundTrip(fv: FvMesh, cells: seq<ShapedCell>)
    requires fv.Valid() && DerivedFrom(fv, cells) && |cells| > 0
    ensures MeshBlocks(fv, None) == Ok((["block_1"], [Block(|cells|, Polyhedron, Some(fv.cellFaces), None)]))
    ensures forall n :: FacesCovered(MeshBlocks(fv, None).value.1, n) <==> n == fv.numFaces
    ensures forall k, j :: 0 <= k < |cells| && 0 <= j < NumCellFaces(cells[k].shape) ==>
      && j < |ElementFaces(MeshBlocks(fv, None).value.1[0], k)|
      && var f := ElementFaces(MeshBlocks(fv, None).value.1[0], k)[j];
      && 0 <= f < fv.numFaces
      && multiset(fv.faceNodes.Entry(f)) == multiset(CellFaceTuples(cells[k].shape, cells[k].nodes)[j])
  {
    SingleBlockIsCellFaces(fv);
    DerivedFacesDense(cells);
    CoveredIffDense(|cells|, fv.cellFaces, fv.numFaces);
    forall k, j | 0 <= k < |cells| && 0 <= j < NumCellFaces(cells[k].shape)
      ensures j < |fv.cellFaces.Entry(k)|
      ensures 0 <= fv.cellFaces.Entry(k)[j] < fv.numFaces
      ensures multiset(fv.faceNodes.Entry(fv.cellFaces.Entry(k)[j])) == multiset(CellFaceTuples(cells[k].shape, cells[k].nodes)[j])
    {
      DerivedRowFaces(cells, k, j);
    }
  }

  /** FE -> FV -> FE: an FE mesh of fixed-arity elements without faces
      translates to an FV mesh over the same node positions whose tables are
      derived from the mesh's elements, so DerivedRoundTrip applies to the
      way back. */
  lemma FixedElementsRoundTrip(m: FeMesh)
    requires m.Valid() && m.numFaces == 0 && AllFixed(m.blocks) && m.NumElements() > 0
    requires Translated(m).Ok?
    ensures |Cells(m.blocks)| == m.NumElements()
    ensures Translated(m).value.nodes == m.nodeCoords
    ensures DerivedFrom(Translated(m).value, Cells(m.blocks))
  {
    CellsCount(m.blocks);
    DerivedTranslation(m);
  }
}
