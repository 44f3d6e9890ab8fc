/** Small meshes pushed through mesh_from_fe_mesh: the faces a lone
    tetrahedron, two tetrahedra sharing a face and a lone hexahedron get, and
    the cells each face is shared by. */
module MeshExamples {
  import opened Wrappers
  import opened Connectivity
  import opened ElementTypes
  import opened Blocks
  import opened FeMeshes
  import opened FaceDedup
  import opened FaceCells
  import opened FvMeshes
  import opened FeToFv

  //------------------------------------------------------------------------
  // Helpers.
  //------------------------------------------------------------------------

  /** The indices 0, 1, ..., n-1 in order. */
  function Ids(n: nat): (r: seq<int>)
    ensures |r| == n && forall i :: 0 <= i < n ==> r[i] == i
  {
    seq(n, i => i)
  }

  /** The cells of a mesh with one fixed-arity block are that block's cells. */
  lemma SingleBlockCells(blocks: seq<Block>)
    requires |blocks| == 1 && BlocksValid(blocks) && AllFixed(blocks)
    ensures Cells(blocks) == BlockCells(blocks[0])
  {
    FlattenOne(CellLists(blocks));
  }

  /** The tuples of a single cell are that cell's face tuples. */
  lemma SingleCellTuples(cells: seq<ShapedCell>)
    requires |cells| == 1
    ensures AllTuples(cells) == CellFaceTuples(cells[0].shape, cells[0].nodes)
  {
    FlattenOne(TupleLists(cells));
  }

  /** Over the nodes 0, 1, 2, ... a cell's face tuples are its templates. */
  lemma IdentityTuples(s: Shape, nodes: seq<int>)
    requires |nodes| >= CornerNodes(s) && forall i :: 0 <= i < |nodes| ==> nodes[i] == i
    ensures CellFaceTuples(s, nodes) == FaceTemplates(s)
  {
    FaceTemplatesShape(s);
    var fs := CellFaceTuples(s, nodes);
    forall f | 0 <= f < |fs| ensures fs[f] == FaceTemplates(s)[f] {
    }
  }

  /** Tuples no two of which are reorderings get faces 0, 1, 2, ... in order. */
  lemma DistinctNumbering(cells: seq<ShapedCell>)
    requires forall a, b :: 0 <= a < b < |AllTuples(cells)| ==>
      multiset(AllTuples(cells)[a]) != multiset(AllTuples(cells)[b])
    ensures DerivedTables(cells).numFaces == |AllTuples(cells)|
    ensures DerivedTables(cells).cellFaces.items == Ids(|AllTuples(cells)|)
  {
    var fs := AllTuples(cells);
    forall p | 0 <= p < |fs| ensures FaceIndices(EmptyRegistry, fs)[p] == p {
      DistinctTuplesNumberedInOrder(fs, p);
    }
    KeySetDistinct(fs);
    DerivedFaceCount(cells);
  }

  /** A lone cell whose face tuples are no reorderings of each other gets
      one face per tuple, numbered in template order, each with the tuple's
      nodes; every face belongs to the cell alone, so its second face->cell
      slot stays -1. */
  lemma LoneCell(c: ShapedCell)
    requires forall a, b :: 0 <= a < b < NumCellFaces(c.shape) ==>
      multiset(CellFaceTuples(c.shape, c.nodes)[a]) != multiset(CellFaceTuples(c.shape, c.nodes)[b])
    ensures var top := DerivedTables([c]); var n := NumCellFaces(c.shape);
      && top.numFaces == n
      && top.cellFaces.items == Ids(n)
      && FaceCellsOf(top.cellFaces, n).Ok?
      && |FaceCellsOf(top.cellFaces, n).value| == 2 * n
      && forall f :: 0 <= f < n ==>
           && FaceCellsOf(top.cellFaces, n).value[2 * f] == 0
           && FaceCellsOf(top.cellFaces, n).value[2 * f + 1] == -1
           && multiset(top.faceNodes.Entry(f)) == multiset(CellFaceTuples(c.shape, c.nodes)[f])
  {
    var cells: seq<ShapedCell> := [c];
    SingleCellTuples(cells);
    DistinctNumbering(cells);
    var top := DerivedTables(cells);
    var n := NumCellFaces(c.shape);
    LoneRow(top.cellFaces, n);
    forall f | 0 <= f < n
      ensures multiset(top.faceNodes.Entry(f)) == multiset(CellFaceTuples(c.shape, c.nodes)[f])
    {
      DerivedRowFaces(cells, 0, f);
    }
  }

  /** A one-row cell->face table listing faces 0 .. n-1 once each: each face's
      slot 0 holds cell 0 and its slot 1 stays empty. */
  lemma LoneRow(t: Table, n: nat)
    requires t.Valid() && t.Count() == 1 && t.items == Ids(n)
    ensures t.Entry(0) == t.items
    ensures FaceCellsOf(t, n).Ok? && |FaceCellsOf(t, n).value| == 2 * n
    ensures forall f :: 0 <= f < n ==>
      FaceCellsOf(t, n).value[2 * f] == 0 && FaceCellsOf(t, n).value[2 * f + 1] == -1
  {
    forall f | 0 <= f < n ensures multiset(t.items)[f] == 1 {
      IdsCountOnce(n, f);
    }
    FaceCellsOkCount(t, n);
    FaceCellsLength(t, n);
    forall f | 0 <= f < n
      ensures FaceCellsOf(t, n).value[2 * f] == 0 && FaceCellsOf(t, n).value[2 * f + 1] == -1
    {
      FaceCellCount(t, n, f);
      FaceCellSlots(t, n, f);
    }
  }

  /** Each of 0 .. n-1 occurs once in the sequence 0, 1, ..., n-1. */
  lemma {:induction false} IdsCountOnce(n: nat, f: int)
    requires 0 <= f < n
    ensures multiset(Ids(n))[f] == 1
  {
    assert Ids(n) == Ids(n - 1) + [n - 1];
    if f == n - 1 {
      assert f !in Ids(n - 1);
    } else {
      IdsCountOnce(n - 1, f);
    }
  }

  //------------------------------------------------------------------------
  // A lone element.
  //------------------------------------------------------------------------

  /** The nodes 0, 1, ..., n-1 as one element: the connectivity of a mesh
      holding a single element over its own nodes. */
  function OwnNodes(n: nat): (t: Table)
    ensures t.Valid() && t.Count() == 1 && t.Size(0) == n
  {
    assert Monotone([0, n]);
    Table([0, n], Ids(n))
  }

  /** The one cell of a mesh whose one block holds one element over its own
      nodes. */
  lemma LoneElementCell(m: FeMesh, t: ElementType)
    requires m.Valid() && HasFixedArity(t)
    requires m.blocks == [Block(1, t, None, Some(OwnNodes(NodesPerElement(t))))]
    ensures AllFixed(m.blocks)
    ensures Cells(m.blocks) == [Cell(ShapeOf(t).value, Ids(NodesPerElement(t)))]
  {
    var b := m.blocks[0];
    assert BlocksValid(m.blocks);
    SingleBlockCells(m.blocks);
    assert ElementNodes(b, 0) == Ids(NodesPerElement(t));
  }

  /** The derived topology of a lone cell over its own nodes. */
  lemma LoneShape(s: Shape, n: nat)
    requires n >= CornerNodes(s)
    ensures var top := DerivedTables([Cell(s, Ids(n))]);
      && top.numFaces == NumCellFaces(s)
      && top.cellFaces.Entry(0) == Ids(NumCellFaces(s))
      && FaceCellsOf(top.cellFaces, top.numFaces).Ok?
      && |FaceCellsOf(top.cellFaces, top.numFaces).value| == 2 * NumCellFaces(s)
      && forall f :: 0 <= f < NumCellFaces(s) ==>
           && FaceCellsOf(top.cellFaces, top.numFaces).value[2 * f] == 0
           && FaceCellsOf(top.cellFaces, top.numFaces).value[2 * f + 1] == -1
           && multiset(top.faceNodes.Entry(f)) == multiset(FaceTemplates(s)[f])
  {
    var c: ShapedCell := Cell(s, Ids(n));
    OwnTuplesDistinct(s, n);
    LoneCell(c);
    var top := DerivedTables([c]);
    assert top.cellFaces.Entry(0) == top.cellFaces.items;
  }

  /** Over its own nodes a cell's face tuples are its templates, no two of
      them reorderings of each other. */
  lemma OwnTuplesDistinct(s: Shape, n: nat)
    requires n >= CornerNodes(s)
    ensures CellFaceTuples(s, Ids(n)) == FaceTemplates(s)
    ensures forall a, b :: 0 <= a < b < NumCellFaces(s) ==>
      multiset(CellFaceTuples(s, Ids(n))[a]) != multiset(CellFaceTuples(s, Ids(n))[b])
  {
    IdentityTuples(s, Ids(n));
    FaceTemplatesDistinct(s);
  }

  /** An FE mesh without faces whose one block holds one fixed-arity element
      translates to one cell with one face per face of its shape, in template
      order, each over that face's corners; every face belongs to the cell
      alone, so its second face->cell slot stays -1. */
  lemma LoneElement(m: FeMesh, t: ElementType)
    requires m.Valid() && m.numFaces == 0 && HasFixedArity(t)
    requires m.blocks == [Block(1, t, None, Some(OwnNodes(NodesPerElement(t))))]
    ensures Translated(m).Ok?
    ensures var fv := Translated(m).value; var s := ShapeOf(t).value;
      && fv.numCells == 1 && fv.numFaces == NumCellFaces(s)
      && fv.cellFaces.Entry(0) == Ids(NumCellFaces(s))
      && |fv.faceCells| == 2 * NumCellFaces(s)
      && forall f :: 0 <= f < NumCellFaces(s) ==>
           && fv.faceCells[2 * f] == 0 && fv.faceCells[2 * f + 1] == -1
           && multiset(fv.faceNodes.Entry(f)) == multiset(FaceTemplates(s)[f])
  {
    LoneElementCell(m, t);
    LoneShape(ShapeOf(t).value, NodesPerElement(t));
    DerivedTranslation(m);
  }

  /** A lone four-node tetrahedron has four triangular faces, none shared. */
  lemma OneTetrahedron(m: FeMesh)
    requires m.Valid() && m.numFaces == 0
    requires m.blocks == [Block(1, Tetrahedron4, None, Some(OwnNodes(4)))]
    ensures Translated(m).Ok?
    ensures var fv := Translated(m).value;
      && fv.numCells == 1 && fv.numFaces == 4 && |fv.faceCells| == 8
      && forall f :: 0 <= f < 4 ==>
           && |fv.faceNodes.Entry(f)| == 3
           && fv.faceCells[2 * f] == 0 && fv.faceCells[2 * f + 1] == -1
  {
    assert ShapeOf(Tetrahedron4).value == Tetrahedron;
    LoneElement(m, Tetrahedron4);
    TetrahedronTriangles();
    LoneFaceSizes(Translated(m).value, Tetrahedron, 3, 4);
  }

  /** A lone eight-node hexahedron has six quadrilateral faces, none shared. */
  lemma OneHexahedron(m: FeMesh)
    requires m.Valid() && m.numFaces == 0
    requires m.blocks == [Block(1, Hexahedron8, None, Some(OwnNodes(8)))]
    ensures Translated(m).Ok?
    ensures var fv := Translated(m).value;
      && fv.numCells == 1 && fv.numFaces == 6 && |fv.faceCells| == 12
      && forall f :: 0 <= f < 6 ==>
           && |fv.faceNodes.Entry(f)| == 4
           && fv.faceCells[2 * f] == 0 && fv.faceCells[2 * f + 1] == -1
  {
    assert ShapeOf(Hexahedron8).value == Hexahedron;
    LoneElement(m, Hexahedron8);
    HexahedronQuadrilaterals();
    LoneFaceSizes(Translated(m).value, Hexahedron, 4, 6);
  }

  /** The lone cell's n faces hold reorderings of its shape's templates, all
      of one size, so they have that size. */
  lemma LoneFaceSizes(fv: FvMesh, s: Shape, size: int, n: int)
    requires fv.Valid() && n == NumCellFaces(s) && fv.numCells == 1 && fv.numFaces == n && |fv.faceCells| == 2 * n
    requires forall f :: 0 <= f < n ==> |FaceTemplates(s)[f]| == size
    requires forall f :: 0 <= f < n ==>
      && fv.faceCells[2 * f] == 0 && fv.faceCells[2 * f + 1] == -1
      && multiset(fv.faceNodes.Entry(f)) == multiset(FaceTemplates(s)[f])
    ensures forall f :: 0 <= f < n ==>
      && |fv.faceNodes.Entry(f)| == size
      && fv.faceCells[2 * f] == 0 && fv.faceCells[2 * f + 1] == -1
  {
    forall f | 0 <= f < n ensures |fv.faceNodes.Entry(f)| == size {
      assert |multiset(fv.faceNodes.Entry(f))| == |multiset(FaceTemplates(s)[f])|;
    }
  }

  lemma TetrahedronTriangles()
    ensures forall f :: 0 <= f < NumCellFaces(Tetrahedron) ==> |FaceTemplates(Tetrahedron)[f]| == 3
  {
  }

  lemma HexahedronQuadrilaterals()
    ensures forall f :: 0 <= f < NumCellFaces(Hexahedron) ==> |FaceTemplates(Hexahedron)[f]| == 4
  {
  }

  //------------------------------------------------------------------------
  // Two tetrahedra sharing a face.
  //------------------------------------------------------------------------

  /** Tetrahedra over nodes 0, 1, 2, 3 and 1, 2, 3, 4: they share the
      triangle 1, 2, 3, the first's third face and the second's first. */
  predicate TwoTetrahedra(cells: seq<ShapedCell>)
  {
    |cells| == 2 && cells[0] == Cell(Tetrahedron, [0, 1, 2, 3]) && cells[1] == Cell(Tetrahedron, [1, 2, 3, 4])
  }

  /** A tetrahedron's face tuples in terms of its four nodes. */
  lemma TetrahedronTuples(a: int, b: int, c: int, d: int)
    ensures CellFaceTuples(Tetrahedron, [a, b, c, d]) == [[a, b, c], [a, b, d], [b, c, d], [c, a, d]]
  {
    var fs := CellFaceTuples(Tetrahedron, [a, b, c, d]);
    assert fs[0] == [a, b, c] && fs[1] == [a, b, d] && fs[2] == [b, c, d] && fs[3] == [c, a, d];
  }

  lemma TwoTetrahedraAllTuples(cells: seq<ShapedCell>)
    requires TwoTetrahedra(cells)
    ensures AllTuples(cells) == [[0, 1, 2], [0, 1, 3], [1, 2, 3], [2, 0, 3], [1, 2, 3], [1, 2, 4], [2, 3, 4], [3, 1, 4]]
  {
    var tl := TupleLists(cells);
    TetrahedronTuples(0, 1, 2, 3);
    TetrahedronTuples(1, 2, 3, 4);
    assert tl == [tl[0]] + [tl[1]];
    FlattenAppend([tl[0]], tl[1]);
    FlattenOne([tl[0]]);
  }

  /** The face tuples of the two tetrahedra in the order they are met, the
      first's four and then the second's, the shared triangle at 2 and 4. */
  predicate TwoTetrahedraTuplesAre(fs: seq<seq<int>>)
  {
    |fs| == 8 && fs[0] == [0, 1, 2] && fs[1] == [0, 1, 3] && fs[2] == [1, 2, 3] && fs[3] == [2, 0, 3] &&
    fs[4] == [1, 2, 3] && fs[5] == [1, 2, 4] && fs[6] == [2, 3, 4] && fs[7] == [3, 1, 4]
  }

  /** The square sums of the eight tuples. */
  function TwoTetrahedraSums(): seq<int>
  {
    [5, 10, 14, 13, 14, 21, 29, 26]
  }

  lemma TwoTetrahedraSquareSums(fs: seq<seq<int>>)
    requires TwoTetrahedraTuplesAre(fs)
    ensures forall q :: 0 <= q < 8 ==> SquareSum(fs[q]) == TwoTetrahedraSums()[q]
  {
    forall q | 0 <= q < 8 ensures SquareSum(fs[q]) == TwoTetrahedraSums()[q] {
      TriangleSquareSum(fs[q]);
    }
  }

  lemma TriangleSquareSum(t: seq<int>)
    requires |t| == 3
    ensures SquareSum(t) == t[0] * t[0] + t[1] * t[1] + t[2] * t[2]
  {
    var u := t[1..];
    var v := u[1..];
    assert v[1..] == [];
    assert SquareSum(v) == v[0] * v[0];
    assert SquareSum(u) == u[0] * u[0] + SquareSum(v);
  }

  /** The square sums differ except at positions 2 and 4. */
  lemma TwoTetrahedraSumsDiffer()
    ensures forall a, b :: 0 <= a < b < 8 && (a != 2 || b != 4) ==> TwoTetrahedraSums()[a] != TwoTetrahedraSums()[b]
  {
  }

  /** The eight tuples differ pairwise in their square sums, except the
      repeated triangle at positions 2 and 4. */
  lemma TwoTetrahedraDistinct(fs: seq<seq<int>>)
    requires TwoTetrahedraTuplesAre(fs)
    ensures forall a, b :: 0 <= a < b < 8 && (a != 2 || b != 4) ==> multiset(fs[a]) != multiset(fs[b])
  {
    TwoTetrahedraSquareSums(fs);
    TwoTetrahedraSumsDiffer();
    forall a, b | 0 <= a < b < 8 && (a != 2 || b != 4) ensures multiset(fs[a]) != multiset(fs[b]) {
      if multiset(fs[a]) == multiset(fs[b]) {
        SquareSumReordering(fs[a], fs[b]);
      }
    }
  }

  /** Faces are numbered 0, 1, 2, 3 for the first tetrahedron; the second
      meets the shared triangle again (face 2) and then three new faces,
      4, 5, 6: seven faces in all. */
  lemma TwoTetrahedraNumbering(fs: seq<seq<int>>)
    requires TwoTetrahedraTuplesAre(fs)
    ensures |FaceIndices(EmptyRegistry, fs)| == 8
    ensures forall p :: 0 <= p < 8 ==>
      FaceIndices(EmptyRegistry, fs)[p] == if p < 4 then p else if p == 4 then 2 else p - 1
    ensures |KeySet(fs)| == 7
  {
    TwoTetrahedraDistinct(fs);
    OneRepeatIndices(fs, 2, 4);
  }

  /** The cell->face table of the two tetrahedra: rows 0, 1, 2, 3 and
      2, 4, 5, 6. */
  predicate TwoTetrahedraRows(t: Table)
  {
    |t.offsets| == 3 && t.offsets[0] == 0 && t.offsets[1] == 4 && t.offsets[2] == 8 && |t.items| == 8
    && t.items[0] == 0 && t.items[1] == 1 && t.items[2] == 2 && t.items[3] == 3
    && t.items[4] == 2 && t.items[5] == 4 && t.items[6] == 5 && t.items[7] == 6
  }

  /** The rows as entries. */
  lemma TwoTetrahedraEntries(t: Table)
    requires TwoTetrahedraRows(t)
    ensures t.Valid() && t.Count() == 2
    ensures t.Entry(0) == [0, 1, 2, 3] && t.Entry(1) == [2, 4, 5, 6]
    ensures forall k :: 0 <= k < |t.items| ==> 0 <= t.items[k] < 7
  {
    assert Monotone(t.offsets);
  }

  /** How often each face is listed. */
  lemma TwoTetrahedraCounts(t: Table)
    requires TwoTetrahedraRows(t)
    ensures forall f :: 0 <= f < 7 ==> multiset(t.items)[f] == if f == 2 then 2 else 1
  {
    TwoTetrahedraEntries(t);
    assert t.items == t.Entry(0) + t.Entry(1);
    forall f | 0 <= f < 7 ensures multiset(t.items)[f] == if f == 2 then 2 else 1 {
      FirstRowCount(f);
      SecondRowCount(f);
    }
  }

  lemma FirstRowCount(f: int)
    ensures multiset([0, 1, 2, 3])[f] == if 0 <= f < 4 then 1 else 0
  {
  }

  lemma SecondRowCount(f: int)
    ensures multiset([2, 4, 5, 6])[f] == if f == 2 || 4 <= f < 7 then 1 else 0
  {
  }

  /** Face->cell slots of the two tetrahedra: the first cell's faces 0 .. 3
      and the second's 4 .. 6 each belong to one cell, the shared face 2 to
      both, cell 0 in slot 0 and cell 1 in slot 1. */
  lemma TwoTetrahedraSlots(t: Table)
    requires TwoTetrahedraRows(t)
    ensures t.Valid() && FaceCellsOf(t, 7).Ok?
    ensures var slots := FaceCellsOf(t, 7).value;
      && |slots| == 14
      && forall f :: 0 <= f < 7 ==>
           && slots[2 * f] == (if f < 4 then 0 else 1)
           && slots[2 * f + 1] == (if f == 2 then 1 else -1)
  {
    TwoTetrahedraEntries(t);
    TwoTetrahedraCounts(t);
    FaceCellsOkCount(t, 7);
    FaceCellsLength(t, 7);
    forall f | 0 <= f < 7
      ensures FaceCellsOf(t, 7).value[2 * f] == (if f < 4 then 0 else 1)
      ensures FaceCellsOf(t, 7).value[2 * f + 1] == (if f == 2 then 1 else -1)
    {
      TwoTetrahedraFaceSlots(t, f);
    }
  }

  /** The slots of one face of the two tetrahedra. */
  lemma TwoTetrahedraFaceSlots(t: Table, f: int)
    requires TwoTetrahedraRows(t) && t.Valid() && FaceCellsOf(t, 7).Ok? && 0 <= f < 7
    requires forall g :: 0 <= g < 7 ==> multiset(t.items)[g] == if g == 2 then 2 else 1
    ensures var slots := FaceCellsOf(t, 7).value;
      && |slots| == 14
      && slots[2 * f] == (if f < 4 then 0 else 1)
      && slots[2 * f + 1] == (if f == 2 then 1 else -1)
  {
    TwoTetrahedraEntries(t);
    FaceCellCount(t, 7, f);
    FaceCellSlots(t, 7, f);
    if f == 2 {
      SharedFaceSlots(t, 7, 2, 0, 1);
    } else if f < 4 {
      assert f in t.Entry(0);
    } else {
      assert f !in t.Entry(0);
    }
  }

  /** The derived topology of the two tetrahedra: seven faces, the first
      cell's row 0, 1, 2, 3, the second's 2, 4, 5, 6. */
  lemma TwoTetrahedraTables(cells: seq<ShapedCell>)
    requires TwoTetrahedra(cells)
    ensures DerivedTables(cells).numFaces == 7 && TwoTetrahedraRows(DerivedTables(cells).cellFaces)
  {
    var fs := AllTuples(cells);
    TwoTetrahedraAllTuples(cells);
    assert TwoTetrahedraTuplesAre(fs);
    TwoTetrahedraNumbering(fs);
    DerivedFaceCount(cells);
    var t := DerivedTables(cells).cellFaces;
    assert t.Size(0) == 4 && t.Size(1) == 4;
    assert t.items == FaceIndices(EmptyRegistry, fs);
    assert t.items[0] == 0 && t.items[1] == 1 && t.items[2] == 2 && t.items[3] == 3;
    assert t.items[4] == 2 && t.items[5] == 4 && t.items[6] == 5 && t.items[7] == 6;
  }

  /** The connectivity of two four-node tetrahedra over nodes 0 .. 4 that
      share the triangle 1, 2, 3. */
  function TwoTetrahedraNodes(): (t: Table)
    ensures t.Valid() && t.Count() == 2
  {
    assert Monotone([0, 4, 8]);
    Table([0, 4, 8], [0, 1, 2, 3, 1, 2, 3, 4])
  }

  /** The cells of a mesh holding the two tetrahedra in one block. */
  lemma TwoTetrahedraCells(m: FeMesh)
    requires m.Valid()
    requires m.blocks == [Block(2, Tetrahedron4, None, Some(TwoTetrahedraNodes()))]
    ensures AllFixed(m.blocks) && TwoTetrahedra(Cells(m.blocks))
  {
    var b := m.blocks[0];
    assert BlocksValid(m.blocks);
    SingleBlockCells(m.blocks);
    assert ElementNodes(b, 0) == [0, 1, 2, 3];
    assert ElementNodes(b, 1) == [1, 2, 3, 4];
  }

  /** An FE mesh without faces whose one block holds two tetrahedra sharing
      a triangle translates to two cells and seven faces, not eight: the
      shared triangle becomes one face, face 2, listed by both cells, with
      cell 0 in its first face->cell slot and cell 1 in its second; each of
      the other six faces belongs to one cell and keeps its second slot -1. */
  lemma TwoTetrahedraSharingAFace(m: FeMesh)
    requires m.Valid() && m.numFaces == 0
    requires m.blocks == [Block(2, Tetrahedron4, None, Some(TwoTetrahedraNodes()))]
    ensures Translated(m).Ok?
    ensures var fv := Translated(m).value;
      && fv.numCells == 2 && fv.numFaces == 7
      && fv.cellFaces.Entry(0) == [0, 1, 2, 3] && fv.cellFaces.Entry(1) == [2, 4, 5, 6]
      && multiset(fv.faceNodes.Entry(2)) == multiset{1, 2, 3}
      && |fv.faceCells| == 14
      && forall f :: 0 <= f < 7 ==>
           && fv.faceCells[2 * f] == (if f < 4 then 0 else 1)
           && fv.faceCells[2 * f + 1] == (if f == 2 then 1 else -1)
  {
    TwoTetrahedraCells(m);
    var cells := Cells(m.blocks);
    TwoTetrahedraTables(cells);
    var top := DerivedTables(cells);
    TwoTetrahedraSlots(top.cellFaces);
    TwoTetrahedraEntries(top.cellFaces);
    DerivedRowFaces(cells, 0, 2);
    TetrahedronTuples(0, 1, 2, 3);
    DerivedTranslation(m);
  }
}
