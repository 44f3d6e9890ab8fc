/** mesh_from_fe_mesh: the finite-element mesh as a finite-volume mesh. Every
    element becomes a cell, numbered block after block. Without explicit faces
    the faces of fixed-arity cells are derived from their shape templates and
    shared faces are merged; with explicit faces the polyhedral blocks'
    element->face rows and the mesh's face->node table are copied. The
    face->cell table is then filled from the cell->face rows. */
module FeToFv {
  import opened Wrappers
  import opened Connectivity
  import opened ElementTypes
  import opened Blocks
  import opened EntitySets
  import opened FeMeshes
  import opened FaceDedup
  import opened FaceCells
  import opened FvMeshes

  //------------------------------------------------------------------------
  // Cells of fixed-arity blocks, in mesh order.
  //------------------------------------------------------------------------

  /** A fixed-arity cell: its shape and its element's nodes. */
  datatype Cell = Cell(shape: Shape, nodes: seq<int>)

  /** A cell with at least its shape's corner nodes: one whose faces exist. */
  type ShapedCell = c: Cell | |c.nodes| >= CornerNodes(c.shape) witness Cell(Tetrahedron, [0, 0, 0, 0])

  ghost predicate BlocksValid(blocks: seq<Block>)
  {
    forall b :: 0 <= b < |blocks| ==> blocks[b].Valid()
  }

  /** No block is polyhedral: every block has a face template. */
  predicate AllFixed(blocks: seq<Block>)
  {
    forall b :: 0 <= b < |blocks| ==> blocks[b].elemType != Polyhedron
  }

  /** The cells of a fixed-arity block, in element order. */
  function BlockCells(b: Block): (cs: seq<ShapedCell>)
    requires b.Valid() && b.elemType != Polyhedron
    ensures |cs| == b.numElem
  {
    seq(b.numElem, i requires 0 <= i < b.numElem => Cell(ShapeOf(b.elemType).value, ElementNodes(b, i)))
  }

  function CellLists(blocks: seq<Block>): (r: seq<seq<ShapedCell>>)
    requires BlocksValid(blocks) && AllFixed(blocks)
    ensures |r| == |blocks| && Lengths(r) == BlockSizes(blocks)
  {
    seq(|blocks|, b requires 0 <= b < |blocks| => BlockCells(blocks[b]))
  }

  /** All cells, block after block: mesh cell k is global element k. */
  function Cells(blocks: seq<Block>): seq<ShapedCell>
    requires BlocksValid(blocks) && AllFixed(blocks)
  {
    Flatten(CellLists(blocks))
  }

  /** There is one cell per element of the mesh. */
  lemma CellsCount(blocks: seq<Block>)
    requires BlocksValid(blocks) && AllFixed(blocks)
    ensures |Cells(blocks)| == Sum(BlockSizes(blocks))
  {
    FlattenLength(CellLists(blocks));
  }

  /** Cell offsets[b] + i of the mesh is element i of block b, with its shape
      and its element nodes. */
  lemma CellNumbering(blocks: seq<Block>, b: int, i: int)
    requires BlocksValid(blocks) && AllFixed(blocks) && 0 <= b < |blocks| && 0 <= i < blocks[b].numElem
    ensures var k := PrefixSums(BlockSizes(blocks))[b];
      && 0 <= k + i < |Cells(blocks)|
      && Cells(blocks)[k + i] == Cell(ShapeOf(blocks[b].elemType).value, ElementNodes(blocks[b], i))
  {
    var lists := CellLists(blocks);
    PrefixLengths(lists, b);
    FlattenAt(lists, b, i);
  }

  /** The node tuples of the faces of every cell, one list per cell. */
  function TupleLists(cells: seq<ShapedCell>): (r: seq<seq<seq<int>>>)
    ensures |r| == |cells|
    ensures forall k :: 0 <= k < |cells| ==> |r[k]| == NumCellFaces(cells[k].shape)
  {
    seq(|cells|, k requires 0 <= k < |cells| => CellFaceTuples(cells[k].shape, cells[k].nodes))
  }

  /** Every face tuple of every cell, in the order get_cell_faces meets them. */
  function AllTuples(cells: seq<ShapedCell>): seq<seq<int>>
  {
    Flatten(TupleLists(cells))
  }

  //------------------------------------------------------------------------
  // The two ways of obtaining the topology.
  //------------------------------------------------------------------------

  /** Cell->face and face->node connectivity, and the number of faces. */
  datatype Topology = Topology(cellFaces: Table, faceNodes: Table, numFaces: nat)

  /** The derived topology of fixed-arity cells: row k of the cell->face table
      holds the face index of each template tuple of cell k, faces being
      numbered in the order they are first met; face f's nodes are those of
      the tuple that first met it. */
  ghost function DerivedTables(cells: seq<ShapedCell>): (top: Topology)
    ensures top.cellFaces.Valid() && top.cellFaces.Count() == |cells|
    ensures forall k :: 0 <= k < |cells| ==> top.cellFaces.Size(k) == NumCellFaces(cells[k].shape)
    ensures top.faceNodes.Valid() && top.faceNodes.Count() == top.numFaces
  {
    var tl := TupleLists(cells);
    TablesValid(tl);
    FromListsValid(RegisterAll(EmptyRegistry, Flatten(tl)).faces);
    TablesOf(tl)
  }

  /** The face-derivation branch of mesh_from_fe_mesh. A polyhedral block has
      no face template (get_num_cell_faces asserts against it). */
  ghost function DerivedTopology(blocks: seq<Block>): (r: Result<Topology, MeshError>)
    requires BlocksValid(blocks)
    ensures r.Err? <==> !AllFixed(blocks)
    ensures r.Ok? ==> r.value.cellFaces.Valid() && r.value.cellFaces.Count() == Sum(BlockSizes(blocks))
    ensures r.Ok? ==> r.value.faceNodes.Valid() && r.value.faceNodes.Count() == r.value.numFaces
  {
    if AllFixed(blocks) then
      CellsCount(blocks);
      Ok(DerivedTables(Cells(blocks)))
    else Err(InvalidTopology)
  }

  /** Every block carries element->face connectivity. */
  predicate AllFaced(blocks: seq<Block>)
  {
    forall b :: 0 <= b < |blocks| ==> blocks[b].elemFaces.Some?
  }

  function RowLists(blocks: seq<Block>): (r: seq<seq<seq<int>>>)
    requires BlocksValid(blocks) && AllFaced(blocks)
    ensures |r| == |blocks| && Lengths(r) == BlockSizes(blocks)
  {
    seq(|blocks|, b requires 0 <= b < |blocks| => blocks[b].elemFaces.value.Rows())
  }

  /** The element->face rows of all blocks, block after block. */
  function Rows(blocks: seq<Block>): seq<seq<int>>
    requires BlocksValid(blocks) && AllFaced(blocks)
  {
    Flatten(RowLists(blocks))
  }

  lemma RowsCount(blocks: seq<Block>)
    requires BlocksValid(blocks) && AllFaced(blocks)
    ensures |Rows(blocks)| == Sum(BlockSizes(blocks))
  {
    FlattenLength(RowLists(blocks));
  }

  /** The explicit-face branch of mesh_from_fe_mesh, corrected: cell k's row
      is the face row of global element k, and the first numFaces entries of
      the mesh's face->node table are kept. A block without element->face
      connectivity, or a mesh without a face->node table, cannot be copied;
      neither can a face->node table shorter than the face count. */
  function ExplicitTopology(blocks: seq<Block>, numFaces: nat, faceNodes: Option<Table>): (r: Result<Topology, MeshError>)
    requires BlocksValid(blocks) && (faceNodes.Some? ==> faceNodes.value.Valid())
    ensures r.Err? <==> !AllFaced(blocks) || faceNodes.None? || faceNodes.value.Count() < numFaces
    ensures r.Ok? ==> r.value.cellFaces.Valid() && r.value.cellFaces.Count() == Sum(BlockSizes(blocks))
    ensures r.Ok? ==> r.value.faceNodes.Valid() && r.value.faceNodes.Count() == r.value.numFaces == numFaces
  {
    if !AllFaced(blocks) || faceNodes.None? then Err(MalformedBlock)
    else if faceNodes.value.Count() < numFaces then Err(OutOfRangeIndex)
    else
      var fn := faceNodes.value;
      FromListsValid(Rows(blocks));
      RowsCount(blocks);
      Ok(Topology(FromLists(Rows(blocks)), Table(fn.offsets[..numFaces + 1], fn.items[..fn.offsets[numFaces]]), numFaces))
  }

  /** The topology mesh_from_fe_mesh works from: derived when the mesh has no
      faces, explicit otherwise. */
  ghost function TopologyOf(m: FeMesh): (r: Result<Topology, MeshError>)
    reads m
    requires m.Valid()
    ensures r.Ok? ==> r.value.cellFaces.Valid() && r.value.cellFaces.Count() == m.NumElements()
    ensures r.Ok? ==> r.value.faceNodes.Valid() && r.value.faceNodes.Count() == r.value.numFaces
  {
    if m.numFaces == 0 then DerivedTopology(m.blocks) else ExplicitTopology(m.blocks, m.numFaces, m.faceNodes)
  }

  /** The FV mesh mesh_from_fe_mesh builds: cells are the elements, the
      face->cell table is filled from the cell->face rows, node positions and
      the element, face, edge and node sets are copied (side sets are not). */
  ghost function Translated(m: FeMesh): (r: Result<FvMesh, MeshError>)
    reads m
    requires m.Valid()
    ensures r.Ok? ==> r.value.Valid() && r.value.numCells == m.NumElements() && r.value.numNodes == m.numNodes
  {
    match TopologyOf(m)
    case Err(e) => Err(e)
    case Ok(top) =>
      match FaceCellsOf(top.cellFaces, top.numFaces)
      case Err(e) => Err(e)
      case Ok(slots) =>
        FaceCellsLength(top.cellFaces, top.numFaces);
        Ok(MeshOf(m, top, slots))
  }

  /** The FV mesh of an FE mesh, once its topology and face->cell slots are
      known. */
  ghost function MeshOf(m: FeMesh, top: Topology, slots: seq<int>): FvMesh
    reads m
    requires m.Valid()
  {
    FvMesh(m.NumElements(), top.numFaces, m.numNodes, top.cellFaces, top.faceNodes, slots,
           m.nodeCoords, m.elemSets, m.faceSets, m.edgeSets, m.nodeSets)
  }

  /** Without faces and with fixed-arity blocks only, the translation is the
      derived topology of the mesh's cells with the face->cell slots filled
      from it. */
  lemma DerivedTranslation(m: FeMesh)
    requires m.Valid() && m.numFaces == 0 && AllFixed(m.blocks)
    ensures var top := DerivedTables(Cells(m.blocks));
      FaceCellsOf(top.cellFaces, top.numFaces).Ok? ==>
        Translated(m) == Ok(MeshOf(m, top, FaceCellsOf(top.cellFaces, top.numFaces).value))
  {
  }

  /** A successful fill has two slots per face. */
  lemma FaceCellsLength(t: Table, numFaces: nat)
    requires t.Valid() && FaceCellsOf(t, numFaces).Ok?
    ensures |FaceCellsOf(t, numFaces).value| == 2 * numFaces
  {
    IncidencesShape(t, t.Count());
    RecordAllSpec(numFaces, Incidences(t, t.Count()));
  }

  //------------------------------------------------------------------------
  // The translation.
  //------------------------------------------------------------------------

  /** mesh_from_fe_mesh. */
  method MeshFromFeMesh(m: FeMesh) returns (r: Result<FvMesh, MeshError>)
    requires m.Valid()
    ensures r == Translated(m)
  {
    var top := ObtainTopology(m);
    if top.Err? {
      return Err(top.error);
    }
    var t := top.value;
    var slots := FillFaceCells(t.cellFaces, t.numFaces);
    if slots.Err? {
      return Err(slots.error);
    }
    var mesh := BuildMesh(m, t, slots.value);
    r := Ok(mesh);
  }

  /** The first half of mesh_from_fe_mesh: derive the faces when the mesh has
      none, copy them otherwise. */
  method ObtainTopology(m: FeMesh) returns (top: Result<Topology, MeshError>)
    requires m.Valid()
    ensures top == TopologyOf(m)
  {
    var numCells := m.NumElements();
    if m.numFaces == 0 {
      top := DeriveTopology(m.blocks, numCells);
    } else {
      top := CopyTopology(m.blocks, numCells, m.numFaces, m.faceNodes);
    }
  }

  /** mesh_new and the copies into it: the connectivity, the node positions
      and the element, face, edge and node sets. */
  method BuildMesh(m: FeMesh, top: Topology, slots: seq<int>) returns (mesh: FvMesh)
    requires m.Valid()
    ensures mesh == MeshOf(m, top, slots)
  {
    var numCells := m.NumElements();
    var cellTags := CopySets(m, ElementSet);
    var faceTags := CopySets(m, FaceSet);
    var edgeTags := CopySets(m, EdgeSet);
    var nodeTags := CopySets(m, NodeSet);
    mesh := FvMesh(numCells, top.numFaces, m.numNodes, top.cellFaces, top.faceNodes, slots,
                   m.nodeCoords, cellTags, faceTags, edgeTags, nodeTags);
  }

  /** The sets -> tags loops: each set of the kind becomes a tag of the same
      name and contents, in traversal order. */
  method CopySets(m: FeMesh, kind: SetKind) returns (tags: seq<Tag>)
    ensures tags == m.SetsOf(kind)
  {
    tags := [];
    var pos := 0;
    while true
      invariant 0 <= pos <= |m.SetsOf(kind)| && tags == m.SetsOf(kind)[..pos]
      decreases |m.SetsOf(kind)| - pos
    {
      var next, newPos := m.NextSet(kind, pos);
      if next.None? {
        break;
      }
      tags := tags + [Tag(next.value.name, next.value.indices)];
      pos := newPos;
    }
  }

  //------------------------------------------------------------------------
  // Deriving faces.
  //------------------------------------------------------------------------

  /** The face-derivation branch: count each cell's faces, then register every
      face tuple of every cell, block after block, storing each cell's face
      indices at its offset. */
  method DeriveTopology(blocks: seq<Block>, numCells: int) returns (r: Result<Topology, MeshError>)
    requires BlocksValid(blocks) && numCells == Sum(BlockSizes(blocks))
    ensures r == DerivedTopology(blocks)
  {
    for b := 0 to |blocks|
      invariant AllFixed(blocks[..b])
    {
      if blocks[b].elemType == Polyhedron {
        assert !AllFixed(blocks);
        return Err(InvalidTopology);
      }
    }
    assert blocks[..|blocks|] == blocks;
    CellTupleSlices(blocks);
    ghost var tl := TupleLists(Cells(blocks));
    ghost var starts := PrefixSums(BlockSizes(blocks));
    var offsets := CountCellFaces(blocks, numCells, tl, starts);
    var top := AssembleFaces(blocks, numCells, offsets, tl, starts);
    r := Ok(top);
  }

  /** Block b's cells start at global element starts[b] and end at
      starts[b + 1]. */
  lemma StartsStep(blocks: seq<Block>, b: int)
    requires 0 <= b < |blocks|
    ensures PrefixSums(BlockSizes(blocks))[b + 1] == PrefixSums(BlockSizes(blocks))[b] + blocks[b].numElem
  {
    PrefixSumsStep(BlockSizes(blocks), b);
  }

  /** The tuple lists of block b's cells follow, in the mesh's tuple lists,
      those of the cells before the block's first global element lo. */
  lemma BlockTuples(blocks: seq<Block>, b: int, lo: int, hi: int)
    requires BlocksValid(blocks) && AllFixed(blocks) && 0 <= b < |blocks|
    requires lo == PrefixSums(BlockSizes(blocks))[b] && hi == PrefixSums(BlockSizes(blocks))[b + 1]
    ensures 0 <= lo && lo + blocks[b].numElem == hi <= |TupleLists(Cells(blocks))|
    ensures TupleLists(Cells(blocks))[..hi] == TupleLists(Cells(blocks))[..lo] + TupleLists(BlockCells(blocks[b]))
  {
    StartsStep(blocks, b);
    FlattenEntry(CellLists(blocks), b, lo);
    TupleListsSlice(Cells(blocks), lo, hi);
    SliceAppend(TupleLists(Cells(blocks)), lo, hi);
  }

  lemma TupleListsSlice(cells: seq<ShapedCell>, lo: int, hi: int)
    requires 0 <= lo <= hi <= |cells|
    ensures TupleLists(cells)[lo..hi] == TupleLists(cells[lo..hi])
  {
  }

  /** tl is cut by starts into the tuple lists of the blocks' cells: block
      b's lists follow the first starts[b] lists. */
  ghost predicate SlicedBy(blocks: seq<Block>, tl: seq<seq<seq<int>>>, starts: seq<int>)
    requires BlocksValid(blocks) && AllFixed(blocks)
  {
    && |starts| == |blocks| + 1 && starts[0] == 0 && starts[|blocks|] == |tl|
    && forall b {:trigger blocks[b]} :: 0 <= b < |blocks| ==>
         && 0 <= starts[b] && starts[b] + blocks[b].numElem == starts[b + 1] <= |tl|
         && tl[..starts[b + 1]] == tl[..starts[b]] + TupleLists(BlockCells(blocks[b]))
  }

  /** The mesh's tuple lists are cut so by the blocks' first global elements. */
  lemma CellTupleSlices(blocks: seq<Block>)
    requires BlocksValid(blocks) && AllFixed(blocks)
    ensures SlicedBy(blocks, TupleLists(Cells(blocks)), PrefixSums(BlockSizes(blocks)))
  {
    CellsCount(blocks);
    var starts := PrefixSums(BlockSizes(blocks));
    forall b {:trigger blocks[b]} | 0 <= b < |blocks|
      ensures 0 <= starts[b] && starts[b] + blocks[b].numElem == starts[b + 1] <= |TupleLists(Cells(blocks))|
      ensures TupleLists(Cells(blocks))[..starts[b + 1]] == TupleLists(Cells(blocks))[..starts[b]] + TupleLists(BlockCells(blocks[b]))
    {
      BlockTuples(blocks, b, starts[b], starts[b + 1]);
    }
  }

  /** Every cell of a fixed-arity block has its shape's face count. */
  lemma BlockFaceCounts(block: Block)
    requires block.Valid() && block.elemType != Polyhedron
    ensures Lengths(TupleLists(BlockCells(block))) == seq(block.numElem, _ => NumCellFaces(ShapeOf(block.elemType).value))
  {
  }

  /** The counting pass: offset k + 1 is offset k plus the face count of cell
      k's shape. */
  method CountCellFaces(blocks: seq<Block>, numCells: int, ghost tl: seq<seq<seq<int>>>, ghost starts: seq<int>)
    returns (offsets: seq<int>)
    requires BlocksValid(blocks) && AllFixed(blocks) && SlicedBy(blocks, tl, starts) && numCells == |tl|
    ensures offsets == PrefixSums(Lengths(tl))
  {
    var a := new int[numCells + 1];
    a[0] := 0;
    var eo := 0;
    for b := 0 to |blocks|
      invariant eo == starts[b] && 0 <= eo <= numCells
      invariant forall j :: 0 <= j <= eo ==> a[j] == PrefixSums(Lengths(tl))[j]
    {
      BlockFaceCounts(blocks[b]);
      var n := NumCellFaces(ShapeOf(blocks[b].elemType).value);
      ExtendOffsets(a, eo, seq(blocks[b].numElem, _ => n), tl, TupleLists(BlockCells(blocks[b])));
      eo := eo + blocks[b].numElem;
    }
    offsets := a[..];
  }

  /** Extends running offsets over one block: a[at + i + 1] := a[at + i] +
      counts[i], where counts are the sizes of the block's lists. */
  method ExtendOffsets<T>(a: array<int>, at: int, counts: seq<int>, ghost lists: seq<seq<T>>, ghost mid: seq<seq<T>>)
    requires 0 <= at && at + |counts| < a.Length && at + |counts| <= |lists|
    requires lists[..at + |counts|] == lists[..at] + mid && Lengths(mid) == counts
    requires forall j :: 0 <= j <= at ==> a[j] == PrefixSums(Lengths(lists))[j]
    modifies a
    ensures forall j :: 0 <= j <= at + |counts| ==> a[j] == PrefixSums(Lengths(lists))[j]
  {
    for i := 0 to |counts|
      invariant forall j :: 0 <= j <= at + i ==> a[j] == PrefixSums(Lengths(lists))[j]
    {
      PrefixSumsStep(Lengths(lists), at + i);
      assert lists[at + i] == lists[..at + |counts|][at + i] == mid[i];
      a[at + i + 1] := a[at + i] + counts[i];
    }
  }

  /** The face map has registered exactly the tuples done, in order. */
  ghost predicate Registered(fm: FaceMap, done: seq<seq<int>>)
    reads fm
  {
    fm.Valid() && fm.Registry() == RegisterAll(EmptyRegistry, done)
  }

  /** The cell->face array starts with the face indices ids. */
  ghost predicate Stored(cellFaces: array<int>, ids: seq<int>)
    reads cellFaces
  {
    |ids| <= cellFaces.Length && cellFaces[..|ids|] == ids
  }

  /** The tables made from per-cell tuple lists: cell->face rows of face
      indices and the face->node table of the registered faces. */
  ghost function TablesOf(tl: seq<seq<seq<int>>>): Topology
  {
    var reg := RegisterAll(EmptyRegistry, Flatten(tl));
    Topology(Table(PrefixSums(Lengths(tl)), FaceIndices(EmptyRegistry, Flatten(tl))), FromLists(reg.faces), |reg.faces|)
  }

  /** The cell->face tables built from per-cell tuple lists: one row per
      list, as long as the list. */
  lemma TablesValid(tl: seq<seq<seq<int>>>)
    ensures TablesOf(tl).cellFaces.Valid() && TablesOf(tl).cellFaces.Count() == |tl|
    ensures forall k :: 0 <= k < |tl| ==> TablesOf(tl).cellFaces.Size(k) == |tl[k]|
  {
    PrefixSumsMonotone(Lengths(tl));
    FlattenLength(tl);
    forall k | 0 <= k < |tl| {
      PrefixSumsStep(Lengths(tl), k);
    }
  }

  /** The assembly pass: a fresh face map, then every cell of every block in
      turn. */
  method AssembleFaces(blocks: seq<Block>, numCells: int, offsets: seq<int>, ghost tl: seq<seq<seq<int>>>,
                       ghost starts: seq<int>) returns (top: Topology)
    requires BlocksValid(blocks) && AllFixed(blocks) && SlicedBy(blocks, tl, starts) && numCells == |tl|
    requires offsets == PrefixSums(Lengths(tl))
    ensures top == TablesOf(tl)
  {
    PrefixLengths(tl, numCells);
    assert tl[..numCells] == tl;
    var cellFaces := new int[offsets[numCells]];
    var fm := new FaceMap();
    var eo := 0;
    assert tl[..0] == [];
    for b := 0 to |blocks|
      invariant eo == starts[b] && 0 <= eo <= numCells
      invariant Registered(fm, Flatten(tl[..eo])) && Stored(cellFaces, FaceIndices(EmptyRegistry, Flatten(tl[..eo])))
    {
      AssembleNext(fm, cellFaces, blocks[b], eo, offsets, tl, starts[b + 1]);
      eo := eo + blocks[b].numElem;
    }
    top := Assembled(fm, cellFaces, tl, offsets);
  }

  /** One block of the assembly pass: its cells' tuples are lists eo .. hi of
      tl and follow those of the lists before. */
  method AssembleNext(fm: FaceMap, cellFaces: array<int>, block: Block, eo: int, offsets: seq<int>,
                      ghost tl: seq<seq<seq<int>>>, ghost hi: int)
    requires block.Valid() && block.elemType != Polyhedron
    requires 0 <= eo && eo + block.numElem == hi <= |tl| && tl[..hi] == tl[..eo] + TupleLists(BlockCells(block))
    requires offsets == PrefixSums(Lengths(tl)) && cellFaces.Length == |Flatten(tl)|
    requires Registered(fm, Flatten(tl[..eo])) && Stored(cellFaces, FaceIndices(EmptyRegistry, Flatten(tl[..eo])))
    modifies fm, cellFaces
    ensures Registered(fm, Flatten(tl[..hi])) && Stored(cellFaces, FaceIndices(EmptyRegistry, Flatten(tl[..hi])))
  {
    ghost var bt := TupleLists(BlockCells(block));
    ghost var done := Flatten(tl[..eo]);
    ListsShare(tl, offsets, eo, block.numElem, bt, done);
    AssembleBlock(fm, cellFaces, block, eo, offsets, bt, done, Flatten(tl[..hi]));
  }

  /** Lists eo .. eo + n of tl, which are mid: their offsets count from the
      items done by the lists before them, and those items fit. */
  lemma ListsShare<T>(tl: seq<seq<T>>, offsets: seq<int>, eo: int, n: int, mid: seq<seq<T>>, done: seq<T>)
    requires 0 <= eo && 0 <= n && eo + n <= |tl| && tl[..eo + n] == tl[..eo] + mid
    requires offsets == PrefixSums(Lengths(tl)) && done == Flatten(tl[..eo])
    ensures eo + n < |offsets|
    ensures forall i :: 0 <= i <= n ==> offsets[eo + i] == |done| + |Flatten(mid[..i])|
    ensures |done| + |Flatten(mid)| <= |Flatten(tl)| && Flatten(tl[..eo + n]) == done + Flatten(mid)
  {
    forall i | 0 <= i <= n
      ensures offsets[eo + i] == |done| + |Flatten(mid[..i])|
    {
      PrefixLengths(tl, eo + i);
      assert tl[..eo + i] == tl[..eo + n][..eo + i] == tl[..eo] + mid[..i];
      FlattenConcat(tl[..eo], mid[..i]);
    }
    FlattenConcat(tl[..eo], mid);
    FlattenPrefix(tl, eo + n);
  }

  lemma SliceAppend<T>(s: seq<T>, lo: int, hi: int)
    requires 0 <= lo <= hi <= |s|
    ensures s[..hi] == s[..lo] + s[lo..hi]
  {
  }

  /** The tables once every cell is done: the offsets with the stored face
      indices, and the face map's face->node arrays. */
  method Assembled(fm: FaceMap, cellFaces: array<int>, ghost tl: seq<seq<seq<int>>>, offsets: seq<int>)
    returns (top: Topology)
    requires offsets == PrefixSums(Lengths(tl)) && cellFaces.Length == |FaceIndices(EmptyRegistry, Flatten(tl))|
    requires Registered(fm, Flatten(tl)) && Stored(cellFaces, FaceIndices(EmptyRegistry, Flatten(tl)))
    ensures top == TablesOf(tl)
  {
    ghost var reg := RegisterAll(EmptyRegistry, Flatten(tl));
    assert fm.ids == reg.ids && fm.faces == reg.faces;
    assert cellFaces[..] == cellFaces[..cellFaces.Length];
    top := Topology(Table(offsets, cellFaces[..]), Table(fm.faceNodeOffsets, fm.faceNodes), |fm.ids|);
  }

  /** The cells of one block, read through an element-node buffer sized for
      the block's type; cell i's face indices go to offsets[eo + i]. */
  method AssembleBlock(fm: FaceMap, cellFaces: array<int>, block: Block, eo: int, offsets: seq<int>,
                       ghost bt: seq<seq<seq<int>>>, ghost done: seq<seq<int>>, ghost after: seq<seq<int>>)
    requires block.Valid() && block.elemType != Polyhedron && bt == TupleLists(BlockCells(block))
    requires 0 <= eo && eo + block.numElem < |offsets|
    requires forall i :: 0 <= i <= block.numElem ==> offsets[eo + i] == |done| + |Flatten(bt[..i])|
    requires |done| + |Flatten(bt)| <= cellFaces.Length
    requires Registered(fm, done) && Stored(cellFaces, FaceIndices(EmptyRegistry, done))
    requires after == done + Flatten(bt)
    modifies fm, cellFaces
    ensures Registered(fm, after) && Stored(cellFaces, FaceIndices(EmptyRegistry, after))
  {
    var buf := new int[Blocks.NumElementNodes(block, 0)];
    assert bt[..0] == [];
    assert done + Flatten(bt[..0]) == done;
    for i := 0 to block.numElem
      invariant Registered(fm, done + Flatten(bt[..i])) && Stored(cellFaces, FaceIndices(EmptyRegistry, done + Flatten(bt[..i])))
    {
      AssembleCell(fm, cellFaces, block, buf, i, offsets[eo + i], done);
    }
    assert bt[..block.numElem] == bt;
  }

  /** Element i of the block: its nodes are read into the buffer, then its
      faces are registered and stored at offset at. */
  method AssembleCell(fm: FaceMap, cellFaces: array<int>, block: Block, buf: array<int>, i: int, at: int,
                      ghost done: seq<seq<int>>)
    requires block.Valid() && block.elemType != Polyhedron && 0 <= i < block.numElem
    requires buf.Length == NodesPerElement(block.elemType) && buf != cellFaces
    requires at == |done| + |Flatten(TupleLists(BlockCells(block))[..i])|
    requires |done| + |Flatten(TupleLists(BlockCells(block)))| <= cellFaces.Length
    requires Registered(fm, done + Flatten(TupleLists(BlockCells(block))[..i]))
    requires Stored(cellFaces, FaceIndices(EmptyRegistry, done + Flatten(TupleLists(BlockCells(block))[..i])))
    modifies fm, cellFaces, buf
    ensures Registered(fm, done + Flatten(TupleLists(BlockCells(block))[..i + 1]))
    ensures Stored(cellFaces, FaceIndices(EmptyRegistry, done + Flatten(TupleLists(BlockCells(block))[..i + 1])))
  {
    Blocks.GetElementNodes(block, i, buf);
    assert buf[..] == buf[..buf.Length];
    BlockCellStep(block, done, i);
    AddCellFaces(fm, cellFaces, done + Flatten(TupleLists(BlockCells(block))[..i]), at, ShapeOf(block.elemType).value, buf[..]);
  }

  /** Cell i of a block: its tuples are the block's i-th tuple list, they
      extend the tuples done so far, and they fit in the block's share. */
  lemma BlockCellStep(block: Block, done: seq<seq<int>>, i: int)
    requires block.Valid() && block.elemType != Polyhedron && 0 <= i < block.numElem
    ensures var bt := TupleLists(BlockCells(block)); var tuples := CellFaceTuples(ShapeOf(block.elemType).value, ElementNodes(block, i));
      && bt[i] == tuples
      && (done + Flatten(bt[..i])) + tuples == done + Flatten(bt[..i + 1])
      && |Flatten(bt[..i])| + |tuples| <= |Flatten(bt)|
  {
    var bt := TupleLists(BlockCells(block));
    FlattenNext(bt, i);
    FlattenPrefix(bt, i + 1);
  }

  /** One cell of the assembly pass: get_cell_faces registers the cell's face
      tuples and writes their face indices at the cell's offset. */
  method AddCellFaces(fm: FaceMap, cellFaces: array<int>, ghost done: seq<seq<int>>, at: int,
                      shape: Shape, nodes: seq<int>)
    requires |nodes| >= CornerNodes(shape) && at == |done| && at + NumCellFaces(shape) <= cellFaces.Length
    requires Registered(fm, done) && Stored(cellFaces, FaceIndices(EmptyRegistry, done))
    modifies fm, cellFaces
    ensures Registered(fm, done + CellFaceTuples(shape, nodes))
    ensures Stored(cellFaces, FaceIndices(EmptyRegistry, done + CellFaceTuples(shape, nodes)))
  {
    var indices := RegisterCell(fm, done, shape, nodes);
    StoreAt(cellFaces, FaceIndices(EmptyRegistry, done), at, indices, FaceIndices(EmptyRegistry, done + CellFaceTuples(shape, nodes)));
  }

  /** Writes values right after those already stored. */
  method StoreAt(cellFaces: array<int>, ghost prev: seq<int>, at: int, indices: seq<int>, ghost after: seq<int>)
    requires Stored(cellFaces, prev) && at == |prev| && after == prev + indices && |after| <= cellFaces.Length
    modifies cellFaces
    ensures Stored(cellFaces, after)
  {
    CopyInto(indices, cellFaces, at);
    assert cellFaces[..at + |indices|] == cellFaces[..at] + cellFaces[at..at + |indices|];
  }

  /** The map side of get_cell_faces: the cell's tuples are registered after
      those done, and the indices returned are the ones the tuples get when
      registered after them. */
  method RegisterCell(fm: FaceMap, ghost done: seq<seq<int>>, shape: Shape, nodes: seq<int>)
    returns (indices: seq<int>)
    requires |nodes| >= CornerNodes(shape) && Registered(fm, done)
    modifies fm
    ensures Registered(fm, done + CellFaceTuples(shape, nodes))
    ensures FaceIndices(EmptyRegistry, done + CellFaceTuples(shape, nodes)) == FaceIndices(EmptyRegistry, done) + indices
  {
    RegisterAllValid(EmptyRegistry, done);
    indices := fm.GetCellFaces(shape, nodes);
    FaceIndicesConcat(EmptyRegistry, done, CellFaceTuples(shape, nodes));
    RegisterAllConcat(EmptyRegistry, done, CellFaceTuples(shape, nodes));
  }

  //------------------------------------------------------------------------
  // Copying explicit faces.
  //------------------------------------------------------------------------

  /** The explicit-face branch, corrected: cell offsets are accumulated from
      each block's element face counts, then each block's face array is copied
      at its first cell's offset; the face->node table is borrowed. */
  method CopyTopology(blocks: seq<Block>, numCells: int, numFaces: nat, faceNodes: Option<Table>)
    returns (r: Result<Topology, MeshError>)
    requires BlocksValid(blocks) && numCells == Sum(BlockSizes(blocks))
    requires faceNodes.Some? ==> faceNodes.value.Valid()
    ensures r == ExplicitTopology(blocks, numFaces, faceNodes)
  {
    for b := 0 to |blocks|
      invariant AllFaced(blocks[..b])
    {
      if blocks[b].elemFaces.None? {
        assert !AllFaced(blocks);
        return Err(MalformedBlock);
      }
    }
    assert blocks[..|blocks|] == blocks;
    if faceNodes.None? {
      return Err(MalformedBlock);
    }
    var fn := faceNodes.value;
    if |fn.offsets| - 1 < numFaces {
      return Err(OutOfRangeIndex);
    }
    ghost var rows := Rows(blocks);
    RowsCount(blocks);
    ghost var starts := PrefixSums(BlockSizes(blocks));
    RowSlices(blocks);
    var offsets := CountRowFaces(blocks, numCells, rows, starts);
    var cellFaces := CopyRows(blocks, numCells, rows, starts, offsets);
    r := Ok(Topology(Table(offsets, cellFaces), Table(fn.offsets[..numFaces + 1], fn.items[..fn.offsets[numFaces]]), numFaces));
  }

  /** rows is cut by starts into the blocks' element face rows: block b's
      rows follow the first starts[b] rows. */
  ghost predicate RowsSlicedBy(blocks: seq<Block>, rows: seq<seq<int>>, starts: seq<int>)
    requires BlocksValid(blocks) && AllFaced(blocks)
  {
    && |starts| == |blocks| + 1 && starts[0] == 0 && starts[|blocks|] == |rows|
    && forall b {:trigger blocks[b]} :: 0 <= b < |blocks| ==>
         && 0 <= starts[b] && starts[b] + blocks[b].numElem == starts[b + 1] <= |rows|
         && rows[..starts[b + 1]] == rows[..starts[b]] + blocks[b].elemFaces.value.Rows()
  }

  /** The mesh's rows are cut so by the blocks' first global elements. */
  lemma RowSlices(blocks: seq<Block>)
    requires BlocksValid(blocks) && AllFaced(blocks)
    ensures RowsSlicedBy(blocks, Rows(blocks), PrefixSums(BlockSizes(blocks)))
  {
    RowsCount(blocks);
    var starts := PrefixSums(BlockSizes(blocks));
    forall b {:trigger blocks[b]} | 0 <= b < |blocks|
      ensures 0 <= starts[b] && starts[b] + blocks[b].numElem == starts[b + 1] <= |Rows(blocks)|
      ensures Rows(blocks)[..starts[b + 1]] == Rows(blocks)[..starts[b]] + blocks[b].elemFaces.value.Rows()
    {
      BlockRows(blocks, b, starts[b], starts[b + 1]);
    }
  }

  /** The face rows of block b's elements follow, in the mesh's rows, those
      of the elements before the block's first global element lo. */
  lemma BlockRows(blocks: seq<Block>, b: int, lo: int, hi: int)
    requires BlocksValid(blocks) && AllFaced(blocks) && 0 <= b < |blocks|
    requires lo == PrefixSums(BlockSizes(blocks))[b] && hi == PrefixSums(BlockSizes(blocks))[b + 1]
    ensures 0 <= lo && lo + blocks[b].numElem == hi <= |Rows(blocks)|
    ensures Rows(blocks)[..hi] == Rows(blocks)[..lo] + blocks[b].elemFaces.value.Rows()
  {
    StartsStep(blocks, b);
    FlattenEntry(RowLists(blocks), b, lo);
    SliceAppend(Rows(blocks), lo, hi);
  }

  /** The offset loop of the explicit branch, with the intended indexing:
      offset k + 1 is offset k plus element k's face count. */
  method CountRowFaces(blocks: seq<Block>, numCells: int, ghost rows: seq<seq<int>>, ghost starts: seq<int>)
    returns (offsets: seq<int>)
    requires BlocksValid(blocks) && AllFaced(blocks) && RowsSlicedBy(blocks, rows, starts) && numCells == |rows|
    ensures offsets == PrefixSums(Lengths(rows))
  {
    var a := new int[numCells + 1];
    a[0] := 0;
    var eo := 0;
    for b := 0 to |blocks|
      invariant eo == starts[b] && 0 <= eo <= numCells
      invariant forall j :: 0 <= j <= eo ==> a[j] == PrefixSums(Lengths(rows))[j]
    {
      var t := blocks[b].elemFaces.value;
      RowsLengths(t);
      ExtendOffsets(a, eo, seq(t.Count(), i requires 0 <= i < t.Count() => t.Size(i)), rows, t.Rows());
      eo := eo + blocks[b].numElem;
    }
    offsets := a[..];
  }

  /** The copy loop of the explicit branch: each block's whole face array goes
      to its first cell's offset. */
  method CopyRows(blocks: seq<Block>, numCells: int, ghost rows: seq<seq<int>>, ghost starts: seq<int>, offsets: seq<int>)
    returns (cellFaces: seq<int>)
    requires BlocksValid(blocks) && AllFaced(blocks) && RowsSlicedBy(blocks, rows, starts) && numCells == |rows|
    requires offsets == PrefixSums(Lengths(rows))
    ensures cellFaces == Flatten(rows)
  {
    PrefixLengths(rows, numCells);
    assert rows[..numCells] == rows;
    var a := new int[offsets[numCells]];
    var eo := 0;
    assert rows[..0] == [];
    for b := 0 to |blocks|
      invariant eo == starts[b] && 0 <= eo <= numCells
      invariant Stored(a, Flatten(rows[..eo]))
    {
      CopyBlock(a, blocks[b].elemFaces.value, eo, offsets, rows, starts[b + 1]);
      eo := eo + blocks[b].numElem;
    }
    cellFaces := a[..];
  }

  /** One block of the copy loop: the block's face array, its offset table's
      last entry long, is copied to its first cell's offset. */
  method CopyBlock(a: array<int>, t: Table, eo: int, offsets: seq<int>, ghost rows: seq<seq<int>>, ghost hi: int)
    requires t.Valid() && 0 <= eo <= hi <= |rows| && rows[..hi] == rows[..eo] + t.Rows()
    requires offsets == PrefixSums(Lengths(rows)) && a.Length == |Flatten(rows)|
    requires Stored(a, Flatten(rows[..eo]))
    modifies a
    ensures Stored(a, Flatten(rows[..hi]))
  {
    CopyStep(rows, eo, hi, t);
    StoreAt(a, Flatten(rows[..eo]), offsets[eo], t.items[..t.offsets[t.Count()]], Flatten(rows[..hi]));
  }

  /** One block of the copy loop: its offset is the length of the rows
      before it, and its face array, flattened from its rows, follows them. */
  lemma CopyStep(rows: seq<seq<int>>, eo: int, hi: int, t: Table)
    requires t.Valid() && 0 <= eo <= hi <= |rows| && rows[..hi] == rows[..eo] + t.Rows()
    ensures PrefixSums(Lengths(rows))[eo] == |Flatten(rows[..eo])|
    ensures t.items[..t.offsets[t.Count()]] == t.items
    ensures Flatten(rows[..eo]) + t.items == Flatten(rows[..hi])
    ensures |Flatten(rows[..hi])| <= |Flatten(rows)|
  {
    PrefixLengths(rows, eo);
    FlattenConcat(rows[..eo], t.Rows());
    FlattenRows(t);
    FlattenPrefix(rows, hi);
  }

  //------------------------------------------------------------------------
  // What the translation promises.
  //------------------------------------------------------------------------

  /** Derived faces: entry j of cell k's row names a face whose nodes are a
      reordering of the cell's j-th template tuple. */
  lemma DerivedRowFaces(cells: seq<ShapedCell>, k: int, j: int)
    requires 0 <= k < |cells| && 0 <= j < NumCellFaces(cells[k].shape)
    ensures var top := DerivedTables(cells); var f := top.cellFaces.Entry(k)[j];
      && 0 <= f < top.numFaces
      && multiset(top.faceNodes.Entry(f)) == multiset(CellFaceTuples(cells[k].shape, cells[k].nodes)[j])
  {
    var top := DerivedTables(cells);
    var tl := TupleLists(cells);
    var tuples := Flatten(tl);
    var p := TuplePosition(cells, k, j);
    FaceIndicesName(EmptyRegistry, tuples, p);
    var f := top.cellFaces.Entry(k)[j];
    FromListsEntry(RegisterAll(EmptyRegistry, tuples).faces, f);
  }

  /** Position of cell k's j-th tuple among all tuples, and the cell's row
      entry there. */
  lemma TuplePosition(cells: seq<ShapedCell>, k: int, j: int) returns (p: int)
    requires 0 <= k < |cells| && 0 <= j < NumCellFaces(cells[k].shape)
    ensures 0 <= p < |AllTuples(cells)|
    ensures AllTuples(cells)[p] == CellFaceTuples(cells[k].shape, cells[k].nodes)[j]
    ensures DerivedTables(cells).cellFaces.Entry(k)[j] == FaceIndices(EmptyRegistry, AllTuples(cells))[p]
  {
    var tl := TupleLists(cells);
    p := TableOfLists(tl, FaceIndices(EmptyRegistry, Flatten(tl)), k, j);
  }

  /** Derived faces are shared exactly by reorderings: two row entries name
      the same face iff their template tuples hold the same nodes. */
  lemma DerivedSharedFace(cells: seq<ShapedCell>, k1: int, j1: int, k2: int, j2: int)
    requires 0 <= k1 < |cells| && 0 <= j1 < NumCellFaces(cells[k1].shape)
    requires 0 <= k2 < |cells| && 0 <= j2 < NumCellFaces(cells[k2].shape)
    ensures var rows := DerivedTables(cells).cellFaces;
      (rows.Entry(k1)[j1] == rows.Entry(k2)[j2]) <==>
      (multiset(CellFaceTuples(cells[k1].shape, cells[k1].nodes)[j1])
        == multiset(CellFaceTuples(cells[k2].shape, cells[k2].nodes)[j2]))
  {
    var p := TuplePosition(cells, k1, j1);
    var q := TuplePosition(cells, k2, j2);
    SameFaceIffPermutation(AllTuples(cells), p, q);
  }

  /** The derived face count is the number of distinct node sets among all
      face tuples. */
  lemma DerivedFaceCount(cells: seq<ShapedCell>)
    ensures DerivedTables(cells).numFaces == |KeySet(AllTuples(cells))|
  {
    FaceCount(AllTuples(cells));
  }

  /** Explicit faces: cell offsets[b] + i's row is element i's face row in
      block b. */
  lemma ExplicitRows(blocks: seq<Block>, b: int, i: int)
    requires BlocksValid(blocks) && AllFaced(blocks) && 0 <= b < |blocks| && 0 <= i < blocks[b].numElem
    ensures var t := FromLists(Rows(blocks)); var k := PrefixSums(BlockSizes(blocks))[b];
      t.Valid() && 0 <= k + i < t.Count() && t.Entry(k + i) == ElementFaces(blocks[b], i)
  {
    var lists := RowLists(blocks);
    PrefixLengths(lists, b);
    FlattenAt(lists, b, i);
    FromListsEntry(Rows(blocks), PrefixSums(BlockSizes(blocks))[b] + i);
  }

  //------------------------------------------------------------------------
  // The explicit-face offsets as written.
  //------------------------------------------------------------------------

  /** The offset loop of the explicit branch at fe_mesh.c 860 for the first
      block: entry i is set to entry i - 1 plus the block's offset at i (not
      its face count), entry 0 reading the int before the array (`before`);
      entry n is never written. */
  function OffsetsAsWritten(before: int, elemFaceOffsets: seq<int>, n: nat): (r: seq<int>)
    requires n <= |elemFaceOffsets|
    ensures |r| == n
    ensures n > 0 ==> r[0] == before + elemFaceOffsets[0]
  {
    if n == 0 then []
    else
      var p := OffsetsAsWritten(before, elemFaceOffsets, n - 1);
      p + [(if n == 1 then before else p[n - 2]) + elemFaceOffsets[n - 1]]
  }

  /** The offsets as written agree with the intended ones exactly when the int
      before the array is 0 and every offset but the last one written is 0,
      that is, when no element other than the last two has a face. In
      particular a block of three or more elements whose first element has a
      face gets misplaced rows. */
  lemma {:induction false} OffsetsAsWrittenMisplaceRows(before: int, counts: seq<int>, n: nat)
    requires 0 < n <= |counts|
    ensures OffsetsAsWritten(before, PrefixSums(counts), n) == PrefixSums(counts)[..n]
      <==> before == 0 && forall k :: 0 <= k < n - 1 ==> PrefixSums(counts)[k] == 0
    ensures n >= 3 && counts[0] != 0 ==>
      OffsetsAsWritten(before, PrefixSums(counts), n) != PrefixSums(counts)[..n]
  {
    var p := PrefixSums(counts);
    var w := OffsetsAsWritten(before, p, n);
    if n > 1 {
      OffsetsAsWrittenMisplaceRows(before, counts, n - 1);
      var w' := OffsetsAsWritten(before, p, n - 1);
      assert w == w' + [w'[n - 2] + p[n - 1]];
      assert p[..n] == p[..n - 1] + [p[n - 1]];
      if w' == p[..n - 1] {
        assert w'[n - 2] == p[n - 2];
      }
    }
    if n >= 3 && counts[0] != 0 {
      PrefixSumsStep(counts, 0);
      assert p[1] != 0;
    }
  }
}
