/** fe_mesh_from_mesh: the FE mesh of an FV mesh. With more than one block
    tag, each tag's cells become one polyhedral block named after the tag;
    otherwise every cell goes into a single polyhedral block "block_1". A
    block's element i has the faces of its i-th cell, indices unchanged. */
module FvToFe {
  import opened Wrappers
  import opened Connectivity
  import opened ElementTypes
  import opened EntitySets
  import opened Blocks
  import opened FeMeshes
  import opened FvMeshes
  import opened FeToFv

  //------------------------------------------------------------------------
  // What the translation builds.
  //------------------------------------------------------------------------

  /** The cells of the tag called name, as the mesh's cell tagger hands them
      out: the first tag of that name, or nothing. */
  function FindTag(tags: seq<Tag>, name: string): (r: Option<seq<int>>)
    ensures r.None? <==> forall k :: 0 <= k < |tags| ==> tags[k].name != name
    ensures r.Some? ==> exists k :: 0 <= k < |tags| && tags[k].name == name && tags[k].indices == r.value
  {
    if tags == [] then None
    else if tags[0].name == name then Some(tags[0].indices)
    else
      var r := FindTag(tags[1..], name);
      assert forall k :: 1 <= k < |tags| ==> tags[k] == tags[1..][k - 1];
      r
  }

  /** Every cell index lies in 0..n-1. */
  predicate InRange(cells: seq<int>, n: int)
  {
    forall i :: 0 <= i < |cells| ==> 0 <= cells[i] < n
  }

  /** The cell->face rows of the given cells, in the given order. */
  function TaggedRows(t: Table, cells: seq<int>): (r: seq<seq<int>>)
    requires t.Valid() && InRange(cells, t.Count())
    ensures |r| == |cells|
  {
    seq(|cells|, i requires 0 <= i < |cells| => t.Entry(cells[i]))
  }

  /** The polyhedral block (polyhedral_fe_block_new) whose element i has the
      faces lists[i]. */
  function PolyhedralBlock(lists: seq<seq<int>>): (b: Block)
    requires |lists| > 0
    ensures b.Valid() && b.numElem == |lists| && b.elemType == Polyhedron && b.elemNodes.None?
    ensures forall i :: 0 <= i < |lists| ==> ElementFaces(b, i) == lists[i]
  {
    FromListsValid(lists);
    var b := Block(|lists|, Polyhedron, Some(FromLists(lists)), None);
    PolyhedralBlockEntries(b, lists);
    b
  }

  /** The block of one cell tag. A tag the mesh does not have, a cell outside
      the mesh and an empty tag (polyhedral_fe_block_new asserts at least one
      element) are errors. */
  function TagBlock(fv: FvMesh, name: string): (r: Result<Block, MeshError>)
    requires fv.Valid()
    ensures FindTag(fv.cellTags, name).None? ==> r == Err(MissingTag(name))
    ensures r.Ok? ==> r.value.Valid() && r.value.elemType == Polyhedron
  {
    match FindTag(fv.cellTags, name)
    case None => Err(MissingTag(name))
    case Some(cells) =>
      if !InRange(cells, fv.numCells) then Err(OutOfRangeIndex)
      else if cells == [] then Err(MalformedBlock)
      else Ok(PolyhedralBlock(TaggedRows(fv.cellFaces, cells)))
  }

  /** Element i of a tag's block has the faces of the tag's cell i. */
  lemma TagBlockRows(fv: FvMesh, name: string)
    requires fv.Valid() && TagBlock(fv, name).Ok?
    ensures FindTag(fv.cellTags, name).Some?
    ensures var cells := FindTag(fv.cellTags, name).value; var b := TagBlock(fv, name).value;
      && cells != [] && InRange(cells, fv.numCells) && b.numElem == |cells|
      && forall i :: 0 <= i < |cells| ==> ElementFaces(b, i) == fv.cellFaces.Entry(cells[i])
  {
  }

  /** The values of a run of results, or the error of the first failure. */
  function Sequenced<T, E>(rs: seq<Result<T, E>>): (r: Result<seq<T>, E>)
    ensures r.Ok? ==> |r.value| == |rs|
  {
    if rs == [] then Ok([])
    else
      match Sequenced(rs[..|rs| - 1])
      case Err(e) => Err(e)
      case Ok(vs) =>
        match rs[|rs| - 1]
        case Err(e) => Err(e)
        case Ok(v) => Ok(vs + [v])
  }

  /** A run of results succeeds exactly when each result does, value k being
      result k's; otherwise its error is that of the first failure. */
  lemma {:induction false} SequencedSpec<T, E>(rs: seq<Result<T, E>>)
    ensures Sequenced(rs).Ok? <==> forall k :: 0 <= k < |rs| ==> rs[k].Ok?
    ensures Sequenced(rs).Ok? ==> forall k :: 0 <= k < |rs| ==> rs[k] == Ok(Sequenced(rs).value[k])
    ensures Sequenced(rs).Err? ==> exists k :: (0 <= k < |rs| && rs[k] == Err(Sequenced(rs).error)
      && forall j :: 0 <= j < k ==> rs[j].Ok?)
  {
    if rs != [] {
      var n := |rs| - 1;
      var front := rs[..n];
      SequencedSpec(front);
      assert forall k :: 0 <= k < n ==> front[k] == rs[k];
      var r, rf := Sequenced(rs), Sequenced(front);
      if rf.Err? {
        var k :| 0 <= k < n && front[k] == Err(rf.error) && forall j :: 0 <= j < k ==> front[j].Ok?;
        assert r == rf;
      } else if rs[n].Err? {
        assert r == Err(rs[n].error);
      } else {
        assert r.value == rf.value + [rs[n].value];
        forall k | 0 <= k < |rs| ensures rs[k] == Ok(r.value[k]) {
          if k < n {
            assert r.value[k] == rf.value[k];
          }
        }
      }
    }
  }

  /** Once every result before result b succeeds and result b fails, result
      b's error is the error of the whole run. */
  lemma FirstFailure<T, E>(rs: seq<Result<T, E>>, b: int)
    requires 0 <= b < |rs| && Sequenced(rs[..b]).Ok? && rs[b].Err?
    ensures Sequenced(rs) == Err(rs[b].error)
  {
    SequencedSpec(rs[..b]);
    SequencedSpec(rs);
    assert forall j :: 0 <= j < b ==> rs[..b][j] == rs[j];
    var k :| 0 <= k < |rs| && rs[k] == Err(Sequenced(rs).error) && forall j :: 0 <= j < k ==> rs[j].Ok?;
    assert k == b;
  }

  /** A run whose first b results succeed, extended by a success, succeeds
      with one more value. */
  lemma SequencedNext<T, E>(rs: seq<Result<T, E>>, b: int)
    requires 0 <= b < |rs| && Sequenced(rs[..b]).Ok? && rs[b].Ok?
    ensures Sequenced(rs[..b + 1]) == Ok(Sequenced(rs[..b]).value + [rs[b].value])
  {
    assert rs[..b + 1][..b] == rs[..b];
  }

  /** The block of each tag, or its error, in tag order. */
  function TagResults(fv: FvMesh, names: seq<string>): (rs: seq<Result<Block, MeshError>>)
    requires fv.Valid()
    ensures |rs| == |names|
  {
    seq(|names|, k requires 0 <= k < |names| => TagBlock(fv, names[k]))
  }

  /** The block names and blocks fe_mesh_from_mesh builds: one block per tag
      when more than one tag is given, otherwise a single block "block_1" of
      every cell (a single tag is ignored). An FV mesh without cells has no
      block to build. */
  function MeshBlocks(fv: FvMesh, tags: Option<seq<string>>): (r: Result<(seq<string>, seq<Block>), MeshError>)
    requires fv.Valid()
    ensures r.Ok? ==> |r.value.0| == |r.value.1| > 0
    ensures r.Ok? ==> forall b :: 0 <= b < |r.value.1| ==> r.value.1[b].Valid() && r.value.1[b].elemType == Polyhedron
  {
    if tags.Some? && |tags.value| > 1 then
      var rs := TagResults(fv, tags.value);
      SequencedSpec(rs);
      match Sequenced(rs)
      case Err(e) => Err(e)
      case Ok(bs) => Ok((tags.value, bs))
    else if fv.numCells == 0 then Err(MalformedBlock)
    else Ok((["block_1"], [PolyhedralBlock(fv.cellFaces.Rows())]))
  }

  /** The single block of every cell is the FV mesh's own cell->face table. */
  lemma SingleBlockIsCellFaces(fv: FvMesh)
    requires fv.Valid() && fv.numCells > 0
    ensures PolyhedralBlock(fv.cellFaces.Rows()) == Block(fv.numCells, Polyhedron, Some(fv.cellFaces), None)
  {
    FromListsRows(fv.cellFaces);
  }

  /** numFaces is one past the largest face index the blocks name, or 0 when
      they name no face index that is not negative. */
  ghost predicate FacesCovered(blocks: seq<Block>, numFaces: int)
  {
    && numFaces >= 0
    && (forall b, k :: 0 <= b < |blocks| && blocks[b].elemFaces.Some? && 0 <= k < |blocks[b].elemFaces.value.items| ==>
          blocks[b].elemFaces.value.items[k] < numFaces)
    && (numFaces == 0 || exists b, k :: (0 <= b < |blocks| && blocks[b].elemFaces.Some? &&
          0 <= k < |blocks[b].elemFaces.value.items| && blocks[b].elemFaces.value.items[k] == numFaces - 1))
  }

  /** fe_mesh_add_block's face-count update keeps the count one past the
      largest face index of all blocks added so far. */
  lemma FacesCoveredAppend(blocks: seq<Block>, numFaces: int, block: Block, newNumFaces: int)
    requires FacesCovered(blocks, numFaces)
    requires block.elemFaces.None? ==> newNumFaces == numFaces
    requires block.elemFaces.Some? ==>
      var faces := block.elemFaces.value.items;
      && newNumFaces >= numFaces
      && (forall k :: 0 <= k < |faces| ==> faces[k] < newNumFaces)
      && (newNumFaces == numFaces || exists k :: 0 <= k < |faces| && faces[k] == newNumFaces - 1)
    ensures FacesCovered(blocks + [block], newNumFaces)
  {
    var all := blocks + [block];
    assert forall b :: 0 <= b < |blocks| ==> all[b] == blocks[b];
    if newNumFaces != numFaces {
      var k :| 0 <= k < |block.elemFaces.value.items| && block.elemFaces.value.items[k] == newNumFaces - 1;
      assert all[|blocks|] == block;
    } else if numFaces != 0 {
      var b, k :| 0 <= b < |blocks| && blocks[b].elemFaces.Some? &&
        0 <= k < |blocks[b].elemFaces.value.items| && blocks[b].elemFaces.value.items[k] == numFaces - 1;
      assert all[b] == blocks[b];
    }
  }

  //------------------------------------------------------------------------
  // The translation.
  //------------------------------------------------------------------------

  /** fe_mesh_from_mesh: a new FE mesh over the FV mesh's nodes, with the
      blocks of MeshBlocks added in order and the node positions copied. No
      face->node table and no entity sets are set. */
  method FeMeshFromMesh(fv: FvMesh, tags: Option<seq<string>>) returns (r: Result<FeMesh, MeshError>)
    requires fv.Valid() && fv.numNodes >= 4
    ensures r.Err? <==> MeshBlocks(fv, tags).Err?
    ensures r.Err? ==> r.error == MeshBlocks(fv, tags).error
    ensures r.Ok? ==> (fresh(r.value) && r.value.Valid()
      && r.value.blockNames == MeshBlocks(fv, tags).value.0 && r.value.blocks == MeshBlocks(fv, tags).value.1
      && r.value.numNodes == fv.numNodes && r.value.nodeCoords == fv.nodes && r.value.faceNodes.None?
      && FacesCovered(r.value.blocks, r.value.numFaces)
      && r.value.elemSets == [] && r.value.faceSets == [] && r.value.edgeSets == []
      && r.value.nodeSets == [] && r.value.sideSets == [])
  {
    var m := new FeMesh(fv.numNodes);
    if tags.Some? && |tags.value| > 1 {
      var failure := AddTagBlocks(m, fv, tags.value);
      if failure.Some? {
        return Err(failure.value);
      }
    } else {
      if fv.numCells == 0 {
        return Err(MalformedBlock);
      }
      var block := BuildSingleBlock(fv);
      m.AddBlock("block_1", block);
      FacesCoveredAppend([], 0, block, m.numFaces);
    }
    m.SetNodePositions(fv.nodes);
    r := Ok(m);
  }

  /** Everything of an FE mesh but its blocks and face count: nodes, face
      nodes and entity sets. */
  ghost function NonBlockState(m: FeMesh): (int, seq<Point>, Option<Table>, seq<seq<Tag>>)
    reads m
  {
    (m.numNodes, m.nodeCoords, m.faceNodes, [m.elemSets, m.faceSets, m.edgeSets, m.nodeSets, m.sideSets])
  }

  /** The multi-tag branch: for each tag in turn, its block is built and
      added to m under the tag's name; the first tag without a block stops
      the translation with its error. */
  method AddTagBlocks(m: FeMesh, fv: FvMesh, names: seq<string>) returns (failure: Option<MeshError>)
    requires fv.Valid() && m.Valid() && m.blocks == [] && m.blockNames == [] && m.numFaces == 0
    modifies m
    ensures m.Valid()
    ensures failure.Some? <==> Sequenced(TagResults(fv, names)).Err?
    ensures failure.Some? ==> failure.value == Sequenced(TagResults(fv, names)).error
    ensures failure.None? ==> (m.blocks == Sequenced(TagResults(fv, names)).value && m.blockNames == names
      && FacesCovered(m.blocks, m.numFaces))
    ensures NonBlockState(m) == old(NonBlockState(m))
  {
    ghost var rs := TagResults(fv, names);
    for b := 0 to |names|
      invariant m.Valid()
      invariant Sequenced(rs[..b]) == Ok(m.blocks) && m.blockNames == names[..b]
      invariant FacesCovered(m.blocks, m.numFaces)
      invariant NonBlockState(m) == old(NonBlockState(m))
    {
      failure := AddTagBlock(m, fv, names, b, rs);
      if failure.Some? {
        return;
      }
    }
    assert names[..|names|] == names && rs[..|names|] == rs;
    failure := None;
  }

  /** One step of the multi-tag branch: tag b's block is added to m, or
      the translation stops with tag b's error. */
  method AddTagBlock(m: FeMesh, fv: FvMesh, names: seq<string>, b: int, ghost rs: seq<Result<Block, MeshError>>)
    returns (failure: Option<MeshError>)
    requires fv.Valid() && m.Valid() && 0 <= b < |names| && rs == TagResults(fv, names)
    requires Sequenced(rs[..b]) == Ok(m.blocks) && m.blockNames == names[..b] && FacesCovered(m.blocks, m.numFaces)
    modifies m
    ensures m.Valid() && NonBlockState(m) == old(NonBlockState(m))
    ensures failure.Some? ==> Sequenced(rs) == Err(failure.value)
    ensures failure.None? ==> (Sequenced(rs[..b + 1]) == Ok(m.blocks) && m.blockNames == names[..b + 1]
      && FacesCovered(m.blocks, m.numFaces))
  {
    TakeNext(names, b);
    var cells := FindTag(fv.cellTags, names[b]);
    if cells.None? || !InRange(cells.value, fv.numCells) || cells.value == [] {
      assert rs[b] == TagBlock(fv, names[b]);
      FirstFailure(rs, b);
      return Some(TagBlock(fv, names[b]).error);
    }
    var block := BuildTagBlock(fv, cells.value);
    assert rs[b] == Ok(block);
    SequencedNext(rs, b);
    ghost var before, faces := m.blocks, m.numFaces;
    m.AddBlock(names[b], block);
    FacesCoveredAppend(before, faces, block, m.numFaces);
    failure := None;
  }

  /** The block of the given cells: their face counts first, then their faces,
      copied row after row into a buffer of the counted size. */
  method BuildTagBlock(fv: FvMesh, cells: seq<int>) returns (block: Block)
    requires fv.Valid() && InRange(cells, fv.numCells) && cells != []
    ensures block == PolyhedralBlock(TaggedRows(fv.cellFaces, cells))
  {
    ghost var rows := TaggedRows(fv.cellFaces, cells);
    var counts, size := CountTaggedFaces(fv.cellFaces, cells, rows);
    var buf := GatherTaggedFaces(fv.cellFaces, cells, size, rows);
    block := PolyhedralFromCounts(|cells|, counts[..], buf[..], rows);
  }

  /** The face count of each given cell, and their total. */
  method CountTaggedFaces(t: Table, cells: seq<int>, ghost rows: seq<seq<int>>) returns (counts: array<int>, size: int)
    requires t.Valid() && InRange(cells, t.Count()) && rows == TaggedRows(t, cells)
    ensures fresh(counts) && counts[..] == Lengths(rows) && size == |Flatten(rows)|
  {
    ghost var lengths := Lengths(rows);
    var n := |cells|;
    counts := new int[n];
    size := 0;
    for i := 0 to n
      invariant counts[..i] == lengths[..i]
      invariant size == PrefixSums(lengths)[i]
    {
      PrefixSumsStep(lengths, i);
      var c := cells[i];
      var nef := t.offsets[c + 1] - t.offsets[c];
      counts[i] := nef;
      size := size + nef;
      TakeNext(counts[..], i);
      TakeNext(lengths, i);
    }
    assert counts[..] == counts[..n];
    assert lengths[..n] == lengths;
    FlattenLength(rows);
  }

  /** The faces of the given cells, row after row, in a buffer of size ints. */
  method GatherTaggedFaces(t: Table, cells: seq<int>, size: int, ghost rows: seq<seq<int>>) returns (buf: array<int>)
    requires t.Valid() && InRange(cells, t.Count()) && rows == TaggedRows(t, cells)
    requires size == |Flatten(rows)|
    ensures fresh(buf) && buf[..] == Flatten(rows)
  {
    ghost var lengths := Lengths(rows);
    FlattenLength(rows);
    PrefixSumsMonotone(lengths);
    ghost var ps := PrefixSums(lengths);
    var n := |cells|;
    buf := new int[size];
    var offset := 0;
    for i := 0 to n
      invariant offset == ps[i]
      invariant buf[..offset] == Flatten(rows[..i])
    {
      PrefixSumsStep(lengths, i);
      assert ps[i + 1] <= ps[n];
      var row := t.Entry(cells[i]);
      assert row == rows[i];
      AppendRow(buf, offset, row, Flatten(rows[..i]));
      FlattenNext(rows, i);
      offset := offset + |row|;
    }
    assert rows[..n] == rows;
    assert buf[..] == buf[..offset];
  }

  /** Copies row into buf right after the rows already copied there. */
  method AppendRow(buf: array<int>, offset: nat, row: seq<int>, ghost done: seq<int>)
    requires offset + |row| <= buf.Length && buf[..offset] == done
    modifies buf
    ensures buf[..offset + |row|] == done + row
  {
    CopyInto(row, buf, offset);
    assert buf[..offset + |row|] == buf[..offset] + buf[offset..offset + |row|];
  }

  /** The single block "block_1": every cell's face count, taken from the
      cell->face offsets, over the whole cell->face item array. */
  method BuildSingleBlock(fv: FvMesh) returns (block: Block)
    requires fv.Valid() && fv.numCells > 0
    ensures block == PolyhedralBlock(fv.cellFaces.Rows())
  {
    var t := fv.cellFaces;
    ghost var rows := t.Rows();
    ghost var lengths := Lengths(rows);
    var n := fv.numCells;
    var counts := new int[n];
    for i := 0 to n
      invariant counts[..i] == lengths[..i]
    {
      counts[i] := t.offsets[i + 1] - t.offsets[i];
      TakeNext(counts[..], i);
      TakeNext(lengths, i);
    }
    assert counts[..] == lengths[..n] == lengths;
    FlattenRows(t);
    FlattenLength(rows);
    block := PolyhedralFromCounts(n, counts[..], t.items, rows);
  }

  /** polyhedral_fe_block_new over the counts and faces of some rows builds
      the block of those rows. */
  method PolyhedralFromCounts(n: int, counts: seq<int>, faces: seq<int>, ghost rows: seq<seq<int>>) returns (block: Block)
    requires n == |rows| > 0 && counts == Lengths(rows) && faces == Flatten(rows)
    ensures block == PolyhedralBlock(rows)
  {
    assert counts[..n] == counts;
    FlattenLength(rows);
    block := NewPolyhedralBlock(n, counts, faces);
    assert faces[..Sum(counts)] == faces;
  }

  //------------------------------------------------------------------------
  // Round trip.
  //------------------------------------------------------------------------

  /** Given the FV mesh's face->node table, the explicit-face translation of
      the single block of every cell gives back the FV mesh's cell->face and
      face->node tables: the cell count and every cell's faces survive the
      trip FV -> FE -> FV. */
  lemma PolyhedralRoundTrip(fv: FvMesh)
    requires fv.Valid() && fv.numCells > 0
    ensures MeshBlocks(fv, None).Ok?
    ensures BlocksValid(MeshBlocks(fv, None).value.1)
    ensures Sum(BlockSizes(MeshBlocks(fv, None).value.1)) == fv.numCells
    ensures ExplicitTopology(MeshBlocks(fv, None).value.1, fv.numFaces, Some(fv.faceNodes))
         == Ok(Topology(fv.cellFaces, fv.faceNodes, fv.numFaces))
  {
    SingleBlockIsCellFaces(fv);
    SingleBlockRows(fv.cellFaces);
    FromListsRows(fv.cellFaces);
    WholeTable(fv.faceNodes);
  }

  /** The rows of the one block over a table are the table's rows. */
  lemma SingleBlockRows(t: Table)
    requires t.Valid() && t.Count() > 0
    ensures var blocks := [Block(t.Count(), Polyhedron, Some(t), None)];
      && BlocksValid(blocks) && AllFaced(blocks)
      && Sum(BlockSizes(blocks)) == t.Count()
      && Rows(blocks) == t.Rows()
  {
    var blocks := [Block(t.Count(), Polyhedron, Some(t), None)];
    var sizes := BlockSizes(blocks);
    assert sizes[..0] == [];
    FlattenOne(RowLists(blocks));
  }

  /** Keeping the first Count() entries of a valid table keeps all of it. */
  lemma WholeTable(t: Table)
    requires t.Valid()
    ensures t.offsets[..t.Count() + 1] == t.offsets && t.items[..t.offsets[t.Count()]] == t.items
  {
  }

  /** As written, the FE mesh fe_mesh_from_mesh builds has no face->node
      table and only polyhedral blocks, so mesh_from_fe_mesh cannot translate
      it back: with faces it finds no face->node table to copy, without faces
      it cannot derive faces of a polyhedral block. */
  lemma RoundTripAsWrittenFails(m: FeMesh)
    requires m.Valid() && m.faceNodes.None? && |m.blocks| > 0 && m.blocks[0].elemType == Polyhedron
    ensures TopologyOf(m).Err?
  {
    assert !AllFixed(m.blocks);
  }

  //------------------------------------------------------------------------
  // The multi-tag branch as written.
  //------------------------------------------------------------------------

  /** The block the multi-tag branch builds as written: the tagged cells'
      face counts over the item array of the whole FV mesh, from its start,
      rather than over the tagged cells' own faces. */
  function TagBlockAsWritten(t: Table, cells: seq<int>): (b: Block)
    requires t.Valid() && InRange(cells, t.Count()) && cells != []
    requires Sum(Lengths(TaggedRows(t, cells))) <= |t.items|
    ensures b.numElem == |cells| && b.elemFaces.Some?
  {
    var lengths := Lengths(TaggedRows(t, cells));
    SumNonNegative(lengths);
    Block(|cells|, Polyhedron, Some(Table(PrefixSums(lengths), t.items[..Sum(lengths)])), None)
  }

  /** As written the block agrees with the intended one when the tagged cells
      are the first cells of the mesh, in order; otherwise it can agree only
      if the first tagged cell's faces are the leading items of the whole
      cell->face array. */
  lemma TagBlockAsWrittenTakesWrongFaces(t: Table, cells: seq<int>)
    requires t.Valid() && InRange(cells, t.Count()) && cells != []
    requires Sum(Lengths(TaggedRows(t, cells))) <= |t.items|
    ensures (forall i :: 0 <= i < |cells| ==> cells[i] == i) ==>
      TagBlockAsWritten(t, cells) == PolyhedralBlock(TaggedRows(t, cells))
    ensures TagBlockAsWritten(t, cells) == PolyhedralBlock(TaggedRows(t, cells)) ==>
      |t.Entry(cells[0])| <= |t.items| && t.Entry(cells[0]) == t.items[..|t.Entry(cells[0])|]
  {
    var rows := TaggedRows(t, cells);
    TagBlockAsWrittenItems(t, cells);
    if forall i :: 0 <= i < |cells| ==> cells[i] == i {
      LeadingCellsFlatten(t, cells);
    }
    if TagBlockAsWritten(t, cells) == PolyhedralBlock(rows) {
      FirstRowLeads(rows, t.items, Sum(Lengths(rows)));
    }
  }

  /** The two blocks differ at most in their face items. */
  lemma TagBlockAsWrittenItems(t: Table, cells: seq<int>)
    requires t.Valid() && InRange(cells, t.Count()) && cells != []
    requires Sum(Lengths(TaggedRows(t, cells))) <= |t.items|
    ensures 0 <= Sum(Lengths(TaggedRows(t, cells)))
    ensures TagBlockAsWritten(t, cells) == PolyhedralBlock(TaggedRows(t, cells))
      <==> Flatten(TaggedRows(t, cells)) == t.items[..Sum(Lengths(TaggedRows(t, cells)))]
  {
    SumNonNegative(Lengths(TaggedRows(t, cells)));
  }

  /** The first k cells' rows flatten to the items up to offset k. */
  lemma LeadingCellsFlatten(t: Table, cells: seq<int>)
    requires t.Valid() && InRange(cells, t.Count())
    requires forall i :: 0 <= i < |cells| ==> cells[i] == i
    ensures 0 <= Sum(Lengths(TaggedRows(t, cells))) <= |t.items|
    ensures Flatten(TaggedRows(t, cells)) == t.items[..Sum(Lengths(TaggedRows(t, cells)))]
  {
    var rows := TaggedRows(t, cells);
    var k := |cells|;
    if k > 0 {
      assert cells[k - 1] == k - 1 < t.Count();
    }
    assert rows == t.Rows()[..k];
    RowsPrefix(t, k);
    FlattenLength(rows);
  }

  /** Lists that flatten to the leading items of xs start with a list that is
      itself a prefix of xs. */
  lemma FirstRowLeads(rows: seq<seq<int>>, xs: seq<int>, n: int)
    requires rows != [] && 0 <= n <= |xs| && Flatten(rows) == xs[..n]
    ensures |rows[0]| <= |xs| && rows[0] == xs[..|rows[0]|]
  {
    FlattenPrefixPart(rows, 0, |rows[0]|);
    assert rows[..0] == [];
    assert rows[0][..|rows[0]|] == rows[0];
  }

  /** A two-cell mesh tagged with its second cell alone: as written, the
      block's element gets the first cell's faces. */
  lemma TagBlockAsWrittenExample()
    ensures var t := Table([0, 4, 8], [10, 11, 12, 13, 14, 15, 16, 17]);
      && t.Valid() && InRange([1], t.Count())
      && TagBlockAsWritten(t, [1]).elemFaces.value.items == [10, 11, 12, 13]
      && t.Entry(1) == [14, 15, 16, 17]
      && PolyhedralBlock(TaggedRows(t, [1])).elemFaces.value.items == [14, 15, 16, 17]
  {
    var t := Table([0, 4, 8], [10, 11, 12, 13, 14, 15, 16, 17]);
    assert Monotone(t.offsets);
    assert t.Entry(1) == t.items[4..8] == [14, 15, 16, 17];
    var rows := TaggedRows(t, [1]);
    assert rows == [[14, 15, 16, 17]];
    assert Lengths(rows) == [4];
    assert [4][..0] == [];
    assert Sum([4]) == 4;
    assert Flatten(rows) == [14, 15, 16, 17] by {
      assert rows[..0] == [];
    }
  }

  /** The slot the as-written copy loop writes for face f of element i: the
      running offset is advanced by the loop as well as added to f, so the
      slots of an element are two apart. */
  function ElemFacesSlotAsWritten(counts: seq<int>, i: int, f: int): int
    requires 0 <= i <= |counts|
  {
    PrefixSums(counts)[i] + 2 * f
  }

  /** The item the as-written copy loop reads for face f of cell c: the
      cell->face entry at the offset of cell c + f, not entry f of cell c. */
  function ElemFaceReadAsWritten(t: Table, c: int, f: int): int
    requires 0 <= c + f < |t.offsets| && 0 <= t.offsets[c + f] < |t.items|
  {
    t.items[t.offsets[c + f]]
  }

  /** Whenever the last tagged cell has two faces or more, the as-written
      loop writes past the end of a buffer sized to the face total; and it
      copies the wrong faces. */
  lemma ElemFacesLoopAsWritten(counts: seq<int>)
    requires |counts| > 0 && NonNegative(counts) && counts[|counts| - 1] >= 2
    ensures ElemFacesSlotAsWritten(counts, |counts| - 1, counts[|counts| - 1] - 1) >= Sum(counts)
    ensures var t := Table([0, 4, 8], [10, 11, 12, 13, 14, 15, 16, 17]);
      && t.Valid() && ElemFaceReadAsWritten(t, 0, 1) == 14 && t.Entry(0)[1] == 11
  {
    PrefixSumsStep(counts, |counts| - 1);
    var t := Table([0, 4, 8], [10, 11, 12, 13, 14, 15, 16, 17]);
    assert Monotone(t.offsets);
  }
}
