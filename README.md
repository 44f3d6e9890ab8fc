# Finite-element meshes and their finite-volume translation

This project models the finite-element (FE) mesh of polyglot, written in Dafny with its properties proved.
It covers six parts:

- **The element-type table.** `fe_mesh.h` declares the element types, and `get_element_type` in `exodus_file.c` maps an Exodus type name and a node count to one of them.
- **Element blocks.** An element block is a run of elements of one type. It stores element->node connectivity, or element->face connectivity for polyhedra.
- **The FE mesh container.** The mesh holds its blocks and block names and a cumulative element-offset table. It also holds node positions, an optional explicit face->node table, and five kinds of named entity sets.
- **Face deduplication.** Faces are keyed by their sorted node tuple, so two cells listing the same nodes in different orders share one face. Faces are numbered densely in order of first appearance.
- **FE -> FV translation (`mesh_from_fe_mesh`).** Faces are derived from fixed face templates, or copied when the mesh already has them. The face->cell table is then filled with two slots per face.
- **FV -> FE translation (`fe_mesh_from_mesh`).** The FV mesh's cells become one polyhedral block, or one block per cell tag.

How the source is mapped:

- **Values and classes.** Blocks, connectivity tables and the finite-volume (FV) mesh are values, because nothing updates them in place. The FE mesh (`FeMeshes.FeMesh`) and the face map that deduplication fills (`FaceDedup.FaceMap`) are classes whose methods update their fields.
- **Loops.** The loops of the source are methods with loop invariants. Each method is proved equal to a specification function (`Translated`, `TopologyOf`, `FaceCellsOf`, `MeshBlocks`, `RegisterAll`, `PrefixSums`), and the lemmas below state what those functions mean.
- **Errors.** Where the C code would assert, crash or quietly do the wrong thing on bad data, the model returns an error value (`Wrappers.MeshError`). Examples are a polyhedral block on the face-derivation path, a missing face table, and a third cell on one face. Where an assertion guards an argument, the model has a precondition.

Where `fe_mesh.c` departs from what `fe_mesh.h` documents or evidently intends, the main members follow the documented intent:

- `FeMeshes.FeMesh.Clone` is the exact copy promised by the comment on `fe_mesh_clone` (`fe_mesh.h:124-125`). The clone as the code writes it is modelled separately by `FeMeshes.FeMesh.CloneAsWritten`.
- `FaceCells.FillFaceCells` reports a face claimed by a third cell as a non-manifold face. The code's overwrite of slot 1 is modelled separately by `FaceCells.ThirdCellOverwritesSlotOne`.
- Each of these is a row under "## Findings". So is every other defect whose as-written behaviour is modelled beside a corrected member.

On two points the model follows the code as it stands:

- Side sets are not copied by `mesh_from_fe_mesh`.
- Unknown node counts for a known type name trip a debug assertion, modelled as an error value, rather than yielding the invalid type.

## Model

| member | source | states |
|---|---|---|
| `ElementTypes.NodesPerElement` | polyglot/fe_mesh.h:16-33 | every fixed-arity type has its own node count, never fewer than its shape's corner nodes |
| `ExodusTypes.GetElementType` | polyglot/exodus_file.c:21-80 | for each of nfaced/tetra/pyramid/wedge/hex: the name matches the prefix (ignoring case) ⇒ (Ok iff the node count is one of that family's counts), and an Ok result is of that family with exactly that node count; Polyhedron iff "nfaced" with 0 nodes; Invalid iff no prefix matches |
| `ExodusTypes.TetrahedronVariant` | polyglot/exodus_file.c:28-41 | Ok iff the count is 4, 8, 10 or 14; the result is a tetrahedron with that many nodes |
| `ExodusTypes.PyramidVariant` | polyglot/exodus_file.c:42-51 | Ok iff the count is 5 or 13; the result is a pyramid with that many nodes |
| `ExodusTypes.WedgeVariantAsWritten` | polyglot/exodus_file.c:52-63 | the wedge branch as written: Ok iff the count is 6, 15 or 16, always a wedge |
| `ExodusTypes.WedgeVariant` | polyglot/exodus_file.c:52-63 | Ok iff the count is 6, 15 or 16; the result is a wedge with that many nodes |
| `ExodusTypes.WedgeSixteenMisread` | polyglot/exodus_file.c:58-61 | as written a 16-node wedge is typed Wedge15, whose node count is not 16; the corrected branch gives Wedge16 |
| `ExodusTypes.HexahedronVariant` | polyglot/exodus_file.c:64-77 | Ok iff the count is 8, 9, 20 or 27; the result is a hexahedron with that many nodes |
| `ExodusTypes.FirstLetterDecides` | polyglot/exodus_file.c:23-64 | a name matching a prefix starts with that prefix's letter, so at most one of the five tests matches and their order does not matter |
| `ExodusTypes.GetElementTypeIgnoresCase` | polyglot/exodus_file.c:23-64 | a name and its lower-cased form map to the same result |
| `ExodusTypes.GetElementTypeReadsOnlyPrefix` | polyglot/exodus_file.c:23-64 | only the prefix is compared: any suffix after a recognised prefix leaves the result unchanged |
| `ExodusTypes.ExodusNameSelectsShape` | polyglot/exodus_file.c:23-64 | the canonical name of each family passes exactly that family's prefix test |
| `ExodusTypes.GetElementTypeRecoversType` | polyglot/exodus_file.c:21-80 | every fixed-arity type is recovered from its family name and its node count |
| `ExodusTypes.PolyhedronFromNfaced` | polyglot/exodus_file.c:23-27 | "NFACED" with 0 nodes is the polyhedral type; with a node count it is an error |
| `Connectivity.PrefixSums` | polyglot/fe_mesh.c:449-452 | an offset table starts at 0, has one more entry than counts, and ends at their sum |
| `Connectivity.BuildOffsets` | polyglot/fe_mesh.c:449-452 | the offset loop computes exactly the prefix sums of the counts |
| `Connectivity.PrefixSumsStep` | polyglot/fe_mesh.c:451-452 | consecutive offsets differ by exactly the count between them |
| `Connectivity.PrefixSumsMonotone` | polyglot/fe_mesh.c:451-452 | with non-negative counts the offsets never decrease |
| `Connectivity.CopyInto` | polyglot/fe_mesh.c:409 | memcpy writes the source at the given position and leaves the rest of the buffer untouched |
| `Blocks.NewBlock` | polyglot/fe_mesh.c:25-49 | a valid fixed-arity block; element i has exactly the type's node count and its nodes are input slice [i·n, (i+1)·n) |
| `Blocks.NewPolyhedralBlock` | polyglot/fe_mesh.c:51-79 | a valid polyhedral block whose offsets are the prefix sums of the face counts, whose items are the leading faces of the input, and whose element i has numElemFaces[i] faces |
| `Blocks.NumElementNodes` | polyglot/fe_mesh.c:104-113 | -1 for a polyhedral block, otherwise the type's node count |
| `Blocks.GetElementNodes` | polyglot/fe_mesh.c:115-125 | the buffer starts with exactly element i's nodes and is otherwise unchanged; untouched for a polyhedral block |
| `Blocks.NumElementFaces` | polyglot/fe_mesh.c:127-136 | -1 for a fixed-arity block; for a polyhedral one, the number of faces of element i, which is the length of the face slice GetElementFaces copies |
| `Blocks.GetElementFaces` | polyglot/fe_mesh.c:138-148 | the buffer starts with exactly element i's faces and is otherwise unchanged; untouched for a fixed-arity block |
| `Blocks.OffsetAllocationAsWritten` | polyglot/fe_mesh.c:63-69 | the face-offset array allocated from the total face count is shorter than the numElem + 1 entries written whenever no element has more than one face, and long enough when each has at least two; the node-offset array is long enough for every fixed-arity type |
| `Blocks.CloneAsWrittenLosesConnectivity` | polyglot/fe_mesh.c:86-92 | the block clone as written is not the block it copies, and not even a valid block |
| `FeMeshes.OwnerOf` | polyglot/fe_mesh.c:305-324 | the owning block b of element i satisfies offsets[b] ≤ i < offsets[b+1], and it is the first such block |
| `FeMeshes.FindBlock` | polyglot/fe_mesh.c:309-317 | the linear scan with the intended stopping rule returns the owning block |
| `FeMeshes.FindBlockAsWrittenMisroutesInterior` | polyglot/fe_mesh.c:314-317 | for an element strictly inside block k of a multi-block mesh, the scan as written names block k+1 with a negative local index, or gives -1 when k is last |
| `FeMeshes.FindBlockAsWrittenExample` | polyglot/fe_mesh.c:314-317 | blocks of two and two elements: element 1 is routed to block 1 at local index -1, though block 0 owns it |
| `FeMeshes.InferNumFaces` | polyglot/fe_mesh.c:270-278 | the new face count is at least the old one, exceeds every face index of the block, and is the old count or one past some face index |
| `FeMeshes.FeMesh.constructor` | polyglot/fe_mesh.c:183-213 | an empty valid mesh: no blocks, offsets [0], all nodes at the origin, no faces and no sets |
| `FeMeshes.FeMesh.AddBlock` | polyglot/fe_mesh.c:260-279 | appends the block and its name, extends the offsets by the block's size, widens the face count as InferNumFaces does, and changes nothing else |
| `FeMeshes.FeMesh.NextBlock` | polyglot/fe_mesh.c:286-298 | the block and name under the cursor and the advanced cursor, or nothing and the cursor unchanged once past the last block |
| `FeMeshes.FeMesh.NumElements` | polyglot/fe_mesh.c:300-303 | the last cumulative offset is the total size of all blocks |
| `FeMeshes.FeMesh.NumElementNodes` | polyglot/fe_mesh.c:305-324 | the owning block's answer for the element's local index |
| `FeMeshes.FeMesh.GetElementNodes` | polyglot/fe_mesh.c:326-344 | copies the owning block's local element nodes and nothing else |
| `FeMeshes.FeMesh.NumElementFaces` | polyglot/fe_mesh.c:346-362 | the owning block's answer for the element's local index: the number of faces of that element in a polyhedral block, -1 otherwise |
| `FeMeshes.FeMesh.GetElementFaces` | polyglot/fe_mesh.c:364-382 | copies the owning block's local element faces and nothing else |
| `FeMeshes.FeMesh.NumFaceNodes` | polyglot/fe_mesh.c:389-399 | -1 exactly when no face->node table is set; otherwise the number of nodes of face f, which is the length of the entry GetFaceNodes copies |
| `FeMeshes.FeMesh.GetFaceNodes` | polyglot/fe_mesh.c:401-411 | copies exactly the face's nodes; the buffer is untouched without a face->node table |
| `FeMeshes.FeMesh.SetFaceNodes` | polyglot/fe_mesh.c:442-455 | the face count becomes count, the face offsets are the prefix sums of the node counts, face f has faceNodeCounts[f] nodes, and blocks, nodes and sets are unchanged |
| `FeMeshes.FeMesh.SetNodePositions` | polyglot/fe_mesh.c:486-489 | writing through the position buffer replaces the positions and keeps the mesh valid |
| `FeMeshes.FeMesh.CreateSet` | polyglot/fe_mesh.c:502-589 | appends the named set to its kind's list (two ints per entry for side sets) and leaves the other kinds and the rest of the mesh unchanged |
| `FeMeshes.FeMesh.NextSet` | polyglot/fe_mesh.c:507-510 | the set under the cursor and the advanced cursor, or nothing once past the last set |
| `FeMeshes.FeMesh.NumSets` | polyglot/fe_mesh.c:491-500 | counting by traversal from a fresh cursor gives the number of sets of the kind |
| `FeMeshes.FeMesh.Clone` | polyglot/fe_mesh.h:124-125 | a fresh valid mesh equal to the original field by field |
| `FeMeshes.FeMesh.CloneAsWritten` | polyglot/fe_mesh.c:236-253 | the clone as written has no blocks and no block names, the original's offsets, node count and positions, no faces, no face->node table and no sets, so it is invalid whenever the original has a block |
| `FaceDedup.SortIntsCorrect` | polyglot/fe_mesh.c:651-653 | sorting a copy of the face's nodes gives an ascending permutation of them |
| `FaceDedup.KeyEqualIffPermutation` | polyglot/fe_mesh.c:650-654 | two node tuples have the same sorted key exactly when one is a reordering of the other |
| `FaceDedup.RegisterSpec` | polyglot/fe_mesh.c:644-675 | a known key returns its index and changes nothing; a new key gets the next dense index and its tuple is appended in the given order; earlier keys keep their indices |
| `FaceDedup.FaceMap.MapNodesToFace` | polyglot/fe_mesh.c:644-675 | the map, the face->node arrays and the returned index are those of registering the tuple |
| `FaceDedup.FaceMap.AddFace` | polyglot/fe_mesh.c:656-667 | the new key maps to the map's old size and the face's nodes are appended to the face->node arrays |
| `FaceDedup.AppendInts` | polyglot/fe_mesh.c:665-666 | appending element by element appends the whole tuple |
| `FaceDedup.RegisterAllGrows` | polyglot/fe_mesh.c:644-675 | registering a list only adds: keys grow by the list's keys, known keys keep their index, stored faces keep their place |
| `FaceDedup.FirstSeenGetsNextIndex` | polyglot/fe_mesh.c:656-666 | a tuple with an unseen key gets the number of distinct keys before it, and that face keeps the tuple's node order |
| `FaceDedup.RepeatAddsNoFace` | polyglot/fe_mesh.c:668-672 | a tuple that reorders an earlier one adds no face |
| `FaceDedup.SameFaceIffPermutation` | polyglot/fe_mesh.c:650-672 | two tuples get the same face index exactly when they are reorderings of each other |
| `FaceDedup.FaceIndicesName` | polyglot/fe_mesh.c:654-670 | each tuple's index names a stored face whose nodes reorder the tuple |
| `FaceDedup.FaceIndicesOnto` | polyglot/fe_mesh.c:656-672 | face indices are dense: every tuple's index is a face below the face count, and every such face is some tuple's index |
| `FaceDedup.FaceCount` | polyglot/fe_mesh.c:839-840 | the face count is the number of distinct sorted keys |
| `FaceDedup.DistinctTuplesNumberedInOrder` | polyglot/fe_mesh.c:656-659 | when no two tuples are reorderings, tuple p gets face p |
| `FaceDedup.OneRepeatIndices` | polyglot/fe_mesh.c:654-672 | with exactly one repeat (d reorders r) tuples before d keep their position, d gets r, later tuples shift down one, and there is one face fewer than tuples |
| `FaceDedup.FaceTemplates` | polyglot/fe_mesh.c:686-772 | each shape lists as many face templates as get_num_cell_faces gives it |
| `FaceDedup.FaceTemplatesShape` | polyglot/fe_mesh.c:686-772 | every template is a triangle or quadrilateral over the shape's corner nodes |
| `FaceDedup.FaceTemplatesDistinct` | polyglot/fe_mesh.c:686-772 | no shape lists the same face twice: no two templates hold the same corners |
| `FaceDedup.FaceMap.RecordFaces` | polyglot/fe_mesh.c:693-701 | the loop over a cell's tuples advances the registry by registering them in order and returns their indices |
| `FaceDedup.FaceMap.GetCellFaces` | polyglot/fe_mesh.c:677-783 | the cell's template tuples are registered in template order and the returned row holds their face indices, one per face of the shape |
| `FaceCells.FillFaceCells` | polyglot/fe_mesh.c:895-905 | the nested fill loop computes FaceCellsOf, the corrected fill |
| `FaceCells.RecordInto` | polyglot/fe_mesh.c:899-903 | one step of the fill in place equals recording the incidence on the old slots |
| `FaceCells.RecordAllSpec` | polyglot/fe_mesh.c:895-905 | the fill succeeds iff every face named is in range and no face has more than two cells; then each face's slots hold its first and second cell |
| `FaceCells.CellsOfIncidences` | polyglot/fe_mesh.c:895-899 | the cells met for face f are ascending and are exactly the cells whose row lists f |
| `FaceCells.FaceCellsOk` | polyglot/fe_mesh.c:895-905 | the fill of a cell->face table succeeds iff every item is a face in range and no face is claimed more than twice |
| `FaceCells.FaceCellsOkCount` | polyglot/fe_mesh.c:895-905 | the same condition stated by counting: no face occurs more than twice among the items |
| `FaceCells.FaceCellSlots` | polyglot/fe_mesh.c:895-905 | slot 0 is -1 iff no cell lists the face, otherwise the lowest such cell; slot 1 is -1 or a cell listing the face that comes no earlier |
| `FaceCells.FaceCellCount` | polyglot/fe_mesh.c:895-905 | slot 0 is empty iff no item names the face, and slot 1 is empty iff at most one does |
| `FaceCells.SharedFaceSlots` | polyglot/fe_mesh.c:895-905 | a face listed by cells c1 < c2 has c1 in slot 0 and c2 in slot 1 |
| `FaceCells.AsWrittenAgreesWhenManifold` | polyglot/fe_mesh.c:900-903 | whenever the corrected fill succeeds, the fill as written computes the same array |
| `FaceCells.ThirdCellOverwritesSlotOne` | polyglot/fe_mesh.c:900-903 | three cells on face 0: as written slot 1 ends up with cell 2 and cell 1 is lost; the corrected fill reports the face |
| `FeToFv.CellsCount` | polyglot/fe_mesh.c:802-810 | there is one cell per element of the mesh |
| `FeToFv.CellNumbering` | polyglot/fe_mesh.c:821-837 | cell offsets[b] + i is element i of block b, with its shape and its element nodes |
| `FeToFv.BlockFaceCounts` | polyglot/fe_mesh.c:804-808 | every cell of a fixed-arity block has its shape's face count |
| `FeToFv.DerivedTables` | polyglot/fe_mesh.c:812-847 | one cell->face row per cell, as long as its shape's face count, and one face->node entry per face |
| `FeToFv.DerivedTopology` | polyglot/fe_mesh.c:796-848 | an error exactly when some block is polyhedral; otherwise one row per element and one face->node entry per face |
| `FeToFv.DerivedRowFaces` | polyglot/fe_mesh.c:812-847 | entry j of cell k's row is a face in range whose nodes reorder the cell's j-th template tuple |
| `FeToFv.DerivedSharedFace` | polyglot/fe_mesh.c:812-847 | two row entries name the same face iff their template tuples hold the same nodes |
| `FeToFv.DerivedFaceCount` | polyglot/fe_mesh.c:839-840 | the derived face count is the number of distinct node sets among all face tuples |
| `FeToFv.ExplicitTopology` | polyglot/fe_mesh.c:849-876 | an error iff a block lacks element->face rows, the face->node table is missing, or it is shorter than the face count; otherwise one row per element and numFaces face->node entries |
| `FeToFv.ExplicitRows` | polyglot/fe_mesh.c:855-871 | with explicit faces, cell offsets[b] + i's row is element i's face row in block b |
| `FeToFv.TopologyOf` | polyglot/fe_mesh.c:787-879 | the topology used has one row per element and one face->node entry per face |
| `FeToFv.Translated` | polyglot/fe_mesh.c:884-892 | a translated mesh is a valid FV mesh with one cell per element and the FE mesh's node count |
| `FeToFv.DerivedTranslation` | polyglot/fe_mesh.c:796-905 | without faces and with fixed-arity blocks only, the translation is the derived topology with its face->cell slots |
| `FeToFv.MeshFromFeMesh` | polyglot/fe_mesh.c:785-964 | the method computes Translated |
| `FeToFv.ObtainTopology` | polyglot/fe_mesh.c:787-879 | derives the faces when the mesh has none and copies them otherwise, as TopologyOf |
| `FeToFv.DeriveTopology` | polyglot/fe_mesh.c:796-848 | the counting and assembly passes compute DerivedTopology |
| `FeToFv.CountCellFaces` | polyglot/fe_mesh.c:798-810 | the counting pass yields the prefix sums of the cells' face counts |
| `FeToFv.ExtendOffsets` | polyglot/fe_mesh.c:807-808 | extends the running offsets over one block, keeping them the prefix sums |
| `FeToFv.AssembleFaces` | polyglot/fe_mesh.c:812-847 | the assembly pass over all blocks builds the derived tables |
| `FeToFv.AssembleBlock` | polyglot/fe_mesh.c:822-837 | one block's cells are registered in order and their rows stored at their offsets |
| `FeToFv.AssembleCell` | polyglot/fe_mesh.c:828-835 | one element's nodes are read and its faces registered and stored at its offset |
| `FeToFv.CopyTopology` | polyglot/fe_mesh.c:849-876 | the explicit branch, corrected, computes ExplicitTopology |
| `FeToFv.CountRowFaces` | polyglot/fe_mesh.c:855-862 | the corrected offset loop yields the prefix sums of the elements' face counts |
| `FeToFv.CopyRows` | polyglot/fe_mesh.c:864-871 | copying each block's face array at its first cell's offset concatenates all rows |
| `FeToFv.OffsetsAsWritten` | polyglot/fe_mesh.c:856-862 | the offset loop as written: n entries, the first being the int before the array plus the first offset |
| `FeToFv.OffsetsAsWrittenMisplaceRows` | polyglot/fe_mesh.c:856-862 | the offsets as written equal the intended ones iff the int before the array is 0 and no element but the last two has a face; three or more elements with a face on the first always misplace rows |
| `FeToFv.BuildMesh` | polyglot/fe_mesh.c:884-952 | the FV mesh built holds the topology, the slots, the node positions and the element, face, edge and node sets |
| `FeToFv.CopySets` | polyglot/fe_mesh.c:926-952 | each set of a kind becomes a tag of the same name and contents, in traversal order |
| `FvToFe.FindTag` | polyglot/fe_mesh.c:980-982 | nothing iff no tag has the name; otherwise the indices of a tag of that name |
| `FvToFe.PolyhedralBlock` | polyglot/fe_mesh.c:51-79 | a valid polyhedral block with one element per list, element i having exactly the faces of list i |
| `FvToFe.TagBlock` | polyglot/fe_mesh.c:978-999 | a missing tag is an error naming it; a built block is a valid polyhedral block |
| `FvToFe.TagBlockRows` | polyglot/fe_mesh.c:980-998 | a tag's block has one element per tagged cell, element i having the faces of tagged cell i |
| `FvToFe.MeshBlocks` | polyglot/fe_mesh.c:975-1014 | as many names as blocks, at least one block, all of them valid and polyhedral |
| `FvToFe.SingleBlockIsCellFaces` | polyglot/fe_mesh.c:1006-1013 | the single block "block_1" is the FV mesh's own cell->face table |
| `FvToFe.FacesCoveredAppend` | polyglot/fe_mesh.c:270-278 | adding blocks one by one keeps the face count one past the largest face index of all blocks |
| `FvToFe.FeMeshFromMesh` | polyglot/fe_mesh.c:970-1020 | fails exactly when MeshBlocks does; otherwise a fresh valid FE mesh whose blocks and names are MeshBlocks', over the FV mesh's node positions, with the face count one past the largest face index, no face->node table and no sets |
| `FvToFe.AddTagBlocks` | polyglot/fe_mesh.c:978-1002 | the multi-tag loop adds each tag's block under its name, or stops with the first tag's error; nodes, face nodes and sets are untouched |
| `FvToFe.AddTagBlock` | polyglot/fe_mesh.c:980-1001 | one tag's block is added, or the loop stops with that tag's error |
| `FvToFe.BuildTagBlock` | polyglot/fe_mesh.c:983-998 | the block of the tagged cells, corrected: their rows in tag order |
| `FvToFe.CountTaggedFaces` | polyglot/fe_mesh.c:983-990 | each tagged cell's face count and their total |
| `FvToFe.GatherTaggedFaces` | polyglot/fe_mesh.c:991-997 | the corrected copy loop gathers the tagged cells' faces row after row |
| `FvToFe.AppendRow` | polyglot/fe_mesh.c:995-996 | one row is copied right after those already copied |
| `FvToFe.BuildSingleBlock` | polyglot/fe_mesh.c:1007-1011 | the single block is built from every cell's face count over the whole cell->face array |
| `FvToFe.PolyhedralFromCounts` | polyglot/fe_mesh.c:998 | a polyhedral block built from the counts and faces of some rows is the block of those rows |
| `FvToFe.PolyhedralRoundTrip` | polyglot/fe_mesh.c:1006-1013 | FV -> FE -> FV: given the face->node table, the single block translates back to the FV mesh's own cell->face and face->node tables |
| `FvToFe.RoundTripAsWrittenFails` | polyglot/fe_mesh.c:970-1020 | an FE mesh as fe_mesh_from_mesh builds it (polyhedral, no face->node table) cannot be translated back |
| `FvToFe.TagBlockAsWritten` | polyglot/fe_mesh.c:998 | the tag block as written has one element per tagged cell and carries faces |
| `FvToFe.TagBlockAsWrittenTakesWrongFaces` | polyglot/fe_mesh.c:998 | as written the tag block is right when the tagged cells are 0, 1, …, in order; it can be right only if the first tagged cell's faces lead the whole cell->face array |
| `FvToFe.TagBlockAsWrittenItems` | polyglot/fe_mesh.c:998 | the two blocks agree iff the tagged cells' faces are the leading items of the whole cell->face array |
| `FvToFe.TagBlockAsWrittenExample` | polyglot/fe_mesh.c:998 | two cells tagged with the second alone: as written the element gets the first cell's faces |
| `FvToFe.ElemFacesLoopAsWritten` | polyglot/fe_mesh.c:993-997 | the copy loop as written writes past a buffer of the face total once the last cell has two faces, and reads the wrong face |
| `RoundTrip.DerivedFacesDense` | polyglot/fe_mesh.c:812-847 | the derived cell->face table names only faces below the face count, and each of them |
| `RoundTrip.CoveredIffDense` | polyglot/fe_mesh.c:270-278 | over a block naming exactly faces 0 .. n-1, n is the only face count fe_mesh_add_block can infer |
| `RoundTrip.DerivedRoundTrip` | polyglot/fe_mesh.c:1006-1013 | FV -> FE of a mesh derived from fixed-arity cells: one block "block_1" with one element per cell, element k's j-th face naming a face whose nodes reorder cell k's j-th template, and the inferred face count is the derived one |
| `RoundTrip.FixedElementsRoundTrip` | polyglot/fe_mesh.c:785-921 | FE -> FV of fixed-arity elements without faces keeps one cell per element and the node positions, with tables derived from the elements, so DerivedRoundTrip gives the way back |
| `MeshExamples.LoneElement` | polyglot/fe_mesh.c:686-782 | one fixed-arity element translates to one cell whose faces are its templates in order, each owned by the cell alone |
| `MeshExamples.OneTetrahedron` | polyglot/fe_mesh.c:686-702 | a lone tetrahedron gives 4 triangular faces, each with cell 0 in slot 0 and -1 in slot 1 |
| `MeshExamples.OneHexahedron` | polyglot/fe_mesh.c:762-782 | a lone hexahedron gives 6 quadrilateral faces, each with cell 0 in slot 0 and -1 in slot 1 |
| `MeshExamples.TwoTetrahedraSharingAFace` | polyglot/fe_mesh.c:686-702 | two tetrahedra sharing a triangle give 7 faces; the shared face 2 is in both rows with cells 0 and 1 in its slots, and every other face has one cell |

## Left out

- `ExodusTypes.GetElementType`: a failed debug assertion on the node count is modelled as `Err(InvalidTopology)`. With assertions compiled out the C returns a type instead:
  - "tetra" with an unknown count gives the 14-node tetrahedron;
  - "pyramid" with one gives the 13-node variant;
  - "wedge" with one gives the 15-node wedge;
  - "hex" with one gives the 27-node hexahedron;
  - "nfaced" with any count gives the polyhedral type.
- `ExodusTypes.PyramidVariant`: the pyramid branch names `FE_HEXAHEDRON_5` and `FE_HEXAHEDRON_13`, which the enumeration does not declare. The nfaced branch likewise names `FE_POLYHEDRAL`. These are compile-level errors with no behaviour to model, so the evident pyramid and polyhedron types are used.
- `FeToFv.DerivedTopology`: `get_num_cell_faces` and `get_cell_faces` compare types against `FE_TETRAHEDRON`, `FE_PYRAMID`, `FE_WEDGE` and `FE_HEXAHEDRON`, which the enumeration does not declare. The model compares shape families instead. A polyhedral block on this path is an error value, where the C asserts. An `FE_INVALID` block cannot reach this path: `Block.Valid` and the precondition of `Blocks.NewBlock` exclude it, and the Exodus reader checks for it before building a block (`exodus_file.c:273`).
- `Blocks.NewBlock`: C `int` overflow is not modelled, because integers are unbounded. This holds for the offset tables, face totals and prefix sums here and in `NewPolyhedralBlock`, `SetFaceNodes`, `BuildOffsets` and the translations.
- `Blocks.NewBlock`: `fe_mesh.c` takes a node-per-element argument that `fe_mesh.h` does not declare. The model follows the code and requires that argument to equal the type's node count. The model also restricts the element type to the fixed-arity types. The C accepts any type here, including `FE_INVALID` and the polyhedral type, so a block of those types built this way is not modelled.
- `FeMeshes.FeMesh.CreateSet`: the C returns a buffer that the caller fills later. The model takes the set's contents as a value, so aliasing between that buffer and the tagger is not modelled.
- `FvToFe.FindTag`: the tagger is an ordered list of (name, indices) tags. A lookup takes the first tag of a name, and duplicate names get no other treatment. The tagger's hashing and storage are not part of this model.
- `FeMeshes.FeMesh.CloneAsWritten`: the face count, face->node table and entity sets that the C clone leaves uninitialized are modelled as empty.
- `FeMeshes.FeMesh.NumElementNodes`: this and the other element accessors use the corrected owner lookup. The lookup as written is covered under Findings.
- `FaceDedup.SortInts`: the key is computed by insertion sort. `int_qsort` is not modelled; only its result, an ascending permutation, matters.
- `FeToFv.MeshFromFeMesh`: the following are not modelled, because they belong to the FV mesh library:
  - edges (face->edge copy and `mesh_construct_edges`);
  - geometry (`mesh_compute_geometry`);
  - ghost cells;
  - the MPI communicator.
- `FeToFv.MeshFromFeMesh`: on bad data the model returns errors where the C writes out of bounds or dereferences NULL:
  - a face index outside the face table;
  - a third cell on one face;
  - a missing element->face or face->node table on the explicit path.
- `FvToFe.FeMeshFromMesh`: an FV mesh without cells, an empty tag and a tagged cell outside the mesh are error values. The C asserts on the first two and reads out of bounds on the third. The FE mesh needs at least four nodes, as `fe_mesh_new` asserts.
- `RoundTrip.FixedElementsRoundTrip`: the way back is stated over `MeshBlocks` and `FacesCovered`, which `FvToFe.FeMeshFromMesh`'s postcondition ties its result to. A lemma cannot call the method itself.
- Edge connectivity is not part of this model:
  - `fe_mesh_num_edges`;
  - the face->edge and edge->node accessors;
  - element edges, which `fe_mesh.h` declares and `fe_mesh.c` does not define.
- Memory release (`fe_block_free`, `fe_mesh_free`), serializers and the communicator accessor are not part of this model.
- The Exodus file I/O around `get_element_type` is not part of this model: opening, querying, reading and writing meshes, fields and times.

## Findings

| source | as written | input that shows it | evidently intended | confidence | as-written member | corrected member |
|---|---|---|---|---|---|---|
| polyglot/fe_mesh.c:314-317 | the owner scan advances while offsets[b] < i, so it stops one block late for an element inside a block | offsets [0, 2, 4], element 1: block 1 at local index -1 | the block b with offsets[b] ≤ i < offsets[b+1] | high, not executed | `FeMeshes.FindBlockAsWrittenMisroutesInterior` | `FeMeshes.FindBlock` |
| polyglot/exodus_file.c:58-61 | a 16-node wedge is typed `FE_WEDGE_15` | ("wedge", 16) | `FE_WEDGE_16` | high, not executed | `ExodusTypes.WedgeSixteenMisread` | `ExodusTypes.WedgeVariant` |
| polyglot/fe_mesh.c:860 | cell offset k + i is set from entry k + i - 1 plus the block's offset at i, not its face count; entry -1 is read and the last entry never written | one block of three elements with one face each: entry 2 becomes 3 plus the int before the array instead of 2 | offset k + i + 1 = offset k + i + face count of element i | high, not executed | `FeToFv.OffsetsAsWrittenMisplaceRows` | `FeToFv.CountRowFaces` |
| polyglot/fe_mesh.c:900-903 | a third cell on a face overwrites slot 1 | three cells all listing face 0: slots [0, 2], cell 1 lost | report a non-manifold face | high, not executed | `FaceCells.ThirdCellOverwritesSlotOne` | `FaceCells.FillFaceCells` |
| polyglot/fe_mesh.c:998 | the tag block is built over the whole FV mesh's cell->face array instead of the gathered faces | cell->face table [0, 4, 8] over faces 10..17, tag [1]: element 0 gets faces 10..13, not 14..17 | the gathered `elem_faces` | high, not executed | `FvToFe.TagBlockAsWrittenTakesWrongFaces` | `FvToFe.BuildTagBlock` |
| polyglot/fe_mesh.c:993-997 | the copy loop advances the offset twice and reads `cell_faces[cell_face_offsets[cell + f]]` | last tagged cell with two faces: write past the buffer; cell 0's face 1 read as 14, not 11 | `elem_faces[offset++] = cell_faces[cell_face_offsets[cell] + f]` | high, not executed | `FvToFe.ElemFacesLoopAsWritten` | `FvToFe.GatherTaggedFaces` |
| polyglot/fe_mesh.c:66 | the face-offset array holds the total face count of ints, but numElem + 1 are written | one element with one face: 1 int allocated, 2 written | numElem + 1 ints | high, not executed | `Blocks.OffsetAllocationAsWritten` | `Blocks.NewPolyhedralBlock` |
| polyglot/fe_mesh.c:86-92 | the block clone copies only the element count and type | any block: the copy has no connectivity | an exact copy | high, not executed | `Blocks.CloneAsWrittenLosesConnectivity` | `FeMeshes.FeMesh.Clone` |
| polyglot/fe_mesh.c:236-253 | the mesh clone stores blocks and names into empty arrays, and copies neither faces nor sets | a mesh with one block: the copy has offsets [0, n] but no block | an exact copy | high, not executed | `FeMeshes.FeMesh.CloneAsWritten` | `FeMeshes.FeMesh.Clone` |
| polyglot/fe_mesh.c:970-1020 | the FE mesh built has polyhedral blocks and a face count but no face->node table | any FV mesh: translating the result back fails | the face->node table is carried over | medium, not executed | `FvToFe.RoundTripAsWrittenFails` | `FvToFe.PolyhedralRoundTrip` |
