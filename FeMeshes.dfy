/** The finite-element mesh (fe_mesh_t): an ordered list of named element
    blocks, the cumulative element-offset table that maps a global element
    index to its block, node positions, optional explicit face->node
    connectivity, and five kinds of named entity sets. */
module FeMeshes {
  import opened Wrappers
  import opened Connectivity
  import opened ElementTypes
  import opened Blocks
  import opened EntitySets

  /** A node position; only ever copied, never computed with. */
  datatype Point = Point(x: real, y: real, z: real)

  function BlockSizes(blocks: seq<Block>): (r: seq<int>)
    ensures |r| == |blocks|
    ensures forall k :: 0 <= k < |blocks| ==> r[k] == blocks[k].numElem
  {
    seq(|blocks|, k requires 0 <= k < |blocks| => blocks[k].numElem)
  }

  lemma BlockSizesAppend(blocks: seq<Block>, b: Block)
    ensures BlockSizes(blocks + [b]) == BlockSizes(blocks) + [b.numElem]
  {
  }

  //------------------------------------------------------------------------
  // Locating the block that owns a global element index.
  //------------------------------------------------------------------------

  /** The owner of element i at or after block b: the first block, from b on,
      whose cumulative offset exceeds i. */
  function OwnerFrom(offsets: seq<int>, i: int, b: nat): (r: nat)
    requires Monotone(offsets) && b < |offsets| - 1
    requires offsets[b] <= i < offsets[|offsets| - 1]
    ensures b <= r < |offsets| - 1 && offsets[r] <= i < offsets[r + 1]
    ensures forall k :: b < k <= r ==> offsets[k] <= i
    decreases |offsets| - b
  {
    if i < offsets[b + 1] then b else OwnerFrom(offsets, i, b + 1)
  }

  /** The block owning global element i: the b with offsets[b] <= i < offsets[b+1]
      (the first such b when empty blocks repeat an offset). */
  function OwnerOf(offsets: seq<int>, i: int): (b: nat)
    requires Monotone(offsets) && |offsets| >= 2 && offsets[0] <= i < offsets[|offsets| - 1]
    ensures b < |offsets| - 1 && offsets[b] <= i < offsets[b + 1]
    ensures forall k :: 0 < k <= b ==> offsets[k] <= i
  {
    OwnerFrom(offsets, i, 0)
  }

  /** Linear scan for the owning block of element i, as the element accessors
      do it, with the intended stopping rule. */
  method FindBlock(offsets: seq<int>, i: int) returns (b: nat)
    requires Monotone(offsets) && |offsets| >= 2 && offsets[0] <= i < offsets[|offsets| - 1]
    ensures b == OwnerOf(offsets, i)
  {
    b := 0;
    while offsets[b + 1] <= i
      invariant b < |offsets| - 1 && offsets[b] <= i
      invariant forall k :: 0 < k <= b ==> offsets[k] <= i
      decreases |offsets| - b
    {
      b := b + 1;
    }
  }

  /** The scan of the element accessors as written: advance while
      offsets[b] < i, i.e. stop at the first b with offsets[b] >= i. */
  function FirstNotBelow(offsets: seq<int>, i: int, b: nat): (r: nat)
    requires b < |offsets| && i <= offsets[|offsets| - 1]
    ensures b <= r < |offsets| && offsets[r] >= i
    decreases |offsets| - b
  {
    if offsets[b] < i then FirstNotBelow(offsets, i, b + 1) else b
  }

  /** The lookup of fe_mesh_num_element_nodes and its siblings as written:
      the (block, local index) it asks about, or None where it returns -1. With
      a single block the scan is skipped and block 0 is used. */
  function FindBlockAsWritten(offsets: seq<int>, i: int): (r: Option<(int, int)>)
    requires |offsets| >= 2 && i <= offsets[|offsets| - 1]
  {
    if |offsets| - 1 > 1 then
      var b := FirstNotBelow(offsets, i, 0);
      if b == |offsets| - 1 then None else Some((b, i - offsets[b]))
    else Some((0, i - offsets[0]))
  }

  lemma FirstNotBelowIs(offsets: seq<int>, i: int, b: nat, r: nat)
    requires b <= r < |offsets| && i <= offsets[|offsets| - 1]
    requires forall j :: b <= j < r ==> offsets[j] < i
    requires offsets[r] >= i
    ensures FirstNotBelow(offsets, i, b) == r
    decreases r - b
  {
    if b < r {
      FirstNotBelowIs(offsets, i, b + 1, r);
    }
  }

  /** For an element strictly inside block k of a multi-block mesh the written
      scan stops one block late: it names block k+1 with a negative local index,
      or gives up with -1 when k is the last block. The owner is block k. */
  lemma FindBlockAsWrittenMisroutesInterior(offsets: seq<int>, k: nat, i: int)
    requires Monotone(offsets) && |offsets| >= 3 && offsets[0] == 0
    requires k < |offsets| - 1 && offsets[k] < i < offsets[k + 1]
    ensures OwnerOf(offsets, i) == k
    ensures k + 1 < |offsets| - 1 ==>
      FindBlockAsWritten(offsets, i) == Some((k + 1, i - offsets[k + 1])) && i - offsets[k + 1] < 0
    ensures k + 1 == |offsets| - 1 ==> FindBlockAsWritten(offsets, i) == None
  {
    FirstNotBelowIs(offsets, i, 0, k + 1);
  }

  /** Two blocks of two elements each: element 1 is routed to block 1 at local index -1. */
  lemma FindBlockAsWrittenExample()
    ensures FindBlockAsWritten([0, 2, 4], 1) == Some((1, -1))
    ensures OwnerOf([0, 2, 4], 1) == 0
  {
    FindBlockAsWrittenMisroutesInterior([0, 2, 4], 0, 1);
  }

  /** The face-count inference of fe_mesh_add_block: the larger of the current
      count and one past the largest face index of a polyhedral block. */
  method InferNumFaces(numFaces: int, faces: seq<int>) returns (n: int)
    ensures n >= numFaces
    ensures forall k :: 0 <= k < |faces| ==> faces[k] < n
    ensures n == numFaces || exists k :: 0 <= k < |faces| && faces[k] == n - 1
  {
    var maxFace := numFaces - 1;
    for k := 0 to |faces|
      invariant maxFace >= numFaces - 1
      invariant forall j :: 0 <= j < k ==> faces[j] <= maxFace
      invariant maxFace == numFaces - 1 || exists j :: 0 <= j < k && faces[j] == maxFace
    {
      if faces[k] > maxFace {
        maxFace := faces[k];
      }
    }
    n := maxFace + 1;
  }

  class FeMesh {
    var blocks: seq<Block>
    var blockNames: seq<string>
    var blockElemOffsets: seq<int>   // mesh -> block element index mapping
    var numNodes: int
    var nodeCoords: seq<Point>
    var numFaces: int
    var faceNodes: Option<Table>     // explicit face -> node connectivity, if set
    var elemSets: seq<Tag>
    var faceSets: seq<Tag>
    var edgeSets: seq<Tag>
    var nodeSets: seq<Tag>
    var sideSets: seq<Tag>

    ghost predicate Valid()
      reads this
    {
      && numNodes >= 4 && |nodeCoords| == numNodes
      && |blockNames| == |blocks|
      && AllValid(blocks, numNodes)
      && blockElemOffsets == PrefixSums(BlockSizes(blocks))
      && Monotone(blockElemOffsets)
      && numFaces >= 0
      && (faceNodes.Some? ==> faceNodes.value.Valid())
    }

    /** fe_mesh_new: an empty mesh over numNodes nodes, all at the origin. */
    constructor (numNodes: int)
      requires numNodes >= 4
      ensures Valid()
      ensures this.numNodes == numNodes && nodeCoords == seq(numNodes, _ => Point(0.0, 0.0, 0.0))
      ensures blocks == [] && blockNames == [] && blockElemOffsets == [0]
      ensures numFaces == 0 && faceNodes == None
      ensures elemSets == [] && faceSets == [] && edgeSets == [] && nodeSets == [] && sideSets == []
    {
      this.numNodes := numNodes;
      blocks := [];
      blockNames := [];
      blockElemOffsets := [0];
      nodeCoords := seq(numNodes, _ => Point(0.0, 0.0, 0.0));
      numFaces := 0;
      faceNodes := None;
      elemSets, faceSets, edgeSets, nodeSets, sideSets := [], [], [], [], [];
    }

    /** fe_mesh_add_block: appends the block and its name, extends the element
        offsets by the block's size and, for a block carrying faces, widens the
        inferred face count to cover every face the block names. */
    method AddBlock(name: string, block: Block)
      requires Valid() && block.Valid() && NodesBelow(block, numNodes)
      modifies this
      ensures Valid()
      ensures blocks == old(blocks) + [block] && blockNames == old(blockNames) + [name]
      ensures blockElemOffsets == old(blockElemOffsets) + [old(NumElements()) + block.numElem]
      ensures NumElements() == old(NumElements()) + block.numElem
      ensures block.elemFaces.None? ==> numFaces == old(numFaces)
      ensures block.elemFaces.Some? ==>
        var faces := block.elemFaces.value.items;
        && numFaces >= old(numFaces)
        && (forall k :: 0 <= k < |faces| ==> faces[k] < numFaces)
        && (numFaces == old(numFaces) || exists k :: 0 <= k < |faces| && faces[k] == numFaces - 1)
      ensures numNodes == old(numNodes) && nodeCoords == old(nodeCoords) && faceNodes == old(faceNodes)
      ensures elemSets == old(elemSets) && faceSets == old(faceSets) && edgeSets == old(edgeSets)
      ensures nodeSets == old(nodeSets) && sideSets == old(sideSets)
    {
      var numBlockElements := block.numElem;
      var numElements := blockElemOffsets[|blockElemOffsets| - 1] + numBlockElements;
      var newBlocks := blocks + [block];
      var newOffsets := blockElemOffsets + [numElements];
      AppendKeepsBlocksValid(blocks, blockElemOffsets, block, numNodes);
      var newNumFaces := numFaces;
      if block.elemFaces.Some? {
        var faces := block.elemFaces.value;
        assert faces.items[..faces.offsets[numBlockElements]] == faces.items;
        newNumFaces := InferNumFaces(numFaces, faces.items[..faces.offsets[numBlockElements]]);
      }
      blocks, blockNames, blockElemOffsets, numFaces := newBlocks, blockNames + [name], newOffsets, newNumFaces;
    }

    /** Appending a valid block and its cumulative offset keeps the block
        list and its offsets consistent. */
    static lemma AppendKeepsBlocksValid(blocks: seq<Block>, offsets: seq<int>, block: Block, numNodes: int)
      requires AllValid(blocks, numNodes) && offsets == PrefixSums(BlockSizes(blocks))
      requires block.Valid() && NodesBelow(block, numNodes)
      ensures AllValid(blocks + [block], numNodes)
      ensures offsets + [offsets[|offsets| - 1] + block.numElem] == PrefixSums(BlockSizes(blocks + [block]))
      ensures Monotone(PrefixSums(BlockSizes(blocks + [block])))
    {
      PrefixSumsAppend(BlockSizes(blocks), block.numElem);
      BlockSizesAppend(blocks, block);
      AllValidAppend(blocks, block, numNodes);
      SizesNonNegative(blocks + [block], numNodes);
    }

    static ghost predicate AllValid(blocks: seq<Block>, numNodes: int)
    {
      forall k :: 0 <= k < |blocks| ==> blocks[k].Valid() && NodesBelow(blocks[k], numNodes)
    }

    static lemma AllValidAppend(blocks: seq<Block>, block: Block, numNodes: int)
      requires AllValid(blocks, numNodes) && block.Valid() && NodesBelow(block, numNodes)
      ensures AllValid(blocks + [block], numNodes)
    {
      forall k | 0 <= k < |blocks| + 1
        ensures (blocks + [block])[k].Valid() && NodesBelow((blocks + [block])[k], numNodes)
      {
        if k < |blocks| {
          assert (blocks + [block])[k] == blocks[k];
        }
      }
    }

    static lemma SizesNonNegative(blocks: seq<Block>, numNodes: int)
      requires AllValid(blocks, numNodes)
      ensures Monotone(PrefixSums(BlockSizes(blocks)))
    {
      PrefixSumsMonotone(BlockSizes(blocks));
    }

    function NumBlocks(): nat
      reads this
    {
      |blocks|
    }

    /** fe_mesh_next_block: the block under the cursor and its name, advancing
        the cursor; nothing once the cursor has passed the last block. Setting
        the cursor back to 0 restarts the traversal. */
    method NextBlock(pos: int) returns (next: Option<(string, Block)>, newPos: int)
      requires Valid() && pos >= 0
      ensures next.Some? <==> pos < |blocks|
      ensures next.Some? ==> next.value == (blockNames[pos], blocks[pos]) && newPos == pos + 1
      ensures next.None? ==> newPos == pos
    {
      if pos >= |blocks| {
        return None, pos;
      }
      next := Some((blockNames[pos], blocks[pos]));
      newPos := pos + 1;
    }

    /** fe_mesh_num_elements: the last cumulative offset, i.e. the total size of
        all blocks. */
    function NumElements(): (n: int)
      reads this
      requires Valid()
      ensures n == Sum(BlockSizes(blocks)) && n >= 0
    {
      SumNonNegative(BlockSizes(blocks));
      blockElemOffsets[|blockElemOffsets| - 1]
    }

    /** The block owning global element i, with i's local index inside it in range. */
    function Owner(i: int): (b: nat)
      reads this
      requires Valid() && 0 <= i < NumElements()
      ensures b == OwnerOf(blockElemOffsets, i) && b < |blocks|
      ensures 0 <= i - blockElemOffsets[b] < blocks[b].numElem
    {
      var b := OwnerOf(blockElemOffsets, i);
      PrefixSumsStep(BlockSizes(blocks), b);
      b
    }

    /** fe_mesh_num_element_nodes: asks the owning block about its local element. */
    method NumElementNodes(i: int) returns (n: int)
      requires Valid() && 0 <= i < NumElements()
      ensures var b := Owner(i);
        n == Blocks.NumElementNodes(blocks[b], i - blockElemOffsets[b])
    {
      var b := FindBlock(blockElemOffsets, i);
      assert b == Owner(i);
      var e := i - blockElemOffsets[b];
      n := Blocks.NumElementNodes(blocks[b], e);
    }

    /** fe_mesh_get_element_nodes: copies the owning block's local element nodes. */
    method GetElementNodes(i: int, buf: array<int>)
      requires Valid() && 0 <= i < NumElements()
      requires var b := Owner(i);
        blocks[b].elemNodes.Some? ==> buf.Length >= Blocks.NumElementNodes(blocks[b], i - blockElemOffsets[b])
      modifies buf
      ensures var b := Owner(i); var e := i - blockElemOffsets[b];
        if blocks[b].elemNodes.Some? then
          buf[..Blocks.NumElementNodes(blocks[b], e)] == ElementNodes(blocks[b], e)
          && buf[Blocks.NumElementNodes(blocks[b], e)..] == old(buf[Blocks.NumElementNodes(blocks[b], e)..])
        else buf[..] == old(buf[..])
    {
      var b := FindBlock(blockElemOffsets, i);
      assert b == Owner(i);
      var e := i - blockElemOffsets[b];
      Blocks.GetElementNodes(blocks[b], e, buf);
    }

    /** fe_mesh_num_element_faces: asks the owning block about its local element. */
    method NumElementFaces(i: int) returns (n: int)
      requires Valid() && 0 <= i < NumElements()
      ensures var b := Owner(i);
        n == Blocks.NumElementFaces(blocks[b], i - blockElemOffsets[b])
      ensures var b := Owner(i);
        blocks[b].elemFaces.Some? ==> n == |ElementFaces(blocks[b], i - blockElemOffsets[b])|
    {
      var b := FindBlock(blockElemOffsets, i);
      assert b == Owner(i);
      var e := i - blockElemOffsets[b];
      n := Blocks.NumElementFaces(blocks[b], e);
    }

    /** fe_mesh_get_element_faces: copies the owning block's local element faces. */
    method GetElementFaces(i: int, buf: array<int>)
      requires Valid() && 0 <= i < NumElements()
      requires var b := Owner(i);
        blocks[b].elemFaces.Some? ==> buf.Length >= Blocks.NumElementFaces(blocks[b], i - blockElemOffsets[b])
      modifies buf
      ensures var b := Owner(i); var e := i - blockElemOffsets[b];
        if blocks[b].elemFaces.Some? then
          buf[..Blocks.NumElementFaces(blocks[b], e)] == ElementFaces(blocks[b], e)
          && buf[Blocks.NumElementFaces(blocks[b], e)..] == old(buf[Blocks.NumElementFaces(blocks[b], e)..])
        else buf[..] == old(buf[..])
    {
      var b := FindBlock(blockElemOffsets, i);
      assert b == Owner(i);
      var e := i - blockElemOffsets[b];
      Blocks.GetElementFaces(blocks[b], e, buf);
    }

    function NumFaces(): int
      reads this
    {
      numFaces
    }

    /** fe_mesh_num_face_nodes: the face's node count, or -1 when no face->node
        connectivity has been set. */
    function NumFaceNodes(f: int): (n: int)
      reads this
      requires Valid() && (faceNodes.Some? ==> 0 <= f < faceNodes.value.Count())
      ensures faceNodes.None? <==> n == -1
      ensures faceNodes.Some? ==> n == |faceNodes.value.Entry(f)|
    {
      if faceNodes.Some? then faceNodes.value.Size(f) else -1
    }

    /** fe_mesh_get_face_nodes: copies exactly the face's nodes into the front of
        buf; without face->node connectivity buf is left alone. */
    method GetFaceNodes(f: int, buf: array<int>)
      requires Valid() && (faceNodes.Some? ==> 0 <= f < faceNodes.value.Count())
      requires faceNodes.Some? ==> buf.Length >= NumFaceNodes(f)
      modifies buf
      ensures faceNodes.None? ==> buf[..] == old(buf[..])
      ensures faceNodes.Some? ==>
        buf[..NumFaceNodes(f)] == faceNodes.value.Entry(f)
        && buf[NumFaceNodes(f)..] == old(buf[NumFaceNodes(f)..])
    {
      if faceNodes.Some? {
        CopyInto(faceNodes.value.Entry(f), buf, 0);
      }
    }

    /** fe_mesh_set_face_nodes: replaces the face count and the face->node
        table; face f gets faceNodeCounts[f] consecutive nodes. */
    method SetFaceNodes(count: int, faceNodeCounts: seq<int>, nodes: seq<int>)
      requires Valid() && count > 0 && |faceNodeCounts| >= count
      requires NonNegative(faceNodeCounts[..count]) && |nodes| >= Sum(faceNodeCounts[..count])
      modifies this
      ensures Valid() && numFaces == count
      ensures faceNodes.Some? && faceNodes.value.Count() == count
      ensures faceNodes.value.offsets == PrefixSums(faceNodeCounts[..count])
      ensures faceNodes.value.items == nodes[..Sum(faceNodeCounts[..count])]
      ensures forall f :: 0 <= f < count ==> NumFaceNodes(f) == faceNodeCounts[f]
      ensures blocks == old(blocks) && blockNames == old(blockNames) && blockElemOffsets == old(blockElemOffsets)
      ensures numNodes == old(numNodes) && nodeCoords == old(nodeCoords)
      ensures elemSets == old(elemSets) && faceSets == old(faceSets) && edgeSets == old(edgeSets)
      ensures nodeSets == old(nodeSets) && sideSets == old(sideSets)
    {
      var counts := faceNodeCounts[..count];
      numFaces := count;
      var offsets := BuildOffsets(counts);
      PrefixSumsMonotone(counts);
      faceNodes := Some(Table(offsets, nodes[..offsets[count]]));
      forall f | 0 <= f < count ensures faceNodes.value.Size(f) == faceNodeCounts[f] {
        PrefixSumsStep(counts, f);
      }
    }

    function NumNodes(): int
      reads this
    {
      numNodes
    }

    /** Writing the node positions through the pointer fe_mesh_node_positions
        hands out: the only way positions change after construction. */
    method SetNodePositions(coords: seq<Point>)
      requires Valid() && |coords| == numNodes
      modifies this`nodeCoords
      ensures Valid() && nodeCoords == coords
    {
      nodeCoords := coords;
    }

    /** The entity sets of one kind. */
    function SetsOf(kind: SetKind): seq<Tag>
      reads this
    {
      match kind
      case ElementSet => elemSets
      case FaceSet => faceSets
      case EdgeSet => edgeSets
      case NodeSet => nodeSets
      case SideSet => sideSets
    }

    /** fe_mesh_create_{element,face,edge,node,side}_set: registers a named set.
        The C function returns a buffer of ReservedSize(kind, size) ints for the
        caller to fill; here the caller passes what it would write there. */
    method CreateSet(kind: SetKind, name: string, size: nat, contents: seq<int>)
      requires Valid() && |contents| == ReservedSize(kind, size)
      modifies this
      ensures Valid()
      ensures SetsOf(kind) == old(SetsOf(kind)) + [Tag(name, contents)]
      ensures forall k :: k != kind ==> SetsOf(k) == old(SetsOf(k))
      ensures blocks == old(blocks) && blockNames == old(blockNames) && blockElemOffsets == old(blockElemOffsets)
      ensures numNodes == old(numNodes) && nodeCoords == old(nodeCoords)
      ensures numFaces == old(numFaces) && faceNodes == old(faceNodes)
    {
      var tag := Tag(name, contents);
      match kind
      case ElementSet => elemSets := elemSets + [tag];
      case FaceSet => faceSets := faceSets + [tag];
      case EdgeSet => edgeSets := edgeSets + [tag];
      case NodeSet => nodeSets := nodeSets + [tag];
      case SideSet => sideSets := sideSets + [tag];
    }

    /** fe_mesh_next_{element,face,edge,node,side}_set. */
    method NextSet(kind: SetKind, pos: int) returns (next: Option<Tag>, newPos: int)
      requires pos >= 0
      ensures next.Some? <==> pos < |SetsOf(kind)|
      ensures next.Some? ==> next.value == SetsOf(kind)[pos] && newPos == pos + 1
      ensures next.None? ==> newPos == pos
    {
      next, newPos := NextTag(SetsOf(kind), pos).0, NextTag(SetsOf(kind), pos).1;
    }

    /** fe_mesh_num_{element,face,edge,node,side}_sets: counts the sets by
        traversing them from a fresh cursor. */
    method NumSets(kind: SetKind) returns (n: int)
      ensures n == |SetsOf(kind)|
    {
      var pos := 0;
      n := 0;
      var next;
      next, pos := NextSet(kind, pos);
      while next.Some?
        invariant pos <= |SetsOf(kind)|
        invariant next.Some? ==> pos == n + 1
        invariant next.None? ==> pos == n == |SetsOf(kind)|
        decreases |SetsOf(kind)| - n
      {
        n := n + 1;
        next, pos := NextSet(kind, pos);
      }
    }

    /** A mesh equal field by field to other. */
    constructor Copy(other: FeMesh)
      requires other.Valid()
      ensures Valid()
      ensures blocks == other.blocks && blockNames == other.blockNames && blockElemOffsets == other.blockElemOffsets
      ensures numNodes == other.numNodes && nodeCoords == other.nodeCoords
      ensures numFaces == other.numFaces && faceNodes == other.faceNodes
      ensures elemSets == other.elemSets && faceSets == other.faceSets && edgeSets == other.edgeSets
      ensures nodeSets == other.nodeSets && sideSets == other.sideSets
    {
      blocks, blockNames, blockElemOffsets := other.blocks, other.blockNames, other.blockElemOffsets;
      numNodes, nodeCoords := other.numNodes, other.nodeCoords;
      numFaces, faceNodes := other.numFaces, other.faceNodes;
      elemSets, faceSets, edgeSets := other.elemSets, other.faceSets, other.edgeSets;
      nodeSets, sideSets := other.nodeSets, other.sideSets;
    }

    /** fe_mesh_clone with the exact-copy promise of its declaration kept. */
    method Clone() returns (copy: FeMesh)
      requires Valid()
      ensures fresh(copy) && copy.Valid()
      ensures copy.blocks == blocks && copy.blockNames == blockNames && copy.blockElemOffsets == blockElemOffsets
      ensures copy.numNodes == numNodes && copy.nodeCoords == nodeCoords
      ensures copy.numFaces == numFaces && copy.faceNodes == faceNodes
      ensures copy.elemSets == elemSets && copy.faceSets == faceSets && copy.edgeSets == edgeSets
      ensures copy.nodeSets == nodeSets && copy.sideSets == sideSets
    {
      copy := new FeMesh.Copy(this);
    }

    /** fe_mesh_clone as written: blocks and names are stored into arrays that
        stay empty, so the copy has no blocks; the offsets and node positions are
        copied; faces and entity sets are never set (empty here). A mesh with
        any block therefore yields a copy whose offsets name missing blocks. */
    method CloneAsWritten() returns (copy: FeMesh)
      requires Valid()
      ensures fresh(copy)
      ensures copy.blocks == [] && copy.blockElemOffsets == blockElemOffsets && copy.nodeCoords == nodeCoords
      ensures copy.numNodes == numNodes && copy.blockNames == []
      ensures copy.numFaces == 0 && copy.faceNodes == None
      ensures copy.elemSets == [] && copy.faceSets == [] && copy.edgeSets == []
      ensures copy.nodeSets == [] && copy.sideSets == []
      ensures |blocks| > 0 ==> !copy.Valid()
    {
      copy := new FeMesh(numNodes);
      copy.blockElemOffsets := blockElemOffsets;
      copy.nodeCoords := nodeCoords;
    }
  }
}
