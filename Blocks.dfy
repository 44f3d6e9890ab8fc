/** Element blocks (fe_block_t): a run of elements of one type. A fixed-arity
    block stores element->node connectivity; a polyhedral block stores
    element->face connectivity whose face indices are mesh-global. A block is
    never changed after it is built, so it is a value here. */
module Blocks {
  import opened Wrappers
  import opened Connectivity
  import opened ElementTypes

  datatype Block = Block(
    numElem: int,
    elemType: ElementType,
    elemFaces: Option<Table>,   // present only for polyhedral blocks
    elemNodes: Option<Table>)   // present only for fixed-arity blocks
  {
    ghost predicate Valid()
    {
      && numElem > 0
      && (elemNodes.Some? ==> elemNodes.value.Valid() && elemNodes.value.Count() == numElem)
      && (elemFaces.Some? ==> elemFaces.value.Valid() && elemFaces.value.Count() == numElem)
      && if elemType == Polyhedron then elemFaces.Some? && elemNodes.None?
         else
           && HasFixedArity(elemType) && elemNodes.Some? && elemFaces.None?
           && forall i :: 0 <= i < numElem ==> elemNodes.value.Size(i) == NodesPerElement(elemType)
    }
  }

  /** Every node a block references lies below numNodes. */
  ghost predicate NodesBelow(b: Block, numNodes: int)
  {
    b.elemNodes.Some? ==> forall k :: 0 <= k < |b.elemNodes.value.items| ==> 0 <= b.elemNodes.value.items[k] < numNodes
  }

  /** fe_block_new: numElem elements of a fixed-arity type, numElemNodes
      consecutive node indices each. */
  method NewBlock(numElem: int, elemType: ElementType, numElemNodes: int, elemNodeIndices: seq<int>)
    returns (b: Block)
    requires numElem > 0
    requires HasFixedArity(elemType) && numElemNodes == NodesPerElement(elemType)
    requires |elemNodeIndices| >= numElem * numElemNodes
    ensures b.Valid() && b.numElem == numElem && b.elemType == elemType && b.elemNodes.Some?
    ensures forall i :: 0 <= i < numElem ==>
      NumElementNodes(b, i) == numElemNodes
      && ElementNodes(b, i) == elemNodeIndices[i * numElemNodes..(i + 1) * numElemNodes]
  {
    var counts := seq(numElem, _ => numElemNodes);
    var offsets := BuildOffsets(counts);
    PrefixSumsMonotone(counts);
    PrefixSumsConstant(numElemNodes, numElem, numElem);
    var nodes := elemNodeIndices[..offsets[numElem]];
    var table := Table(offsets, nodes);
    b := Block(numElem, elemType, None, Some(table));
    forall i | 0 <= i < numElem
      ensures table.Size(i) == numElemNodes
      ensures table.Entry(i) == elemNodeIndices[i * numElemNodes..(i + 1) * numElemNodes]
    {
      UniformEntry(numElemNodes, numElem, elemNodeIndices, i);
    }
  }

  /** Entry i of the uniform table over items is the i-th run of n items. */
  lemma UniformEntry(n: nat, m: nat, items: seq<int>, i: int)
    requires 0 <= i < m && |items| >= m * n
    ensures var t := Table(PrefixSums(seq(m, _ => n)), items[..m * n]);
      t.offsets[i] == i * n && t.offsets[i + 1] == (i + 1) * n
      && (i + 1) * n <= m * n
      && items[..m * n][i * n..(i + 1) * n] == items[i * n..(i + 1) * n]
  {
    PrefixSumsConstant(n, m, i);
    PrefixSumsConstant(n, m, i + 1);
    PrefixSumsConstant(n, m, m);
    MulMonotone(i + 1, m, n);
  }

  lemma MulMonotone(a: int, b: int, n: nat)
    requires a <= b
    ensures a * n <= b * n
  {
  }

  /** polyhedral_fe_block_new: element i has numElemFaces[i] faces, taken in
      order from elemFaceIndices. */
  method NewPolyhedralBlock(numElem: int, numElemFaces: seq<int>, elemFaceIndices: seq<int>)
    returns (b: Block)
    requires numElem > 0 && |numElemFaces| >= numElem
    requires NonNegative(numElemFaces[..numElem])
    requires |elemFaceIndices| >= Sum(numElemFaces[..numElem])
    ensures b.Valid() && b.numElem == numElem && b.elemType == Polyhedron && b.elemFaces.Some?
    ensures |b.elemFaces.value.offsets| == numElem + 1
    ensures b.elemFaces.value.offsets == PrefixSums(numElemFaces[..numElem])
    ensures b.elemFaces.value.items == elemFaceIndices[..Sum(numElemFaces[..numElem])]
    ensures forall i :: 0 <= i < numElem ==> NumElementFaces(b, i) == numElemFaces[i]
  {
    var counts := numElemFaces[..numElem];
    var offsets := BuildOffsets(counts);
    PrefixSumsMonotone(counts);
    var faces := elemFaceIndices[..offsets[numElem]];
    b := Block(numElem, Polyhedron, Some(Table(offsets, faces)), None);
    forall i | 0 <= i < numElem ensures b.elemFaces.value.Size(i) == numElemFaces[i] {
      PrefixSumsStep(counts, i);
    }
  }

  /** The block built from a list of per-element face lists. */
  lemma PolyhedralBlockEntries(b: Block, lists: seq<seq<int>>)
    requires b.Valid() && b.elemFaces.Some? && |lists| == b.numElem
    requires b.elemFaces.value == FromLists(lists)
    ensures forall i :: 0 <= i < b.numElem ==> ElementFaces(b, i) == lists[i]
  {
    forall i | 0 <= i < b.numElem ensures ElementFaces(b, i) == lists[i] {
      FromListsEntry(lists, i);
    }
  }

  /** Number of elements in the block. */
  function NumElements(b: Block): int
  {
    b.numElem
  }

  /** fe_block_num_element_nodes: fixed by the type, or -1 for a polyhedral
      block, whose node lists are not known until it joins a mesh. */
  function NumElementNodes(b: Block, i: int): (n: int)
    requires b.Valid() && 0 <= i < b.numElem
    ensures b.elemType == Polyhedron ==> n == -1
    ensures b.elemType != Polyhedron ==> n == NodesPerElement(b.elemType)
  {
    if b.elemNodes.Some? then b.elemNodes.value.Size(i) else -1
  }

  /** The node indices of element i. */
  function ElementNodes(b: Block, i: int): seq<int>
    requires b.Valid() && 0 <= i < b.numElem && b.elemNodes.Some?
  {
    b.elemNodes.value.Entry(i)
  }

  /** fe_block_get_element_nodes: copies exactly element i's nodes into the
      front of buf; a polyhedral block leaves buf alone. */
  method GetElementNodes(b: Block, i: int, buf: array<int>)
    requires b.Valid() && 0 <= i < b.numElem
    requires b.elemNodes.Some? ==> buf.Length >= NumElementNodes(b, i)
    modifies buf
    ensures b.elemNodes.None? ==> buf[..] == old(buf[..])
    ensures b.elemNodes.Some? ==>
      buf[..NumElementNodes(b, i)] == ElementNodes(b, i)
      && buf[NumElementNodes(b, i)..] == old(buf[NumElementNodes(b, i)..])
  {
    if b.elemNodes.Some? {
      CopyInto(ElementNodes(b, i), buf, 0);
    }
  }

  /** fe_block_num_element_faces: the element's face count, or -1 for a
      fixed-arity block, which does not know its faces. */
  function NumElementFaces(b: Block, i: int): (n: int)
    requires b.Valid() && 0 <= i < b.numElem
    ensures b.elemType != Polyhedron ==> n == -1
    ensures b.elemType == Polyhedron ==> n >= 0
    ensures b.elemFaces.Some? ==> n == |b.elemFaces.value.Entry(i)|
  {
    if b.elemFaces.Some? then b.elemFaces.value.Size(i) else -1
  }

  /** The face indices of element i. */
  function ElementFaces(b: Block, i: int): seq<int>
    requires b.Valid() && 0 <= i < b.numElem && b.elemFaces.Some?
  {
    b.elemFaces.value.Entry(i)
  }

  /** fe_block_get_element_faces: copies exactly element i's faces into the
      front of buf; a fixed-arity block leaves buf alone. */
  method GetElementFaces(b: Block, i: int, buf: array<int>)
    requires b.Valid() && 0 <= i < b.numElem
    requires b.elemFaces.Some? ==> buf.Length >= NumElementFaces(b, i)
    modifies buf
    ensures b.elemFaces.None? ==> buf[..] == old(buf[..])
    ensures b.elemFaces.Some? ==>
      buf[..NumElementFaces(b, i)] == ElementFaces(b, i)
      && buf[NumElementFaces(b, i)..] == old(buf[NumElementFaces(b, i)..])
  {
    if b.elemFaces.Some? {
      CopyInto(ElementFaces(b, i), buf, 0);
    }
  }

  /** Length of the offset array fe_block_new allocates: numElemNodes * numElem
      ints, where numElem + 1 are written. */
  function NodeOffsetAllocationAsWritten(numElem: int, numElemNodes: int): int
  {
    numElemNodes * numElem
  }

  /** Length of the offset array polyhedral_fe_block_new allocates: the total
      face count, where numElem + 1 ints are written. */
  function FaceOffsetAllocationAsWritten(numElem: int, numElemFaces: seq<int>): int
    requires 0 <= numElem <= |numElemFaces|
  {
    Sum(numElemFaces[..numElem])
  }

  /** Under a fixed arity (at least four nodes) the node offset array is large
      enough. The face offset array is short by at least one int whenever no
      element has more than one face, and large enough whenever every element
      has at least two. */
  lemma OffsetAllocationAsWritten(numElem: int, t: ElementType, numElemFaces: seq<int>)
    requires 0 < numElem <= |numElemFaces| && HasFixedArity(t)
    ensures NodeOffsetAllocationAsWritten(numElem, NodesPerElement(t)) >= numElem + 1
    ensures (forall i :: 0 <= i < numElem ==> numElemFaces[i] <= 1) ==>
      FaceOffsetAllocationAsWritten(numElem, numElemFaces) < numElem + 1
    ensures (forall i :: 0 <= i < numElem ==> numElemFaces[i] >= 2) ==>
      FaceOffsetAllocationAsWritten(numElem, numElemFaces) >= numElem + 1
  {
    MulMonotone(2, NodesPerElement(t), numElem);
    var counts := numElemFaces[..numElem];
    if forall i :: 0 <= i < numElem ==> numElemFaces[i] <= 1 {
      SumAtMost(counts, 1);
    }
    if forall i :: 0 <= i < numElem ==> numElemFaces[i] >= 2 {
      SumAtLeast(counts, 2);
    }
  }

  /** fe_block_clone as written: only the element count and type are copied;
      the connectivity pointers of the copy are never set (absent here). */
  function CloneAsWritten(b: Block): Block
  {
    Block(b.numElem, b.elemType, None, None)
  }

  /** The copy is not the block it was made from, and not even a valid block. */
  lemma CloneAsWrittenLosesConnectivity(b: Block)
    requires b.Valid()
    ensures CloneAsWritten(b) != b && !CloneAsWritten(b).Valid()
  {
  }
}
