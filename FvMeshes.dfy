/** The finite-volume mesh (mesh_t) as the translations fill it: cell->face,
    face->node and face->cell connectivity, node positions and the cell, face,
    edge and node tags. Geometry, edges and ghost cells are not part of it. */
module FvMeshes {
  import opened Connectivity
  import opened EntitySets
  import opened FeMeshes

  datatype FvMesh = FvMesh(
    numCells: nat,
    numFaces: nat,
    numNodes: nat,
    cellFaces: Table,      // cell_face_offsets / cell_faces
    faceNodes: Table,      // face_node_offsets / face_nodes
    faceCells: seq<int>,   // two slots per face, -1 where empty
    nodes: seq<Point>,
    cellTags: seq<Tag>,
    faceTags: seq<Tag>,
    edgeTags: seq<Tag>,
    nodeTags: seq<Tag>)
  {
    /** The shape a well-formed FV mesh has: one cell->face entry per cell,
        one face->node entry per face, two face->cell slots per face and one
        position per node. */
    ghost predicate Valid()
    {
      && cellFaces.Valid() && cellFaces.Count() == numCells
      && faceNodes.Valid() && faceNodes.Count() == numFaces
      && |faceCells| == 2 * numFaces
      && |nodes| == numNodes
    }
  }
}
