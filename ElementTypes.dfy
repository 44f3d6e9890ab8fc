/** The closed enumeration of finite-element types declared in fe_mesh.h, and
    the facts fixed by a type: its shape family and its node count. */
module ElementTypes {
  import opened Wrappers

  datatype ElementType =
    | Invalid
    | Tetrahedron4 | Tetrahedron8 | Tetrahedron10 | Tetrahedron14
    | Pyramid5 | Pyramid13
    | Wedge6 | Wedge15 | Wedge16
    | Hexahedron8 | Hexahedron9 | Hexahedron20 | Hexahedron27
    | Polyhedron

  /** The four shape families that have fixed face templates. */
  datatype Shape = Tetrahedron | Pyramid | Wedge | Hexahedron

  /** The shape family of a type; none for Invalid and for Polyhedron. */
  function ShapeOf(t: ElementType): Option<Shape>
  {
    match t
    case Tetrahedron4 | Tetrahedron8 | Tetrahedron10 | Tetrahedron14 => Some(Tetrahedron)
    case Pyramid5 | Pyramid13 => Some(Pyramid)
    case Wedge6 | Wedge15 | Wedge16 => Some(Wedge)
    case Hexahedron8 | Hexahedron9 | Hexahedron20 | Hexahedron27 => Some(Hexahedron)
    case Invalid | Polyhedron => None
  }

  predicate HasFixedArity(t: ElementType)
  {
    ShapeOf(t).Some?
  }

  /** Corner (vertex) nodes of a shape: the only nodes its faces are built from. */
  function CornerNodes(s: Shape): nat
  {
    match s
    case Tetrahedron => 4
    case Pyramid => 5
    case Wedge => 6
    case Hexahedron => 8
  }

  /** The number of nodes every element of a fixed-arity type has. The corner
      nodes come first, so an element always has at least its shape's corners. */
  function NodesPerElement(t: ElementType): (n: nat)
    requires HasFixedArity(t)
    ensures n >= CornerNodes(ShapeOf(t).value)
  {
    match t
    case Tetrahedron4 => 4
    case Tetrahedron8 => 8
    case Tetrahedron10 => 10
    case Tetrahedron14 => 14
    case Pyramid5 => 5
    case Pyramid13 => 13
    case Wedge6 => 6
    case Wedge15 => 15
    case Wedge16 => 16
    case Hexahedron8 => 8
    case Hexahedron9 => 9
    case Hexahedron20 => 20
    case Hexahedron27 => 27
  }

  /** Within a family, the node count tells the variants apart. */
  lemma NodeCountDeterminesVariant(t: ElementType, u: ElementType)
    requires HasFixedArity(t) && HasFixedArity(u)
    requires ShapeOf(t) == ShapeOf(u) && NodesPerElement(t) == NodesPerElement(u)
    ensures t == u
  {
  }
}
