/** get_element_type from exodus_file.c: an element-type name as the
    mesh-exchange format spells it, and a node count, mapped to ElementType.
    A failed debug assertion on the node count is reported as InvalidTopology. */
module ExodusTypes {
  import opened Wrappers
  import opened ElementTypes

  /** ASCII lower-casing, as the C library's tolower does in the "C" locale. */
  function Lower(c: char): char
  {
    if 'A' <= c <= 'Z' then (c as int + 32) as char else c
  }

  function LowerAll(s: string): (r: string)
    ensures |r| == |s| && forall i :: 0 <= i < |s| ==> r[i] == Lower(s[i])
  {
    seq(|s|, i requires 0 <= i < |s| => Lower(s[i]))
  }

  /** string_ncasecmp(name, prefix, |prefix|) == 0: the first |prefix| characters
      of name agree with prefix up to case. A shorter name hits its terminator
      first and does not match. */
  predicate MatchesIgnoringCase(name: string, prefix: string)
  {
    |name| >= |prefix| && forall i :: 0 <= i < |prefix| ==> Lower(name[i]) == Lower(prefix[i])
  }

  function TetrahedronVariant(n: int): (r: Result<ElementType, MeshError>)
    ensures r.Ok? ==> ShapeOf(r.value) == Some(Tetrahedron) && NodesPerElement(r.value) == n
    ensures r.Err? <==> n !in {4, 8, 10, 14}
  {
    if n == 4 then Ok(Tetrahedron4)
    else if n == 8 then Ok(Tetrahedron8)
    else if n == 10 then Ok(Tetrahedron10)
    else if n == 14 then Ok(Tetrahedron14)
    else Err(InvalidTopology)
  }

  /** The code names FE_HEXAHEDRON_5 and FE_HEXAHEDRON_13 here, which the
      enumeration does not declare; the pyramid variants are meant. */
  function PyramidVariant(n: int): (r: Result<ElementType, MeshError>)
    ensures r.Ok? ==> ShapeOf(r.value) == Some(Pyramid) && NodesPerElement(r.value) == n
    ensures r.Err? <==> n !in {5, 13}
  {
    if n == 5 then Ok(Pyramid5)
    else if n == 13 then Ok(Pyramid13)
    else Err(InvalidTopology)
  }

  /** The wedge branch as written: a 16-node wedge is reported as FE_WEDGE_15. */
  function WedgeVariantAsWritten(n: int): (r: Result<ElementType, MeshError>)
    ensures r.Ok? ==> ShapeOf(r.value) == Some(Wedge)
    ensures r.Err? <==> n !in {6, 15, 16}
  {
    if n == 6 then Ok(Wedge6)
    else if n == 15 then Ok(Wedge15)
    else if n == 16 then Ok(Wedge15)
    else Err(InvalidTopology)
  }

  /** The evident intent: each wedge node count names its own variant. */
  function WedgeVariant(n: int): (r: Result<ElementType, MeshError>)
    ensures r.Ok? ==> ShapeOf(r.value) == Some(Wedge) && NodesPerElement(r.value) == n
    ensures r.Err? <==> n !in {6, 15, 16}
  {
    if n == 6 then Ok(Wedge6)
    else if n == 15 then Ok(Wedge15)
    else if n == 16 then Ok(Wedge16)
    else Err(InvalidTopology)
  }

  /** The as-written wedge branch disagrees with the node count it was given. */
  lemma WedgeSixteenMisread()
    ensures WedgeVariantAsWritten(16) == Ok(Wedge15)
    ensures NodesPerElement(WedgeVariantAsWritten(16).value) != 16
    ensures WedgeVariant(16) == Ok(Wedge16)
  {
  }

  function HexahedronVariant(n: int): (r: Result<ElementType, MeshError>)
    ensures r.Ok? ==> ShapeOf(r.value) == Some(Hexahedron) && NodesPerElement(r.value) == n
    ensures r.Err? <==> n !in {8, 9, 20, 27}
  {
    if n == 8 then Ok(Hexahedron8)
    else if n == 9 then Ok(Hexahedron9)
    else if n == 20 then Ok(Hexahedron20)
    else if n == 27 then Ok(Hexahedron27)
    else Err(InvalidTopology)
  }

  /** The element type named by an Exodus type string and a node count. The
      prefixes are tested in order; no two of them share a first letter, so at
      most one matches. A name matching none is Invalid whatever the count. */
  function GetElementType(name: string, numNodesPerElem: int): (r: Result<ElementType, MeshError>)
    ensures r.Ok? && HasFixedArity(r.value) ==> NodesPerElement(r.value) == numNodesPerElem
    ensures r == Ok(Polyhedron) <==> MatchesIgnoringCase(name, "nfaced") && numNodesPerElem == 0
    ensures MatchesIgnoringCase(name, "nfaced") ==> (r.Ok? <==> numNodesPerElem == 0)
    ensures MatchesIgnoringCase(name, "tetra") ==>
      (r.Ok? <==> numNodesPerElem in {4, 8, 10, 14}) && (r.Ok? ==> ShapeOf(r.value) == Some(Tetrahedron))
    ensures MatchesIgnoringCase(name, "pyramid") ==>
      (r.Ok? <==> numNodesPerElem in {5, 13}) && (r.Ok? ==> ShapeOf(r.value) == Some(Pyramid))
    ensures MatchesIgnoringCase(name, "wedge") ==>
      (r.Ok? <==> numNodesPerElem in {6, 15, 16}) && (r.Ok? ==> ShapeOf(r.value) == Some(Wedge))
    ensures MatchesIgnoringCase(name, "hex") ==>
      (r.Ok? <==> numNodesPerElem in {8, 9, 20, 27}) && (r.Ok? ==> ShapeOf(r.value) == Some(Hexahedron))
    ensures r == Ok(Invalid) <==>
      !MatchesIgnoringCase(name, "nfaced") && !MatchesIgnoringCase(name, "tetra")
      && !MatchesIgnoringCase(name, "pyramid") && !MatchesIgnoringCase(name, "wedge")
      && !MatchesIgnoringCase(name, "hex")
  {
    FirstLetterDecides(name);
    if MatchesIgnoringCase(name, "nfaced") then
      if numNodesPerElem == 0 then Ok(Polyhedron) else Err(InvalidTopology)
    else if MatchesIgnoringCase(name, "tetra") then TetrahedronVariant(numNodesPerElem)
    else if MatchesIgnoringCase(name, "pyramid") then PyramidVariant(numNodesPerElem)
    else if MatchesIgnoringCase(name, "wedge") then WedgeVariant(numNodesPerElem)
    else if MatchesIgnoringCase(name, "hex") then HexahedronVariant(numNodesPerElem)
    else Ok(Invalid)
  }

  /** A name matching a prefix starts with that prefix's letter, and the five
      prefixes start with five different letters. */
  lemma FirstLetterDecides(name: string)
    ensures MatchesIgnoringCase(name, "nfaced") ==> Lower(name[0]) == 'n'
    ensures MatchesIgnoringCase(name, "tetra") ==> Lower(name[0]) == 't'
    ensures MatchesIgnoringCase(name, "pyramid") ==> Lower(name[0]) == 'p'
    ensures MatchesIgnoringCase(name, "wedge") ==> Lower(name[0]) == 'w'
    ensures MatchesIgnoringCase(name, "hex") ==> Lower(name[0]) == 'h'
  {
  }

  /** Case does not matter: a name and its lower-cased form map alike. */
  lemma GetElementTypeIgnoresCase(name: string, n: int)
    ensures GetElementType(LowerAll(name), n) == GetElementType(name, n)
  {
    forall prefix: string ensures MatchesIgnoringCase(LowerAll(name), prefix) == MatchesIgnoringCase(name, prefix) {
      if |name| >= |prefix| {
        forall i | 0 <= i < |prefix| ensures Lower(LowerAll(name)[i]) == Lower(name[i]) { }
      }
    }
  }

  /** Only the prefix is compared: anything may follow it. */
  lemma GetElementTypeReadsOnlyPrefix(prefix: string, rest: string, n: int)
    requires prefix in {"nfaced", "tetra", "pyramid", "wedge", "hex"}
    ensures GetElementType(prefix + rest, n) == GetElementType(prefix, n)
  {
    var name := prefix + rest;
    forall p: string | p in {"nfaced", "tetra", "pyramid", "wedge", "hex"}
      ensures MatchesIgnoringCase(name, p) == MatchesIgnoringCase(prefix, p)
    {
      assert name[0] == prefix[0];
      if |prefix| >= |p| {
        assert forall i :: 0 <= i < |p| ==> name[i] == prefix[i];
      }
    }
  }

  /** The canonical Exodus name of each family. */
  function ExodusName(s: Shape): string
  {
    match s
    case Tetrahedron => "TETRA"
    case Pyramid => "PYRAMID"
    case Wedge => "WEDGE"
    case Hexahedron => "HEX"
  }

  /** Every fixed-arity type is recovered from its family's name and its node count. */
  lemma GetElementTypeRecoversType(t: ElementType)
    requires HasFixedArity(t)
    ensures GetElementType(ExodusName(ShapeOf(t).value), NodesPerElement(t)) == Ok(t)
  {
    ExodusNameSelectsShape(ShapeOf(t).value);
  }

  /** The name written for a shape passes exactly that shape's prefix test. */
  lemma ExodusNameSelectsShape(s: Shape)
    ensures !MatchesIgnoringCase(ExodusName(s), "nfaced")
    ensures MatchesIgnoringCase(ExodusName(s), "tetra") <==> s == Tetrahedron
    ensures MatchesIgnoringCase(ExodusName(s), "pyramid") <==> s == Pyramid
    ensures MatchesIgnoringCase(ExodusName(s), "wedge") <==> s == Wedge
    ensures MatchesIgnoringCase(ExodusName(s), "hex") <==> s == Hexahedron
  {
    var name := ExodusName(s);
    assert Lower(name[0]) != 'n';
    match s
    case Tetrahedron =>
      assert MatchesIgnoringCase("TETRA", "tetra");
      assert Lower(name[0]) != 'p' && Lower(name[0]) != 'w' && Lower(name[0]) != 'h';
    case Pyramid =>
      assert MatchesIgnoringCase("PYRAMID", "pyramid");
      assert Lower(name[0]) != 't' && Lower(name[0]) != 'w' && Lower(name[0]) != 'h';
    case Wedge =>
      assert MatchesIgnoringCase("WEDGE", "wedge");
      assert Lower(name[0]) != 't' && Lower(name[0]) != 'p' && Lower(name[0]) != 'h';
    case Hexahedron =>
      assert MatchesIgnoringCase("HEX", "hex");
      assert Lower(name[0]) != 't' && Lower(name[0]) != 'p' && Lower(name[0]) != 'w';
  }

  /** An "nfaced" name with no per-element nodes is the polyhedral type. */
  lemma PolyhedronFromNfaced()
    ensures GetElementType("NFACED", 0) == Ok(Polyhedron)
    ensures GetElementType("nfaced", 1) == Err(InvalidTopology)
  {
    assert MatchesIgnoringCase("NFACED", "nfaced");
    assert MatchesIgnoringCase("nfaced", "nfaced");
  }
}
