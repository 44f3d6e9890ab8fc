/** Named entity sets (the tagger of an fe_mesh): each kind of entity has an
    ordered list of (name, indices) tags. */
module EntitySets {
  import opened Wrappers

  datatype Tag = Tag(name: string, indices: seq<int>)

  datatype SetKind = ElementSet | FaceSet | EdgeSet | NodeSet | SideSet

  /** The number of ints reserved for a set of `size` entries. A side-set entry
      is a (cell, local face) pair, so side sets reserve two ints per entry. */
  function ReservedSize(kind: SetKind, size: nat): nat
  {
    if kind == SideSet then 2 * size else size
  }

  /** tagger_next_tag: the tag under the cursor and the advanced cursor, or
      nothing (cursor unchanged) once the cursor is past the last tag. */
  function NextTag(tags: seq<Tag>, pos: int): (Option<Tag>, int)
    requires pos >= 0
  {
    if pos < |tags| then (Some(tags[pos]), pos + 1) else (None, pos)
  }
}
