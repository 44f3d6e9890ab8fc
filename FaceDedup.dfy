/** Face deduplication for the FE -> FV translation: faces are identified by
    their sorted node tuple, so two cells listing the same nodes in different
    orders share one face; faces get dense indices in order of first
    appearance and keep the node order of that first appearance. */
module FaceDedup {
  import opened Connectivity
  import opened ElementTypes

  //------------------------------------------------------------------------
  // Sorted node tuples (int_qsort on a copy of the face's nodes).
  //------------------------------------------------------------------------

  predicate Sorted(s: seq<int>)
  {
    forall i, j :: 0 <= i < j < |s| ==> s[i] <= s[j]
  }

  /** Inserts x before the trailing elements greater than it. */
  function Insert(x: int, s: seq<int>): (r: seq<int>)
    ensures |r| == |s| + 1
  {
    if s == [] || s[|s| - 1] <= x then s + [x] else Insert(x, s[..|s| - 1]) + [s[|s| - 1]]
  }

  lemma {:induction false} InsertPermutes(x: int, s: seq<int>)
    ensures multiset(Insert(x, s)) == multiset(s) + multiset{x}
  {
    if s != [] && s[|s| - 1] > x {
      InsertPermutes(x, s[..|s| - 1]);
      assert s == s[..|s| - 1] + [s[|s| - 1]];
    }
  }

  lemma {:induction false} InsertSorted(x: int, s: seq<int>)
    requires Sorted(s)
    ensures Sorted(Insert(x, s))
    ensures Insert(x, s)[|s|] == x || (s != [] && Insert(x, s)[|s|] == s[|s| - 1])
  {
    if s != [] && s[|s| - 1] > x {
      var front := s[..|s| - 1];
      var t := Insert(x, front);
      InsertSorted(x, front);
      assert t[|front|] <= s[|s| - 1];
      assert Insert(x, s) == t + [s[|s| - 1]];
    }
  }

  /** The ascending arrangement of s (insertion sort). */
  function SortInts(s: seq<int>): (r: seq<int>)
    ensures |r| == |s|
  {
    if s == [] then [] else Insert(s[|s| - 1], SortInts(s[..|s| - 1]))
  }

  lemma {:induction false} SortIntsCorrect(s: seq<int>)
    ensures Sorted(SortInts(s)) && multiset(SortInts(s)) == multiset(s)
  {
    if s != [] {
      var front := s[..|s| - 1];
      SortIntsCorrect(front);
      InsertSorted(s[|s| - 1], SortInts(front));
      InsertPermutes(s[|s| - 1], SortInts(front));
      assert s == front + [s[|s| - 1]];
    }
  }

  /** Two ascending sequences with the same elements are equal. */
  lemma {:induction false} SortedUnique(a: seq<int>, b: seq<int>)
    requires Sorted(a) && Sorted(b) && multiset(a) == multiset(b)
    ensures a == b
    decreases |a|
  {
    assert |a| == |multiset(a)| == |multiset(b)| == |b|;
    if |a| > 0 {
      SortedHeads(a, b);
      SortedTail(a);
      SortedTail(b);
      SortedUnique(a[1..], b[1..]);
    }
  }

  /** Dropping the head keeps a sequence ascending and takes one copy of the
      head out of its elements. */
  lemma SortedTail(a: seq<int>)
    requires Sorted(a) && |a| > 0
    ensures Sorted(a[1..]) && multiset(a[1..]) == multiset(a) - multiset{a[0]}
  {
    assert a == [a[0]] + a[1..];
  }

  /** Two nonempty ascending sequences with the same elements start alike:
      each starts with its least element. */
  lemma SortedHeads(a: seq<int>, b: seq<int>)
    requires Sorted(a) && Sorted(b) && multiset(a) == multiset(b) && |a| > 0 && |b| > 0
    ensures a[0] == b[0]
  {
    assert a[0] in multiset(b);
    var i :| 0 <= i < |b| && b[i] == a[0];
    assert b[0] in multiset(a);
    var j :| 0 <= j < |a| && a[j] == b[0];
    assert b[0] <= b[i] && a[0] <= a[j];
  }

  /** The key a face is stored under: its nodes in ascending order. */
  function Key(nodes: seq<int>): seq<int>
  {
    SortInts(nodes)
  }

  /** Two node tuples share a key exactly when one is a reordering of the other. */
  lemma KeyEqualIffPermutation(a: seq<int>, b: seq<int>)
    ensures Key(a) == Key(b) <==> multiset(a) == multiset(b)
  {
    SortIntsCorrect(a);
    SortIntsCorrect(b);
    if multiset(a) == multiset(b) {
      SortedUnique(Key(a), Key(b));
    }
  }

  //------------------------------------------------------------------------
  // The face registry: the node->face map with the face->node arrays it fills.
  //------------------------------------------------------------------------

  /** faces[k] is face k's nodes as first seen; ids maps each face's key to k. */
  datatype FaceRegistry = FaceRegistry(ids: map<seq<int>, int>, faces: seq<seq<int>>)
  {
    /** The key of the k-th recorded face. */
    ghost function KeyOf(k: int): seq<int>
      requires 0 <= k < |faces|
    {
      Key(faces[k])
    }

    /** The map and the face list are inverse to each other: every key names
        the face it was recorded with, and every face is found by its key. */
    ghost predicate Valid()
    {
      && |ids| == |faces|
      && (forall key :: key in ids ==> 0 <= ids[key] < |faces| && KeyOf(ids[key]) == key)
      && (forall k :: 0 <= k < |faces| ==> KeyOf(k) in ids && ids[KeyOf(k)] == k)
    }
  }

  const EmptyRegistry := FaceRegistry(map[], [])

  /** map_nodes_to_face: a face whose key is known keeps its index and changes
      nothing; a new face gets the next dense index and is appended. */
  ghost function Register(r: FaceRegistry, f: seq<int>): (FaceRegistry, int)
  {
    var key := Key(f);
    if key in r.ids then (r, r.ids[key])
    else (FaceRegistry(r.ids[key := |r.faces|], r.faces + [f]), |r.faces|)
  }

  /** Registering keeps the registry consistent, answers with the index now
      stored under the tuple's key, changes nothing for a known key, and for a
      new key appends the tuple under the next index; known keys keep theirs. */
  lemma RegisterSpec(r: FaceRegistry, f: seq<int>)
    requires r.Valid()
    ensures var (res, id) := Register(r, f);
      && res.Valid()
      && Key(f) in res.ids && id == res.ids[Key(f)]
      && (Key(f) in r.ids ==> res == r)
      && (Key(f) !in r.ids ==> res.faces == r.faces + [f] && id == |r.faces|)
      && res.ids.Keys == r.ids.Keys + {Key(f)}
      && (forall key :: key in r.ids ==> res.ids[key] == r.ids[key])
  {
    if Key(f) !in r.ids {
      AppendValid(r, f);
    }
  }

  /** Appending a face with an unknown key under the next index keeps the
      registry consistent. */
  lemma AppendValid(r: FaceRegistry, f: seq<int>)
    requires r.Valid() && Key(f) !in r.ids
    ensures FaceRegistry(r.ids[Key(f) := |r.faces|], r.faces + [f]).Valid()
  {
    var n := |r.faces|;
    var res := FaceRegistry(r.ids[Key(f) := n], r.faces + [f]);
    assert res.KeyOf(n) == Key(f);
    forall key | key in res.ids ensures 0 <= res.ids[key] < |res.faces| && res.KeyOf(res.ids[key]) == key {
      if key != Key(f) {
        assert res.KeyOf(r.ids[key]) == r.KeyOf(r.ids[key]);
      }
    }
    forall k | 0 <= k < n ensures res.KeyOf(k) in res.ids && res.ids[res.KeyOf(k)] == k {
      assert res.KeyOf(k) == r.KeyOf(k);
    }
  }

  /** The keys of a list of node tuples. */
  ghost function KeySet(fs: seq<seq<int>>): set<seq<int>>
  {
    set p | 0 <= p < |fs| :: Key(fs[p])
  }

  lemma KeySetSnoc(fs: seq<seq<int>>)
    requires fs != []
    ensures KeySet(fs) == KeySet(fs[..|fs| - 1]) + {Key(fs[|fs| - 1])}
  {
    var n := |fs| - 1;
    assert forall p :: 0 <= p < n ==> fs[..n][p] == fs[p];
  }

  /** Tuples no two of which are reorderings of each other have as many keys
      as there are tuples. */
  lemma {:induction false} KeySetDistinct(fs: seq<seq<int>>)
    requires forall p, q :: 0 <= p < q < |fs| ==> multiset(fs[p]) != multiset(fs[q])
    ensures |KeySet(fs)| == |fs|
  {
    if fs != [] {
      var n := |fs| - 1;
      KeySetDistinct(fs[..n]);
      KeySetSnoc(fs);
      if Key(fs[n]) in KeySet(fs[..n]) {
        var p :| 0 <= p < n && Key(fs[..n][p]) == Key(fs[n]);
        KeyEqualIffPermutation(fs[p], fs[n]);
      }
    }
  }

  /** A tuple that is no reordering of any earlier one brings a new key. */
  lemma NewKey(fs: seq<seq<int>>, p: int)
    requires 0 <= p < |fs| && forall q :: 0 <= q < p ==> multiset(fs[q]) != multiset(fs[p])
    ensures Key(fs[p]) !in KeySet(fs[..p])
  {
    if Key(fs[p]) in KeySet(fs[..p]) {
      var q :| 0 <= q < p && Key(fs[..p][q]) == Key(fs[p]);
      KeyEqualIffPermutation(fs[q], fs[p]);
    }
  }

  /** Registering tuple p: a tuple with a new key gets the next index and
      adds one face; one with a known key adds none. */
  lemma NumberingStep(fs: seq<seq<int>>, p: int)
    requires 0 <= p < |fs|
    ensures Key(fs[p]) !in KeySet(fs[..p]) ==>
      FaceIndices(EmptyRegistry, fs)[p] == |KeySet(fs[..p])|
      && |KeySet(fs[..p + 1])| == |KeySet(fs[..p])| + 1
    ensures Key(fs[p]) in KeySet(fs[..p]) ==> |KeySet(fs[..p + 1])| == |KeySet(fs[..p])|
  {
    assert fs[..p + 1][..p] == fs[..p];
    KeySetSnoc(fs[..p + 1]);
    if Key(fs[p]) !in KeySet(fs[..p]) {
      FirstSeenGetsNextIndex(fs, p);
    }
  }

  /** Tuples no two of which are reorderings, except that tuple d repeats
      tuple r: the first d tuples bring one key each, tuple d none, and every
      later tuple one more. */
  lemma {:induction false} OneRepeatKeys(fs: seq<seq<int>>, r: int, d: int, p: int)
    requires 0 <= r < d < |fs| && multiset(fs[r]) == multiset(fs[d])
    requires forall a, b :: 0 <= a < b < |fs| && (a != r || b != d) ==> multiset(fs[a]) != multiset(fs[b])
    requires 0 <= p <= |fs|
    ensures |KeySet(fs[..p])| == if p <= d then p else p - 1
    decreases p
  {
    if p > 0 {
      var k := p - 1;
      OneRepeatKeys(fs, r, d, k);
      NumberingStep(fs, k);
      if k == d {
        KeyEqualIffPermutation(fs[r], fs[d]);
        assert Key(fs[..d][r]) in KeySet(fs[..d]);
      } else {
        NewKey(fs, k);
      }
    } else {
      assert KeySet(fs[..0]) == {};
    }
  }

  /** With tuple d repeating tuple r and no other reorderings, tuples before d
      get faces 0, 1, ..., tuple d gets tuple r's face and later tuples the
      next faces in order. */
  lemma OneRepeatNumbering(fs: seq<seq<int>>, r: int, d: int, p: int)
    requires 0 <= r < d < |fs| && multiset(fs[r]) == multiset(fs[d])
    requires forall a, b :: 0 <= a < b < |fs| && (a != r || b != d) ==> multiset(fs[a]) != multiset(fs[b])
    requires 0 <= p < |fs|
    ensures FaceIndices(EmptyRegistry, fs)[p] == if p < d then p else if p == d then r else p - 1
  {
    if p == d {
      SameFaceIffPermutation(fs, r, d);
      OneRepeatNumbering(fs, r, d, r);
    } else {
      OneRepeatKeys(fs, r, d, p);
      NumberingStep(fs, p);
      NewKey(fs, p);
    }
  }

  /** With exactly one repeated tuple (d repeats r), every tuple up to d
      gets its own position, d gets r, and later tuples shift down by one;
      one face fewer than tuples. */
  lemma OneRepeatIndices(fs: seq<seq<int>>, r: int, d: int)
    requires 0 <= r < d < |fs| && multiset(fs[r]) == multiset(fs[d])
    requires forall a, b :: 0 <= a < b < |fs| && (a != r || b != d) ==> multiset(fs[a]) != multiset(fs[b])
    ensures |FaceIndices(EmptyRegistry, fs)| == |fs|
    ensures forall p :: 0 <= p < |fs| ==>
      FaceIndices(EmptyRegistry, fs)[p] == if p < d then p else if p == d then r else p - 1
    ensures |KeySet(fs)| == |fs| - 1
  {
    forall p | 0 <= p < |fs|
      ensures FaceIndices(EmptyRegistry, fs)[p] == if p < d then p else if p == d then r else p - 1
    {
      OneRepeatNumbering(fs, r, d, p);
    }
    OneRepeatKeys(fs, r, d, |fs|);
    assert fs[..|fs|] == fs;
  }

  /** When no two tuples are reorderings of each other, tuple p gets face p. */
  lemma DistinctTuplesNumberedInOrder(fs: seq<seq<int>>, p: int)
    requires forall a, b :: 0 <= a < b < |fs| ==> multiset(fs[a]) != multiset(fs[b])
    requires 0 <= p < |fs|
    ensures FaceIndices(EmptyRegistry, fs)[p] == p
  {
    NewKey(fs, p);
    KeySetDistinct(fs[..p]);
    FirstSeenGetsNextIndex(fs, p);
  }

  /** The registry after registering a list of node tuples in order. */
  ghost function RegisterAll(r: FaceRegistry, fs: seq<seq<int>>): FaceRegistry
    decreases |fs|
  {
    if fs == [] then r else Register(RegisterAll(r, fs[..|fs| - 1]), fs[|fs| - 1]).0
  }

  lemma {:induction false} RegisterAllValid(r: FaceRegistry, fs: seq<seq<int>>)
    requires r.Valid()
    ensures RegisterAll(r, fs).Valid()
    decreases |fs|
  {
    if fs != [] {
      RegisterAllValid(r, fs[..|fs| - 1]);
      RegisterSpec(RegisterAll(r, fs[..|fs| - 1]), fs[|fs| - 1]);
    }
  }

  lemma {:induction false} RegisterAllKeys(r: FaceRegistry, fs: seq<seq<int>>)
    ensures RegisterAll(r, fs).ids.Keys == r.ids.Keys + KeySet(fs)
    decreases |fs|
  {
    if fs != [] {
      var n := |fs| - 1;
      var mid := RegisterAll(r, fs[..n]);
      RegisterAllKeys(r, fs[..n]);
      KeySetSnoc(fs);
      assert RegisterAll(r, fs) == Register(mid, fs[n]).0;
      assert Register(mid, fs[n]).0.ids.Keys == mid.ids.Keys + {Key(fs[n])};
    }
  }


  lemma {:induction false} RegisterAllKeeps(r: FaceRegistry, fs: seq<seq<int>>)
    ensures forall key :: key in r.ids ==> key in RegisterAll(r, fs).ids && RegisterAll(r, fs).ids[key] == r.ids[key]
    ensures |r.faces| <= |RegisterAll(r, fs).faces| && RegisterAll(r, fs).faces[..|r.faces|] == r.faces
    decreases |fs|
  {
    if fs != [] {
      var n := |fs| - 1;
      var mid := RegisterAll(r, fs[..n]);
      RegisterAllKeeps(r, fs[..n]);
      var res := RegisterAll(r, fs);
      assert res == Register(mid, fs[n]).0;
      assert res.faces[..|mid.faces|] == mid.faces;
      assert mid.faces[..|r.faces|] == r.faces;
    }
  }


  /** Registering a list keeps the registry consistent and only adds: the keys
      grow by the list's keys, known keys keep their index, and known faces
      keep their place. */
  lemma RegisterAllGrows(r: FaceRegistry, fs: seq<seq<int>>)
    requires r.Valid()
    ensures RegisterAll(r, fs).Valid()
    ensures RegisterAll(r, fs).ids.Keys == r.ids.Keys + KeySet(fs)
    ensures forall key :: key in r.ids ==> RegisterAll(r, fs).ids[key] == r.ids[key]
    ensures |r.faces| <= |RegisterAll(r, fs).faces| && RegisterAll(r, fs).faces[..|r.faces|] == r.faces
  {
    RegisterAllValid(r, fs);
    RegisterAllKeys(r, fs);
    RegisterAllKeeps(r, fs);
  }

  /** The face index each tuple of the list is given: the index its key ends
      up with (every key ends up in the map, see FaceIndicesName). */
  ghost function FaceIndices(r: FaceRegistry, fs: seq<seq<int>>): (ids: seq<int>)
    ensures |ids| == |fs|
  {
    var res := RegisterAll(r, fs);
    seq(|fs|, p requires 0 <= p < |fs| => if Key(fs[p]) in res.ids then res.ids[Key(fs[p])] else -1)
  }

  /** Registering one more tuple leaves the earlier tuples' indices alone and
      gives the new tuple the index its registration returns. */
  lemma FaceIndicesSnoc(r: FaceRegistry, fs: seq<seq<int>>, g: seq<int>)
    requires r.Valid()
    ensures FaceIndices(r, fs + [g]) == FaceIndices(r, fs) + [Register(RegisterAll(r, fs), g).1]
  {
    var mid := RegisterAll(r, fs);
    assert (fs + [g])[..|fs|] == fs;
    var (res, id) := Register(mid, g);
    assert Key(g) in res.ids && res.ids[Key(g)] == id;
    var a := FaceIndices(r, fs + [g]);
    var b := FaceIndices(r, fs) + [id];
    forall p | 0 <= p < |fs| ensures a[p] == b[p] {
      RegisterAllHas(r, fs, p);
      assert (fs + [g])[p] == fs[p];
    }
  }

  /** Every tuple's key is in the map once the list is registered. */
  lemma RegisterAllHas(r: FaceRegistry, fs: seq<seq<int>>, p: int)
    requires r.Valid() && 0 <= p < |fs|
    ensures Key(fs[p]) in RegisterAll(r, fs).ids
  {
    RegisterAllKeys(r, fs);
    assert Key(fs[p]) in KeySet(fs);
  }

  /** Each tuple's index names a stored face that is a reordering of it. */
  lemma FaceIndicesName(r: FaceRegistry, fs: seq<seq<int>>, p: int)
    requires r.Valid() && 0 <= p < |fs|
    ensures var reg := RegisterAll(r, fs); var id := FaceIndices(r, fs)[p];
      0 <= id < |reg.faces| && multiset(reg.faces[id]) == multiset(fs[p])
  {
    var reg := RegisterAll(r, fs);
    RegisterAllKeys(r, fs);
    RegisterAllValid(r, fs);
    assert Key(fs[p]) in KeySet(fs);
    var id := FaceIndices(r, fs)[p];
    KeyEqualIffPermutation(reg.faces[id], fs[p]);
  }

  /** Registering A then B is registering A + B. */
  lemma {:induction false} RegisterAllConcat(r: FaceRegistry, a: seq<seq<int>>, b: seq<seq<int>>)
    ensures RegisterAll(r, a + b) == RegisterAll(RegisterAll(r, a), b)
    decreases |b|
  {
    if b == [] {
      assert a + b == a;
    } else {
      var n := |b| - 1;
      RegisterAllConcat(r, a, b[..n]);
      assert (a + b)[..|a + b| - 1] == a + b[..n];
    }
  }

  /** Looking up a batch of faces after an earlier batch gives the earlier
      batch's indices followed by the later batch's indices against the
      registry the earlier batch left behind. */
  lemma {:induction false} FaceIndicesConcat(r: FaceRegistry, a: seq<seq<int>>, b: seq<seq<int>>)
    requires r.Valid()
    ensures FaceIndices(r, a + b) == FaceIndices(r, a) + FaceIndices(RegisterAll(r, a), b)
    decreases |b|
  {
    var ra := RegisterAll(r, a);
    if b == [] {
      assert a + b == a;
    } else {
      var n := |b| - 1;
      var g := b[n];
      var front := b[..n];
      var ab := a + front;
      FaceIndicesConcat(r, a, front);
      SnocAssoc(a, front, g);
      assert front + [g] == b;
      FaceIndicesSnoc(r, ab, g);
      RegisterAllValid(r, a);
      FaceIndicesSnoc(ra, front, g);
      RegisterAllConcat(r, a, front);
      SnocAssoc(FaceIndices(r, a), FaceIndices(ra, front), Register(RegisterAll(ra, front), g).1);
    }
  }

  lemma SnocAssoc<T>(x: seq<T>, y: seq<T>, z: T)
    ensures (x + y) + [z] == x + (y + [z])
  {
  }

  /** Starting from nothing, the number of faces is the number of distinct keys. */
  lemma FaceCount(fs: seq<seq<int>>)
    ensures |RegisterAll(EmptyRegistry, fs).faces| == |KeySet(fs)|
  {
    RegisterAllKeys(EmptyRegistry, fs);
    RegisterAllValid(EmptyRegistry, fs);
  }

  /** Face indices are dense: every tuple's index names a registered face,
      and every registered face is the index of some tuple. */
  lemma FaceIndicesOnto(fs: seq<seq<int>>)
    ensures var ids := FaceIndices(EmptyRegistry, fs); var n := |RegisterAll(EmptyRegistry, fs).faces|;
      && (forall p :: 0 <= p < |fs| ==> 0 <= ids[p] < n)
      && forall f :: 0 <= f < n ==> f in ids
  {
    forall p | 0 <= p < |fs|
      ensures 0 <= FaceIndices(EmptyRegistry, fs)[p] < |RegisterAll(EmptyRegistry, fs).faces|
    {
      FaceIndicesName(EmptyRegistry, fs, p);
    }
    forall f | 0 <= f < |RegisterAll(EmptyRegistry, fs).faces|
      ensures f in FaceIndices(EmptyRegistry, fs)
    {
      var p := FaceNamed(fs, f);
    }
  }

  /** A registered face is the index of a tuple that carries its key. */
  lemma FaceNamed(fs: seq<seq<int>>, f: int) returns (p: int)
    requires 0 <= f < |RegisterAll(EmptyRegistry, fs).faces|
    ensures 0 <= p < |fs| && FaceIndices(EmptyRegistry, fs)[p] == f
  {
    var reg := RegisterAll(EmptyRegistry, fs);
    RegisterAllValid(EmptyRegistry, fs);
    RegisterAllKeys(EmptyRegistry, fs);
    var key := reg.KeyOf(f);
    assert key in reg.ids;
    p :| 0 <= p < |fs| && Key(fs[p]) == key;
  }

  /** Two tuples get the same face index exactly when they are reorderings of
      each other. */
  lemma SameFaceIffPermutation(fs: seq<seq<int>>, p: int, q: int)
    requires 0 <= p < |fs| && 0 <= q < |fs|
    ensures var ids := FaceIndices(EmptyRegistry, fs);
      ids[p] == ids[q] <==> multiset(fs[p]) == multiset(fs[q])
  {
    var reg := RegisterAll(EmptyRegistry, fs);
    var ids := FaceIndices(EmptyRegistry, fs);
    KeyEqualIffPermutation(fs[p], fs[q]);
    RegisterAllKeys(EmptyRegistry, fs);
    RegisterAllValid(EmptyRegistry, fs);
    assert Key(fs[p]) in KeySet(fs) && Key(fs[q]) in KeySet(fs);
    if ids[p] == ids[q] {
      assert Key(fs[p]) == reg.KeyOf(ids[p]) == Key(fs[q]);
    }
  }

  /** A tuple whose key has not been seen before gets the next dense index,
      the number of distinct keys before it, and the stored face keeps its
      node order. */
  lemma FirstSeenGetsNextIndex(fs: seq<seq<int>>, p: int)
    requires 0 <= p < |fs| && Key(fs[p]) !in KeySet(fs[..p])
    ensures FaceIndices(EmptyRegistry, fs)[p] == |KeySet(fs[..p])|
    ensures |KeySet(fs[..p])| < |RegisterAll(EmptyRegistry, fs).faces|
      && RegisterAll(EmptyRegistry, fs).faces[|KeySet(fs[..p])|] == fs[p]
  {
    var a := fs[..p + 1];
    var rest := fs[p + 1..];
    assert fs == a + rest;
    assert a[..p] == fs[..p];
    var before := RegisterAll(EmptyRegistry, fs[..p]);
    var after := RegisterAll(EmptyRegistry, a);
    RegisterAllKeys(EmptyRegistry, fs[..p]);
    FaceCount(fs[..p]);
    assert after.faces == before.faces + [fs[p]];
    assert after.ids[Key(fs[p])] == |before.faces|;
    RegisterAllValid(EmptyRegistry, a);
    RegisterAllConcat(EmptyRegistry, a, rest);
    RegisterAllKeeps(after, rest);
  }

  /** A tuple that repeats an earlier tuple's nodes, in any order, adds no face. */
  lemma RepeatAddsNoFace(fs: seq<seq<int>>, g: seq<int>, q: int)
    requires 0 <= q < |fs| && multiset(fs[q]) == multiset(g)
    ensures RegisterAll(EmptyRegistry, fs + [g]) == RegisterAll(EmptyRegistry, fs)
  {
    KeyEqualIffPermutation(fs[q], g);
    RegisterAllKeys(EmptyRegistry, fs);
    assert Key(fs[q]) in KeySet(fs);
    assert (fs + [g])[..|fs|] == fs;
  }

  //------------------------------------------------------------------------
  // Face templates of the fixed-arity shapes (get_num_cell_faces, get_cell_faces).
  //------------------------------------------------------------------------

  function NumCellFaces(s: Shape): nat
  {
    match s
    case Tetrahedron => 4
    case Pyramid => 5
    case Wedge => 5
    case Hexahedron => 6
  }

  /** The corner-node positions of each face of a cell, in the order the faces
      are listed in the cell's face row. */
  function FaceTemplates(s: Shape): (t: seq<seq<int>>)
    ensures |t| == NumCellFaces(s)
  {
    match s
    case Tetrahedron => [[0, 1, 2], [0, 1, 3], [1, 2, 3], [2, 0, 3]]
    case Pyramid => [[0, 1, 2, 3], [0, 1, 4], [1, 2, 4], [2, 3, 4], [3, 0, 4]]
    case Wedge => [[0, 1, 2], [3, 4, 5], [0, 1, 4, 3], [1, 2, 5, 4], [2, 0, 3, 5]]
    case Hexahedron =>
      [[0, 1, 2, 3], [4, 5, 6, 7], [0, 1, 5, 4], [2, 3, 7, 6], [1, 2, 6, 5], [3, 0, 4, 7]]
  }

  /** Every face is a triangle or a quadrilateral over the cell's corners. */
  lemma FaceTemplatesShape(s: Shape)
    ensures forall f :: 0 <= f < |FaceTemplates(s)| ==> 3 <= |FaceTemplates(s)[f]| <= 4
    ensures forall f, j :: 0 <= f < |FaceTemplates(s)| && 0 <= j < |FaceTemplates(s)[f]| ==>
      0 <= FaceTemplates(s)[f][j] < CornerNodes(s)
  {
  }

  /** The sum of the squares of a tuple's nodes: reorderings share it, so
      tuples that differ in it are no reorderings of each other. */
  function SquareSum(nodes: seq<int>): int
  {
    if nodes == [] then 0 else nodes[0] * nodes[0] + SquareSum(nodes[1..])
  }

  lemma {:induction false} SquareSumConcat(a: seq<int>, b: seq<int>)
    ensures SquareSum(a + b) == SquareSum(a) + SquareSum(b)
    decreases |a|
  {
    if a != [] {
      assert (a + b)[0] == a[0] && (a + b)[1..] == a[1..] + b;
      SquareSumConcat(a[1..], b);
    } else {
      assert a + b == b;
    }
  }

  /** Reorderings have the same square sum. */
  lemma {:induction false} SquareSumReordering(a: seq<int>, b: seq<int>)
    requires multiset(a) == multiset(b)
    ensures SquareSum(a) == SquareSum(b)
    decreases |a|
  {
    if a == [] {
      assert |b| == |multiset(b)| == 0;
    } else {
      var v := a[0];
      assert v in multiset(b);
      var i :| 0 <= i < |b| && b[i] == v;
      var rest := b[..i] + b[i + 1..];
      RemoveAt(b, i);
      assert a == [v] + a[1..];
      assert multiset(a[1..]) == multiset(a) - multiset{v};
      SquareSumReordering(a[1..], rest);
      SquareSumRemove(b, i);
    }
  }

  /** Entry i contributes its square to the sum. */
  lemma SquareSumRemove(b: seq<int>, i: int)
    requires 0 <= i < |b|
    ensures SquareSum(b) == b[i] * b[i] + SquareSum(b[..i] + b[i + 1..])
  {
    var x, v, y := b[..i], b[i], b[i + 1..];
    assert b == x + [v] + y;
    SquareSumSplit(x, v, y);
    assert SquareSum([v]) == v * v + SquareSum([v][1..]);
  }

  lemma SquareSumSplit(x: seq<int>, v: int, y: seq<int>)
    ensures SquareSum(x + [v] + y) == SquareSum([v]) + SquareSum(x + y)
  {
    SquareSumConcat(x + [v], y);
    SquareSumConcat(x, [v]);
    SquareSumConcat(x, y);
  }

  /** Removing entry i removes one copy of it. */
  lemma RemoveAt(b: seq<int>, i: int)
    requires 0 <= i < |b|
    ensures multiset(b[..i] + b[i + 1..]) == multiset(b) - multiset{b[i]}
  {
    assert b == b[..i] + [b[i]] + b[i + 1..];
  }

  /** The square sums of each shape's face templates, in template order. */
  function TemplateSquareSums(s: Shape): seq<int>
  {
    match s
    case Tetrahedron => [5, 10, 14, 13]
    case Pyramid => [14, 17, 21, 29, 25]
    case Wedge => [5, 50, 26, 46, 38]
    case Hexahedron => [14, 126, 42, 98, 66, 74]
  }

  lemma TemplateSquareSumsHold(s: Shape)
    ensures |TemplateSquareSums(s)| == |FaceTemplates(s)|
    ensures forall a :: 0 <= a < |FaceTemplates(s)| ==> SquareSum(FaceTemplates(s)[a]) == TemplateSquareSums(s)[a]
  {
    var t := FaceTemplates(s);
    forall a | 0 <= a < |t| ensures SquareSum(t[a]) == TemplateSquareSums(s)[a] {
      match s
      case Tetrahedron =>
        if a == 0 {} else if a == 1 {} else if a == 2 {} else {}
      case Pyramid =>
        if a == 0 {} else if a == 1 {} else if a == 2 {} else if a == 3 {} else {}
      case Wedge =>
        if a == 0 {} else if a == 1 {} else if a == 2 {} else if a == 3 {} else {}
      case Hexahedron =>
        if a == 0 {} else if a == 1 {} else if a == 2 {} else if a == 3 {} else if a == 4 {} else {}
    }
  }

  /** No shape lists the same face twice: no two of its templates hold the
      same corners. */
  lemma FaceTemplatesDistinct(s: Shape)
    ensures forall a, b :: 0 <= a < b < |FaceTemplates(s)| ==>
      multiset(FaceTemplates(s)[a]) != multiset(FaceTemplates(s)[b])
  {
    var t := FaceTemplates(s);
    var sums := TemplateSquareSums(s);
    TemplateSquareSumsHold(s);
    forall a, b | 0 <= a < b < |t| ensures multiset(t[a]) != multiset(t[b]) {
      assert sums[a] != sums[b];
      if multiset(t[a]) == multiset(t[b]) {
        SquareSumReordering(t[a], t[b]);
      }
    }
  }

  /** The node tuples of a cell's faces, drawn from its element nodes. */
  function CellFaceTuples(s: Shape, elemNodes: seq<int>): (fs: seq<seq<int>>)
    requires |elemNodes| >= CornerNodes(s)
    ensures |fs| == NumCellFaces(s)
  {
    FaceTemplatesShape(s);
    var t := FaceTemplates(s);
    seq(|t|, f requires 0 <= f < |t| =>
      seq(|t[f]|, j requires 0 <= j < |t[f]| => elemNodes[t[f][j]]))
  }

  /** Appends ys to xs one element at a time (int_array_append in a loop). */
  method AppendInts(xs: seq<int>, ys: seq<int>) returns (r: seq<int>)
    ensures r == xs + ys
  {
    r := xs;
    for n := 0 to |ys|
      invariant r == xs + ys[..n]
    {
      r := r + [ys[n]];
    }
    assert ys[..|ys|] == ys;
  }

  /** The face registry as map_nodes_to_face and get_cell_faces update it: the
      key map, the growing face->node offset and node arrays, and (for the
      proof) the list of faces the arrays hold. */
  class FaceMap {
    var ids: map<seq<int>, int>
    var faceNodeOffsets: seq<int>
    var faceNodes: seq<int>
    ghost var faces: seq<seq<int>>

    /** The map has one entry per recorded face, and the two arrays are the
        offset table of the recorded faces' node lists. */
    ghost predicate Valid()
      reads this
    {
      && |ids| == |faces|
      && faceNodeOffsets == FromLists(faces).offsets
      && faceNodes == FromLists(faces).items
    }

    ghost function Registry(): FaceRegistry
      reads this
    {
      FaceRegistry(ids, faces)
    }

    /** An empty map; the offset array starts as [0]. */
    constructor ()
      ensures Valid() && Registry() == EmptyRegistry
      ensures faceNodeOffsets == [0] && faceNodes == []
    {
      ids := map[];
      faces := [];
      faceNodeOffsets := [0];
      faceNodes := [];
      assert FromLists([]).offsets == [0];
    }

    /** map_nodes_to_face: looks up the sorted tuple; a new face is given the
        map's size as index and its nodes are appended in the given order. */
    method MapNodesToFace(nodes: seq<int>) returns (id: int)
      requires Valid()
      modifies this
      ensures Valid()
      ensures (Registry(), id) == Register(old(Registry()), nodes)
    {
      var sorted := SortInts(nodes);
      if sorted in ids {
        id := ids[sorted];
      } else {
        id := |ids|;
        AddFace(sorted, nodes);
      }
    }

    /** The insertion branch of map_nodes_to_face: the sorted tuple is mapped
        to the next index, and the face's offset and nodes are appended. */
    method AddFace(sorted: seq<int>, nodes: seq<int>)
      requires Valid() && sorted == Key(nodes) && sorted !in ids
      modifies this
      ensures Valid()
      ensures ids == old(ids)[sorted := old(|ids|)] && faces == old(faces) + [nodes]
    {
      var lastOffset := faceNodeOffsets[|faceNodeOffsets| - 1];
      var appended := AppendInts(faceNodes, nodes);
      NewFaceArrays(faces, faceNodeOffsets, faceNodes, nodes);
      ids, faceNodeOffsets, faceNodes, faces :=
        ids[sorted := |ids|], faceNodeOffsets + [lastOffset + |nodes|], appended, faces + [nodes];
    }

    /** Appending a face's offset and nodes to the arrays of a face table gives
        the table with that face appended. */
    static lemma NewFaceArrays(faces: seq<seq<int>>, offsets: seq<int>, nodes: seq<int>, f: seq<int>)
      requires offsets == FromLists(faces).offsets && nodes == FromLists(faces).items
      ensures offsets + [offsets[|offsets| - 1] + |f|] == FromLists(faces + [f]).offsets
      ensures nodes + f == FromLists(faces + [f]).items
    {
      FromListsAppend(faces, f);
    }

    /** get_cell_faces: registers each face of a fixed-arity cell in template
        order and returns the face indices, which the caller stores as the
        cell's row of the cell->face array. */
    method GetCellFaces(s: Shape, elemNodes: seq<int>) returns (cellFaces: seq<int>)
      requires Valid() && Registry().Valid() && |elemNodes| >= CornerNodes(s)
      modifies this
      ensures Valid() && Registry().Valid()
      ensures Registry() == RegisterAll(old(Registry()), CellFaceTuples(s, elemNodes))
      ensures cellFaces == FaceIndices(old(Registry()), CellFaceTuples(s, elemNodes))
      ensures |cellFaces| == NumCellFaces(s)
    {
      cellFaces := RecordFaces(CellFaceTuples(s, elemNodes));
    }

    /** The loop shared by every cell shape: each tuple is mapped to its face
        index in turn. */
    method RecordFaces(tuples: seq<seq<int>>) returns (indices: seq<int>)
      requires Valid() && Registry().Valid()
      modifies this
      ensures Valid() && Registry().Valid()
      ensures Registry() == RegisterAll(old(Registry()), tuples)
      ensures indices == FaceIndices(old(Registry()), tuples)
    {
      ghost var start := Registry();
      indices := [];
      for f := 0 to |tuples|
        invariant Valid()
        invariant Registry() == RegisterAll(start, tuples[..f])
        invariant indices == FaceIndices(start, tuples[..f])
      {
        RecordStep(start, tuples[..f], tuples[f]);
        assert tuples[..f + 1] == tuples[..f] + [tuples[f]];
        var id := MapNodesToFace(tuples[f]);
        indices := indices + [id];
      }
      assert tuples[..|tuples|] == tuples;
      RegisterAllValid(start, tuples);
    }

    /** One turn of the loop above, on values: registering one more tuple
        extends both the registry fold and the list of indices. */
    static lemma RecordStep(start: FaceRegistry, done: seq<seq<int>>, g: seq<int>)
      requires start.Valid()
      ensures RegisterAll(start, done + [g]) == Register(RegisterAll(start, done), g).0
      ensures FaceIndices(start, done + [g]) == FaceIndices(start, done) + [Register(RegisterAll(start, done), g).1]
    {
      assert (done + [g])[..|done|] == done;
      FaceIndicesSnoc(start, done, g);
    }
  }
}
