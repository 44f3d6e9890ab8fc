/** The face->cell table built by the FE -> FV translation: two slots per face,
    slot 2f for the first cell found to reference face f and slot 2f + 1 for a
    later one, -1 while a slot is empty. Cells are visited in index order and
    each cell's faces in row order. */
module FaceCells {
  import opened Wrappers
  import opened Connectivity

  /** Cell `cell` lists face `face`. */
  datatype Incidence = Incidence(cell: int, face: int)

  /** The incidences of one cell's row, in row order. */
  function RowIncidences(c: int, row: seq<int>): (inc: seq<Incidence>)
    ensures |inc| == |row|
  {
    seq(|row|, k requires 0 <= k < |row| => Incidence(c, row[k]))
  }

  /** The incidences of cells 0..n-1 in the order the translation visits them. */
  function Incidences(t: Table, n: int): seq<Incidence>
    requires t.Valid() && 0 <= n <= t.Count()
  {
    if n == 0 then [] else Incidences(t, n - 1) + RowIncidences(n - 1, t.Entry(n - 1))
  }

  /** Every slot empty: the face->cell array as the FV mesh starts it. */
  function Unfilled(numFaces: nat): seq<int>
  {
    seq(2 * numFaces, _ => -1)
  }

  /** Recording one incidence, corrected: a face outside the table is an
      error, the first cell goes to slot 0, the second to slot 1, and a third
      cell for the same face is refused. */
  function Record(slots: seq<int>, i: Incidence): Result<seq<int>, MeshError>
  {
    var f := i.face;
    if f < 0 || 2 * f + 1 >= |slots| then Err(OutOfRangeIndex)
    else if slots[2 * f] == -1 then Ok(slots[2 * f := i.cell])
    else if slots[2 * f + 1] == -1 then Ok(slots[2 * f + 1 := i.cell])
    else Err(NonManifoldFace(f, i.cell))
  }

  /** Recording the incidences in order; the first error stops the fill. */
  function RecordAll(slots: seq<int>, inc: seq<Incidence>): Result<seq<int>, MeshError>
    decreases |inc|
  {
    if inc == [] then Ok(slots)
    else
      match RecordAll(slots, inc[..|inc| - 1])
      case Err(e) => Err(e)
      case Ok(s) => Record(s, inc[|inc| - 1])
  }

  /** The face->cell array of mesh_from_fe_mesh for the cell->face table t. */
  function FaceCellsOf(t: Table, numFaces: nat): Result<seq<int>, MeshError>
    requires t.Valid()
  {
    RecordAll(Unfilled(numFaces), Incidences(t, t.Count()))
  }

  //------------------------------------------------------------------------
  // The fill loop.
  //------------------------------------------------------------------------

  /** The nested loop of mesh_from_fe_mesh that fills face_cells, with the
      two error cases the corrected fill reports. */
  method FillFaceCells(t: Table, numFaces: nat) returns (r: Result<seq<int>, MeshError>)
    requires t.Valid()
    ensures r == FaceCellsOf(t, numFaces)
  {
    var slots := new int[2 * numFaces](_ => -1);
    var err: Option<MeshError> := None;
    assert slots[..] == Unfilled(numFaces);
    var c := 0;
    while c < t.Count()
      invariant 0 <= c <= t.Count()
      invariant RecordAll(Unfilled(numFaces), Incidences(t, c)) == if err.Some? then Err(err.value) else Ok(slots[..])
    {
      ghost var done := Incidences(t, c);
      ghost var seen := done;
      var f := t.offsets[c];
      assert done + RowIncidences(c, t.items[t.offsets[c]..f]) == done;
      while f < t.offsets[c + 1]
        invariant t.offsets[c] <= f <= t.offsets[c + 1]
        invariant seen == done + RowIncidences(c, t.items[t.offsets[c]..f])
        invariant RecordAll(Unfilled(numFaces), seen) == if err.Some? then Err(err.value) else Ok(slots[..])
      {
        var x := Incidence(c, t.items[f]);
        RowSnoc(done, c, t.items, t.offsets[c], f);
        RecordAllSnoc(Unfilled(numFaces), seen, x);
        if err.None? {
          err := RecordInto(slots, x);
        }
        seen := seen + [x];
        f := f + 1;
      }
      assert t.items[t.offsets[c]..f] == t.Entry(c);
      c := c + 1;
    }
    r := if err.Some? then Err(err.value) else Ok(slots[..]);
  }

  /** One step of the fill loop: record incidence i in place. */
  method RecordInto(slots: array<int>, i: Incidence) returns (e: Option<MeshError>)
    modifies slots
    ensures Record(old(slots[..]), i) == if e.Some? then Err(e.value) else Ok(slots[..])
  {
    var face := i.face;
    e := None;
    if face < 0 || 2 * face + 1 >= slots.Length {
      e := Some(OutOfRangeIndex);
    } else if slots[2 * face] == -1 {
      slots[2 * face] := i.cell;
    } else if slots[2 * face + 1] == -1 {
      slots[2 * face + 1] := i.cell;
    } else {
      e := Some(NonManifoldFace(face, i.cell));
    }
  }

  /** Recording one more incidence extends the fold by one step. */
  lemma RecordAllSnoc(s0: seq<int>, seen: seq<Incidence>, x: Incidence)
    ensures RecordAll(s0, seen + [x]) ==
      match RecordAll(s0, seen)
      case Err(e) => Err(e)
      case Ok(s) => Record(s, x)
  {
    assert (seen + [x])[..|seen|] == seen;
  }

  /** The incidences of a row slice grow by one as the slice does. */
  lemma RowSnoc(done: seq<Incidence>, c: int, items: seq<int>, lo: int, f: int)
    requires 0 <= lo <= f < |items|
    ensures done + RowIncidences(c, items[lo..f + 1])
      == (done + RowIncidences(c, items[lo..f])) + [Incidence(c, items[f])]
  {
    assert RowIncidences(c, items[lo..f + 1]) == RowIncidences(c, items[lo..f]) + [Incidence(c, items[f])];
  }

  //------------------------------------------------------------------------
  // What the filled array holds.
  //------------------------------------------------------------------------

  /** The cells of the incidences that name face f, in visiting order. */
  function CellsOf(inc: seq<Incidence>, f: int): seq<int>
    decreases |inc|
  {
    if inc == [] then []
    else CellsOf(inc[..|inc| - 1], f) + (if inc[|inc| - 1].face == f then [inc[|inc| - 1].cell] else [])
  }

  /** Slot k of a face referenced by the cells cs: the k-th of them, or -1. */
  function Slot(cs: seq<int>, k: nat): int
  {
    if k < |cs| then cs[k] else -1
  }

  predicate CellsNonNegative(inc: seq<Incidence>)
  {
    forall k :: 0 <= k < |inc| ==> inc[k].cell >= 0
  }

  predicate FacesBelow(inc: seq<Incidence>, numFaces: int)
  {
    forall k :: 0 <= k < |inc| ==> 0 <= inc[k].face < numFaces
  }

  predicate AtMostTwoCells(inc: seq<Incidence>, numFaces: int)
  {
    forall f :: 0 <= f < numFaces ==> |CellsOf(inc, f)| <= 2
  }

  /** Each face's two slots hold its first and second referencing cell. */
  predicate SlotsHold(slots: seq<int>, inc: seq<Incidence>, numFaces: nat)
  {
    |slots| == 2 * numFaces
    && forall f :: 0 <= f < numFaces ==>
      slots[2 * f] == Slot(CellsOf(inc, f), 0) && slots[2 * f + 1] == Slot(CellsOf(inc, f), 1)
  }

  lemma {:induction false} CellsOfNonNegative(inc: seq<Incidence>, f: int)
    requires CellsNonNegative(inc)
    ensures forall k :: 0 <= k < |CellsOf(inc, f)| ==> CellsOf(inc, f)[k] >= 0
    decreases |inc|
  {
    if inc != [] {
      CellsOfNonNegative(inc[..|inc| - 1], f);
    }
  }

  /** The fill succeeds exactly when every face named lies in the table and
      no face is named by more than two incidences; then each face's slots
      hold the first and second cell naming it, or -1. */
  lemma {:induction false} RecordAllSpec(numFaces: nat, inc: seq<Incidence>)
    requires CellsNonNegative(inc)
    ensures RecordAll(Unfilled(numFaces), inc).Ok?
      <==> FacesBelow(inc, numFaces) && AtMostTwoCells(inc, numFaces)
    ensures RecordAll(Unfilled(numFaces), inc).Ok? ==>
      SlotsHold(RecordAll(Unfilled(numFaces), inc).value, inc, numFaces)
    decreases |inc|
  {
    if inc != [] {
      var n := |inc| - 1;
      var pre := inc[..n];
      var x := inc[n];
      RecordAllSpec(numFaces, pre);
      forall f | 0 <= f < numFaces
        ensures CellsOf(inc, f) == CellsOf(pre, f) + (if x.face == f then [x.cell] else [])
      {
      }
      match RecordAll(Unfilled(numFaces), pre)
      case Err(_) =>
        if FacesBelow(inc, numFaces) && AtMostTwoCells(inc, numFaces) {
          assert FacesBelow(pre, numFaces);
        }
      case Ok(s) =>
        assert inc == pre + [x];
        RecordStep(numFaces, pre, s, x);
    }
  }

  /** One step of RecordAllSpec: recording x on slots that hold pre. */
  lemma RecordStep(numFaces: nat, pre: seq<Incidence>, s: seq<int>, x: Incidence)
    requires CellsNonNegative(pre + [x])
    requires FacesBelow(pre, numFaces) && AtMostTwoCells(pre, numFaces) && SlotsHold(s, pre, numFaces)
    requires forall f :: 0 <= f < numFaces ==>
      CellsOf(pre + [x], f) == CellsOf(pre, f) + (if x.face == f then [x.cell] else [])
    ensures Record(s, x).Ok? <==> FacesBelow(pre + [x], numFaces) && AtMostTwoCells(pre + [x], numFaces)
    ensures Record(s, x).Ok? ==> SlotsHold(Record(s, x).value, pre + [x], numFaces)
  {
    var inc := pre + [x];
    assert inc[|pre|] == x;
    assert forall k :: 0 <= k < |pre| ==> inc[k] == pre[k];
    var f := x.face;
    if 0 <= f < numFaces {
      CellsOfNonNegative(pre, f);
      assert x.cell >= 0;
      var cs := CellsOf(pre, f);
      if s[2 * f] == -1 {
        assert cs == [];
      } else if s[2 * f + 1] == -1 {
        assert |cs| == 1;
      } else {
        assert |CellsOf(inc, f)| == 3;
      }
    }
  }

  //------------------------------------------------------------------------
  // Incidences of a cell->face table.
  //------------------------------------------------------------------------

  /** Incidence k names cell c of row c and the table's k-th item. */
  lemma {:induction false} IncidencesShape(t: Table, n: int)
    requires t.Valid() && 0 <= n <= t.Count()
    ensures |Incidences(t, n)| == t.offsets[n]
    ensures forall k :: 0 <= k < |Incidences(t, n)| ==> Incidences(t, n)[k].face == t.items[k]
    ensures forall k :: 0 <= k < |Incidences(t, n)| ==>
      0 <= Incidences(t, n)[k].cell < n
      && t.offsets[Incidences(t, n)[k].cell] <= k < t.offsets[Incidences(t, n)[k].cell + 1]
    decreases n
  {
    if n > 0 {
      IncidencesShape(t, n - 1);
      var a := Incidences(t, n - 1);
      var row := RowIncidences(n - 1, t.Entry(n - 1));
      assert Incidences(t, n) == a + row;
      var all: seq<Incidence> := a + row;
      forall k | |a| <= k < |all|
        ensures all[k].face == t.items[k] && all[k].cell == n - 1
      {
        assert all[k] == row[k - |a|];
      }
    }
  }

  /** The cells naming face f among the first n cells: ascending, and
      exactly the cells whose row lists f. */
  lemma {:induction false} CellsOfIncidences(t: Table, n: int, f: int)
    requires t.Valid() && 0 <= n <= t.Count()
    ensures forall i, j :: 0 <= i < j < |CellsOf(Incidences(t, n), f)| ==>
      CellsOf(Incidences(t, n), f)[i] <= CellsOf(Incidences(t, n), f)[j]
    ensures forall c :: c in CellsOf(Incidences(t, n), f) <==> 0 <= c < n && f in t.Entry(c)
    decreases n
  {
    if n > 0 {
      var m := n - 1;
      CellsOfIncidences(t, m, f);
      var pre := CellsOf(Incidences(t, m), f);
      var row := CellsOf(RowIncidences(m, t.Entry(m)), f);
      CellsOfAppend(Incidences(t, m), RowIncidences(m, t.Entry(m)), f);
      RowCells(m, t.Entry(m), f);
      var cs := pre + row;
      assert CellsOf(Incidences(t, n), f) == cs;
      AscendingAppend(pre, row, m);
      forall c ensures c in cs <==> 0 <= c < n && f in t.Entry(c) {
        if c in row {
          var k :| 0 <= k < |row| && row[k] == c;
        }
        if c == m && f in t.Entry(m) {
          assert row[0] in row;
        }
      }
    }
  }

  /** Ascending cells below m followed by copies of m stay ascending. */
  lemma AscendingAppend(pre: seq<int>, row: seq<int>, m: int)
    requires forall i, j :: 0 <= i < j < |pre| ==> pre[i] <= pre[j]
    requires forall c :: c in pre ==> c < m
    requires forall k :: 0 <= k < |row| ==> row[k] == m
    ensures forall i, j :: 0 <= i < j < |pre + row| ==> (pre + row)[i] <= (pre + row)[j]
  {
    var cs := pre + row;
    forall i, j | 0 <= i < j < |cs| ensures cs[i] <= cs[j] {
      if j >= |pre| {
        assert cs[j] == row[j - |pre|];
        if i < |pre| {
          assert cs[i] == pre[i] && pre[i] in pre;
        } else {
          assert cs[i] == row[i - |pre|];
        }
      }
    }
  }

  /** The cells of a concatenation are the cells of its two parts. */
  lemma {:induction false} CellsOfAppend(a: seq<Incidence>, b: seq<Incidence>, f: int)
    ensures CellsOf(a + b, f) == CellsOf(a, f) + CellsOf(b, f)
    decreases |b|
  {
    if b == [] {
      assert a + b == a;
    } else {
      var n := |b| - 1;
      CellsOfAppend(a, b[..n], f);
      assert (a + b)[..|a + b| - 1] == a + b[..n];
    }
  }

  /** One cell's row names face f only with that cell, and does so exactly
      when the row lists f. */
  lemma {:induction false} RowCells(c: int, row: seq<int>, f: int)
    ensures forall k :: 0 <= k < |CellsOf(RowIncidences(c, row), f)| ==> CellsOf(RowIncidences(c, row), f)[k] == c
    ensures CellsOf(RowIncidences(c, row), f) != [] <==> f in row
    decreases |row|
  {
    if row != [] {
      var n := |row| - 1;
      RowCells(c, row[..n], f);
      assert RowIncidences(c, row)[..n] == RowIncidences(c, row[..n]);
      assert row == row[..n] + [row[n]];
    }
  }

  //------------------------------------------------------------------------
  // The headline properties of the fill.
  //------------------------------------------------------------------------

  /** The fill succeeds exactly when every listed face index lies below
      numFaces and no face is listed more than twice in total. */
  lemma FaceCellsOk(t: Table, numFaces: nat)
    requires t.Valid()
    ensures FaceCellsOf(t, numFaces).Ok? <==>
      (forall k :: 0 <= k < |t.items| ==> 0 <= t.items[k] < numFaces)
      && AtMostTwoCells(Incidences(t, t.Count()), numFaces)
  {
    var inc := Incidences(t, t.Count());
    IncidencesShape(t, t.Count());
    assert CellsNonNegative(inc);
    RecordAllSpec(numFaces, inc);
    var inRange := forall k :: 0 <= k < |t.items| ==> 0 <= t.items[k] < numFaces;
    assert FacesBelow(inc, numFaces) == inRange;
  }

  /** Slot 0 of a face holds the lowest-index cell listing it (-1 if none),
      and slot 1 a cell listing it that comes no earlier, or -1. */
  lemma FaceCellSlots(t: Table, numFaces: nat, f: int)
    requires t.Valid() && FaceCellsOf(t, numFaces).Ok? && 0 <= f < numFaces
    ensures var slots := FaceCellsOf(t, numFaces).value;
      && |slots| == 2 * numFaces
      && (slots[2 * f] == -1 <==> forall c :: 0 <= c < t.Count() ==> f !in t.Entry(c))
      && (slots[2 * f] != -1 ==>
            0 <= slots[2 * f] < t.Count() && f in t.Entry(slots[2 * f])
            && forall c :: 0 <= c < t.Count() && f in t.Entry(c) ==> slots[2 * f] <= c)
      && (slots[2 * f + 1] != -1 ==>
            0 <= slots[2 * f + 1] < t.Count() && f in t.Entry(slots[2 * f + 1])
            && slots[2 * f] <= slots[2 * f + 1])
  {
    var inc := Incidences(t, t.Count());
    IncidencesShape(t, t.Count());
    RecordAllSpec(numFaces, inc);
    CellsOfIncidences(t, t.Count(), f);
    CellsOfNonNegative(inc, f);
    var cs := CellsOf(inc, f);
    if cs != [] {
      assert cs[0] in cs;
      forall c | 0 <= c < t.Count() && f in t.Entry(c) ensures cs[0] <= c {
        assert c in cs;
        var k :| 0 <= k < |cs| && cs[k] == c;
        if k > 0 {
          assert cs[0] <= cs[k];
        }
      }
    }
    if |cs| > 1 {
      assert cs[1] in cs;
    }
  }

  /** The faces the incidences name, in order. */
  function FacesNamed(inc: seq<Incidence>): (fs: seq<int>)
    ensures |fs| == |inc| && forall k :: 0 <= k < |inc| ==> fs[k] == inc[k].face
  {
    seq(|inc|, k requires 0 <= k < |inc| => inc[k].face)
  }

  /** A face is referenced once for each time an incidence names it. */
  lemma {:induction false} CellsOfCount(inc: seq<Incidence>, f: int)
    ensures |CellsOf(inc, f)| == multiset(FacesNamed(inc))[f]
    decreases |inc|
  {
    if inc != [] {
      var n := |inc| - 1;
      CellsOfCount(inc[..n], f);
      assert FacesNamed(inc) == FacesNamed(inc[..n]) + [inc[n].face];
    }
  }

  /** A face's slots are filled as often as the cell->face items name it:
      slot 0 is empty iff no item names the face, slot 1 iff at most one
      does. */
  lemma FaceCellCount(t: Table, numFaces: nat, f: int)
    requires t.Valid() && FaceCellsOf(t, numFaces).Ok? && 0 <= f < numFaces
    ensures var slots := FaceCellsOf(t, numFaces).value;
      && |slots| == 2 * numFaces
      && (slots[2 * f] == -1 <==> multiset(t.items)[f] == 0)
      && (slots[2 * f + 1] == -1 <==> multiset(t.items)[f] <= 1)
  {
    var inc := Incidences(t, t.Count());
    IncidencesShape(t, t.Count());
    RecordAllSpec(numFaces, inc);
    CellsOfCount(inc, f);
    CellsOfNonNegative(inc, f);
    assert FacesNamed(inc) == t.items;
  }

  /** The fill succeeds exactly when every item names a face of the table and
      no face is named more than twice. */
  lemma FaceCellsOkCount(t: Table, numFaces: nat)
    requires t.Valid()
    ensures FaceCellsOf(t, numFaces).Ok? <==>
      (forall k :: 0 <= k < |t.items| ==> 0 <= t.items[k] < numFaces)
      && (forall f :: 0 <= f < numFaces ==> multiset(t.items)[f] <= 2)
  {
    var inc := Incidences(t, t.Count());
    FaceCellsOk(t, numFaces);
    IncidencesShape(t, t.Count());
    assert FacesNamed(inc) == t.items;
    forall f | 0 <= f < numFaces ensures |CellsOf(inc, f)| == multiset(t.items)[f] {
      CellsOfCount(inc, f);
    }
  }

  /** A face that two different cells list fills both its slots: the lower
      cell in slot 0 and the higher in slot 1. */
  lemma SharedFaceSlots(t: Table, numFaces: nat, f: int, c1: int, c2: int)
    requires t.Valid() && FaceCellsOf(t, numFaces).Ok? && 0 <= f < numFaces
    requires 0 <= c1 < c2 < t.Count() && f in t.Entry(c1) && f in t.Entry(c2)
    ensures var slots := FaceCellsOf(t, numFaces).value;
      |slots| == 2 * numFaces && slots[2 * f] == c1 && slots[2 * f + 1] == c2
  {
    var inc := Incidences(t, t.Count());
    IncidencesShape(t, t.Count());
    RecordAllSpec(numFaces, inc);
    CellsOfIncidences(t, t.Count(), f);
    var cs := CellsOf(inc, f);
    assert c1 in cs && c2 in cs;
    var i :| 0 <= i < |cs| && cs[i] == c1;
    var j :| 0 <= j < |cs| && cs[j] == c2;
    assert |cs| <= 2;
  }

  //------------------------------------------------------------------------
  // The fill as written.
  //------------------------------------------------------------------------

  /** The loop body at fe_mesh.c 902-903: slot 0 if it is empty, otherwise
      slot 1, whatever slot 1 holds. */
  function RecordAsWritten(slots: seq<int>, i: Incidence): seq<int>
    requires 0 <= i.face && 2 * i.face + 1 < |slots|
  {
    if slots[2 * i.face] == -1 then slots[2 * i.face := i.cell] else slots[2 * i.face + 1 := i.cell]
  }

  function RecordAllAsWritten(slots: seq<int>, inc: seq<Incidence>): (r: seq<int>)
    requires forall k :: 0 <= k < |inc| ==> 0 <= inc[k].face && 2 * inc[k].face + 1 < |slots|
    ensures |r| == |slots|
    decreases |inc|
  {
    if inc == [] then slots
    else RecordAsWritten(RecordAllAsWritten(slots, inc[..|inc| - 1]), inc[|inc| - 1])
  }

  /** Whenever the corrected fill succeeds the code as written computes the
      same array: the two differ only on faces with a third cell. */
  lemma {:induction false} AsWrittenAgreesWhenManifold(numFaces: nat, inc: seq<Incidence>)
    requires FacesBelow(inc, numFaces) && RecordAll(Unfilled(numFaces), inc).Ok?
    ensures RecordAllAsWritten(Unfilled(numFaces), inc) == RecordAll(Unfilled(numFaces), inc).value
    decreases |inc|
  {
    if inc != [] {
      var n := |inc| - 1;
      assert FacesBelow(inc[..n], numFaces);
      AsWrittenAgreesWhenManifold(numFaces, inc[..n]);
    }
  }

  /** Three cells sharing face 0: the code as written keeps cells 0 and 2 and
      silently drops cell 1, where the corrected fill reports the face. */
  lemma ThirdCellOverwritesSlotOne()
    ensures var inc := [Incidence(0, 0), Incidence(1, 0), Incidence(2, 0)];
      && RecordAllAsWritten(Unfilled(1), inc) == [0, 2]
      && RecordAll(Unfilled(1), inc) == Err(NonManifoldFace(0, 2))
  {
    var inc := [Incidence(0, 0), Incidence(1, 0), Incidence(2, 0)];
    var start := Unfilled(1);
    assert start == [-1, -1];
    assert inc[..2] == [Incidence(0, 0), Incidence(1, 0)];
    assert inc[..2][..1] == [Incidence(0, 0)];
    assert inc[..2][..1][..0] == [];
    assert RecordAll(start, []) == Ok(start);
    assert start[0 := 0] == [0, -1];
    assert Record(start, Incidence(0, 0)) == Ok([0, -1]);
    assert RecordAll(start, inc[..2][..1]) == Ok([0, -1]);
    assert [0, -1][1 := 1] == [0, 1];
    assert Record([0, -1], Incidence(1, 0)) == Ok([0, 1]);
    assert RecordAll(start, inc[..2]) == Ok([0, 1]);
    assert RecordAllAsWritten(start, inc[..2][..1]) == [0, -1];
    assert RecordAllAsWritten(start, inc[..2]) == [0, 1];
  }
}
