/** Offset tables over flat index arrays: the storage scheme every connectivity
    relation of fe_mesh.c uses (element->node, element->face, face->node,
    cell->face). Entry i of a table is items[offsets[i]..offsets[i+1]]. */
module Connectivity {

  /** Sum of a sequence of counts. */
  function Sum(xs: seq<int>): int
  {
    if xs == [] then 0 else Sum(xs[..|xs| - 1]) + xs[|xs| - 1]
  }

  predicate NonNegative(xs: seq<int>)
  {
    forall i :: 0 <= i < |xs| ==> xs[i] >= 0
  }

  predicate Monotone(s: seq<int>)
  {
    forall i, j :: 0 <= i <= j < |s| ==> s[i] <= s[j]
  }

  /** The offset table of a list of counts: entry k is the sum of the first k counts. */
  function PrefixSums(counts: seq<int>): (r: seq<int>)
    ensures |r| == |counts| + 1
    ensures r[0] == 0 && r[|counts|] == Sum(counts)
  {
    assert counts[..|counts|] == counts;
    seq(|counts| + 1, k requires 0 <= k <= |counts| => Sum(counts[..k]))
  }

  lemma SumNonNegative(xs: seq<int>)
    requires NonNegative(xs)
    ensures Sum(xs) >= 0
  {
    if xs != [] {
      SumNonNegative(xs[..|xs| - 1]);
    }
  }

  /** Entries at most hi sum to at most hi times the length. */
  lemma {:induction false} SumAtMost(xs: seq<int>, hi: int)
    requires forall i :: 0 <= i < |xs| ==> xs[i] <= hi
    ensures Sum(xs) <= hi * |xs|
  {
    if xs != [] {
      SumAtMost(xs[..|xs| - 1], hi);
    }
  }

  /** Entries at least lo sum to at least lo times the length. */
  lemma {:induction false} SumAtLeast(xs: seq<int>, lo: int)
    requires forall i :: 0 <= i < |xs| ==> xs[i] >= lo
    ensures Sum(xs) >= lo * |xs|
  {
    if xs != [] {
      SumAtLeast(xs[..|xs| - 1], lo);
    }
  }

  /** Consecutive offsets differ by exactly the count of the entry between them. */
  lemma PrefixSumsStep(counts: seq<int>, i: int)
    requires 0 <= i < |counts|
    ensures PrefixSums(counts)[i + 1] - PrefixSums(counts)[i] == counts[i]
  {
    assert counts[..i + 1][..i] == counts[..i];
  }

  /** With non-negative counts the offset table never decreases. */
  lemma PrefixSumsMonotone(counts: seq<int>)
    requires NonNegative(counts)
    ensures Monotone(PrefixSums(counts))
  {
    var p := PrefixSums(counts);
    forall i, j | 0 <= i <= j < |p| ensures p[i] <= p[j] {
      var k := i;
      while k < j
        invariant i <= k <= j
        invariant p[i] <= p[k]
      {
        PrefixSumsStep(counts, k);
        k := k + 1;
      }
    }
  }

  /** Appending a count appends one offset: the old last offset plus that count. */
  lemma PrefixSumsAppend(counts: seq<int>, x: int)
    ensures PrefixSums(counts + [x]) == PrefixSums(counts) + [PrefixSums(counts)[|counts|] + x]
  {
    PrefixSumsExtend(counts, counts + [x]);
    PrefixSumsStep(counts + [x], |counts|);
    SnocOf(PrefixSums(counts + [x]), PrefixSums(counts));
  }

  /** Offsets up to |counts| only see counts. */
  lemma PrefixSumsExtend(counts: seq<int>, longer: seq<int>)
    requires |counts| <= |longer| && longer[..|counts|] == counts
    ensures forall k :: 0 <= k <= |counts| ==> PrefixSums(longer)[k] == PrefixSums(counts)[k]
  {
    forall k | 0 <= k <= |counts| ensures PrefixSums(longer)[k] == PrefixSums(counts)[k] {
      assert longer[..k] == counts[..k];
    }
  }

  /** The prefix one longer is the prefix followed by the next element. */
  lemma TakeNext<T>(s: seq<T>, i: int)
    requires 0 <= i < |s|
    ensures s[..i + 1] == s[..i] + [s[i]] && s[..i + 1][..i] == s[..i]
  {
  }

  /** A sequence one longer than q that agrees with q on q's indices is q
      followed by its last element. */
  lemma SnocOf(p: seq<int>, q: seq<int>)
    requires |p| == |q| + 1 && forall k :: 0 <= k < |q| ==> p[k] == q[k]
    ensures p == q + [p[|q|]]
  {
  }

  /** A table whose counts are all n has offset i*n at entry i. */
  lemma PrefixSumsConstant(n: int, m: nat, i: int)
    requires 0 <= i <= m
    ensures PrefixSums(seq(m, _ => n))[i] == i * n
  {
    var c := seq(m, _ => n);
    if i > 0 {
      PrefixSumsConstant(n, m, i - 1);
      PrefixSumsStep(c, i - 1);
    }
  }

  /** Builds the offset table of counts in a freshly allocated array, front to
      back, as each constructor in fe_mesh.c does. */
  method BuildOffsets(counts: seq<int>) returns (offsets: seq<int>)
    ensures offsets == PrefixSums(counts)
  {
    var a := new int[|counts| + 1];
    a[0] := 0;
    var i := 0;
    while i < |counts|
      invariant 0 <= i <= |counts|
      invariant forall k :: 0 <= k <= i ==> a[k] == PrefixSums(counts)[k]
    {
      PrefixSumsStep(counts, i);
      a[i + 1] := a[i] + counts[i];
      i := i + 1;
    }
    offsets := a[..];
  }

  /** A connectivity table: an offset table over a flat item array. */
  datatype Table = Table(offsets: seq<int>, items: seq<int>)
  {
    ghost predicate Valid()
    {
      |offsets| >= 1 && offsets[0] == 0 && Monotone(offsets)
      && offsets[|offsets| - 1] == |items|
    }

    /** Number of entries (elements, faces, cells) the table describes. */
    function Count(): nat
      requires |offsets| >= 1
    {
      |offsets| - 1
    }

    /** Number of items of entry i. */
    function Size(i: int): (n: int)
      requires Valid() && 0 <= i < Count()
      ensures n >= 0
    {
      offsets[i + 1] - offsets[i]
    }

    /** Items of entry i, in stored order. */
    function Entry(i: int): (e: seq<int>)
      requires Valid() && 0 <= i < Count()
      ensures |e| == Size(i)
    {
      items[offsets[i]..offsets[i + 1]]
    }

    /** Every entry, in order. */
    function Rows(): (r: seq<seq<int>>)
      requires Valid()
      ensures |r| == Count()
    {
      seq(Count(), i requires 0 <= i < Count() => Entry(i))
    }
  }

  function Lengths<T>(lists: seq<seq<T>>): (r: seq<int>)
    ensures |r| == |lists| && NonNegative(r)
  {
    seq(|lists|, i requires 0 <= i < |lists| => |lists[i]|)
  }

  /** Concatenation of lists, in order. */
  function Flatten<T>(lists: seq<seq<T>>): seq<T>
  {
    if lists == [] then [] else Flatten(lists[..|lists| - 1]) + lists[|lists| - 1]
  }

  lemma {:induction false} FlattenLength<T>(lists: seq<seq<T>>)
    ensures |Flatten(lists)| == Sum(Lengths(lists))
  {
    if lists != [] {
      var n := |lists| - 1;
      FlattenLength(lists[..n]);
      assert Lengths(lists)[..n] == Lengths(lists[..n]);
    }
  }

  lemma FlattenAppend<T>(lists: seq<seq<T>>, l: seq<T>)
    ensures Flatten(lists + [l]) == Flatten(lists) + l
  {
    assert (lists + [l])[..|lists|] == lists;
  }

  /** A single list flattens to itself. */
  lemma FlattenOne<T>(lists: seq<seq<T>>)
    requires |lists| == 1
    ensures Flatten(lists) == lists[0]
  {
    assert lists[..0] == [];
  }

  /** Flatten of a prefix of the lists is a prefix of the whole flattening. */
  lemma {:induction false} FlattenPrefix<T>(lists: seq<seq<T>>, k: int)
    requires 0 <= k <= |lists|
    ensures |Flatten(lists[..k])| <= |Flatten(lists)|
    ensures Flatten(lists)[..|Flatten(lists[..k])|] == Flatten(lists[..k])
  {
    if k < |lists| {
      var n := |lists| - 1;
      assert lists[..n][..k] == lists[..k];
      FlattenPrefix(lists[..n], k);
      assert lists[..n] + [lists[n]] == lists;
      FlattenAppend(lists[..n], lists[n]);
    } else {
      assert lists[..k] == lists;
    }
  }

  /** The table whose entries are the given lists, in order. */
  function FromLists(lists: seq<seq<int>>): (t: Table)
    ensures |t.offsets| == |lists| + 1
  {
    Table(PrefixSums(Lengths(lists)), Flatten(lists))
  }

  /** The lists' table is a valid table with one entry per list. */
  lemma FromListsValid(lists: seq<seq<int>>)
    ensures FromLists(lists).Valid() && FromLists(lists).Count() == |lists|
    ensures |FromLists(lists).items| == Sum(Lengths(lists))
  {
    PrefixSumsMonotone(Lengths(lists));
    FlattenLength(lists);
  }

  /** Entry i of the table built from lists is lists[i]. */
  lemma FromListsEntry(lists: seq<seq<int>>, i: int)
    requires 0 <= i < |lists|
    ensures FromLists(lists).Valid() && FromLists(lists).Entry(i) == lists[i]
  {
    FromListsValid(lists);
    FlattenEntry(lists, i, PrefixSums(Lengths(lists))[i]);
    PrefixSumsStep(Lengths(lists), i);
  }

  /** Over any items as many as the lists hold in all, the offsets of the
      lists make a valid table whose row k, entry j is the item standing where
      the flattening holds lists[k][j]. */
  lemma TableOfLists<T>(lists: seq<seq<T>>, items: seq<int>, k: int, j: int) returns (p: int)
    requires |items| == |Flatten(lists)| && 0 <= k < |lists| && 0 <= j < |lists[k]|
    ensures 0 <= p < |Flatten(lists)| && Flatten(lists)[p] == lists[k][j]
    ensures Table(PrefixSums(Lengths(lists)), items).Valid()
    ensures Table(PrefixSums(Lengths(lists)), items).Count() == |lists|
    ensures Table(PrefixSums(Lengths(lists)), items).Size(k) == |lists[k]|
    ensures Table(PrefixSums(Lengths(lists)), items).Entry(k)[j] == items[p]
  {
    PrefixSumsMonotone(Lengths(lists));
    FlattenLength(lists);
    var at := PrefixSums(Lengths(lists))[k];
    FlattenEntry(lists, k, at);
    PrefixSumsStep(Lengths(lists), k);
    p := at + j;
  }

  /** Appending a list to the table's lists appends one offset and the list's items. */
  lemma FromListsAppend(lists: seq<seq<int>>, l: seq<int>)
    ensures FromLists(lists + [l]).offsets == FromLists(lists).offsets + [FromLists(lists).offsets[|lists|] + |l|]
    ensures FromLists(lists + [l]).items == FromLists(lists).items + l
  {
    assert Lengths(lists + [l]) == Lengths(lists) + [|l|];
    PrefixSumsAppend(Lengths(lists), |l|);
    FlattenAppend(lists, l);
  }

  /** A valid table is the table of its own entries: splitting it into rows
      and rebuilding it gives back the same offsets and items. */
  lemma FromListsRows(t: Table)
    requires t.Valid()
    ensures FromLists(t.Rows()) == t
  {
    var rows := t.Rows();
    var p := PrefixSums(Lengths(rows));
    forall k | 0 <= k <= t.Count() ensures p[k] == t.offsets[k] {
      RowsPrefix(t, k);
      PrefixLengths(rows, k);
    }
    RowsPrefix(t, t.Count());
    assert rows[..t.Count()] == rows;
  }

  /** A valid table's rows, flattened, are its items. */
  lemma FlattenRows(t: Table)
    requires t.Valid()
    ensures Flatten(t.Rows()) == t.items
  {
    RowsPrefix(t, t.Count());
    assert t.Rows()[..t.Count()] == t.Rows();
  }

  /** The first n rows of a valid table, flattened, are its items up to offset n. */
  lemma {:induction false} RowsPrefix(t: Table, n: int)
    requires t.Valid() && 0 <= n <= t.Count()
    ensures 0 <= t.offsets[n] <= |t.items|
    ensures Flatten(t.Rows()[..n]) == t.items[..t.offsets[n]]
  {
    var rows := t.Rows();
    if n > 0 {
      RowsPrefix(t, n - 1);
      FlattenNext(rows, n - 1);
    }
  }

  /** Flattening one more list appends that list. */
  lemma FlattenNext<T>(lists: seq<seq<T>>, b: int)
    requires 0 <= b < |lists|
    ensures Flatten(lists[..b + 1]) == Flatten(lists[..b]) + lists[b]
  {
    assert lists[..b + 1] == lists[..b] + [lists[b]];
    FlattenAppend(lists[..b], lists[b]);
  }

  /** Flattening distributes over concatenation. */
  lemma {:induction false} FlattenConcat<T>(a: seq<seq<T>>, b: seq<seq<T>>)
    ensures Flatten(a + b) == Flatten(a) + Flatten(b)
    decreases |b|
  {
    if b == [] {
      assert a + b == a;
    } else {
      var n := |b| - 1;
      FlattenConcat(a, b[..n]);
      assert (a + b)[..|a + b| - 1] == a + b[..n];
    }
  }

  /** The first b lists and the first i items of list b form a prefix of the
      flattening. */
  lemma FlattenPrefixPart<T>(lists: seq<seq<T>>, b: int, i: int)
    requires 0 <= b < |lists| && 0 <= i <= |lists[b]|
    ensures |Flatten(lists[..b])| + i <= |Flatten(lists)|
    ensures Flatten(lists)[..|Flatten(lists[..b])| + i] == Flatten(lists[..b]) + lists[b][..i]
  {
    FlattenPrefix(lists, b + 1);
    FlattenNext(lists, b);
    var x := Flatten(lists[..b]);
    assert (x + lists[b])[..|x| + i] == x + lists[b][..i];
  }

  /** Item i of list b sits in the flattening after the first b lists, and
      all of list b fits there. */
  lemma FlattenAt<T>(lists: seq<seq<T>>, b: int, i: int)
    requires 0 <= b < |lists| && 0 <= i < |lists[b]|
    ensures |Flatten(lists[..b])| + |lists[b]| <= |Flatten(lists)|
    ensures Flatten(lists)[|Flatten(lists[..b])| + i] == lists[b][i]
  {
    FlattenPrefixPart(lists, b, |lists[b]|);
    var x := Flatten(lists[..b]);
    assert (x + lists[b][..|lists[b]|])[|x| + i] == lists[b][i];
  }

  /** The row lengths of a table are its entry sizes. */
  lemma RowsLengths(t: Table)
    requires t.Valid()
    ensures Lengths(t.Rows()) == seq(t.Count(), i requires 0 <= i < t.Count() => t.Size(i))
  {
  }

  /** List b occupies the flattening right after the first b lists. */
  lemma FlattenSlice<T>(lists: seq<seq<T>>, b: int)
    requires 0 <= b < |lists|
    ensures var at := |Flatten(lists[..b])|;
      && at + |lists[b]| == |Flatten(lists[..b + 1])| <= |Flatten(lists)|
      && Flatten(lists)[at..at + |lists[b]|] == lists[b]
  {
    FlattenNext(lists, b);
    FlattenPrefix(lists, b + 1);
    var at := |Flatten(lists[..b])|;
    assert Flatten(lists)[at..at + |lists[b]|] == Flatten(lists)[..at + |lists[b]|][at..];
  }

  /** List b sits in the flattening at its prefix-sum offset. */
  lemma FlattenEntry<T>(lists: seq<seq<T>>, b: int, at: int)
    requires 0 <= b < |lists| && at == PrefixSums(Lengths(lists))[b]
    ensures 0 <= at && at + |lists[b]| <= |Flatten(lists)|
    ensures Flatten(lists)[at..at + |lists[b]|] == lists[b]
  {
    PrefixLengths(lists, b);
    FlattenSlice(lists, b);
  }

  /** Offset k of the lists' table is the length of the first k lists flattened. */
  lemma PrefixLengths<T>(lists: seq<seq<T>>, k: int)
    requires 0 <= k <= |lists|
    ensures PrefixSums(Lengths(lists))[k] == |Flatten(lists[..k])|
  {
    FlattenLength(lists[..k]);
    assert Lengths(lists)[..k] == Lengths(lists[..k]);
  }

  /** memcpy of src into dst from position at on; the rest of dst is
      untouched. */
  method CopyInto(src: seq<int>, dst: array<int>, at: nat)
    requires at + |src| <= dst.Length
    modifies dst
    ensures dst[at..at + |src|] == src
    ensures dst[..at] == old(dst[..at])
    ensures dst[at + |src|..] == old(dst[at + |src|..])
  {
    var k := 0;
    while k < |src|
      invariant 0 <= k <= |src|
      invariant dst[at..at + k] == src[..k]
      invariant dst[..at] == old(dst[..at])
      invariant dst[at + |src|..] == old(dst[at + |src|..])
    {
      dst[at + k] := src[k];
      k := k + 1;
    }
  }
}
