/** Data frames: a frame's value as a table of labelled columns, the two kinds
    of step the cleaners are built from (a cell-wise map of one column, and a
    row filter by a boolean mask), and the mutable frame object itself. */
module Tables {
  import opened Cells

  /** A frame's value: its column labels, one cell sequence per column, and the row count
      (kept apart so that a frame with no columns still has rows). */
  datatype Table = Table(labels: seq<string>, columns: seq<seq<Cell>>, height: nat) {
    /** Every label has a column and every column has `height` cells. */
    predicate WellFormed() {
      |labels| == |columns| && forall j :: 0 <= j < |columns| ==> |columns[j]| == height
    }
  }

  /* ---------------------------------------------------------------------- */
  /* Row selection                                                          */
  /* ---------------------------------------------------------------------- */

  predicate StrictlyIncreasing(s: seq<nat>) {
    forall a, b :: 0 <= a < b < |s| ==> s[a] < s[b]
  }

  /** `idx` lists, in increasing order, exactly the positions at which `mask` holds. */
  predicate Enumerates(idx: seq<nat>, mask: seq<bool>) {
    && StrictlyIncreasing(idx)
    && (forall k :: 0 <= k < |idx| ==> idx[k] < |mask| && mask[idx[k]])
    && (forall i :: 0 <= i < |mask| && mask[i] ==> i in idx)
  }

  /** The positions at or after `lo` at which `mask` holds, in increasing order. */
  function KeptFrom(mask: seq<bool>, lo: nat): (r: seq<nat>)
    requires lo <= |mask|
    ensures |r| <= |mask| - lo
    ensures StrictlyIncreasing(r)
    ensures forall k :: 0 <= k < |r| ==> lo <= r[k] < |mask| && mask[r[k]]
    ensures forall i :: lo <= i < |mask| && mask[i] ==> i in r
    decreases |mask| - lo
  {
    if lo == |mask| then []
    else if mask[lo] then [lo] + KeptFrom(mask, lo + 1)
    else KeptFrom(mask, lo + 1)
  }

  /** The rows a boolean mask keeps: exactly the positions where it holds, in order. */
  function KeptIndices(mask: seq<bool>): (r: seq<nat>)
    ensures |r| <= |mask|
    ensures Enumerates(r, mask)
  {
    KeptFrom(mask, 0)
  }

  /** If two enumerations of one mask agree below `k`, the `k`-th position of
      the second is at most that of the first. */
  lemma EnumerationStep(a: seq<nat>, b: seq<nat>, mask: seq<bool>, k: nat)
    requires Enumerates(a, mask) && Enumerates(b, mask)
    requires k < |a| && k < |b|
    requires forall m :: 0 <= m < k ==> a[m] == b[m]
    ensures b[k] <= a[k]
  {
    assert a[k] < |mask| && mask[a[k]];
    assert a[k] in b;
    var kb :| 0 <= kb < |b| && b[kb] == a[k];
    assert forall m :: 0 <= m < k ==> b[m] < a[k] by {
      forall m | 0 <= m < k ensures b[m] < a[k] { assert a[m] < a[k]; }
    }
    assert k <= kb;
  }

  /** Two enumerations of the same mask agree on their first `n` positions. */
  lemma {:induction false} EnumerationsAgree(a: seq<nat>, b: seq<nat>, mask: seq<bool>, n: nat)
    requires Enumerates(a, mask) && Enumerates(b, mask)
    requires n <= |a| && n <= |b|
    ensures forall k :: 0 <= k < n ==> a[k] == b[k]
  {
    if n > 0 {
      EnumerationsAgree(a, b, mask, n - 1);
      EnumerationStep(a, b, mask, n - 1);
      EnumerationStep(b, a, mask, n - 1);
    }
  }

  /** Every position of `b` is a position of `a`, when both enumerate one mask. */
  lemma EnumerationNotLonger(a: seq<nat>, b: seq<nat>, mask: seq<bool>)
    requires Enumerates(a, mask) && Enumerates(b, mask)
    ensures |b| <= |a|
  {
    var n := if |a| < |b| then |a| else |b|;
    EnumerationsAgree(a, b, mask, n);
    if |b| > 0 {
      var m := |b| - 1;
      assert b[m] in a;
      var ka :| 0 <= ka < |a| && a[ka] == b[m];
      if ka < n {
        assert b[ka] == b[m];
        assert ka == m;
      }
      assert m < |a|;
    }
  }

  /** A mask has exactly one enumeration. */
  lemma EnumerationUnique(a: seq<nat>, b: seq<nat>, mask: seq<bool>)
    requires Enumerates(a, mask) && Enumerates(b, mask)
    ensures a == b
  {
    EnumerationNotLonger(a, b, mask);
    EnumerationNotLonger(b, a, mask);
    EnumerationsAgree(a, b, mask, |a|);
  }

  /** A row is among the kept indices exactly when the mask holds there. */
  lemma KeptIndicesMember(mask: seq<bool>, i: nat)
    requires i < |mask|
    ensures i in KeptIndices(mask) <==> mask[i]
  {
    var idx := KeptIndices(mask);
    if i in idx {
      var k :| 0 <= k < |idx| && idx[k] == i;
    }
  }

  /** A mask that holds at no more positions than another keeps no more rows. */
  lemma {:induction false} KeptFromMonotone(m1: seq<bool>, m2: seq<bool>, lo: nat)
    requires |m1| == |m2| && lo <= |m1|
    requires forall i :: lo <= i < |m2| && m2[i] ==> m1[i]
    ensures |KeptFrom(m2, lo)| <= |KeptFrom(m1, lo)|
    decreases |m1| - lo
  {
    if lo < |m1| {
      KeptFromMonotone(m1, m2, lo + 1);
    }
  }

  lemma KeptIndicesMonotone(m1: seq<bool>, m2: seq<bool>)
    requires |m1| == |m2|
    requires forall i :: 0 <= i < |m2| && m2[i] ==> m1[i]
    ensures |KeptIndices(m2)| <= |KeptIndices(m1)|
  {
    KeptFromMonotone(m1, m2, 0);
  }

  /** Pointwise conjunction of two masks. */
  function And(m1: seq<bool>, m2: seq<bool>): (r: seq<bool>)
    requires |m1| == |m2|
    ensures |r| == |m1|
    ensures forall i :: 0 <= i < |r| ==> (r[i] <==> m1[i] && m2[i])
  {
    seq(|m1|, i requires 0 <= i < |m1| => m1[i] && m2[i])
  }

  /** Boolean indexing (and, with the masks below, dropna): a new table holding the
      rows `mask` keeps, in their original order.  */
  function Filter(t: Table, mask: seq<bool>): (r: Table)
    requires t.WellFormed() && |mask| == t.height
    ensures r.WellFormed() && r.labels == t.labels
    ensures r.height == |KeptIndices(mask)| <= t.height
    ensures forall j, k :: 0 <= j < |r.columns| && 0 <= k < r.height ==>
              r.columns[j][k] == t.columns[j][KeptIndices(mask)[k]]
  {
    var idx := KeptIndices(mask);
    Table(t.labels,
          seq(|t.columns|, j requires 0 <= j < |t.columns| =>
            seq(|idx|, k requires 0 <= k < |idx| => t.columns[j][idx[k]])),
          |idx|)
  }

  /* ---------------------------------------------------------------------- */
  /* Cell-wise maps                                                         */
  /* ---------------------------------------------------------------------- */

  /** `df[name] = f(df[name])`: every column labelled `name` is mapped cell by cell;
      all other columns, the labels and the row count stay as they were. */
  function MapColumn(t: Table, name: string, f: Cell -> Cell): (r: Table)
    requires t.WellFormed()
    ensures r.WellFormed() && r.labels == t.labels && r.height == t.height
    ensures forall j, i :: 0 <= j < |r.columns| && 0 <= i < r.height ==>
              r.columns[j][i] == if t.labels[j] == name then f(t.columns[j][i]) else t.columns[j][i]
  {
    Table(t.labels,
          seq(|t.columns|, j requires 0 <= j < |t.columns| =>
            if t.labels[j] == name then seq(t.height, i requires 0 <= i < t.height => f(t.columns[j][i]))
            else t.columns[j]),
          t.height)
  }

  /** `df.replace(...)` over the whole frame: every cell of every column is mapped. */
  function MapCells(t: Table, f: Cell -> Cell): (r: Table)
    requires t.WellFormed()
    ensures r.WellFormed() && r.labels == t.labels && r.height == t.height
    ensures forall j, i :: 0 <= j < |r.columns| && 0 <= i < r.height ==> r.columns[j][i] == f(t.columns[j][i])
  {
    Table(t.labels,
          seq(|t.columns|, j requires 0 <= j < |t.columns| =>
            seq(t.height, i requires 0 <= i < t.height => f(t.columns[j][i]))),
          t.height)
  }

  /* ---------------------------------------------------------------------- */
  /* Masks                                                                  */
  /* ---------------------------------------------------------------------- */

  /** dropna(how="all"): a row is kept when at least one of its cells is not missing. */
  function NotAllMissing(t: Table): (m: seq<bool>)
    requires t.WellFormed()
    ensures |m| == t.height
    ensures forall i :: 0 <= i < t.height ==>
              (m[i] <==> exists j :: 0 <= j < |t.columns| && t.columns[j][i] != Missing)
  {
    seq(t.height, i requires 0 <= i < t.height =>
      exists j :: 0 <= j < |t.columns| && t.columns[j][i] != Missing)
  }

  /** dropna(subset=names): a row is kept when none of its cells in a column
      labelled by one of `names` is missing. */
  function NoneMissingIn(t: Table, names: seq<string>): (m: seq<bool>)
    requires t.WellFormed()
    ensures |m| == t.height
    ensures forall i :: 0 <= i < t.height ==>
              (m[i] <==> forall j :: 0 <= j < |t.columns| && t.labels[j] in names ==> t.columns[j][i] != Missing)
  {
    seq(t.height, i requires 0 <= i < t.height =>
      forall j :: 0 <= j < |t.columns| && t.labels[j] in names ==> t.columns[j][i] != Missing)
  }

  /** `test(df[name])` as a row mask: a row is kept when its cell in every column
      labelled `name` passes `test` (every row, when there is no such column). */
  function ColumnMask(t: Table, name: string, test: Cell -> bool): (m: seq<bool>)
    requires t.WellFormed()
    ensures |m| == t.height
    ensures forall i :: 0 <= i < t.height ==>
              (m[i] <==> forall j :: 0 <= j < |t.columns| && t.labels[j] == name ==> test(t.columns[j][i]))
  {
    seq(t.height, i requires 0 <= i < t.height =>
      forall j :: 0 <= j < |t.columns| && t.labels[j] == name ==> test(t.columns[j][i]))
  }

  /** A row filter keeps a column test that every cell of the column passed. */
  lemma FilterKeepsColumnTest(t: Table, mask: seq<bool>, name: string, test: Cell -> bool)
    requires t.WellFormed() && |mask| == t.height
    requires forall j, i :: 0 <= j < |t.columns| && 0 <= i < t.height && t.labels[j] == name ==> test(t.columns[j][i])
    ensures var f := Filter(t, mask);
            forall j, k :: 0 <= j < |f.columns| && 0 <= k < f.height && f.labels[j] == name ==> test(f.columns[j][k])
  {
    var f := Filter(t, mask);
    forall j, k | 0 <= j < |f.columns| && 0 <= k < f.height && f.labels[j] == name
      ensures test(f.columns[j][k])
    {
      assert f.columns[j][k] == t.columns[j][KeptIndices(mask)[k]];
    }
  }

  /** Some cell of a column labelled `name` satisfies `bad`. */
  predicate ColumnHas(t: Table, name: string, bad: Cell -> bool)
    requires t.WellFormed()
  {
    exists j, i :: 0 <= j < |t.columns| && 0 <= i < t.height && t.labels[j] == name && bad(t.columns[j][i])
  }

  /* ---------------------------------------------------------------------- */
  /* Laws                                                                   */
  /* ---------------------------------------------------------------------- */

  /** Tables with the same labels, height and cells are equal. */
  lemma TableExtensionality(a: Table, b: Table)
    requires a.WellFormed() && b.WellFormed()
    requires a.labels == b.labels && a.height == b.height
    requires forall j, i :: 0 <= j < |a.columns| && 0 <= i < a.height ==> a.columns[j][i] == b.columns[j][i]
    ensures a == b
  {
    forall j | 0 <= j < |a.columns| ensures a.columns[j] == b.columns[j] {
      assert |a.columns[j]| == |b.columns[j]|;
    }
  }

  /** Filtering twice is filtering once by the conjunction, when the second mask
      reads, at each surviving row, what `m` says of that row in the original table. */
  lemma FilterTwice(t: Table, m1: seq<bool>, m2: seq<bool>, m: seq<bool>)
    requires t.WellFormed() && |m1| == t.height && |m| == t.height
    requires |m2| == |KeptIndices(m1)|
    requires forall k :: 0 <= k < |m2| ==> m2[k] == m[KeptIndices(m1)[k]]
    ensures Filter(Filter(t, m1), m2) == Filter(t, And(m1, m))
  {
    var k1, k2 := KeptIndices(m1), KeptIndices(m2);
    var both := And(m1, m);
    var c := seq(|k2|, k requires 0 <= k < |k2| => k1[k2[k]]);
    assert Enumerates(c, both) by {
      forall a, b | 0 <= a < b < |c| ensures c[a] < c[b] {
        assert k2[a] < k2[b];
      }
      forall i | 0 <= i < |both| && both[i] ensures i in c {
        assert i in k1;
        var x :| 0 <= x < |k1| && k1[x] == i;
        assert m2[x];
        assert x in k2;
        var y :| 0 <= y < |k2| && k2[y] == x;
        assert c[y] == i;
      }
    }
    EnumerationUnique(c, KeptIndices(both), both);
    TableExtensionality(Filter(Filter(t, m1), m2), Filter(t, both));
  }

  /** A mask that holds everywhere keeps the table as it is. */
  lemma FilterAll(t: Table, mask: seq<bool>)
    requires t.WellFormed() && |mask| == t.height
    requires forall i :: 0 <= i < |mask| ==> mask[i]
    ensures Filter(t, mask) == t
  {
    var all := seq(|mask|, i requires 0 <= i < |mask| => i as nat);
    assert Enumerates(all, mask) by {
      forall i | 0 <= i < |mask| ensures i in all { assert all[i] == i; }
    }
    EnumerationUnique(all, KeptIndices(mask), mask);
    TableExtensionality(Filter(t, mask), t);
  }

  /** A column map and a row filter commute. */
  lemma MapColumnFilter(t: Table, mask: seq<bool>, name: string, f: Cell -> Cell)
    requires t.WellFormed() && |mask| == t.height
    ensures MapColumn(Filter(t, mask), name, f) == Filter(MapColumn(t, name, f), mask)
  {
    TableExtensionality(MapColumn(Filter(t, mask), name, f), Filter(MapColumn(t, name, f), mask));
  }

  /** A filter keeps the cells that a column mask reads, so after filtering the
      mask is the original mask read at the kept rows. */
  lemma ColumnMaskFilter(t: Table, mask: seq<bool>, name: string, test: Cell -> bool)
    requires t.WellFormed() && |mask| == t.height
    ensures forall k :: 0 <= k < |KeptIndices(mask)| ==>
              ColumnMask(Filter(t, mask), name, test)[k] == ColumnMask(t, name, test)[KeptIndices(mask)[k]]
  {
  }

  /** The same, for dropna over a subset of columns. */
  lemma NoneMissingInFilter(t: Table, mask: seq<bool>, names: seq<string>)
    requires t.WellFormed() && |mask| == t.height
    ensures forall k :: 0 <= k < |KeptIndices(mask)| ==>
              NoneMissingIn(Filter(t, mask), names)[k] == NoneMissingIn(t, names)[KeptIndices(mask)[k]]
  {
  }

  /** Filtering by a column mask after a filter is one filter by both masks. */
  lemma FilterThenColumnMask(t: Table, mask: seq<bool>, name: string, test: Cell -> bool)
    requires t.WellFormed() && |mask| == t.height
    ensures var f := Filter(t, mask);
            Filter(f, ColumnMask(f, name, test)) == Filter(t, And(mask, ColumnMask(t, name, test)))
  {
    ColumnMaskFilter(t, mask, name, test);
    FilterTwice(t, mask, ColumnMask(Filter(t, mask), name, test), ColumnMask(t, name, test));
  }

  /** The same for dropna over a subset of columns. */
  lemma FilterThenNoneMissing(t: Table, mask: seq<bool>, names: seq<string>)
    requires t.WellFormed() && |mask| == t.height
    ensures var f := Filter(t, mask);
            Filter(f, NoneMissingIn(f, names)) == Filter(t, And(mask, NoneMissingIn(t, names)))
  {
    NoneMissingInFilter(t, mask, names);
    FilterTwice(t, mask, NoneMissingIn(Filter(t, mask), names), NoneMissingIn(t, names));
  }

  /** After a filter, a column holds a bad cell exactly when some kept row of
      the original does. */
  lemma ColumnHasFilter(t: Table, mask: seq<bool>, name: string, bad: Cell -> bool)
    requires t.WellFormed() && |mask| == t.height
    ensures ColumnHas(Filter(t, mask), name, bad) <==>
              exists j, i :: 0 <= j < |t.columns| && 0 <= i < t.height && mask[i] && t.labels[j] == name && bad(t.columns[j][i])
  {
    var f := Filter(t, mask);
    var idx := KeptIndices(mask);
    if ColumnHas(f, name, bad) {
      var j, k :| 0 <= j < |f.columns| && 0 <= k < f.height && f.labels[j] == name && bad(f.columns[j][k]);
      assert mask[idx[k]] && bad(t.columns[j][idx[k]]);
    }
    if exists j, i :: 0 <= j < |t.columns| && 0 <= i < t.height && mask[i] && t.labels[j] == name && bad(t.columns[j][i]) {
      var j, i :| 0 <= j < |t.columns| && 0 <= i < t.height && mask[i] && t.labels[j] == name && bad(t.columns[j][i]);
      assert i in idx;
      var k :| 0 <= k < |idx| && idx[k] == i;
      assert bad(f.columns[j][k]);
    }
  }

  /* ---------------------------------------------------------------------- */
  /* The mutable frame                                                      */
  /* ---------------------------------------------------------------------- */

  /** A pandas DataFrame: an object whose labels and columns are updated in place. */
  class Frame {
    var labels: seq<string>
    var columns: seq<seq<Cell>>
    var height: nat

    function Value(): Table
      reads this
    {
      Table(labels, columns, height)
    }

    ghost predicate Valid()
      reads this
    {
      Value().WellFormed()
    }

    constructor (t: Table)
      requires t.WellFormed()
      ensures Valid() && Value() == t
    {
      labels, columns, height := t.labels, t.columns, t.height;
    }

    /** `df[name] = f(df[name])`, in place. */
    method Assign(name: string, f: Cell -> Cell)
      requires Valid()
      modifies this
      ensures Valid() && Value() == MapColumn(old(Value()), name, f)
    {
      var t := MapColumn(Value(), name, f);
      columns := t.columns;
    }

    /** A new frame with every cell mapped (`df.replace(...)`). */
    method Replace(f: Cell -> Cell) returns (r: Frame)
      requires Valid()
      ensures fresh(r) && r.Valid() && r.Value() == MapCells(Value(), f)
    {
      r := new Frame(MapCells(Value(), f));
    }

    /** A new frame holding the rows `mask` keeps (`df[mask]`, `df.dropna(...)`). */
    method Select(mask: seq<bool>) returns (r: Frame)
      requires Valid() && |mask| == height
      ensures fresh(r) && r.Valid() && r.Value() == Filter(Value(), mask)
    {
      r := new Frame(Filter(Value(), mask));
    }
  }
}
