/**
  The horizontally scrolling grid picker: a list laid out column by
  column, numRows items per column, with null placeholders where the list
  runs out or an item is falsy.
*/
module Grid {
  import opened Wrappers

  /** The default number of rows per column. */
  const DefaultNumRows: nat := 2
  /** The default gap between columns and between items of a column. */
  const DefaultGap: nat := 12

  /** Math.ceil(length / numRows): the fewest columns of numRows slots that hold length items. */
  function ColumnCount(length: nat, numRows: nat): (count: nat)
    requires numRows >= 1
    ensures length <= count * numRows < length + numRows
  {
    var count := (length + numRows - 1) / numRows;
    assert count * numRows + (length + numRows - 1) % numRows == length + numRows - 1;
    count
  }

  /** data[i] || null: the item at i when it exists and is truthy, the null placeholder otherwise. */
  function Slot<T>(data: seq<T>, i: nat, truthy: T -> bool): (slot: Option<T>)
    ensures slot.Some? <==> i < |data| && truthy(data[i])
    ensures slot.Some? ==> slot.value == data[i]
  {
    if i < |data| && truthy(data[i]) then Some(data[i]) else None
  }

  /**
    The transposition loop: column c, row r holds the slot of list index
    c * numRows + r, over ceil(length / numRows) columns of numRows rows.
  */
  method ColumnsData<T>(data: seq<T>, numRows: nat, truthy: T -> bool) returns (columns: array2<Option<T>>)
    requires numRows >= 1
    ensures fresh(columns)
    ensures columns.Length0 == ColumnCount(|data|, numRows) && columns.Length1 == numRows
    ensures forall c, r :: 0 <= c < columns.Length0 && 0 <= r < columns.Length1 ==>
              columns[c, r] == Slot(data, c * numRows + r, truthy)
  {
    var numColumns := ColumnCount(|data|, numRows);
    columns := new Option<T>[numColumns, numRows]((_, _) => None);
    for colIndex := 0 to numColumns
      invariant forall c, r :: 0 <= c < colIndex && 0 <= r < numRows ==> columns[c, r] == Slot(data, c * numRows + r, truthy)
    {
      for rowIndex := 0 to numRows
        invariant forall c, r :: 0 <= c < colIndex && 0 <= r < numRows ==> columns[c, r] == Slot(data, c * numRows + r, truthy)
        invariant forall r :: 0 <= r < rowIndex ==> columns[colIndex, r] == Slot(data, colIndex * numRows + r, truthy)
      {
        var originalIndex := colIndex * numRows + rowIndex;
        columns[colIndex, rowIndex] := Slot(data, originalIndex, truthy);
      }
    }
  }

  /** The columns the loop builds, as values: the reference the lemmas below reason about. */
  function GridColumns<T>(data: seq<T>, numRows: nat, truthy: T -> bool): (cols: seq<seq<Option<T>>>)
    requires numRows >= 1
    ensures |cols| == ColumnCount(|data|, numRows)
    ensures forall c :: 0 <= c < |cols| ==> |cols[c]| == numRows
    ensures forall c, r :: 0 <= c < |cols| && 0 <= r < numRows ==> cols[c][r] == Slot(data, c * numRows + r, truthy)
  {
    seq(ColumnCount(|data|, numRows), c requires 0 <= c =>
      seq(numRows, r requires 0 <= r => Slot(data, c * numRows + r, truthy)))
  }

  /** The columns read one after the other. */
  function Concat<T>(cols: seq<seq<T>>): seq<T>
    decreases |cols|
  {
    if cols == [] then [] else Concat(cols[..|cols| - 1]) + cols[|cols| - 1]
  }

  /** Reading the first k columns top to bottom gives the first k * numRows slots. */
  lemma {:induction false} ConcatColumns<T>(data: seq<T>, numRows: nat, truthy: T -> bool, k: nat)
    requires numRows >= 1
    requires k <= ColumnCount(|data|, numRows)
    ensures |Concat(GridColumns(data, numRows, truthy)[..k])| == k * numRows
    ensures forall i :: 0 <= i < k * numRows ==> Concat(GridColumns(data, numRows, truthy)[..k])[i] == Slot(data, i, truthy)
    decreases k
  {
    var cols := GridColumns(data, numRows, truthy);
    if k > 0 {
      ConcatColumns(data, numRows, truthy, k - 1);
      assert cols[..k][..k - 1] == cols[..k - 1];
      var prefix := Concat(cols[..k - 1]);
      assert Concat(cols[..k]) == prefix + cols[k - 1];
      AppendColumn(data, numRows, truthy, prefix, cols[k - 1], k - 1);
    }
  }

  /** Slots 0 up to c * numRows followed by column c are slots 0 up to (c + 1) * numRows. */
  lemma AppendColumn<T>(data: seq<T>, numRows: nat, truthy: T -> bool, prefix: seq<Option<T>>, column: seq<Option<T>>, c: nat)
    requires |prefix| == c * numRows && |column| == numRows
    requires forall i :: 0 <= i < c * numRows ==> prefix[i] == Slot(data, i, truthy)
    requires forall r :: 0 <= r < numRows ==> column[r] == Slot(data, c * numRows + r, truthy)
    ensures |prefix + column| == (c + 1) * numRows
    ensures forall i :: 0 <= i < (c + 1) * numRows ==> (prefix + column)[i] == Slot(data, i, truthy)
  {
    var base := c * numRows;
    assert (c + 1) * numRows == base + numRows;
    forall i | base <= i < base + numRows
      ensures (prefix + column)[i] == Slot(data, i, truthy)
    {
      assert (prefix + column)[i] == column[i - base];
    }
  }

  /**
    With every item truthy, reading the columns top to bottom gives the
    list itself followed by fewer than numRows null placeholders.
  */
  lemma GridReadsBackList<T>(data: seq<T>, numRows: nat, truthy: T -> bool)
    requires numRows >= 1
    requires forall i :: 0 <= i < |data| ==> truthy(data[i])
    ensures var flat := Concat(GridColumns(data, numRows, truthy));
      && |data| <= |flat| < |data| + numRows
      && (forall i :: 0 <= i < |data| ==> flat[i] == Some(data[i]))
      && (forall i :: |data| <= i < |flat| ==> flat[i] == None)
  {
    var cols := GridColumns(data, numRows, truthy);
    ConcatColumns(data, numRows, truthy, |cols|);
    assert cols[..|cols|] == cols;
  }

  /**
    renderColumnItem for column colIndex: the rendered items with the list
    index each one is reported under, null placeholders skipped.
  */
  function RenderColumn<T>(column: seq<Option<T>>, colIndex: nat, numRows: nat, truthy: T -> bool): (items: seq<(T, nat)>)
    ensures |items| <= |column|
    ensures forall k :: 0 <= k < |items| ==>
              exists r :: 0 <= r < |column| && items[k].1 == colIndex * numRows + r
                          && column[r] == Some(items[k].0) && truthy(items[k].0)
    decreases |column|
  {
    if column == [] then []
    else
      var last := |column| - 1;
      var init := RenderColumn(column[..last], colIndex, numRows, truthy);
      assert forall k :: 0 <= k < |init| ==>
        exists r :: 0 <= r < |column| && init[k].1 == colIndex * numRows + r
                    && column[r] == Some(init[k].0) && truthy(init[k].0) by {
        forall k | 0 <= k < |init|
          ensures exists r :: 0 <= r < |column| && init[k].1 == colIndex * numRows + r
                              && column[r] == Some(init[k].0) && truthy(init[k].0)
        {
          var r :| 0 <= r < last && init[k].1 == colIndex * numRows + r
                   && column[..last][r] == Some(init[k].0) && truthy(init[k].0);
          assert column[r] == column[..last][r];
        }
      }
      init + (if column[last].Some? && truthy(column[last].value) then [(column[last].value, colIndex * numRows + last)] else [])
  }

  /** All columns rendered one after the other. */
  function RenderAll<T>(cols: seq<seq<Option<T>>>, numRows: nat, truthy: T -> bool): seq<(T, nat)>
    decreases |cols|
  {
    if cols == [] then [] else RenderAll(cols[..|cols| - 1], numRows, truthy) + RenderColumn(cols[|cols| - 1], |cols| - 1, numRows, truthy)
  }

  /** The truthy items of a list with their indices, in list order: the reference for rendering. */
  function TruthyIndexed<T>(data: seq<T>, truthy: T -> bool): seq<(T, nat)>
    decreases |data|
  {
    if data == [] then []
    else TruthyIndexed(data[..|data| - 1], truthy)
         + (if truthy(data[|data| - 1]) then [(data[|data| - 1], |data| - 1)] else [])
  }

  /** The items rendered for the slots from index 0 up to m, in order. */
  function RenderSlots<T>(data: seq<T>, m: nat, truthy: T -> bool): seq<(T, nat)>
    decreases m
  {
    if m == 0 then []
    else RenderSlots(data, m - 1, truthy)
         + (if Slot(data, m - 1, truthy).Some? then [(data[m - 1], m - 1)] else [])
  }

  /** column holds slots c * numRows up to (c + 1) * numRows, as column c of the grid does. */
  ghost predicate IsColumn<T>(data: seq<T>, numRows: nat, truthy: T -> bool, column: seq<Option<T>>, c: nat) {
    |column| == numRows && forall j :: 0 <= j < numRows ==> column[j] == Slot(data, c * numRows + j, truthy)
  }

  /**
    Rendering the first r rows of a column whose slots start at base renders
    the slots from base up to base + r.
  */
  lemma {:induction false} RenderColumnSlots<T>(data: seq<T>, numRows: nat, truthy: T -> bool,
                                                column: seq<Option<T>>, c: nat, base: nat, r: nat)
    requires base == c * numRows && r <= |column|
    requires forall j :: 0 <= j < |column| ==> column[j] == Slot(data, base + j, truthy)
    ensures RenderSlots(data, base, truthy) + RenderColumn(column[..r], c, numRows, truthy)
         == RenderSlots(data, base + r, truthy)
    decreases r
  {
    if r > 0 {
      RenderColumnSlots(data, numRows, truthy, column, c, base, r - 1);
      assert column[..r][..r - 1] == column[..r - 1];
      assert column[..r][r - 1] == Slot(data, base + r - 1, truthy);
    }
  }

  /** Rendering the first k columns of the grid renders the first k * numRows slots. */
  lemma {:induction false} RenderAllSlots<T>(data: seq<T>, numRows: nat, truthy: T -> bool, cols: seq<seq<Option<T>>>, k: nat)
    requires k <= |cols|
    requires forall c :: 0 <= c < |cols| ==> IsColumn(data, numRows, truthy, cols[c], c)
    ensures RenderAll(cols[..k], numRows, truthy) == RenderSlots(data, k * numRows, truthy)
    decreases k
  {
    if k > 0 {
      var base := (k - 1) * numRows;
      assert base + numRows == k * numRows;
      var column := cols[k - 1];
      assert IsColumn(data, numRows, truthy, column, k - 1);
      RenderAllSlots(data, numRows, truthy, cols, k - 1);
      RenderColumnSlots(data, numRows, truthy, column, k - 1, base, numRows);
      assert cols[..k][..k - 1] == cols[..k - 1];
      assert column[..numRows] == column;
      assert RenderAll(cols[..k], numRows, truthy)
          == RenderAll(cols[..k - 1], numRows, truthy) + RenderColumn(column, k - 1, numRows, truthy);
    }
  }

  /** Slots beyond the list render nothing; the others render the truthy items with their indices. */
  lemma {:induction false} RenderSlotsTruthy<T>(data: seq<T>, m: nat, truthy: T -> bool)
    ensures RenderSlots(data, m, truthy) == TruthyIndexed(data[..if m <= |data| then m else |data|], truthy)
    decreases m
  {
    if m > 0 {
      RenderSlotsTruthy(data, m - 1, truthy);
      if m <= |data| {
        assert data[..m][..m - 1] == data[..m - 1];
      }
    }
  }

  /**
    Rendering the whole grid shows every truthy item exactly once, in list
    order, under its own list index.
  */
  lemma RenderGrid<T>(data: seq<T>, numRows: nat, truthy: T -> bool)
    requires numRows >= 1
    ensures RenderAll(GridColumns(data, numRows, truthy), numRows, truthy) == TruthyIndexed(data, truthy)
  {
    var cols := GridColumns(data, numRows, truthy);
    assert forall c :: 0 <= c < |cols| ==> IsColumn(data, numRows, truthy, cols[c], c);
    RenderAllSlots(data, numRows, truthy, cols, |cols|);
    assert cols[..|cols|] == cols;
    RenderSlotsTruthy(data, |cols| * numRows, truthy);
    assert data[..|data|] == data;
  }

  /** TruthyIndexed lists exactly the truthy items, each under its own index, indices increasing. */
  lemma {:induction false} TruthyIndexedSpec<T>(data: seq<T>, truthy: T -> bool)
    ensures forall k :: 0 <= k < |TruthyIndexed(data, truthy)| ==>
              TruthyIndexed(data, truthy)[k].1 < |data|
              && TruthyIndexed(data, truthy)[k].0 == data[TruthyIndexed(data, truthy)[k].1]
              && truthy(TruthyIndexed(data, truthy)[k].0)
    ensures forall k, l :: 0 <= k < l < |TruthyIndexed(data, truthy)| ==>
              TruthyIndexed(data, truthy)[k].1 < TruthyIndexed(data, truthy)[l].1
    ensures forall i :: 0 <= i < |data| && truthy(data[i]) ==> (data[i], i) in TruthyIndexed(data, truthy)
    decreases |data|
  {
    if data != [] {
      var init := data[..|data| - 1];
      TruthyIndexedSpec(init, truthy);
      assert forall i :: 0 <= i < |init| ==> init[i] == data[i];
    }
  }
}
