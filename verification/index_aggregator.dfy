/**
  The fold that turns the rows of `SHOW INDEX FROM t` into the table's
  indexes. The rows of one key come one per indexed column. The first row
  with a given `Key_name` creates the index, and that row decides the
  uniqueness, kind and comment. Every later row with the same name appends
  its column, after which the column list is stable-sorted again by
  `Seq_in_index`. A `LinkedHashMap` keyed by name keeps the indexes in the
  order their names were first seen.

  `Aggregate` is that fold, written as a function; `Indexes` is the loop
  with a name-to-slot map, as the Java code has it. `Reference` describes
  the same result without a fold: one index per distinct name, in
  first-seen order, whose columns are all the rows with that name, sorted.
  `AggregateIsReference` proves the two agree.
*/
module IndexAggregator {
  import opened Nullable
  import opened JavaText
  import opened Entities
  import opened IndexColumnOrder

  /** One row of `SHOW INDEX`, as the JDBC accessors read it. `Column_name`
      is null for a functional key part and is copied without being read. */
  datatype IndexRow = IndexRow(
    keyName: string,
    columnName: Option<string>,
    seqInIndex: int,
    nonUnique: bool,
    indexType: string,
    indexComment: string,
    collation: Option<string>,
    cardinality: int,
    subPart: int)

  /** The sort direction MySQL reports in `Collation`: `A` ascending, `D`
      descending, either case; anything else, or null, gives none. */
  function SortDirection(collation: Option<string>): (d: Option<Direction>)
    ensures d == Some(Asc) <==> collation.Some? && EqualsIgnoreCase(collation.value, "a")
    ensures d == Some(Desc) <==> collation.Some? && EqualsIgnoreCase(collation.value, "d")
    ensures d.None? <==> collation.None? || (!EqualsIgnoreCase(collation.value, "a") && !EqualsIgnoreCase(collation.value, "d"))
  {
    match collation
    case None => None
    case Some(c) =>
      if EqualsIgnoreCase(c, "a") then Some(Asc)
      else if EqualsIgnoreCase(c, "d") then Some(Desc)
      else None
  }

  /** The index column one row describes. */
  function GetTableIndexColumn(row: IndexRow): (c: TableIndexColumn)
    ensures c.columnName == row.columnName
    ensures c.ordinalPosition == row.seqInIndex
    ensures c.collation == row.collation
    ensures c.cardinality == row.cardinality && c.subPart == row.subPart
    ensures c.ascOrDesc == SortDirection(row.collation)
    ensures c.ascOrDesc.Some? ==> row.collation.Some? && |row.collation.value| == 1
  {
    TableIndexColumn(row.columnName, row.seqInIndex, row.collation, row.cardinality, row.subPart,
      SortDirection(row.collation))
  }

  /** The letter MySQL reports in `Collation` for a direction. */
  function CollationLetter(d: Direction): string {
    match d
    case Asc => "A"
    case Desc => "D"
  }

  /** The direction of an index column is the one its collation letter
      names, and each letter reads back as its own direction. */
  lemma DirectionOfColumn(row: IndexRow, d: Direction)
    ensures SortDirection(Some(CollationLetter(d))) == Some(d)
    ensures GetTableIndexColumn(row).ascOrDesc == Some(d) <==>
      row.collation.Some? && EqualsIgnoreCase(row.collation.value, CollationLetter(d))
  {
  }

  /** The kind of a new index, tried in this order: a key named `PRIMARY`
      (any case) is the primary key whatever its uniqueness; then a unique
      key; then the spatial and full-text index types; otherwise normal. */
  function Classify(keyName: string, unique: bool, indexType: string): IndexKind {
    if EqualsIgnoreCase(keyName, "PRIMARY") then PrimaryKey
    else if unique then Unique
    else if EqualsIgnoreCase(indexType, "SPATIAL") then Spatial
    else if EqualsIgnoreCase(indexType, "FULLTEXT") then Fulltext
    else Normal
  }

  /** The kinds `Classify` chooses, each with the condition that leads to it. */
  lemma ClassifyCases(keyName: string, unique: bool, indexType: string)
    ensures Classify(keyName, unique, indexType) == PrimaryKey <==> EqualsIgnoreCase(keyName, "PRIMARY")
    ensures Classify(keyName, unique, indexType) == Unique
      <==> !EqualsIgnoreCase(keyName, "PRIMARY") && unique
    ensures Classify(keyName, unique, indexType) == Spatial
      <==> !EqualsIgnoreCase(keyName, "PRIMARY") && !unique && EqualsIgnoreCase(indexType, "SPATIAL")
    ensures Classify(keyName, unique, indexType) == Fulltext
      <==> !EqualsIgnoreCase(keyName, "PRIMARY") && !unique && !EqualsIgnoreCase(indexType, "SPATIAL")
           && EqualsIgnoreCase(indexType, "FULLTEXT")
    ensures Classify(keyName, unique, indexType) == Normal
      <==> !EqualsIgnoreCase(keyName, "PRIMARY") && !unique && !EqualsIgnoreCase(indexType, "SPATIAL")
           && !EqualsIgnoreCase(indexType, "FULLTEXT")
  {
  }

  /** The index the first row of a key creates, holding that row's column. */
  function NewIndex(table: TableRef, row: IndexRow): (index: TableIndex)
    ensures index.name == row.keyName
    ensures index.databaseName == table.databaseName && index.schemaName == table.schemaName
    ensures index.tableName == table.tableName
    ensures index.unique == !row.nonUnique
    ensures index.comment == row.indexComment
    ensures index.kind == Classify(row.keyName, !row.nonUnique, row.indexType)
    ensures index.columnList == [GetTableIndexColumn(row)]
  {
    TableIndex(table.databaseName, table.schemaName, table.tableName, row.keyName, !row.nonUnique,
      Classify(row.keyName, !row.nonUnique, row.indexType), row.indexComment, [GetTableIndexColumn(row)])
  }

  /** Where the index called `name` sits in `acc`, or -1: the map lookup. */
  function Find(acc: seq<TableIndex>, name: string): (k: int)
    ensures -1 <= k < |acc|
    ensures k >= 0 ==> acc[k].name == name && forall i :: 0 <= i < k ==> acc[i].name != name
    ensures k == -1 ==> forall i :: 0 <= i < |acc| ==> acc[i].name != name
  {
    if |acc| == 0 then -1
    else if acc[0].name == name then 0
    else
      var k := Find(acc[1..], name);
      if k == -1 then -1 else k + 1
  }

  /** The result of appending one column and sorting the list again. */
  function AddColumn(index: TableIndex, row: IndexRow): TableIndex {
    index.(columnList := SortByPosition(index.columnList + [GetTableIndexColumn(row)]))
  }

  /** One turn of the loop: extend the index of that name, or add a new one. */
  function Step(table: TableRef, acc: seq<TableIndex>, row: IndexRow): seq<TableIndex> {
    var k := Find(acc, row.keyName);
    if k >= 0 then acc[k := AddColumn(acc[k], row)]
    else acc + [NewIndex(table, row)]
  }

  /** The whole loop over the rows, oldest first. */
  function Aggregate(table: TableRef, rows: seq<IndexRow>): (r: seq<TableIndex>)
    ensures |r| <= |rows|
    ensures |rows| > 0 ==> |r| > 0 && r[0].name == rows[0].keyName
  {
    if |rows| == 0 then []
    else Step(table, Aggregate(table, rows[..|rows| - 1]), rows[|rows| - 1])
  }

  // ---------------------------------------------------------------------
  // The same result described without the fold.

  /** Some row has key name `name`. */
  predicate HasKey(rows: seq<IndexRow>, name: string) {
    exists i :: 0 <= i < |rows| && rows[i].keyName == name
  }

  /** The position of the first row named `name`. */
  function FirstOccurrence(rows: seq<IndexRow>, name: string): (p: nat)
    requires HasKey(rows, name)
    ensures p < |rows| && rows[p].keyName == name
    ensures forall q :: 0 <= q < p ==> rows[q].keyName != name
  {
    if rows[0].keyName == name then 0
    else
      assert HasKey(rows[1..], name) by {
        var i :| 0 <= i < |rows| && rows[i].keyName == name;
        assert rows[1..][i - 1] == rows[i];
      }
      1 + FirstOccurrence(rows[1..], name)
  }

  /** The first row of every key name, in the order the names first appear. */
  function FirstRows(rows: seq<IndexRow>): seq<IndexRow> {
    if |rows| == 0 then []
    else
      var init, last := rows[..|rows| - 1], rows[|rows| - 1];
      if HasKey(init, last.keyName) then FirstRows(init) else FirstRows(init) + [last]
  }

  /** The rows with key name `name`, in their order. */
  function RowsNamed(rows: seq<IndexRow>, name: string): seq<IndexRow> {
    if |rows| == 0 then []
    else
      var init, last := rows[..|rows| - 1], rows[|rows| - 1];
      RowsNamed(init, name) + (if last.keyName == name then [last] else [])
  }

  /** The index columns of `rows`, one each, in order. */
  function ColumnsOf(rows: seq<IndexRow>): (cols: seq<TableIndexColumn>)
    ensures |cols| == |rows|
  {
    if |rows| == 0 then []
    else ColumnsOf(rows[..|rows| - 1]) + [GetTableIndexColumn(rows[|rows| - 1])]
  }

  /** The index whose first row is `first`: made from that row, with the
      columns of every row of the same name, sorted. */
  function IndexFor(table: TableRef, rows: seq<IndexRow>, first: IndexRow): TableIndex {
    NewIndex(table, first).(columnList := SortByPosition(ColumnsOf(RowsNamed(rows, first.keyName))))
  }

  function Reference(table: TableRef, rows: seq<IndexRow>): (r: seq<TableIndex>)
    ensures |r| == |FirstRows(rows)|
  {
    var firsts := FirstRows(rows);
    seq(|firsts|, k requires 0 <= k < |firsts| => IndexFor(table, rows, firsts[k]))
  }

  /** The number of columns over all indexes. */
  function TotalColumns(indexes: seq<TableIndex>): nat {
    if |indexes| == 0 then 0
    else TotalColumns(indexes[..|indexes| - 1]) + |indexes[|indexes| - 1].columnList|
  }

  // ---------------------------------------------------------------------
  // Facts about the reference description.

  /** `FirstOccurrence` is the only position that is named `name` and has no
      earlier row of that name. */
  lemma FirstOccurrenceUnique(rows: seq<IndexRow>, name: string, p: nat)
    requires p < |rows| && rows[p].keyName == name
    requires forall q :: 0 <= q < p ==> rows[q].keyName != name
    ensures FirstOccurrence(rows, name) == p
  {
  }

  /** Appending a row does not move the first row of a name already seen. */
  lemma FirstOccurrenceAppend(rows: seq<IndexRow>, row: IndexRow, name: string)
    requires HasKey(rows, name)
    ensures HasKey(rows + [row], name)
    ensures FirstOccurrence(rows + [row], name) == FirstOccurrence(rows, name)
  {
    var p := FirstOccurrence(rows, name);
    assert (rows + [row])[p] == rows[p];
    FirstOccurrenceUnique(rows + [row], name, p);
  }

  /** A name occurs in a longer list when it occurs in the shorter one or
      in the appended row. */
  lemma HasKeyAppend(rows: seq<IndexRow>, row: IndexRow, name: string)
    ensures HasKey(rows + [row], name) <==> HasKey(rows, name) || row.keyName == name
  {
    var longer := rows + [row];
    if HasKey(longer, name) {
      var i :| 0 <= i < |longer| && longer[i].keyName == name;
      if i < |rows| {
        assert rows[i] == longer[i];
      }
    }
    if HasKey(rows, name) {
      var i :| 0 <= i < |rows| && rows[i].keyName == name;
      assert longer[i] == rows[i];
    }
    assert longer[|rows|] == row;
  }

  lemma FirstRowsAppend(rows: seq<IndexRow>, row: IndexRow)
    ensures FirstRows(rows + [row])
      == if HasKey(rows, row.keyName) then FirstRows(rows) else FirstRows(rows) + [row]
  {
    assert (rows + [row])[..|rows|] == rows;
  }

  lemma RowsNamedAppend(rows: seq<IndexRow>, row: IndexRow, name: string)
    ensures RowsNamed(rows + [row], name)
      == RowsNamed(rows, name) + (if row.keyName == name then [row] else [])
  {
    assert (rows + [row])[..|rows|] == rows;
  }

  /** Each first row is the row where its name first appears. */
  lemma {:induction false} FirstRowsAreFirst(rows: seq<IndexRow>)
    ensures forall k :: 0 <= k < |FirstRows(rows)| ==>
      HasKey(rows, FirstRows(rows)[k].keyName)
      && FirstRows(rows)[k] == rows[FirstOccurrence(rows, FirstRows(rows)[k].keyName)]
  {
    if |rows| > 0 {
      var init, last := rows[..|rows| - 1], rows[|rows| - 1];
      assert rows == init + [last];
      FirstRowsAreFirst(init);
      FirstRowsAppend(init, last);
      var f := FirstRows(init);
      forall k | 0 <= k < |f|
        ensures HasKey(rows, f[k].keyName)
        ensures f[k] == rows[FirstOccurrence(rows, f[k].keyName)]
      {
        FirstOccurrenceAppend(init, last, f[k].keyName);
        assert rows[FirstOccurrence(init, f[k].keyName)] == init[FirstOccurrence(init, f[k].keyName)];
      }
      if !HasKey(init, last.keyName) {
        HasKeyAppend(init, last, last.keyName);
        FirstOccurrenceUnique(rows, last.keyName, |init|);
      }
    }
  }

  /** The first rows come in strictly increasing order of first appearance,
      so no name has two. */
  lemma {:induction false} FirstRowsOrdered(rows: seq<IndexRow>)
    ensures forall k :: 0 <= k < |FirstRows(rows)| ==> HasKey(rows, FirstRows(rows)[k].keyName)
    ensures forall i, j :: 0 <= i < j < |FirstRows(rows)| ==>
      FirstOccurrence(rows, FirstRows(rows)[i].keyName) < FirstOccurrence(rows, FirstRows(rows)[j].keyName)
  {
    FirstRowsAreFirst(rows);
    var f := FirstRows(rows);
    forall i, j | 0 <= i < j < |f|
      ensures FirstOccurrence(rows, f[i].keyName) < FirstOccurrence(rows, f[j].keyName)
    {
      OrderedAt(rows, i, j);
    }
  }

  /** Two first rows, in the order their names first appear. */
  lemma {:induction false} OrderedAt(rows: seq<IndexRow>, i: nat, j: nat)
    requires i < j < |FirstRows(rows)|
    ensures HasKey(rows, FirstRows(rows)[i].keyName) && HasKey(rows, FirstRows(rows)[j].keyName)
    ensures FirstOccurrence(rows, FirstRows(rows)[i].keyName) < FirstOccurrence(rows, FirstRows(rows)[j].keyName)
  {
    var init, last := rows[..|rows| - 1], rows[|rows| - 1];
    assert rows == init + [last];
    FirstRowsAppend(init, last);
    var f := FirstRows(init);
    assert FirstRows(rows)[i] == f[i];
    if j < |f| {
      assert FirstRows(rows)[j] == f[j];
      OrderedAt(init, i, j);
      FirstOccurrenceAppend(init, last, f[i].keyName);
      FirstOccurrenceAppend(init, last, f[j].keyName);
    } else {
      assert !HasKey(init, last.keyName) && FirstRows(rows)[j] == last;
      assert HasKey(init, f[i].keyName) by {
        FirstRowsAreFirst(init);
      }
      FirstOccurrenceAppend(init, last, f[i].keyName);
      HasKeyAppend(init, last, last.keyName);
      FirstOccurrenceUnique(rows, last.keyName, |init|);
    }
  }

  /** Every name that occurs has a first row. */
  lemma {:induction false} FirstRowsCover(rows: seq<IndexRow>)
    ensures forall name :: HasKey(rows, name) <==>
      exists k :: 0 <= k < |FirstRows(rows)| && FirstRows(rows)[k].keyName == name
  {
    if |rows| > 0 {
      var init, last := rows[..|rows| - 1], rows[|rows| - 1];
      assert rows == init + [last];
      FirstRowsCover(init);
      FirstRowsAppend(init, last);
      var f := FirstRows(init);
      var g := FirstRows(rows);
      forall name
        ensures HasKey(rows, name) <==> exists k :: 0 <= k < |g| && g[k].keyName == name
      {
        HasKeyAppend(init, last, name);
        if HasKey(init, name) {
          var k :| 0 <= k < |f| && f[k].keyName == name;
          assert g[k] == f[k];
        }
        if exists k :: 0 <= k < |g| && g[k].keyName == name {
          var k :| 0 <= k < |g| && g[k].keyName == name;
          if k < |f| {
            assert g[k] == f[k];
          }
        }
        if name == last.keyName && !HasKey(init, name) {
          assert g[|f|] == last;
        }
      }
    }
  }

  /** A name that never occurs has no rows. */
  lemma {:induction false} RowsNamedAbsent(rows: seq<IndexRow>, name: string)
    requires !HasKey(rows, name)
    ensures RowsNamed(rows, name) == []
  {
    if |rows| > 0 {
      var init, last := rows[..|rows| - 1], rows[|rows| - 1];
      assert rows == init + [last];
      HasKeyAppend(init, last, name);
      RowsNamedAbsent(init, name);
      RowsNamedAppend(init, last, name);
    }
  }

  /** Every row named `name` is in `RowsNamed`, and only those. */
  lemma {:induction false} RowsNamedSpec(rows: seq<IndexRow>, name: string)
    ensures forall r :: r in RowsNamed(rows, name) <==> r in rows && r.keyName == name
  {
    if |rows| > 0 {
      var init, last := rows[..|rows| - 1], rows[|rows| - 1];
      RowsNamedSpec(init, name);
      assert rows == init + [last];
    }
  }

  // ---------------------------------------------------------------------
  // The fold computes the reference description.

  /** No two first rows share a name. */
  lemma FirstRowsDistinct(rows: seq<IndexRow>)
    ensures forall i, j :: 0 <= i < j < |FirstRows(rows)| ==> FirstRows(rows)[i].keyName != FirstRows(rows)[j].keyName
  {
    FirstRowsOrdered(rows);
  }

  lemma ColumnsOfAppend(rows: seq<IndexRow>, row: IndexRow)
    ensures ColumnsOf(rows + [row]) == ColumnsOf(rows) + [GetTableIndexColumn(row)]
  {
    assert (rows + [row])[..|rows|] == rows;
  }

  /** A new row changes the reference index of its own name by adding its
      column and sorting again, and leaves the others as they were. */
  lemma IndexForAppend(table: TableRef, rows: seq<IndexRow>, row: IndexRow, first: IndexRow)
    ensures IndexFor(table, rows + [row], first)
      == if first.keyName == row.keyName then AddColumn(IndexFor(table, rows, first), row)
         else IndexFor(table, rows, first)
  {
    RowsNamedAppend(rows, row, first.keyName);
    if first.keyName == row.keyName {
      var named := RowsNamed(rows, first.keyName);
      ColumnsOfAppend(named, row);
      ResortAppend(ColumnsOf(named), GetTableIndexColumn(row));
      assert IndexFor(table, rows, first).columnList == SortByPosition(ColumnsOf(named));
      assert IndexFor(table, rows + [row], first).columnList
        == SortByPosition(SortByPosition(ColumnsOf(named)) + [GetTableIndexColumn(row)]);
    } else {
      assert RowsNamed(rows + [row], first.keyName) == RowsNamed(rows, first.keyName);
    }
  }

  /** The lookup finds the index of a name at the position of its first row. */
  lemma FindFirstRow(table: TableRef, rows: seq<IndexRow>, k: nat)
    requires k < |FirstRows(rows)|
    ensures Find(Reference(table, rows), FirstRows(rows)[k].keyName) == k
  {
    var acc := Reference(table, rows);
    var f := FirstRows(rows);
    FirstRowsDistinct(rows);
    var j := Find(acc, f[k].keyName);
    assert acc[k] == IndexFor(table, rows, f[k]);
    assert acc[j] == IndexFor(table, rows, f[j]);
  }

  /** A row whose name was seen before extends that name's index. */
  lemma StepSeen(table: TableRef, rows: seq<IndexRow>, row: IndexRow)
    requires HasKey(rows, row.keyName)
    ensures Step(table, Reference(table, rows), row) == Reference(table, rows + [row])
  {
    var longer := rows + [row];
    var acc := Reference(table, rows);
    var f := FirstRows(rows);
    assert exists k :: 0 <= k < |f| && f[k].keyName == row.keyName by {
      FirstRowsCover(rows);
    }
    var k :| 0 <= k < |f| && f[k].keyName == row.keyName;
    FindFirstRow(table, rows, k);
    assert FirstRows(longer) == f by {
      FirstRowsAppend(rows, row);
    }
    var next := acc[k := AddColumn(acc[k], row)];
    var ref := Reference(table, longer);
    forall i | 0 <= i < |f|
      ensures next[i] == ref[i]
    {
      SeenAt(table, rows, row, k, i);
    }
  }

  /** One index after a row whose name is at slot `k`: only slot `k` grows. */
  lemma SeenAt(table: TableRef, rows: seq<IndexRow>, row: IndexRow, k: nat, i: nat)
    requires k < |FirstRows(rows)| && FirstRows(rows)[k].keyName == row.keyName
    requires i < |FirstRows(rows)|
    ensures (if i == k then AddColumn(Reference(table, rows)[i], row) else Reference(table, rows)[i])
      == IndexFor(table, rows + [row], FirstRows(rows)[i])
  {
    var f := FirstRows(rows);
    assert Reference(table, rows)[i] == IndexFor(table, rows, f[i]);
    IndexForAppend(table, rows, row, f[i]);
    if i != k {
      assert f[i].keyName != row.keyName by {
        FirstRowsDistinct(rows);
      }
    }
  }

  /** A row with a new name adds an index at the end. */
  lemma StepNew(table: TableRef, rows: seq<IndexRow>, row: IndexRow)
    requires !HasKey(rows, row.keyName)
    ensures Step(table, Reference(table, rows), row) == Reference(table, rows + [row])
  {
    var longer := rows + [row];
    var acc := Reference(table, rows);
    var f := FirstRows(rows);
    var name := row.keyName;
    FirstRowsCover(rows);
    FirstRowsAppend(rows, row);
    var g := f + [row];
    assert FirstRows(longer) == g;
    assert Find(acc, name) == -1 by {
      forall i | 0 <= i < |acc|
        ensures acc[i].name != name
      {
        assert acc[i] == IndexFor(table, rows, f[i]);
      }
    }
    var next := acc + [NewIndex(table, row)];
    var ref := Reference(table, longer);
    assert |next| == |ref|;
    forall i | 0 <= i < |g|
      ensures next[i] == ref[i]
    {
      if i < |f| {
        OldAt(table, rows, row, i);
      } else {
        NewSlot(table, rows, row);
      }
    }
    assert Step(table, acc, row) == next;
  }

  /** After a row with a new name, an index that was there stays as it was. */
  lemma OldAt(table: TableRef, rows: seq<IndexRow>, row: IndexRow, i: nat)
    requires !HasKey(rows, row.keyName)
    requires i < |FirstRows(rows)|
    ensures Reference(table, rows)[i] == IndexFor(table, rows + [row], FirstRows(rows)[i])
  {
    var f := FirstRows(rows);
    IndexForAppend(table, rows, row, f[i]);
    assert f[i].keyName != row.keyName by {
      FirstRowsAreFirst(rows);
    }
  }

  /** A row with a new name makes an index of its own row alone. */
  lemma NewSlot(table: TableRef, rows: seq<IndexRow>, row: IndexRow)
    requires !HasKey(rows, row.keyName)
    ensures NewIndex(table, row) == IndexFor(table, rows + [row], row)
  {
    IndexForAppend(table, rows, row, row);
    RowsNamedAbsent(rows, row.keyName);
    assert ColumnsOf(RowsNamed(rows, row.keyName)) == [];
    assert [] + [GetTableIndexColumn(row)] == [GetTableIndexColumn(row)];
  }

  /** After any number of rows the fold holds exactly the reference indexes. */
  lemma {:induction false} AggregateIsReference(table: TableRef, rows: seq<IndexRow>)
    ensures Aggregate(table, rows) == Reference(table, rows)
  {
    if |rows| > 0 {
      var init, last := rows[..|rows| - 1], rows[|rows| - 1];
      assert rows == init + [last];
      AggregateIsReference(table, init);
      if HasKey(init, last.keyName) {
        StepSeen(table, init, last);
      } else {
        StepNew(table, init, last);
      }
    }
  }

  /** Replacing one index changes the total by the difference in its size. */
  lemma {:induction false} TotalColumnsUpdate(indexes: seq<TableIndex>, k: nat, index: TableIndex)
    requires k < |indexes|
    ensures TotalColumns(indexes[k := index]) + |indexes[k].columnList|
      == TotalColumns(indexes) + |index.columnList|
  {
    var n := |indexes| - 1;
    if k < n {
      TotalColumnsUpdate(indexes[..n], k, index);
      assert indexes[k := index][..n] == indexes[..n][k := index];
    } else {
      assert indexes[k := index][..n] == indexes[..n];
    }
  }

  /** Every row contributes exactly one column to exactly one index. */
  lemma {:induction false} AggregateTotal(table: TableRef, rows: seq<IndexRow>)
    ensures TotalColumns(Aggregate(table, rows)) == |rows|
  {
    if |rows| > 0 {
      var init, last := rows[..|rows| - 1], rows[|rows| - 1];
      AggregateTotal(table, init);
      var acc := Aggregate(table, init);
      var k := Find(acc, last.keyName);
      if k >= 0 {
        TotalColumnsUpdate(acc, k, AddColumn(acc[k], last));
      } else {
        assert (acc + [NewIndex(table, last)])[..|acc|] == acc;
      }
    }
  }

  /** What the indexes of a table are, stated without the fold: one per key
      name, in the order the names first appear; each built from the first
      row of its name (so that row alone fixes the uniqueness, kind and
      comment); its columns those of all rows with that name, stable-sorted
      by position. */
  lemma ReferenceSpec(table: TableRef, rows: seq<IndexRow>)
    ensures forall k :: 0 <= k < |Reference(table, rows)| ==>
      HasKey(rows, Reference(table, rows)[k].name)
      && Reference(table, rows)[k]
         == IndexFor(table, rows, rows[FirstOccurrence(rows, Reference(table, rows)[k].name)])
    ensures forall i, j :: 0 <= i < j < |Reference(table, rows)| ==>
      HasKey(rows, Reference(table, rows)[i].name) && HasKey(rows, Reference(table, rows)[j].name)
      && FirstOccurrence(rows, Reference(table, rows)[i].name)
         < FirstOccurrence(rows, Reference(table, rows)[j].name)
    ensures forall name :: HasKey(rows, name) <==>
      exists k :: 0 <= k < |Reference(table, rows)| && Reference(table, rows)[k].name == name
    ensures forall k :: 0 <= k < |Reference(table, rows)| ==> Sorted(Reference(table, rows)[k].columnList)
    ensures forall k, p :: 0 <= k < |Reference(table, rows)| ==>
      WithPosition(Reference(table, rows)[k].columnList, p)
         == WithPosition(ColumnsOf(RowsNamed(rows, Reference(table, rows)[k].name)), p)
  {
    FirstRowsAreFirst(rows);
    FirstRowsOrdered(rows);
    FirstRowsCover(rows);
    var r := Reference(table, rows);
    var f := FirstRows(rows);
    assert forall k :: 0 <= k < |r| ==> r[k] == IndexFor(table, rows, f[k]) && r[k].name == f[k].keyName;
    forall name | HasKey(rows, name)
      ensures exists k :: 0 <= k < |r| && r[k].name == name
    {
      var k :| 0 <= k < |f| && f[k].keyName == name;
      assert r[k].name == name;
    }
    forall k | 0 <= k < |r|
      ensures Sorted(r[k].columnList)
    {
      assert r[k].columnList == SortByPosition(ColumnsOf(RowsNamed(rows, r[k].name)));
      SortSorted(ColumnsOf(RowsNamed(rows, r[k].name)));
    }
    forall k, p | 0 <= k < |r|
      ensures WithPosition(r[k].columnList, p) == WithPosition(ColumnsOf(RowsNamed(rows, r[k].name)), p)
    {
      assert r[k].columnList == SortByPosition(ColumnsOf(RowsNamed(rows, r[k].name)));
      SortStable(ColumnsOf(RowsNamed(rows, r[k].name)), p);
    }
  }

  // ---------------------------------------------------------------------
  // The loop itself.

  /** `slot` maps each index name to the position of that index, and
      holds no other name: the `LinkedHashMap` seen as positions. */
  predicate IsSlotMap(slot: map<string, nat>, indexes: seq<TableIndex>) {
    && (forall name :: name in slot ==> slot[name] < |indexes| && indexes[slot[name]].name == name)
    && (forall k :: 0 <= k < |indexes| ==> indexes[k].name in slot && slot[indexes[k].name] == k)
  }

  /** A map lookup finds what the linear search finds. */
  lemma SlotFind(slot: map<string, nat>, indexes: seq<TableIndex>, name: string)
    requires IsSlotMap(slot, indexes)
    ensures Find(indexes, name) == if name in slot then slot[name] else -1
  {
    var k := Find(indexes, name);
    if k >= 0 {
      assert indexes[k].name in slot;
    }
  }

  /** One turn of the loop keeps the slot map in step with the list. */
  lemma SlotStep(slot: map<string, nat>, indexes: seq<TableIndex>, table: TableRef, row: IndexRow)
    requires IsSlotMap(slot, indexes)
    ensures row.keyName in slot ==>
      IsSlotMap(slot, indexes[slot[row.keyName] := AddColumn(indexes[slot[row.keyName]], row)])
    ensures row.keyName !in slot ==>
      IsSlotMap(slot[row.keyName := |indexes|], indexes + [NewIndex(table, row)])
  {
    if row.keyName !in slot {
      var longer := indexes + [NewIndex(table, row)];
      forall k | 0 <= k < |longer|
        ensures longer[k].name in slot[row.keyName := |indexes|]
        ensures slot[row.keyName := |indexes|][longer[k].name] == k
      {
        if k < |indexes| {
          assert longer[k] == indexes[k];
        }
      }
    }
  }

  /** What the fold yields, collected for the loop's contract. */
  lemma AggregateSpec(table: TableRef, rows: seq<IndexRow>)
    ensures Aggregate(table, rows) == Reference(table, rows)
    ensures TotalColumns(Aggregate(table, rows)) == |rows|
    ensures forall name :: HasKey(rows, name) <==>
      exists k :: 0 <= k < |Aggregate(table, rows)| && Aggregate(table, rows)[k].name == name
    ensures forall k :: 0 <= k < |Aggregate(table, rows)| ==> Sorted(Aggregate(table, rows)[k].columnList)
    ensures forall i, j :: 0 <= i < j < |Aggregate(table, rows)| ==>
      Aggregate(table, rows)[i].name != Aggregate(table, rows)[j].name
  {
    AggregateIsReference(table, rows);
    AggregateTotal(table, rows);
    ReferenceSpec(table, rows);
    var r := Reference(table, rows);
    forall i, j | 0 <= i < j < |r|
      ensures r[i].name != r[j].name
    {
      FirstRowsDistinct(rows);
      assert r[i].name == FirstRows(rows)[i].keyName && r[j].name == FirstRows(rows)[j].keyName;
    }
  }

  /** Uniqueness, kind and comment of every index come from the first row
      of its name; later rows of that name only add columns. */
  lemma FirstRowDecides(table: TableRef, rows: seq<IndexRow>, k: nat)
    requires k < |Aggregate(table, rows)|
    ensures HasKey(rows, Aggregate(table, rows)[k].name)
    ensures var first := rows[FirstOccurrence(rows, Aggregate(table, rows)[k].name)];
      && Aggregate(table, rows)[k].unique == !first.nonUnique
      && Aggregate(table, rows)[k].kind == Classify(first.keyName, !first.nonUnique, first.indexType)
      && Aggregate(table, rows)[k].comment == first.indexComment
  {
    AggregateIsReference(table, rows);
    ReferenceSpec(table, rows);
  }

  /** The rows of `SHOW INDEX` folded into indexes with a name-to-slot map
      standing in for the `LinkedHashMap`. */
  method Indexes(table: TableRef, rows: seq<IndexRow>) returns (indexes: seq<TableIndex>)
    ensures indexes == Reference(table, rows)
    ensures TotalColumns(indexes) == |rows|
    ensures forall i, j :: 0 <= i < j < |indexes| ==> indexes[i].name != indexes[j].name
    ensures forall name :: HasKey(rows, name) <==> exists k :: 0 <= k < |indexes| && indexes[k].name == name
    ensures forall k :: 0 <= k < |indexes| ==> Sorted(indexes[k].columnList)
  {
    var slot: map<string, nat> := map[];
    indexes := [];
    var i := 0;
    while i < |rows|
      invariant 0 <= i <= |rows|
      invariant indexes == Aggregate(table, rows[..i])
      invariant IsSlotMap(slot, indexes)
    {
      var row := rows[i];
      assert rows[..i + 1][..i] == rows[..i];
      SlotFind(slot, indexes, row.keyName);
      SlotStep(slot, indexes, table, row);
      if row.keyName in slot {
        var k := slot[row.keyName];
        indexes := indexes[k := AddColumn(indexes[k], row)];
      } else {
        slot := slot[row.keyName := |indexes|];
        indexes := indexes + [NewIndex(table, row)];
      }
      i := i + 1;
    }
    assert rows[..i] == rows;
    AggregateSpec(table, rows);
  }
}
