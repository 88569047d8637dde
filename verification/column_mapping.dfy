/**
  One row of `information_schema.COLUMNS` becomes one `TableColumn`. The
  name is copied to both the current and the original name, the data type
  is upper-cased, the flags are derived from `EXTRA`, `COLUMN_KEY` and
  `IS_NULLABLE`, and the type-size parser then reads the size, scale or
  value list out of `COLUMN_TYPE`.
*/
module ColumnMapping {
  import opened Nullable
  import opened JavaText
  import opened JavaInt
  import opened Entities
  import opened TypeSize

  /** The columns of `information_schema.COLUMNS` the mapping reads. */
  datatype ColumnRow = ColumnRow(
    columnName: string,
    dataType: string,
    columnDefault: Option<string>,
    extra: string,
    columnComment: string,
    columnKey: string,
    isNullable: string,
    ordinalPosition: int,
    numericScale: int,
    characterSetName: Option<string>,
    collationName: Option<string>,
    columnType: string)

  /** The marker in `EXTRA` of an auto-increment column. */
  const AUTO_INCREMENT: string := "auto_increment"

  /** The column before the type-size parser runs. */
  function BaseColumn(table: TableRef, row: ColumnRow): TableColumn {
    TableColumn(
      table.databaseName,
      table.tableName,
      row.columnName,
      row.columnName,
      ToUpperCase(row.dataType),
      row.columnDefault,
      Contains(row.extra, AUTO_INCREMENT),
      row.columnComment,
      EqualsIgnoreCase(row.columnKey, "PRI"),
      if EqualsIgnoreCase(row.isNullable, "YES") then 1 else 0,
      row.ordinalPosition,
      row.numericScale,
      row.characterSetName,
      row.collationName,
      None,
      None)
  }

  /** The column one row describes. */
  function MapColumn(table: TableRef, row: ColumnRow): (c: TableColumn)
    ensures c.databaseName == table.databaseName && c.tableName == table.tableName
    // the original name starts out equal to the name
    ensures c.oldName == row.columnName && c.name == row.columnName
    // the type is the data type in upper case
    ensures |c.columnType| == |row.dataType|
    ensures forall i :: 0 <= i < |c.columnType| ==> c.columnType[i] == UpperChar(row.dataType[i])
    ensures forall i :: 0 <= i < |c.columnType| ==> !('a' <= c.columnType[i] <= 'z')
    ensures c.defaultValue == row.columnDefault && c.comment == row.columnComment
    ensures c.autoIncrement <==> exists j: nat :: OccursAt(row.extra, AUTO_INCREMENT, j)
    ensures c.primaryKey <==> EqualsIgnoreCase(row.columnKey, "PRI")
    ensures c.nullable == (if EqualsIgnoreCase(row.isNullable, "YES") then 1 else 0)
    ensures c.ordinalPosition == row.ordinalPosition
    ensures c.charSetName == row.characterSetName && c.collationName == row.collationName
    // the size and the value list are never both set
    ensures !(c.columnSize.Some? && c.value.Some?)
    ensures c.columnSize.Some? ==> IsInt32(c.columnSize.value)
    // without a qualifier there is no size or value list and the scale is NUMERIC_SCALE
    ensures '(' !in row.columnType ==>
      c.columnSize.None? && c.value.None? && c.decimalDigits == row.numericScale
    // a set or enum type never gets a size, and keeps NUMERIC_SCALE
    ensures IsValueListType(row.dataType) ==> c.columnSize.None? && c.decimalDigits == row.numericScale
  {
    ContainsOccurs(row.extra, AUTO_INCREMENT);
    UpperCasePreservesIgnoreCase(row.dataType, "SET");
    UpperCasePreservesIgnoreCase(row.dataType, "ENUM");
    SetColumnSize(BaseColumn(table, row), row.columnType)
  }

  /** A sized type such as `varchar(255)` gives that size and nothing else. */
  lemma SizedColumn(table: TableRef, row: ColumnRow, base: string, size: int)
    requires !IsValueListType(row.dataType)
    requires '(' !in base && ')' !in base && IsInt32(size)
    requires row.columnType == SizedType(base, size)
    ensures MapColumn(table, row).columnSize == Some(size)
    ensures MapColumn(table, row).decimalDigits == row.numericScale
    ensures MapColumn(table, row).value.None?
  {
    UpperCasePreservesIgnoreCase(row.dataType, "SET");
    UpperCasePreservesIgnoreCase(row.dataType, "ENUM");
    SizedTypeRoundTrip(BaseColumn(table, row), base, size);
  }

  /** A scaled type such as `decimal(10,2)` gives the size and the scale. */
  lemma ScaledColumn(table: TableRef, row: ColumnRow, base: string, size: int, scale: int)
    requires !IsValueListType(row.dataType)
    requires '(' !in base && ')' !in base && IsInt32(size) && IsInt32(scale)
    requires row.columnType == ScaledType(base, size, scale)
    ensures MapColumn(table, row).columnSize == Some(size)
    ensures MapColumn(table, row).decimalDigits == scale
    ensures MapColumn(table, row).value.None?
  {
    UpperCasePreservesIgnoreCase(row.dataType, "SET");
    UpperCasePreservesIgnoreCase(row.dataType, "ENUM");
    ScaledTypeRoundTrip(BaseColumn(table, row), base, size, scale);
  }

  /** An `enum(...)` or `set(...)` type gives its value list, verbatim. */
  lemma ValueListColumn(table: TableRef, row: ColumnRow, base: string, content: string, tail: string)
    requires IsValueListType(row.dataType)
    requires '(' !in base && ')' !in base && ')' !in content
    requires row.columnType == base + "(" + content + ")" + tail
    ensures MapColumn(table, row).value == Some(content)
    ensures MapColumn(table, row).columnSize.None?
    ensures MapColumn(table, row).decimalDigits == row.numericScale
  {
    UpperCasePreservesIgnoreCase(row.dataType, "SET");
    UpperCasePreservesIgnoreCase(row.dataType, "ENUM");
    ValueList(BaseColumn(table, row), base, content, tail);
  }

  /** `EXTRA` of an auto-increment column, and two that are not. */
  lemma AutoIncrementExamples(table: TableRef, row: ColumnRow)
    ensures MapColumn(table, row.(extra := "auto_increment")).autoIncrement
    ensures !MapColumn(table, row.(extra := "")).autoIncrement
    ensures !MapColumn(table, row.(extra := "DEFAULT_GENERATED")).autoIncrement
  {
    var marked := row.(extra := "auto_increment");
    assert OccursAt(marked.extra, AUTO_INCREMENT, 0);
    var other := row.(extra := "DEFAULT_GENERATED");
    assert 'a' !in other.extra;
    AbsentFirstChar(other.extra, AUTO_INCREMENT);
  }

  /** All rows of a table, each mapped in turn, in the order the query
      returned them (`ORDINAL_POSITION`). */
  method Columns(table: TableRef, rows: seq<ColumnRow>) returns (columns: seq<TableColumn>)
    ensures |columns| == |rows|
    ensures forall i :: 0 <= i < |rows| ==> columns[i] == MapColumn(table, rows[i])
    ensures forall i :: 0 <= i < |rows| ==>
      columns[i].name == rows[i].columnName && columns[i].ordinalPosition == rows[i].ordinalPosition
  {
    columns := [];
    var i := 0;
    while i < |rows|
      invariant 0 <= i <= |rows|
      invariant |columns| == i
      invariant forall k :: 0 <= k < i ==> columns[k] == MapColumn(table, rows[k])
    {
      columns := columns + [MapColumn(table, rows[i])];
      i := i + 1;
    }
  }
}
