/**
  The metadata objects the MySQL plugin hands back to the client, reduced to
  the fields the normaliser sets. Absent Java references are `None`.
*/
module Entities {
  import opened Nullable

  /** The table a column or index belongs to, as given by the caller. */
  datatype TableRef = TableRef(databaseName: string, schemaName: string, tableName: string)

  /** One column of a table. `columnSize` and `value` start out null and are
      filled in from `COLUMN_TYPE` by the type-size parser. */
  datatype TableColumn = TableColumn(
    databaseName: string,
    tableName: string,
    oldName: string,
    name: string,
    columnType: string,
    defaultValue: Option<string>,
    autoIncrement: bool,
    comment: string,
    primaryKey: bool,
    nullable: int,
    ordinalPosition: int,
    decimalDigits: int,
    charSetName: Option<string>,
    collationName: Option<string>,
    columnSize: Option<int>,
    value: Option<string>)

  /** The kinds of index the MySQL plugin distinguishes. */
  datatype IndexKind = PrimaryKey | Unique | Normal | Spatial | Fulltext

  /** The sort direction of an index column; null when MySQL reports none. */
  datatype Direction = Asc | Desc

  /** One column of an index. The column name is null for a functional key
      part. */
  datatype TableIndexColumn = TableIndexColumn(
    columnName: Option<string>,
    ordinalPosition: int,
    collation: Option<string>,
    cardinality: int,
    subPart: int,
    ascOrDesc: Option<Direction>)

  /** One index of a table with its columns. */
  datatype TableIndex = TableIndex(
    databaseName: string,
    schemaName: string,
    tableName: string,
    name: string,
    unique: bool,
    kind: IndexKind,
    comment: string,
    columnList: seq<TableIndexColumn>)

  /** A trigger; the body is filled only by a single-item lookup that found it. */
  datatype Trigger = Trigger(
    databaseName: string,
    schemaName: string,
    triggerName: string,
    triggerBody: Option<string>)

  datatype RoutineKind = Function | Procedure

  /** A stored function or procedure. */
  datatype Routine = Routine(
    kind: RoutineKind,
    databaseName: string,
    schemaName: string,
    name: string,
    specificName: Option<string>,
    remarks: Option<string>,
    body: Option<string>)

  /** A table or view as the single-view lookup fills it: identity and DDL. */
  datatype Table = Table(
    databaseName: string,
    schemaName: string,
    name: string,
    ddl: Option<string>)
}
