/**
  The single-item lookups: `trigger`, `function`, `procedure` and `view`.
  Each builds an object from its arguments first, then fills in what the
  first row of a query supplies. A query that returns no row leaves those
  fields null, and the caller still gets the object. A row is `None` when
  the query returned nothing. A column of a row that is SQL NULL is `None`
  inside it.
*/
module Lookups {
  import opened Nullable
  import opened Entities

  /** The first row of the trigger query: `ACTION_STATEMENT`. */
  datatype TriggerRow = TriggerRow(actionStatement: Option<string>)

  /** The first row of the routines query: `SPECIFIC_NAME`, `ROUTINE_COMMENT`. */
  datatype RoutineRow = RoutineRow(specificName: Option<string>, routineComment: Option<string>)

  /** The first row of a `SHOW CREATE ...` statement: the DDL column
      (`Create Function`, `Create Procedure` or `Create View`). */
  datatype CreateRow = CreateRow(definition: Option<string>)

  /** A column of the first row, or null when there was no row. */
  function Column<R, T>(row: Option<R>, get: R -> Option<T>): (v: Option<T>)
    ensures row.None? ==> v.None?
    ensures row.Some? ==> v == get(row.value)
  {
    match row
    case None => None
    case Some(r) => get(r)
  }

  /** An entry of the `triggers` list: identity only, no body. */
  function TriggerListEntry(databaseName: string, schemaName: string, triggerName: string): (t: Trigger)
    ensures t.databaseName == databaseName && t.schemaName == schemaName && t.triggerName == triggerName
    ensures t.triggerBody.None?
  {
    Trigger(databaseName, schemaName, triggerName, None)
  }

  /** `trigger(...)`: the identity from the arguments, the body from
      `ACTION_STATEMENT` of the first row. */
  function TriggerLookup(databaseName: string, schemaName: string, triggerName: string, row: Option<TriggerRow>)
    : (t: Trigger)
    ensures t.databaseName == databaseName && t.schemaName == schemaName && t.triggerName == triggerName
    ensures t.triggerBody.Some? <==> row.Some? && row.value.actionStatement.Some?
    ensures row.Some? ==> t.triggerBody == row.value.actionStatement
  {
    Trigger(databaseName, schemaName, triggerName, Column(row, (r: TriggerRow) => r.actionStatement))
  }

  /** A lookup that finds nothing gives what the list would have listed for
      that name, and a lookup that finds a row differs from it in the body only. */
  lemma TriggerLookupExtendsListEntry(databaseName: string, schemaName: string, triggerName: string,
                                      row: Option<TriggerRow>)
    ensures TriggerLookup(databaseName, schemaName, triggerName, None)
      == TriggerListEntry(databaseName, schemaName, triggerName)
    ensures TriggerLookup(databaseName, schemaName, triggerName, row)
      == TriggerListEntry(databaseName, schemaName, triggerName)
         .(triggerBody := TriggerLookup(databaseName, schemaName, triggerName, row).triggerBody)
  {
  }

  /** `function(...)` and `procedure(...)`: the identity from the arguments,
      the specific name and remarks from the routines query, the body from
      `SHOW CREATE`. The second query runs whether or not the first found a
      row, and it sets the body only. */
  function RoutineLookup(kind: RoutineKind, databaseName: string, schemaName: string, name: string,
                         info: Option<RoutineRow>, ddl: Option<CreateRow>): (r: Routine)
    ensures r.kind == kind && r.databaseName == databaseName && r.schemaName == schemaName && r.name == name
    ensures info.None? ==> r.specificName.None? && r.remarks.None?
    ensures info.Some? ==> r.specificName == info.value.specificName && r.remarks == info.value.routineComment
    ensures r.body.Some? <==> ddl.Some? && ddl.value.definition.Some?
    ensures ddl.Some? ==> r.body == ddl.value.definition
  {
    var shell := Routine(kind, databaseName, schemaName, name,
      Column(info, (i: RoutineRow) => i.specificName), Column(info, (i: RoutineRow) => i.routineComment), None);
    shell.(body := Column(ddl, (d: CreateRow) => d.definition))
  }

  function FunctionLookup(databaseName: string, schemaName: string, functionName: string,
                          info: Option<RoutineRow>, ddl: Option<CreateRow>): (r: Routine)
    ensures r.kind == Function && r.databaseName == databaseName && r.schemaName == schemaName && r.name == functionName
    ensures r.specificName.Some? ==> info.Some? && r.specificName == info.value.specificName
    ensures r.remarks.Some? ==> info.Some? && r.remarks == info.value.routineComment
    ensures info.Some? ==> r.specificName == info.value.specificName && r.remarks == info.value.routineComment
    ensures r.body.Some? <==> ddl.Some? && ddl.value.definition.Some?
    ensures ddl.Some? ==> r.body == ddl.value.definition
  {
    RoutineLookup(Function, databaseName, schemaName, functionName, info, ddl)
  }

  function ProcedureLookup(databaseName: string, schemaName: string, procedureName: string,
                           info: Option<RoutineRow>, ddl: Option<CreateRow>): (r: Routine)
    ensures r.kind == Procedure && r.databaseName == databaseName && r.schemaName == schemaName && r.name == procedureName
    ensures r.specificName.Some? ==> info.Some? && r.specificName == info.value.specificName
    ensures r.remarks.Some? ==> info.Some? && r.remarks == info.value.routineComment
    ensures info.Some? ==> r.specificName == info.value.specificName && r.remarks == info.value.routineComment
    ensures r.body.Some? <==> ddl.Some? && ddl.value.definition.Some?
    ensures ddl.Some? ==> r.body == ddl.value.definition
  {
    RoutineLookup(Procedure, databaseName, schemaName, procedureName, info, ddl)
  }

  /** The two queries fill disjoint fields: what the first query gives does
      not depend on the second, and the other way round. */
  lemma RoutineQueriesIndependent(kind: RoutineKind, databaseName: string, schemaName: string, name: string,
                                  info: Option<RoutineRow>, ddl: Option<CreateRow>, ddl': Option<CreateRow>,
                                  info': Option<RoutineRow>)
    ensures RoutineLookup(kind, databaseName, schemaName, name, info, ddl).(body := None)
      == RoutineLookup(kind, databaseName, schemaName, name, info, ddl').(body := None)
    ensures RoutineLookup(kind, databaseName, schemaName, name, info, ddl).body
      == RoutineLookup(kind, databaseName, schemaName, name, info', ddl).body
  {
  }

  /** Functions and procedures are looked up the same way and differ only
      in their kind. */
  lemma FunctionAndProcedureAlike(databaseName: string, schemaName: string, name: string,
                                  info: Option<RoutineRow>, ddl: Option<CreateRow>)
    ensures FunctionLookup(databaseName, schemaName, name, info, ddl)
      == ProcedureLookup(databaseName, schemaName, name, info, ddl).(kind := Function)
  {
  }

  /** `view(...)`: the identity from the arguments, the DDL from
      `Create View` of the first row; without a row the DDL stays null. */
  function ViewLookup(databaseName: string, schemaName: string, viewName: string, row: Option<CreateRow>)
    : (t: Table)
    ensures t.databaseName == databaseName && t.schemaName == schemaName && t.name == viewName
    ensures t.ddl.Some? <==> row.Some? && row.value.definition.Some?
    ensures row.Some? ==> t.ddl == row.value.definition
  {
    Table(databaseName, schemaName, viewName, Column(row, (r: CreateRow) => r.definition))
  }

  /** A trigger that exists and one that does not. */
  lemma TriggerExamples()
    ensures TriggerLookup("db1", "", "audit", Some(TriggerRow(Some("SET NEW.updated = NOW()"))))
      == Trigger("db1", "", "audit", Some("SET NEW.updated = NOW()"))
    ensures TriggerLookup("db1", "", "ghost", None) == Trigger("db1", "", "ghost", None)
  {
  }
}
