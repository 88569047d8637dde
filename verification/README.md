# MySQL catalog normalisation, modelled in Dafny

This project models the row-level normalisation logic of the MySQL metadata
adapter of Chat2DB, `MysqlMetaData`. That is the code that turns the answers
of catalog queries into the client's object model. Every catalog query is
taken as already answered:

- a result set is a `seq` of row records;
- a single-row lookup is an `Option` of a row;
- a SQL NULL column is `None`.

The model covers these parts:

- **Type-size parser** `setColumnSize` (module `TypeSize`). It reads the
  qualifier of `COLUMN_TYPE` into the size, the scale or the value list. It
  keeps the Java semantics of a `try` with an empty `catch`: the updates made
  before an exception stay.
  - `Integer.parseInt` is modelled in `JavaInt`.
  - `String.split`, `indexOf`, `contains`, `equalsIgnoreCase`, `toUpperCase`
    and `StringUtils.isNotBlank` are modelled in `JavaText`.
- **Column mapping** (module `ColumnMapping`). One `information_schema.COLUMNS`
  row becomes one `TableColumn`.
- **Index aggregator** `indexes` and `getTableIndexColumn` (modules
  `IndexAggregator` and `IndexColumnOrder`). This is the fold over
  `SHOW INDEX` rows into one index per key name, in first-seen order.
  - After every appended column, the list is stable-sorted by `Seq_in_index`.
  - The fold is modelled twice: as a function, and as a loop with a
    name-to-slot map in place of the `LinkedHashMap`.
  - Both are proved equal to an independent reference description: one index
    per distinct name, made from that name's first row, holding the sorted
    columns of all rows with that name.
- **Single-item lookups** `trigger`, `function`, `procedure` and `view`, plus
  the entry of the `triggers` list (module `Lookups`).
- **Identifier quoting** `format` and `getMetaDataName` (module `Quoting`).
  This includes a parser that reads a qualified name back. The parser shows
  that only the blank parts are lost.

## Model

| member | source | states |
|---|---|---|
| TypeSize.Qualifier | chat2db-server/chat2db-plugins/chat2db-mysql/src/main/java/ai/chat2db/plugin/mysql/MysqlMetaData.java:226 | `substring(indexOf("(") + 1, indexOf(")"))` fails exactly when the first `)` comes before the first `(` or there is no `)` |
| TypeSize.QualifierOf | chat2db-server/chat2db-plugins/chat2db-mysql/src/main/java/ai/chat2db/plugin/mysql/MysqlMetaData.java:226 | for `base(content)tail` with no parenthesis in `base` and no `)` in `content`, the qualifier read is exactly `content` |
| TypeSize.SetSizeAndScale | chat2db-server/chat2db-plugins/chat2db-mysql/src/main/java/ai/chat2db/plugin/mysql/MysqlMetaData.java:231-237 | the comma branch changes only the size and the scale. A non-blank first part that parses sets the size to its 32-bit value; a blank first part keeps the size; a non-blank first part that does not parse stops before the scale and changes nothing. A changed scale is the 32-bit value of the non-blank second part, and the scale is set whenever the size step did not fail and the second part parses. No part at all changes nothing |
| TypeSize.ExtraPartsIgnored | chat2db-server/chat2db-plugins/chat2db-mysql/src/main/java/ai/chat2db/plugin/mysql/MysqlMetaData.java:231-237 | only `sizes[0]` and `sizes[1]` are read: `decimal(1,2,3)` is parsed as `decimal(1,2)` |
| TypeSize.SetColumnSize | chat2db-server/chat2db-plugins/chat2db-mysql/src/main/java/ai/chat2db/plugin/mysql/MysqlMetaData.java:223-245 | only size, scale and value list can change, and no input makes it fail. Without `(`, or with a missing or misplaced `)`, nothing changes. A value list is set only for `SET`/`ENUM` and then size and scale stay. A changed size is a 32-bit value. From a column with neither, size and value list are never both set |
| TypeSize.ValueList | chat2db-server/chat2db-plugins/chat2db-mysql/src/main/java/ai/chat2db/plugin/mysql/MysqlMetaData.java:226-228 | for `SET`/`ENUM` (any case), `base(content)tail` stores `content` verbatim as the value list and touches nothing else |
| TypeSize.SingleSize | chat2db-server/chat2db-plugins/chat2db-mysql/src/main/java/ai/chat2db/plugin/mysql/MysqlMetaData.java:238-240 | without a comma, the size becomes `parseInt` of the qualifier when it parses; otherwise nothing changes |
| TypeSize.SizeAndScale | chat2db-server/chat2db-plugins/chat2db-mysql/src/main/java/ai/chat2db/plugin/mysql/MysqlMetaData.java:230-237 | with one comma, each side is handled on its own. A blank side keeps its field. A side that parses sets its field. A left side that does not parse stops the parse before the scale is read. The value list never changes |
| TypeSize.SizedTypeRoundTrip | chat2db-server/chat2db-plugins/chat2db-mysql/src/main/java/ai/chat2db/plugin/mysql/MysqlMetaData.java:226-239 | parsing a printed `base(n)`, for any 32-bit `n`, sets the size to `n` and nothing else |
| TypeSize.ScaledTypeRoundTrip | chat2db-server/chat2db-plugins/chat2db-mysql/src/main/java/ai/chat2db/plugin/mysql/MysqlMetaData.java:226-237 | parsing a printed `base(n,d)`, for any 32-bit `n` and `d`, sets the size to `n` and the scale to `d` |
| TypeSize.DecimalExample | chat2db-server/chat2db-plugins/chat2db-mysql/src/main/java/ai/chat2db/plugin/mysql/MysqlMetaData.java:230-237 | `decimal(10,2)` gives size 10 and scale 2 |
| TypeSize.VarcharExample | chat2db-server/chat2db-plugins/chat2db-mysql/src/main/java/ai/chat2db/plugin/mysql/MysqlMetaData.java:238-240 | `varchar(255)` gives size 255 and keeps the scale |
| TypeSize.UnsignedIntExample | chat2db-server/chat2db-plugins/chat2db-mysql/src/main/java/ai/chat2db/plugin/mysql/MysqlMetaData.java:226-240 | `int(11) unsigned` gives size 11: the text after `)` is ignored |
| TypeSize.EnumExample | chat2db-server/chat2db-plugins/chat2db-mysql/src/main/java/ai/chat2db/plugin/mysql/MysqlMetaData.java:226-228 | `enum('a','b','c')` stores `'a','b','c'` as the value list and nothing else |
| TypeSize.PartialDecimalExample | chat2db-server/chat2db-plugins/chat2db-mysql/src/main/java/ai/chat2db/plugin/mysql/MysqlMetaData.java:232-236 | `decimal(10,x)` keeps size 10: the size is set before the scale fails to parse |
| TypeSize.TrailingCommaExample | chat2db-server/chat2db-plugins/chat2db-mysql/src/main/java/ai/chat2db/plugin/mysql/MysqlMetaData.java:231-235 | `decimal(10,)` keeps size 10: split drops the empty part and `sizes[1]` fails after the size is set |
| TypeSize.BlankSizeExample | chat2db-server/chat2db-plugins/chat2db-mysql/src/main/java/ai/chat2db/plugin/mysql/MysqlMetaData.java:232-237 | `decimal(,2)` skips the blank size and still sets scale 2 |
| TypeSize.UnclosedExample | chat2db-server/chat2db-plugins/chat2db-mysql/src/main/java/ai/chat2db/plugin/mysql/MysqlMetaData.java:224-244 | `decimal(10`, which has no `)`, leaves the column unchanged instead of failing |
| JavaInt.ParseInt | chat2db-server/chat2db-plugins/chat2db-mysql/src/main/java/ai/chat2db/plugin/mysql/MysqlMetaData.java:233 | `Integer.parseInt`: a result is 32-bit, comes from an optional sign followed by at least one digit and nothing else, and is negative only after a `-`. An unsigned, a `+` or a `-` digit string within range gives its decimal value, leading zeros included; one out of range is rejected |
| JavaInt.LeadingZero | chat2db-server/chat2db-plugins/chat2db-mysql/src/main/java/ai/chat2db/plugin/mysql/MysqlMetaData.java:233 | a leading zero does not change the value of a digit string |
| JavaInt.ParseIntExamples | chat2db-server/chat2db-plugins/chat2db-mysql/src/main/java/ai/chat2db/plugin/mysql/MysqlMetaData.java:233 | `"007"` is 7, `"+5"` is 5, `"-5"` is -5; `"1a"`, a lone `-` and `" 1"` are rejected |
| JavaInt.ParseIntToString | chat2db-server/chat2db-plugins/chat2db-mysql/src/main/java/ai/chat2db/plugin/mysql/MysqlMetaData.java:239 | parsing the decimal spelling of any 32-bit value gives that value back |
| JavaText.SplitPair | chat2db-server/chat2db-plugins/chat2db-mysql/src/main/java/ai/chat2db/plugin/mysql/MysqlMetaData.java:231 | `"l,r".split(",")` gives `[l, r]`, or `[l]` when `r` is empty, or nothing when both are empty |
| JavaText.SplitAllJoin | chat2db-server/chat2db-plugins/chat2db-mysql/src/main/java/ai/chat2db/plugin/mysql/MysqlMetaData.java:231 | all the parts, empty ones included (before `split` drops the trailing ones), joined with the separator give the input back |
| JavaText.IndexOfFirst | chat2db-server/chat2db-plugins/chat2db-mysql/src/main/java/ai/chat2db/plugin/mysql/MysqlMetaData.java:226 | `indexOf` is -1 exactly when the character is absent, and otherwise no earlier position holds it |
| JavaText.IsNotBlank | chat2db-server/chat2db-plugins/chat2db-mysql/src/main/java/ai/chat2db/plugin/mysql/MysqlMetaData.java:232-235 | a string is not blank exactly when some character is not whitespace, and the empty string is blank; this is the definition itself, and its independent partner is `ScanNotBlank` |
| JavaText.ScanNotBlank | chat2db-server/chat2db-plugins/chat2db-mysql/src/main/java/ai/chat2db/plugin/mysql/MysqlMetaData.java:232-235 | the left-to-right scan of `StringUtils.isNotBlank`, stopping at the first non-whitespace character, agrees with the definition |
| JavaText.EqualsIgnoreCase | chat2db-server/chat2db-plugins/chat2db-mysql/src/main/java/ai/chat2db/plugin/mysql/MysqlMetaData.java:227 | `equalsIgnoreCase`: equal lengths, and the characters at each position fold to the same character |
| JavaText.FoldCaseLetter | chat2db-server/chat2db-plugins/chat2db-mysql/src/main/java/ai/chat2db/plugin/mysql/MysqlMetaData.java:210 | a character matches an ASCII letter ignoring case exactly when it is that letter in either case, or dotless i or dotted capital I for `i`, long s for `s`, or the Kelvin sign for `k` |
| JavaText.ToUpperCase | chat2db-server/chat2db-plugins/chat2db-mysql/src/main/java/ai/chat2db/plugin/mysql/MysqlMetaData.java:205 | upper-casing keeps the length, maps each character by itself and leaves no lower-case ASCII letter |
| JavaText.UpperCasePreservesIgnoreCase | chat2db-server/chat2db-plugins/chat2db-mysql/src/main/java/ai/chat2db/plugin/mysql/MysqlMetaData.java:227 | a data type matches `SET` or `ENUM` ignoring case exactly when its upper-cased form does |
| JavaText.ContainsOccurs | chat2db-server/chat2db-plugins/chat2db-mysql/src/main/java/ai/chat2db/plugin/mysql/MysqlMetaData.java:208 | `contains` holds exactly when the needle occurs at some position |
| ColumnMapping.MapColumn | chat2db-server/chat2db-plugins/chat2db-mysql/src/main/java/ai/chat2db/plugin/mysql/MysqlMetaData.java:198-217 | a row gives a column with the caller's database and table, and `oldName == name == COLUMN_NAME`. The type is the data type upper-cased. Auto-increment holds exactly when `auto_increment` occurs in `EXTRA`, case-sensitively. Primary key holds exactly when `COLUMN_KEY` is `PRI` ignoring case. Nullable is 1 or 0 from `IS_NULLABLE` = `YES` ignoring case. Size and value list are never both set. Without `(`, size and value list are null and the scale is `NUMERIC_SCALE`. A `SET`/`ENUM` never has a size |
| ColumnMapping.SizedColumn | chat2db-server/chat2db-plugins/chat2db-mysql/src/main/java/ai/chat2db/plugin/mysql/MysqlMetaData.java:213-216 | a column of type `base(n)` has size `n`, no value list, and keeps `NUMERIC_SCALE` as its scale |
| ColumnMapping.ScaledColumn | chat2db-server/chat2db-plugins/chat2db-mysql/src/main/java/ai/chat2db/plugin/mysql/MysqlMetaData.java:213-216 | a column of type `base(n,d)` has size `n`, scale `d`, and no value list |
| ColumnMapping.ValueListColumn | chat2db-server/chat2db-plugins/chat2db-mysql/src/main/java/ai/chat2db/plugin/mysql/MysqlMetaData.java:213-216 | a `SET`/`ENUM` column of type `base(content)tail` has value list `content`, no size, and keeps `NUMERIC_SCALE` |
| ColumnMapping.AutoIncrementExamples | chat2db-server/chat2db-plugins/chat2db-mysql/src/main/java/ai/chat2db/plugin/mysql/MysqlMetaData.java:208 | `EXTRA` = `auto_increment` marks the column; an empty `EXTRA` and `DEFAULT_GENERATED` do not |
| ColumnMapping.Columns | chat2db-server/chat2db-plugins/chat2db-mysql/src/main/java/ai/chat2db/plugin/mysql/MysqlMetaData.java:197-220 | one column per row, in the order of the rows, each the mapping of its row |
| IndexAggregator.SortDirection | chat2db-server/chat2db-plugins/chat2db-mysql/src/main/java/ai/chat2db/plugin/mysql/MysqlMetaData.java:320-325 | ascending exactly when the collation is `a`/`A`, descending exactly when it is `d`/`D`, and unset otherwise, including for null |
| IndexAggregator.GetTableIndexColumn | chat2db-server/chat2db-plugins/chat2db-mysql/src/main/java/ai/chat2db/plugin/mysql/MysqlMetaData.java:313-327 | the column copies name (null for a functional key part), `Seq_in_index`, collation, cardinality and sub-part, and its direction is the one `SortDirection` reads from the collation; a direction needs a one-letter collation |
| IndexAggregator.DirectionOfColumn | chat2db-server/chat2db-plugins/chat2db-mysql/src/main/java/ai/chat2db/plugin/mysql/MysqlMetaData.java:320-325 | a column has direction `d` exactly when its collation is the letter of `d` in either case, and each letter reads back as its own direction |
| IndexAggregator.ClassifyCases | chat2db-server/chat2db-plugins/chat2db-mysql/src/main/java/ai/chat2db/plugin/mysql/MysqlMetaData.java:294-304 | each kind with the exact condition that yields it, first match wins. `PRIMARY` (any case) beats uniqueness, then unique, then `SPATIAL`, then `FULLTEXT`, then normal |
| IndexAggregator.NewIndex | chat2db-server/chat2db-plugins/chat2db-mysql/src/main/java/ai/chat2db/plugin/mysql/MysqlMetaData.java:283-293 | a new index has the caller's table, the key name, uniqueness `!Non_unique`, the row's comment and kind, and the row's column alone |
| IndexAggregator.Find | chat2db-server/chat2db-plugins/chat2db-mysql/src/main/java/ai/chat2db/plugin/mysql/MysqlMetaData.java:275 | the lookup by name returns the first index with that name, or -1 when there is none |
| IndexAggregator.SlotFind | chat2db-server/chat2db-plugins/chat2db-mysql/src/main/java/ai/chat2db/plugin/mysql/MysqlMetaData.java:275 | a name-to-slot map kept in step with the list answers every lookup as the search over the list does |
| IndexAggregator.Aggregate | chat2db-server/chat2db-plugins/chat2db-mysql/src/main/java/ai/chat2db/plugin/mysql/MysqlMetaData.java:273-307 | the fold yields at most one index per row, and the first row always creates the first index |
| IndexAggregator.IndexForAppend | chat2db-server/chat2db-plugins/chat2db-mysql/src/main/java/ai/chat2db/plugin/mysql/MysqlMetaData.java:276-281 | a new row changes only the reference index of its own name: it adds the row's column and sorts again |
| IndexAggregator.AggregateIsReference | chat2db-server/chat2db-plugins/chat2db-mysql/src/main/java/ai/chat2db/plugin/mysql/MysqlMetaData.java:272-308 | after any rows, the fold equals the reference: one index per distinct name, from its first row, with the sorted columns of all its rows |
| IndexAggregator.AggregateTotal | chat2db-server/chat2db-plugins/chat2db-mysql/src/main/java/ai/chat2db/plugin/mysql/MysqlMetaData.java:276-293 | the indexes hold as many columns in total as there were rows |
| IndexAggregator.ReferenceSpec | chat2db-server/chat2db-plugins/chat2db-mysql/src/main/java/ai/chat2db/plugin/mysql/MysqlMetaData.java:272-308 | every index is built from the first row of its name. The indexes come in order of first appearance. A name has an index exactly when some row carries it. Each column list is sorted, and at each position it keeps the columns in row order |
| IndexAggregator.FirstRowDecides | chat2db-server/chat2db-plugins/chat2db-mysql/src/main/java/ai/chat2db/plugin/mysql/MysqlMetaData.java:282-305 | uniqueness, kind and comment of each index come from the first row of its name |
| IndexAggregator.AggregateSpec | chat2db-server/chat2db-plugins/chat2db-mysql/src/main/java/ai/chat2db/plugin/mysql/MysqlMetaData.java:271-309 | the fold equals the reference and keeps all rows' columns. Names are distinct, and a name has an index exactly when some row carries it. Every column list is sorted |
| IndexAggregator.Indexes | chat2db-server/chat2db-plugins/chat2db-mysql/src/main/java/ai/chat2db/plugin/mysql/MysqlMetaData.java:271-309 | the loop with a slot map returns the reference indexes: distinct names, one per key name seen, all rows' columns, and each column list sorted |
| IndexColumnOrder.SortSorted | chat2db-server/chat2db-plugins/chat2db-mysql/src/main/java/ai/chat2db/plugin/mysql/MysqlMetaData.java:279-280 | the re-sorted column list is ascending by ordinal position |
| IndexColumnOrder.SortPermutes | chat2db-server/chat2db-plugins/chat2db-mysql/src/main/java/ai/chat2db/plugin/mysql/MysqlMetaData.java:279-280 | sorting keeps the same columns, each as often as before |
| IndexColumnOrder.SortStable | chat2db-server/chat2db-plugins/chat2db-mysql/src/main/java/ai/chat2db/plugin/mysql/MysqlMetaData.java:279-280 | columns with equal positions keep their relative order |
| IndexColumnOrder.StableSortUnique | chat2db-server/chat2db-plugins/chat2db-mysql/src/main/java/ai/chat2db/plugin/mysql/MysqlMetaData.java:279-280 | two sorted lists with the same order at each position are equal, so every stable sort agrees with the modelled one |
| IndexColumnOrder.ResortAppend | chat2db-server/chat2db-plugins/chat2db-mysql/src/main/java/ai/chat2db/plugin/mysql/MysqlMetaData.java:277-281 | appending to a sorted list and sorting again gives what sorting all columns at once gives |
| Lookups.TriggerListEntry | chat2db-server/chat2db-plugins/chat2db-mysql/src/main/java/ai/chat2db/plugin/mysql/MysqlMetaData.java:124-129 | a listed trigger carries its name and the caller's database and schema, with no body |
| Lookups.TriggerLookup | chat2db-server/chat2db-plugins/chat2db-mysql/src/main/java/ai/chat2db/plugin/mysql/MysqlMetaData.java:141-149 | the trigger always has the requested database, schema and name. It has a body exactly when a row was found and its `ACTION_STATEMENT` is not null |
| Lookups.TriggerLookupExtendsListEntry | chat2db-server/chat2db-plugins/chat2db-mysql/src/main/java/ai/chat2db/plugin/mysql/MysqlMetaData.java:124-149 | a lookup that finds nothing equals the list entry, and one that finds a row differs from it in the body only |
| Lookups.TriggerExamples | chat2db-server/chat2db-plugins/chat2db-mysql/src/main/java/ai/chat2db/plugin/mysql/MysqlMetaData.java:141-149 | a found trigger carries its statement, and a missing one is a shell with no body |
| Lookups.RoutineLookup | chat2db-server/chat2db-plugins/chat2db-mysql/src/main/java/ai/chat2db/plugin/mysql/MysqlMetaData.java:91-107 | the routine always has the requested identity. Specific name and remarks come from the routines row and are null without one. The body comes from `SHOW CREATE`, present exactly when that row has it |
| Lookups.FunctionLookup | chat2db-server/chat2db-plugins/chat2db-mysql/src/main/java/ai/chat2db/plugin/mysql/MysqlMetaData.java:91-107 | a function lookup returns a function with the requested identity. A found info row gives exactly its specific name and remarks, and no row leaves them null. A `SHOW CREATE FUNCTION` row gives exactly its `Create Function` text as the body; without one the body stays null |
| Lookups.ProcedureLookup | chat2db-server/chat2db-plugins/chat2db-mysql/src/main/java/ai/chat2db/plugin/mysql/MysqlMetaData.java:172-188 | a procedure lookup returns a procedure with the requested identity. A found info row gives exactly its specific name and remarks, and no row leaves them null. A `SHOW CREATE PROCEDURE` row gives exactly its `Create Procedure` text as the body; without one the body stays null |
| Lookups.RoutineQueriesIndependent | chat2db-server/chat2db-plugins/chat2db-mysql/src/main/java/ai/chat2db/plugin/mysql/MysqlMetaData.java:172-187 | the two queries fill disjoint fields: the body does not depend on the routines row, and nothing else depends on the `SHOW CREATE` row |
| Lookups.FunctionAndProcedureAlike | chat2db-server/chat2db-plugins/chat2db-mysql/src/main/java/ai/chat2db/plugin/mysql/MysqlMetaData.java:86-110 | a function and a procedure looked up from the same rows differ only in their kind |
| Lookups.ViewLookup | chat2db-server/chat2db-plugins/chat2db-mysql/src/main/java/ai/chat2db/plugin/mysql/MysqlMetaData.java:252-261 | the view always has the requested identity. It has a DDL exactly when a row was found with a non-null `Create View` |
| Quoting.Format | chat2db-server/chat2db-plugins/chat2db-mysql/src/main/java/ai/chat2db/plugin/mysql/MysqlMetaData.java:76-78 | the name with one backtick on each side and nothing else: two characters longer, unchanged inside |
| Quoting.NonBlank | chat2db-server/chat2db-plugins/chat2db-mysql/src/main/java/ai/chat2db/plugin/mysql/MysqlMetaData.java:347 | the filter keeps only non-blank names, each taken from the input, keeps every non-blank name, and keeps a single name exactly when it is not blank |
| Quoting.NonBlankAppend | chat2db-server/chat2db-plugins/chat2db-mysql/src/main/java/ai/chat2db/plugin/mysql/MysqlMetaData.java:347 | the filter distributes over concatenation, so with the one-name case it keeps the non-blank names in their order |
| Quoting.GetMetaDataName | chat2db-server/chat2db-plugins/chat2db-mysql/src/main/java/ai/chat2db/plugin/mysql/MysqlMetaData.java:347 | the qualified name is empty exactly when every name is blank, and otherwise starts and ends with a backtick |
| Quoting.MetaDataNameRoundTrip | chat2db-server/chat2db-plugins/chat2db-mysql/src/main/java/ai/chat2db/plugin/mysql/MysqlMetaData.java:347 | for names without backticks, reading `getMetaDataName` back gives exactly the non-blank names, in order |
| Quoting.BlankNamesDropped | chat2db-server/chat2db-plugins/chat2db-mysql/src/main/java/ai/chat2db/plugin/mysql/MysqlMetaData.java:347 | a blank name anywhere adds nothing, not even a dot |
| Quoting.SingleNameIsFormat | chat2db-server/chat2db-plugins/chat2db-mysql/src/main/java/ai/chat2db/plugin/mysql/MysqlMetaData.java:347 | one non-blank name is quoted exactly as `format` quotes it |
| Quoting.TwoNames | chat2db-server/chat2db-plugins/chat2db-mysql/src/main/java/ai/chat2db/plugin/mysql/MysqlMetaData.java:347 | two non-blank names come out quoted, with one dot between them |
| Quoting.MetaDataNameExample | chat2db-server/chat2db-plugins/chat2db-mysql/src/main/java/ai/chat2db/plugin/mysql/MysqlMetaData.java:347 | `("db1", "", "tbl1")` gives `` `db1`.`tbl1` `` |

## Left out

- The JDBC layer (`SQLExecutor`, `Connection`, `ResultSet` cursors) is I/O. Query results are parameters: a `seq` of rows, or an `Option` of the first row.
- SQL text construction (`String.format`, concatenation of table and database names) is plain string assembly with no escaping. It is not modelled.
- `databases` and `sortDatabase` are not modelled. `SortUtils` is not part of this model.
- `getTableMeta`, `getSqlBuilder`, `getValueProcessor` and `getSystemDatabases` are not modelled. They return enum tables, fixed objects or a constant list, and those classes are not part of this model.
- `tables`, `procedures` and `tableDDL` are not modelled. They copy fields of each row one to one; `procedures` sets only the name.
- Null strings where the code dereferences them are not modelled. A null `EXTRA` or `DATA_TYPE` throws inside `columns` (lines 205 and 208) and escapes it. `COLUMN_TYPE` is read at line 216, outside the `try` of `setColumnSize`, and dereferenced inside it (line 225), where the exception is swallowed. The row types hold non-null strings for these three columns. `Column_name` of `SHOW INDEX`, which is null for a functional key part, is copied without being read and is modelled as nullable.
- The narrowing done by the JDBC accessors is not modelled: `getShort` for `Seq_in_index` and `getInt`/`getLong` for the other numbers. Numbers arrive as unbounded integers already read.
- JavaText.ToUpperCase: upper-cases ASCII letters only and assumes a default locale without special casing rules. Java's `toUpperCase()` at line 205 uses the default locale: under a Turkish or Azerbaijani locale `int` becomes `İNT`, so even ASCII data types come out differently. It also maps non-ASCII letters, which matters only for data types outside ASCII.
- JavaText.EqualsIgnoreCase: exact only when the second argument is ASCII. The four non-ASCII characters that match an ASCII letter (dotless i, dotted capital I, long s, Kelvin sign) are folded onto it; other non-ASCII pairs are compared by the same fold, which does not follow Java for them. Every call compares against an ASCII keyword.
- JavaInt.ParseInt: accepts ASCII digits only. Java also accepts other Unicode decimal digits.
- Caller-supplied names are non-null strings. `StringUtils.isNotBlank(null)` is false, so a null name, such as the null schema name MySQL callers pass, is dropped by `getMetaDataName` exactly like a blank one; `""` stands for it.
- Quoting.MetaDataNameRoundTrip: holds only for names without backticks. Neither `format` nor `getMetaDataName` escapes a backtick inside a name, so such a name cannot be read back unambiguously.
- A failing query is not modelled. An exception from `SQLExecutor` propagates out of `function`, `procedure` and `view`, and no object is returned. MySQL answers `SHOW CREATE FUNCTION`, `SHOW CREATE PROCEDURE` and `SHOW CREATE VIEW` on a missing object with an error rather than with no row, so the shell with a null body or DDL that the model returns for an absent row is what the code does with an empty result set, not what a missing object produces.
