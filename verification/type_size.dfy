/**
  The type-size parser: reads the parenthesised qualifier of a MySQL
  `COLUMN_TYPE` (`decimal(10,2)`, `varchar(255)`, `enum('a','b')`) into the
  column's size, scale or value list.

  The Java code runs its updates one after the other inside a `try` whose
  `catch` does nothing, so a failure part-way keeps every update made before
  it. Each step that can throw (`substring`, `sizes[i]`, `parseInt`) is
  therefore modelled as "stop here and return the column as it is now".
*/
module TypeSize {
  import opened Nullable
  import opened JavaText
  import opened JavaInt
  import opened Entities

  /** Types whose qualifier is a value list rather than a size. The argument
      is the already upper-cased `DATA_TYPE`. */
  predicate IsValueListType(columnType: string) {
    EqualsIgnoreCase(columnType, "SET") || EqualsIgnoreCase(columnType, "ENUM")
  }

  /** `substring(indexOf("(") + 1, indexOf(")"))`, or `None` where it throws:
      when there is no `)` or the first `)` comes before the first `(`. */
  function Qualifier(columnType: string): (q: Option<string>)
    requires '(' in columnType
    ensures q.None? <==> IndexOf(columnType, ')') < IndexOf(columnType, '(')
  {
    IndexOfFirst(columnType, '(');
    var open := IndexOf(columnType, '(');
    var close := IndexOf(columnType, ')');
    if close < open + 1 then None else Some(columnType[open + 1..close])
  }

  /** The comma branch: `sizes` is `qualifier.split(",")`. A blank part is
      skipped; `sizes[0]` or `sizes[1]` out of range, or a part `parseInt`
      rejects, ends the parse with the updates made so far. */
  function SetSizeAndScale(column: TableColumn, sizes: seq<string>): (r: TableColumn)
    // only the size and the scale can change
    ensures r == column.(columnSize := r.columnSize, decimalDigits := r.decimalDigits)
    // a size that was set is the first part, read as a 32-bit value
    ensures r.columnSize != column.columnSize ==>
      |sizes| > 0 && r.columnSize == ParseInt(sizes[0]) && r.columnSize.Some? && IsInt32(r.columnSize.value)
    // a non-blank first part that parses sets the size
    ensures |sizes| > 0 && IsNotBlank(sizes[0]) && ParseInt(sizes[0]).Some? ==> r.columnSize == ParseInt(sizes[0])
    // a blank first part keeps the size; a first part that does not parse stops everything
    ensures |sizes| > 0 && IsBlank(sizes[0]) ==> r.columnSize == column.columnSize
    ensures |sizes| > 0 && IsNotBlank(sizes[0]) && ParseInt(sizes[0]).None? ==> r == column
    // a scale that was set is the second part, non-blank and read as a 32-bit value
    ensures r.decimalDigits != column.decimalDigits ==>
      |sizes| >= 2 && IsNotBlank(sizes[1]) && ParseInt(sizes[1]) == Some(r.decimalDigits)
    // the scale is read once the size step did not fail
    ensures |sizes| >= 2 && (IsNotBlank(sizes[0]) ==> ParseInt(sizes[0]).Some?)
            && IsNotBlank(sizes[1]) && ParseInt(sizes[1]).Some?
      ==> r.decimalDigits == ParseInt(sizes[1]).value
    // no part at all: nothing changes
    ensures |sizes| == 0 ==> r == column
  {
    if |sizes| == 0 then column
    else if IsNotBlank(sizes[0]) && ParseInt(sizes[0]).None? then column
    else
      var sized := if IsNotBlank(sizes[0]) then column.(columnSize := ParseInt(sizes[0])) else column;
      if |sizes| < 2 || IsBlank(sizes[1]) then sized
      else match ParseInt(sizes[1])
        case None => sized
        case Some(d) => sized.(decimalDigits := d)
  }

  /** `setColumnSize(column, columnType)`. Never fails: every exception of the
      Java code ends the parse and keeps what was set before it. */
  function SetColumnSize(column: TableColumn, columnType: string): (r: TableColumn)
    // only the size, the scale and the value list can change
    ensures r == column.(columnSize := r.columnSize, decimalDigits := r.decimalDigits, value := r.value)
    // no qualifier, or a `)` missing after the `(`: nothing changes
    ensures '(' !in columnType ==> r == column
    ensures '(' in columnType && (')' !in columnType || IndexOf(columnType, ')') < IndexOf(columnType, '('))
      ==> r == column
    // a value list never touches size or scale, and a size never touches the value list
    ensures r.value != column.value ==>
      (IsValueListType(column.columnType) && r.columnSize == column.columnSize && r.decimalDigits == column.decimalDigits)
    ensures IsValueListType(column.columnType) ==>
      (r.columnSize == column.columnSize && r.decimalDigits == column.decimalDigits)
    // a size that was set is a 32-bit value
    ensures r.columnSize != column.columnSize ==> r.columnSize.Some? && IsInt32(r.columnSize.value)
    // starting from a fresh column, size and value list are never both set
    ensures column.columnSize.None? && column.value.None? ==> !(r.columnSize.Some? && r.value.Some?)
  {
    IndexOfFirst(columnType, ')');
    if '(' !in columnType then column
    else match Qualifier(columnType)
      case None => column
      case Some(size) =>
        if IsValueListType(column.columnType) then column.(value := Some(size))
        else if ',' in size then SetSizeAndScale(column, JavaSplit(size, ','))
        else match ParseInt(size)
          case None => column
          case Some(n) => column.(columnSize := Some(n))
  }

  /** A well-formed qualifier: `base(content)tail` with no parenthesis in
      `base` and no `)` in `content`; the parser reads exactly `content`. */
  lemma QualifierOf(base: string, content: string, tail: string)
    requires '(' !in base && ')' !in base && ')' !in content
    ensures '(' in base + "(" + content + ")" + tail
    ensures Qualifier(base + "(" + content + ")" + tail) == Some(content)
  {
    var s := base + "(" + content + ")" + tail;
    assert s[|base|] == '(' && s[..|base|] == base;
    FirstIndex(s, '(', |base|);
    var close := |base| + 1 + |content|;
    assert s[close] == ')' && s[..close] == base + "(" + content;
    FirstIndex(s, ')', close);
    assert s[|base| + 1..close] == content;
  }

  /** The value-list branch, given the qualifier the parser reads. */
  lemma QualifiedValueList(column: TableColumn, columnType: string, q: string)
    requires IsValueListType(column.columnType)
    requires '(' in columnType && Qualifier(columnType) == Some(q)
    ensures SetColumnSize(column, columnType) == column.(value := Some(q))
  {
  }

  /** The size branch, given a comma-free qualifier. */
  lemma QualifiedSize(column: TableColumn, columnType: string, q: string)
    requires !IsValueListType(column.columnType)
    requires '(' in columnType && Qualifier(columnType) == Some(q) && ',' !in q
    ensures SetColumnSize(column, columnType)
      == if ParseInt(q).Some? then column.(columnSize := ParseInt(q)) else column
  {
  }

  /** The comma branch when the split gives two parts. */
  lemma TwoParts(column: TableColumn, left: string, right: string)
    requires IsNotBlank(right)
    ensures var r := SetSizeAndScale(column, [left, right]);
      && r.value == column.value
      && r.columnSize == (if IsNotBlank(left) && ParseInt(left).Some? then ParseInt(left) else column.columnSize)
      && r.decimalDigits == (if (IsNotBlank(left) ==> ParseInt(left).Some?) && ParseInt(right).Some?
                             then ParseInt(right).value else column.decimalDigits)
  {
  }

  /** Parts after the second are never read: `decimal(1,2,3)` is parsed as
      `decimal(1,2)`. */
  lemma ExtraPartsIgnored(column: TableColumn, sizes: seq<string>)
    requires |sizes| >= 2
    ensures SetSizeAndScale(column, sizes) == SetSizeAndScale(column, sizes[..2])
  {
    assert sizes[..2][0] == sizes[0] && sizes[..2][1] == sizes[1];
  }

  /** The comma branch on the parts of `left,right`. */
  lemma SizeAndScaleParts(column: TableColumn, left: string, right: string)
    requires ',' !in left && ',' !in right
    ensures var r := SetSizeAndScale(column, JavaSplit(left + "," + right, ','));
      && r.value == column.value
      && r.columnSize == (if IsNotBlank(left) && ParseInt(left).Some? then ParseInt(left) else column.columnSize)
      && r.decimalDigits == (if (IsNotBlank(left) ==> ParseInt(left).Some?) && IsNotBlank(right) && ParseInt(right).Some?
                             then ParseInt(right).value else column.decimalDigits)
  {
    assert JavaSplit(left + "," + right, ',')
      == if right != "" then [left, right] else if left != "" then [left] else [] by {
      SplitPair(left, right, ',');
    }
    if IsNotBlank(right) {
      TwoParts(column, left, right);
    } else if right != "" {
      assert SetSizeAndScale(column, [left, right]) == SetSizeAndScale(column, [left]);
    } else if left == "" {
      assert IsBlank(left);
    }
  }

  /** The size-and-scale branch, given a qualifier `left,right` with one comma. */
  lemma QualifiedSizeAndScale(column: TableColumn, columnType: string, left: string, right: string)
    requires !IsValueListType(column.columnType)
    requires '(' in columnType && Qualifier(columnType) == Some(left + "," + right)
    requires ',' !in left && ',' !in right
    ensures var r := SetColumnSize(column, columnType);
      && r.value == column.value
      && r.columnSize == (if IsNotBlank(left) && ParseInt(left).Some? then ParseInt(left) else column.columnSize)
      && r.decimalDigits == (if (IsNotBlank(left) ==> ParseInt(left).Some?) && IsNotBlank(right) && ParseInt(right).Some?
                             then ParseInt(right).value else column.decimalDigits)
  {
    var content := left + "," + right;
    assert ',' in content by { assert content[|left|] == ','; }
    assert SetColumnSize(column, columnType) == SetSizeAndScale(column, JavaSplit(content, ','));
    SizeAndScaleParts(column, left, right);
  }

  /** `SET` and `ENUM` keep the qualifier verbatim as the value list. */
  lemma ValueList(column: TableColumn, base: string, content: string, tail: string)
    requires IsValueListType(column.columnType)
    requires '(' !in base && ')' !in base && ')' !in content
    ensures SetColumnSize(column, base + "(" + content + ")" + tail) == column.(value := Some(content))
  {
    QualifierOf(base, content, tail);
    QualifiedValueList(column, base + "(" + content + ")" + tail, content);
  }

  /** Without a comma the whole qualifier is the size, when it parses. */
  lemma SingleSize(column: TableColumn, base: string, content: string, tail: string)
    requires !IsValueListType(column.columnType)
    requires '(' !in base && ')' !in base && ')' !in content && ',' !in content
    ensures SetColumnSize(column, base + "(" + content + ")" + tail)
      == if ParseInt(content).Some? then column.(columnSize := ParseInt(content)) else column
  {
    QualifierOf(base, content, tail);
    QualifiedSize(column, base + "(" + content + ")" + tail, content);
  }

  /** With exactly one comma, each side is handled on its own: a blank side
      leaves its field as it was, a side that parses sets its field, and a
      left side that does not parse stops everything, including the scale. */
  lemma SizeAndScale(column: TableColumn, base: string, left: string, right: string, tail: string)
    requires !IsValueListType(column.columnType)
    requires '(' !in base && ')' !in base
    requires ')' !in left && ')' !in right && ',' !in left && ',' !in right
    ensures var r := SetColumnSize(column, base + "(" + left + "," + right + ")" + tail);
      && r.value == column.value
      && r.columnSize == (if IsNotBlank(left) && ParseInt(left).Some? then ParseInt(left) else column.columnSize)
      && r.decimalDigits == (if (IsNotBlank(left) ==> ParseInt(left).Some?) && IsNotBlank(right) && ParseInt(right).Some?
                             then ParseInt(right).value else column.decimalDigits)
  {
    var content := left + "," + right;
    var s := base + "(" + content + ")" + tail;
    assert s == base + "(" + left + "," + right + ")" + tail;
    QualifierOf(base, content, tail);
    QualifiedSizeAndScale(column, s, left, right);
  }

  /** How MySQL spells a sized type, `base(size)`. */
  function SizedType(base: string, size: int): string {
    base + "(" + IntToString(size) + ")"
  }

  /** How MySQL spells a type with precision and scale, `base(size,scale)`. */
  function ScaledType(base: string, size: int, scale: int): string {
    base + "(" + IntToString(size) + "," + IntToString(scale) + ")"
  }

  /** Reading back a printed `base(size)` gives the size. */
  lemma SizedTypeRoundTrip(column: TableColumn, base: string, size: int)
    requires !IsValueListType(column.columnType)
    requires '(' !in base && ')' !in base
    requires IsInt32(size)
    ensures SetColumnSize(column, SizedType(base, size)) == column.(columnSize := Some(size))
  {
    IntToStringShape(size);
    ParseIntToString(size);
    assert SizedType(base, size) == base + "(" + IntToString(size) + ")" + "";
    SingleSize(column, base, IntToString(size), "");
  }

  /** Reading back a printed `base(size,scale)` gives both numbers. */
  lemma ScaledTypeRoundTrip(column: TableColumn, base: string, size: int, scale: int)
    requires !IsValueListType(column.columnType)
    requires '(' !in base && ')' !in base
    requires IsInt32(size) && IsInt32(scale)
    ensures SetColumnSize(column, ScaledType(base, size, scale))
      == column.(columnSize := Some(size), decimalDigits := scale)
  {
    var left, right := IntToString(size), IntToString(scale);
    IntToStringShape(size);
    IntToStringShape(scale);
    ParseIntToString(size);
    ParseIntToString(scale);
    assert !IsWhitespace(left[0]) && !IsWhitespace(right[0]);
    assert ScaledType(base, size, scale) == base + "(" + left + "," + right + ")" + "";
    SizeAndScale(column, base, left, right, "");
  }

  /** `decimal(10,2)` gives size 10 and scale 2. */
  lemma DecimalExample(column: TableColumn)
    requires column.columnType == "DECIMAL"
    ensures SetColumnSize(column, "decimal(10,2)") == column.(columnSize := Some(10), decimalDigits := 2)
  {
    assert "decimal(10,2)" == "decimal" + "(" + "10" + "," + "2" + ")" + "";
    assert ParseInt("10") == Some(10) by { assert DigitsValue("10"[..1]) == 1; }
    assert ParseInt("2") == Some(2);
    assert IsNotBlank("10") && IsNotBlank("2");
    SizeAndScale(column, "decimal", "10", "2", "");
  }

  /** `varchar(255)` gives size 255 and keeps the scale. */
  lemma VarcharExample(column: TableColumn)
    requires column.columnType == "VARCHAR"
    ensures SetColumnSize(column, "varchar(255)") == column.(columnSize := Some(255))
  {
    assert "varchar(255)" == "varchar" + "(" + "255" + ")" + "";
    assert ParseInt("255") == Some(255) by {
      assert DigitsValue("255"[..2][..1]) == 2;
      assert DigitsValue("255"[..2]) == 25;
    }
    SingleSize(column, "varchar", "255", "");
  }

  /** `int(11) unsigned`: the text after the `)` is ignored. */
  lemma UnsignedIntExample(column: TableColumn)
    requires column.columnType == "INT"
    ensures SetColumnSize(column, "int(11) unsigned") == column.(columnSize := Some(11))
  {
    assert "int(11) unsigned" == "int" + "(" + "11" + ")" + " unsigned";
    assert ParseInt("11") == Some(11) by { assert DigitsValue("11"[..1]) == 1; }
    assert !IsValueListType(column.columnType);
    SingleSize(column, "int", "11", " unsigned");
  }

  /** `enum('a','b','c')` stores `'a','b','c'` verbatim and nothing else. */
  lemma EnumExample(column: TableColumn)
    requires column.columnType == "ENUM"
    ensures SetColumnSize(column, "enum('a','b','c')") == column.(value := Some("'a','b','c'"))
  {
    assert "enum('a','b','c')" == "enum" + "(" + "'a','b','c'" + ")" + "";
    ValueList(column, "enum", "'a','b','c'", "");
  }

  /** `decimal(10,x)`: the size is set before the scale fails to parse. */
  lemma PartialDecimalExample(column: TableColumn)
    requires column.columnType == "DECIMAL"
    ensures SetColumnSize(column, "decimal(10,x)") == column.(columnSize := Some(10))
  {
    assert "decimal(10,x)" == "decimal" + "(" + "10" + "," + "x" + ")" + "";
    assert ParseInt("10") == Some(10) by { assert DigitsValue("10"[..1]) == 1; }
    assert ParseInt("x") == None;
    assert IsNotBlank("10") && IsNotBlank("x");
    SizeAndScale(column, "decimal", "10", "x", "");
  }

  /** `decimal(10,)`: split drops the empty scale, so `sizes[1]` fails after
      the size is set. */
  lemma TrailingCommaExample(column: TableColumn)
    requires column.columnType == "DECIMAL"
    ensures SetColumnSize(column, "decimal(10,)") == column.(columnSize := Some(10))
  {
    assert "decimal(10,)" == "decimal" + "(" + "10" + "," + "" + ")" + "";
    assert ParseInt("10") == Some(10) by { assert DigitsValue("10"[..1]) == 1; }
    assert IsNotBlank("10");
    SizeAndScale(column, "decimal", "10", "", "");
  }

  /** `decimal(,2)`: a blank size is skipped and the scale is still read. */
  lemma BlankSizeExample(column: TableColumn)
    requires column.columnType == "DECIMAL"
    ensures SetColumnSize(column, "decimal(,2)") == column.(decimalDigits := 2)
  {
    assert "decimal(,2)" == "decimal" + "(" + "" + "," + "2" + ")" + "";
    assert ParseInt("2") == Some(2);
    assert IsNotBlank("2");
    SizeAndScale(column, "decimal", "", "2", "");
  }

  /** `decimal(10`: no closing parenthesis, nothing changes. */
  lemma UnclosedExample(column: TableColumn)
    ensures SetColumnSize(column, "decimal(10") == column
  {
    assert '(' in "decimal(10" && IndexOf("decimal(10", ')') == -1;
  }
}
