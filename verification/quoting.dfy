/**
  Identifier quoting. `format` wraps one name in backticks; `getMetaDataName`
  drops the blank parts of a qualified name, quotes the rest and joins them
  with dots, so that `("db1", "", "t")` becomes `` `db1`.`t` ``. Neither
  escapes a backtick inside a name.

  `ParseQualified` reads such a name back. It is the inverse that shows no
  information is lost for names without backticks.
*/
module Quoting {
  import opened Nullable
  import opened JavaText

  const BACKTICK: char := '`'
  const DOT: char := '.'

  /** `format(name)`: the name between backticks, unescaped. */
  function Format(name: string): (q: string)
    ensures |q| == |name| + 2
    ensures q[0] == BACKTICK && q[|q| - 1] == BACKTICK && q[1..|q| - 1] == name
  {
    [BACKTICK] + name + [BACKTICK]
  }

  /** The names that are not blank, in their order. */
  function NonBlank(names: seq<string>): (kept: seq<string>)
    ensures |kept| <= |names|
    ensures forall i :: 0 <= i < |kept| ==> IsNotBlank(kept[i])
    ensures forall n :: n in kept ==> n in names
    // every non-blank name is kept; a single name is kept exactly when it is not blank
    ensures forall i :: 0 <= i < |names| && IsNotBlank(names[i]) ==> names[i] in kept
    ensures |names| == 1 ==> kept == (if IsNotBlank(names[0]) then names else [])
  {
    if |names| == 0 then []
    else (if IsNotBlank(names[0]) then [names[0]] else []) + NonBlank(names[1..])
  }

  /** Each name quoted. */
  function FormatAll(names: seq<string>): (quoted: seq<string>)
    ensures |quoted| == |names|
    ensures forall i :: 0 <= i < |names| ==> quoted[i] == Format(names[i])
  {
    if |names| == 0 then [] else [Format(names[0])] + FormatAll(names[1..])
  }

  /** `getMetaDataName(names...)`. */
  function GetMetaDataName(names: seq<string>): (qualified: string)
    ensures qualified == "" <==> forall i :: 0 <= i < |names| ==> IsBlank(names[i])
    ensures qualified != "" ==> qualified[0] == BACKTICK && qualified[|qualified| - 1] == BACKTICK
  {
    var kept := NonBlank(names);
    if |kept| == 0 then ""
    else
      JoinQuoted(kept);
      assert kept[0] in names && IsNotBlank(kept[0]);
      Join(FormatAll(kept), DOT)
  }

  /** Quoted names joined with dots begin and end with a backtick. */
  lemma {:induction false} JoinQuoted(names: seq<string>)
    requires |names| > 0
    ensures var s := Join(FormatAll(names), DOT);
      |s| >= 2 && s[0] == BACKTICK && s[|s| - 1] == BACKTICK
  {
    var q := FormatAll(names);
    if |names| > 1 {
      JoinQuoted(names[1..]);
      assert q[1..] == FormatAll(names[1..]);
      assert Join(q, DOT) == q[0] + [DOT] + Join(q[1..], DOT);
    }
  }

  /** Reads `` `a`.`b`...`z` `` (at least one part) into its names; a
      name ends at the first backtick after its opening one. */
  function ParseParts(s: string): Option<seq<string>>
    decreases |s|
  {
    if |s| < 2 || s[0] != BACKTICK then None
    else
      var close := IndexFrom(s, BACKTICK, 1);
      if close < 0 then None
      else
        var name, rest := s[1..close], s[close + 1..];
        if |rest| == 0 then Some([name])
        else if rest[0] != DOT then None
        else match ParseParts(rest[1..])
          case None => None
          case Some(more) => Some([name] + more)
  }

  /** Reads back what `GetMetaDataName` writes; the empty string is the
      name with no parts. */
  function ParseQualified(s: string): Option<seq<string>> {
    if |s| == 0 then Some([]) else ParseParts(s)
  }

  predicate NoBacktick(names: seq<string>) {
    forall i :: 0 <= i < |names| ==> BACKTICK !in names[i]
  }

  /** Quoting and joining a non-empty list of names without backticks can be
      read back part by part. */
  lemma {:induction false} ParseJoined(names: seq<string>)
    requires |names| > 0 && NoBacktick(names)
    ensures ParseParts(Join(FormatAll(names), DOT)) == Some(names)
    decreases |names|
  {
    var s := Join(FormatAll(names), DOT);
    var first := names[0];
    var rest := if |names| == 1 then "" else [DOT] + Join(FormatAll(names[1..]), DOT);
    assert FormatAll(names)[1..] == FormatAll(names[1..]);
    assert s == Format(first) + rest;
    assert s[1..|first| + 1] == first;
    FirstIndexFrom(s, BACKTICK, 1, |first| + 1);
    assert s[|first| + 2..] == rest;
    assert |s| >= 2 && s[0] == BACKTICK;
    if |names| > 1 {
      ParseJoined(names[1..]);
      assert rest[0] == DOT && rest[1..] == Join(FormatAll(names[1..]), DOT);
      assert names == [first] + names[1..];
    } else {
      assert names == [first];
    }
  }

  /** `getMetaDataName` loses only the blank names: for names without
      backticks, reading the result back gives the non-blank names in order. */
  lemma MetaDataNameRoundTrip(names: seq<string>)
    requires NoBacktick(names)
    ensures ParseQualified(GetMetaDataName(names)) == Some(NonBlank(names))
  {
    var kept := NonBlank(names);
    if |kept| > 0 {
      assert NoBacktick(kept) by {
        forall i | 0 <= i < |kept|
          ensures BACKTICK !in kept[i]
        {
          assert kept[i] in kept;
          var j :| 0 <= j < |names| && names[j] == kept[i];
        }
      }
      ParseJoined(kept);
      assert Format(kept[0])[0] == BACKTICK;
      assert |GetMetaDataName(names)| > 0 by {
        assert FormatAll(kept)[0] == Format(kept[0]);
        if |kept| > 1 {
          assert GetMetaDataName(names) == Format(kept[0]) + [DOT] + Join(FormatAll(kept)[1..], DOT);
        }
      }
    }
  }

  /** A single non-blank name is quoted exactly as `format` quotes it, and
      blank names add nothing, not even a dot. */
  lemma SingleNameIsFormat(name: string)
    requires IsNotBlank(name)
    ensures GetMetaDataName([name]) == Format(name)
  {
    assert NonBlank([name]) == [name];
  }

  lemma BlankNamesDropped(before: seq<string>, blank: string, after: seq<string>)
    requires IsBlank(blank)
    ensures GetMetaDataName(before + [blank] + after) == GetMetaDataName(before + after)
  {
    NonBlankAppend(before, [blank] + after);
    NonBlankAppend(before, after);
    assert NonBlank([blank] + after) == NonBlank(after);
    assert before + [blank] + after == before + ([blank] + after);
    assert ([blank] + after)[1..] == after;
  }

  lemma {:induction false} NonBlankAppend(a: seq<string>, b: seq<string>)
    ensures NonBlank(a + b) == NonBlank(a) + NonBlank(b)
  {
    if |a| > 0 {
      NonBlankAppend(a[1..], b);
      assert (a + b)[1..] == a[1..] + b;
    } else {
      assert a + b == b;
    }
  }

  /** Two non-blank names come out quoted, with one dot between them. */
  lemma TwoNames(a: string, b: string)
    requires IsNotBlank(a) && IsNotBlank(b)
    ensures GetMetaDataName([a, b]) == Format(a) + [DOT] + Format(b)
  {
    assert [a, b][1..] == [b];
    assert NonBlank([a, b]) == [a, b];
    var q := FormatAll([a, b]);
    assert q == [Format(a), Format(b)];
    assert q[1..] == [Format(b)];
    assert Join(q, DOT) == q[0] + [DOT] + Join(q[1..], DOT);
  }

  /** A database and a table with an empty schema between them. */
  lemma MetaDataNameExample()
    ensures GetMetaDataName(["db1", "", "tbl1"]) == "`db1`.`tbl1`"
  {
    var db, table := "db1", "tbl1";
    assert GetMetaDataName([db, "", table]) == GetMetaDataName([db, table]) by {
      BlankNamesDropped([db], "", [table]);
      assert [db] + [""] + [table] == [db, "", table];
      assert [db] + [table] == [db, table];
    }
    assert GetMetaDataName([db, table]) == Format(db) + [DOT] + Format(table) by {
      assert db[0] == 'd' && table[0] == 't';
      assert IsNotBlank(db) && IsNotBlank(table);
      TwoNames(db, table);
    }
    QuotedPair();
  }

  /** The text of `` `db1`.`tbl1` ``, character by character. */
  lemma QuotedPair()
    ensures Format("db1") + [DOT] + Format("tbl1") == "`db1`.`tbl1`"
  {
    assert Format("db1") == "`db1`";
    assert Format("tbl1") == "`tbl1`";
  }
}
