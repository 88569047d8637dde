/**
  Ordering of an index's columns by `Seq_in_index`. After each appended row
  the Java code re-sorts the column list with a stable sort keyed on the
  ordinal position; `SortByPosition` is an insertion sort with the same key.
  `StableSortUnique` shows that any two stable sorts of a list agree, so the
  choice of algorithm does not matter.
*/
module IndexColumnOrder {
  import opened Entities

  predicate Sorted(s: seq<TableIndexColumn>) {
    forall i, j :: 0 <= i < j < |s| ==> s[i].ordinalPosition <= s[j].ordinalPosition
  }

  /** Puts `c` in front of the first element with a greater position, that
      is after every element whose position is not greater. */
  function Insert(s: seq<TableIndexColumn>, c: TableIndexColumn): (r: seq<TableIndexColumn>)
    ensures |r| == |s| + 1
  {
    if |s| == 0 then [c]
    else if c.ordinalPosition < s[0].ordinalPosition then [c] + s
    else [s[0]] + Insert(s[1..], c)
  }

  /** Stable sort by ordinal position, ascending. */
  function SortByPosition(s: seq<TableIndexColumn>): (r: seq<TableIndexColumn>)
    ensures |r| == |s|
  {
    if |s| == 0 then []
    else
      Insert(SortByPosition(s[..|s| - 1]), s[|s| - 1])
  }

  lemma {:induction false} InsertPermutes(s: seq<TableIndexColumn>, c: TableIndexColumn)
    ensures multiset(Insert(s, c)) == multiset(s) + multiset{c}
  {
    if |s| > 0 && c.ordinalPosition >= s[0].ordinalPosition {
      InsertPermutes(s[1..], c);
      assert s == [s[0]] + s[1..];
    }
  }

  /** Sorting only reorders: the result holds the same columns, each as often. */
  lemma {:induction false} SortPermutes(s: seq<TableIndexColumn>)
    ensures multiset(SortByPosition(s)) == multiset(s)
  {
    if |s| > 0 {
      var init, last := s[..|s| - 1], s[|s| - 1];
      var sortedInit := SortByPosition(init);
      assert multiset(SortByPosition(s)) == multiset(sortedInit) + multiset{last} by {
        assert SortByPosition(s) == Insert(sortedInit, last);
        InsertPermutes(sortedInit, last);
      }
      assert multiset(s) == multiset(init) + multiset{last} by {
        assert s == init + [last];
      }
      SortPermutes(init);
    }
  }

  /** The elements of `s` at position `p`, in their order in `s`. */
  function WithPosition(s: seq<TableIndexColumn>, p: int): seq<TableIndexColumn> {
    if |s| == 0 then []
    else (if s[0].ordinalPosition == p then [s[0]] else []) + WithPosition(s[1..], p)
  }

  lemma {:induction false} WithPositionConcat(a: seq<TableIndexColumn>, b: seq<TableIndexColumn>, p: int)
    ensures WithPosition(a + b, p) == WithPosition(a, p) + WithPosition(b, p)
  {
    if |a| > 0 {
      WithPositionConcat(a[1..], b, p);
      assert (a + b)[1..] == a[1..] + b;
    } else {
      assert a + b == b;
    }
  }

  lemma {:induction false} InsertSorted(s: seq<TableIndexColumn>, c: TableIndexColumn)
    requires Sorted(s)
    ensures Sorted(Insert(s, c))
    ensures |s| > 0 && s[0].ordinalPosition <= c.ordinalPosition ==> Insert(s, c)[0] == s[0]
  {
    if |s| > 0 && c.ordinalPosition >= s[0].ordinalPosition {
      var tail := s[1..];
      assert Sorted(tail) by {
        forall i, j | 0 <= i < j < |tail|
          ensures tail[i].ordinalPosition <= tail[j].ordinalPosition
        {
          assert tail[i] == s[i + 1] && tail[j] == s[j + 1];
        }
      }
      InsertSorted(tail, c);
      InsertPermutes(tail, c);
      var r := Insert(tail, c);
      var t := [s[0]] + r;
      assert Insert(s, c) == t;
      forall i, j | 0 <= i < j < |t|
        ensures t[i].ordinalPosition <= t[j].ordinalPosition
      {
        assert t[j] == r[j - 1];
        if i == 0 {
          assert r[j - 1] in multiset(r);
          assert r[j - 1] == c || r[j - 1] in tail;
        } else {
          assert t[i] == r[i - 1];
        }
      }
    }
  }

  /** The sorted result is ordered by position. */
  lemma {:induction false} SortSorted(s: seq<TableIndexColumn>)
    ensures Sorted(SortByPosition(s))
  {
    if |s| > 0 {
      SortSorted(s[..|s| - 1]);
      InsertSorted(SortByPosition(s[..|s| - 1]), s[|s| - 1]);
    }
  }

  /** Inserting into a sorted list keeps the elements of each position in
      their order and puts the new one after them. */
  lemma {:induction false} InsertStable(s: seq<TableIndexColumn>, c: TableIndexColumn, p: int)
    requires Sorted(s)
    ensures WithPosition(Insert(s, c), p)
      == WithPosition(s, p) + (if c.ordinalPosition == p then [c] else [])
  {
    if |s| == 0 {
    } else if c.ordinalPosition < s[0].ordinalPosition {
      assert Insert(s, c) == [c] + s;
      WithPositionConcat([c], s, p);
      if c.ordinalPosition == p {
        NoneBelowFirst(s, p);
      }
    } else {
      InsertStable(s[1..], c, p);
      assert Insert(s, c) == [s[0]] + Insert(s[1..], c);
      WithPositionConcat([s[0]], Insert(s[1..], c), p);
      WithPositionConcat([s[0]], s[1..], p);
      assert s == [s[0]] + s[1..];
    }
  }

  /** A sorted list has no element below its first one. */
  lemma {:induction false} NoneBelowFirst(s: seq<TableIndexColumn>, p: int)
    requires Sorted(s) && |s| > 0 && p < s[0].ordinalPosition
    ensures WithPosition(s, p) == []
  {
    if |s| > 1 {
      NoneBelowFirst(s[1..], p);
    }
  }

  /** The sort is stable: for each position, the elements holding it come
      out in the order they went in. */
  lemma {:induction false} SortStable(s: seq<TableIndexColumn>, p: int)
    ensures WithPosition(SortByPosition(s), p) == WithPosition(s, p)
  {
    if |s| > 0 {
      var init, last := s[..|s| - 1], s[|s| - 1];
      SortStable(init, p);
      SortSorted(init);
      InsertStable(SortByPosition(init), last, p);
      WithPositionConcat(init, [last], p);
      assert s == init + [last];
    }
  }

  lemma {:induction false} InsertAtEnd(s: seq<TableIndexColumn>, c: TableIndexColumn)
    requires forall i :: 0 <= i < |s| ==> s[i].ordinalPosition <= c.ordinalPosition
    ensures Insert(s, c) == s + [c]
  {
    if |s| > 0 {
      InsertAtEnd(s[1..], c);
      assert s == [s[0]] + s[1..];
    }
  }

  /** Sorting a list that is already sorted leaves it as it is. */
  lemma {:induction false} SortOfSorted(s: seq<TableIndexColumn>)
    requires Sorted(s)
    ensures SortByPosition(s) == s
  {
    if |s| > 0 {
      var init, last := s[..|s| - 1], s[|s| - 1];
      assert Sorted(init) by {
        forall i, j | 0 <= i < j < |init|
          ensures init[i].ordinalPosition <= init[j].ordinalPosition
        {
          assert init[i] == s[i] && init[j] == s[j];
        }
      }
      SortOfSorted(init);
      forall i | 0 <= i < |init|
        ensures init[i].ordinalPosition <= last.ordinalPosition
      {
        assert init[i] == s[i];
      }
      InsertAtEnd(init, last);
      assert s == init + [last];
    }
  }

  /** Appending to the sorted list and sorting again, as the aggregator does
      on every row, gives the same list as sorting everything at once. */
  lemma ResortAppend(s: seq<TableIndexColumn>, c: TableIndexColumn)
    ensures SortByPosition(SortByPosition(s) + [c]) == SortByPosition(s + [c])
  {
    var sorted := SortByPosition(s);
    SortSorted(s);
    SortOfSorted(sorted);
    assert (sorted + [c])[..|sorted|] == sorted;
    assert (s + [c])[..|s|] == s;
  }

  lemma FirstAtItsPosition(s: seq<TableIndexColumn>)
    requires |s| > 0
    ensures WithPosition(s, s[0].ordinalPosition) != []
  {
  }

  /** Two lists that are both sorted and agree, position by position, on the
      order of their elements are equal. So every stable sort by position
      gives the result `SortByPosition` gives. */
  lemma {:induction false} StableSortUnique(a: seq<TableIndexColumn>, b: seq<TableIndexColumn>)
    requires Sorted(a) && Sorted(b)
    requires forall p :: WithPosition(a, p) == WithPosition(b, p)
    ensures a == b
    decreases |a| + |b|
  {
    if |a| == 0 || |b| == 0 {
      // an element on one side would show up at its position on the other
      if |a| > 0 {
        FirstAtItsPosition(a);
        assert false;
      } else if |b| > 0 {
        FirstAtItsPosition(b);
        assert false;
      }
    } else {
      var pa, pb := a[0].ordinalPosition, b[0].ordinalPosition;
      if pa < pb {
        NoneBelowFirst(b, pa);
        FirstAtItsPosition(a);
        assert false;
      } else if pb < pa {
        NoneBelowFirst(a, pb);
        FirstAtItsPosition(b);
        assert false;
      } else {
        assert WithPosition(a, pa)[0] == a[0];
        assert WithPosition(b, pa)[0] == b[0];
        assert a[0] == b[0] by {
          assert WithPosition(a, pa) == WithPosition(b, pa);
        }
        forall p
          ensures WithPosition(a[1..], p) == WithPosition(b[1..], p)
        {
          assert WithPosition(a, p) == WithPosition(b, p);
          var head := if a[0].ordinalPosition == p then [a[0]] else [];
          assert WithPosition(a, p) == head + WithPosition(a[1..], p);
          assert WithPosition(b, p) == head + WithPosition(b[1..], p);
          assert WithPosition(a[1..], p) == (head + WithPosition(a[1..], p))[|head|..];
          assert WithPosition(b[1..], p) == (head + WithPosition(b[1..], p))[|head|..];
        }
        StableSortUnique(a[1..], b[1..]);
        assert a == [a[0]] + a[1..] && b == [b[0]] + b[1..];
      }
    }
  }
}
