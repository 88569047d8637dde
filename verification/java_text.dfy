/**
  The handful of `java.lang.String` and commons-lang `StringUtils` operations
  the metadata normaliser relies on, written out so that their edge cases
  (blank strings, trailing empty split parts, case folding) are explicit.
*/
module JavaText {

  /** `Character.isWhitespace`: the Unicode space, line and paragraph
      separators except the non-breaking ones, plus the ASCII controls
      TAB, LF, VT, FF, CR and FS, GS, RS, US. */
  predicate IsWhitespace(c: char) {
    || c == ' ' || c == '\t' || c == '\n' || c == '\U{000B}' || c == '\U{000C}' || c == '\r'
    || ('\U{001C}' <= c <= '\U{001F}')
    || c == '\U{1680}'
    || ('\U{2000}' <= c <= '\U{2006}') || ('\U{2008}' <= c <= '\U{200A}')
    || c == '\U{2028}' || c == '\U{2029}' || c == '\U{205F}' || c == '\U{3000}'
  }

  /** `StringUtils.isBlank` on a non-null string: empty or whitespace only. */
  predicate IsBlank(s: string) {
    forall i :: 0 <= i < |s| ==> IsWhitespace(s[i])
  }

  /** `StringUtils.isNotBlank` on a non-null string: some character is not
      whitespace, so the empty string is blank. */
  predicate IsNotBlank(s: string)
    ensures IsNotBlank(s) <==> exists i :: 0 <= i < |s| && !IsWhitespace(s[i])
    ensures IsNotBlank(s) ==> |s| > 0
  {
    !IsBlank(s)
  }

  /** `StringUtils.isNotBlank` as commons-lang computes it: scan from the
      left and stop at the first character that is not whitespace. */
  method ScanNotBlank(s: string) returns (notBlank: bool)
    ensures notBlank == IsNotBlank(s)
  {
    var i := 0;
    while i < |s|
      invariant 0 <= i <= |s|
      invariant forall j :: 0 <= j < i ==> IsWhitespace(s[j])
    {
      if !IsWhitespace(s[i]) {
        return true;
      }
      i := i + 1;
    }
    return false;
  }

  /** The case class of a character as `equalsIgnoreCase` sees it when the
      other side is ASCII. Java's `regionMatches` treats two characters as
      equal when their upper cases agree or the lower cases of their upper
      cases agree. Against an ASCII letter that holds for both cases of the
      letter and for four characters outside ASCII: dotless i and long s,
      whose upper cases are `I` and `S`, and the dotted capital I and the
      Kelvin sign, whose lower cases are `i` and `k`. All of them fold onto
      the lower-case ASCII letter. */
  function FoldCase(c: char): (f: char)
    ensures 'A' <= c <= 'Z' ==> f != c && 'a' <= f <= 'z'
    ensures 'a' <= c <= 'z' ==> f == c
  {
    if 'A' <= c <= 'Z' then (c as int + 32) as char
    else if c == '\U{0130}' || c == '\U{0131}' then 'i'
    else if c == '\U{017F}' then 's'
    else if c == '\U{212A}' then 'k'
    else c
  }

  /** The characters `equalsIgnoreCase` matches with the ASCII letter
      `letter`: the letter in either case, plus the non-ASCII characters
      that fold onto it. */
  lemma FoldCaseLetter(c: char, letter: char)
    requires 'a' <= letter <= 'z'
    ensures FoldCase(c) == FoldCase(letter) <==>
      || c == letter || c as int == letter as int - 32
      || (letter == 'i' && (c == '\U{0130}' || c == '\U{0131}'))
      || (letter == 's' && c == '\U{017F}')
      || (letter == 'k' && c == '\U{212A}')
  {
  }

  /** `String.equalsIgnoreCase(word)`: the same length, and every pair of
      characters at the same position folds to the same character; exact
      whenever `word` is ASCII, which it is at every use in the normaliser
      (a fixed keyword). */
  predicate EqualsIgnoreCase(s: string, word: string)
    ensures EqualsIgnoreCase(s, word) <==>
      |s| == |word| && forall i :: 0 <= i < |s| ==> FoldCase(s[i]) == FoldCase(word[i])
  {
    |s| == |word| && (|s| == 0 || (FoldCase(s[0]) == FoldCase(word[0]) && EqualsIgnoreCase(s[1..], word[1..])))
  }

  /** `Character.toUpperCase` restricted to ASCII letters. */
  function UpperChar(c: char): char {
    if 'a' <= c <= 'z' then (c as int - 32) as char else c
  }

  /** `String.toUpperCase` restricted to ASCII letters. */
  function ToUpperCase(s: string): (u: string)
    ensures |u| == |s|
    ensures forall i :: 0 <= i < |s| ==> u[i] == UpperChar(s[i])
    ensures forall i :: 0 <= i < |u| ==> !('a' <= u[i] <= 'z')
  {
    seq(|s|, i requires 0 <= i < |s| => UpperChar(s[i]))
  }

  /** Upper-casing never changes which keyword a string matches ignoring case. */
  lemma {:induction false} UpperCasePreservesIgnoreCase(s: string, word: string)
    ensures EqualsIgnoreCase(ToUpperCase(s), word) <==> EqualsIgnoreCase(s, word)
  {
    if |s| > 0 && |s| == |word| {
      UpperCasePreservesIgnoreCase(s[1..], word[1..]);
      assert ToUpperCase(s)[1..] == ToUpperCase(s[1..]);
    }
  }

  /** `needle` occurs in `hay` starting at index `i`. */
  predicate OccursAt(hay: string, needle: string, i: nat) {
    i + |needle| <= |hay| && hay[i..i + |needle|] == needle
  }

  /** Whether `needle` occurs in `hay` at `i` or later. */
  function ContainsFrom(hay: string, needle: string, i: nat): bool
    decreases |hay| - i
  {
    if i + |needle| > |hay| then false
    else OccursAt(hay, needle, i) || ContainsFrom(hay, needle, i + 1)
  }

  /** `String.contains`. */
  function Contains(hay: string, needle: string): bool {
    ContainsFrom(hay, needle, 0)
  }

  lemma {:induction false} ContainsFromOccurs(hay: string, needle: string, i: nat)
    ensures ContainsFrom(hay, needle, i) <==> exists j: nat :: i <= j && OccursAt(hay, needle, j)
    decreases |hay| - i
  {
    if i + |needle| <= |hay| {
      ContainsFromOccurs(hay, needle, i + 1);
      if exists j: nat :: i <= j && OccursAt(hay, needle, j) {
        var j: nat :| i <= j && OccursAt(hay, needle, j);
        assert j == i || (i + 1 <= j && OccursAt(hay, needle, j));
      }
    }
  }

  /** `contains` holds exactly when the needle occurs at some position. */
  lemma ContainsOccurs(hay: string, needle: string)
    ensures Contains(hay, needle) <==> exists j: nat :: OccursAt(hay, needle, j)
  {
    ContainsFromOccurs(hay, needle, 0);
  }

  /** A needle cannot occur where its first character does not. */
  lemma AbsentFirstChar(hay: string, needle: string)
    requires |needle| > 0 && needle[0] !in hay
    ensures !exists j: nat :: OccursAt(hay, needle, j)
  {
  }

  /** The first position at or after `i` holding `c`, or -1. */
  function IndexFrom(s: string, c: char, i: nat): (k: int)
    requires i <= |s|
    ensures -1 <= k < |s|
    ensures k >= 0 ==> i <= k && s[k] == c
    decreases |s| - i
  {
    if i == |s| then -1 else if s[i] == c then i else IndexFrom(s, c, i + 1)
  }

  lemma {:induction false} IndexFromFirst(s: string, c: char, i: nat)
    requires i <= |s|
    ensures IndexFrom(s, c, i) == -1 <==> c !in s[i..]
    ensures IndexFrom(s, c, i) >= 0 ==> c !in s[i..IndexFrom(s, c, i)]
    decreases |s| - i
  {
    if i < |s| && s[i] != c {
      IndexFromFirst(s, c, i + 1);
      assert s[i..] == [s[i]] + s[i + 1..];
      var k := IndexFrom(s, c, i + 1);
      if k >= 0 {
        assert s[i..k] == [s[i]] + s[i + 1..k];
      }
    }
  }

  /** The first occurrence at or after `i` is the only position holding `c`
      with no `c` between `i` and it. */
  lemma FirstIndexFrom(s: string, c: char, i: nat, k: nat)
    requires i <= k < |s| && s[k] == c && c !in s[i..k]
    ensures IndexFrom(s, c, i) == k
  {
    IndexFromFirst(s, c, i);
  }

  /** `String.indexOf` of a one-character string: the first position of `c`,
      or -1 when `c` does not occur. */
  function IndexOf(s: string, c: char): (k: int)
    ensures -1 <= k < |s|
    ensures k >= 0 ==> s[k] == c
  {
    IndexFrom(s, c, 0)
  }

  /** `indexOf` finds the first occurrence, and -1 means there is none. */
  lemma IndexOfFirst(s: string, c: char)
    ensures IndexOf(s, c) == -1 <==> c !in s
    ensures IndexOf(s, c) >= 0 ==> c !in s[..IndexOf(s, c)]
  {
    IndexFromFirst(s, c, 0);
    assert s[0..] == s;
  }

  /** Splits on every occurrence of `sep`, keeping all parts, empty ones
      included (the split before Java removes trailing empty strings). */
  function SplitAll(s: string, sep: char): (parts: seq<string>)
    ensures |parts| >= 1
    ensures forall i :: 0 <= i < |parts| ==> sep !in parts[i]
    decreases |s|
  {
    IndexOfFirst(s, sep);
    if sep !in s then [s]
    else
      var k := IndexOf(s, sep);
      [s[..k]] + SplitAll(s[k + 1..], sep)
  }

  /** Joins `parts` with `sep` between each two. */
  function Join(parts: seq<string>, sep: char): string {
    if |parts| == 0 then ""
    else if |parts| == 1 then parts[0]
    else parts[0] + [sep] + Join(parts[1..], sep)
  }

  /** Splitting and joining again with the same separator gives the input back. */
  lemma {:induction false} SplitAllJoin(s: string, sep: char)
    ensures Join(SplitAll(s, sep), sep) == s
    decreases |s|
  {
    if sep in s {
      var k := IndexOf(s, sep);
      IndexOfFirst(s, sep);
      SplitAllJoin(s[k + 1..], sep);
      assert s == s[..k] + [sep] + s[k + 1..];
    }
  }

  /** Removes empty strings from the end of `parts`. */
  function DropTrailingEmpty(parts: seq<string>): (r: seq<string>)
    ensures |r| <= |parts| && r == parts[..|r|]
    ensures |r| > 0 ==> r[|r| - 1] != ""
    ensures forall i :: |r| <= i < |parts| ==> parts[i] == ""
  {
    if |parts| > 0 && parts[|parts| - 1] == "" then DropTrailingEmpty(parts[..|parts| - 1])
    else parts
  }

  /** `String.split(String.valueOf(sep))` with limit 0, for a separator that is
      not a regular-expression metacharacter: the input itself when `sep` does
      not occur, otherwise every part with the trailing empty ones removed
      (so `"10,"` gives `["10"]` and `","` gives no part at all). */
  function JavaSplit(s: string, sep: char): seq<string> {
    if sep !in s then [s] else DropTrailingEmpty(SplitAll(s, sep))
  }

  /** The first occurrence is the only position with `c` and no earlier `c`. */
  lemma FirstIndex(s: string, c: char, k: nat)
    requires k < |s| && s[k] == c && c !in s[..k]
    ensures IndexOf(s, c) == k
  {
    IndexOfFirst(s, c);
  }

  /** Java's split of `left,right` when neither side holds the separator:
      both parts, except that trailing empty parts are dropped. */
  lemma SplitPair(left: string, right: string, sep: char)
    requires sep !in left && sep !in right
    ensures JavaSplit(left + [sep] + right, sep)
      == if right != "" then [left, right] else if left != "" then [left] else []
  {
    var s := left + [sep] + right;
    assert s[|left|] == sep && s[..|left|] == left;
    FirstIndex(s, sep, |left|);
    assert s[|left| + 1..] == right;
    assert SplitAll(s, sep) == [left] + [right];
    if right == "" {
      assert [left, right][..1] == [left];
      assert DropTrailingEmpty([left, right]) == DropTrailingEmpty([left]);
      assert [left][..0] == [];
    }
  }
}
