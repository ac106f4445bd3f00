/**
  The three Python string operations that summarize_issue is built from:
  str.strip() without arguments, str.splitlines() without keepends, and
  "\n".join. Each is stated as Python 3 (CPython) defines it on str, with
  the full character sets CPython uses.
 */
module PyText {

  /** str.isspace() on one character, the set that str.strip() removes:
      U+0009..U+000D, U+001C..U+001F, space, U+0085, U+00A0, U+1680,
      U+2000..U+200A, U+2028, U+2029, U+202F, U+205F and U+3000. */
  predicate IsSpace(c: char) {
    || ('\U{9}' <= c <= '\U{D}')
    || ('\U{1C}' <= c <= '\U{20}')
    || c == '\U{85}' || c == '\U{A0}' || c == '\U{1680}'
    || ('\U{2000}' <= c <= '\U{200A}')
    || c == '\U{2028}' || c == '\U{2029}' || c == '\U{202F}'
    || c == '\U{205F}' || c == '\U{3000}'
  }

  /** The line boundaries of str.splitlines(): \n, \r, \v, \f, U+001C,
      U+001D, U+001E, U+0085, U+2028 and U+2029 ("\r\n" counts as one
      boundary, see BreakWidth). */
  predicate IsLineBreak(c: char) {
    || c == '\n' || c == '\r' || c == '\U{B}' || c == '\U{C}'
    || ('\U{1C}' <= c <= '\U{1E}')
    || c == '\U{85}' || c == '\U{2028}' || c == '\U{2029}'
  }

  lemma LineBreakIsSpace(c: char)
    requires IsLineBreak(c)
    ensures IsSpace(c)
  {
  }

  predicate AllSpace(s: string) {
    forall i :: 0 <= i < |s| ==> IsSpace(s[i])
  }

  predicate NoLineBreak(s: string) {
    forall i :: 0 <= i < |s| ==> !IsLineBreak(s[i])
  }

  /** Every line boundary in s is a plain '\n'. */
  predicate OnlyNewlineBreaks(s: string) {
    forall i :: 0 <= i < |s| && IsLineBreak(s[i]) ==> s[i] == '\n'
  }

  function CountChar(s: string, c: char): nat {
    if s == [] then 0 else (if s[0] == c then 1 else 0) + CountChar(s[1..], c)
  }

  lemma {:induction false} CountCharAppend(a: string, b: string, c: char)
    ensures CountChar(a + b, c) == CountChar(a, c) + CountChar(b, c)
  {
    if a != [] {
      assert (a + b)[1..] == a[1..] + b;
      CountCharAppend(a[1..], b, c);
    } else {
      assert a + b == b;
    }
  }

  lemma CountCharSlice(s: string, i: nat, j: nat, c: char)
    requires i <= j <= |s|
    ensures CountChar(s[i..j], c) <= CountChar(s, c)
  {
    assert s == s[..i] + s[i..j] + s[j..];
    CountCharAppend(s[..i] + s[i..j], s[j..], c);
    CountCharAppend(s[..i], s[i..j], c);
  }

  lemma CountCharNone(s: string, c: char)
    requires forall i :: 0 <= i < |s| ==> s[i] != c
    ensures CountChar(s, c) == 0
  {
    if s != [] {
      CountCharNone(s[1..], c);
    }
  }

  // ---------------------------------------------------------------- strip

  /** Where str.strip() starts its result: the first index at or after i
      that holds a non-whitespace character, or |s|. */
  function SkipSpace(s: string, i: nat): (k: nat)
    requires i <= |s|
    ensures i <= k <= |s|
    ensures forall m :: i <= m < k ==> IsSpace(s[m])
    ensures k < |s| ==> !IsSpace(s[k])
    decreases |s| - i
  {
    if i < |s| && IsSpace(s[i]) then SkipSpace(s, i + 1) else i
  }

  /** Where str.strip() ends its result: moving down from j, but not below
      lo, the first position whose preceding character is not whitespace. */
  function SkipSpaceBack(s: string, lo: nat, j: nat): (k: nat)
    requires lo <= j <= |s|
    ensures lo <= k <= j
    ensures forall m :: k <= m < j ==> IsSpace(s[m])
    ensures k > lo ==> !IsSpace(s[k - 1])
  {
    if j > lo && IsSpace(s[j - 1]) then SkipSpaceBack(s, lo, j - 1) else j
  }

  /** r is what remains of s once its leading whitespace (the first lead
      characters) and its trailing whitespace are cut off: s is
      whitespace + r + whitespace, and r neither starts nor ends with
      whitespace. */
  ghost predicate IsStrippingOf(s: string, lead: nat, r: string) {
    && lead + |r| <= |s|
    && s[lead..lead + |r|] == r
    && (forall i :: 0 <= i < lead ==> IsSpace(s[i]))
    && (forall i :: lead + |r| <= i < |s| ==> IsSpace(s[i]))
    && (r == [] || (!IsSpace(r[0]) && !IsSpace(r[|r| - 1])))
  }

  /** str.strip() with no argument. */
  function Strip(s: string): (r: string)
    ensures exists lead: nat :: IsStrippingOf(s, lead, r)
    ensures r == [] || (!IsSpace(r[0]) && !IsSpace(r[|r| - 1]))
    ensures r == [] <==> AllSpace(s)
  {
    var i := SkipSpace(s, 0);
    var j := SkipSpaceBack(s, i, |s|);
    var r := s[i..j];
    assert r != [] ==> r[0] == s[i] && r[|r| - 1] == s[j - 1];
    assert IsStrippingOf(s, i, r);
    StrippingEmptyIff(s, i, r);
    r
  }

  // Helper: the stripped string is empty exactly when s is all whitespace.
  lemma StrippingEmptyIff(s: string, lead: nat, r: string)
    requires IsStrippingOf(s, lead, r)
    ensures r == [] <==> AllSpace(s)
  {
    assert r != [] ==> s[lead] == r[0];
  }

  /** The description by IsStrippingOf determines the stripped string:
      Strip is the only function meeting its contract. */
  lemma StrippingIsUnique(s: string, l1: nat, r1: string, l2: nat, r2: string)
    requires IsStrippingOf(s, l1, r1) && IsStrippingOf(s, l2, r2)
    ensures r1 == r2
  {
    assert r1 != [] ==> s[l1] == r1[0] && s[l1 + |r1| - 1] == r1[|r1| - 1];
    assert r2 != [] ==> s[l2] == r2[0] && s[l2 + |r2| - 1] == r2[|r2| - 1];
    assert r1 != [] && r2 != [] ==> l1 == l2 && |r1| == |r2|;
  }

  /** A string that neither starts nor ends with whitespace is left
      unchanged by strip. */
  lemma StripOfTrimmed(s: string)
    requires s == [] || (!IsSpace(s[0]) && !IsSpace(s[|s| - 1]))
    ensures Strip(s) == s
  {
    var lead: nat :| IsStrippingOf(s, lead, Strip(s));
    assert s[0..|s|] == s;
    assert IsStrippingOf(s, 0, s);
    StrippingIsUnique(s, lead, Strip(s), 0, s);
  }

  /** Stripping twice is the same as stripping once. */
  lemma StripIdempotent(s: string)
    ensures Strip(Strip(s)) == Strip(s)
  {
    var lead: nat :| IsStrippingOf(s, lead, Strip(s));
    StripOfTrimmed(Strip(s));
  }

  /** Whitespace appended at the end does not change the stripped string. */
  lemma StripIgnoresTrailingSpace(s: string, c: char)
    requires IsSpace(c)
    ensures Strip(s + [c]) == Strip(s)
  {
    var r := Strip(s);
    var lead: nat :| IsStrippingOf(s, lead, r);
    var t := s + [c];
    assert forall i :: 0 <= i < |s| ==> t[i] == s[i];
    assert t[lead..lead + |r|] == s[lead..lead + |r|];
    assert IsStrippingOf(t, lead, r);
    var lead': nat :| IsStrippingOf(t, lead', Strip(t));
    StrippingIsUnique(t, lead, r, lead', Strip(t));
  }

  /** A string whose first character is not whitespace keeps that
      character at the front when stripped. */
  lemma StripKeepsFirst(s: string)
    requires s != [] && !IsSpace(s[0])
    ensures Strip(s) != [] && Strip(s)[0] == s[0]
  {
    assert !AllSpace(s);
    assert SkipSpace(s, 0) == 0;
  }

  /** Stripping only removes characters: it adds no line boundary and
      no occurrence of any character. */
  lemma StripKeepsBreaks(s: string, c: char)
    ensures OnlyNewlineBreaks(s) ==> OnlyNewlineBreaks(Strip(s))
    ensures CountChar(Strip(s), c) <= CountChar(s, c)
  {
    var r := Strip(s);
    var lead: nat :| IsStrippingOf(s, lead, r);
    OnlyNewlineBreaksSlice(s, lead, lead + |r|);
    CountCharSlice(s, lead, lead + |r|, c);
  }

  lemma OnlyNewlineBreaksSlice(s: string, i: nat, j: nat)
    requires i <= j <= |s|
    ensures OnlyNewlineBreaks(s) ==> OnlyNewlineBreaks(s[i..j])
  {
    assert forall m :: 0 <= m < j - i ==> s[i..j][m] == s[i + m];
  }

  // ----------------------------------------------------------- splitlines

  /** The first line boundary at or after index i, or |s|. */
  function FindBreak(s: string, i: nat): (k: nat)
    requires i <= |s|
    ensures i <= k <= |s|
    ensures k < |s| ==> IsLineBreak(s[k])
    decreases |s| - i
  {
    if i == |s| || IsLineBreak(s[i]) then i else FindBreak(s, i + 1)
  }

  // Helper: there is no boundary before the one FindBreak finds.
  lemma {:induction false} FindBreakPlain(s: string, i: nat)
    requires i <= |s|
    ensures forall m :: i <= m < FindBreak(s, i) ==> !IsLineBreak(s[m])
    decreases |s| - i
  {
    if i < |s| && !IsLineBreak(s[i]) {
      FindBreakPlain(s, i + 1);
    }
  }

  /** The index just past the boundary at k: "\r\n" is one boundary of two
      characters, every other boundary is one character. */
  function AfterBreak(s: string, k: nat): (n: nat)
    requires k < |s|
    ensures k < n <= |s|
  {
    if s[k] == '\r' && k + 1 < |s| && s[k + 1] == '\n' then k + 2 else k + 1
  }

  /** The lines of s from index i on, as str.splitlines() produces them:
      each iteration takes the text up to the next boundary and resumes
      after it, until the end of s is reached. */
  function LinesFrom(s: string, i: nat): (ls: seq<string>)
    requires i <= |s|
    ensures ls == [] <==> i == |s|
    decreases |s| - i
  {
    if i == |s| then []
    else
      var k := FindBreak(s, i);
      if k == |s| then [s[i..]]
      else [s[i..k]] + LinesFrom(s, AfterBreak(s, k))
  }

  // Helper: no line produced from index i on holds a boundary.
  lemma {:induction false} LinesFromNoBreaks(s: string, i: nat)
    requires i <= |s|
    ensures forall j :: 0 <= j < |LinesFrom(s, i)| ==> NoLineBreak(LinesFrom(s, i)[j])
    decreases |s| - i
  {
    if i < |s| {
      var k := FindBreak(s, i);
      FindBreakPlain(s, i);
      assert forall m :: 0 <= m < k - i ==> s[i..k][m] == s[i + m];
      if k < |s| {
        LinesFromNoBreaks(s, AfterBreak(s, k));
      }
    }
  }

  /** str.splitlines(): the lines of s without their boundaries. A
      boundary at the very end does not start a further (empty) line, so
      "" has no line and "a\n" has one. */
  function SplitLines(s: string): (ls: seq<string>)
    ensures forall j :: 0 <= j < |ls| ==> NoLineBreak(ls[j])
    ensures ls == [] <==> s == []
  {
    LinesFromNoBreaks(s, 0);
    LinesFrom(s, 0)
  }

  /** "\n".join(ls). */
  function JoinLines(ls: seq<string>): string {
    if |ls| == 0 then ""
    else if |ls| == 1 then ls[0]
    else ls[0] + "\n" + JoinLines(ls[1..])
  }

  /** The reference for both: s from index i on, with every line boundary
      ("\r\n" counted once) written as a single '\n'. */
  function NormalizeFrom(s: string, i: nat): string
    requires i <= |s|
    decreases |s| - i
  {
    if i == |s| then ""
    else if IsLineBreak(s[i]) then "\n" + NormalizeFrom(s, AfterBreak(s, i))
    else [s[i]] + NormalizeFrom(s, i + 1)
  }

  function NormalizeBreaks(s: string): string {
    NormalizeFrom(s, 0)
  }

  // ----------------------------------------------------- relating the two

  // Helper: the stretch up to the next boundary is copied unchanged.
  lemma {:induction false} NormalizePlain(s: string, i: nat)
    requires i <= |s|
    ensures NormalizeFrom(s, i) == s[i..FindBreak(s, i)] + NormalizeFrom(s, FindBreak(s, i))
    decreases |s| - i
  {
    var k := FindBreak(s, i);
    if i < |s| && !IsLineBreak(s[i]) {
      assert FindBreak(s, i + 1) == k;
      NormalizePlain(s, i + 1);
      var x, y := s[i..k], NormalizeFrom(s, k);
      assert NormalizeFrom(s, i) == [s[i]] + (s[i + 1..k] + y);
      assert x == [s[i]] + s[i + 1..k];
      assert x + y == [s[i]] + (s[i + 1..k] + y);
    } else {
      assert s[i..k] == [];
    }
  }

  /** The lines produced from index i on, joined again, give the normalised
      text, except that a boundary at the very end is dropped. */
  ghost predicate JoinAgrees(s: string, i: nat)
    requires i <= |s|
  {
    JoinLines(LinesFrom(s, i)) + (if i < |s| && IsLineBreak(s[|s| - 1]) then "\n" else "")
    == NormalizeFrom(s, i)
  }

  lemma {:induction false} JoinLinesFrom(s: string, i: nat)
    requires i <= |s|
    ensures JoinAgrees(s, i)
    decreases |s| - i
  {
    if i < |s| {
      var k := FindBreak(s, i);
      NormalizePlain(s, i);
      if k == |s| {
        FindBreakPlain(s, i);
        assert !IsLineBreak(s[|s| - 1]);
        assert s[i..k] + "" == s[i..];
      } else {
        var m := AfterBreak(s, k);
        if m < |s| {
          JoinLinesFrom(s, m);
        }
        JoinLinesStep(s, i);
      }
    }
  }

  // Helper: JoinAgrees on a line followed by a boundary, from JoinAgrees on
  // what follows the boundary.
  lemma JoinLinesStep(s: string, i: nat)
    requires i < |s| && FindBreak(s, i) < |s|
    requires AfterBreak(s, FindBreak(s, i)) < |s| ==> JoinAgrees(s, AfterBreak(s, FindBreak(s, i)))
    ensures JoinAgrees(s, i)
  {
    var k := FindBreak(s, i);
    var m := AfterBreak(s, k);
    var x := s[i..k];
    NormalizePlain(s, i);
    var rest := NormalizeFrom(s, m);
    assert NormalizeFrom(s, i) == x + ("\n" + rest);
    var ls := LinesFrom(s, m);
    assert LinesFrom(s, i) == [x] + ls;
    assert m == |s| ==> IsLineBreak(s[|s| - 1]) by {
      if m == |s| && m == k + 2 { assert s[|s| - 1] == s[k + 1]; }
    }
    JoinOneLine(x, rest, ls, IsLineBreak(s[|s| - 1]));
  }

  // Helper: the string algebra of JoinLinesStep.
  lemma JoinOneLine(x: string, rest: string, ls: seq<string>, endsWithBreak: bool)
    requires ls == [] ==> rest == [] && endsWithBreak
    requires ls != [] ==> JoinLines(ls) + (if endsWithBreak then "\n" else "") == rest
    ensures JoinLines([x] + ls) + (if endsWithBreak then "\n" else "") == x + ("\n" + rest)
  {
    if ls != [] {
      assert ([x] + ls)[1..] == ls;
      var e := if endsWithBreak then "\n" else "";
      assert JoinLines([x] + ls) + e == x + "\n" + JoinLines(ls) + e;
    }
  }

  /** Lines produced by splitlines are joined back into the input, except
      that every boundary becomes '\n' and a boundary at the very end is
      dropped. */
  lemma JoinSplitLines(s: string)
    ensures JoinLines(SplitLines(s)) + (if s != [] && IsLineBreak(s[|s| - 1]) then "\n" else "")
            == NormalizeBreaks(s)
  {
    JoinLinesFrom(s, 0);
    assert JoinAgrees(s, 0);
  }

  // Helper: normalisation leaves a text with only '\n' boundaries unchanged.
  lemma {:induction false} NormalizeOnlyNewlines(s: string, i: nat)
    requires i <= |s| && OnlyNewlineBreaks(s)
    ensures NormalizeFrom(s, i) == s[i..]
    decreases |s| - i
  {
    if i < |s| {
      NormalizeOnlyNewlines(s, i + 1);
      assert s[i..] == [s[i]] + s[i + 1..];
    }
  }

  /** If s contains no boundary but '\n' and does not end with one, joining
      its lines gives s back exactly. */
  lemma JoinSplitPlainNewlines(s: string)
    requires OnlyNewlineBreaks(s)
    requires s == [] || !IsLineBreak(s[|s| - 1])
    ensures JoinLines(SplitLines(s)) == s
  {
    JoinSplitLines(s);
    NormalizeOnlyNewlines(s, 0);
    assert JoinLines(SplitLines(s)) + "" == JoinLines(SplitLines(s));
  }

  /** Joining lines without boundaries and splitting the result again gives
      the lines back, as long as the last one is not empty (splitlines
      never yields an empty last line). */
  lemma SplitJoinLines(ls: seq<string>)
    requires forall i :: 0 <= i < |ls| ==> NoLineBreak(ls[i])
    requires ls == [] || ls[|ls| - 1] != []
    ensures SplitLines(JoinLines(ls)) == ls
  {
    var s := JoinLines(ls);
    assert s[0..] == s;
    LinesOfJoin(s, 0, ls);
  }

  // Helper: splitting from index i, where the joined lines ls start, gives ls.
  lemma {:induction false} LinesOfJoin(s: string, i: nat, ls: seq<string>)
    requires i <= |s| && s[i..] == JoinLines(ls)
    requires forall j :: 0 <= j < |ls| ==> NoLineBreak(ls[j])
    requires ls == [] || ls[|ls| - 1] != []
    ensures LinesFrom(s, i) == ls
    decreases |ls|, 1
  {
    if |ls| == 1 {
      LastLineOfJoin(s, i, ls[0]);
    } else if |ls| > 1 {
      LinesOfJoinStep(s, i, ls);
    }
  }

  // Helper: LinesOfJoin for more than one line.
  lemma {:induction false} LinesOfJoinStep(s: string, i: nat, ls: seq<string>)
    requires |ls| > 1 && i <= |s| && s[i..] == JoinLines(ls)
    requires forall j :: 0 <= j < |ls| ==> NoLineBreak(ls[j])
    requires ls[|ls| - 1] != []
    ensures LinesFrom(s, i) == ls
    decreases |ls|, 0
  {
    var x := ls[0];
    var k := i + |x|;
    LineOfJoin(s, i, x, JoinLines(ls[1..]));
    LinesOfJoin(s, k + 1, ls[1..]);
    ConsLines(s, i, k + 1, x, ls[1..]);
    assert [x] + ls[1..] == ls;
  }

  // Helper: a last line without boundary is the one line left.
  lemma LastLineOfJoin(s: string, i: nat, x: string)
    requires i <= |s| && s[i..] == x && NoLineBreak(x) && x != []
    ensures LinesFrom(s, i) == [x]
  {
    assert forall m :: i <= m < |s| ==> s[m] == x[m - i];
    NoBreakFound(s, i);
  }

  // Helper: one unfolding of LinesFrom at a boundary.
  lemma ConsLines(s: string, i: nat, n: nat, x: string, ls: seq<string>)
    requires i < |s| && FindBreak(s, i) < |s| && n == AfterBreak(s, FindBreak(s, i))
    requires s[i..FindBreak(s, i)] == x && LinesFrom(s, n) == ls
    ensures LinesFrom(s, i) == [x] + ls
  {
  }

  // Helper: the first line of a joined text ends at its first '\n'.
  lemma LineOfJoin(s: string, i: nat, x: string, rest: string)
    requires i <= |s| && s[i..] == x + "\n" + rest && NoLineBreak(x)
    ensures FindBreak(s, i) == i + |x| && AfterBreak(s, i + |x|) == i + |x| + 1
    ensures s[i..i + |x|] == x && s[i + |x| + 1..] == rest
  {
    var k := i + |x|;
    assert forall m :: i <= m < k ==> s[m] == x[m - i];
    assert s[k] == '\n';
    FindBreakAt(s, i, k);
    assert s[i..k] == s[i..][..|x|];
    assert s[k + 1..] == s[i..][|x| + 1..];
  }

  // Helper: with no boundary in [i, k) and one at k, k is the next boundary.
  lemma {:induction false} FindBreakAt(s: string, i: nat, k: nat)
    requires i <= k < |s|
    requires forall m :: i <= m < k ==> !IsLineBreak(s[m])
    requires IsLineBreak(s[k])
    ensures FindBreak(s, i) == k
    decreases k - i
  {
    if i < k {
      FindBreakAt(s, i + 1, k);
    }
  }

  // Helper: with no boundary from i on, the search reaches the end.
  lemma {:induction false} NoBreakFound(s: string, i: nat)
    requires i <= |s|
    requires forall m :: i <= m < |s| ==> !IsLineBreak(s[m])
    ensures FindBreak(s, i) == |s|
    decreases |s| - i
  {
    if i < |s| {
      NoBreakFound(s, i + 1);
    }
  }

  /** Joining boundary-free lines: the only boundaries in the result are the
      |ls| - 1 separators, all '\n'. */
  lemma {:induction false} JoinLinesBreaks(ls: seq<string>)
    requires forall i :: 0 <= i < |ls| ==> NoLineBreak(ls[i])
    ensures OnlyNewlineBreaks(JoinLines(ls))
    ensures ls != [] ==> CountChar(JoinLines(ls), '\n') == |ls| - 1
  {
    if |ls| == 1 {
      CountCharNone(ls[0], '\n');
    } else if |ls| > 1 {
      var x := ls[0];
      var rest := JoinLines(ls[1..]);
      JoinLinesBreaks(ls[1..]);
      CountCharNone(x, '\n');
      CountCharAppend(x, "\n", '\n');
      CountCharAppend(x + "\n", rest, '\n');
      OnlyNewlineBreaksAppend(x, "\n");
      OnlyNewlineBreaksAppend(x + "\n", rest);
    }
  }

  lemma OnlyNewlineBreaksAppend(a: string, b: string)
    requires OnlyNewlineBreaks(a) && OnlyNewlineBreaks(b)
    ensures OnlyNewlineBreaks(a + b)
  {
    forall i | 0 <= i < |a + b| && IsLineBreak((a + b)[i]) ensures (a + b)[i] == '\n' {
      if i < |a| {
        assert (a + b)[i] == a[i];
      } else {
        assert (a + b)[i] == b[i - |a|];
      }
    }
  }
}
