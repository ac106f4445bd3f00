/**
  The deterministic issue summariser summarize_issue: it turns an issue's
  title and (possibly absent) body into a fixed markdown template holding
  the title, the first few lines of the body in a code block (or a
  placeholder when there is no description), and a constant list of
  suggested next steps.
 */
module Agent {
  import opened PyText

  datatype Option<T> = None | Some(value: T)

  /** The heading and the start of the title bullet ("### 🧠 Issue Summary"). */
  const Heading: string := "### \U{1F9E0} Issue Summary\n- **Title:** "
  const CodeBlockOpen: string := "- **Key details (first lines):**\n```\n"
  const CodeBlockClose: string := "\n```\n"
  const Placeholder: string := "- **Key details:** (No description provided)\n"
  /** The closing section ("### ✅ Suggested Next Steps") with its three bullets. */
  const NextSteps: string :=
    "\n### \U{2705} Suggested Next Steps\n"
    + "- Confirm expected behavior vs actual behavior\n"
    + "- Add reproduction steps (if this is a bug)\n"
    + "- Add logs/screenshots (if available)\n"
  /** How many lines of the body the summary keeps. */
  const MaxLines: nat := 5

  /** The heading followed by the title bullet: the title appears verbatim
      between the heading and a closing '\n'. */
  function TitleBlock(title: string): (r: string)
    ensures |r| == |Heading| + |title| + 1
    ensures r[..|Heading|] == Heading && r[|Heading|..|r| - 1] == title && r[|r| - 1] == '\n'
  {
    PartsOfConcat(Heading, title, "\n");
    Heading + title + "\n"
  }

  /** `(body or "").strip()`: an absent body reads as the empty one. */
  function CleanBody(body: Option<string>): (b: string)
    ensures b == [] || (!IsSpace(b[0]) && !IsSpace(b[|b| - 1]))
    ensures b == [] <==> (body.None? || AllSpace(body.value))
  {
    Strip(if body.Some? then body.value else "")
  }

  /** `"\n".join(body.splitlines()[:5]).strip()`: at most five lines, all
      separated by '\n' and no other boundary, trimmed at both ends. */
  function FirstLines(b: string): (r: string)
    ensures r == [] || (!IsSpace(r[0]) && !IsSpace(r[|r| - 1]))
    ensures OnlyNewlineBreaks(r)
    ensures CountChar(r, '\n') < MaxLines
  {
    var ls := SplitLines(b);
    var kept := ls[..Min(MaxLines, |ls|)];
    var joined := JoinLines(kept);
    JoinLinesBreaks(kept);
    StripKeepsBreaks(joined, '\n');
    Strip(joined)
  }

  function Min(a: nat, b: nat): nat {
    if a < b then a else b
  }

  /** The middle part: the code block when there are first lines, the
      placeholder bullet otherwise. */
  function DetailsSection(firstLines: string): (d: string)
    ensures firstLines == [] ==> d == Placeholder
    ensures firstLines != [] ==>
      && d != Placeholder
      && |d| == |CodeBlockOpen| + |firstLines| + |CodeBlockClose|
      && d[..|CodeBlockOpen|] == CodeBlockOpen
      && d[|CodeBlockOpen|..|d| - |CodeBlockClose|] == firstLines
      && d[|d| - |CodeBlockClose|..] == CodeBlockClose
  {
    if firstLines != [] then
      CodeBlockIsNotPlaceholder(firstLines);
      PartsOfConcat(CodeBlockOpen, firstLines, CodeBlockClose);
      CodeBlockOpen + firstLines + CodeBlockClose
    else Placeholder
  }

  /** summarize_issue(title, body): whatever the body, the summary starts
      with the heading and the title exactly as given, and ends with the
      fixed next-steps section. */
  function SummarizeIssue(title: string, body: Option<string>): (r: string)
    ensures Heading + title + "\n" <= r
    ensures |r| >= |NextSteps| && r[|r| - |NextSteps|..] == NextSteps
  {
    var head := TitleBlock(title);
    var d := DetailsSection(FirstLines(CleanBody(body)));
    PartsOfConcat(head, d, NextSteps);
    head + d + NextSteps
  }

  // Helper: the three parts of a concatenation can be sliced out again.
  lemma PartsOfConcat(a: string, b: string, c: string)
    ensures (a + b + c)[..|a|] == a
    ensures (a + b + c)[|a|..|a| + |b|] == b
    ensures (a + b + c)[|a| + |b|..] == c
  {
  }

  // ------------------------------------------------- reading a summary back

  /** What the middle part of a summary says about the body. */
  datatype Details = KeyLines(text: string) | NoDescription

  /** Reads a summary for the given title back: checks the fixed title block
      and footer and recovers the details section from between them. */
  function ReadDetails(title: string, summary: string): Option<Details> {
    var head := TitleBlock(title);
    if |summary| < |head| + |NextSteps|
      || summary[..|head|] != head
      || summary[|summary| - |NextSteps|..] != NextSteps
    then None
    else
      var mid := summary[|head|..|summary| - |NextSteps|];
      if mid == Placeholder then Some(NoDescription)
      else if |mid| >= |CodeBlockOpen| + |CodeBlockClose|
        && mid[..|CodeBlockOpen|] == CodeBlockOpen
        && mid[|mid| - |CodeBlockClose|..] == CodeBlockClose
      then Some(KeyLines(mid[|CodeBlockOpen|..|mid| - |CodeBlockClose|]))
      else None
  }

  // Helper: no code block is the placeholder (they differ at index 15).
  lemma CodeBlockIsNotPlaceholder(text: string)
    ensures CodeBlockOpen + text + CodeBlockClose != Placeholder
  {
    assert (CodeBlockOpen + text + CodeBlockClose)[15] == ' ';
    assert Placeholder[15] == ':';
  }

  // Helper: reading back the placeholder branch.
  lemma ReadPlaceholder(title: string)
    ensures ReadDetails(title, TitleBlock(title) + Placeholder + NextSteps) == Some(NoDescription)
  {
    PartsOfConcat(TitleBlock(title), Placeholder, NextSteps);
  }

  // Helper: reading back the code-block branch.
  lemma ReadCodeBlock(title: string, text: string)
    ensures var mid := CodeBlockOpen + text + CodeBlockClose;
            ReadDetails(title, TitleBlock(title) + mid + NextSteps) == Some(KeyLines(text))
  {
    var mid := CodeBlockOpen + text + CodeBlockClose;
    PartsOfConcat(TitleBlock(title), mid, NextSteps);
    PartsOfConcat(CodeBlockOpen, text, CodeBlockClose);
    CodeBlockIsNotPlaceholder(text);
  }

  /** The details section can be read back from every summary, and it is
      exactly one of the two branches: the code block holding the first
      lines when the trimmed body is non-empty, the placeholder otherwise. */
  lemma ReadSummarizeIssue(title: string, body: Option<string>)
    ensures ReadDetails(title, SummarizeIssue(title, body))
            == Some(if CleanBody(body) == [] then NoDescription else KeyLines(FirstLines(CleanBody(body))))
  {
    var b := CleanBody(body);
    FirstLinesEmptyIff(b);
    if b == [] {
      ReadPlaceholder(title);
    } else {
      ReadCodeBlock(title, FirstLines(b));
    }
  }

  /** An absent body, an empty body and a whitespace-only body all give the
      same summary: title block, placeholder bullet, next steps. */
  lemma BlankBodiesAgree(title: string, ws: string)
    requires AllSpace(ws)
    ensures SummarizeIssue(title, Some(ws)) == SummarizeIssue(title, None)
    ensures SummarizeIssue(title, None) == TitleBlock(title) + Placeholder + NextSteps
  {
    assert CleanBody(Some(ws)) == [] && CleanBody(None) == [];
    assert SplitLines([]) == [];
    assert FirstLines([]) == [];
  }

  /** In a body that starts with a non-whitespace character (as every
      stripped, non-empty body does) the first line is not empty and starts
      with that character. */
  lemma FirstLineNonEmpty(b: string)
    requires b != [] && !IsSpace(b[0])
    ensures SplitLines(b) != [] && SplitLines(b)[0] != [] && SplitLines(b)[0][0] == b[0]
  {
    assert !IsLineBreak(b[0]) by {
      if IsLineBreak(b[0]) { LineBreakIsSpace(b[0]); }
    }
    var k := FindBreak(b, 0);
    assert k > 0;
    assert SplitLines(b)[0] == if k == |b| then b[0..] else b[0..k];
  }

  /** For a body that does not start with whitespace, the first lines are
      empty exactly when the body is: the code block is chosen exactly when
      the trimmed body is non-empty. */
  lemma FirstLinesEmptyIff(b: string)
    requires b == [] || !IsSpace(b[0])
    ensures FirstLines(b) == [] <==> b == []
  {
    var ls := SplitLines(b);
    var kept := ls[..Min(MaxLines, |ls|)];
    if b == [] {
      assert kept == [];
    } else {
      FirstLineNonEmpty(b);
      var joined := JoinLines(kept);
      assert joined != [] && joined[0] == b[0] by {
        if |kept| > 1 {
          assert joined == kept[0] + ("\n" + JoinLines(kept[1..]));
        }
      }
      StripKeepsFirst(joined);
    }
  }

  /** The first lines of a body are its normalised text (every boundary
      written as '\n') up to, not including, its fifth '\n', trimmed: the
      first five lines of the body, in their original order. */
  lemma FirstLinesAreLeadingLines(b: string)
    ensures FirstLines(b) == Strip(BeforeNthNewline(NormalizeBreaks(b), MaxLines))
  {
    var ls := SplitLines(b);
    var kept := ls[..Min(MaxLines, |ls|)];
    CutLinesFrom(b, 0, MaxLines);
    assert CutAgrees(b, 0, MaxLines);
    var extra := |ls| < MaxLines && b != [] && IsLineBreak(b[|b| - 1]);
    if extra {
      StripIgnoresTrailingSpace(JoinLines(kept), '\n');
    } else {
      assert JoinLines(kept) + "" == JoinLines(kept);
    }
  }

  /** A trimmed text that uses only '\n' as line boundary and has at most
      five lines is its own first lines. */
  lemma ShortTextKept(b: string)
    requires b == [] || (!IsSpace(b[0]) && !IsSpace(b[|b| - 1]))
    requires OnlyNewlineBreaks(b)
    requires CountChar(b, '\n') < MaxLines
    ensures FirstLines(b) == b
  {
    var ls := SplitLines(b);
    assert b != [] ==> !IsLineBreak(b[|b| - 1]) by {
      if b != [] && IsLineBreak(b[|b| - 1]) { LineBreakIsSpace(b[|b| - 1]); }
    }
    JoinSplitPlainNewlines(b);
    JoinLinesBreaks(ls);
    assert ls[..Min(MaxLines, |ls|)] == ls;
    StripOfTrimmed(b);
  }

  /** A body whose trimmed text uses only '\n' as line boundary and has at
      most five lines appears in the code block exactly as trimmed. */
  lemma ShortBodyVerbatim(title: string, body: Option<string>)
    requires CleanBody(body) != []
    requires OnlyNewlineBreaks(CleanBody(body))
    requires CountChar(CleanBody(body), '\n') < MaxLines
    ensures SummarizeIssue(title, body)
            == TitleBlock(title) + (CodeBlockOpen + CleanBody(body) + CodeBlockClose) + NextSteps
  {
    ShortTextKept(CleanBody(body));
  }

  // ----------------------------------------- reference for "first lines"

  /** The text of s before its n-th '\n', or all of s if it has fewer. */
  function BeforeNthNewline(s: string, n: nat): string
    requires n >= 1
  {
    if s == [] then []
    else if s[0] == '\n' then (if n == 1 then [] else "\n" + BeforeNthNewline(s[1..], n - 1))
    else [s[0]] + BeforeNthNewline(s[1..], n)
  }

  // Helper: text without '\n' in front is kept as it is.
  lemma {:induction false} BeforeNthNewlinePlain(x: string, y: string, n: nat)
    requires n >= 1 && NoLineBreak(x)
    ensures BeforeNthNewline(x + y, n) == x + BeforeNthNewline(y, n)
  {
    if x != [] {
      assert (x + y)[0] == x[0] && (x + y)[1..] == x[1..] + y;
      assert NoLineBreak(x[1..]) by {
        forall m | 0 <= m < |x[1..]| ensures !IsLineBreak(x[1..][m]) {
          assert x[1..][m] == x[m + 1];
        }
      }
      BeforeNthNewlinePlain(x[1..], y, n);
    } else {
      assert x + y == y;
    }
  }

  // Helper: the cut at a '\n' that follows a stretch without boundaries.
  lemma BeforeNthNewlineStep(x: string, rest: string, n: nat)
    requires n >= 1 && NoLineBreak(x)
    ensures BeforeNthNewline(x + ("\n" + rest), n)
            == x + (if n == 1 then "" else "\n" + BeforeNthNewline(rest, n - 1))
  {
    BeforeNthNewlinePlain(x, "\n" + rest, n);
    assert ("\n" + rest)[1..] == rest;
  }

  // Helper: regrouping a concatenation of four strings.
  lemma ConcatAssoc(a: string, b: string, c: string, d: string)
    ensures a + (b + (c + d)) == a + b + c + d
  {
  }

  // Helper: the first n lines of x followed by more lines.
  lemma JoinFirstLinesCons(x: string, tail: seq<string>, n: nat)
    requires n >= 2
    ensures JoinLines(([x] + tail)[..Min(n, |tail| + 1)])
            == if tail == [] then x else x + "\n" + JoinLines(tail[..Min(n - 1, |tail|)])
  {
    var kept := tail[..Min(n - 1, |tail|)];
    assert ([x] + tail)[..Min(n, |tail| + 1)] == [x] + kept;
    assert ([x] + kept)[1..] == kept;
  }

  // The cut at the n-th '\n' of the normalised text from index i on keeps
  // the first n lines that splitting produces from there, and the final
  // '\n' when there are fewer than n lines and s ends with a boundary.
  ghost predicate CutAgrees(s: string, i: nat, n: nat)
    requires i <= |s| && n >= 1
  {
    var ls := LinesFrom(s, i);
    BeforeNthNewline(NormalizeFrom(s, i), n)
    == JoinLines(ls[..Min(n, |ls|)])
       + (if |ls| < n && i < |s| && IsLineBreak(s[|s| - 1]) then "\n" else "")
  }

  lemma {:induction false} CutLinesFrom(s: string, i: nat, n: nat)
    requires i <= |s| && n >= 1
    ensures CutAgrees(s, i, n)
    decreases |s| - i
  {
    if i < |s| {
      var k := FindBreak(s, i);
      if k == |s| {
        CutLinesLast(s, i, n);
      } else {
        if n > 1 {
          CutLinesFrom(s, AfterBreak(s, k), n - 1);
        }
        CutLinesStep(s, i, n);
      }
    }
  }

  // Helper: the plain text of s from k on, taken as a line.
  lemma PlainStretch(s: string, i: nat, k: nat)
    requires i <= k <= |s| && k == FindBreak(s, i)
    ensures NoLineBreak(s[i..k])
    ensures NormalizeFrom(s, i) == s[i..k] + NormalizeFrom(s, k)
  {
    NormalizePlain(s, i);
    FindBreakPlain(s, i);
    forall m | 0 <= m < k - i ensures !IsLineBreak(s[i..k][m]) {
      assert s[i..k][m] == s[i + m];
    }
  }

  // Helper: CutAgrees on the last line, which has no boundary after it.
  lemma CutLinesLast(s: string, i: nat, n: nat)
    requires i < |s| && n >= 1 && FindBreak(s, i) == |s|
    ensures CutAgrees(s, i, n)
  {
    var x := s[i..];
    PlainStretch(s, i, |s|);
    assert NormalizeFrom(s, i) == x + "";
    BeforeNthNewlinePlain(x, "", n);
    assert !IsLineBreak(s[|s| - 1]);
    assert LinesFrom(s, i) == [x];
  }

  // Helper: CutAgrees on a line followed by a boundary, from CutAgrees on
  // what follows the boundary.
  lemma CutLinesStep(s: string, i: nat, n: nat)
    requires i < |s| && n >= 1 && FindBreak(s, i) < |s|
    requires n > 1 ==> CutAgrees(s, AfterBreak(s, FindBreak(s, i)), n - 1)
    ensures CutAgrees(s, i, n)
  {
    var k := FindBreak(s, i);
    var x := s[i..k];
    var m := AfterBreak(s, k);
    var rest := NormalizeFrom(s, m);
    var tail := LinesFrom(s, m);
    PlainStretch(s, i, k);
    assert NormalizeFrom(s, i) == x + ("\n" + rest);
    assert LinesFrom(s, i) == [x] + tail;
    assert m == |s| ==> IsLineBreak(s[|s| - 1]) by {
      if m == |s| && m == k + 2 { assert s[|s| - 1] == s[k + 1]; }
    }
    CutOneLine(x, rest, tail, n, IsLineBreak(s[|s| - 1]));
  }

  // Helper: the string algebra of CutLinesStep, for one line x followed by
  // '\n' and the normalised rest whose lines are tail.
  lemma CutOneLine(x: string, rest: string, tail: seq<string>, n: nat, endsWithBreak: bool)
    requires n >= 1 && NoLineBreak(x)
    requires tail == [] ==> rest == [] && endsWithBreak
    requires n > 1 && tail != [] ==>
      BeforeNthNewline(rest, n - 1)
      == JoinLines(tail[..Min(n - 1, |tail|)]) + (if |tail| < n - 1 && endsWithBreak then "\n" else "")
    ensures BeforeNthNewline(x + ("\n" + rest), n)
            == JoinLines(([x] + tail)[..Min(n, |tail| + 1)])
               + (if |tail| + 1 < n && endsWithBreak then "\n" else "")
  {
    BeforeNthNewlineStep(x, rest, n);
    if n == 1 {
      assert ([x] + tail)[..1] == [x];
    } else {
      JoinFirstLinesCons(x, tail, n);
      if tail != [] {
        var kept := JoinLines(tail[..Min(n - 1, |tail|)]);
        var e := if |tail| + 1 < n && endsWithBreak then "\n" else "";
        ConcatAssoc(x, "\n", kept, e);
      }
    }
  }
}
