# Issue summariser of ai-github-agent, modelled in Dafny

The repository's agent reads a GitHub issue and prints a markdown summary
for a workflow to post as a comment. Its summariser, `summarize_issue(title,
body)`, is deterministic:

1. It reads an absent body as the empty one and strips surrounding whitespace.
2. It keeps at most the first five lines of what is left, rejoins them with
   `"\n"` and strips again.
3. It emits a heading and a title bullet.
4. It then emits either a fenced code block of those lines or a
   "(No description provided)" bullet.
5. It ends with a fixed "Suggested Next Steps" section of three bullets.

The project has two modules:

- `PyText` (`py_text.dfy`) models the Python string builtins the summariser
  is built from. `Strip` is `str.strip()` and `SplitLines` is
  `str.splitlines()`, both with CPython's full character sets: `IsSpace` is
  `str.isspace`, and `IsLineBreak` gives the line boundaries of
  `splitlines`, with `"\r\n"` read as one boundary. `JoinLines` is
  `"\n".join`. `Strip` follows CPython's two index scans. `SplitLines`
  follows CPython's line loop, so a boundary at the very end starts no
  further empty line.
- `Agent` (`agent.dfy`) models `summarize_issue` itself. It has the
  template constants, `CleanBody` (step 1), `FirstLines` (step 2) and
  `SummarizeIssue`. The body's `None` case is the `None` of an `Option`.
  `ReadDetails` reads a summary back. `BeforeNthNewline`, applied to the
  body with all boundaries written as `'\n'` (`NormalizeBreaks`), gives an
  independent reference for "the first five lines".

`summarize_issue` splits the body with `str.splitlines()`, which ends
lines not only at `\n` but also at `\r`, `\r\n`, `\v`, `\f`,
U+001C–U+001E, U+0085, U+2028 and U+2029. The model follows it: such
boundaries end lines and come out of the code block as `'\n'`.

## Model

| member | source | states |
|---|---|---|
| PyText.Strip | src/agent.py:10 | the result is the input with its leading and trailing whitespace cut off: input = whitespace + result + whitespace, and the result neither starts nor ends with whitespace; it is empty exactly when the input is all whitespace |
| PyText.StrippingIsUnique | src/agent.py:10 | that description fixes the stripped string uniquely, so it characterises `str.strip()` completely |
| PyText.StripIdempotent | src/agent.py:11 | stripping an already stripped text changes nothing |
| PyText.SplitLines | src/agent.py:11 | no produced line contains a line boundary, and there are no lines exactly when the text is empty |
| PyText.JoinLines | src/agent.py:11 | `"\n".join`; its properties are the lemmas below: `JoinLinesBreaks` (k boundary-free lines give exactly k - 1 `'\n'` boundaries), `SplitJoinLines` (splitting the join gives the lines back) and `JoinSplitLines` (joining the split gives the normalised text) |
| PyText.JoinSplitLines | src/agent.py:11 | joining the lines with `"\n"` gives the text back with every boundary written as `'\n'` and a boundary at the very end dropped |
| PyText.SplitJoinLines | src/agent.py:11 | splitting the `"\n"`-join of boundary-free lines (last one non-empty) gives those lines back |
| PyText.JoinLinesBreaks | src/agent.py:11 | joining k boundary-free lines gives a text whose only boundaries are its k - 1 `'\n'` separators |
| PyText.JoinSplitPlainNewlines | src/agent.py:11 | a text whose only boundary is `'\n'` and that does not end with one is given back unchanged by split-then-join |
| Agent.CleanBody | src/agent.py:10 | the cleaned body neither starts nor ends with whitespace; it is empty exactly when the body is absent or all whitespace |
| Agent.FirstLines | src/agent.py:11 | the code-block text has no leading or trailing whitespace, contains no line boundary other than `'\n'`, and has at most four `'\n'`, so at most five lines |
| Agent.FirstLinesAreLeadingLines | src/agent.py:11 | the code-block text is the body, with boundaries written as `'\n'`, up to but not including its fifth `'\n'`, then stripped: the first five lines, in their original order |
| Agent.FirstLineNonEmpty | src/agent.py:10-11 | a body that starts with a non-whitespace character (every non-empty stripped body does) has a non-empty first line starting with that character |
| Agent.FirstLinesEmptyIff | src/agent.py:10-15 | for a stripped body, the first lines are empty exactly when the body is empty |
| Agent.TitleBlock | src/agent.py:13 | the title block is the heading, then the title verbatim, then one `'\n'`, and nothing else |
| Agent.DetailsSection | src/agent.py:15-18 | with no first lines it is exactly the placeholder bullet; otherwise it is the code-block opening, the first lines verbatim and the closing fence, and it differs from the placeholder, so the two branches can always be told apart |
| Agent.SummarizeIssue | src/agent.py:13-25 | every summary starts with the heading and the title exactly as given, then `"\n"`, and ends with the fixed next-steps section, whatever the title and body |
| Agent.ReadSummarizeIssue | src/agent.py:15-18 | the details section of every summary reads back as exactly one branch: the code block holding the first lines when the stripped body is non-empty, the placeholder bullet otherwise |
| Agent.BlankBodiesAgree | src/agent.py:10-18 | an absent, an empty and a whitespace-only body give the same summary: title block, placeholder bullet, next steps |
| Agent.ShortTextKept | src/agent.py:11 | a stripped text that uses only `'\n'` as boundary and has at most five lines is its own first lines |
| Agent.ShortBodyVerbatim | src/agent.py:10-16 | for such a body, the summary's code block holds the stripped body unchanged |

## Left out

- `main` (src/agent.py:30-42) is not modelled: reading the `GITHUB_EVENT_PATH` environment variable and raising when it is missing, opening and JSON-parsing the event file, the dictionary lookups with defaults (title `"(no title)"`, body `""`) and printing to standard output are I/O glue.
- The remote, language-model summariser with retries, backoff and fallback is not in the source; there is nothing to model for it.
- Bodies that are not strings: the body is typed `Option<string>`, so falsy non-string JSON values (`0`, `false`, `[]`), which `body or ""` would also map to `""`, and truthy non-strings, on which `.strip()` would raise, are outside the model.
- The headings' emoji are modelled as the single code points U+1F9E0 and U+2705 inside constant strings; nothing about their rendering is stated.
- Determinism is not stated as a lemma: every member is a Dafny function, so equal inputs give equal outputs by construction.
- Python strings that are not sequences of Unicode scalar values: a Dafny `char` excludes lone surrogates, which a JSON `"\ud800"` escape can put into a Python `str`. They are neither whitespace nor line boundaries, so the modelled logic would treat them like any other character.
- Titles that are not strings: `title` is typed `string`, while `f"{title}"` would also format a non-string title, such as a JSON `null` rendered as `"None"`.
