# vscode-toon: the array-length scanner and the formatter, in Dafny

This project models the two pieces of text processing in the TOON extension
for VS Code (`src/extension.ts`).

- **The array-length check of `validateDocument`.** The document is split on
  `'\n'`. Each trimmed line is matched against three anchored header patterns,
  tried in this order:
  - tabular `name[N]{fields}:`
  - inline `name[N]:`
  - root `[N]:`

  Every header opens a tracked array. The lines after it are counted into that
  array while they stay indented at least two columns deeper than the header.
  Every array whose declared length `N` differs from the number of items
  counted gets one warning.
- **The document formatter of `provideDocumentFormattingEdits`.** It re-emits
  each line trimmed, either at column 0 or indented by the current indentation
  (0, or 2 once an array header or top-level property has been seen). The
  result loses its trailing white space.

Modules:

- `Wrappers`: `Option`.
- `Text`: white space, `trim`/`trimStart`/`trimEnd`, indentation, `split` on
  one character and its inverse `Join`.
- `Decimal`: the digit strings of `\d+` and `parseInt`, and the printing of
  numbers in messages.
- `Header`: the three header patterns and the property pattern. They are
  written as deterministic greedy prefix matchers. Each is proved equivalent
  to a generative reading: a match is exactly a well-formed header whose
  rendering is a prefix of the line.
- `Scanner`: the per-line state machine, folded over the lines. It is related
  to an independent region reading of the document:
  - each header line owns the lines that follow it;
  - it keeps them until the first line that is a header, or that is not
    blank, not `//` and indented less than its boundary;
  - its count is what those lines contribute.
- `Validation`: the mismatch check, the warnings and their messages.
- `Formatter`: the re-indenter, its document-level reading, and its
  idempotence.
- `Examples`: concrete documents worked through the model.

Assumptions:

- White space is a fixed set: space, tab, carriage return and line feed. It
  is used by `trim`, `trimStart`, `trimEnd` and the regular-expression class
  `\s`.
- Lengths are unbounded natural numbers.

## Model

| member | source | states |
|---|---|---|
| Text.Trim | src/extension.ts:36 | the trimmed line is the slice of the line that starts after its leading white space, everything after it is white space, it has no white space at either end, and it is empty exactly when the line is all white space |
| Text.Indent | src/extension.ts:37 | `line.length - line.trimStart().length` is the number of leading white-space characters of the line |
| Text.TrimEnd | src/extension.ts:290 | `trimEnd` keeps a prefix that ends in a character other than white space and drops only white space |
| Text.Split | src/extension.ts:29 | splitting gives at least one piece, and no piece contains the separator |
| Text.JoinSplit | src/extension.ts:29 | splitting a text gives one more piece than the text has separators, and joining the pieces with the separator gives the text back |
| Text.SplitJoin | src/extension.ts:101-102 | splitting the separator-join of separator-free pieces gives exactly those pieces back |
| Decimal.NatToString | src/extension.ts:124 | a number is printed as a non-empty digit string without a leading zero |
| Decimal.ParsePrinted | src/extension.ts:44 | `parseInt` of the printed number gives the number back |
| Decimal.ParseLeadingZero | src/extension.ts:44 | a leading zero does not change the parsed value, so `a[03]:` declares the same length as `a[3]:` |
| Header.Span | src/extension.ts:40 | a greedy run of one character class stops at the end of the text or at a character outside the class |
| Header.SpanAll | src/extension.ts:40 | every character the run passes is in the class, so with `Span` the run ends at the first character outside it |
| Header.MatchTabularIff | src/extension.ts:40 | the tabular matcher returns a match exactly when that match is a well-formed tabular header whose text `name[N d]{f}␣:` starts the line |
| Header.MatchInlineIff | src/extension.ts:58 | the inline matcher returns a match exactly when that match is a well-formed inline header whose text `name[N d]␣:` starts the line |
| Header.MatchRootIff | src/extension.ts:75 | the root matcher returns a match exactly when that match is a well-formed root header whose text `[N]␣:` starts the line |
| Header.Classify | src/extension.ts:39-89 | a line classified as a header holds a well-formed header at its start |
| Header.PatternsExclusive | src/extension.ts:40-89 | no line matches two of the three header patterns, and a line that matches the property pattern matches none of them |
| Header.ClassifyIff | src/extension.ts:39-89 | trying tabular, then inline, then root yields a header exactly when that header is well formed and starts the line, so the order of the tries does not matter |
| Scanner.DelimiterOf | src/extension.ts:47 | the stored delimiter is the captured character, or `,` when nothing was captured, and is a comma, a pipe, a backslash or the letter `t` |
| Scanner.NewArray | src/extension.ts:42-51 | a header creates an array anchored at its line with nothing counted, the parsed declared length, and a one-character delimiter; a root array has the empty name and delimiter `,` |
| Scanner.View | src/extension.ts:35-40 | each line is read as its trimmed text and its indentation, and a header it reports is well formed and starts the trimmed text |
| Scanner.ViewHeaderIff | src/extension.ts:40-89 | a line reports a header exactly when that header is well formed and starts the trimmed line, so every header line is seen as one |
| Scanner.Step | src/extension.ts:34-110 | one line never loses an array, and an active array always exists when one is flagged active |
| Scanner.StepOnHeader | src/extension.ts:40-89 | a header line appends exactly one fresh array and makes it the active one, with body indentation `lineIndent + 2`; it counts nothing |
| Scanner.StepOnBody | src/extension.ts:92-110 | any other line touches only the last array, adds to it exactly when it is active, the line is not blank or `//`, and the line is indented to the boundary, and closes it exactly when the line is not blank or `//` and less indented |
| Scanner.HeaderLines | src/extension.ts:40-89 | the listed indices are header lines among the first `n` lines, in increasing order |
| Scanner.HeaderLinesComplete | src/extension.ts:40-89 | every header line among the first `n` lines is listed |
| Scanner.ScanIsRegionCount | src/extension.ts:34-111 | after every prefix of the document the scan holds one array per header line, in order, each counting exactly the items of the lines its body region owns so far; an array is active exactly when it is the last one and its body is still open |
| Scanner.NoReentry | src/extension.ts:107-110 | once a line that is a header, or is not blank or `//` and is indented below an array's boundary, has been seen, no later line changes that array's count, even when the indentation grows again |
| Scanner.CountsNeverDecrease | src/extension.ts:92-103 | no line lowers the count of any tracked array |
| Scanner.SeparatorIsDelimiter | src/extension.ts:101 | a body line is split on the delimiter character itself, always a comma, a pipe, a backslash or the letter `t`, and always a comma for a root array; the tab substitution never applies |
| Scanner.ItemsByKind | src/extension.ts:92-102 | a counted line that starts with `-` adds one whatever the array; otherwise a tabular row adds one, and an inline or root line adds one more than the number of its delimiter characters (the captured character, or `,` when none was captured or the array is the root) |
| Validation.CheckSound | src/extension.ts:113-129 | every warning belongs to a header line whose declared length differs from the items its body region holds |
| Validation.CheckComplete | src/extension.ts:113-129 | every header line whose declared length differs from the items its body region holds gets its warning |
| Validation.CheckOrdered | src/extension.ts:114 | warnings come in increasing order of their header lines |
| Validation.ValidateReportsMismatchedBodies | src/extension.ts:29-129 | the warnings of a document are exactly one per mismatched header line, in header order, each spanning the whole header line |
| Validation.NoHeadersNoWarnings | src/extension.ts:113-129 | a document without header lines, the empty document included, gets no warnings |
| Validation.MessageReadsBack | src/extension.ts:124 | the message shows the array name (or `[root]`) and two numbers that parse back to the declared and counted lengths |
| Formatter.FormatLine | src/extension.ts:229-282 | every emitted line is the trimmed input padded by nothing or by the current indentation, and is empty exactly when the input is blank |
| Formatter.FormatLines | src/extension.ts:229-283 | every input line produces exactly one output line |
| Formatter.Format | src/extension.ts:290 | the formatted document does not end in white space |
| Formatter.FormatLineFixpoint | src/extension.ts:229-282 | re-formatting an emitted line from the same state emits it unchanged and reaches the same state |
| Formatter.FormatLinesFixpoint | src/extension.ts:229-283 | re-formatting the emitted lines emits them unchanged |
| Formatter.FormatLinesPrefix | src/extension.ts:229-283 | the first `k` output lines depend only on the first `k` input lines |
| Formatter.TrimEmitted | src/extension.ts:290 | `trimEnd` of the emitted text removes exactly the trailing empty lines and the final line break |
| Formatter.FormatIdempotent | src/extension.ts:222-290 | formatting an already formatted document leaves it unchanged |
| Formatter.ClassesAt | src/extension.ts:231-269 | the class the document-level reading gives line `k` is the class the loop's tests give its trimmed text |
| Formatter.StateAfter | src/extension.ts:226-274 | after any prefix, the indentation is 2 exactly when an array header or property has been seen, and `inArray` holds exactly when the latest such line was an array header |
| Formatter.EmittedLine | src/extension.ts:229-282 | each output line in terms of the document: blank lines are empty; headers, properties, and unindented data outside an array are at column 0; comments, and data inside an array or already indented, are indented by the document-level indentation |
| Examples.HeaderLineValuesNotCounted | src/extension.ts:58-71 | the values on a header line are not counted: `a[3]: 1,2,3` yields one warning, declared 3, counted 0 |
| Examples.RootArrayCountsBodyLines | src/extension.ts:75-124 | `[2]:` followed by `  a,b` and `  c` counts three items and reports the array as `[root]` |
| Examples.EmptyDocumentValid | src/extension.ts:29-129 | the empty document gets no warnings |
| Examples.EmptyDocumentFormat | src/extension.ts:222-290 | the empty document formats to the empty text |
| Examples.TabEscapeIsNoHeader | src/extension.ts:40 | `x[2\t]:` with a backslash-t is not an array header |
| Examples.LetterTDelimiter | src/extension.ts:58 | `x[2t]:` is an inline header with delimiter `t`, and its body line `atb` holds two items |
| Examples.FormatIndentsRows | src/extension.ts:245-282 | the row under `a[1]:` is indented by two spaces, and the final line break is dropped |

## Where the code and its documentation disagree (the model follows the code)

- **Values on a header line.** The format's documentation treats
  `a[3]: 1,2,3` as an array of three values. The code `continue`s right
  after recognising a header (`src/extension.ts:54`, `:71`, `:88`), so those
  values are never counted, and the document is reported as declaring 3 but
  holding 0 (`Examples.HeaderLineValuesNotCounted`).
- **The tab delimiter.** The documentation maps an escaped tab delimiter to
  a tab. In the code, the class `[,\|\\t]` (`src/extension.ts:40`, `:58`)
  matches one character: a comma, a pipe, a backslash or the letter `t`. The
  test `delimiter === '\\t'` (`src/extension.ts:101`) compares with the
  two-character text backslash-t, so it is never true.
  - A header `x[2t]:` splits its lines on the letter `t`
    (`Examples.LetterTDelimiter`).
  - A header `x[2\t]:` is not recognised at all
    (`Examples.TabEscapeIsNoHeader`).
- **Comments.** The formatter treats `//` and `/*` lines as comments. The
  scanner treats only `//` lines as neutral: a `/*` line is counted and can
  close an array.

## Left out

- Activation, the diagnostic collection, and the construction of
  `vscode.Range`, `Diagnostic` and `TextEdit` objects, including
  `document.positionAt`. This is host API. A warning is a plain record:
  - the name;
  - the declared and counted lengths;
  - the header line;
  - the width of that line, the end column of its range (counted in
    characters; see the UTF-16 line below).
- The `validation.enabled` setting (`src/extension.ts:21-25`). This is
  configuration plumbing; the model is the enabled path.
- The open, change, editor and configuration event handlers
  (`src/extension.ts:134-160`). This is event plumbing.
- The completion provider (`src/extension.ts:163-216`). It is static snippet
  data.
- The hover provider (`src/extension.ts:296-349`). It only builds UI objects
  from unanchored searches.
- The guard `!trimmed.match(/^\d+[,|]/)` of the property test
  (`src/extension.ts:269`). A line that matched the identifier pattern starts
  with a letter or `_`, so the guard never fails.
- The full Unicode white-space set of JavaScript's `trim`, `trimStart`,
  `trimEnd` and `\s`. The model fixes space, tab, carriage return and line
  feed.
- UTF-16 lengths. Strings are sequences of Unicode scalar values, so a
  warning's width (`lines[arr.line].length`, `src/extension.ts:120`) counts
  a character outside the Basic Multilingual Plane once where the extension
  counts its two UTF-16 code units. Indentation and item counts are not
  affected: white space and the delimiters are all single code units.
- `parseInt` precision on very long digit strings. Lengths are unbounded
  natural numbers.
- The array's field list (`src/extension.ts:48`) is recorded but never read
  by the check. It is modelled as the trimmed comma-separated pieces, with no
  property of its own.
