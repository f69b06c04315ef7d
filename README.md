# Section splicing for a documentation-fixing bot

This project models, in Dafny, the two text-handling routines of a bot that
rewrites one section of a markdown document on request:

- `replaceSection(content, heading, newSection)` (utils/replaceSection.js)
  splits a document into lines. It finds the first line that equals the
  heading once both are trimmed. The section runs from that line up to the
  next line matching `/^##+\s/`, or to the end of the document. The lines of
  the replacement take the place of that range, and the lines are joined
  again. When no line matches, it throws "Failed to locate section to
  replace."
- `extractSection(markdown, headingText)` (utils/extractSection.js) walks the
  top-level nodes of the parsed document with a `capture` flag. The first
  depth-3 heading whose title contains `headingText` turns capture on.
  Capture stays on across later depth-3 headings that also contain it. It
  stops before the first later depth-3 heading that does not. Nodes are
  collected while capture is on. An empty collection throws
  `Section "<headingText>" not found.`

Files:

- `outcomes.dfy`: `Option` and `Result`. A thrown error is a `Failure`.
- `text.dfy`: the JavaScript built-ins the routines use, over strings as
  sequences of characters: `trim`, `split("\n")`, `join("\n")` and
  `includes`. It also proves that `split` and `join` are inverse.
- `replace_section.dfy`: the line splice. `ReplaceSection` is the routine,
  with its two loops (the `findIndex` search, in `FindHeadingIndex`, and the
  boundary scan). `SectionReplaced` is the pure function it is proved equal
  to, and the lemmas state what the splice keeps and what it replaces.
- `extract_section.dfy`: the node-selection loop. `ExtractSection` is the
  routine, with the `capture` flag and the accumulated nodes.
  `SelectedNodes` is the pure function it is proved equal to. `IsSelection`
  says which contiguous run of nodes is selected, and the lemmas state how
  headings of each kind affect the selection.

Behaviour of the code that the model keeps, where it departs from the
usual reading of a markdown section:

- A section of `replaceSection` ends at any line of two or more `#` followed
  by whitespace. A deeper heading counts too: a `#### B` line ends a
  `### A` section (`DeeperHeadingEndsSection`). A conventional markdown
  section ends at the next heading of equal or shallower depth; this code's
  does not. A single `#` line never ends a section.
- `extractSection` ends a section only at a depth-3 heading. `##` headings
  and deeper headings inside the range are swept into the selection, and a
  `##` heading never starts one (`SizingExample`).
- Title matching in `extractSection` is case-sensitive substring
  containment. The heading test in `replaceSection` is exact equality after
  trimming.
- A heading's title is the join of its children's `value` fields. A child
  without one, such as emphasis or a link, adds nothing to the title.

## Model

| member | source | states |
|---|---|---|
| `Text.Trim` | utils/replaceSection.js:3 | `trim` cuts whitespace at both ends: the result is no longer than the input and has no whitespace at either end; `TrimIsInfix`, `TrimCharacterized` and `TrimIdempotent` characterize it fully |
| `Text.TrimIsInfix` | utils/replaceSection.js:3 | `trim` keeps the infix of the string that lies between a leading and a trailing run of whitespace, and that infix has no whitespace at either end |
| `Text.TrimCharacterized` | utils/replaceSection.js:3 | for any whitespace prefix `p` and suffix `q` around a string `t` with no whitespace at its ends, trimming `p + t + q` gives exactly `t` |
| `Text.TrimIdempotent` | utils/replaceSection.js:3 | trimming an already trimmed line changes nothing |
| `Text.Split` | utils/replaceSection.js:2 | `split("\n")` always yields at least one piece, the empty string included |
| `Text.SplitNewlineFree` | utils/replaceSection.js:2 | no piece produced by `split("\n")` contains a newline |
| `Text.Join` | utils/replaceSection.js:20 | `join("\n")` starts with the first piece and, when there is a second, puts a newline right after it; `JoinSplit`, `SplitJoin` and `JoinConcat` characterize it fully |
| `Text.JoinSplit` | utils/replaceSection.js:2-20 | `join("\n")` of `split("\n")` gives back the original string |
| `Text.SplitJoin` | utils/replaceSection.js:16-20 | splitting the join of one or more newline-free pieces gives back exactly those pieces |
| `Text.JoinConcat` | utils/replaceSection.js:14-20 | joining two non-empty runs of pieces puts exactly one newline between their joins |
| `Text.Includes` | utils/extractSection.js:14 | `includes`: every string includes the empty string, and an included string is never longer than the text; `IncludesAt` characterizes it as an occurrence at some position |
| `Text.IncludesAt` | utils/extractSection.js:14 | `includes` holds exactly when the query is a prefix of the text from some position on |
| `SectionSplice.LeadingHashes` | utils/replaceSection.js:8 | the length of the line's leading `#` run: every character before it is `#`, and the next one, if any, is not |
| `SectionSplice.IsSectionBoundary` | utils/replaceSection.js:8 | the test `/^##+\s/`: a boundary line is at least three characters long and starts with `##`; `BoundaryIsHeadingPattern`, `NonBoundaryLines` and `HashesThenSpaceIsBoundary` characterize it |
| `SectionSplice.BoundaryIsHeadingPattern` | utils/replaceSection.js:8 | the scanning boundary test (length of the leading `#` run, then one character) holds exactly when `/^##+\s/` matches the line |
| `SectionSplice.NonBoundaryLines` | utils/replaceSection.js:8 | a line that starts with a character other than `#`, or with a single `#` followed by a character other than `#` (such as `# Title`), never ends a section, and neither does `##` followed by a character that is neither `#` nor whitespace (such as `##x`) |
| `SectionSplice.HashesThenSpaceIsBoundary` | utils/replaceSection.js:8 | two or more `#` then a whitespace character ends a section, whatever the run's length and whatever follows |
| `SectionSplice.IsHeadingLine` | utils/replaceSection.js:3 | a line is the heading sought when the two are equal after trimming: a line is always its own heading, and two already trimmed strings match only when equal |
| `SectionSplice.FindHeadingFrom` | utils/replaceSection.js:3 | the search result is -1 when no line from the start position on equals the heading after trimming; otherwise it is the first such line |
| `SectionSplice.HeadingIndex` | utils/replaceSection.js:3 | `findIndex` over all lines: -1 when no line matches the heading, otherwise the index of the first line that does |
| `SectionSplice.FindHeadingIndex` | utils/replaceSection.js:3 | the linear search returns -1 exactly when no line matches, and otherwise the index of the first matching line |
| `SectionSplice.SectionEndFrom` | utils/replaceSection.js:6-12 | the scan stops at the first boundary line at or after its start, or at the number of lines when there is none; no line it passes is a boundary |
| `SectionSplice.SectionEnd` | utils/replaceSection.js:7 | the scan starts after the heading line, so `startIndex < endIndex <= lines.length` and the heading line is always inside the replaced range |
| `SectionSplice.SectionReplaced` | utils/replaceSection.js:1-21 | the splice fails, with the "Failed to locate section to replace." error, exactly when no line of the document equals the heading after trimming |
| `SectionSplice.ReplaceSection` | utils/replaceSection.js:1-21 | the routine's result equals the splice function on every input: the same failure condition and the same output text |
| `SectionSplice.ReplacedLines` | utils/replaceSection.js:14-20 | splitting the output gives exactly the lines before the heading, then the replacement's lines, then the lines from the boundary on |
| `SectionSplice.PrefixPreserved` | utils/replaceSection.js:15 | every line before the heading line appears unchanged at the same position in the output |
| `SectionSplice.SuffixPreserved` | utils/replaceSection.js:17 | every line from the boundary on appears unchanged and in order right after the replacement's lines |
| `SectionSplice.LineCount` | utils/replaceSection.js:14-18 | the output has `startIndex + (replacement line count) + (lines.length - endIndex)` lines, and the replaced range is non-empty |
| `SectionSplice.RoundTrip` | utils/replaceSection.js:2-20 | splicing the section's own text back into place gives back the original document |
| `SectionSplice.DeeperHeadingEndsSection` | utils/replaceSection.js:7-12 | below a `### A` heading line, a `#### B` line ends the section |
| `SectionExtract.Title` | utils/extractSection.js:13 | the join of the children's values: empty when no child has a value, and a single text child's value otherwise; `TitleConcat` characterizes it child by child |
| `SectionExtract.StartsCapture` | utils/extractSection.js:12-15 | a node turns capture on when it is a depth-3 heading whose title includes the query; with an empty query every depth-3 heading does, and a matching title is at least as long as the query |
| `SectionExtract.StopsCapture` | utils/extractSection.js:12-18 | a node ends capture exactly when it is a depth-3 heading that does not start capture, which never happens for an empty query; `FirstStartFrom`, `CaptureEndFrom` and `SelectionUnique` build the selection from the two tests |
| `SectionExtract.TitleConcat` | utils/extractSection.js:13 | a heading's title is built child by child: the title of two runs of children is the first run's title followed by the second's |
| `SectionExtract.FirstStartFrom` | utils/extractSection.js:12-15 | the result is the first node at or after a position that is a depth-3 heading whose title contains the query, or -1 when there is none |
| `SectionExtract.CaptureEndFrom` | utils/extractSection.js:16-18 | the result is the first node at or after a position that is a depth-3 heading whose title lacks the query, or the end; no node it passes is one |
| `SectionExtract.SelectedNodes` | utils/extractSection.js:11-23 | the selection fails with "not found" exactly when no node is a depth-3 heading containing the query; otherwise it is a contiguous run of the input that satisfies `IsSelection` |
| `SectionExtract.SelectionUnique` | utils/extractSection.js:11-21 | the selection is exactly the run from the first matching depth-3 heading up to the first later depth-3 heading that does not match, or up to the end |
| `SectionExtract.CapturedHeadingsMatch` | utils/extractSection.js:14-15 | a selection is non-empty and starts with a matching heading, and every depth-3 heading in it, later ones included, contains the query |
| `SectionExtract.InsertInsideCapture` | utils/extractSection.js:12-20 | inserting a node that does not stop capture (a non-heading, a heading of another depth, or a matching depth-3 heading) inside the captured run adds it to the selection at that place and changes nothing else |
| `SectionExtract.InsertOutsideCapture` | utils/extractSection.js:12-20 | inserting a node that does not start capture before the selection, or any node at all after the node that ends it, leaves the selection unchanged |
| `SectionExtract.InsertAfterSelection` | utils/extractSection.js:16-20 | once the selection has ended, any node inserted after it, another matching depth-3 heading included, leaves the result unchanged: only the first section is ever returned |
| `SectionExtract.InsertKeepsNotFound` | utils/extractSection.js:12-23 | when no section is found, inserting a node that does not start capture leaves it not found |
| `SectionExtract.SizingExample` | utils/extractSection.js:11-21 | on one document, a `##` heading titled like the query is skipped, a later `### Sizing details` keeps capture on, and `### Colors` ends it |
| `SectionExtract.ExtractSection` | utils/extractSection.js:5-28 | the loop with its `capture` flag and `break` fails exactly when no depth-3 heading contains the query; otherwise it returns the selected nodes and their rendering by the given stringifier |

## Left out

- server.js: the HTTP endpoint, body parsing, environment configuration, logging and the acknowledgment reply. They are I/O with no logic to prove.
- The markdown parser and stringifier are library calls. `ExtractSection` takes the parsed tree's top-level nodes as a sequence, and the stringifier as a function parameter.
- The `async` wrapper of `extractSection`: it performs no asynchronous work.
- Nodes other than headings are opaque values, and a heading child's `value` is either a string or absent. Non-string values are not modelled.
- Strings are sequences of Unicode scalar values, not UTF-16 code units. This matters only for unpaired surrogates in `includes`.
- Whitespace is the fixed ECMAScript set of WhiteSpace and LineTerminator characters, which `trim` and the regular expression class `\s` share.
- Arguments that are not strings, which JavaScript would coerce or reject with a `TypeError`, are not modelled.
- The components that locate documents, match paths fuzzily, normalise paths, generate content or publish changes are not part of this model.
