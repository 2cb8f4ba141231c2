# Review comments from a static-analysis report

This project models, in Dafny, the comment-building core of a GitHub
Action that posts static-analysis results as a pull-request review. The
action receives a report that maps each file path to an entry with
`errors` (message, line, source class, file path) and `diffs` (a unified
diff plus the `applied_checkers` that produced it). From it, `run()` in
`src/main.ts` builds one flat, ordered list of review comments:

- **Error comments** (`src/main.ts:27-42`). Each file's errors are
  deduplicated on the pair (message, line). The first occurrence survives
  and input order is kept. Each survivor becomes a single-line comment
  with body `message + "\n\nSource: " + source_class`.
- **Diff comments** (`src/main.ts:44-86`).
  - Each diff is split on the hunk-header pattern `@@[0-9\s,+-]+@@`,
    keeping the headers.
  - Each hunk is rebuilt as a standalone patch: preamble, header, body.
  - Each patch is searched for `@@ -a,b\s+c,d`. The comment then spans
    from `min(a, c)` to `max(a, c)`, and its body is the block's
    checkers joined by newlines.
  - A patch without such a match makes `.splice` on `null` throw, and
    the whole run fails.
- **Assembly** (`src/main.ts:24-26, 88-89`). Files are taken in report
  order. Within a file, the diff comments come before the error comments.

Modules:

| file | module | contents |
|---|---|---|
| `wrappers.dfy` | `Wrappers` | `Option`, `Result` |
| `js_text.dfy` | `JsText` | the JavaScript character classes (`[0-9]`, `\s`), greedy `[0-9]+`, `join`, the numeric value of a digit string, `Math.min`/`Math.max` |
| `report.dfy` | `Report` | the report and comment records, and the failure of a run |
| `error_dedup.dfy` | `ErrorDedup` | the `filter`/`findIndex` deduplication and the error comments |
| `hunk_split.dfy` | `HunkSplit` | `split` with a capturing group, as a leftmost-match scanner plus slicing, and the patch loop |
| `hunk_anchor.dfy` | `HunkAnchor` | the anchor match, the pairing loop and the min/max range |
| `review.dfy` | `Review` | the per-block, per-file and whole-report comment lists, the loops of `run()`, and end-to-end lemmas |

How the JavaScript behaviour is represented:

- **Splitting.** `split` is specified in two layers.
  - `HunkSplit.SpansFrom` is the JavaScript split algorithm. It tries a
    sticky match at each position, skips one character on failure, and
    resumes after each match.
  - `HunkSplit.Leftmost` is the declarative reading: each span is a
    header match, and no match starts in a gap. The two are proved equal.
- **Anchor search.** `String.prototype.match` without the global flag is
  the leftmost position with a sticky match (`HunkAnchor.FindAnchorFrom`).
  The sticky match (`HunkAnchor.ParseAnchor`) reads the pattern piece by
  piece, with greedy `[0-9]+`.
- **Failure.** A thrown exception is `Err(AnchorNotFound(path, patch))`.
  Each level (`Review.Collect`) takes its parts in order and stops at the
  first failure. That is what the `map` calls and the `for` loop do when
  one callback throws.
- **Behaviour of the code worth knowing.**
  - A header such as `@@ bad header @@` holds letters. It is therefore
    not a match of `/(@@[0-9\s,+-]+@@)/`. Such a diff gives no patch,
    hence no comment and no failure. `HunkSplit.WordHeaderIsNoHunk` and
    `Review.WordHeaderReview` prove it.
  - By contrast, a header that the split does accept but that lacks the
    counts (`@@ -a +c @@`) does make the run fail
    (`Review.NoCountHeaderFailsReview`).
  - The anchor pattern is searched over the whole patch, preamble
    included, and not over the header alone. So the end-to-end lemmas
    assume a preamble in which no `@@` occurs and which does not end in
    `@`. A single `@`, as in a scoped package path or a decorator, is
    allowed there and in the hunk body.

## Model

| member | source | states |
|---|---|---|
| ErrorDedup.KeepAt | src/main.ts:28-35 | the filter callback keeps position i when `findIndex` of its (message, line) returns i; the first error is always kept |
| ErrorDedup.Dedup | src/main.ts:28-35 | the errors the filter keeps, in input order: never more than the input, and the first error always survives |
| ErrorDedup.ErrorComment | src/main.ts:36-41 | an error's comment is a single-line comment (no start line) at the error's own file path and line |
| ErrorDedup.ErrorComments | src/main.ts:27-42 | one comment per surviving error: at most as many as there are errors, and none of them a range comment |
| ErrorDedup.FindIndexFrom | src/main.ts:31-33 | `findIndex` from a position returns -1 exactly when no later element has the key, and otherwise the first index with the key |
| ErrorDedup.KeepAtIffFirst | src/main.ts:28-35 | the filter keeps position i exactly when no earlier error has the same (message, line) |
| ErrorDedup.DedupSnoc | src/main.ts:28-35 | adding one error at the end drops it when its key was seen before (whatever its source class and path), and appends it otherwise |
| ErrorDedup.DedupKeys | src/main.ts:28-35 | deduplication keeps every (message, line) pair of the input and introduces none |
| ErrorDedup.DedupDistinct | src/main.ts:28-35 | no two survivors share a (message, line) pair |
| ErrorDedup.DedupOfDistinct | src/main.ts:28-35 | a list whose pairs are already distinct is returned unchanged |
| ErrorDedup.DedupIdempotent | src/main.ts:28-35 | deduplicating the output again returns the same list |
| ErrorDedup.FirstIndicesAreFirstOccurrences | src/main.ts:28-35 | the first-occurrence positions are strictly increasing, and a position is among them exactly when it is a first occurrence |
| ErrorDedup.DedupIsFirstOccurrences | src/main.ts:28-35 | the k-th survivor is the error at the k-th first-occurrence position, so survivors keep input order |
| ErrorDedup.DuplicatesCollapse | src/main.ts:31-41 | two errors with equal message and line give one comment, built from the first (its path and source class) |
| ErrorDedup.DedupExample | src/main.ts:27-42 | errors E1@5, E1@5, E2@9 leave the first and third, and their comments in that order |
| JsText.Join | src/main.ts:82 | `join`: empty for no parts, otherwise text that begins with the first part and ends with the last |
| JsText.DecimalValue | src/main.ts:69-70 | the number a digit string denotes when `Math.min`/`Math.max` coerce it; below 10^n for n digits |
| JsText.IsJsWhiteSpace | src/main.ts:46 | `\s` of the split pattern and of the anchor pattern: space, tab, line feed and carriage return are in it; no digit, `,`, `+`, `-` or `@` is |
| JsText.Min | src/main.ts:69 | `Math.min`: at most both arguments and equal to one of them |
| JsText.Max | src/main.ts:70 | `Math.max`: at least both arguments and equal to one of them |
| JsText.Concat | src/main.ts:53 | `join('')` of the pieces: the result begins with the first piece (the split tokens rejoin to the diff, `HunkSplit.SplitLossless`) |
| JsText.Digits | src/main.ts:61 | greedy `[0-9]+`: an all-digit prefix, and what follows it does not start with a digit |
| JsText.DigitsOf | src/main.ts:61 | the greedy split of digits followed by a non-digit is exactly that pair |
| HunkSplit.InHeaderClass | src/main.ts:46 | the class `[0-9\s,+-]`: it holds no `@` and no letter |
| HunkSplit.IsHeader | src/main.ts:46 | a full match of `@@[0-9\s,+-]+@@`: at least five characters, and the characters next to the opening and closing `@@` are not `@` |
| HunkSplit.ClassRun | src/main.ts:46 | the longest run of `[0-9\s,+-]` characters from a position |
| HunkSplit.HeaderAt | src/main.ts:46 | the sticky header match at q ends at e exactly when `s[q..e]` is `@@`, class characters, `@@`, and that end is unique |
| HunkSplit.SpansFrom | src/main.ts:46 | the matches found by the split scanner are headers, in order, and do not overlap |
| HunkSplit.MatchSpans | src/main.ts:46 | the split's header matches from the start of the diff: in order, not overlapping, each a header |
| HunkSplit.Split | src/main.ts:46 | the split result has 2N+1 tokens for N header matches |
| HunkSplit.Hunks | src/main.ts:48-54 | one patch per header match |
| HunkSplit.SpansAreLeftmost | src/main.ts:46 | the scanner's matches are leftmost: no header starts before or between them, nor after the last one |
| HunkSplit.LeftmostIsSpans | src/main.ts:46 | any leftmost, non-overlapping list of header matches is the scanner's list |
| HunkSplit.MatchSpansCharacterized | src/main.ts:46 | a span list is leftmost exactly when it is the scanner's list |
| HunkSplit.TokensAt | src/main.ts:46 | 2N+1 tokens: the text before the first match, then each header and the text up to the next match |
| HunkSplit.SplitTokens | src/main.ts:46 | for the whole diff: token 0 is the preamble, token 2i+1 is the i-th header (a header match), token 2i+2 is the text after it |
| HunkSplit.TokensConcat | src/main.ts:46 | joining the tokens from a position gives back the text from that position |
| HunkSplit.SplitLossless | src/main.ts:46 | joining all tokens of the split gives back the diff |
| HunkSplit.HunksOfDiff | src/main.ts:46-54 | one patch per header match, the i-th being preamble + i-th header + the text up to the next header |
| HunkSplit.NoHunksIffNoHeader | src/main.ts:46-54 | a diff gives no patch exactly when no header match starts anywhere in it |
| HunkSplit.SingleHeader | src/main.ts:46 | a preamble with no `@@` and not ending in `@`, one header, and a body with no `@@`: that header is the diff's only match |
| HunkSplit.SingleHunk | src/main.ts:46-54 | a diff with exactly one header match has that one span as its match list and gives one patch: the whole diff |
| HunkSplit.WordHeaderIsNoHunk | src/main.ts:46 | `@@ bad header @@` between a preamble with no `@@` (not ending in `@`) and a body with no `@@` gives no patch at all |
| HunkSplit.SplitIntoPatches | src/main.ts:46-54 | the splice loop that pushes `head + two tokens` yields exactly the patches of the diff |
| HunkAnchor.ParseAnchor | src/main.ts:61 | a sticky anchor match yields four non-empty all-digit groups |
| HunkAnchor.AnchorTextParses | src/main.ts:61 | `@@ -a,b` whitespace `+c,d`, then anything not starting with a digit, matches with exactly the groups a, b, c, d |
| HunkAnchor.ParsedIsAnchorText | src/main.ts:61 | conversely, every sticky match is such text: the groups, one whitespace character, and a rest not starting with a digit |
| HunkAnchor.FindAnchorFrom | src/main.ts:61 | the result is a match position with no match before it, or `None` exactly when no position matches |
| HunkAnchor.FirstAnchorAt | src/main.ts:61 | a match at p with none before it is the one the search finds |
| HunkAnchor.AnchorAt | src/main.ts:61 | the sticky anchor match at one position: when it succeeds the groups are non-empty digit strings and at least 12 characters remain from there |
| HunkAnchor.AnchorStart | src/main.ts:61 | a match can only start at `@@ -` |
| HunkAnchor.PatchAnchor | src/main.ts:61-70 | an anchor exists exactly when the pattern matches; its start line is at most its line, and the two are the old and new start lines |
| HunkAnchor.PairUp | src/main.ts:63-67 | the drain loop cuts the groups into consecutive pairs, the last shorter when their number is odd |
| HunkAnchor.AnchorOf | src/main.ts:61-70 | match, pair up, take min and max of the two start lines: the patch's anchor, or `None` where the source throws |
| HunkAnchor.AnchorOfHunk | src/main.ts:61-70 | a patch of a preamble with no `@@` (not ending in `@`), then `@@ -a,b +c,d...`, is anchored from `min(a, c)` to `max(a, c)` |
| HunkAnchor.AnchorIgnoresCounts | src/main.ts:61-76 | after such a preamble, changing the two count fields does not change the anchor |
| HunkAnchor.AnchorSymmetric | src/main.ts:69-70 | after such a preamble, exchanging the old and new ranges gives the same anchor |
| HunkAnchor.AnchorExampleForward | src/main.ts:61-70 | after such a preamble, `@@ -10,5 +12,5 @@` anchors lines 10 to 12 |
| HunkAnchor.AnchorExampleBackward | src/main.ts:61-70 | after such a preamble, `@@ -20,3 +15,3 @@` anchors lines 15 to 20 |
| HunkAnchor.NoCountHeaderHasNoAnchor | src/main.ts:61 | `@@ -a +c @@` between such a preamble and a body with no `@@` has no anchor match, section headings such as `@@ -1 +1 @@ def f():` included; only a body opening with ` -` or `@ -` is set aside |
| Review.Collect | src/main.ts:86-89 | the parts' comments in order, stopping at the first failure; a failure is always one of the parts' own |
| Review.HunkComment | src/main.ts:78-83 | a hunk's comment is a range comment at the file key, from the anchor's start line to its line |
| Review.PatchResult | src/main.ts:59-84 | a patch gives one range comment at the file key exactly when it has an anchor, and otherwise fails naming that patch |
| Review.BlockComments | src/main.ts:44-86 | a block's comments; a failure names the file key and one of the block's own patches |
| Review.DiffComments | src/main.ts:44-86 | a file's diff comments, block by block; a failure names the file key |
| Review.FileComments | src/main.ts:44-89 | a file's diff comments then its error comments; a failure names the file key, and a success holds at least the error comments |
| Review.ReviewComments | src/main.ts:24-89 | the comments of the whole report, file by file; a failure names one of the report's files |
| Review.CollectSucceedsIff | src/main.ts:59-89 | taking parts in order succeeds exactly when every part succeeds |
| Review.CollectFirstFailure | src/main.ts:59-89 | a failure reported is that of the first failing part, all earlier parts having succeeded |
| Review.CollectSingles | src/main.ts:59-86 | parts of one comment each give one comment per part, in order (`flat(1)` of one-comment lists) |
| Review.CollectKeeps | src/main.ts:58-89 | a property every part's comments have, every collected comment has |
| Review.HunkCommentsOf | src/main.ts:60-84 | anchoring each patch of a block in turn gives the block's comments, or the first patch without an anchor |
| Review.DiffCommentsOf | src/main.ts:44-86 | splitting every block first, then anchoring block by block, gives the file's diff comments or the first failure |
| Review.Run | src/main.ts:24-89 | pushing each file's diff comments and then its error comments gives the review comments of the report, or the first failure |
| Review.BlockSucceedsIff | src/main.ts:59-86 | a block succeeds exactly when each of its patches has an anchor |
| Review.BlockFailsAtFirst | src/main.ts:59-86 | a failing block fails with the first of its patches that has no anchor |
| Review.BlockCommentsShape | src/main.ts:59-86 | a successful block gives one comment per header match, in order; each has the file key as path, the checkers joined by newlines as body, and start line at most line |
| Review.FileCommentsOrder | src/main.ts:88-89 | a file's comments are its diff comments (file-key path, with start line) followed by its error comments (no start line) |
| Review.FileSucceedsIff | src/main.ts:44-89 | a file succeeds exactly when every patch of every block has an anchor |
| Review.ReviewSucceedsIff | src/main.ts:24-89 | the run succeeds exactly when every patch of every block of every file has an anchor |
| Review.OneFileOneBlock | src/main.ts:24-89 | a report of one file with one block gives the block's comments then the error comments, or the block's failure |
| Review.OnePatchBlock | src/main.ts:59-86 | a block whose diff is one patch gives that patch's comment or failure |
| Review.AnchorHeaderIsHeader | src/main.ts:46 | a well-formed `@@ -a,b +c,d @@` header is a match of the split pattern |
| Review.NoCountHeaderIsHeader | src/main.ts:46 | `@@ -a +c @@` is also a match of the split pattern |
| Review.OnlyHeaderBlock | src/main.ts:44-86 | a block whose diff has exactly one header match gives the result of the whole diff as one patch |
| Review.SingleHunkBlock | src/main.ts:44-86 | a block of one well-formed hunk (preamble with no `@@` not ending in `@`, body with no `@@`) gives one range comment from `min(a, c)` to `max(a, c)` with the checkers as body |
| Review.SingleHunkReview | src/main.ts:24-89 | a file with one such hunk gets that range comment, then its error comments |
| Review.NoCountHeaderFailsReview | src/main.ts:46-61 | a hunk header without counts, between a preamble with no `@@` (not ending in `@`) and a body with no `@@` that does not open with ` -` or `@ -`, is split off but has no anchor, so the run fails on that patch |
| Review.SectionHeadingFailsReview | src/main.ts:46-61 | git's header with a section heading, `@@ -1 +1 @@ def f():`, makes the run fail on that patch |
| Review.WordHeaderReview | src/main.ts:44-89 | a diff whose only header holds words (preamble with no `@@` not ending in `@`, body with no `@@`) gives no diff comment and does not fail |
| Review.ReviewExample | src/main.ts:24-89 | the report with errors E1@5 (twice) and E2@9 and the hunk `@@ -1,1 +1,1 @@` gives the diff comment at 1..1, then E1's comment, then E2's |

## Left out

- Reading the action inputs and the GitHub context, and `JSON.parse` of
  the report (src/main.ts:7-22). The report is a typed input: a sequence
  of (file path, entry) pairs.
- The pull-request-number guard (src/main.ts:14-18). It is about the
  environment, not the report.
- The `createReview` call (src/main.ts:93-99), which is network I/O.
- `core.setFailed` (src/main.ts:100-101). A failed run is the `Err`
  result of the transformation; the message text is not modelled.
- The order of `Object.entries`. JavaScript lists integer-like keys first,
  in numeric order. The model takes the files in the order given.
- Dynamic typing. Fields of the wrong type, missing `errors` or `diffs`
  arrays, and `===` on `undefined` are not modelled. Errors' lines are
  integers, compared by value.
- IEEE double precision in `Math.min`/`Math.max`. Start lines are the
  exact natural numbers their digit strings denote, so lines beyond 2^53
  are not rounded.
- The commented-out count logic (src/main.ts:72-76). It is dead code.
- `.flat(1)` at src/main.ts:58. It is applied to an array of objects and
  changes nothing, so the model has no counterpart for it.
- UTF-16 code units. Strings are sequences of Unicode scalar values. None
  of the patterns' character classes contains a surrogate, so a
  supplementary character fails to match there either way.
- HunkAnchor.AnchorOfHunk: stated only for a preamble in which no `@@`
  occurs and which does not end in `@`. The anchor pattern is searched
  over the whole patch, so an anchor in the preamble would take
  precedence. A single `@` is allowed.
- HunkAnchor.AnchorIgnoresCounts: stated for the same preambles as
  AnchorOfHunk only.
- HunkAnchor.AnchorSymmetric: stated for the same preambles as
  AnchorOfHunk only.
- HunkAnchor.AnchorExampleForward: stated for the same preambles as
  AnchorOfHunk only.
- HunkAnchor.AnchorExampleBackward: stated for the same preambles as
  AnchorOfHunk only.
- HunkAnchor.NoCountHeaderHasNoAnchor: stated for such a preamble and a
  body in which no `@@` occurs and which does not open with ` -` or
  `@ -`. Such an opening turns the header's closing `@@` into a new
  `@@ -`, where an anchor can then match (`@@ -1 +1 @@ -2,3 +4,5`).
- Review.NoCountHeaderFailsReview: the same conditions as
  NoCountHeaderHasNoAnchor.
- HunkSplit.SingleHeader: stated only for a preamble with no `@@` that
  does not end in `@`, and a body with no `@@`. With other `@@` pairs
  around, the split could find further header matches. A single `@` is
  allowed in both.
- HunkSplit.WordHeaderIsNoHunk: the same conditions as SingleHeader.
- Review.SingleHunkBlock: the same conditions as SingleHeader.
- Review.SingleHunkReview: the same conditions as SingleHeader.
- Review.WordHeaderReview: the same conditions as SingleHeader.
