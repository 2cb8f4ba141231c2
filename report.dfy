/**
 * The values the comment builder consumes and produces: the per-file
 * report of a static-analysis run and the review comments built from it.
 */
module Report {
  import opened Wrappers

  /** One static-analysis finding (`errors[]` of a file entry). */
  datatype ErrorRecord = ErrorRecord(filePath: string, message: string, sourceClass: string, line: int)

  /** One fixer's proposed unified diff and the checkers that produced it (`diffs[]`). */
  datatype DiffBlock = DiffBlock(diff: string, appliedCheckers: seq<string>)

  datatype FileEntry = FileEntry(errors: seq<ErrorRecord>, diffs: seq<DiffBlock>)

  /** The `files` object of the report, as `Object.entries` yields it: (path, entry) pairs in order. */
  type Files = seq<(string, FileEntry)>

  /**
   * A review comment. `startLine` is `None` for a single-line comment
   * (built from an error) and `Some` for a range (built from a diff hunk).
   */
  datatype Comment = Comment(path: string, body: string, line: int, startLine: Option<int>)

  /**
   * Why building the comments failed: a patch in which the anchor pattern
   * `@@ -a,b\s+c,d` matches nothing, so `match(...)` returns null and the
   * following `.splice` throws.
   */
  datatype Failure = AnchorNotFound(path: string, patch: string)
}
