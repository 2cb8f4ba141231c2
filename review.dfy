/**
 * Building the review comments of a whole report (src/main.ts:24-89): for
 * each file in order, one range comment per hunk of each of its diff
 * blocks, then one single-line comment per deduplicated error. A patch
 * without an anchor makes the whole run fail, so no review is created.
 */
module Review {
  import opened Wrappers
  import opened JsText
  import opened Report
  import opened HunkSplit
  import opened HunkAnchor
  import opened ErrorDedup

  /**
   * The comment lists of all parts in order, or the failure of the first
   * part that failed: the parts are taken one after the other, and the
   * first failure ends the run.
   */
  function Collect(rs: seq<Result<seq<Comment>, Failure>>): (r: Result<seq<Comment>, Failure>)
    ensures r.Err? ==> exists i :: 0 <= i < |rs| && rs[i] == r
  {
    if rs == [] then Ok([])
    else
      match Collect(rs[..|rs| - 1])
      case Err(f) => Err(f)
      case Ok(cs) =>
        var last := rs[|rs| - 1];
        if last.Err? then Err(last.error) else Ok(cs + last.value)
  }

  /** Collecting succeeds exactly when every part succeeds. */
  lemma {:induction false} CollectSucceedsIff(rs: seq<Result<seq<Comment>, Failure>>)
    ensures Collect(rs).Ok? <==> forall i :: 0 <= i < |rs| ==> rs[i].Ok?
  {
    if rs != [] {
      var init := rs[..|rs| - 1];
      CollectSucceedsIff(init);
      assert forall i :: 0 <= i < |init| ==> rs[i] == init[i];
    }
  }

  /** Once a prefix has failed, the whole fails the same way. */
  lemma {:induction false} CollectSticky(rs: seq<Result<seq<Comment>, Failure>>, n: nat)
    requires n <= |rs| && Collect(rs[..n]).Err?
    ensures Collect(rs) == Collect(rs[..n])
    decreases |rs|
  {
    if n == |rs| {
      assert rs[..n] == rs;
    } else {
      var init := rs[..|rs| - 1];
      assert init[..n] == rs[..n];
      CollectSticky(init, n);
    }
  }

  lemma CollectOne(x: Result<seq<Comment>, Failure>)
    ensures Collect([x]) == if x.Err? then Err(x.error) else Ok(x.value)
  {
    assert [x][..0] == [];
    if x.Ok? {
      assert [] + x.value == x.value;
    }
  }

  /** One more part: its comments are appended, or its failure becomes the result. */
  lemma CollectStep(rs: seq<Result<seq<Comment>, Failure>>, i: nat)
    requires i < |rs| && Collect(rs[..i]).Ok?
    ensures rs[i].Ok? ==> Collect(rs[..i + 1]) == Ok(Collect(rs[..i]).value + rs[i].value)
    ensures rs[i].Err? ==> Collect(rs) == Err(rs[i].error)
  {
    var p := rs[..i + 1];
    assert p[..i] == rs[..i];
    assert p[i] == rs[i];
    if rs[i].Err? {
      CollectSticky(rs, i + 1);
    }
  }

  /** The failure reported is that of the first part that failed. */
  lemma {:induction false} CollectFirstFailure(rs: seq<Result<seq<Comment>, Failure>>)
    requires Collect(rs).Err?
    ensures exists i :: 0 <= i < |rs| && rs[i] == Collect(rs) && forall j :: 0 <= j < i ==> rs[j].Ok?
  {
    var init := rs[..|rs| - 1];
    if Collect(init).Err? {
      CollectFirstFailure(init);
      var i :| 0 <= i < |init| && init[i] == Collect(init) && forall j :: 0 <= j < i ==> init[j].Ok?;
      assert rs[i] == init[i];
      assert forall j :: 0 <= j < i ==> rs[j] == init[j];
    } else {
      CollectSucceedsIff(init);
      assert forall j :: 0 <= j < |init| ==> rs[j] == init[j];
      assert rs[|rs| - 1] == Collect(rs);
    }
  }

  /** Parts of one comment each give one comment per part, in order. */
  lemma {:induction false} CollectSingles(rs: seq<Result<seq<Comment>, Failure>>)
    requires forall i :: 0 <= i < |rs| ==> rs[i].Ok? && |rs[i].value| == 1
    ensures Collect(rs).Ok? && |Collect(rs).value| == |rs|
    ensures forall i :: 0 <= i < |rs| ==> Collect(rs).value[i] == rs[i].value[0]
  {
    if rs != [] {
      var init := rs[..|rs| - 1];
      assert forall i :: 0 <= i < |init| ==> init[i] == rs[i];
      CollectSingles(init);
      var cs := Collect(init).value;
      assert Collect(rs).value == cs + rs[|rs| - 1].value;
    }
  }

  /** A property every comment of every part has, every collected comment has. */
  lemma {:induction false} CollectKeeps(rs: seq<Result<seq<Comment>, Failure>>, p: Comment -> bool)
    requires Collect(rs).Ok?
    requires forall i, c :: 0 <= i < |rs| && rs[i].Ok? && c in rs[i].value ==> p(c)
    ensures forall c :: c in Collect(rs).value ==> p(c)
  {
    if rs != [] {
      var init := rs[..|rs| - 1];
      assert forall i :: 0 <= i < |init| ==> init[i] == rs[i];
      CollectKeeps(init, p);
    }
  }

  /** The range comment of one hunk (src/main.ts:78-83). */
  function HunkComment(path: string, checkers: seq<string>, a: Anchor): (c: Comment)
    ensures c.path == path && c.startLine == Some(a.startLine) && c.line == a.line
  {
    Comment(path, Join(checkers, "\n"), a.line, Some(a.startLine))
  }

  /** The comment of one patch, or the failure when it has no anchor. */
  function PatchResult(path: string, checkers: seq<string>, patch: string): (r: Result<seq<Comment>, Failure>)
    ensures r.Ok? <==> PatchAnchor(patch).Some?
    ensures r.Err? ==> r.error == AnchorNotFound(path, patch)
    ensures r.Ok? ==> |r.value| == 1 && r.value[0].path == path && r.value[0].startLine.Some?
  {
    match PatchAnchor(patch)
    case None => Err(AnchorNotFound(path, patch))
    case Some(a) => Ok([HunkComment(path, checkers, a)])
  }

  function PatchResults(path: string, checkers: seq<string>, patches: seq<string>): seq<Result<seq<Comment>, Failure>> {
    seq(|patches|, i requires 0 <= i < |patches| => PatchResult(path, checkers, patches[i]))
  }

  /** The comments of one diff block under file key `path`. */
  function BlockComments(path: string, block: DiffBlock): (r: Result<seq<Comment>, Failure>)
    ensures r.Err? ==> r.error.path == path && r.error.patch in Hunks(block.diff)
  {
    Collect(PatchResults(path, block.appliedCheckers, Hunks(block.diff)))
  }

  function BlockResults(path: string, blocks: seq<DiffBlock>): seq<Result<seq<Comment>, Failure>> {
    seq(|blocks|, i requires 0 <= i < |blocks| => BlockComments(path, blocks[i]))
  }

  /** The diff comments of one file: its blocks' comments, block by block. */
  function DiffComments(path: string, blocks: seq<DiffBlock>): (r: Result<seq<Comment>, Failure>)
    ensures r.Err? ==> r.error.path == path
  {
    Collect(BlockResults(path, blocks))
  }

  /** The comments of one file: its diff comments, then its error comments. */
  function FileComments(path: string, entry: FileEntry): (r: Result<seq<Comment>, Failure>)
    ensures r.Err? ==> r.error.path == path
    ensures r.Ok? ==> |r.value| >= |ErrorComments(entry.errors)|
  {
    match DiffComments(path, entry.diffs)
    case Err(f) => Err(f)
    case Ok(ds) => Ok(ds + ErrorComments(entry.errors))
  }

  function FileResults(files: Files): seq<Result<seq<Comment>, Failure>> {
    seq(|files|, i requires 0 <= i < |files| => FileComments(files[i].0, files[i].1))
  }

  /** The comments of the whole report, file by file, or the first failure. */
  function ReviewComments(files: Files): (r: Result<seq<Comment>, Failure>)
    ensures r.Err? ==> exists i :: 0 <= i < |files| && r.error.path == files[i].0
  {
    Collect(FileResults(files))
  }

  /**
   * src/main.ts:59-86 for the patches of one block: anchor each patch in
   * turn and build its comment; the first patch without an anchor stops
   * the run.
   */
  method HunkCommentsOf(path: string, checkers: seq<string>, patches: seq<string>) returns (r: Result<seq<Comment>, Failure>)
    ensures r == Collect(PatchResults(path, checkers, patches))
  {
    ghost var rs := PatchResults(path, checkers, patches);
    var cs := [];
    for i := 0 to |patches|
      invariant Collect(rs[..i]) == Ok(cs)
    {
      var a := AnchorOf(patches[i]);
      assert rs[i] == PatchResult(path, checkers, patches[i]);
      CollectStep(rs, i);
      if a.None? {
        return Err(AnchorNotFound(path, patches[i]));
      }
      cs := cs + [HunkComment(path, checkers, a.value)];
    }
    assert rs[..|patches|] == rs;
    return Ok(cs);
  }

  /**
   * src/main.ts:44-87: first split every block of the file into patches,
   * then build the comments of each block's patches, block by block.
   */
  method DiffCommentsOf(path: string, blocks: seq<DiffBlock>) returns (r: Result<seq<Comment>, Failure>)
    ensures r == DiffComments(path, blocks)
  {
    var patchLists := [];
    for i := 0 to |blocks|
      invariant |patchLists| == i
      invariant forall j :: 0 <= j < i ==> patchLists[j] == Hunks(blocks[j].diff)
    {
      var patches := SplitIntoPatches(blocks[i].diff);
      patchLists := patchLists + [patches];
    }
    ghost var rs := BlockResults(path, blocks);
    var cs := [];
    for i := 0 to |blocks|
      invariant Collect(rs[..i]) == Ok(cs)
    {
      var b := HunkCommentsOf(path, blocks[i].appliedCheckers, patchLists[i]);
      assert rs[i] == BlockComments(path, blocks[i]);
      CollectStep(rs, i);
      if b.Err? {
        return b;
      }
      cs := cs + b.value;
    }
    assert rs[..|blocks|] == rs;
    return Ok(cs);
  }

  /**
   * src/main.ts:24-89: for each file in order, push its diff comments and
   * then its error comments onto `comments`.
   */
  method Run(files: Files) returns (r: Result<seq<Comment>, Failure>)
    ensures r == ReviewComments(files)
  {
    ghost var rs := FileResults(files);
    var comments := [];
    for i := 0 to |files|
      invariant Collect(rs[..i]) == Ok(comments)
    {
      var (path, entry) := files[i];
      var errors := ErrorComments(entry.errors);
      var diffs := DiffCommentsOf(path, entry.diffs);
      assert rs[i] == FileComments(path, entry);
      CollectStep(rs, i);
      if diffs.Err? {
        return Err(diffs.error);
      }
      Assoc(comments, diffs.value, errors);
      comments := comments + diffs.value;
      comments := comments + errors;
    }
    assert rs[..|files|] == rs;
    return Ok(comments);
  }

  /** A block succeeds exactly when each of its patches has an anchor. */
  lemma BlockSucceedsIff(path: string, block: DiffBlock)
    ensures var hs := Hunks(block.diff);
      BlockComments(path, block).Ok? <==> forall i :: 0 <= i < |hs| ==> PatchAnchor(hs[i]).Some?
  {
    var hs := Hunks(block.diff);
    var rs := PatchResults(path, block.appliedCheckers, hs);
    CollectSucceedsIff(rs);
    assert forall i :: 0 <= i < |hs| ==> (rs[i].Ok? <==> PatchAnchor(hs[i]).Some?);
  }

  /** A block that fails, fails on its first patch without an anchor. */
  lemma BlockFailsAtFirst(path: string, block: DiffBlock)
    requires BlockComments(path, block).Err?
    ensures var hs := Hunks(block.diff);
      exists i :: 0 <= i < |hs| && BlockComments(path, block).error == AnchorNotFound(path, hs[i]) &&
        PatchAnchor(hs[i]).None? && forall j :: 0 <= j < i ==> PatchAnchor(hs[j]).Some?
  {
    var hs := Hunks(block.diff);
    var rs := PatchResults(path, block.appliedCheckers, hs);
    CollectFirstFailure(rs);
    var i :| 0 <= i < |rs| && rs[i] == Collect(rs) && forall j :: 0 <= j < i ==> rs[j].Ok?;
    forall j | 0 <= j < i ensures PatchAnchor(hs[j]).Some? {
      assert rs[j] == PatchResult(path, block.appliedCheckers, hs[j]);
    }
    assert rs[i] == PatchResult(path, block.appliedCheckers, hs[i]);
    assert BlockComments(path, block).error == AnchorNotFound(path, hs[i]);
  }

  /**
   * A block that succeeds gives one comment per header match, in order.
   * Each is under the file key, has the block's checkers joined by
   * newlines as its body, and spans from its patch's smaller start line
   * to its larger one.
   */
  lemma BlockCommentsShape(path: string, block: DiffBlock)
    requires BlockComments(path, block).Ok?
    ensures var cs, hs := BlockComments(path, block).value, Hunks(block.diff);
      |cs| == |hs| == |MatchSpans(block.diff)| &&
      forall i :: 0 <= i < |hs| ==>
        PatchAnchor(hs[i]).Some? &&
        cs[i] == HunkComment(path, block.appliedCheckers, PatchAnchor(hs[i]).value) &&
        cs[i].path == path && cs[i].body == Join(block.appliedCheckers, "\n") &&
        cs[i].startLine.Some? && cs[i].startLine.value <= cs[i].line
  {
    var hs := Hunks(block.diff);
    var rs := PatchResults(path, block.appliedCheckers, hs);
    assert forall i :: 0 <= i < |hs| ==> rs[i] == PatchResult(path, block.appliedCheckers, hs[i]);
    CollectSucceedsIff(rs);
    CollectSingles(rs);
  }

  /**
   * Within a file, all diff comments (each a range under the file key)
   * come before all error comments (each single-line), and the diff
   * comments are the blocks' comments in block order.
   */
  lemma FileCommentsOrder(path: string, entry: FileEntry)
    requires FileComments(path, entry).Ok?
    ensures var cs, ds, es := FileComments(path, entry).value, DiffComments(path, entry.diffs), ErrorComments(entry.errors);
      ds.Ok? && cs == ds.value + es &&
      (forall c :: c in ds.value ==> c.path == path && c.startLine.Some?) &&
      (forall c :: c in es ==> c.startLine.None?)
  {
    var rs := BlockResults(path, entry.diffs);
    forall i, c | 0 <= i < |rs| && rs[i].Ok? && c in rs[i].value ensures c.path == path && c.startLine.Some? {
      BlockCommentsShape(path, entry.diffs[i]);
      var k :| 0 <= k < |rs[i].value| && rs[i].value[k] == c;
    }
    CollectKeeps(rs, (c: Comment) => c.path == path && c.startLine.Some?);
  }

  /** A file succeeds exactly when every patch of every one of its blocks has an anchor. */
  lemma FileSucceedsIff(path: string, entry: FileEntry)
    ensures FileComments(path, entry).Ok? <==>
      forall j, k ::
        (0 <= j < |entry.diffs| && 0 <= k < |Hunks(entry.diffs[j].diff)|) ==>
          PatchAnchor(Hunks(entry.diffs[j].diff)[k]).Some?
  {
    FileOkIffBlocksOk(path, entry);
    forall j | 0 <= j < |entry.diffs|
      ensures BlockComments(path, entry.diffs[j]).Ok? <==>
        forall k :: 0 <= k < |Hunks(entry.diffs[j].diff)| ==> PatchAnchor(Hunks(entry.diffs[j].diff)[k]).Some?
    {
      BlockSucceedsIff(path, entry.diffs[j]);
    }
  }

  lemma FileOkIffBlocksOk(path: string, entry: FileEntry)
    ensures FileComments(path, entry).Ok? <==>
      forall j :: 0 <= j < |entry.diffs| ==> BlockComments(path, entry.diffs[j]).Ok?
  {
    var rs := BlockResults(path, entry.diffs);
    var d := DiffComments(path, entry.diffs);
    assert d == Collect(rs);
    assert FileComments(path, entry).Ok? <==> d.Ok?;
    CollectSucceedsIff(rs);
    forall j | 0 <= j < |entry.diffs| ensures rs[j] == BlockComments(path, entry.diffs[j]) {
    }
  }

  /** The run succeeds exactly when every patch of every block of every file has an anchor. */
  lemma ReviewSucceedsIff(files: Files)
    ensures ReviewComments(files).Ok? <==>
      forall i, j, k ::
        (0 <= i < |files| && 0 <= j < |files[i].1.diffs| && 0 <= k < |Hunks(files[i].1.diffs[j].diff)|) ==>
          PatchAnchor(Hunks(files[i].1.diffs[j].diff)[k]).Some?
  {
    var rs := FileResults(files);
    assert ReviewComments(files).Ok? <==> Collect(rs).Ok?;
    CollectSucceedsIff(rs);
    forall i | 0 <= i < |files|
      ensures rs[i].Ok? <==>
        forall j, k ::
          (0 <= j < |files[i].1.diffs| && 0 <= k < |Hunks(files[i].1.diffs[j].diff)|) ==>
            PatchAnchor(Hunks(files[i].1.diffs[j].diff)[k]).Some?
    {
      FileSucceedsIff(files[i].0, files[i].1);
    }
  }

  /** A report of one file with one diff block: that block's comments, then the error comments. */
  lemma OneFileOneBlock(path: string, errors: seq<ErrorRecord>, block: DiffBlock)
    ensures ReviewComments([(path, FileEntry(errors, [block]))]) ==
      match BlockComments(path, block)
      case Err(f) => Err(f)
      case Ok(cs) => Ok(cs + ErrorComments(errors))
  {
    var entry := FileEntry(errors, [block]);
    assert BlockResults(path, entry.diffs) == [BlockComments(path, block)];
    CollectOne(BlockComments(path, block));
    assert FileResults([(path, entry)]) == [FileComments(path, entry)];
    CollectOne(FileComments(path, entry));
  }

  /** A block whose diff is a single patch gives that patch's comment or failure. */
  lemma OnePatchBlock(path: string, block: DiffBlock, patch: string)
    requires Hunks(block.diff) == [patch]
    ensures BlockComments(path, block) == PatchResult(path, block.appliedCheckers, patch)
  {
    assert PatchResults(path, block.appliedCheckers, [patch]) == [PatchResult(path, block.appliedCheckers, patch)];
    CollectOne(PatchResult(path, block.appliedCheckers, patch));
  }

  /** A block whose diff has a single header match makes a single patch, the whole diff. */
  lemma OnlyHeaderBlock(path: string, block: DiffBlock, L: nat, R: nat)
    requires OnlyHeader(block.diff, L, R)
    ensures BlockComments(path, block) == PatchResult(path, block.appliedCheckers, block.diff)
  {
    SingleHunk(block.diff, L, R);
    OnePatchBlock(path, block, block.diff);
  }

  /** Every character is in `[0-9\s,+-]`. */
  predicate AllInClass(m: string) {
    forall i :: 0 <= i < |m| ==> InHeaderClass(m[i])
  }

  lemma InClassConcat(x: string, y: string)
    requires AllInClass(x) && AllInClass(y)
    ensures AllInClass(x + y)
  {
    forall i | 0 <= i < |x + y| ensures InHeaderClass((x + y)[i]) {
      if i >= |x| {
        assert (x + y)[i] == y[i - |x|];
      }
    }
  }

  /** `@@`, then at least one class character, then `@@`, is a header match. */
  lemma ClassTextIsHeader(m: string)
    requires |m| > 0 && AllInClass(m)
    ensures IsHeader("@@" + m + "@@")
  {
    var t := "@@" + m + "@@";
    forall i | 2 <= i < |t| - 2 ensures InHeaderClass(t[i]) {
      assert t[i] == m[i - 2];
    }
  }

  /** A well-formed hunk header `@@ -a,b +c,d @@` is a header match of the split. */
  lemma AnchorHeaderIsHeader(g: Groups, w: char)
    requires GroupsValid(g) && IsJsWhiteSpace(w)
    ensures IsHeader(AnchorText(g, w) + " @@")
  {
    var at := "@@";
    var y8 := " ";
    var y7 := g.newCount + y8;
    var y6 := "," + y7;
    var y5 := g.newStart + y6;
    var y4 := "+" + y5;
    var y3 := [w] + y4;
    var y2 := g.oldCount + y3;
    var y1 := "," + y2;
    var y0 := g.oldStart + y1;
    var m := " -" + y0;
    DigitsInClass(g.newCount);
    InClassConcat(g.newCount, y8);
    InClassConcat(",", y7);
    DigitsInClass(g.newStart);
    InClassConcat(g.newStart, y6);
    InClassConcat("+", y5);
    InClassConcat([w], y4);
    DigitsInClass(g.oldCount);
    InClassConcat(g.oldCount, y3);
    InClassConcat(",", y2);
    DigitsInClass(g.oldStart);
    InClassConcat(g.oldStart, y1);
    InClassConcat(" -", y0);
    ClassTextIsHeader(m);
    AnchorTextAppend(g, w, " @@");
    assert y8 + at == " @@";
    Assoc(g.newCount, y8, at);
    Assoc(",", y7, at);
    Assoc(g.newStart, y6, at);
    Assoc("+", y5, at);
    Assoc([w], y4, at);
    Assoc(g.oldCount, y3, at);
    Assoc(",", y2, at);
    Assoc(g.oldStart, y1, at);
    Assoc(" -", y0, at);
    Assoc(at, m, at);
    assert "@@ -" == at + " -";
    Assoc(at, " -", y0 + at);
  }

  lemma DigitsInClass(x: string)
    requires AllDigits(x)
    ensures AllInClass(x)
  {
  }

  /** A hunk header without counts, `@@ -a +c @@`, is a header match of the split. */
  lemma NoCountHeaderIsHeader(a: string, c: string)
    requires AllDigits(a) && AllDigits(c)
    ensures IsHeader("@@ -" + a + " +" + c + " @@")
  {
    var m := " -" + (a + (" +" + (c + " ")));
    InClassConcat(c, " ");
    InClassConcat(" +", c + " ");
    InClassConcat(a, " +" + (c + " "));
    InClassConcat(" -", a + (" +" + (c + " ")));
    ClassTextIsHeader(m);
    assert "@@ -" + a + " +" + c + " @@" == "@@" + m + "@@";
  }

  /**
   * End to end, a file with one diff of a single well-formed hunk (no `@@`
   * in its preamble or body, and a preamble not ending in `@`) gets one
   * range comment, from the smaller to the larger start line with the
   * checkers as its body, and then its error comments.
   */
  lemma SingleHunkReview(path: string, head: string, g: Groups, w: char, body: string,
                         checkers: seq<string>, errors: seq<ErrorRecord>)
    requires Preamble(head) && NoAtPair(body) && GroupsValid(g) && IsJsWhiteSpace(w)
    ensures var diff := head + (AnchorText(g, w) + " @@") + body;
      var a, c := DecimalValue(g.oldStart), DecimalValue(g.newStart);
      ReviewComments([(path, FileEntry(errors, [DiffBlock(diff, checkers)]))]) ==
        Ok([Comment(path, Join(checkers, "\n"), Max(a, c), Some(Min(a, c)))] + ErrorComments(errors))
  {
    var diff := head + (AnchorText(g, w) + " @@") + body;
    SingleHunkBlock(path, head, g, w, body, checkers);
    OneFileOneBlock(path, errors, DiffBlock(diff, checkers));
  }

  lemma SingleHunkBlock(path: string, head: string, g: Groups, w: char, body: string, checkers: seq<string>)
    requires Preamble(head) && NoAtPair(body) && GroupsValid(g) && IsJsWhiteSpace(w)
    ensures var diff := head + (AnchorText(g, w) + " @@") + body;
      var a, c := DecimalValue(g.oldStart), DecimalValue(g.newStart);
      BlockComments(path, DiffBlock(diff, checkers)) == Ok([Comment(path, Join(checkers, "\n"), Max(a, c), Some(Min(a, c)))])
  {
    var header := AnchorText(g, w) + " @@";
    var diff := head + header + body;
    var a, c := DecimalValue(g.oldStart), DecimalValue(g.newStart);
    AnchorHeaderOnly(head, g, w, body);
    OnlyHeaderBlock(path, DiffBlock(diff, checkers), |head|, |head| + |header|);
    SingleHunkAnchor(head, g, w, body);
    AnchoredPatch(path, checkers, diff, Anchor(Min(a, c), Max(a, c)));
  }

  lemma AnchoredPatch(path: string, checkers: seq<string>, patch: string, a: Anchor)
    requires PatchAnchor(patch) == Some(a)
    ensures PatchResult(path, checkers, patch) == Ok([Comment(path, Join(checkers, "\n"), a.line, Some(a.startLine))])
  {
  }

  lemma AnchorHeaderOnly(head: string, g: Groups, w: char, body: string)
    requires Preamble(head) && NoAtPair(body) && GroupsValid(g) && IsJsWhiteSpace(w)
    ensures OnlyHeader(head + (AnchorText(g, w) + " @@") + body, |head|, |head| + |AnchorText(g, w) + " @@"|)
  {
    AnchorHeaderIsHeader(g, w);
    SingleHeader(head, AnchorText(g, w) + " @@", body);
  }

  lemma SingleHunkAnchor(head: string, g: Groups, w: char, body: string)
    requires Preamble(head) && GroupsValid(g) && IsJsWhiteSpace(w)
    ensures var a, c := DecimalValue(g.oldStart), DecimalValue(g.newStart);
      PatchAnchor(head + (AnchorText(g, w) + " @@") + body) == Some(Anchor(Min(a, c), Max(a, c)))
  {
    Assoc(head, AnchorText(g, w) + " @@", body);
    Assoc(AnchorText(g, w), " @@", body);
    AnchorOfHunk(head, g, w, " @@" + body);
  }

  /**
   * A hunk header without counts (`@@ -a +c @@`) is split off as a patch
   * but has no anchor, so the run fails on it.
   */
  lemma NoCountHeaderFailsReview(path: string, head: string, a: string, c: string, body: string,
                                 checkers: seq<string>, errors: seq<ErrorRecord>)
    requires Preamble(head) && NoAtPair(body)
    requires !(|body| >= 2 && body[0] == ' ' && body[1] == '-')
    requires !(|body| >= 3 && body[0] == '@' && body[1] == ' ' && body[2] == '-')
    requires AllDigits(a) && AllDigits(c)
    ensures var diff := head + ("@@ -" + a + " +" + c + " @@") + body;
      ReviewComments([(path, FileEntry(errors, [DiffBlock(diff, checkers)]))]) == Err(AnchorNotFound(path, diff))
  {
    var header := "@@ -" + a + " +" + c + " @@";
    var diff := head + header + body;
    NoCountHeaderOnly(head, a, c, body);
    OnlyHeaderBlock(path, DiffBlock(diff, checkers), |head|, |head| + |header|);
    NoCountPatch(head, a, c, body);
    OneFileOneBlock(path, errors, DiffBlock(diff, checkers));
  }

  lemma NoCountHeaderOnly(head: string, a: string, c: string, body: string)
    requires Preamble(head) && NoAtPair(body) && AllDigits(a) && AllDigits(c)
    ensures OnlyHeader(head + ("@@ -" + a + " +" + c + " @@") + body, |head|, |head| + |"@@ -" + a + " +" + c + " @@"|)
  {
    NoCountHeaderIsHeader(a, c);
    SingleHeader(head, "@@ -" + a + " +" + c + " @@", body);
  }

  lemma NoCountPatch(head: string, a: string, c: string, body: string)
    requires Preamble(head) && NoAtPair(body)
    requires !(|body| >= 2 && body[0] == ' ' && body[1] == '-')
    requires !(|body| >= 3 && body[0] == '@' && body[1] == ' ' && body[2] == '-')
    requires AllDigits(a) && AllDigits(c)
    ensures PatchAnchor(head + ("@@ -" + a + " +" + c + " @@") + body) == None
  {
    NoCountText(head, a, c, body);
    NoCountHeaderHasNoAnchor(head, a, c, body);
  }

  lemma NoCountText(head: string, a: string, c: string, body: string)
    ensures head + ("@@ -" + a + " +" + c + " @@") + body == head + ("@@ -" + (a + (" +" + (c + (" @@" + body)))))
  {
    var x3 := " @@" + body;
    var x2 := c + x3;
    var x1 := " +" + x2;
    var x0 := a + x1;
    var p1 := "@@ -" + a;
    var p2 := p1 + " +";
    var p3 := p2 + c;
    Assoc(head, p3 + " @@", body);
    Assoc(p3, " @@", body);
    Assoc(p2, c, x3);
    Assoc(p1, " +", x2);
    Assoc("@@ -", a, x1);
  }

  /**
   * A header with words between its `@@`s (`@@ bad header @@`) is not
   * split off at all: the block gives no comment and the run does not fail.
   */
  lemma WordHeaderReview(path: string, head: string, body: string, checkers: seq<string>, errors: seq<ErrorRecord>)
    requires Preamble(head) && NoAtPair(body)
    ensures var diff := head + "@@ bad header @@" + body;
      ReviewComments([(path, FileEntry(errors, [DiffBlock(diff, checkers)]))]) == Ok(ErrorComments(errors))
  {
    var diff := head + "@@ bad header @@" + body;
    WordHeaderIsNoHunk(head, body);
    assert PatchResults(path, checkers, Hunks(diff)) == [];
    OneFileOneBlock(path, errors, DiffBlock(diff, checkers));
    assert [] + ErrorComments(errors) == ErrorComments(errors);
  }

  /**
   * A report with one file holding two errors that share message and line,
   * a third error, and one diff with the hunk `@@ -1,1 +1,1 @@`: the diff
   * comment comes first, then one comment for the shared error (from its
   * first occurrence), then the third error's.
   */
  lemma ReviewExample()
    ensures var e1, e2, e3 := ErrorRecord("a.py", "E1", "Lint", 5), ErrorRecord("a.py", "E1", "Style", 5),
                              ErrorRecord("a.py", "E2", "Lint", 9);
      var diff := "--- a/a.py\n+++ b/a.py\n@@ -1,1 +1,1 @@\nbody";
      ReviewComments([("a.py", FileEntry([e1, e2, e3], [DiffBlock(diff, ["checkerA"])]))]) ==
        Ok([Comment("a.py", "checkerA", 1, Some(1)), ErrorComment(e1), ErrorComment(e3)])
  {
    var e1, e2, e3 := ErrorRecord("a.py", "E1", "Lint", 5), ErrorRecord("a.py", "E1", "Style", 5),
                      ErrorRecord("a.py", "E2", "Lint", 9);
    ExampleDiff([e1, e2, e3]);
    DedupExample(e1, e2, e3);
    assert [Comment("a.py", "checkerA", 1, Some(1))] + [ErrorComment(e1), ErrorComment(e3)] ==
      [Comment("a.py", "checkerA", 1, Some(1)), ErrorComment(e1), ErrorComment(e3)];
  }

  lemma ExampleDiffText()
    ensures var head, body := "--- a/a.py\n+++ b/a.py\n", "\nbody";
      Preamble(head) && NoAtPair(body) && GroupsValid(Groups("1", "1", "1", "1")) &&
      head + (AnchorText(Groups("1", "1", "1", "1"), ' ') + " @@") + body ==
        "--- a/a.py\n+++ b/a.py\n@@ -1,1 +1,1 @@\nbody"
  {
    ExampleHeaderText();
    ExampleParts();
  }

  lemma ExampleHeaderText()
    ensures AnchorText(Groups("1", "1", "1", "1"), ' ') + " @@" == "@@ -1,1 +1,1 @@"
  {
  }

  lemma ExampleParts()
    ensures Preamble("--- a/a.py\n+++ b/a.py\n") && NoAtPair("\nbody")
  {
  }

  lemma ExampleDiff(errors: seq<ErrorRecord>)
    ensures var diff := "--- a/a.py\n+++ b/a.py\n@@ -1,1 +1,1 @@\nbody";
      ReviewComments([("a.py", FileEntry(errors, [DiffBlock(diff, ["checkerA"])]))]) ==
        Ok([Comment("a.py", "checkerA", 1, Some(1))] + ErrorComments(errors))
  {
    var head, body := "--- a/a.py\n+++ b/a.py\n", "\nbody";
    var g := Groups("1", "1", "1", "1");
    ExampleDiffText();
    assert DecimalValue("1") == 1;
    assert Join(["checkerA"], "\n") == "checkerA";
    SingleHunkReview("a.py", head, g, ' ', body, ["checkerA"], errors);
  }

  /**
   * The header git writes with a section heading, `@@ -1 +1 @@ def f():`,
   * has no counts, so a file whose diff holds it fails the run.
   */
  lemma SectionHeadingFailsReview(checkers: seq<string>, errors: seq<ErrorRecord>)
    ensures var diff := "--- a/x.py\n+++ b/x.py\n@@ -1 +1 @@ def f():\n-x\n+y\n";
      ReviewComments([("x.py", FileEntry(errors, [DiffBlock(diff, checkers)]))]) == Err(AnchorNotFound("x.py", diff))
  {
    var head, body := "--- a/x.py\n+++ b/x.py\n", " def f():\n-x\n+y\n";
    SectionHeadingParts();
    NoCountHeaderFailsReview("x.py", head, "1", "1", body, checkers, errors);
    SectionHeadingText();
  }

  lemma SectionHeadingText()
    ensures "--- a/x.py\n+++ b/x.py\n" + ("@@ -" + "1" + " +" + "1" + " @@") + " def f():\n-x\n+y\n" ==
      "--- a/x.py\n+++ b/x.py\n@@ -1 +1 @@ def f():\n-x\n+y\n"
  {
  }

  lemma SectionHeadingParts()
    ensures Preamble("--- a/x.py\n+++ b/x.py\n") && NoAtPair(" def f():\n-x\n+y\n") && AllDigits("1")
  {
  }
}
