/**
 * The error deduplicator of src/main.ts:27-42: keep an error only when it
 * is the first one with its (message, line) pair, then turn each survivor
 * into a single-line comment.
 */
module ErrorDedup {
  import opened Wrappers
  import opened Report

  /** The identity of an error: `message` and `line`, nothing else. */
  datatype Key = Key(message: string, line: int)

  function KeyOf(e: ErrorRecord): Key {
    Key(e.message, e.line)
  }

  /** The keys of a list of errors. */
  ghost function Keys(errors: seq<ErrorRecord>): set<Key> {
    set i | 0 <= i < |errors| :: KeyOf(errors[i])
  }

  /**
   * `self.findIndex(obj => obj.message === val.message && obj.line === val.line)`
   * started at `from`: the first index with key `k`, or -1.
   */
  function FindIndexFrom(self: seq<ErrorRecord>, k: Key, from: nat): (r: int)
    requires from <= |self|
    ensures r == -1 || from <= r < |self|
    ensures r == -1 ==> forall j :: from <= j < |self| ==> KeyOf(self[j]) != k
    ensures r >= 0 ==> KeyOf(self[r]) == k && forall j :: from <= j < r ==> KeyOf(self[j]) != k
    decreases |self| - from
  {
    if from == |self| then -1
    else if KeyOf(self[from]) == k then from
    else FindIndexFrom(self, k, from + 1)
  }

  /** The filter callback: the element at `index` is the one `findIndex` finds; the first error is always kept. */
  predicate KeepAt(self: seq<ErrorRecord>, index: nat)
    requires index < |self|
    ensures index == 0 ==> KeepAt(self, index)
  {
    FindIndexFrom(self, KeyOf(self[index]), 0) == index
  }

  /** No earlier error has the same key. */
  ghost predicate FirstOccurrence(self: seq<ErrorRecord>, i: nat)
    requires i < |self|
  {
    forall j :: 0 <= j < i ==> KeyOf(self[j]) != KeyOf(self[i])
  }

  /** The filter keeps an error exactly when it is the first with its key. */
  lemma KeepAtIffFirst(self: seq<ErrorRecord>, i: nat)
    requires i < |self|
    ensures KeepAt(self, i) <==> FirstOccurrence(self, i)
  {
  }

  /** Whether the filter keeps position `i` depends only on positions up to `i`. */
  lemma KeepAtPrefix(xs: seq<ErrorRecord>, ys: seq<ErrorRecord>, i: nat)
    requires i < |xs|
    ensures KeepAt(xs + ys, i) == KeepAt(xs, i)
  {
    KeepAtIffFirst(xs + ys, i);
    KeepAtIffFirst(xs, i);
    assert forall j :: 0 <= j <= i ==> (xs + ys)[j] == xs[j];
  }

  /** `self.filter(...)` applied to the first `n` elements of `self`. */
  function FilterUpTo(self: seq<ErrorRecord>, n: nat): (r: seq<ErrorRecord>)
    requires n <= |self|
    ensures |r| <= n
    ensures n > 0 ==> r != [] && r[0] == self[0]
  {
    if n == 0 then []
    else FilterUpTo(self, n - 1) + (if KeepAt(self, n - 1) then [self[n - 1]] else [])
  }

  /** The errors that survive deduplication, in input order. */
  function Dedup(errors: seq<ErrorRecord>): (r: seq<ErrorRecord>)
    ensures |r| <= |errors|
    ensures errors != [] ==> r != [] && r[0] == errors[0]
  {
    FilterUpTo(errors, |errors|)
  }

  /** What the filter decides on a prefix does not depend on what follows it. */
  lemma {:induction false} FilterPrefix(xs: seq<ErrorRecord>, ys: seq<ErrorRecord>, n: nat)
    requires n <= |xs|
    ensures FilterUpTo(xs + ys, n) == FilterUpTo(xs, n)
  {
    if n > 0 {
      FilterPrefix(xs, ys, n - 1);
      KeepAtPrefix(xs, ys, n - 1);
      assert (xs + ys)[n - 1] == xs[n - 1];
    }
  }

  /**
   * Deduplication, one error at a time: an error whose key was seen before
   * is dropped, whatever its source class and file path; an error with a
   * new key is kept at the end.
   */
  lemma DedupSnoc(xs: seq<ErrorRecord>, e: ErrorRecord)
    ensures KeyOf(e) in Keys(xs) ==> Dedup(xs + [e]) == Dedup(xs)
    ensures KeyOf(e) !in Keys(xs) ==> Dedup(xs + [e]) == Dedup(xs) + [e]
  {
    var s := xs + [e];
    FilterPrefix(xs, [e], |xs|);
    KeepAtIffFirst(s, |xs|);
    assert s[|xs|] == e;
    assert forall j :: 0 <= j < |xs| ==> s[j] == xs[j];
    if KeyOf(e) in Keys(xs) {
      var j :| 0 <= j < |xs| && KeyOf(xs[j]) == KeyOf(e);
      assert !FirstOccurrence(s, |xs|);
    } else {
      assert FirstOccurrence(s, |xs|);
    }
  }

  lemma KeysSnoc(xs: seq<ErrorRecord>, e: ErrorRecord)
    ensures Keys(xs + [e]) == Keys(xs) + {KeyOf(e)}
  {
    var s := xs + [e];
    assert forall j :: 0 <= j < |xs| ==> s[j] == xs[j];
    assert s[|xs|] == e;
  }

  /** Deduplication keeps every key, and only the keys of the input. */
  lemma {:induction false} DedupKeys(errors: seq<ErrorRecord>)
    ensures Keys(Dedup(errors)) == Keys(errors)
    decreases |errors|
  {
    if errors != [] {
      var xs, e := errors[..|errors| - 1], errors[|errors| - 1];
      assert errors == xs + [e];
      DedupKeys(xs);
      DedupSnoc(xs, e);
      KeysSnoc(xs, e);
      if KeyOf(e) !in Keys(xs) {
        KeysSnoc(Dedup(xs), e);
      }
    }
  }

  /** No two survivors share a (message, line) pair. */
  lemma {:induction false} DedupDistinct(errors: seq<ErrorRecord>)
    ensures var d := Dedup(errors);
      forall a, b :: 0 <= a < b < |d| ==> KeyOf(d[a]) != KeyOf(d[b])
    decreases |errors|
  {
    if errors != [] {
      var xs, e := errors[..|errors| - 1], errors[|errors| - 1];
      assert errors == xs + [e];
      DedupDistinct(xs);
      DedupSnoc(xs, e);
      if KeyOf(e) !in Keys(xs) {
        DedupKeys(xs);
        var d := Dedup(xs);
        forall a | 0 <= a < |d| ensures KeyOf(d[a]) != KeyOf(e) {
          assert KeyOf(d[a]) in Keys(d);
        }
      }
    }
  }

  /** A list whose keys are already distinct passes through unchanged. */
  lemma {:induction false} DedupOfDistinct(errors: seq<ErrorRecord>)
    requires forall a, b :: 0 <= a < b < |errors| ==> KeyOf(errors[a]) != KeyOf(errors[b])
    ensures Dedup(errors) == errors
    decreases |errors|
  {
    if errors != [] {
      var xs, e := errors[..|errors| - 1], errors[|errors| - 1];
      assert errors == xs + [e];
      DedupOfDistinct(xs);
      DedupSnoc(xs, e);
      assert KeyOf(e) !in Keys(xs);
    }
  }

  /** Deduplicating twice is deduplicating once. */
  lemma DedupIdempotent(errors: seq<ErrorRecord>)
    ensures Dedup(Dedup(errors)) == Dedup(errors)
  {
    DedupDistinct(errors);
    DedupOfDistinct(Dedup(errors));
  }

  /** The positions of the first occurrences among the first `n` errors, in order. */
  ghost function FirstIndices(errors: seq<ErrorRecord>, n: nat): seq<nat>
    requires n <= |errors|
  {
    if n == 0 then []
    else FirstIndices(errors, n - 1) + (if FirstOccurrence(errors, n - 1) then [n - 1] else [])
  }

  /** The first-occurrence positions are increasing and are all of them. */
  lemma {:induction false} FirstIndicesAreFirstOccurrences(errors: seq<ErrorRecord>, n: nat)
    requires n <= |errors|
    ensures var idx := FirstIndices(errors, n);
      (forall k :: 0 <= k < |idx| ==> idx[k] < n) &&
      (forall k, l :: 0 <= k < l < |idx| ==> idx[k] < idx[l]) &&
      (forall i :: 0 <= i < n ==> (FirstOccurrence(errors, i) <==> i in idx))
  {
    if n > 0 {
      FirstIndicesAreFirstOccurrences(errors, n - 1);
      var idx0 := FirstIndices(errors, n - 1);
      assert n - 1 !in idx0;
      if FirstOccurrence(errors, n - 1) {
        assert FirstIndices(errors, n) == idx0 + [n - 1];
      }
    }
  }

  /**
   * The survivors are exactly the first occurrences, in input order: the
   * `k`-th survivor is the error at the `k`-th first-occurrence position.
   */
  lemma {:induction false} DedupIsFirstOccurrences(errors: seq<ErrorRecord>, n: nat)
    requires n <= |errors|
    ensures var d, idx := FilterUpTo(errors, n), FirstIndices(errors, n);
      |d| == |idx| &&
      forall k :: 0 <= k < |idx| ==> idx[k] < n && d[k] == errors[idx[k]]
  {
    if n > 0 {
      DedupIsFirstOccurrences(errors, n - 1);
      KeepAtIffFirst(errors, n - 1);
    }
  }

  /** The comment for one surviving error (src/main.ts:36-41): single-line, no start line. */
  function ErrorComment(e: ErrorRecord): (c: Comment)
    ensures c.startLine.None? && c.path == e.filePath && c.line == e.line
  {
    Comment(e.filePath, e.message + "\n\nSource: " + e.sourceClass, e.line, None)
  }

  /** The comments for a file's errors: the survivors of deduplication, mapped. */
  function ErrorComments(errors: seq<ErrorRecord>): (cs: seq<Comment>)
    ensures |cs| <= |errors|
    ensures forall c :: c in cs ==> c.startLine.None?
  {
    var d := Dedup(errors);
    seq(|d|, i requires 0 <= i < |d| => ErrorComment(d[i]))
  }

  /**
   * Two errors with the same message and line give one comment, built from
   * the first of them: its path and source class, not the second's.
   */
  lemma DuplicatesCollapse(a: ErrorRecord, b: ErrorRecord)
    requires KeyOf(a) == KeyOf(b)
    ensures ErrorComments([a, b]) == [ErrorComment(a)]
  {
    DedupSnoc([], a);
    assert Keys([a]) == {KeyOf(a)};
    DedupSnoc([a], b);
    assert [a] + [b] == [a, b];
    assert [] + [a] == [a];
  }

  /**
   * Two errors with the same message and line, then one with another
   * message: the first and the third survive, and the first keeps its own
   * source class.
   */
  lemma DedupExample(e1: ErrorRecord, e2: ErrorRecord, e3: ErrorRecord)
    requires KeyOf(e1) == KeyOf(e2) && KeyOf(e3) != KeyOf(e1)
    ensures Dedup([e1, e2, e3]) == [e1, e3]
    ensures ErrorComments([e1, e2, e3]) == [ErrorComment(e1), ErrorComment(e3)]
  {
    DedupSnoc([], e1);
    assert [] + [e1] == [e1];
    assert Keys([e1]) == {KeyOf(e1)};
    DedupSnoc([e1], e2);
    assert [e1] + [e2] == [e1, e2];
    KeysSnoc([e1], e2);
    DedupSnoc([e1, e2], e3);
    assert [e1, e2] + [e3] == [e1, e2, e3];
  }
}
