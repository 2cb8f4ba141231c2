/**
 * Splitting a raw unified diff into standalone per-hunk patches
 * (src/main.ts:46-54).
 *
 * `diff.split(/(@@[0-9\s,+-]+@@)/)` is modelled in two phases: `MatchSpans`
 * scans for the header matches exactly as the split algorithm of JavaScript
 * does (try to match at each position from left to right, resume after a
 * match), and `Split` slices the text at those spans, keeping the headers
 * because the pattern is one capturing group. The loop that drains the
 * token array two at a time is the method `SplitIntoPatches`.
 */
module HunkSplit {
  import opened Wrappers
  import opened JsText

  /** `[0-9\s,+-]` */
  predicate InHeaderClass(c: char)
    ensures InHeaderClass(c) ==> c != '@' && !('a' <= c <= 'z') && !('A' <= c <= 'Z')
  {
    IsDigit(c) || IsJsWhiteSpace(c) || c == ',' || c == '+' || c == '-'
  }

  /** The strings that `/@@[0-9\s,+-]+@@/` matches in full. */
  predicate IsHeader(t: string)
    ensures IsHeader(t) ==> |t| >= 5 && t[2] != '@' && t[|t| - 3] != '@'
  {
    |t| >= 5 && t[0] == '@' && t[1] == '@' && t[|t| - 2] == '@' && t[|t| - 1] == '@' &&
    forall i :: 2 <= i < |t| - 2 ==> InHeaderClass(t[i])
  }

  /** Length of the longest run of header-class characters in `s` from `i`. */
  function ClassRun(s: string, i: nat): (n: nat)
    requires i <= |s|
    ensures i + n <= |s|
    ensures forall k :: i <= k < i + n ==> InHeaderClass(s[k])
    ensures i + n == |s| || !InHeaderClass(s[i + n])
    decreases |s| - i
  {
    if i < |s| && InHeaderClass(s[i]) then 1 + ClassRun(s, i + 1) else 0
  }

  /**
   * Any header match starting at `q` ends right after the class run that
   * starts at `q + 2`: `@` is not in the class, so the run cannot be cut
   * short or extended.
   */
  lemma HeaderEndsAfterRun(s: string, q: nat)
    requires q <= |s|
    ensures forall e :: q <= e <= |s| && IsHeader(s[q..e]) ==> ClassRun(s, q + 2) == e - q - 4
  {
    forall e | q <= e <= |s| && IsHeader(s[q..e]) ensures ClassRun(s, q + 2) == e - q - 4 {
      var t := s[q..e];
      var m := ClassRun(s, q + 2);
      assert forall k :: 2 <= k < |t| - 2 ==> t[k] == s[q + k];
    }
  }

  /**
   * The sticky match of the header pattern at position `q`: the end of the
   * match, or `None`. It finds a match exactly when some `s[q..e]` is a
   * header, and then that `e`, which is unique.
   */
  function HeaderAt(s: string, q: nat): (r: Option<nat>)
    requires q <= |s|
    ensures r.Some? ==> q < r.value <= |s| && IsHeader(s[q..r.value])
    ensures forall e :: q <= e <= |s| && IsHeader(s[q..e]) ==> r == Some(e)
  {
    HeaderEndsAfterRun(s, q);
    if q + 2 <= |s| && s[q] == '@' && s[q + 1] == '@' then
      var m := ClassRun(s, q + 2);
      if m > 0 && q + m + 4 <= |s| && s[q + m + 2] == '@' && s[q + m + 3] == '@' then
        assert IsHeader(s[q..q + m + 4]) by {
          var t := s[q..q + m + 4];
          assert t[0] == s[q] && t[1] == s[q + 1] && t[|t| - 2] == s[q + m + 2] && t[|t| - 1] == s[q + m + 3];
          forall i | 2 <= i < |t| - 2 ensures InHeaderClass(t[i]) {
            assert t[i] == s[q + i];
          }
        }
        Some(q + m + 4)
      else
        None
    else
      None
  }

  /** Where one header match lies in the diff text: `s[start..end]`. */
  datatype Span = Span(start: nat, end: nat)

  /** The spans lie inside `s[from..]`, in order, without overlapping. */
  predicate WellPlaced(s: string, from: nat, sp: seq<Span>) {
    forall i :: 0 <= i < |sp| ==>
      from <= sp[i].start < sp[i].end <= |s| &&
      forall j :: i < j < |sp| ==> sp[i].end <= sp[j].start
  }

  /**
   * The header matches found from position `q` on: the split algorithm
   * tries a match at every position, skips one character when there is
   * none, and resumes at the end of each match it finds.
   */
  function SpansFrom(s: string, q: nat): (sp: seq<Span>)
    requires q <= |s|
    ensures WellPlaced(s, q, sp)
    ensures forall i :: 0 <= i < |sp| ==> IsHeader(s[sp[i].start..sp[i].end])
    decreases |s| - q
  {
    if q == |s| then []
    else
      match HeaderAt(s, q)
      case None => SpansFrom(s, q + 1)
      case Some(e) => [Span(q, e)] + SpansFrom(s, e)
  }

  /** All header matches of the diff text, left to right. */
  function MatchSpans(s: string): (sp: seq<Span>)
    ensures WellPlaced(s, 0, sp)
    ensures forall i :: 0 <= i < |sp| ==> IsHeader(s[sp[i].start..sp[i].end])
  {
    SpansFrom(s, 0)
  }

  /** No header match starts anywhere in `s[lo..hi]` (it may end beyond `hi`). */
  ghost predicate NoHeaderStartsIn(s: string, lo: nat, hi: nat) {
    forall q, e :: lo <= q < hi && q <= e <= |s| ==> !IsHeader(s[q..e])
  }

  /**
   * Declarative reading of "the leftmost, non-overlapping header matches
   * from `from` on": each span is a header, no header starts between the
   * previous match (or `from`) and the span, and none after the last one.
   */
  ghost predicate Leftmost(s: string, from: nat, sp: seq<Span>)
    decreases |sp|
  {
    from <= |s| &&
    if sp == [] then NoHeaderStartsIn(s, from, |s|)
    else
      from <= sp[0].start <= sp[0].end <= |s| &&
      IsHeader(s[sp[0].start..sp[0].end]) &&
      NoHeaderStartsIn(s, from, sp[0].start) &&
      Leftmost(s, sp[0].end, sp[1..])
  }

  lemma NoHeaderStartsBefore(s: string, q: nat, hi: nat)
    requires q < |s| && HeaderAt(s, q).None? && NoHeaderStartsIn(s, q + 1, hi)
    ensures NoHeaderStartsIn(s, q, hi)
  {
    forall q', e | q <= q' < hi && q' <= e <= |s| ensures !IsHeader(s[q'..e]) {
    }
  }

  lemma SpansFromSkip(s: string, q: nat)
    requires q < |s| && HeaderAt(s, q).None?
    ensures SpansFrom(s, q) == SpansFrom(s, q + 1)
  {
  }

  lemma SpansFromTake(s: string, q: nat)
    requires q < |s| && HeaderAt(s, q).Some?
    ensures SpansFrom(s, q) == [Span(q, HeaderAt(s, q).value)] + SpansFrom(s, HeaderAt(s, q).value)
  {
  }

  lemma LeftmostSkip(s: string, q: nat, sp: seq<Span>)
    requires q < |s| && HeaderAt(s, q).None? && Leftmost(s, q + 1, sp)
    ensures Leftmost(s, q, sp)
  {
    NoHeaderStartsBefore(s, q, NextStart(s, sp, 0));
  }

  lemma LeftmostTake(s: string, q: nat, sp: seq<Span>)
    requires q < |s| && HeaderAt(s, q).Some? && Leftmost(s, HeaderAt(s, q).value, sp)
    ensures Leftmost(s, q, [Span(q, HeaderAt(s, q).value)] + sp)
  {
    var sp' := [Span(q, HeaderAt(s, q).value)] + sp;
    assert sp'[1..] == sp;
  }

  lemma {:induction false} SpansAreLeftmost(s: string, q: nat)
    requires q <= |s|
    ensures Leftmost(s, q, SpansFrom(s, q))
    decreases |s| - q
  {
    if q < |s| {
      if HeaderAt(s, q).None? {
        SpansAreLeftmost(s, q + 1);
        LeftmostSkip(s, q, SpansFrom(s, q + 1));
        SpansFromSkip(s, q);
      } else {
        SpansAreLeftmost(s, HeaderAt(s, q).value);
        LeftmostTake(s, q, SpansFrom(s, HeaderAt(s, q).value));
        SpansFromTake(s, q);
      }
    }
  }

  /** The first span of a leftmost list is the match the scanner finds at its start. */
  lemma LeftmostFirst(s: string, q: nat, sp: seq<Span>)
    requires q < |s| && Leftmost(s, q, sp)
    ensures HeaderAt(s, q).Some? ==>
      sp != [] && sp[0] == Span(q, HeaderAt(s, q).value) && Leftmost(s, sp[0].end, sp[1..])
    ensures HeaderAt(s, q).None? ==> Leftmost(s, q + 1, sp)
  {
    var r := HeaderAt(s, q);
    if r.Some? {
      assert IsHeader(s[q..r.value]);
      assert sp != [] && sp[0].start == q;
      assert IsHeader(s[sp[0].start..sp[0].end]);
    } else if sp != [] {
      assert sp[0].start != q;
    }
  }

  lemma LeftmostSkipBack(s: string, q: nat, sp: seq<Span>)
    requires q < |s| && HeaderAt(s, q).None? && Leftmost(s, q, sp)
    ensures Leftmost(s, q + 1, sp)
  {
    LeftmostFirst(s, q, sp);
  }

  lemma LeftmostTakeBack(s: string, q: nat, sp: seq<Span>)
    requires q < |s| && HeaderAt(s, q).Some? && Leftmost(s, q, sp)
    ensures sp != [] && sp[0] == Span(q, HeaderAt(s, q).value) && Leftmost(s, HeaderAt(s, q).value, sp[1..])
  {
    LeftmostFirst(s, q, sp);
  }

  lemma {:induction false} LeftmostIsSpans(s: string, q: nat, sp: seq<Span>)
    requires Leftmost(s, q, sp)
    ensures sp == SpansFrom(s, q)
    decreases |s| - q
  {
    if q == |s| {
      LeftmostAtEnd(s, sp);
    } else if HeaderAt(s, q).None? {
      LeftmostSkipBack(s, q, sp);
      LeftmostIsSpans(s, q + 1, sp);
      SpansFromSkip(s, q);
    } else {
      var e := HeaderAt(s, q).value;
      LeftmostTakeBack(s, q, sp);
      LeftmostIsSpans(s, e, sp[1..]);
      SpansFromTake(s, q);
      TakeEq(sp, Span(q, e), SpansFrom(s, e));
    }
  }

  lemma TakeEq(sp: seq<Span>, x: Span, rest: seq<Span>)
    requires sp != [] && sp[0] == x && sp[1..] == rest
    ensures sp == [x] + rest
  {
    assert sp == [sp[0]] + sp[1..];
  }

  lemma LeftmostAtEnd(s: string, sp: seq<Span>)
    requires Leftmost(s, |s|, sp)
    ensures sp == []
  {
  }

  /** The scanner finds exactly the leftmost header matches, and no others. */
  lemma MatchSpansCharacterized(s: string, sp: seq<Span>)
    ensures Leftmost(s, 0, sp) <==> sp == MatchSpans(s)
  {
    SpansAreLeftmost(s, 0);
    if Leftmost(s, 0, sp) {
      LeftmostIsSpans(s, 0, sp);
    }
  }

  /** Slices `s[p..]` at the spans, keeping each matched header as a token. */
  function TokensFrom(s: string, p: nat, sp: seq<Span>): (ts: seq<string>)
    requires p <= |s| && WellPlaced(s, p, sp)
    ensures |ts| == 2 * |sp| + 1
    decreases |sp|
  {
    if sp == [] then [s[p..]]
    else [s[p..sp[0].start], s[sp[0].start..sp[0].end]] + TokensFrom(s, sp[0].end, sp[1..])
  }

  /** `s.split(/(@@[0-9\s,+-]+@@)/)`: text, header, text, header, ..., text. */
  function Split(s: string): (ts: seq<string>)
    ensures |ts| == 2 * |MatchSpans(s)| + 1
  {
    TokensFrom(s, 0, MatchSpans(s))
  }

  /** Where the text token after span `i` ends: at the next span, or at the end of `s`. */
  function NextStart(s: string, sp: seq<Span>, i: nat): nat {
    if i < |sp| then sp[i].start else |s|
  }

  lemma TokensFirst(s: string, p: nat, sp: seq<Span>)
    requires p <= |s| && WellPlaced(s, p, sp)
    ensures TokensFrom(s, p, sp)[0] == s[p..NextStart(s, sp, 0)]
  {
  }

  lemma {:induction false} TokenPair(s: string, p: nat, sp: seq<Span>, i: nat)
    requires p <= |s| && WellPlaced(s, p, sp) && i < |sp|
    ensures TokensFrom(s, p, sp)[2 * i + 1] == s[sp[i].start..sp[i].end]
    ensures TokensFrom(s, p, sp)[2 * i + 2] == s[sp[i].end..NextStart(s, sp, i + 1)]
    decreases i
  {
    var ts, rest := TokensFrom(s, p, sp), sp[1..];
    var tr := TokensFrom(s, sp[0].end, rest);
    assert ts == [s[p..sp[0].start], s[sp[0].start..sp[0].end]] + tr;
    if i > 0 {
      TokenPair(s, sp[0].end, rest, i - 1);
      assert ts[2 * i + 1] == tr[2 * (i - 1) + 1];
      assert ts[2 * i + 2] == tr[2 * (i - 1) + 2];
      assert NextStart(s, sp, i + 1) == NextStart(s, rest, i);
    } else {
      assert ts[2] == tr[0];
      TokensFirst(s, sp[0].end, rest);
    }
  }

  lemma {:induction false} TokensAt(s: string, p: nat, sp: seq<Span>)
    requires p <= |s| && WellPlaced(s, p, sp)
    ensures TokensFrom(s, p, sp)[0] == s[p..NextStart(s, sp, 0)]
    ensures forall i :: 0 <= i < |sp| ==>
      TokensFrom(s, p, sp)[2 * i + 1] == s[sp[i].start..sp[i].end] &&
      TokensFrom(s, p, sp)[2 * i + 2] == s[sp[i].end..NextStart(s, sp, i + 1)]
  {
    TokensFirst(s, p, sp);
    forall i | 0 <= i < |sp|
      ensures TokensFrom(s, p, sp)[2 * i + 1] == s[sp[i].start..sp[i].end]
      ensures TokensFrom(s, p, sp)[2 * i + 2] == s[sp[i].end..NextStart(s, sp, i + 1)]
    {
      TokenPair(s, p, sp, i);
    }
  }

  lemma {:induction false} TokensConcat(s: string, p: nat, sp: seq<Span>)
    requires p <= |s| && WellPlaced(s, p, sp)
    ensures Concat(TokensFrom(s, p, sp)) == s[p..]
    decreases |sp|
  {
    if sp == [] {
      assert Concat([s[p..]]) == s[p..] + Concat([]);
    } else {
      var a, b := sp[0].start, sp[0].end;
      TokensConcat(s, b, sp[1..]);
      var head := [s[p..a], s[a..b]];
      ConcatAppend(head, TokensFrom(s, b, sp[1..]));
      assert Concat(head) == s[p..a] + (s[a..b] + Concat([]));
      assert s[p..] == s[p..a] + s[a..b] + s[b..];
    }
  }

  /** Joining the tokens of the split gives back the diff text. */
  lemma SplitLossless(s: string)
    ensures Concat(Split(s)) == s
  {
    TokensConcat(s, 0, MatchSpans(s));
  }

  /**
   * The tokens of the split, in terms of the text: the preamble before the
   * first match, then each matched header and the text up to the next one.
   */
  lemma SplitTokens(s: string)
    ensures var sp, ts := MatchSpans(s), Split(s);
      ts[0] == s[..NextStart(s, sp, 0)] &&
      forall i :: 0 <= i < |sp| ==>
        ts[2 * i + 1] == s[sp[i].start..sp[i].end] && IsHeader(ts[2 * i + 1]) &&
        ts[2 * i + 2] == s[sp[i].end..NextStart(s, sp, i + 1)]
  {
    TokensAt(s, 0, MatchSpans(s));
  }

  /**
   * The standalone patches of a diff: for the `i`-th header match, the
   * preamble, that header and the text after it.
   */
  function Hunks(diff: string): (hs: seq<string>)
    ensures |hs| == |MatchSpans(diff)|
  {
    var ts, n := Split(diff), |MatchSpans(diff)|;
    seq(n, i requires 0 <= i < n => ts[0] + ts[2 * i + 1] + ts[2 * i + 2])
  }

  /**
   * One patch per header match, each preamble + header + body in text
   * order; a diff without a header match gives no patch at all.
   */
  lemma HunksOfDiff(diff: string)
    ensures var sp, hs := MatchSpans(diff), Hunks(diff);
      |hs| == |sp| &&
      forall i :: 0 <= i < |sp| ==>
        hs[i] == diff[..sp[0].start] + diff[sp[i].start..sp[i].end] + diff[sp[i].end..NextStart(diff, sp, i + 1)]
  {
    var sp := MatchSpans(diff);
    forall i | 0 <= i < |sp|
      ensures Hunks(diff)[i] == diff[..sp[0].start] + diff[sp[i].start..sp[i].end] + diff[sp[i].end..NextStart(diff, sp, i + 1)]
    {
      HunkAt(diff, i);
    }
  }

  lemma HunkAt(diff: string, i: nat)
    requires i < |MatchSpans(diff)|
    ensures var sp := MatchSpans(diff);
      Hunks(diff)[i] == diff[..sp[0].start] + diff[sp[i].start..sp[i].end] + diff[sp[i].end..NextStart(diff, sp, i + 1)]
  {
    var sp, ts := MatchSpans(diff), Split(diff);
    TokensAt(diff, 0, sp);
    assert Hunks(diff)[i] == ts[0] + ts[2 * i + 1] + ts[2 * i + 2];
    assert ts[0] == diff[0..NextStart(diff, sp, 0)];
    assert ts[2 * i + 1] == diff[sp[i].start..sp[i].end];
    assert ts[2 * i + 2] == diff[sp[i].end..NextStart(diff, sp, i + 1)];
  }

  /** A diff yields no patch exactly when no header match starts anywhere in it. */
  lemma NoHunksIffNoHeader(diff: string)
    ensures Hunks(diff) == [] <==> NoHeaderStartsIn(diff, 0, |diff|)
  {
    SpansAreLeftmost(diff, 0);
    if NoHeaderStartsIn(diff, 0, |diff|) {
      LeftmostIsSpans(diff, 0, []);
    }
    assert |Hunks(diff)| == |MatchSpans(diff)|;
  }

  /** A slice that breaks the outline `@@ c ... @@` is not a header match. */
  lemma NotHeader(s: string, q: nat, e: nat)
    requires q <= e <= |s|
    requires e < q + 5 || s[q] != '@' || s[q + 1] != '@' || s[e - 2] != '@' || s[e - 1] != '@' ||
      (s[q + 3] != '@' && !InHeaderClass(s[q + 3]))
    ensures !IsHeader(s[q..e])
  {
    if q + 5 <= e {
      var t := s[q..e];
      assert t[0] == s[q] && t[1] == s[q + 1] && t[|t| - 2] == s[e - 2] && t[|t| - 1] == s[e - 1];
      assert t[3] == s[q + 3];
    }
  }

  /** No header match starts inside a preamble, whatever follows it. */
  lemma HeadNoHeader(head: string, rest: string, q: nat, e: nat)
    requires Preamble(head) && q < |head| && q <= e <= |head + rest|
    ensures !IsHeader((head + rest)[q..e])
  {
    var s := head + rest;
    if e >= q + 5 {
      if q + 1 < |head| {
        assert s[q] == head[q] && s[q + 1] == head[q + 1];
        assert !AtPairAt(head, q);
      } else {
        assert s[q] == head[q];
      }
    }
    NotHeader(s, q, e);
  }

  /** No header match starts inside text without `@@`, at the end of a string. */
  lemma TailNoHeader(front: string, body: string, q: nat, e: nat)
    requires NoAtPair(body) && |front| <= q <= e <= |front + body|
    ensures !IsHeader((front + body)[q..e])
  {
    var s := front + body;
    if e >= q + 5 {
      var i := q - |front|;
      assert s[q] == body[i] && s[q + 1] == body[i + 1];
      assert !AtPairAt(body, i);
    }
    NotHeader(s, q, e);
  }

  /** A diff with exactly one header match is one patch, the whole diff. */
  lemma {:induction false} OneSpanIsWholeDiff(diff: string)
    requires |MatchSpans(diff)| == 1
    ensures Hunks(diff) == [diff]
  {
    var sp := MatchSpans(diff);
    var L, R := sp[0].start, sp[0].end;
    HunkAt(diff, 0);
    assert NextStart(diff, sp, 1) == |diff|;
    assert diff[..L] + diff[L..R] + diff[R..|diff|] == diff;
    var hs := Hunks(diff);
    assert |hs| == 1 && hs[0] == diff;
    assert hs == [diff];
  }

  lemma HeadHasNoHeader(head: string, rest: string)
    requires Preamble(head)
    ensures NoHeaderStartsIn(head + rest, 0, |head|)
  {
    forall q, e | 0 <= q < |head| && q <= e <= |head + rest| ensures !IsHeader((head + rest)[q..e]) {
      HeadNoHeader(head, rest, q, e);
    }
  }

  lemma TailHasNoHeader(front: string, body: string)
    requires NoAtPair(body)
    ensures NoHeaderStartsIn(front + body, |front|, |front + body|)
  {
    forall q, e | |front| <= q < |front + body| && q <= e <= |front + body| ensures !IsHeader((front + body)[q..e]) {
      TailNoHeader(front, body, q, e);
    }
  }

  /** `s[L..R]` is a header and no other header starts in `s` outside it. */
  ghost predicate OnlyHeader(s: string, L: nat, R: nat) {
    L <= R <= |s| && IsHeader(s[L..R]) && NoHeaderStartsIn(s, 0, L) && NoHeaderStartsIn(s, R, |s|)
  }

  /**
   * A preamble, a header and a body, with no `@@` in preamble or body and a
   * preamble not ending in `@`: the header is the diff's only header match.
   */
  lemma SingleHeader(head: string, header: string, body: string)
    requires Preamble(head) && IsHeader(header) && NoAtPair(body)
    ensures OnlyHeader(head + header + body, |head|, |head| + |header|)
  {
    var diff := head + header + body;
    assert diff[|head|..|head| + |header|] == header;
    HeadOfThree(head, header, body);
    TailHasNoHeader(head + header, body);
  }

  lemma HeadOfThree(head: string, header: string, body: string)
    requires Preamble(head)
    ensures NoHeaderStartsIn(head + header + body, 0, |head|)
  {
    Assoc(head, header, body);
    HeadHasNoHeader(head, header + body);
  }

  /** A diff whose only header match is `s[L..R]` is a single patch, the whole diff. */
  lemma SingleHunk(s: string, L: nat, R: nat)
    requires OnlyHeader(s, L, R)
    ensures MatchSpans(s) == [Span(L, R)] && Hunks(s) == [s]
  {
    assert [Span(L, R)][1..] == [];
    assert Leftmost(s, 0, [Span(L, R)]);
    MatchSpansCharacterized(s, [Span(L, R)]);
    OneSpanIsWholeDiff(s);
  }

  lemma WordLetters()
    ensures forall k :: 2 <= k < 14 ==> "@@ bad header @@"[k] != '@'
    ensures "@@ bad header @@"[3] == 'b'
  {
  }

  lemma {:induction false} WordHeaderNoMatchAt(head: string, body: string, q: nat, e: nat)
    requires Preamble(head) && NoAtPair(body)
    requires q <= e <= |head + "@@ bad header @@" + body|
    ensures !IsHeader((head + "@@ bad header @@" + body)[q..e])
  {
    var mid := "@@ bad header @@";
    var diff := head + mid + body;
    var L, R := |head|, |head| + |mid|;
    if q < L {
      Assoc(head, mid, body);
      HeadNoHeader(head, mid + body, q, e);
    } else if q >= R {
      TailNoHeader(head + mid, body, q, e);
    } else {
      WordLetters();
      if e < q + 5 {
      } else if q < L + 2 {
        assert diff[L + 3] == mid[3] && diff[L + 2] == mid[2];
      } else if q < R - 2 {
        assert diff[q] == mid[q - L];
      } else {
        assert diff[e - 2] == body[e - 2 - R] && diff[e - 1] == body[e - 1 - R];
        assert !AtPairAt(body, e - 2 - R);
      }
      NotHeader(diff, q, e);
    }
  }

  /**
   * A header with anything outside `[0-9\s,+-]` between its `@@`s, such as
   * `@@ bad header @@`, is not a match: with no other `@@` in the diff there
   * is no patch at all, and so nothing can fail.
   */
  lemma {:induction false} WordHeaderIsNoHunk(head: string, body: string)
    requires Preamble(head) && NoAtPair(body)
    ensures Hunks(head + "@@ bad header @@" + body) == []
  {
    var diff := head + "@@ bad header @@" + body;
    forall q, e | 0 <= q < |diff| && q <= e <= |diff| ensures !IsHeader(diff[q..e]) {
      WordHeaderNoMatchAt(head, body, q, e);
    }
    NoHunksIffNoHeader(diff);
  }

  lemma Concat3(a: string, b: string, c: string)
    ensures Concat([a, b, c]) == a + b + c
  {
    assert Concat([c]) == c + Concat([]);
    assert Concat([b, c]) == b + Concat([c]);
    assert [a, b, c][1..] == [b, c];
  }

  /**
   * The patch loop of src/main.ts:48-54: take the preamble token off the
   * front, then repeatedly take the next two tokens and push the preamble,
   * header and body joined together.
   */
  method SplitIntoPatches(diff: string) returns (patches: seq<string>)
    ensures patches == Hunks(diff)
  {
    var tokens := Split(diff);
    var head := tokens[..1];
    var rest := tokens[1..];
    patches := [];
    while |rest| > 0
      invariant |rest| % 2 == 0 && 2 * |patches| + |rest| + 1 == |tokens|
      invariant rest == tokens[2 * |patches| + 1..]
      invariant forall i :: 0 <= i < |patches| ==>
        patches[i] == tokens[0] + tokens[2 * i + 1] + tokens[2 * i + 2]
    {
      var n := if |rest| < 2 then |rest| else 2;
      Concat3(tokens[0], rest[0], rest[1]);
      assert head + rest[..n] == [tokens[0], rest[0], rest[1]];
      patches := patches + [Concat(head + rest[..n])];
      rest := rest[n..];
    }
  }
}
