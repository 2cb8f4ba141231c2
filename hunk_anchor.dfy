/**
 * Reading the anchor line range of one patch (src/main.ts:61-70).
 *
 * The patch is searched for the first match of
 * `/@@ \-([0-9]+)\,([0-9]+)\s\+([0-9]+)\,([0-9]+)/`; the first and third
 * groups are the old and new start lines, and the comment spans from the
 * smaller to the larger of the two. The counts are captured but unused. No
 * match means `match` returns null and the `.splice` on it throws.
 */
module HunkAnchor {
  import opened Wrappers
  import opened JsText

  /** The four capture groups: old start, old count, new start, new count. */
  datatype Groups = Groups(oldStart: string, oldCount: string, newStart: string, newCount: string)

  predicate GroupsValid(g: Groups) {
    |g.oldStart| > 0 && AllDigits(g.oldStart) && |g.oldCount| > 0 && AllDigits(g.oldCount) &&
    |g.newStart| > 0 && AllDigits(g.newStart) && |g.newCount| > 0 && AllDigits(g.newCount)
  }

  /**
   * The anchor pattern matched at the very start of `u` (a sticky match),
   * read piece by piece. Every `[0-9]+` takes the longest run of digits:
   * the first three because a non-digit must follow, the last because the
   * quantifier is greedy.
   */
  function ParseAnchor(u: string): (r: Option<Groups>)
    ensures r.Some? ==> GroupsValid(r.value)
  {
    if |u| >= 4 && u[0] == '@' && u[1] == '@' && u[2] == ' ' && u[3] == '-' then OldStart(u[4..]) else None
  }

  /** `([0-9]+)\,` and the rest of the pattern. */
  function OldStart(v: string): (r: Option<Groups>)
    ensures r.Some? ==> GroupsValid(r.value)
  {
    var (g1, u1) := Digits(v);
    if g1 != [] && u1 != [] && u1[0] == ',' then OldCount(g1, u1[1..]) else None
  }

  /** `([0-9]+)\s\+` and the rest of the pattern. */
  function OldCount(g1: string, v: string): (r: Option<Groups>)
    requires |g1| > 0 && AllDigits(g1)
    ensures r.Some? ==> GroupsValid(r.value) && r.value.oldStart == g1
  {
    var (g2, u2) := Digits(v);
    if g2 != [] && |u2| >= 2 && IsJsWhiteSpace(u2[0]) && u2[1] == '+' then NewStart(g1, g2, u2[2..]) else None
  }

  /** `([0-9]+)\,` and the rest of the pattern. */
  function NewStart(g1: string, g2: string, v: string): (r: Option<Groups>)
    requires |g1| > 0 && AllDigits(g1) && |g2| > 0 && AllDigits(g2)
    ensures r.Some? ==> GroupsValid(r.value) && r.value.oldStart == g1 && r.value.oldCount == g2
  {
    var (g3, u3) := Digits(v);
    if g3 != [] && u3 != [] && u3[0] == ',' then NewCount(g1, g2, g3, u3[1..]) else None
  }

  /** `([0-9]+)`, the last group. */
  function NewCount(g1: string, g2: string, g3: string, v: string): (r: Option<Groups>)
    requires |g1| > 0 && AllDigits(g1) && |g2| > 0 && AllDigits(g2) && |g3| > 0 && AllDigits(g3)
    ensures r.Some? ==> GroupsValid(r.value) && r.value.oldStart == g1 && r.value.oldCount == g2 && r.value.newStart == g3
  {
    var (g4, _) := Digits(v);
    if g4 != [] then Some(Groups(g1, g2, g3, g4)) else None
  }

  /** The sticky match at position `q` of `s`. */
  function AnchorAt(s: string, q: nat): (r: Option<Groups>)
    requires q <= |s|
    ensures r.Some? ==> GroupsValid(r.value) && q + 12 <= |s|
  {
    ParseAnchor(s[q..])
  }

  /** The text the anchor pattern matches for groups `g` and whitespace `w`. */
  function AnchorText(g: Groups, w: char): string {
    "@@ -" + g.oldStart + "," + g.oldCount + [w] + "+" + g.newStart + "," + g.newCount
  }

  /** `AnchorText(g, w) + post`, associated to the right so that it can be read front to back. */
  function AnchorTextThen(g: Groups, w: char, post: string): string {
    "@@ -" + (g.oldStart + ("," + (g.oldCount + ([w] + ("+" + (g.newStart + ("," + (g.newCount + post))))))))
  }

  lemma AnchorTextAppend(g: Groups, w: char, post: string)
    ensures AnchorText(g, w) + post == AnchorTextThen(g, w, post)
  {
    var x7 := g.newCount + post;
    var x6 := "," + x7;
    var x5 := g.newStart + x6;
    var x4 := "+" + x5;
    var x3 := [w] + x4;
    var x2 := g.oldCount + x3;
    var x1 := "," + x2;
    var x0 := g.oldStart + x1;
    var p0 := "@@ -";
    var p1 := p0 + g.oldStart;
    var p2 := p1 + ",";
    var p3 := p2 + g.oldCount;
    var p4 := p3 + [w];
    var p5 := p4 + "+";
    var p6 := p5 + g.newStart;
    var p7 := p6 + ",";
    Assoc(p7, g.newCount, post);
    Assoc(p6, ",", x7);
    Assoc(p5, g.newStart, x6);
    Assoc(p4, "+", x5);
    Assoc(p3, [w], x4);
    Assoc(p2, g.oldCount, x3);
    Assoc(p1, ",", x2);
    Assoc(p0, g.oldStart, x1);
  }

  lemma NewCountParses(g: Groups, post: string)
    requires GroupsValid(g) && (post == [] || !IsDigit(post[0]))
    ensures NewCount(g.oldStart, g.oldCount, g.newStart, g.newCount + post) == Some(g)
  {
    DigitsOf(g.newCount, post);
  }

  lemma NewStartParses(g: Groups, post: string)
    requires GroupsValid(g) && (post == [] || !IsDigit(post[0]))
    ensures NewStart(g.oldStart, g.oldCount, g.newStart + ("," + (g.newCount + post))) == Some(g)
  {
    var rest := "," + (g.newCount + post);
    DigitsOf(g.newStart, rest);
    assert rest[1..] == g.newCount + post;
    NewCountParses(g, post);
  }

  lemma OldCountParses(g: Groups, w: char, post: string)
    requires GroupsValid(g) && IsJsWhiteSpace(w) && (post == [] || !IsDigit(post[0]))
    ensures OldCount(g.oldStart, g.oldCount + ([w] + ("+" + (g.newStart + ("," + (g.newCount + post)))))) == Some(g)
  {
    var v := g.newStart + ("," + (g.newCount + post));
    var rest := [w] + ("+" + v);
    DigitsOf(g.oldCount, rest);
    assert rest[2..] == v;
    NewStartParses(g, post);
  }

  /**
   * Anchor-shaped text is matched, with exactly its own groups, whatever
   * follows it that does not extend the last number.
   */
  lemma AnchorTextParses(g: Groups, w: char, post: string)
    requires GroupsValid(g) && IsJsWhiteSpace(w)
    requires post == [] || !IsDigit(post[0])
    ensures ParseAnchor(AnchorText(g, w) + post) == Some(g)
  {
    var v := g.oldCount + ([w] + ("+" + (g.newStart + ("," + (g.newCount + post)))));
    var rest := "," + v;
    var u := "@@ -" + (g.oldStart + rest);
    AnchorTextAppend(g, w, post);
    assert AnchorText(g, w) + post == u;
    assert u[4..] == g.oldStart + rest;
    DigitsOf(g.oldStart, rest);
    assert rest[1..] == v;
    OldCountParses(g, w, post);
  }

  /** The stages of a successful match, read back as text (converse of the `...Parses` lemmas). */
  lemma NewCountShape(g1: string, g2: string, g3: string, v: string) returns (post: string)
    requires |g1| > 0 && AllDigits(g1) && |g2| > 0 && AllDigits(g2) && |g3| > 0 && AllDigits(g3)
    requires NewCount(g1, g2, g3, v).Some?
    ensures v == NewCount(g1, g2, g3, v).value.newCount + post && (post == [] || !IsDigit(post[0]))
  {
    post := Digits(v).1;
  }

  lemma NewStartShape(g1: string, g2: string, v: string) returns (post: string)
    requires |g1| > 0 && AllDigits(g1) && |g2| > 0 && AllDigits(g2) && NewStart(g1, g2, v).Some?
    ensures var g := NewStart(g1, g2, v).value;
      v == g.newStart + ("," + (g.newCount + post)) && (post == [] || !IsDigit(post[0]))
  {
    var (g3, u3) := Digits(v);
    post := NewCountShape(g1, g2, g3, u3[1..]);
    assert u3 == [u3[0]] + u3[1..];
  }

  lemma OldCountShape(g1: string, v: string) returns (w: char, post: string)
    requires |g1| > 0 && AllDigits(g1) && OldCount(g1, v).Some?
    ensures var g := OldCount(g1, v).value;
      v == g.oldCount + ([w] + ("+" + (g.newStart + ("," + (g.newCount + post))))) &&
      IsJsWhiteSpace(w) && (post == [] || !IsDigit(post[0]))
  {
    var (g2, u2) := Digits(v);
    w := u2[0];
    post := NewStartShape(g1, g2, u2[2..]);
    assert u2 == [w] + ([u2[1]] + u2[2..]);
  }

  lemma OldStartShape(v: string) returns (w: char, post: string)
    requires OldStart(v).Some?
    ensures var g := OldStart(v).value;
      v == g.oldStart + ("," + (g.oldCount + ([w] + ("+" + (g.newStart + ("," + (g.newCount + post))))))) &&
      IsJsWhiteSpace(w) && (post == [] || !IsDigit(post[0]))
  {
    var (g1, u1) := Digits(v);
    w, post := OldCountShape(g1, u1[1..]);
    assert u1 == [u1[0]] + u1[1..];
  }

  /**
   * A successful match is anchor-shaped text: the groups, the whitespace
   * that separates the two ranges, and a rest that does not start with a
   * digit.
   */
  lemma ParsedIsAnchorText(u: string)
    requires ParseAnchor(u).Some?
    ensures var g := ParseAnchor(u).value;
      var w := u[5 + |g.oldStart| + |g.oldCount|];
      var t := AnchorText(g, w);
      IsJsWhiteSpace(w) && |t| <= |u| && u[..|t|] == t &&
      (|t| == |u| || !IsDigit(u[|t|]))
  {
    var g := ParseAnchor(u).value;
    var w, post := OldStartShape(u[4..]);
    assert u == u[..4] + u[4..];
    assert u == AnchorTextThen(g, w, post);
    AnchorTextAppend(g, w, post);
    var t := AnchorText(g, w);
    assert u[..|t|] == t;
    assert u[5 + |g.oldStart| + |g.oldCount|] == w;
  }

  /**
   * The leftmost match from `q` on (`String.prototype.match` without the
   * global flag): its position and groups, or `None` when there is none.
   */
  function FindAnchorFrom(s: string, q: nat): (r: Option<(nat, Groups)>)
    requires q <= |s|
    ensures r.Some? ==>
      q <= r.value.0 <= |s| && AnchorAt(s, r.value.0) == Some(r.value.1) &&
      forall k :: q <= k < r.value.0 ==> AnchorAt(s, k).None?
    ensures r.None? ==> forall k :: q <= k <= |s| ==> AnchorAt(s, k).None?
    decreases |s| - q
  {
    var here := AnchorAt(s, q);
    if here.Some? then Some((q, here.value))
    else if q == |s| then None
    else
      var r := FindAnchorFrom(s, q + 1);
      assert forall k :: q <= k < q + 1 ==> AnchorAt(s, k).None?;
      r
  }

  /** The anchor range of a review comment built from a patch. */
  datatype Anchor = Anchor(startLine: nat, line: nat)

  /**
   * The anchor of a patch: from the smaller to the larger of the two start
   * lines of the first anchor match; `None` when the patch has no match.
   */
  function PatchAnchor(patch: string): (r: Option<Anchor>)
    ensures r.Some? <==> FindAnchorFrom(patch, 0).Some?
    ensures r.Some? ==>
      var g := FindAnchorFrom(patch, 0).value.1;
      r.value.startLine <= r.value.line &&
      {r.value.startLine, r.value.line} == {DecimalValue(g.oldStart), DecimalValue(g.newStart)}
  {
    match FindAnchorFrom(patch, 0)
    case None => None
    case Some((_, g)) =>
      var oldStart, newStart := DecimalValue(g.oldStart), DecimalValue(g.newStart);
      Some(Anchor(Min(oldStart, newStart), Max(oldStart, newStart)))
  }

  /**
   * Lines 63-67: `splices.push(matches.splice(0, 2))` until `matches` is
   * empty, which cuts the groups into consecutive pairs (the last one
   * shorter when their number is odd).
   */
  method PairUp<X>(groups: seq<X>) returns (splices: seq<seq<X>>)
    ensures |splices| == (|groups| + 1) / 2
    ensures forall i :: 0 <= i < |splices| ==> |splices[i]| == Min(2, |groups| - 2 * i)
    ensures forall i, j :: 0 <= i < |splices| && 0 <= j < |splices[i]| && 2 * i + j < |groups| ==>
      splices[i][j] == groups[2 * i + j]
  {
    var matches := groups;
    splices := [];
    while |matches| > 0
      invariant |splices| == (|groups| - |matches| + 1) / 2
      invariant |matches| % 2 == |groups| % 2 || matches == []
      invariant matches == groups[|groups| - |matches|..]
      invariant forall i :: 0 <= i < |splices| ==> |splices[i]| == Min(2, |groups| - 2 * i)
      invariant forall i, j :: 0 <= i < |splices| && 0 <= j < |splices[i]| && 2 * i + j < |groups| ==>
        splices[i][j] == groups[2 * i + j]
    {
      var n := if |matches| < 2 then |matches| else 2;
      splices := splices + [matches[..n]];
      matches := matches[n..];
    }
  }

  /**
   * Lines 61-70: match the patch, drop the whole-match entry, pair up the
   * four groups, and take the minimum and maximum of the two start lines.
   * `None` where the source throws.
   */
  method AnchorOf(patch: string) returns (r: Option<Anchor>)
    ensures r == PatchAnchor(patch)
  {
    var found := FindAnchorFrom(patch, 0);
    if found.None? {
      return None;
    }
    var g := found.value.1;
    var groups := [g.oldStart, g.oldCount, g.newStart, g.newCount];
    var splices := PairUp(groups);
    assert splices[0][0] == g.oldStart && splices[1][0] == g.newStart;
    var oldStart, newStart := DecimalValue(splices[0][0]), DecimalValue(splices[1][0]);
    r := Some(Anchor(Min(oldStart, newStart), Max(oldStart, newStart)));
  }

  /** The leftmost match from `q` on is at `p` when there is one at `p` and none before it. */
  lemma {:induction false} FirstAnchorAt(s: string, q: nat, p: nat, g: Groups)
    requires q <= p <= |s| && AnchorAt(s, p) == Some(g)
    requires forall k :: q <= k < p ==> AnchorAt(s, k).None?
    ensures FindAnchorFrom(s, q) == Some((p, g))
    decreases p - q
  {
    if q < p {
      assert AnchorAt(s, q).None?;
      FirstAnchorAt(s, q + 1, p, g);
    }
  }

  /** A position where the text does not read `@@ -` starts no match. */
  lemma NoAnchorAt(s: string, k: nat)
    requires k <= |s|
    requires k + 3 >= |s| || s[k] != '@' || s[k + 1] != '@' || s[k + 2] != ' ' || s[k + 3] != '-'
    ensures AnchorAt(s, k).None?
  {
    if k + 3 < |s| {
      assert s[k..][0] == s[k] && s[k..][1] == s[k + 1] && s[k..][2] == s[k + 2] && s[k..][3] == s[k + 3];
    }
  }

  /** No match starts inside a preamble, whatever follows it. */
  lemma HeadNoAnchor(head: string, rest: string, k: nat)
    requires Preamble(head) && k < |head|
    ensures AnchorAt(head + rest, k).None?
  {
    var s := head + rest;
    if k + 1 < |head| {
      assert s[k] == head[k] && s[k + 1] == head[k + 1];
      assert !AtPairAt(head, k);
    } else {
      assert s[k] == head[k];
    }
    NoAnchorAt(s, k);
  }

  /** No match starts in a suffix of the text that holds no `@@`. */
  lemma TailNoAnchor(s: string, from: nat, k: nat)
    requires from <= k <= |s| && NoAtPair(s[from..])
    ensures AnchorAt(s, k).None?
  {
    if k + 3 < |s| {
      var t, i := s[from..], k - from;
      assert t[i] == s[k] && t[i + 1] == s[k + 1];
      assert !AtPairAt(t, i);
    }
    NoAnchorAt(s, k);
  }

  /**
   * The anchor of a hunk (its preamble, an anchor-shaped header start and
   * the rest): the smaller and the larger of the two start lines, provided
   * no `@@` lies in the preamble or at its junction with the header, and
   * nothing after the new count extends it.
   */
  lemma {:induction false} AnchorOfHunk(head: string, g: Groups, w: char, post: string)
    requires Preamble(head)
    requires GroupsValid(g) && IsJsWhiteSpace(w)
    requires post == [] || !IsDigit(post[0])
    ensures var a, c := DecimalValue(g.oldStart), DecimalValue(g.newStart);
      PatchAnchor(head + (AnchorText(g, w) + post)) == Some(Anchor(Min(a, c), Max(a, c)))
  {
    var s := head + (AnchorText(g, w) + post);
    forall k | 0 <= k < |head| ensures AnchorAt(s, k).None? {
      HeadNoAnchor(head, AnchorText(g, w) + post, k);
    }
    assert s[|head|..] == AnchorText(g, w) + post;
    AnchorTextParses(g, w, post);
    FirstAnchorAt(s, 0, |head|, g);
  }

  /** The count fields play no part in the anchor. */
  lemma AnchorIgnoresCounts(head: string, g: Groups, oldCount: string, newCount: string, w: char, post: string)
    requires Preamble(head)
    requires GroupsValid(g) && IsJsWhiteSpace(w)
    requires |oldCount| > 0 && AllDigits(oldCount) && |newCount| > 0 && AllDigits(newCount)
    requires post == [] || !IsDigit(post[0])
    ensures var g' := Groups(g.oldStart, oldCount, g.newStart, newCount);
      PatchAnchor(head + (AnchorText(g', w) + post)) == PatchAnchor(head + (AnchorText(g, w) + post))
  {
    AnchorOfHunk(head, g, w, post);
    AnchorOfHunk(head, Groups(g.oldStart, oldCount, g.newStart, newCount), w, post);
  }

  /** Exchanging the old and the new range gives the same anchor. */
  lemma AnchorSymmetric(head: string, g: Groups, w: char, post: string)
    requires Preamble(head)
    requires GroupsValid(g) && IsJsWhiteSpace(w)
    requires post == [] || !IsDigit(post[0])
    ensures var g' := Groups(g.newStart, g.newCount, g.oldStart, g.oldCount);
      PatchAnchor(head + (AnchorText(g', w) + post)) == PatchAnchor(head + (AnchorText(g, w) + post))
  {
    AnchorOfHunk(head, g, w, post);
    AnchorOfHunk(head, Groups(g.newStart, g.newCount, g.oldStart, g.oldCount), w, post);
  }

  /** `@@ -10,5 +12,5 @@` anchors lines 10 to 12. */
  lemma AnchorExampleForward(head: string, body: string)
    requires Preamble(head)
    ensures PatchAnchor(head + ("@@ -10,5 +12,5" + (" @@" + body))) == Some(Anchor(10, 12))
  {
    var g := Groups("10", "5", "12", "5");
    assert AnchorText(g, ' ') == "@@ -10,5 +12,5";
    assert DecimalValue("10") == 10 by { assert "10"[..1] == "1"; }
    assert DecimalValue("12") == 12 by { assert "12"[..1] == "1"; }
    AnchorOfHunk(head, g, ' ', " @@" + body);
  }

  /** `@@ -20,3 +15,3 @@` anchors lines 15 to 20: the new start comes first. */
  lemma AnchorExampleBackward(head: string, body: string)
    requires Preamble(head)
    ensures PatchAnchor(head + ("@@ -20,3 +15,3" + (" @@" + body))) == Some(Anchor(15, 20))
  {
    var g := Groups("20", "3", "15", "3");
    assert AnchorText(g, ' ') == "@@ -20,3 +15,3";
    assert DecimalValue("20") == 20 by { assert "20"[..1] == "2"; }
    assert DecimalValue("15") == 15 by { assert "15"[..1] == "1"; }
    AnchorOfHunk(head, g, ' ', " @@" + body);
  }

  /** A match can only start at `@@ -`. */
  lemma AnchorStart(s: string, k: nat)
    requires k <= |s| && AnchorAt(s, k).Some?
    ensures k + 3 < |s| && s[k] == '@' && s[k + 1] == '@' && s[k + 2] == ' ' && s[k + 3] == '-'
  {
    assert s[k..][0] == s[k] && s[k..][1] == s[k + 1] && s[k..][2] == s[k + 2] && s[k..][3] == s[k + 3];
  }

  /** Inside `@@ -a +c @@`, only the two `@@` pairs hold an `@`. */
  lemma NoCountInner(a: string, c: string, body: string, j: nat)
    requires AllDigits(a) && AllDigits(c)
    requires 2 <= j < 7 + |a| + |c|
    ensures ("@@ -" + (a + (" +" + (c + (" @@" + body)))))[j] != '@'
  {
    var x3 := " @@" + body;
    var x2 := c + x3;
    var x1 := " +" + x2;
    var x0 := a + x1;
    var t := "@@ -" + x0;
    if j < 4 {
      assert t[j] == "@@ -"[j];
    } else if j < 4 + |a| {
      assert t[j] == a[j - 4];
    } else if j < 6 + |a| {
      assert t[j] == x1[j - 4 - |a|];
    } else if j < 6 + |a| + |c| {
      assert t[j] == c[j - 6 - |a|];
    } else {
      assert t[j] == x3[0];
    }
  }

  /** At the header's opening `@@ -` the first number is followed by a space, not a comma. */
  lemma NoCountOpening(s: string, L: nat, a: string, rest: string)
    requires L <= |s| && s[L..] == "@@ -" + (a + rest)
    requires AllDigits(a) && rest != [] && rest[0] == ' '
    ensures AnchorAt(s, L).None?
  {
    assert s[L..][4..] == a + rest;
    DigitsOf(a, rest);
  }

  /** Inside the header `@@ -a +c @@` no anchor starts after its opening `@`. */
  lemma NoCountInside(head: string, t: string, a: string, c: string, body: string, k: nat)
    requires t == "@@ -" + (a + (" +" + (c + (" @@" + body))))
    requires AllDigits(a) && AllDigits(c)
    requires |head| < k < |head| + 7 + |a| + |c|
    ensures AnchorAt(head + t, k).None?
  {
    var s, L := head + t, |head|;
    if k == L + 1 {
      NoCountInner(a, c, body, 2);
      assert s[k + 1] == t[2];
    } else {
      NoCountInner(a, c, body, k - L);
      assert s[k] == t[k - L];
    }
    NoAnchorAt(s, k);
  }

  /** At the closing `@@` no anchor starts unless the body turns it into `@@ -`. */
  lemma NoCountClose(s: string, m: nat, body: string, k: nat)
    requires m + 2 <= |s| && s[m + 2..] == body && m <= k < m + 2
    requires !(|body| >= 2 && body[0] == ' ' && body[1] == '-')
    requires !(|body| >= 3 && body[0] == '@' && body[1] == ' ' && body[2] == '-')
    ensures AnchorAt(s, k).None?
  {
    if k + 3 < |s| {
      assert s[k + 2] == body[k - m] && s[k + 3] == body[k + 1 - m];
      assert k == m + 1 ==> s[k + 1] == body[0];
    }
    NoAnchorAt(s, k);
  }

  /** From the closing `@@` on, only the body can start an anchor. */
  lemma NoCountAfter(head: string, t: string, a: string, c: string, body: string, k: nat)
    requires t == "@@ -" + (a + (" +" + (c + (" @@" + body))))
    requires NoAtPair(body)
    requires !(|body| >= 2 && body[0] == ' ' && body[1] == '-')
    requires !(|body| >= 3 && body[0] == '@' && body[1] == ' ' && body[2] == '-')
    requires |head| + 7 + |a| + |c| <= k <= |head + t|
    ensures AnchorAt(head + t, k).None?
  {
    var s, M := head + t, |head| + 7 + |a| + |c|;
    assert s[M + 2..] == body;
    if k < M + 2 {
      NoCountClose(s, M, body, k);
    } else {
      TailNoAnchor(s, M + 2, k);
    }
  }

  lemma {:induction false} NoCountNoAnchorAt(head: string, a: string, c: string, body: string, k: nat)
    requires Preamble(head) && NoAtPair(body)
    requires !(|body| >= 2 && body[0] == ' ' && body[1] == '-')
    requires !(|body| >= 3 && body[0] == '@' && body[1] == ' ' && body[2] == '-')
    requires AllDigits(a) && AllDigits(c)
    requires k <= |head + ("@@ -" + (a + (" +" + (c + (" @@" + body)))))|
    ensures AnchorAt(head + ("@@ -" + (a + (" +" + (c + (" @@" + body))))), k).None?
  {
    var rest := " +" + (c + (" @@" + body));
    var t := "@@ -" + (a + rest);
    var s := head + t;
    var L := |head|;
    var M := L + 4 + |a| + 3 + |c|;
    assert |s| == M + 2 + |body|;
    if k < L {
      HeadNoAnchor(head, t, k);
    } else if k == L {
      assert s[L..] == t;
      NoCountOpening(s, L, a, rest);
    } else if k < M {
      NoCountInside(head, t, a, c, body, k);
    } else {
      NoCountAfter(head, t, a, c, body, k);
    }
  }

  /**
   * A header without counts (`@@ -a +c @@`) has no anchor: in a patch with
   * no other `@@`, and whose body does not make a new `@@ -` with the
   * header's closing `@@`, the match fails and the run with it.
   */
  lemma {:induction false} NoCountHeaderHasNoAnchor(head: string, a: string, c: string, body: string)
    requires Preamble(head) && NoAtPair(body)
    requires !(|body| >= 2 && body[0] == ' ' && body[1] == '-')
    requires !(|body| >= 3 && body[0] == '@' && body[1] == ' ' && body[2] == '-')
    requires AllDigits(a) && AllDigits(c)
    ensures PatchAnchor(head + ("@@ -" + (a + (" +" + (c + (" @@" + body)))))) == None
  {
    var s := head + ("@@ -" + (a + (" +" + (c + (" @@" + body)))));
    forall k | 0 <= k <= |s| ensures AnchorAt(s, k).None? {
      NoCountNoAnchorAt(head, a, c, body, k);
    }
  }
}
