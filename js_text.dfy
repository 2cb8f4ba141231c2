/**
 * Character classes and small string operations of the JavaScript runtime
 * that the comment builder relies on: the digit and `\s` classes of regular
 * expressions, `Array.prototype.join`, and the numeric value that
 * `Math.min`/`Math.max` give a string of decimal digits.
 */
module JsText {

  /** `[0-9]` */
  predicate IsDigit(c: char) {
    '0' <= c <= '9'
  }

  /**
   * `\s`: the ECMAScript WhiteSpace and LineTerminator code points
   * (tab, line feed, vertical tab, form feed, carriage return, space,
   * no-break space, the Unicode space separators, line and paragraph
   * separator, byte order mark).
   */
  predicate IsJsWhiteSpace(c: char)
    ensures IsJsWhiteSpace(c) ==> !IsDigit(c) && c != ',' && c != '+' && c != '-' && c != '@'
    ensures c == ' ' || c == '\t' || c == '\n' || c == '\r' ==> IsJsWhiteSpace(c)
  {
    c == '\t' || c == '\n' || c == '\U{000B}' || c == '\U{000C}' || c == '\r' ||
    c == ' ' || c == '\U{00A0}' || c == '\U{1680}' ||
    ('\U{2000}' <= c <= '\U{200A}') ||
    c == '\U{2028}' || c == '\U{2029}' || c == '\U{202F}' || c == '\U{205F}' ||
    c == '\U{3000}' || c == '\U{FEFF}'
  }

  /** `x[i..i + 2]` is `@@`. */
  predicate AtPairAt(x: string, i: nat)
    requires i + 1 < |x|
  {
    x[i] == '@' && x[i + 1] == '@'
  }

  /** No `@@` occurs in `x`, so no pattern that begins with `@@` can start in it. */
  predicate NoAtPair(x: string) {
    forall i :: 0 <= i < |x| - 1 ==> !AtPairAt(x, i)
  }

  /**
   * Text that may precede a hunk header: no `@@` in it, and no `@` at its
   * end that could pair with the header's first `@`.
   */
  predicate Preamble(x: string) {
    NoAtPair(x) && (x == [] || x[|x| - 1] != '@')
  }

  predicate AllDigits(s: string) {
    forall i :: 0 <= i < |s| ==> IsDigit(s[i])
  }

  /**
   * `[0-9]+` taken greedily at the front of `u`: the longest prefix of
   * digits, and what follows it.
   */
  function Digits(u: string): (r: (string, string))
    ensures r.0 + r.1 == u && AllDigits(r.0)
    ensures r.1 == [] || !IsDigit(r.1[0])
  {
    if u != [] && IsDigit(u[0]) then
      var (ds, rest) := Digits(u[1..]);
      assert [u[0]] + ds + rest == u;
      ([u[0]] + ds, rest)
    else
      ([], u)
  }

  /** The greedy split is the only split into digits and a non-digit remainder. */
  lemma {:induction false} DigitsOf(x: string, y: string)
    requires AllDigits(x) && (y == [] || !IsDigit(y[0]))
    ensures Digits(x + y) == (x, y)
  {
    if x == [] {
      assert x + y == y;
    } else {
      assert (x + y)[1..] == x[1..] + y;
      DigitsOf(x[1..], y);
      assert [x[0]] + x[1..] == x;
    }
  }

  function DigitValue(c: char): (d: nat)
    requires IsDigit(c)
    ensures d < 10
  {
    (c as int - '0' as int) as nat
  }

  /**
   * The number a string of decimal digits denotes, as `ToNumber` reads it
   * (leading zeros allowed); it has at most `|ds|` digits.
   */
  function DecimalValue(ds: string): (v: nat)
    requires AllDigits(ds)
    ensures v < Pow10(|ds|)
  {
    if ds == [] then 0 else 10 * DecimalValue(ds[..|ds| - 1]) + DigitValue(ds[|ds| - 1])
  }

  /** `10` to the power `n`. */
  function Pow10(n: nat): (p: nat)
    ensures p >= 1
  {
    if n == 0 then 1 else 10 * Pow10(n - 1)
  }

  function Min(a: int, b: int): (m: int)
    ensures m <= a && m <= b && (m == a || m == b)
  {
    if a <= b then a else b
  }

  function Max(a: int, b: int): (m: int)
    ensures m >= a && m >= b && (m == a || m == b)
  {
    if a <= b then b else a
  }

  /** The concatenation of all strings in `parts` (`parts.join('')`). */
  function Concat(parts: seq<string>): (r: string)
    ensures parts != [] ==> parts[0] <= r
  {
    if parts == [] then [] else parts[0] + Concat(parts[1..])
  }

  /** `parts.join(sep)`: the parts in order, `sep` between each two. */
  function Join(parts: seq<string>, sep: string): (r: string)
    ensures parts == [] ==> r == []
    ensures parts != [] ==> parts[0] <= r
    ensures parts != [] ==> |r| >= |parts[|parts| - 1]| && r[|r| - |parts[|parts| - 1]|..] == parts[|parts| - 1]
  {
    if parts == [] then []
    else if |parts| == 1 then parts[0]
    else parts[0] + sep + Join(parts[1..], sep)
  }

  lemma Assoc<T>(a: seq<T>, b: seq<T>, c: seq<T>)
    ensures (a + b) + c == a + (b + c)
  {
  }

  lemma {:induction false} ConcatAppend(a: seq<string>, b: seq<string>)
    ensures Concat(a + b) == Concat(a) + Concat(b)
  {
    if a == [] {
      assert a + b == b;
    } else {
      assert (a + b)[1..] == a[1..] + b;
      ConcatAppend(a[1..], b);
    }
  }
}
