/** String utilities standing in for the pieces of Python's runtime that the
    diff script relies on: character classes of its regular expressions,
    `str.strip`, `str.rstrip`, `str.join`, the substring test `x in s`, and the
    decimal rendering of an `int`. */
module Strings {
  import opened Wrappers

  /** What `\d` matches (restricted to ASCII). */
  predicate IsDigit(c: char) {
    '0' <= c <= '9'
  }

  /** What `\w` matches (restricted to ASCII). */
  predicate IsWordChar(c: char) {
    'a' <= c <= 'z' || 'A' <= c <= 'Z' || IsDigit(c) || c == '_'
  }

  /** The characters for which Python's `str.isspace` holds; `str.strip()`
      removes exactly these. */
  predicate IsSpace(c: char) {
    || c == ' '
    || '\t' <= c <= '\r'
    || '\U{1C}' <= c <= '\U{1F}'
    || c == '\U{85}' || c == '\U{A0}' || c == '\U{1680}'
    || '\U{2000}' <= c <= '\U{200A}'
    || c == '\U{2028}' || c == '\U{2029}' || c == '\U{202F}' || c == '\U{205F}'
    || c == '\U{3000}'
  }

  predicate AllWordChars(s: string) {
    forall k :: 0 <= k < |s| ==> IsWordChar(s[k])
  }

  predicate AllSpace(s: string) {
    forall k :: 0 <= k < |s| ==> IsSpace(s[k])
  }

  /** `n` ASCII digits start at index `i` of `s`. */
  predicate DigitsAt(s: string, i: nat, n: nat) {
    i + n <= |s| && forall k :: i <= k < i + n ==> IsDigit(s[k])
  }

  /** `w` occurs in `s` at index `i`. */
  predicate WordAt(s: string, i: nat, w: string) {
    i + |w| <= |s| && forall k :: 0 <= k < |w| ==> s[i + k] == w[k]
  }

  /** Digits of a piece `u` of `t` that starts at `a` are digits of `t`, and
      conversely. */
  lemma DigitsAtPiece(t: string, u: string, a: nat, i: nat, n: nat)
    requires WordAt(t, a, u) && i + n <= |u|
    ensures DigitsAt(u, i, n) <==> DigitsAt(t, a + i, n)
  {
    if DigitsAt(t, a + i, n) {
      forall k | i <= k < i + n ensures IsDigit(u[k]) {
        assert u[k] == t[a + k];
      }
    }
    if DigitsAt(u, i, n) {
      forall k | a + i <= k < a + i + n ensures IsDigit(t[k]) {
        assert u[k - a] == t[k];
      }
    }
  }

  /** No leading and no trailing whitespace: the shape of what `str.strip` returns. */
  predicate Trimmed(s: string) {
    s == [] || (!IsSpace(s[0]) && !IsSpace(s[|s| - 1]))
  }

  /** The least index in `[i, n)` where `p` holds. */
  function FirstWhereFrom(i: nat, n: nat, p: nat -> bool): (r: Option<nat>)
    ensures r.Some? ==> i <= r.value < n && p(r.value)
    ensures r.Some? ==> forall j: nat :: i <= j < r.value ==> !p(j)
    ensures r.None? ==> forall j: nat :: i <= j < n ==> !p(j)
    decreases n - i
  {
    if n <= i then None
    else if p(i) then Some(i)
    else FirstWhereFrom(i + 1, n, p)
  }

  /** The greatest index below `n` where `p` holds: the position a greedy `(.*)`
      prefix backtracks to. */
  function LastWhere(n: nat, p: nat -> bool): (r: Option<nat>)
    ensures r.Some? ==> r.value < n && p(r.value)
    ensures r.Some? ==> forall j: nat :: r.value < j < n ==> !p(j)
    ensures r.None? ==> forall j: nat :: j < n ==> !p(j)
  {
    if n == 0 then None
    else if p(n - 1) then Some(n - 1)
    else LastWhere(n - 1, p)
  }

  /** The greatest index where `p` holds, recognised from its defining facts. */
  lemma LastWhereIs(n: nat, p: nat -> bool, i: nat)
    requires i < n && p(i)
    requires forall j: nat :: i < j < n ==> !p(j)
    ensures LastWhere(n, p) == Some(i)
  {
  }

  /** The index of the first newline in `s`, if any. */
  function FirstNewline(s: string): Option<nat> {
    FirstWhereFrom(0, |s|, (j: nat) => j < |s| && s[j] == '\n')
  }

  /** Applies a rule to each newline-separated line of `s`, keeping the
      newlines. This is what `re.sub` does with a pattern whose every part
      excludes the newline (as `.`, `\d`, `\w` and literals other than `\n` do):
      no match crosses a line, and each line is rewritten on its own. */
  function MapLines(s: string, f: string -> string): string
    decreases |s|
  {
    match FirstNewline(s)
    case None => f(s)
    case Some(k) => f(s[..k]) + "\n" + MapLines(s[k + 1..], f)
  }

  lemma MapLinesOneLine(s: string, f: string -> string)
    requires '\n' !in s
    ensures MapLines(s, f) == f(s)
  {
    var p := (j: nat) => j < |s| && s[j] == '\n';
    assert forall j: nat :: j < |s| ==> !p(j);
    assert FirstNewline(s) == FirstWhereFrom(0, |s|, p);
  }

  /** If a rule leaves alone every line on which some property `q` holds, and
      `q` survives cutting a string at any index, then the rule applied line by
      line leaves alone every string on which `q` holds. */
  lemma {:induction false} MapLinesFixed(s: string, f: string -> string, q: string -> bool)
    requires q(s)
    requires forall t: string, k: nat :: q(t) && k < |t| ==> q(t[..k]) && q(t[k + 1..])
    requires forall t: string :: q(t) && '\n' !in t ==> f(t) == t
    ensures MapLines(s, f) == s
    decreases |s|
  {
    match FirstNewline(s)
    case None =>
      forall j | 0 <= j < |s| ensures s[j] != '\n' {
        assert !((j: nat) => j < |s| && s[j] == '\n')(j);
      }
    case Some(k) =>
      var head := s[..k];
      forall j | 0 <= j < |head| ensures head[j] != '\n' {
        assert !((j: nat) => j < |s| && s[j] == '\n')(j);
      }
      MapLinesFixed(s[k + 1..], f, q);
      assert s == head + "\n" + s[k + 1..];
  }

  /** Python's `sub in s` for strings. */
  function Contains(s: string, sub: string): (b: bool)
    ensures b <==> exists i: nat :: WordAt(s, i, sub)
    decreases |s|
  {
    if |s| < |sub| then false
    else if WordAt(s, 0, sub) then true
    else
      var rest := Contains(s[1..], sub);
      assert forall i: nat :: 1 <= i ==> (WordAt(s, i, sub) <==> WordAt(s[1..], i - 1, sub)) by {
        forall i: nat | 1 <= i ensures WordAt(s, i, sub) <==> WordAt(s[1..], i - 1, sub) {
          if i + |sub| <= |s| {
            forall k | 0 <= k < |sub| ensures s[1..][i - 1 + k] == sub[k] <==> s[i + k] == sub[k] {
            }
          }
        }
      }
      assert rest ==> exists i: nat :: WordAt(s, i, sub) by {
        if rest {
          var i: nat :| WordAt(s[1..], i, sub);
          assert WordAt(s, i + 1, sub);
        }
      }
      rest
  }

  /** Python's `s.rstrip(c)`: drops every trailing `c`. */
  function RStrip(s: string, c: char): (r: string)
    ensures |r| <= |s| && r == s[..|r|]
    ensures forall k :: |r| <= k < |s| ==> s[k] == c
    ensures r == [] || r[|r| - 1] != c
  {
    if |s| > 0 && s[|s| - 1] == c then RStrip(s[..|s| - 1], c) else s
  }

  /** Python's `s.strip()`: drops leading and trailing whitespace. */
  function Strip(s: string): (r: string)
    ensures Trimmed(r)
  {
    match FirstWhereFrom(0, |s|, (j: nat) => j < |s| && !IsSpace(s[j]))
    case None => []
    case Some(a) =>
      match LastWhere(|s|, (j: nat) => j < |s| && !IsSpace(s[j]))
      case None => assert false; []
      case Some(b) => s[a..b + 1]
  }

  /** `Strip` is determined by its shape: whatever surrounds a trimmed core
      with whitespace on both sides strips back to that core. */
  lemma StripSurrounded(x: string, t: string, y: string)
    requires AllSpace(x) && AllSpace(y) && Trimmed(t)
    ensures Strip(x + t + y) == t
  {
    var s := x + t + y;
    var p := (j: nat) => j < |s| && !IsSpace(s[j]);
    if t == [] {
      assert forall j: nat :: j < |s| ==> !p(j);
    } else {
      assert p(|x|) && p(|x| + |t| - 1);
      assert forall j: nat :: j < |x| ==> !p(j);
      assert forall j: nat :: |x| + |t| - 1 < j < |s| ==> !p(j);
      assert s[|x|..|x| + |t|] == t;
    }
  }

  /** Python's `sep.join(parts)`. */
  function Join(sep: string, parts: seq<string>): string {
    if |parts| == 0 then ""
    else if |parts| == 1 then parts[0]
    else parts[0] + sep + Join(sep, parts[1..])
  }

  /** The decimal digit for `d`. */
  function DigitChar(d: nat): (c: char)
    requires d < 10
    ensures IsDigit(c)
  {
    ('0' as int + d) as char
  }

  /** The value of a digit. */
  function DigitValue(c: char): nat
    requires IsDigit(c)
  {
    c as int - '0' as int
  }

  /** `str(n)` for a non-negative Python int, as `%s` and `%d` print it. */
  function Decimal(n: nat): (s: string)
    ensures |s| >= 1 && DigitsAt(s, 0, |s|)
    ensures s[0] == '0' ==> s == "0"
  {
    if n < 10 then [DigitChar(n)] else Decimal(n / 10) + [DigitChar(n % 10)]
  }

  /** What `int(s)` gives for a string of ASCII digits. */
  function DecimalValue(s: string): nat
    requires DigitsAt(s, 0, |s|)
  {
    if s == [] then 0 else 10 * DecimalValue(s[..|s| - 1]) + DigitValue(s[|s| - 1])
  }

  /** Reading back a rendered count gives the count. */
  lemma {:induction false} DecimalRoundTrip(n: nat)
    ensures DecimalValue(Decimal(n)) == n
  {
    if n >= 10 {
      DecimalRoundTrip(n / 10);
      var s := Decimal(n);
      assert s[..|s| - 1] == Decimal(n / 10);
    }
  }

}
