/**
 * The JavaScript string built-ins the devtools code relies on: `trim`,
 * `startsWith`, `endsWith`, `includes`, `indexOf`, `split('/')`, the
 * quote-stripping `replaceAll(/["'`]/g, '')` and the slug cut
 * `replace(/\..*\/, '')`. Strings are sequences of Unicode scalar values.
 */
module Text {
  import opened Wrappers

  /** ECMAScript LineTerminator: the characters `.` in a regular expression does not match. */
  predicate IsLineTerminator(c: char) {
    c == '\n' || c == '\r' || c == '\U{2028}' || c == '\U{2029}'
  }

  /** ECMAScript WhiteSpace or LineTerminator: what `String.prototype.trim` removes. */
  predicate IsJsSpace(c: char) {
    || IsLineTerminator(c)
    || c == '\t' || c == '\U{000B}' || c == '\U{000C}' || c == ' ' || c == '\U{00A0}'
    || c == '\U{1680}' || ('\U{2000}' <= c <= '\U{200A}') || c == '\U{202F}'
    || c == '\U{205F}' || c == '\U{3000}' || c == '\U{FEFF}'
  }

  predicate AllSpace(s: string) {
    forall i :: 0 <= i < |s| ==> IsJsSpace(s[i])
  }

  /** `trimStart`: drops leading white space and nothing else. */
  function TrimStart(s: string): (r: string)
    ensures |r| <= |s| && r == s[|s| - |r|..]
    ensures AllSpace(s[..|s| - |r|])
    ensures r != [] ==> !IsJsSpace(r[0])
  {
    if s != [] && IsJsSpace(s[0]) then TrimStart(s[1..]) else s
  }

  /** `trimEnd`: drops trailing white space and nothing else. */
  function TrimEnd(s: string): (r: string)
    ensures |r| <= |s| && r == s[..|r|]
    ensures AllSpace(s[|r|..])
    ensures r != [] ==> !IsJsSpace(r[|r| - 1])
  {
    if s != [] && IsJsSpace(s[|s| - 1]) then TrimEnd(s[..|s| - 1]) else s
  }

  /** `trim`: a contiguous slice of `s` with white space removed at both ends. */
  function Trim(s: string): (r: string)
    ensures |r| <= |s|
    ensures r != [] ==> !IsJsSpace(r[0]) && !IsJsSpace(r[|r| - 1])
  {
    TrimEnd(TrimStart(s))
  }

  /** Text that does not start with white space is its own `trimStart`. */
  lemma TrimStartPlain(s: string)
    requires s == [] || !IsJsSpace(s[0])
    ensures TrimStart(s) == s
  {
  }

  lemma {:induction false} TrimStartSkips(w: string, t: string)
    requires AllSpace(w)
    requires t == [] || !IsJsSpace(t[0])
    ensures TrimStart(w + t) == t
  {
    if w != [] {
      assert (w + t)[1..] == w[1..] + t;
      TrimStartSkips(w[1..], t);
    }
  }

  lemma {:induction false} TrimEndSkips(t: string, v: string)
    requires AllSpace(v)
    requires t == [] || !IsJsSpace(t[|t| - 1])
    ensures TrimEnd(t + v) == t
  {
    if v != [] {
      assert (t + v)[..|t + v| - 1] == t + v[..|v| - 1];
      TrimEndSkips(t, v[..|v| - 1]);
    }
  }

  /** `trim` recovers the text between any white-space padding on either side. */
  lemma TrimPadded(w: string, b: string, v: string)
    requires AllSpace(w) && AllSpace(v)
    requires b == [] || (!IsJsSpace(b[0]) && !IsJsSpace(b[|b| - 1]))
    ensures Trim(w + b + v) == b
  {
    if b == [] {
      assert w + b + v == (w + v) + [];
      TrimStartSkips(w + v, []);
    } else {
      assert w + b + v == w + (b + v);
      TrimStartSkips(w, b + v);
      TrimEndSkips(b, v);
    }
  }

  /** Number of occurrences of `c` in `s`. */
  function Count(c: char, s: string): nat {
    if s == [] then 0 else Count(c, s[..|s| - 1]) + (if s[|s| - 1] == c then 1 else 0)
  }

  lemma {:induction false} CountAppend(c: char, a: string, b: string)
    ensures Count(c, a + b) == Count(c, a) + Count(c, b)
  {
    if b == [] {
      assert a + b == a;
    } else {
      assert (a + b)[..|a + b| - 1] == a + b[..|b| - 1];
      CountAppend(c, a, b[..|b| - 1]);
    }
  }

  predicate StartsWith(s: string, prefix: string) {
    |prefix| <= |s| && s[..|prefix|] == prefix
  }

  predicate EndsWith(s: string, suffix: string) {
    |suffix| <= |s| && s[|s| - |suffix|..] == suffix
  }

  predicate OccursAt(s: string, t: string, i: nat) {
    i + |t| <= |s| && s[i..i + |t|] == t
  }

  /** `s.indexOf(t, from)`: the first position at or after `from` where `t` occurs. */
  function IndexOf(s: string, t: string, from: nat): (r: Option<nat>)
    ensures r.Some? ==> from <= r.value && OccursAt(s, t, r.value)
    ensures r.Some? ==> forall j :: from <= j < r.value ==> !OccursAt(s, t, j)
    ensures r.None? ==> forall j :: from <= j ==> !OccursAt(s, t, j)
    decreases |s| - from
  {
    if from + |t| > |s| then None
    else if s[from..from + |t|] == t then Some(from)
    else IndexOf(s, t, from + 1)
  }

  /** `s.includes(t)`. */
  predicate Contains(s: string, t: string) {
    IndexOf(s, t, 0).Some?
  }

  predicate IsQuote(c: char) {
    c == '"' || c == '\'' || c == '`'
  }

  /** `s.replaceAll(/["'`]/g, '')`: every quote character removed, wherever it stands. */
  function StripQuotes(s: string): (r: string)
    ensures |r| <= |s|
    ensures forall i :: 0 <= i < |r| ==> !IsQuote(r[i])
    ensures (forall i :: 0 <= i < |s| ==> !IsQuote(s[i])) ==> r == s
  {
    if s == [] then []
    else if IsQuote(s[0]) then StripQuotes(s[1..])
    else [s[0]] + StripQuotes(s[1..])
  }

  /** A single character: a quote is dropped, anything else is kept. */
  lemma StripQuotesChar(c: char)
    ensures StripQuotes([c]) == if IsQuote(c) then [] else [c]
  {
    assert [c][1..] == [];
  }

  /** The characters other than quotes are kept, in order, piece by piece. */
  lemma {:induction false} StripQuotesAppend(a: string, b: string)
    ensures StripQuotes(a + b) == StripQuotes(a) + StripQuotes(b)
  {
    if a == [] {
      assert a + b == b;
    } else {
      assert (a + b)[0] == a[0];
      assert (a + b)[1..] == a[1..] + b;
      StripQuotesAppend(a[1..], b);
    }
  }

  /** The text after the last `/`: the final element of `s.split('/')`. */
  function LastSegment(s: string): (r: string)
    ensures |r| <= |s| && r == s[|s| - |r|..]
    ensures forall i :: 0 <= i < |r| ==> r[i] != '/'
    ensures |r| < |s| ==> s[|s| - |r| - 1] == '/'
  {
    if s == [] || s[|s| - 1] == '/' then []
    else LastSegment(s[..|s| - 1]) + [s[|s| - 1]]
  }

  /** The first position at or after `from` holding `c`. */
  function FindChar(s: string, c: char, from: nat): (r: Option<nat>)
    ensures r.Some? ==> from <= r.value < |s| && s[r.value] == c
    ensures r.Some? ==> forall j :: from <= j < r.value ==> s[j] != c
    ensures r.None? ==> forall j :: from <= j < |s| ==> s[j] != c
    decreases |s| - from
  {
    if from >= |s| then None
    else if s[from] == c then Some(from)
    else FindChar(s, c, from + 1)
  }

  /** Where a greedy `.*` starting at `from` stops: the next line terminator, or the end. */
  function LineEnd(s: string, from: nat): (r: nat)
    requires from <= |s|
    ensures from <= r <= |s|
    ensures forall j :: from <= j < r ==> !IsLineTerminator(s[j])
    ensures r < |s| ==> IsLineTerminator(s[r])
    decreases |s| - from
  {
    if from == |s| || IsLineTerminator(s[from]) then from else LineEnd(s, from + 1)
  }

  /**
   * `name.replace(/\..*\/, '')`: the first `.` and the rest of its line are removed.
   * On a one-line name this keeps exactly the text before the first `.`.
   */
  function CutAtFirstDot(name: string): (r: string)
    ensures (forall i :: 0 <= i < |name| ==> name[i] != '.') ==> r == name
    ensures (forall i :: 0 <= i < |name| ==> !IsLineTerminator(name[i])) ==>
              |r| <= |name| && r == name[..|r|] && (forall i :: 0 <= i < |r| ==> r[i] != '.') &&
              (|r| < |name| ==> name[|r|] == '.')
  {
    match FindChar(name, '.', 0)
    case None => name
    case Some(d) => name[..d] + name[LineEnd(name, d + 1)..]
  }
}
