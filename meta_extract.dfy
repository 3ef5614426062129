/**
 * The override-block extractor of the devtools metadata plugin
 * (`extractComponentMeta`): find the first `extendDevtoolsMeta(` call, with an
 * optional `<...>` type argument, then scan forward counting `{` and `}` until
 * both counts are equal and positive, and return the trimmed text scanned.
 *
 * The scan keeps two counters, not a depth: braces inside strings count, and a
 * `}` met before the first `{` counts too. When the counts never meet, the
 * result is the empty string.
 */
module MetaExtract {
  import opened Wrappers
  import opened Text

  const MarkerName := "extendDevtoolsMeta"

  /**
   * The lazy `<.*?>` of the marker pattern followed by `(`, tried from position
   * `k` just after the `<`: the first `>(` reached without crossing a line
   * terminator. The result is the position just after that `(`.
   */
  function GenericEnd(code: string, k: nat): (r: Option<nat>)
    ensures r.Some? ==> k + 2 <= r.value <= |code| && code[r.value - 2] == '>' && code[r.value - 1] == '('
    ensures r.Some? ==> forall j :: k <= j < r.value - 2 ==> !IsLineTerminator(code[j])
    ensures r.Some? ==> forall j :: k <= j < r.value - 2 ==> !(code[j] == '>' && code[j + 1] == '(')
    decreases |code| - k
  {
    if k + 1 < |code| && code[k] == '>' && code[k + 1] == '(' then Some(k + 2)
    else if k >= |code| || IsLineTerminator(code[k]) then None
    else GenericEnd(code, k + 1)
  }

  /** A `>(` reached without crossing a line terminator closes the group: the search does not fail. */
  lemma {:induction false} GenericEndFound(code: string, k: nat, j: nat)
    requires k <= j && j + 1 < |code| && code[j] == '>' && code[j + 1] == '('
    requires forall i :: k <= i < j ==> !IsLineTerminator(code[i])
    ensures GenericEnd(code, k).Some? && GenericEnd(code, k).value <= j + 2
    decreases j - k
  {
    if !(code[k] == '>' && code[k + 1] == '(') {
      GenericEndFound(code, k + 1, j);
    }
  }

  /**
   * Where a match of `/extendDevtoolsMeta(?:<.*?>)?\(/` that begins at `p`
   * ends (just after its `(`), if one begins there.
   */
  function MarkerEndAt(code: string, p: nat): (r: Option<nat>)
    ensures r.Some? ==> OccursAt(code, MarkerName, p)
    ensures r.Some? ==> p + |MarkerName| < r.value <= |code| && code[r.value - 1] == '('
    ensures OccursAt(code, MarkerName, p) && p + |MarkerName| < |code| && code[p + |MarkerName|] == '(' ==>
              r == Some(p + |MarkerName| + 1)
  {
    if !OccursAt(code, MarkerName, p) then None
    else
      var q := p + |MarkerName|;
      if q < |code| && code[q] == '<' then GenericEnd(code, q + 1)
      else if q < |code| && code[q] == '(' then Some(q + 1)
      else None
  }

  /** `code.match(...)`: the leftmost match at or after `from`, as (start, end). */
  function FindMarker(code: string, from: nat): (r: Option<(nat, nat)>)
    ensures r.Some? ==> from <= r.value.0 && MarkerEndAt(code, r.value.0) == Some(r.value.1)
    decreases |code| - from
  {
    if from > |code| then None
    else match MarkerEndAt(code, from)
      case Some(e) => Some((from, e))
      case None => FindMarker(code, from + 1)
  }

  /** The match `FindMarker` reports is the leftmost one; `None` means there is none. */
  lemma {:induction false} FindMarkerLeftmost(code: string, from: nat)
    ensures var r := FindMarker(code, from);
            && (r.Some? ==> forall q :: from <= q < r.value.0 ==> MarkerEndAt(code, q).None?)
            && (r.None? ==> forall q :: from <= q ==> MarkerEndAt(code, q).None?)
    decreases |code| - from
  {
    if from <= |code| && MarkerEndAt(code, from).None? {
      FindMarkerLeftmost(code, from + 1);
    }
  }

  /** The `{` and `}` counts of `code[start..i + 1]` are equal and positive. */
  predicate BalancedAt(code: string, start: nat, i: nat) {
    && start <= i < |code|
    && Count('{', code[start..i + 1]) > 0
    && Count('{', code[start..i + 1]) == Count('}', code[start..i + 1])
  }

  /** The first index at or after `from` where the scan from `start` balances. */
  function FirstBalanced(code: string, start: nat, from: nat): (r: Option<nat>)
    requires start <= from
    ensures r.Some? ==> from <= r.value && BalancedAt(code, start, r.value)
    ensures r.Some? ==> forall j :: from <= j < r.value ==> !BalancedAt(code, start, j)
    ensures r.None? ==> forall j :: from <= j ==> !BalancedAt(code, start, j)
    decreases |code| - from
  {
    if from >= |code| then None
    else if BalancedAt(code, start, from) then Some(from)
    else FirstBalanced(code, start, from + 1)
  }

  /** The end (exclusive) of the scanned span: one past the first balance point, or `start` when there is none. */
  function SpanEnd(code: string, start: nat): (e: nat)
    requires start <= |code|
    ensures start <= e <= |code|
    ensures e > start ==> BalancedAt(code, start, e - 1)
    ensures e > start ==> forall j :: start <= j < e - 1 ==> !BalancedAt(code, start, j)
    ensures e == start ==> forall j :: start <= j ==> !BalancedAt(code, start, j)
  {
    match FirstBalanced(code, start, start)
    case None => start
    case Some(i) => i + 1
  }

  /** What `extractComponentMeta(code)` returns; `None` is `null`. */
  function ExtractSpec(code: string): Option<string> {
    match FindMarker(code, 0)
    case None => None
    case Some((_, s)) => Some(Trim(code[s..SpanEnd(code, s)]))
  }

  /** A balance point with none before it is the one `SpanEnd` finds. */
  lemma SpanEndAt(code: string, start: nat, i: nat)
    requires start <= i < |code|
    requires BalancedAt(code, start, i)
    requires forall j :: start <= j < i ==> !BalancedAt(code, start, j)
    ensures SpanEnd(code, start) == i + 1
  {
  }

  /** Two matches of the same text: a lazy `<.*?>(` that closes at `s` also closes at the same offset elsewhere. */
  lemma {:induction false} GenericEndShift(code: string, k: nat, s: nat, q: nat)
    requires GenericEnd(code, k) == Some(s)
    requires q + (s - k) <= |code| && code[q..q + (s - k)] == code[k..s]
    ensures GenericEnd(code, q) == Some(q + (s - k))
    decreases s - k
  {
    assert code[q] == code[k] && code[q + 1] == code[k + 1];
    if !(k + 1 < |code| && code[k] == '>' && code[k + 1] == '(') {
      assert code[q + 1..q + (s - k)] == code[k + 1..s] by {
        assert code[q + 1..q + (s - k)] == code[q..q + (s - k)][1..];
        assert code[k + 1..s] == code[k..s][1..];
      }
      GenericEndShift(code, k + 1, s, q + 1);
    }
  }

  /** Any occurrence of a matched text is itself a match of the marker pattern. */
  lemma MatchedTextMatches(code: string, p: nat, s: nat, q: nat)
    requires MarkerEndAt(code, p) == Some(s)
    requires OccursAt(code, code[p..s], q)
    ensures MarkerEndAt(code, q).Some?
  {
    var n := |MarkerName|;
    var m := code[p..s];
    assert code[q..q + n] == m[..n] == code[p..p + n];
    assert code[q + n] == m[n] == code[p + n];
    if code[p + n] == '<' {
      var k := p + n + 1;
      assert code[q + n + 1..q + (s - p)] == code[k..s] by {
        assert code[q + n + 1..q + (s - p)] == m[n + 1..];
        assert code[k..s] == m[n + 1..];
      }
      GenericEndShift(code, k, s, q + n + 1);
    }
  }

  /** A match with no match before it is found again by `indexOf` of its text. */
  lemma IndexOfFirstMatch(code: string, p: nat, s: nat)
    requires MarkerEndAt(code, p) == Some(s)
    requires forall q :: 0 <= q < p ==> MarkerEndAt(code, q).None?
    ensures p <= s <= |code|
    ensures IndexOf(code, code[p..s], 0) == Some(p)
  {
    var m := code[p..s];
    assert OccursAt(code, m, p);
    var r := IndexOf(code, m, 0);
    assert r.Some? && r.value <= p;
    if r.value < p {
      MatchedTextMatches(code, p, s, r.value);
      assert false;
    }
  }

  /** `code.indexOf(match[0])` is the position where the match begins. */
  lemma IndexOfMatchedText(code: string, p: nat, s: nat)
    requires FindMarker(code, 0) == Some((p, s))
    ensures p <= s <= |code|
    ensures IndexOf(code, code[p..s], 0) == Some(p)
  {
    FindMarkerLeftmost(code, 0);
    IndexOfFirstMatch(code, p, s);
  }

  /** Where the scan starts: just after the matched text, found again by `indexOf`. */
  lemma MatchedStart(code: string, p: nat, s: nat)
    requires FindMarker(code, 0) == Some((p, s))
    ensures p <= s <= |code|
    ensures IndexOf(code, code[p..s], 0) == Some(p)
    ensures ExtractSpec(code) == Some(Trim(code[s..SpanEnd(code, s)]))
  {
    IndexOfMatchedText(code, p, s);
    ExtractAt(code, p, s);
  }

  /** One more character scanned adds its brace, if any, to the counts. */
  lemma ScanStep(code: string, start: nat, i: nat)
    requires start <= i < |code|
    ensures Count('{', code[start..i + 1]) == Count('{', code[start..i]) + (if code[i] == '{' then 1 else 0)
    ensures Count('}', code[start..i + 1]) == Count('}', code[start..i]) + (if code[i] == '}' then 1 else 0)
  {
    var scanned := code[start..i + 1];
    assert scanned[..|scanned| - 1] == code[start..i];
  }

  /**
   * The `for` loop of `extractComponentMeta`: from `startIndex`, count `{` and
   * `}` and stop one past the first character where the counts are equal and
   * positive; `endIndex` stays at `startIndex` when that never happens.
   */
  method ScanBraces(code: string, startIndex: nat) returns (endIndex: nat)
    requires startIndex <= |code|
    ensures endIndex == SpanEnd(code, startIndex)
  {
    var openBraceCount, closeBraceCount := 0, 0;
    endIndex := startIndex;
    var i := startIndex;
    while i < |code|
      invariant startIndex <= i <= |code|
      invariant openBraceCount == Count('{', code[startIndex..i])
      invariant closeBraceCount == Count('}', code[startIndex..i])
      invariant forall j :: startIndex <= j < i ==> !BalancedAt(code, startIndex, j)
      invariant endIndex == startIndex
    {
      ScanStep(code, startIndex, i);
      if code[i] == '{' {
        openBraceCount := openBraceCount + 1;
      }
      if code[i] == '}' {
        closeBraceCount := closeBraceCount + 1;
      }
      if openBraceCount > 0 && openBraceCount == closeBraceCount {
        endIndex := i + 1;
        SpanEndAt(code, startIndex, i);
        break;
      }
      assert !BalancedAt(code, startIndex, i);
      i := i + 1;
    }
  }

  /**
   * `extractComponentMeta`: match the marker, start just after the matched
   * text (found again with `indexOf`), scan, and trim the scanned slice.
   */
  method ExtractComponentMeta(code: string) returns (r: Option<string>)
    ensures r == ExtractSpec(code)
  {
    var found := FindMarker(code, 0);
    if found.None? {
      return None;
    }
    var p, s := found.value.0, found.value.1;
    MatchedStart(code, p, s);
    var matched := code[p..s];
    var startIndex := IndexOf(code, matched, 0).value + |matched|;
    assert startIndex == s;
    var endIndex := ScanBraces(code, startIndex);
    r := Some(Trim(code[startIndex..endIndex]));
  }

  /**
   * A non-empty span ends on a brace. It ends on `}` unless a stray `}` came
   * before the first `{`, in which case it can end on that `{`.
   */
  lemma SpanEndsOnBrace(code: string, start: nat)
    requires start <= |code|
    requires SpanEnd(code, start) > start
    ensures var e := SpanEnd(code, start);
            || code[e - 1] == '}'
            || (code[e - 1] == '{' && Count('}', code[start..e - 1]) > Count('{', code[start..e - 1]))
  {
    var e := SpanEnd(code, start);
    var t := code[start..e];
    assert t[..|t| - 1] == code[start..e - 1];
    if code[e - 1] != '}' && code[e - 1] != '{' {
      if e - 1 > start {
        assert BalancedAt(code, start, e - 2);
      }
      assert false;
    }
  }

  /** A stray `}` before the `{`: the counts meet on the `{` and the span is `}{`. */
  lemma StrayCloseBrace()
    ensures ExtractSpec("extendDevtoolsMeta(}{ a: 1 }") == Some("}{")
  {
    var code := "extendDevtoolsMeta(}{ a: 1 }";
    assert MarkerEndAt(code, 0) == Some(19);
    assert FindMarker(code, 0) == Some((0, 19));
    assert code[19..20] == "}";
    assert code[19..21] == "}{";
    assert code[19..21][..1] == "}";
    assert !BalancedAt(code, 19, 19);
    SpanEndAt(code, 19, 20);
    TrimPadded([], "}{", []);
    assert [] + "}{" + [] == "}{";
  }

  /** When the counts never meet, the extracted text is empty. */
  lemma UnbalancedIsEmpty(code: string, p: nat, s: nat)
    requires FindMarker(code, 0) == Some((p, s))
    requires forall j :: s <= j < |code| ==> !BalancedAt(code, s, j)
    ensures ExtractSpec(code) == Some("")
  {
    ExtractAt(code, p, s);
    assert FirstBalanced(code, s, s).None?;
    assert SpanEnd(code, s) == s;
    assert code[s..s] == [];
    assert Trim([]) == [];
  }

  /** `{`, then text whose `{` count stays ahead of its `}` count until the two meet at the end. */
  predicate IsObjectBlock(b: string) {
    && |b| >= 1 && b[0] == '{'
    && Depth(b, |b|) == 0
    && forall k :: 1 <= k < |b| ==> Depth(b, k) > 0
  }

  /** How many more `{` than `}` the first `k` characters of `t` hold. */
  function Depth(t: string, k: nat): int
    requires k <= |t|
  {
    Count('{', t[..k]) - Count('}', t[..k])
  }

  lemma {:induction false} CountAbsent(c: char, w: string)
    requires forall i :: 0 <= i < |w| ==> w[i] != c
    ensures Count(c, w) == 0
  {
    if w != [] {
      CountAbsent(c, w[..|w| - 1]);
    }
  }

  lemma ObjectBlockEndsWithClose(b: string)
    requires IsObjectBlock(b)
    ensures |b| >= 2 && b[|b| - 1] == '}'
  {
    var head := b[..1];
    assert head == ['{'] && head[..0] == [];
    assert Count('{', head) == 1 && Count('}', head) == 0;
    assert Depth(b, 1) == 1;
    assert b[..|b|] == b;
    var k := |b| - 1;
    assert Depth(b, k) > 0;
    assert b[..k + 1][..k] == b[..k];
  }

  /**
   * A well-formed block, preceded only by brace-free text: the span is exactly
   * the block, nested braces included.
   */
  lemma WellFormedSpan(code: string, s: nat, w: string, b: string, rest: string)
    requires s <= |code| && code[s..] == w + b + rest
    requires forall i :: 0 <= i < |w| ==> w[i] != '{' && w[i] != '}'
    requires IsObjectBlock(b)
    ensures SpanEnd(code, s) == s + |w| + |b|
  {
    var last := s + |w| + |b| - 1;
    CountAbsent('{', w);
    CountAbsent('}', w);
    forall j | s <= j < last
      ensures !BalancedAt(code, s, j)
    {
      if j < s + |w| {
        assert code[s..j + 1] == code[s..][..j + 1 - s] == w[..j + 1 - s];
        CountAbsent('{', w[..j + 1 - s]);
      } else {
        var k := j + 1 - s - |w|;
        assert code[s..j + 1] == code[s..][..j + 1 - s] == w + b[..k];
        assert Depth(b, k) > 0;
        CountAppend('{', w, b[..k]);
        CountAppend('}', w, b[..k]);
      }
    }
    assert code[s..last + 1] == code[s..][..last + 1 - s] == w + b;
    assert b[..|b|] == b;
    CountAppend('{', w, b);
    CountAppend('}', w, b);
    assert b == [b[0]] + b[1..];
    CountAppend('{', [b[0]], b[1..]);
    assert [b[0]][..0] == [];
    SpanEndAt(code, s, last);
  }

  lemma SpaceHasNoBraces(w: string)
    requires AllSpace(w)
    ensures forall i :: 0 <= i < |w| ==> w[i] != '{' && w[i] != '}'
  {
    forall i | 0 <= i < |w|
      ensures w[i] != '{' && w[i] != '}'
    {
      assert IsJsSpace(w[i]);
    }
  }

  /** Trimming white space off a span that is that white space and then a block. */
  lemma TrimBlock(code: string, s: nat, w: string, b: string, rest: string)
    requires s <= |code| && code[s..] == w + b + rest
    requires AllSpace(w)
    requires |b| >= 1 && !IsJsSpace(b[0]) && !IsJsSpace(b[|b| - 1])
    ensures s + |w| + |b| <= |code| && Trim(code[s..s + |w| + |b|]) == b
  {
    var span := code[s..s + |w| + |b|];
    assert span == code[s..][..|w| + |b|];
    assert (w + b + rest)[..|w| + |b|] == w + b + [];
    TrimPadded(w, b, []);
  }

  /** Once the marker is matched, the result is the trimmed span after it. */
  lemma ExtractAt(code: string, p: nat, s: nat)
    requires FindMarker(code, 0) == Some((p, s))
    ensures s <= |code|
    ensures ExtractSpec(code) == Some(Trim(code[s..SpanEnd(code, s)]))
  {
    assert MarkerEndAt(code, p) == Some(s);
  }

  /** A well-formed block after white space: the trimmed span is the block. */
  lemma WellFormedTrimmedSpan(code: string, s: nat, w: string, b: string, rest: string)
    requires s <= |code| && code[s..] == w + b + rest
    requires AllSpace(w)
    requires IsObjectBlock(b)
    ensures Trim(code[s..SpanEnd(code, s)]) == b
  {
    SpaceHasNoBraces(w);
    WellFormedSpan(code, s, w, b, rest);
    ObjectBlockEndsWithClose(b);
    TrimBlock(code, s, w, b, rest);
  }

  /**
   * The usual shape: white space after the marker, then a well-formed object
   * literal. Extraction yields exactly that literal.
   */
  lemma ExtractWellFormed(code: string, p: nat, s: nat, w: string, b: string, rest: string)
    requires FindMarker(code, 0) == Some((p, s))
    requires s <= |code| && code[s..] == w + b + rest
    requires AllSpace(w)
    requires IsObjectBlock(b)
    ensures ExtractSpec(code) == Some(b) && b != [] && code != []
  {
    WellFormedTrimmedSpan(code, s, w, b, rest);
    ExtractAt(code, p, s);
    assert |code[s..]| == |w| + |b| + |rest|;
  }
}
