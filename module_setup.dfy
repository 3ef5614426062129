/**
 * Two option rewrites of the module's `setup`: the theme colour list (the
 * colours to generate classes for) and the class of the application's root
 * element, which always gains `isolate` so that portaled components are
 * stacked apart from the page.
 */
module ModuleSetup {
  import opened Wrappers
  import opened Text
  import opened JsValue

  /** The colours used when none are configured. */
  const DefaultColors: seq<string> := ["primary", "secondary", "success", "info", "warning", "error"]

  /** `options.theme`: the colour list and the transitions switch, either possibly unset. */
  datatype ThemeOptions = ThemeOptions(colors: Option<seq<string>>, transitions: Option<bool>)

  /** Position of the first occurrence of `x` in `s`. */
  function FirstIndex(s: seq<string>, x: string): (r: nat)
    requires x in s
    ensures r < |s| && s[r] == x && forall j :: 0 <= j < r ==> s[j] != x
  {
    if s[0] == x then 0 else 1 + FirstIndex(s[1..], x)
  }

  /** `[...new Set(s)]`: every element once, in the order of its first occurrence. */
  function Dedup(s: seq<string>): seq<string> {
    if s == [] then []
    else
      var d := Dedup(s[..|s| - 1]);
      if s[|s| - 1] in d then d else d + [s[|s| - 1]]
  }

  lemma {:induction false} DedupElements(s: seq<string>)
    ensures forall x :: x in Dedup(s) <==> x in s
  {
    if s != [] {
      var n := |s| - 1;
      DedupElements(s[..n]);
      assert s == s[..n] + [s[n]];
    }
  }

  lemma {:induction false} DedupDistinct(s: seq<string>)
    ensures forall i, j :: 0 <= i < j < |Dedup(s)| ==> Dedup(s)[i] != Dedup(s)[j]
  {
    if s != [] {
      DedupDistinct(s[..|s| - 1]);
    }
  }

  /** The first occurrence of an element of a prefix is found in the prefix. */
  lemma FirstIndexPrefix(s: seq<string>, n: nat, x: string)
    requires n <= |s| && x in s[..n]
    ensures x in s && FirstIndex(s, x) == FirstIndex(s[..n], x)
  {
    var k := FirstIndex(s[..n], x);
    assert s[k] == s[..n][k];
    assert forall j :: 0 <= j < k ==> s[j] == s[..n][j];
  }

  /** An element that does not occur before position `n` first occurs at `n`. */
  lemma FirstIndexNew(s: seq<string>, n: nat)
    requires n < |s| && s[n] !in s[..n]
    ensures FirstIndex(s, s[n]) == n
  {
    assert forall j :: 0 <= j < n ==> s[..n][j] == s[j] && s[j] in s[..n];
  }

  lemma {:induction false} DedupOrder(s: seq<string>)
    ensures forall x :: x in Dedup(s) ==> x in s
    ensures forall i, j :: 0 <= i < j < |Dedup(s)| ==> FirstIndex(s, Dedup(s)[i]) < FirstIndex(s, Dedup(s)[j])
  {
    DedupElements(s);
    if s != [] {
      var n := |s| - 1;
      var d := Dedup(s[..n]);
      DedupOrder(s[..n]);
      DedupElements(s[..n]);
      forall i, j | 0 <= i < j < |Dedup(s)|
        ensures FirstIndex(s, Dedup(s)[i]) < FirstIndex(s, Dedup(s)[j])
      {
        FirstIndexPrefix(s, n, Dedup(s)[i]);
        if j < |d| {
          FirstIndexPrefix(s, n, Dedup(s)[j]);
        } else {
          FirstIndexNew(s, n);
        }
      }
    }
  }

  /** The first element is kept first. */
  lemma {:induction false} DedupHead(s: seq<string>)
    requires s != []
    ensures Dedup(s) != [] && Dedup(s)[0] == s[0]
  {
    if |s| > 1 {
      DedupHead(s[..|s| - 1]);
    }
  }

  /**
   * `colors?.length ? [...new Set(['primary', ...colors])] : DefaultColors`:
   * configured colours come after `primary`, each once.
   */
  function ThemeColors(colors: Option<seq<string>>): seq<string> {
    if colors.Some? && |colors.value| > 0 then Dedup(["primary"] + colors.value) else DefaultColors
  }

  /** Without configured colours the default list is used as it is. */
  lemma ThemeColorsDefault(colors: Option<seq<string>>)
    requires colors.None? || colors.value == []
    ensures ThemeColors(colors) == ["primary", "secondary", "success", "info", "warning", "error"]
  {
  }

  /**
   * With configured colours: `primary` first, no colour twice, every
   * configured colour present and nothing else, in first-occurrence order.
   */
  lemma ThemeColorsConfigured(colors: seq<string>)
    requires |colors| > 0
    ensures var r := ThemeColors(Some(colors));
            && |r| > 0 && r[0] == "primary"
            && (forall i, j :: 0 <= i < j < |r| ==> r[i] != r[j])
            && (forall x :: x in r <==> x == "primary" || x in colors)
            && (forall i, j :: 0 <= i < j < |r| ==>
                  FirstIndex(["primary"] + colors, r[i]) < FirstIndex(["primary"] + colors, r[j]))
  {
    var s := ["primary"] + colors;
    DedupElements(s);
    DedupDistinct(s);
    DedupOrder(s);
    DedupHead(s);
    forall x ensures x in s <==> x == "primary" || x in colors {
      if x in colors {
        var i :| 0 <= i < |colors| && colors[i] == x;
        assert s[i + 1] == x;
      }
      if x in s && x != "primary" {
        var i :| 0 <= i < |s| && s[i] == x;
        assert colors[i - 1] == x;
      }
    }
  }

  /** Both branches: the list starts with `primary` and has no colour twice. */
  lemma ThemeColorsInvariant(colors: Option<seq<string>>)
    ensures var r := ThemeColors(colors);
            |r| > 0 && r[0] == "primary" && forall i, j :: 0 <= i < j < |r| ==> r[i] != r[j]
  {
    if colors.Some? && |colors.value| > 0 {
      ThemeColorsConfigured(colors.value);
    }
  }

  /** `options.theme = options.theme || {}` followed by the colour rewrite; `transitions` is kept. */
  function SetupTheme(theme: Option<ThemeOptions>): (t: ThemeOptions)
    ensures theme.Some? ==> t.transitions == theme.value.transitions
    ensures theme.None? ==> t.transitions.None?
    ensures t.colors.Some? && |t.colors.value| > 0 && t.colors.value[0] == "primary"
    ensures t.colors == Some(ThemeColors(if theme.Some? then theme.value.colors else None))
  {
    var base := if theme.Some? then theme.value else ThemeOptions(None, None);
    ThemeColorsInvariant(base.colors);
    base.(colors := Some(ThemeColors(base.colors)))
  }

  /** `filter(Boolean)`: the truthy values, in order. */
  function FilterTruthy(vs: seq<Value>): (r: seq<Value>)
    ensures forall i :: 0 <= i < |r| ==> Truthy(r[i])
  {
    if vs == [] then []
    else if Truthy(vs[0]) then [vs[0]] + FilterTruthy(vs[1..])
    else FilterTruthy(vs[1..])
  }

  /** `[previous, 'isolate'].filter(Boolean).join(' ')`. */
  function RootClass(previous: Value): string {
    var kept := FilterTruthy([previous, Str("isolate")]);
    Join(seq(|kept|, i requires 0 <= i < |kept| => ToJsString(kept[i])), " ")
  }

  /**
   * The root class is the previous class, as text, followed by ` isolate` when
   * the previous class is truthy, and `isolate` alone otherwise; it always
   * ends with `isolate`.
   */
  lemma RootClassShape(previous: Value)
    ensures Truthy(previous) ==> RootClass(previous) == ToJsString(previous) + " isolate"
    ensures !Truthy(previous) ==> RootClass(previous) == "isolate"
    ensures EndsWith(RootClass(previous), "isolate")
  {
    FilterTruthyPair(previous);
    var kept := FilterTruthy([previous, Str("isolate")]);
    var parts := seq(|kept|, i requires 0 <= i < |kept| => ToJsString(kept[i]));
    if Truthy(previous) {
      var a := ToJsString(previous);
      assert parts == [a, "isolate"];
      JoinPair(a, "isolate", " ");
      var r := a + " isolate";
      assert r[|r| - 7..] == "isolate";
    } else {
      assert parts == ["isolate"];
    }
  }

  /** Only the previous class can be dropped: `'isolate'` is always truthy. */
  lemma FilterTruthyPair(previous: Value)
    ensures Truthy(previous) ==> FilterTruthy([previous, Str("isolate")]) == [previous, Str("isolate")]
    ensures !Truthy(previous) ==> FilterTruthy([previous, Str("isolate")]) == [Str("isolate")]
  {
    var vs := [previous, Str("isolate")];
    var tail := [Str("isolate")];
    assert vs[0] == previous && vs[1..] == tail && tail[0] == Str("isolate") && tail[1..] == [];
    assert FilterTruthy(tail) == [Str("isolate")] + FilterTruthy([]);
  }

  /** Joining two parts puts the separator between them. */
  lemma JoinPair(a: string, b: string, sep: string)
    ensures Join([a, b], sep) == a + sep + b
  {
    assert [a, b][..1] == [a];
  }

  /** An array class is joined with commas first: `['a', 'b']` becomes `a,b isolate`. */
  lemma RootClassOfArray()
    ensures RootClass(Arr([Str("a"), Str("b")])) == "a,b isolate"
  {
    RootClassShape(Arr([Str("a"), Str("b")]));
    var items := [Str("a"), Str("b")];
    var parts := seq(|items|, k requires 0 <= k < |items| =>
      if items[k].Undefined? || items[k].Null? then "" else ToJsString(items[k]));
    assert parts == ["a", "b"];
    assert parts[..1] == ["a"];
    assert ToJsString(Arr(items)) == Join(parts, ",") == "a,b";
  }

  /** `nuxt.options.app.rootAttrs = rootAttrs || {}` followed by the class rewrite; other attributes are kept. */
  function SetupRootAttrs(attrs: Option<map<string, Value>>): (r: map<string, Value>)
    ensures "class" in r && r["class"].Str? && EndsWith(r["class"].s, "isolate")
    ensures r["class"] == Str(RootClass(if attrs.Some? && "class" in attrs.value then attrs.value["class"] else Undefined))
    ensures attrs.Some? ==> forall k :: k in attrs.value && k != "class" ==> k in r && r[k] == attrs.value[k]
    ensures forall k :: k in r && k != "class" ==> attrs.Some? && k in attrs.value
  {
    var base := if attrs.Some? then attrs.value else map[];
    var previous := if "class" in base then base["class"] else Undefined;
    var cls := RootClass(previous);
    RootClassShape(previous);
    base["class" := Str(cls)]
  }

  /** The options object `setup` rewrites in place. */
  class UiOptions {
    var theme: Option<ThemeOptions>
    var rootAttrs: Option<map<string, Value>>

    constructor(theme: Option<ThemeOptions>, rootAttrs: Option<map<string, Value>>)
      ensures this.theme == theme && this.rootAttrs == rootAttrs
    {
      this.theme := theme;
      this.rootAttrs := rootAttrs;
    }

    /** The two rewrites of `setup`, field by field. */
    method Setup()
      modifies this
      ensures theme == Some(SetupTheme(old(theme)))
      ensures rootAttrs == Some(SetupRootAttrs(old(rootAttrs)))
    {
      if theme.None? {
        theme := Some(ThemeOptions(None, None));
      }
      theme := Some(theme.value.(colors := Some(ThemeColors(theme.value.colors))));
      if rootAttrs.None? {
        rootAttrs := Some(map[]);
      }
      var previous := if "class" in rootAttrs.value then rootAttrs.value["class"] else Undefined;
      rootAttrs := Some(rootAttrs.value["class" := Str(RootClass(previous))]);
    }
  }
}
