/**
 * The component catalog served by the devtools `component-meta` endpoint:
 * the introspected metadata of every component (the default export of the
 * generated `.component-meta` module) is filtered to the keys that start with
 * `U`, renamed to the kebab-case name without that `U`, and each prop's
 * `default` is normalised from its raw text to a boolean, an integer or an
 * unquoted string.
 *
 * `kebabCase` and the `defu` merge with the override store are library code
 * and are parameters here.
 */
module MetaCatalog {
  import opened Wrappers
  import opened Text
  import opened JsValue

  /** A JSDoc tag of a prop, such as `@defaultValue 'md'`; `text` is absent for a bare tag. */
  datatype Tag = Tag(name: string, text: Option<string>)

  /** One prop: its `default`, its optional `tags`, and every other field it carries. */
  datatype Prop = Prop(default: Value, tags: Option<seq<Tag>>, rest: map<string, Value>)

  /** `value.meta`: the props and the other metadata fields. */
  datatype ComponentMeta = ComponentMeta(props: seq<Prop>, rest: map<string, Value>)

  /** One catalog value: its `meta` and its other fields. */
  datatype Component = Component(meta: ComponentMeta, rest: map<string, Value>)

  /** A tag that supplies a default: named `defaultValue`, and not pointing at the app config. */
  predicate IsDefaultValueTag(t: Tag) {
    t.name == "defaultValue" && !(t.text.Some? && Contains(t.text.value, "appConfig"))
  }

  /** `tags.find(isDefaultValueTag)`, as the index of the first such tag at or after `from`. */
  function FindDefaultTag(tags: seq<Tag>, from: nat): (r: Option<nat>)
    ensures r.Some? ==> from <= r.value < |tags| && IsDefaultValueTag(tags[r.value])
    ensures r.Some? ==> forall j :: from <= j < r.value ==> !IsDefaultValueTag(tags[j])
    ensures r.None? ==> forall j :: from <= j < |tags| ==> !IsDefaultValueTag(tags[j])
    decreases |tags| - from
  {
    if from >= |tags| then None
    else if IsDefaultValueTag(tags[from]) then Some(from)
    else FindDefaultTag(tags, from + 1)
  }

  /** The text of the first default-supplying tag, `undefined` when there is none or it has no text. */
  function TagDefault(tags: Option<seq<Tag>>): Value {
    if tags.None? then Undefined
    else match FindDefaultTag(tags.value, 0)
      case None => Undefined
      case Some(i) => if tags.value[i].text.Some? then Str(tags.value[i].text.value) else Undefined
  }

  /** Where a prop's default comes from: `default` when truthy, otherwise the tags. */
  function EffectiveDefault(p: Prop): Value {
    if Truthy(p.default) then p.default else TagDefault(p.tags)
  }

  /**
   * The default rewritten in sequence: a string loses every quote character,
   * `'true'` and `'false'` become booleans, and anything with a leading
   * integer under `parseInt` becomes that integer.
   */
  function CoerceDefault(v: Value): (r: Value)
    ensures r.Str? ==> v.Str? && (forall i :: 0 <= i < |r.s| ==> !IsQuote(r.s[i]))
    ensures r.Str? ==> r.s != "true" && r.s != "false" && ParseIntString(r.s).None?
    ensures r.Str? ==> r.s == StripQuotes(v.s)
    ensures r.Bool? ==> (v.Bool? && r == v) || (v.Str? && StripQuotes(v.s) == (if r.b then "true" else "false"))
    ensures r.Num? ==> ParseInt(Unquote(v)) == Some(r.n)
    ensures ParseInt(Unquote(v)).Some? ==> r.Num?
    ensures !r.Num? && !r.Str? && !r.Bool? ==> r == v
  {
    CoerceUnquoted(Unquote(v))
  }

  /**
   * The last two steps on an unquoted value: `'true'` and `'false'` become
   * booleans, then whatever `parseInt` reads becomes that integer.
   */
  function CoerceUnquoted(u: Value): (r: Value)
    ensures r.Num? <==> ParseInt(u).Some?
    ensures r.Num? ==> ParseInt(u) == Some(r.n)
    ensures r.Str? ==> r == u && r.s != "true" && r.s != "false" && ParseIntString(r.s).None?
    ensures r.Bool? ==> (u.Bool? && r == u) || (u.Str? && u.s == (if r.b then "true" else "false"))
    ensures !r.Num? && !r.Bool? ==> r == u
  {
    var named := NameBooleans(u);
    NameBooleansParse(u);
    match ParseInt(named)
    case None => named
    case Some(n) => Num(n)
  }

  /** `replaceAll(/["'`]/g, '')` on a string default; other values pass unchanged. */
  function Unquote(v: Value): (u: Value)
    ensures v.Str? ==> u == Str(StripQuotes(v.s))
    ensures !v.Str? ==> u == v
  {
    if v.Str? then Str(StripQuotes(v.s)) else v
  }

  /** `'true'` and `'false'` become the booleans; every other value is kept. */
  function NameBooleans(u: Value): (n: Value)
    ensures n.Bool? ==> (u.Bool? && n == u) || (u.Str? && u.s == (if n.b then "true" else "false"))
    ensures n.Str? ==> n == u && n.s != "true" && n.s != "false"
    ensures !n.Bool? ==> n == u
  {
    if u == Str("true") then Bool(true)
    else if u == Str("false") then Bool(false)
    else u
  }

  /** Naming the booleans does not change what `parseInt` reads, and booleans read as `NaN`. */
  lemma NameBooleansParse(u: Value)
    ensures ParseInt(NameBooleans(u)) == ParseInt(u)
    ensures NameBooleans(u).Bool? ==> ParseInt(NameBooleans(u)) == None
    ensures NameBooleans(u).Str? ==> ParseInt(NameBooleans(u)) == ParseIntString(NameBooleans(u).s)
    ensures NameBooleans(u).Num? ==> ParseInt(NameBooleans(u)) == Some(NameBooleans(u).n)
  {
    ParseIntBooleans(NameBooleans(u));
    if u.Num? {
      ParseIntNum(u.n);
    }
    if u == Str("true") || u == Str("false") {
      ParseIntWord(u.s);
    }
  }

  /** `parseInt(true)` and `parseInt(false)` are `NaN`, so booleans survive the last step. */
  lemma ParseIntBooleans(v: Value)
    ensures v.Bool? ==> ParseInt(v) == None
  {
    if v.Bool? {
      ParseIntNonNumeric(v);
    }
  }

  /** The prop with its default normalised; every other field unchanged. */
  function NormaliseProp(p: Prop): Prop {
    p.(default := CoerceDefault(EffectiveDefault(p)))
  }

  /** `props.map(normalise)`: same number of props, same order, only `default` rewritten. */
  function NormaliseProps(ps: seq<Prop>): (r: seq<Prop>)
    ensures |r| == |ps|
    ensures forall i :: 0 <= i < |ps| ==> r[i].tags == ps[i].tags && r[i].rest == ps[i].rest
    ensures forall i :: 0 <= i < |ps| ==> r[i].default == CoerceDefault(EffectiveDefault(ps[i]))
  {
    seq(|ps|, i requires 0 <= i < |ps| => NormaliseProp(ps[i]))
  }

  /** A component with its props normalised, all else kept. */
  function WithNormalisedProps(c: Component): Component {
    c.(meta := c.meta.(props := NormaliseProps(c.meta.props)))
  }

  /** Catalog keys that are kept: those starting with the component prefix `U`. */
  predicate IsUKey(key: string) {
    StartsWith(key, "U")
  }

  /** `kebabCase(key.replace(/^U/, ''))`. */
  function CatalogName(key: string, kebab: string -> string): string
    requires IsUKey(key)
  {
    kebab(key[1..])
  }

  /** The `reduce` over `Object.entries(...)`: later entries overwrite earlier ones under the same name. */
  function NormaliseCatalog(entries: seq<(string, Component)>, kebab: string -> string): map<string, Component> {
    if entries == [] then map[]
    else
      var acc := NormaliseCatalog(entries[..|entries| - 1], kebab);
      var (key, value) := entries[|entries| - 1];
      if !IsUKey(key) then acc else acc[CatalogName(key, kebab) := WithNormalisedProps(value)]
  }

  /** A name is in the catalog exactly when some `U` key is renamed to it. */
  lemma {:induction false} CatalogDomain(entries: seq<(string, Component)>, kebab: string -> string, name: string)
    ensures name in NormaliseCatalog(entries, kebab) <==>
            exists i :: 0 <= i < |entries| && IsUKey(entries[i].0) && CatalogName(entries[i].0, kebab) == name
  {
    if entries != [] {
      var n := |entries| - 1;
      CatalogDomain(entries[..n], kebab, name);
      assert forall i :: 0 <= i < n ==> entries[..n][i] == entries[i];
      if name in NormaliseCatalog(entries, kebab) && !(name in NormaliseCatalog(entries[..n], kebab)) {
        assert IsUKey(entries[n].0) && CatalogName(entries[n].0, kebab) == name;
      }
    }
  }

  /** The entry a name maps to is the normalised value of the last `U` key renamed to it. */
  lemma {:induction false} CatalogLastWins(entries: seq<(string, Component)>, kebab: string -> string, i: nat)
    requires i < |entries| && IsUKey(entries[i].0)
    requires forall j :: i < j < |entries| && IsUKey(entries[j].0) ==>
               CatalogName(entries[j].0, kebab) != CatalogName(entries[i].0, kebab)
    ensures CatalogName(entries[i].0, kebab) in NormaliseCatalog(entries, kebab)
    ensures NormaliseCatalog(entries, kebab)[CatalogName(entries[i].0, kebab)] == WithNormalisedProps(entries[i].1)
  {
    var n := |entries| - 1;
    if i < n {
      assert entries[..n][i] == entries[i];
      forall j | i < j < n && IsUKey(entries[..n][j].0)
        ensures CatalogName(entries[..n][j].0, kebab) != CatalogName(entries[..n][i].0, kebab)
      {
        assert entries[..n][j] == entries[j];
      }
      CatalogLastWins(entries[..n], kebab, i);
    }
  }

  /** What the in-place `value.meta.props = ...` leaves behind in the catalog module: `U` entries normalised. */
  function RewriteInPlace(entries: seq<(string, Component)>): (r: seq<(string, Component)>)
    ensures |r| == |entries|
    ensures forall i :: 0 <= i < |entries| ==> r[i].0 == entries[i].0
    ensures forall i :: 0 <= i < |entries| ==>
              r[i].1 == if IsUKey(entries[i].0) then WithNormalisedProps(entries[i].1) else entries[i].1
  {
    seq(|entries|, i requires 0 <= i < |entries| =>
      (entries[i].0, if IsUKey(entries[i].0) then WithNormalisedProps(entries[i].1) else entries[i].1))
  }

  /** A normalised default is stable: normalising it again changes nothing. */
  lemma CoerceIdempotent(v: Value)
    ensures CoerceDefault(CoerceDefault(v)) == CoerceDefault(v)
  {
    var r := CoerceDefault(v);
    match r
    case Str(s) =>
      assert StripQuotes(s) == s;
    case Num(n) =>
      ParseIntNum(n);
    case Bool(_) =>
      ParseIntNonNumeric(r);
    case _ =>
  }

  /** Normalising a prop twice is normalising it once, as long as the normalised default is truthy. */
  lemma NormalisePropStableWhenTruthy(p: Prop)
    requires Truthy(CoerceDefault(EffectiveDefault(p)))
    ensures NormaliseProp(NormaliseProp(p)) == NormaliseProp(p)
  {
    CoerceIdempotent(EffectiveDefault(p));
  }

  /**
   * A falsy normalised default (`false`, `0`, `''`) is not re-read on a second
   * pass: with no tag to fall back on it becomes `undefined`.
   */
  lemma NormaliseFalsyLosesDefault(p: Prop)
    requires !Truthy(CoerceDefault(EffectiveDefault(p)))
    requires TagDefault(p.tags) == Undefined
    ensures NormaliseProp(NormaliseProp(p)).default == Undefined
  {
    assert ParseInt(Undefined) == None by {
      ParseIntNonNumeric(Undefined);
    }
  }

  /** The default `'false'` with no tags: `false` on a first pass, `undefined` on a second. */
  lemma FalseDefaultLostOnSecondPass()
    ensures NormaliseProp(Prop(Str("false"), None, map[])).default == Bool(false)
    ensures NormaliseProp(NormaliseProp(Prop(Str("false"), None, map[]))).default == Undefined
  {
    var p := Prop(Str("false"), None, map[]);
    assert EffectiveDefault(p) == Str("false");
    assert StripQuotes("false") == "false";
    ParseIntNonNumeric(Bool(false));
    assert CoerceDefault(Str("false")) == Bool(false);
    NormaliseFalsyLosesDefault(p);
  }

  /** Text made of a number and an optional unit, free of quotes, normalises to the number. */
  lemma CoerceNumberText(ds: string, tail: string)
    requires |ds| > 0 && ds[0] != '0' && forall i :: 0 <= i < |ds| ==> IsDecDigit(ds[i])
    requires tail == [] || !IsDecDigit(tail[0])
    requires forall i :: 0 <= i < |ds + tail| ==> !IsQuote((ds + tail)[i])
    ensures CoerceDefault(Str(ds + tail)) == Num(DecValue(ds))
  {
    var x := ds + tail;
    assert StripQuotes(x) == x;
    assert x[0] == ds[0] && IsDecDigit(x[0]);
    assert x != "true" && x != "false" by {
      assert !IsDecDigit("true"[0]) && !IsDecDigit("false"[0]);
    }
    ParseIntDigits(ds, tail);
    CoerceParsedText(x, DecValue(ds));
  }

  /** Quote-free text other than `true`/`false` that `parseInt` reads as `n` normalises to `n`. */
  lemma CoerceParsedText(x: string, n: int)
    requires StripQuotes(x) == x && x != "true" && x != "false"
    requires ParseIntString(x) == Some(n)
    ensures CoerceDefault(Str(x)) == Num(n)
  {
    var named := Str(x);
    assert ToJsString(named) == x;
    assert ParseInt(named) == Some(n);
    assert Str(StripQuotes(x)) == named;
    assert named != Str("true") && named != Str("false");
  }

  lemma DecValue42()
    ensures DecValue("42") == 42
  {
    assert "42"[..1] == "4";
  }

  /** A numeric default normalises to its number: `'42'` gives 42. */
  lemma CoerceNumericText()
    ensures CoerceDefault(Str("42")) == Num(42)
  {
    assert "42" + [] == "42";
    DecValue42();
    CoerceNumberText("42", []);
  }

  /** A number followed by a unit normalises to the number: `'42px'` gives 42. */
  lemma CoerceNumberWithUnit()
    ensures CoerceDefault(Str("42px")) == Num(42)
  {
    assert "42" + "px" == "42px";
    DecValue42();
    CoerceNumberText("42", "px");
  }

  /** Quoted text loses its quotes and stays text. */
  lemma CoerceQuotedText()
    ensures CoerceDefault(Str("'md'")) == Str("md")
  {
    assert StripQuotes("'md'") == "md";
    ParseIntWord("md");
  }

  /** A quoted `"true"` is the boolean `true` once its quotes are gone. */
  lemma CoerceQuotedBoolean()
    ensures CoerceDefault(Str("\"true\"")) == Bool(true)
  {
    assert StripQuotes("\"true\"") == "true";
    ParseIntNonNumeric(Bool(true));
  }

  /** The default comes from `default` when it is truthy, and only then from the tags. */
  lemma EffectiveDefaultSource(p: Prop)
    ensures Truthy(p.default) ==> EffectiveDefault(p) == p.default
    ensures !Truthy(p.default) && p.tags.None? ==> EffectiveDefault(p) == Undefined
    ensures !Truthy(p.default) && p.tags.Some? ==>
              (forall i :: 0 <= i < |p.tags.value| ==> !IsDefaultValueTag(p.tags.value[i])) ==>
              EffectiveDefault(p) == Undefined
    ensures !Truthy(p.default) && p.tags.Some? ==>
              forall i :: 0 <= i < |p.tags.value| && IsDefaultValueTag(p.tags.value[i]) &&
                          (forall j :: 0 <= j < i ==> !IsDefaultValueTag(p.tags.value[j])) ==>
                EffectiveDefault(p) == (if p.tags.value[i].text.Some? then Str(p.tags.value[i].text.value) else Undefined)
  {
    if !Truthy(p.default) && p.tags.Some? {
      var r := FindDefaultTag(p.tags.value, 0);
      if r.Some? {
        forall i | 0 <= i < |p.tags.value| && IsDefaultValueTag(p.tags.value[i]) &&
                   (forall j :: 0 <= j < i ==> !IsDefaultValueTag(p.tags.value[j]))
          ensures i == r.value
        {
        }
      }
    }
  }

  /** A tag whose text mentions `appConfig` is never the source of a default. */
  lemma AppConfigTagSkipped(t: Tag)
    requires t.text.Some? && Contains(t.text.value, "appConfig")
    ensures !IsDefaultValueTag(t)
  {
  }

  /**
   * The default export of the generated `.component-meta` module. It is the
   * same object on every request, and the handler rewrites its `U` entries'
   * props in place.
   */
  class ComponentMetaModule {
    var entries: seq<(string, Component)>

    constructor(initial: seq<(string, Component)>)
      ensures entries == initial
    {
      entries := initial;
    }

    /**
     * The `component-meta` handler as written: the JSON content type is set
     * first, then the catalog is built entry by entry, and each `U` entry's normalised props are also stored back into
     * this module; the response body is `defu(catalog, store)`.
     */
    method HandleInPlace(kebab: string -> string, store: map<string, Value>,
                         merge: (map<string, Component>, map<string, Value>) -> Value)
      returns (jsonContentType: bool, body: Value)
      modifies this
      ensures jsonContentType
      ensures entries == RewriteInPlace(old(entries))
      ensures body == merge(NormaliseCatalog(old(entries), kebab), store)
    {
      jsonContentType := true;
      var acc: map<string, Component> := map[];
      var i := 0;
      while i < |entries|
        invariant 0 <= i <= |entries| == |old(entries)|
        invariant acc == NormaliseCatalog(old(entries)[..i], kebab)
        invariant entries[..i] == RewriteInPlace(old(entries)[..i])
        invariant entries[i..] == old(entries)[i..]
      {
        var (key, value) := entries[i];
        assert old(entries)[..i + 1][..i] == old(entries)[..i];
        assert entries[i] == old(entries)[i];
        if IsUKey(key) {
          var normalised := WithNormalisedProps(value);
          entries := entries[i := (key, normalised)];
          acc := acc[CatalogName(key, kebab) := normalised];
        }
        i := i + 1;
      }
      assert old(entries)[..i] == old(entries);
      assert entries[..i] == entries;
      body := merge(acc, store);
    }

    /**
     * The handler with the catalog built from copies: this module is left as
     * it is, so every request serves the same catalog.
     */
    method Handle(kebab: string -> string, store: map<string, Value>,
                  merge: (map<string, Component>, map<string, Value>) -> Value)
      returns (jsonContentType: bool, body: Value)
      ensures jsonContentType
      ensures body == merge(NormaliseCatalog(entries, kebab), store)
    {
      jsonContentType := true;
      var acc: map<string, Component> := map[];
      var i := 0;
      while i < |entries|
        invariant 0 <= i <= |entries|
        invariant acc == NormaliseCatalog(entries[..i], kebab)
      {
        var (key, value) := entries[i];
        assert entries[..i + 1][..i] == entries[..i];
        if IsUKey(key) {
          acc := acc[CatalogName(key, kebab) := WithNormalisedProps(value)];
        }
        i := i + 1;
      }
      assert entries[..i] == entries;
      body := merge(acc, store);
    }
  }

  /** The prop whose default `'false'` comes without tags. */
  function ToggleProp(): Prop {
    Prop(Str("false"), None, map[])
  }

  /** One `U` component with the prop default `'false'` and no tags. */
  function ToggleCatalog(): seq<(string, Component)> {
    [("UToggle", Component(ComponentMeta([ToggleProp()], map[]), map[]))]
  }

  /** A catalog of one `U` entry holds that entry, normalised, under its name. */
  lemma SingleEntryCatalog(key: string, c: Component, kebab: string -> string)
    requires IsUKey(key)
    ensures NormaliseCatalog([(key, c)], kebab) == map[CatalogName(key, kebab) := WithNormalisedProps(c)]
  {
    assert [(key, c)][..0] == [];
  }

  /**
   * Serving the catalog twice from a module rewritten in place: the first
   * response has the default `false`, the second has lost it.
   */
  lemma SecondRequestLosesDefault(kebab: string -> string)
    ensures NormaliseCatalog(ToggleCatalog(), kebab)[kebab("Toggle")].meta.props[0].default == Bool(false)
    ensures NormaliseCatalog(RewriteInPlace(ToggleCatalog()), kebab)[kebab("Toggle")].meta.props[0].default == Undefined
  {
    var c := ToggleCatalog()[0].1;
    assert IsUKey("UToggle") && "UToggle"[1..] == "Toggle";
    var once := WithNormalisedProps(c);
    assert RewriteInPlace(ToggleCatalog()) == [("UToggle", once)];
    SingleEntryCatalog("UToggle", c, kebab);
    SingleEntryCatalog("UToggle", once, kebab);
    assert once.meta.props == [NormaliseProp(ToggleProp())];
    assert WithNormalisedProps(once).meta.props == [NormaliseProp(NormaliseProp(ToggleProp()))];
    FalseDefaultLostOnSecondPass();
  }

  /**
   * Rewriting in place is harmless for a component whose props all normalise
   * to truthy defaults: normalising it again gives the same component.
   */
  lemma NormalisedComponentStable(c: Component)
    requires forall k :: 0 <= k < |c.meta.props| ==> Truthy(CoerceDefault(EffectiveDefault(c.meta.props[k])))
    ensures WithNormalisedProps(WithNormalisedProps(c)) == WithNormalisedProps(c)
  {
    var once := NormaliseProps(c.meta.props);
    var twice := NormaliseProps(once);
    forall k | 0 <= k < |once|
      ensures twice[k] == once[k]
    {
      NormalisePropStableWhenTruthy(c.meta.props[k]);
      assert once[k] == NormaliseProp(c.meta.props[k]);
    }
    assert twice == once;
  }
}
