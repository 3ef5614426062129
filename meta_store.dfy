/**
 * The `transform` hook of the devtools metadata plugin and the module-level
 * store `devtoolsComponentMeta` it fills: for every `.vue` module, the
 * override block found by `extractComponentMeta` is evaluated and written,
 * wrapped as `{ meta: { devtools: { ... } } }`, under the component's slug.
 *
 * Evaluating the block (`new Function('return ' + block)()`) runs arbitrary
 * code and `kebabCase` comes from a library: both are parameters here, the
 * evaluator returning `None` when the evaluated code throws.
 */
module MetaStore {
  import opened Wrappers
  import opened Text
  import opened JsValue
  import opened MetaExtract

  /** The fields `{ ...items }` gets from an array-like value: index `i` under the key `String(i)`. */
  function IndexFields(items: seq<Value>): map<string, Value> {
    if items == [] then map[]
    else IndexFields(items[..|items| - 1])[ShowNat(|items| - 1) := items[|items| - 1]]
  }

  /** Index `i` is stored under `String(i)`; decimal notation being injective, no later index overwrites it. */
  lemma {:induction false} IndexFieldsLookup(items: seq<Value>, i: nat)
    requires i < |items|
    ensures ShowNat(i) in IndexFields(items) && IndexFields(items)[ShowNat(i)] == items[i]
  {
    var n := |items| - 1;
    if i < n {
      IndexFieldsLookup(items[..n], i);
      if ShowNat(i) == ShowNat(n) {
        ShowNatInjective(i, n);
      }
    }
  }

  /** Every key is the decimal notation of an index. */
  lemma {:induction false} IndexFieldsKeys(items: seq<Value>, k: string)
    requires k in IndexFields(items)
    ensures exists i :: 0 <= i < |items| && ShowNat(i) == k
  {
    var n := |items| - 1;
    if k != ShowNat(n) {
      IndexFieldsKeys(items[..n], k);
    }
  }

  /** The one-character strings of `s`, in order: what indexing a string yields. */
  function CharValues(s: string): (r: seq<Value>)
    ensures |r| == |s| && forall i :: 0 <= i < |s| ==> r[i] == Str([s[i]])
  {
    if s == [] then [] else CharValues(s[..|s| - 1]) + [Str([s[|s| - 1]])]
  }

  /**
   * `{ ...v }`: an object keeps its fields, a string and an array give one
   * field per index, and every other value gives no field at all.
   */
  function Spread(v: Value): map<string, Value> {
    match v
    case Obj(fields) => fields
    case Str(s) => IndexFields(CharValues(s))
    case Arr(items) => IndexFields(items)
    case _ => map[]
  }

  /** What spreading gives, value by value. */
  lemma SpreadFields(v: Value)
    ensures v.Obj? ==> Spread(v) == v.fields
    ensures v.Str? ==> forall i :: 0 <= i < |v.s| ==> ShowNat(i) in Spread(v) && Spread(v)[ShowNat(i)] == Str([v.s[i]])
    ensures v.Str? ==> |Spread(v).Keys| <= |v.s| && forall k :: k in Spread(v) ==> exists i :: 0 <= i < |v.s| && ShowNat(i) == k
    ensures v.Arr? ==> forall i :: 0 <= i < |v.items| ==> ShowNat(i) in Spread(v) && Spread(v)[ShowNat(i)] == v.items[i]
    ensures v.Arr? ==> forall k :: k in Spread(v) ==> exists i :: 0 <= i < |v.items| && ShowNat(i) == k
    ensures v.Undefined? || v.Null? || v.Bool? || v.Num? ==> Spread(v) == map[]
  {
    if v.Str? || v.Arr? {
      var items := if v.Arr? then v.items else CharValues(v.s);
      assert Spread(v) == IndexFields(items);
      forall i | 0 <= i < |items|
        ensures ShowNat(i) in IndexFields(items) && IndexFields(items)[ShowNat(i)] == items[i]
      {
        IndexFieldsLookup(items, i);
      }
      forall k | k in IndexFields(items)
        ensures exists i :: 0 <= i < |items| && ShowNat(i) == k
      {
        IndexFieldsKeys(items, k);
      }
      IndexFieldsSize(items);
    }
  }

  lemma {:induction false} IndexFieldsSize(items: seq<Value>)
    ensures |IndexFields(items).Keys| <= |items|
  {
    if items != [] {
      IndexFieldsSize(items[..|items| - 1]);
    }
  }

  /** The store entry written for an evaluated block: `{ meta: { devtools: { ...v } } }`. */
  function StoreEntry(v: Value): Value {
    Obj(map["meta" := Obj(map["devtools" := Obj(Spread(v))])])
  }

  /** The slug of a module id: its last path segment, cut at the first `.`, in kebab case. */
  function Slug(id: string, kebab: string -> string): string {
    kebab(CutAtFirstDot(LastSegment(id)))
  }

  /** What one call of the hook does to the store. */
  datatype Effect = NoWrite | Write(slug: string, entry: Value) | EvalThrows

  /** What `transform` returns: nothing for other files, `{ code }` otherwise, or a rejection when evaluation throws. */
  datatype Outcome = Skipped | Passed(code: string) | Threw

  /** The effect of `transform(code, id)` on the store. */
  function TransformEffect(code: string, id: string, kebab: string -> string, evaluate: string -> Option<Value>): Effect {
    if !EndsWith(id, ".vue") then NoWrite
    else if code == [] || LastSegment(id) == [] then NoWrite
    else BlockEffect(ExtractSpec(code), Slug(id, kebab), evaluate)
  }

  /** The effect of an extracted block: an absent or empty (falsy) block writes nothing. */
  function BlockEffect(block: Option<string>, slug: string, evaluate: string -> Option<Value>): Effect {
    match block
    case None => NoWrite
    case Some(text) =>
      if text == [] then NoWrite
      else match evaluate("return " + text)
        case None => EvalThrows
        case Some(v) => Write(slug, StoreEntry(v))
  }

  /** The store after an effect: a write replaces the one key it names and leaves every other key as it was. */
  function ApplyEffect(store: map<string, Value>, e: Effect): (r: map<string, Value>)
    ensures e.Write? ==> r.Keys == store.Keys + {e.slug} && r[e.slug] == e.entry
    ensures e.Write? ==> forall k :: k in store && k != e.slug ==> r[k] == store[k]
    ensures !e.Write? ==> r == store
  {
    if e.Write? then store[e.slug := e.entry] else store
  }

  /** The last write to a slug wins: a second write under the same slug hides the first entirely. */
  lemma LastWriteWins(store: map<string, Value>, slug: string, first: Value, second: Value)
    ensures ApplyEffect(ApplyEffect(store, Write(slug, first)), Write(slug, second))
         == ApplyEffect(store, Write(slug, second))
  {
  }

  /** A `.vue` id always has a non-empty last segment, so the `fileName` test never fails for one. */
  lemma VueFileNameNonEmpty(id: string)
    requires EndsWith(id, ".vue")
    ensures LastSegment(id) != []
  {
    assert id[|id| - 1] == ".vue"[3];
  }

  /** For a non-empty `.vue` module the effect is decided by the extracted block alone. */
  lemma VueEffect(code: string, id: string, kebab: string -> string, evaluate: string -> Option<Value>)
    requires EndsWith(id, ".vue") && code != []
    ensures TransformEffect(code, id, kebab, evaluate) == BlockEffect(ExtractSpec(code), Slug(id, kebab), evaluate)
  {
    VueFileNameNonEmpty(id);
  }

  /** Modules whose id does not end in `.vue` are left alone. */
  lemma NonVueUntouched(code: string, id: string, kebab: string -> string, evaluate: string -> Option<Value>)
    requires !EndsWith(id, ".vue")
    ensures TransformEffect(code, id, kebab, evaluate) == NoWrite
  {
  }

  /** Without the marker, nothing is written. */
  lemma NoMarkerNoWrite(code: string, id: string, kebab: string -> string, evaluate: string -> Option<Value>)
    requires FindMarker(code, 0) == None
    ensures TransformEffect(code, id, kebab, evaluate) == NoWrite
  {
  }

  /** When the brace counts never meet, the block is empty, hence falsy, and nothing is written. */
  lemma UnbalancedNoWrite(code: string, id: string, kebab: string -> string, evaluate: string -> Option<Value>, p: nat, s: nat)
    requires FindMarker(code, 0) == Some((p, s))
    requires forall j :: s <= j < |code| ==> !BalancedAt(code, s, j)
    ensures TransformEffect(code, id, kebab, evaluate) == NoWrite
  {
    UnbalancedIsEmpty(code, p, s);
  }

  /**
   * The usual case: a `.vue` module with white space and a well-formed object
   * literal after the marker gets that literal's evaluation stored under its slug.
   */
  lemma WellFormedWrite(code: string, id: string, kebab: string -> string, evaluate: string -> Option<Value>,
                        p: nat, s: nat, w: string, b: string, rest: string, v: Value)
    requires EndsWith(id, ".vue")
    requires FindMarker(code, 0) == Some((p, s))
    requires s <= |code| && code[s..] == w + b + rest
    requires AllSpace(w) && IsObjectBlock(b)
    requires evaluate("return " + b) == Some(v)
    ensures TransformEffect(code, id, kebab, evaluate) == Write(Slug(id, kebab), StoreEntry(v))
  {
    ExtractWellFormed(code, p, s, w, b, rest);
    EvaluatedBlockWrite(code, id, kebab, evaluate, b, v);
  }

  /** A `.vue` module whose extracted block evaluates to `v` stores the entry for `v` under its slug. */
  lemma EvaluatedBlockWrite(code: string, id: string, kebab: string -> string, evaluate: string -> Option<Value>,
                            b: string, v: Value)
    requires EndsWith(id, ".vue") && code != []
    requires ExtractSpec(code) == Some(b) && b != []
    requires evaluate("return " + b) == Some(v)
    ensures TransformEffect(code, id, kebab, evaluate) == Write(Slug(id, kebab), StoreEntry(v))
  {
    VueEffect(code, id, kebab, evaluate);
  }

  /** A block whose evaluation throws makes the hook reject, and nothing is written. */
  lemma ThrowingBlockNoWrite(code: string, id: string, kebab: string -> string, evaluate: string -> Option<Value>, block: string)
    requires EndsWith(id, ".vue") && code != []
    requires ExtractSpec(code) == Some(block) && block != []
    requires evaluate("return " + block) == None
    ensures TransformEffect(code, id, kebab, evaluate) == EvalThrows
  {
    VueFileNameNonEmpty(id);
  }

  /** The module-level store `devtoolsComponentMeta` with the `transform` hook that fills it. */
  class DevtoolsMetaStore {
    var entries: map<string, Value>

    constructor()
      ensures entries == map[]
    {
      entries := map[];
    }

    /**
     * The write of `transform` once the block is extracted: an absent or empty
     * block is skipped, otherwise it is evaluated and stored under the slug.
     * `threw` reports an evaluation that throws, in which case nothing is written.
     */
    method StoreBlock(slug: string, block: Option<string>, evaluate: string -> Option<Value>) returns (threw: bool)
      modifies this
      ensures threw <==> BlockEffect(block, slug, evaluate) == EvalThrows
      ensures entries == ApplyEffect(old(entries), BlockEffect(block, slug, evaluate))
    {
      threw := false;
      if block.Some? && block.value != [] {
        var metaObject := evaluate("return " + block.value);
        if metaObject.None? {
          return true;
        }
        entries := entries[slug := StoreEntry(metaObject.value)];
      }
    }

    /**
     * `transform(code, id)`: for a `.vue` id, extract the override block,
     * evaluate it and store the result under the slug; the code itself is
     * always handed back unchanged.
     */
    method Transform(code: string, id: string, kebab: string -> string, evaluate: string -> Option<Value>)
      returns (r: Outcome)
      modifies this
      ensures r == Skipped <==> !EndsWith(id, ".vue")
      ensures r == Threw <==> TransformEffect(code, id, kebab, evaluate) == EvalThrows
      ensures r.Passed? ==> r.code == code
      ensures entries == ApplyEffect(old(entries), TransformEffect(code, id, kebab, evaluate))
    {
      if !EndsWith(id, ".vue") {
        return Skipped;
      }
      var fileName := LastSegment(id);
      VueFileNameNonEmpty(id);
      if code != [] && fileName != [] {
        var slug := kebab(CutAtFirstDot(fileName));
        var block := ExtractComponentMeta(code);
        VueEffect(code, id, kebab, evaluate);
        var threw := StoreBlock(slug, block, evaluate);
        if threw {
          return Threw;
        }
      }
      r := Passed(code);
    }
  }
}
