# Nuxt UI devtools metadata and module setup, in Dafny

This project models the core of the Nuxt UI module's development tooling and
two option rewrites of the module's `setup`:

- `extractComponentMeta` (`src/devtools/meta.ts`) finds the
  `extendDevtoolsMeta(...)` call in a component's source. The marker regular
  expression is modelled, including its optional lazy `<...>` generic part.
  Brace counting then cuts out the object literal, which is trimmed.
- The `transform` hook fills the module-level store `devtoolsComponentMeta`.
  The store is a class with a map field. For every `.vue` module the
  extracted block is evaluated and stored under the file's slug as
  `{ meta: { devtools: { ...value } } }`. Object spread is modelled for
  objects, strings and arrays.
- The `component-meta` endpoint keeps the `U` entries of the generated
  component catalog and renames them to kebab case. It normalises each
  prop's default in sequence: the text of a `defaultValue` tag, quote
  removal, `'true'`/`'false'`, and `parseInt`. The generated module is a
  class whose entries the handler rewrites in place.
- The `component-example` endpoint answers 400, 500 or 200.
- `setup` (`src/module.ts`) builds the theme colour list: `primary` first,
  then the configured colours without duplicates, or the six defaults. It
  also appends `isolate` to the root element's class.

JavaScript semantics are written out in `JsValue` and `Text`:

- truthiness and `String(x)`, with arrays joined by `,`;
- `Number.parseInt` without a radix: white space, sign, `0x`, then the
  leading digits;
- `trim` with the full ECMAScript white-space set, and `.` in a regular
  expression stopping at line terminators;
- `startsWith`, `endsWith`, `indexOf`, `split('/')` and
  `replaceAll(/["'`]/g, '')`.

Three things are parameters rather than code:

- `kebabCase` (a library);
- evaluation of the block through `new Function`, where `None` means the
  evaluated code throws;
- the `defu` merge of the catalog with the store.

Reading the example file is also a parameter, where `None` means the read
throws.

Where the code and its documentation differ, the model follows the code:

- When the braces never balance, the extracted text is empty, not "to the
  end of the file".
- A stray `}` before the first `{` lets the span end on that `{`
  (`MetaExtract.StrayCloseBrace`).
- A prop's own `default` is used only when it is truthy.
- `parseInt` reads a leading integer, so `'42px'` becomes 42 and `'0x1F'`
  becomes 31.
- The catalog keeps keys starting with a hard-coded `U`, whatever the
  configured prefix.
- An empty `component` parameter is refused like a missing one.
- The slug is cut at the first `.` only up to a line terminator, as `.*` does.
- An array root class is joined with commas before ` isolate` is added
  (`ModuleSetup.RootClassOfArray`).

## Model

| member | source | states |
|---|---|---|
| MetaExtract.ExtractComponentMeta | src/devtools/meta.ts:10-30 | The result is `ExtractSpec(code)`: no marker match gives `null`; otherwise the trimmed slice from the end of the match to one past the first balance point. The slice is empty if the braces never balance. |
| MetaExtract.ScanBraces | src/devtools/meta.ts:15-27 | The `for` loop stops one past the first index where the `{` and `}` counts are equal and positive. It stays at the start when that never happens. Proved with loop invariants on both counts. |
| MetaExtract.IndexOfMatchedText | src/devtools/meta.ts:11-14 | `code.indexOf(match[0])` finds the match's own position. No earlier occurrence of the matched text can itself begin a match, so `startIndex` is just past the match. |
| MetaExtract.FindMarkerLeftmost | src/devtools/meta.ts:11 | `code.match` returns the leftmost match: no position before the one found starts a match of the marker. |
| MetaExtract.MarkerEndAt | src/devtools/meta.ts:11 | A match at `p` starts with `extendDevtoolsMeta` and ends on `(`. Directly after the name, `(` always gives the shortest match. |
| MetaExtract.GenericEnd | src/devtools/meta.ts:11 | The lazy `<.*?>` group ends just after a `>(`, with no line terminator and no earlier `>(` between the `<` and it. |
| MetaExtract.GenericEndFound | src/devtools/meta.ts:11 | A `>(` reached without crossing a line terminator always closes the group, at that `>(` or an earlier one. With `GenericEnd`, the group ends at exactly the first such `>(` and fails only when a line terminator comes first. |
| MetaExtract.SpanEndAt | src/devtools/meta.ts:19-26 | The first balance point at or after the start decides where the span ends. |
| MetaExtract.SpanEndsOnBrace | src/devtools/meta.ts:20-25 | A non-empty span ends on `}`, or on `{` when a stray `}` came before it. |
| MetaExtract.StrayCloseBrace | src/devtools/meta.ts:19-29 | `extendDevtoolsMeta(}{ a: 1 }` extracts `}{`. |
| MetaExtract.UnbalancedIsEmpty | src/devtools/meta.ts:17-29 | When the counts never meet, `endIndex` stays at `startIndex` and the result is the empty string. |
| MetaExtract.ExtractWellFormed | src/devtools/meta.ts:10-30 | White space followed by a well-formed object literal extracts exactly that literal, whatever follows it. |
| MetaExtract.ObjectBlockEndsWithClose | src/devtools/meta.ts:23 | A well-formed object literal has at least two characters and ends with `}`. |
| MetaStore.DevtoolsMetaStore.Transform | src/devtools/meta.ts:38-54 | Non-`.vue` ids are skipped. Every other call hands the code back unchanged, or rejects exactly when evaluation throws. The store after the call is the old store with `TransformEffect` applied. |
| MetaStore.DevtoolsMetaStore.StoreBlock | src/devtools/meta.ts:45-48 | An absent or empty block writes nothing. Otherwise the evaluation either throws, with nothing written, or its spread is written under the slug. |
| MetaStore.DevtoolsMetaStore.constructor | src/devtools/meta.ts:8 | The store starts empty. |
| MetaStore.ApplyEffect | src/devtools/meta.ts:47 | A write adds or replaces exactly the slug's key and leaves every other key's value unchanged. Other effects leave the store alone. |
| MetaStore.LastWriteWins | src/devtools/meta.ts:47 | A second write under the same slug replaces the first completely. |
| MetaStore.SpreadFields | src/devtools/meta.ts:47 | `{ ...v }` gives an object's own fields. A string or an array gives one field per index, named by the index in decimal. Every other value gives no fields. |
| MetaStore.IndexFieldsLookup | src/devtools/meta.ts:47 | Index `i` of a spread array is found under the key `String(i)`. |
| MetaStore.VueFileNameNonEmpty | src/devtools/meta.ts:40-42 | An id ending in `.vue` has a non-empty last path segment, so the `fileName` test never fails for it. |
| MetaStore.VueEffect | src/devtools/meta.ts:39-48 | For non-empty `.vue` code, the effect depends only on the extracted block and the slug. |
| MetaStore.NonVueUntouched | src/devtools/meta.ts:39 | Ids not ending in `.vue` never change the store. |
| MetaStore.NoMarkerNoWrite | src/devtools/meta.ts:12-45 | Code without the marker writes nothing. |
| MetaStore.UnbalancedNoWrite | src/devtools/meta.ts:29-45 | An unbalanced block is empty, hence falsy, and writes nothing. |
| MetaStore.WellFormedWrite | src/devtools/meta.ts:38-48 | A `.vue` module with a well-formed literal after the marker gets that literal's evaluation stored under its slug. |
| MetaStore.ThrowingBlockNoWrite | src/devtools/meta.ts:46 | When evaluation throws, the hook rejects and nothing is written. |
| MetaCatalog.ComponentMetaModule.HandleInPlace | src/devtools/meta.ts:58-88 | `Content-Type: application/json` is always set. The response body is `defu` of the normalised catalog and the store. As a side effect, every `U` entry of the imported module now holds its normalised props. |
| MetaCatalog.ComponentMetaModule.Handle | src/devtools/meta.ts:58-86 | The same header and the same body, built without changing the module. |
| MetaCatalog.ComponentMetaModule.constructor | src/devtools/meta.ts:59 | The module holds the generated catalog entries. |
| MetaCatalog.CatalogDomain | src/devtools/meta.ts:61-84 | A name is in the catalog if and only if some key starting with `U` is renamed to it. |
| MetaCatalog.CatalogLastWins | src/devtools/meta.ts:82 | A `U` entry with no later entry under the same name is served with its props normalised. |
| MetaCatalog.NormaliseProps | src/devtools/meta.ts:64-80 | Normalising keeps the number and order of props and every field except `default`. Each `default` becomes the coerced effective default. |
| MetaCatalog.FindDefaultTag | src/devtools/meta.ts:67-69 | `find` returns the first tag named `defaultValue` whose text does not mention `appConfig`. |
| MetaCatalog.EffectiveDefaultSource | src/devtools/meta.ts:65-69 | A truthy `default` is used as it is. Otherwise the first default-supplying tag's text is used. The result is `undefined` when there is no such tag, when that tag has no text, or when `tags` is absent. |
| MetaCatalog.AppConfigTagSkipped | src/devtools/meta.ts:69 | A tag mentioning `appConfig` never supplies a default. |
| MetaCatalog.CoerceDefault | src/devtools/meta.ts:71-74 | Text stays text only when it is quote-free, neither `true` nor `false`, and `NaN` under `parseInt`. A text result is exactly the input with its quotes removed. A boolean comes from a boolean, or from text that reads `true`/`false` after quote removal. A number is `parseInt` of the unquoted value, and every value `parseInt` reads, of any type (an array such as `['1']` included), becomes a number. Anything else is unchanged. Together these fix the result for every input. |
| MetaCatalog.CoerceUnquoted | src/devtools/meta.ts:72-74 | After quote removal the result is a number exactly when `parseInt` reads the value, and then it is that number. Text that survives equals the input, is neither `true` nor `false`, and is `NaN` under `parseInt`. A boolean comes from a boolean or from the text `true`/`false`. Anything else is the input unchanged. |
| MetaCatalog.Unquote | src/devtools/meta.ts:71 | A string loses its quote characters; a value of any other type passes unchanged. |
| MetaCatalog.NameBooleans | src/devtools/meta.ts:72-73 | Only the texts `true` and `false` become booleans, each to its own value; every other value is kept. |
| MetaCatalog.NameBooleansParse | src/devtools/meta.ts:72-74 | Naming the booleans does not change what `parseInt` reads: booleans read as `NaN`, kept text reads as its own `parseInt`, a kept number reads as itself. |
| MetaCatalog.ParseIntBooleans | src/devtools/meta.ts:72-74 | A boolean produced from `'true'`/`'false'` is not turned into a number by the last step. |
| MetaCatalog.CoerceIdempotent | src/devtools/meta.ts:71-74 | Coercing a coerced value again changes nothing. |
| MetaCatalog.NormalisePropStableWhenTruthy | src/devtools/meta.ts:64-79 | A prop whose coerced default is truthy normalises to the same prop a second time. |
| MetaCatalog.NormaliseFalsyLosesDefault | src/devtools/meta.ts:65-69 | A prop whose coerced default is falsy and has no default-supplying tag gets `undefined` when normalised again. |
| MetaCatalog.FalseDefaultLostOnSecondPass | src/devtools/meta.ts:64-80 | A default of `'false'` with no tags gives `false` the first time and `undefined` the second. |
| MetaCatalog.SecondRequestLosesDefault | src/devtools/meta.ts:59-84 | Served from the module as rewritten by a first request, the catalog has lost the `false` default. |
| MetaCatalog.NormalisedComponentStable | src/devtools/meta.ts:64-80 | A component whose coerced defaults are all truthy is unchanged by a second normalisation. |
| MetaCatalog.CoerceNumberText | src/devtools/meta.ts:74 | Quote-free digits (not starting with `0`) followed by a non-digit become the digits' value. |
| MetaCatalog.CoerceParsedText | src/devtools/meta.ts:71-74 | Quote-free text other than `true`/`false` that `parseInt` reads as `n` becomes `n`. |
| MetaCatalog.CoerceNumericText | src/devtools/meta.ts:74 | `'42'` becomes 42. |
| MetaCatalog.CoerceNumberWithUnit | src/devtools/meta.ts:74 | `'42px'` becomes 42. |
| MetaCatalog.CoerceQuotedText | src/devtools/meta.ts:71-74 | `"'md'"` becomes `md` and stays text. |
| MetaCatalog.CoerceQuotedBoolean | src/devtools/meta.ts:71-72 | `'"true"'` becomes the boolean `true`. |
| MetaCatalog.RewriteInPlace | src/devtools/meta.ts:62-64 | Only `U` entries are rewritten, and only their props. Keys and order are kept. |
| MetaExample.ExampleResponse | src/devtools/meta.ts:91-111 | 400 with "Component name is required" exactly when the name is missing or empty. 500 with "Failed to read component source" exactly when the read throws. Otherwise 200 with the name and the file's text. The JSON content type is set exactly on success. |
| MetaExample.ExampleStatuses | src/devtools/meta.ts:94-110 | Every request is answered with 200, 400 or 500. |
| MetaExample.MissingNameReadsNothing | src/devtools/meta.ts:94-98 | Without a name the file reader plays no part. |
| MetaExample.ExampleEchoesSource | src/devtools/meta.ts:101-105 | The source sent back is exactly what was read from `../runtime/examples/<name>.vue`. |
| ModuleSetup.UiOptions.Setup | src/module.ts:67-89 | Both options objects are rewritten as `SetupTheme` and `SetupRootAttrs` of their previous values. |
| ModuleSetup.SetupTheme | src/module.ts:67-68 | A missing theme becomes `{}`. `transitions` is kept. The colour list is `ThemeColors` of the configured colours, which `ThemeColorsDefault` and `ThemeColorsConfigured` pin down. It is non-empty and starts with `primary`. |
| ModuleSetup.ThemeColorsDefault | src/module.ts:68 | With no colours, or an empty list, the six default colours are used in their order. |
| ModuleSetup.ThemeColorsConfigured | src/module.ts:68 | With colours configured, the list starts with `primary` and repeats no colour. It holds exactly `primary` and the configured colours, in first-occurrence order. |
| ModuleSetup.ThemeColorsInvariant | src/module.ts:68 | Either way the list starts with `primary` and repeats no colour. |
| ModuleSetup.DedupElements | src/module.ts:68 | `[...new Set(s)]` holds exactly the elements of `s`. |
| ModuleSetup.DedupDistinct | src/module.ts:68 | `[...new Set(s)]` holds no element twice. |
| ModuleSetup.DedupOrder | src/module.ts:68 | `[...new Set(s)]` lists elements in the order of their first occurrence. |
| ModuleSetup.DedupHead | src/module.ts:68 | The first element of `s` stays first. |
| ModuleSetup.SetupRootAttrs | src/module.ts:88-89 | Missing attributes become `{}`. The class is `RootClass` of the previous class, or of `undefined` when there was none; `RootClassShape` gives its text. It ends in `isolate`. Every other attribute is kept, and none is added. |
| ModuleSetup.RootClassShape | src/module.ts:89 | A truthy previous class becomes `String(previous) + ' isolate'`. A falsy one is dropped, leaving `isolate`. |
| ModuleSetup.RootClassOfArray | src/module.ts:89 | The class `['a', 'b']` becomes `a,b isolate`. |
| JsValue.ParseIntShowInt | src/devtools/meta.ts:74 | `parseInt(String(n))` is `n` for every integer written in full decimal. |
| JsValue.ParseIntNum | src/devtools/meta.ts:74 | A number keeps its value under `parseInt`. |
| JsValue.ParseIntDigits | src/devtools/meta.ts:74 | Digits whose first digit is not `0`, followed by anything that does not start with a digit: `parseInt` reads the digits and ignores the rest. A leading `0` is excluded because `0x` switches to hexadecimal (`parseInt('0x1')` is 1). |
| JsValue.ParseIntNonNumeric | src/devtools/meta.ts:72-74 | Booleans, `null`, `undefined` and plain objects are `NaN` under `parseInt`. |
| JsValue.ParseIntWord | src/devtools/meta.ts:74 | Text starting with an ASCII letter, either case, or with `[` is `NaN` under `parseInt`. |
| JsValue.ShowNatInjective | src/devtools/meta.ts:47 | Decimal index keys are distinct for distinct indices. |
| Text.StripQuotes | src/devtools/meta.ts:71 | No `"`, `'` or backquote is left. Quote-free text is unchanged. |
| Text.StripQuotesChar | src/devtools/meta.ts:71 | On one character, a quote is dropped and any other character is kept. |
| Text.StripQuotesAppend | src/devtools/meta.ts:71 | Stripping distributes over concatenation. With `StripQuotesChar`, this fixes the result on every string: the non-quote characters are kept, in order. |
| Text.TrimPadded | src/devtools/meta.ts:29 | `trim` removes exactly the surrounding white space. |
| Text.IndexOf | src/devtools/meta.ts:14 | `indexOf` returns the first position at or after `from` where the text occurs, or none. |
| Text.LastSegment | src/devtools/meta.ts:40 | The last `/`-separated segment: a suffix with no `/`, preceded by `/` unless it is the whole id. |
| Text.CutAtFirstDot | src/devtools/meta.ts:43 | `replace(/\..*/, '')` keeps the text before the first `.` when the name has no line terminator. A name without `.` is unchanged. |

## Left out

- Evaluation of the block with `new Function` is a parameter: the model does not run JavaScript.
- `kebabCase` (from the `scule` library) is a parameter, so no property depends on its behaviour.
- The `defu` merge of catalog and store is a parameter. The model does not state which side wins for a shared key.
- Reading the example file, and `resolve` relative to the module's URL, are left out. The model gives the relative path and a reader parameter. The path is not sanitised against `..` in the source either.
- The dynamic `import` of the generated catalog is modelled as one persistent `ComponentMetaModule` object, shared by every request, as the module cache makes it. Loading that module is left out, as are `JSON.stringify`, response headers other than the JSON content type of both endpoints, the middleware registration and `console.error`.
- Number values that are not integers are left out: numbers are mathematical integers. `parseInt` on text still reads only the leading integer, so `1.5` and `1e3` both give 1, as in JavaScript.
- JsValue.ParseIntNum: holds for every integer of the model. JavaScript's `String` writes numbers of 10^21 and more in exponent notation, which this model does not produce.
- Strings are sequences of Unicode scalar values, not UTF-16 code units.
- A catalog entry whose `meta.props` is missing makes the source throw. The model's components always carry a props list.
- Everything else in `setup` is left out: aliases, the app config colours with `pick`, plugins, fonts, colour mode and templates.

## Findings

| source | as written | input that shows it | evidently intended | confidence | as-written member | corrected member |
|---|---|---|---|---|---|---|
| src/devtools/meta.ts:64 | The handler assigns the normalised props back into the imported catalog module. That module is cached, so the next request normalises already-normalised props. Normalisation is not idempotent for falsy results. | A `U` component prop with default `'false'` and no `defaultValue` tag gives `false` on the first request and `undefined` on every later one (`MetaCatalog.SecondRequestLosesDefault`). | Each request serves the same catalog, built from copies of the entries. | medium, not executed; assumes the module cache returns the same object on every request | MetaCatalog.ComponentMetaModule.HandleInPlace | MetaCatalog.ComponentMetaModule.Handle |
