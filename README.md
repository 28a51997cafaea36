# DimensionAwareMetricsRegistry, modelled in Dafny

This project models the metrics registry of `measured-reporting`. The registry
stores metrics by a metric name plus a set of label/value pairs called
dimensions. Each metric sits in a wrapper record `{name, metricImpl, dimensions}`.
The wrappers live in a plain object keyed by a derived storage key. That key is
the metric name, followed by `"-" + value` for every dimension, with the
dimension names taken in ascending sorted order. The names themselves are not
part of the key.

Modules:

- `Wrappers`: `Option` (JavaScript's `undefined` result) and `Result`.
- `Lexicographic`: the order JavaScript's default `Array.prototype.sort` puts
  strings in (`Below`), proved a strict total order. It also holds the sort itself
  (`Sort`, an insertion sort proved to give a strictly ascending permutation), and
  `SortedNames`, the ascending listing of a finite set of names.
- `JsObject`: `Object.keys` as a method. It lists each key once, in whatever
  order the loop picks.
- `KeyDerivation`: `_generateStorageKey` as the loop method `GenerateStorageKey`.
  It is proved equal to the specification function `StorageKey`. The module also
  holds the key's properties: the format, order independence, absent or empty
  dimensions, the known collisions, and the concrete keys the integration test
  expects.
- `Registry`: the class `DimensionAwareMetricsRegistry` with its field `metrics`
  (`_metrics`). Its invariant `Valid()` says each wrapper sits at the key of its
  own name and dimensions. The store-level function `Upsert` specifies `putMetric`,
  and lemmas about it cover put-then-read, the frame, the key count and the
  test scenarios.

Dimensions are `map<string, string>`. "No dimensions" (a falsy argument in the
original) is `None`. The metric is an opaque type parameter `M`.

Points where the model keeps what the code does:

- The doc comment of `_generateStorageKey`
  (`DimensionAwareMetricsRegistry.js:70,74`) calls the key "a unique key".
  The code does not put dimension names in the key, so different dimensions
  can share a key. `NamesNotEncoded`, `CollisionExample`,
  `DelimiterCollisionExample` and `CollidingPutOverwrites` state this.
- `getMetric` on an absent key reads `.metricImpl` of `undefined`, which throws
  a TypeError. The model returns `Failure(UndefinedWrapper(key))`.

## Model

| member | source | states |
|---|---|---|
| `Lexicographic.BelowIrreflexive` | packages/measured-reporting/lib/registries/DimensionAwareMetricsRegistry.js:81 | no name sorts before itself under the default string sort order |
| `Lexicographic.BelowTransitive` | packages/measured-reporting/lib/registries/DimensionAwareMetricsRegistry.js:81 | the sort order is transitive |
| `Lexicographic.BelowTotal` | packages/measured-reporting/lib/registries/DimensionAwareMetricsRegistry.js:81 | any two distinct names are ordered one way or the other |
| `Lexicographic.InsertCorrect` | packages/measured-reporting/lib/registries/DimensionAwareMetricsRegistry.js:81 | inserting a new name into an ascending sequence keeps it ascending and adds exactly that name |
| `Lexicographic.SortCorrect` | packages/measured-reporting/lib/registries/DimensionAwareMetricsRegistry.js:81 | `.sort()` of distinct names is strictly ascending and a permutation of its input |
| `Lexicographic.LeastExists` | packages/measured-reporting/lib/registries/DimensionAwareMetricsRegistry.js:81 | every non-empty set of names has a first name |
| `Lexicographic.SortedNames` | packages/measured-reporting/lib/registries/DimensionAwareMetricsRegistry.js:80-81 | the dimension names in ascending order: strictly ascending, exactly the given names, one entry per name |
| `Lexicographic.SortedUnique` | packages/measured-reporting/lib/registries/DimensionAwareMetricsRegistry.js:80-81 | a set of names has only one strictly ascending listing |
| `Lexicographic.SortListsSortedNames` | packages/measured-reporting/lib/registries/DimensionAwareMetricsRegistry.js:80-81 | sorting any duplicate-free listing of the names gives the ascending names |
| `Lexicographic.SortIgnoresListingOrder` | packages/measured-reporting/lib/registries/DimensionAwareMetricsRegistry.js:80-81 | two listings of the same names sort to the same sequence |
| `JsObject.Keys` | packages/measured-reporting/lib/registries/DimensionAwareMetricsRegistry.js:80 | `Object.keys` lists every own key exactly once and nothing else, in an unspecified order |
| `KeyDerivation.GenerateStorageKey` | packages/measured-reporting/lib/registries/DimensionAwareMetricsRegistry.js:77-87 | the key loop returns `StorageKey(name, dimensions)` whatever order `Object.keys` listed the names in |
| `KeyDerivation.ListingOrderIrrelevant` | packages/measured-reporting/lib/registries/DimensionAwareMetricsRegistry.js:80-84 | the key computed from any listing order of the dimension names is the same key |
| `KeyDerivation.KeyFormat` | packages/measured-reporting/lib/registries/DimensionAwareMetricsRegistry.js:77-87 | the key is the name followed by "-" + value for each name of the strictly ascending listing of the dimension names |
| `KeyDerivation.NoDimensionsKey` | packages/measured-reporting/lib/registries/DimensionAwareMetricsRegistry.js:77-86 | absent dimensions and empty dimensions both give exactly the name |
| `KeyDerivation.SuffixStep` | packages/measured-reporting/lib/registries/DimensionAwareMetricsRegistry.js:83 | one more dimension name appends "-" and that dimension's value to the key |
| `KeyDerivation.SuffixSeesOnlyValues` | packages/measured-reporting/lib/registries/DimensionAwareMetricsRegistry.js:83 | the appended text depends only on the sequence of values, not on the names |
| `KeyDerivation.NamesNotEncoded` | packages/measured-reporting/lib/registries/DimensionAwareMetricsRegistry.js:83 | dimension maps whose values, each in its own sorted-name order, agree get the same key under one name |
| `KeyDerivation.CollisionExample` | packages/measured-reporting/lib/registries/DimensionAwareMetricsRegistry.js:83 | `{statusCode: "200"}` and `{code: "200"}` differ yet give the same key for `requests` |
| `KeyDerivation.DelimiterCollisionExample` | packages/measured-reporting/lib/registries/DimensionAwareMetricsRegistry.js:78-83 | the name `requests-GET` without dimensions collides with `requests` and `{method: "GET"}` |
| `KeyDerivation.ThreeDimensionKey` | packages/measured-reporting/lib/registries/DimensionAwareMetricsRegistry.js:80-84 | with three ascending dimension names the key is name-v1-v2-v3 |
| `KeyDerivation.RequestKey` | packages/measured-node-metrics/test/integration/test-express-middleware.js:51-56 | dimensions `{statusCode, method, uri}` give `requests-<method>-<statusCode>-<uri>` |
| `KeyDerivation.HelloKey` | packages/measured-node-metrics/test/integration/test-express-middleware.js:51 | GET `/hello` with 200 gives `requests-GET-200-/hello` |
| `KeyDerivation.WorldKey` | packages/measured-node-metrics/test/integration/test-express-middleware.js:65 | POST `/world` with 201 gives `requests-POST-201-/world` |
| `Registry.StoredDimensionsGiveSameKey` | packages/measured-reporting/lib/registries/DimensionAwareMetricsRegistry.js:56 | storing `dimensions \|\| {}` does not change the wrapper's key |
| `Registry.UpsertKeepsConsistent` | packages/measured-reporting/lib/registries/DimensionAwareMetricsRegistry.js:51-58 | after a put every wrapper still sits at the key of its own name and dimensions |
| `Registry.UpsertThenRead` | packages/measured-reporting/lib/registries/DimensionAwareMetricsRegistry.js:51-58 | after a put the derived key is present and holds `{name, metric, dimensions or {}}` |
| `Registry.UpsertFrame` | packages/measured-reporting/lib/registries/DimensionAwareMetricsRegistry.js:53-57 | a put changes no other key, present or absent |
| `Registry.UpsertKeyCount` | packages/measured-reporting/lib/registries/DimensionAwareMetricsRegistry.js:53-57 | a put adds the derived key and nothing else: one key more if it was new, none if it overwrote |
| `Registry.RepeatedUpsertKeepsOneKey` | packages/measured-reporting/lib/registries/DimensionAwareMetricsRegistry.js:51-58 | putting the same name and dimensions twice equals putting only the second metric |
| `Registry.CollidingPutOverwrites` | packages/measured-reporting/lib/registries/DimensionAwareMetricsRegistry.js:52-57 | a put under colliding dimensions overwrites the earlier wrapper and adds no key |
| `Registry.HelloScenario` | packages/measured-node-metrics/test/integration/test-express-middleware.js:47-57 | one GET `/hello` leaves exactly the key `requests-GET-200-/hello`, whose wrapper has name `requests` and the three dimensions |
| `Registry.WorldScenario` | packages/measured-node-metrics/test/integration/test-express-middleware.js:60-71 | one POST `/world` leaves exactly the key `requests-POST-201-/world`, whose wrapper has name `requests` and the three dimensions |
| `Registry.SameRouteScenario` | packages/measured-node-metrics/test/integration/test-express-middleware.js:74-81 | three puts with the same route dimensions leave exactly one key |
| `Registry.DimensionAwareMetricsRegistry.constructor` | packages/measured-reporting/lib/registries/DimensionAwareMetricsRegistry.js:5-7 | a new registry has no metrics and satisfies its invariant |
| `Registry.DimensionAwareMetricsRegistry.HasMetric` | packages/measured-reporting/lib/registries/DimensionAwareMetricsRegistry.js:16-19 | true exactly when the derived key is stored; changes nothing |
| `Registry.DimensionAwareMetricsRegistry.GetMetric` | packages/measured-reporting/lib/registries/DimensionAwareMetricsRegistry.js:28-31 | the stored wrapper's metric when the derived key is present, the TypeError case otherwise |
| `Registry.DimensionAwareMetricsRegistry.GetMetricWrapperByKey` | packages/measured-reporting/lib/registries/DimensionAwareMetricsRegistry.js:39-41 | the wrapper at the key, or none when absent; a stored wrapper's own name and dimensions derive that key |
| `Registry.DimensionAwareMetricsRegistry.PutMetric` | packages/measured-reporting/lib/registries/DimensionAwareMetricsRegistry.js:51-59 | returns the derived key, upserts the wrapper there, leaves the rest of the store alone and keeps the invariant |
| `Registry.DimensionAwareMetricsRegistry.AllKeys` | packages/measured-reporting/lib/registries/DimensionAwareMetricsRegistry.js:65-67 | every stored key exactly once, and no other string |

## Left out

- Sort order: `Below` compares Dafny characters, which are Unicode scalar values. JavaScript compares UTF-16 code units. The two orders agree except between characters above U+FFFF and those in U+E000–U+FFFF.
- `Sort`: the JavaScript engine's sort algorithm is not visible, so an insertion sort stands in for it. Only its result matters here, and that result is proved unique.
- Dimension values are strings. Template-literal coercion of other values is not modelled.
- JavaScript object quirks are not modelled: keys such as `__proto__`, inherited properties seen by `this._metrics[key]`, and the numeric-first key order of `Object.keys`.
- `AllKeys`: the order of the returned keys is left unspecified, because `Object.keys` order depends on insertion history and on numeric-looking keys.
- Falsy dimensions: every falsy `dimensions` argument (`undefined`, `null`, ...) is modelled as `None`.
- The metric implementations (Timer, Counter, Gauge) are not part of this model. The metric is an opaque value.
- The self-reporting registry, its scheduler, its shutdown and the Reporter are not part of this model. They involve timers and background work outside the registry.
- The Express middleware and the HTTP integration test are not part of this model. Only the keys and key counts the test asserts appear, as lemmas.
- Concurrency and atomic get-or-create are not modelled. The original is single-threaded and has no such operation.
- Aliasing of stored objects is not modelled. Wrappers and dimensions are values in the model. In the original, `putMetric` stores the caller's own `dimensions` object without copying it (`DimensionAwareMetricsRegistry.js:56`), and `getMetricWrapperByKey` hands out the stored wrapper itself (`:40`). A caller that mutates either object changes a stored wrapper's dimensions without moving it to a new key. After that, `Valid()` (each wrapper sits at the key of its own name and dimensions) and the last ensures of `GetMetricWrapperByKey` no longer describe the original. The model assumes no caller mutates a stored wrapper or the dimensions it passed in.
