# mongoosastic core, modelled in Dafny

mongoosastic is a Mongoose plugin. It mirrors MongoDB documents into an
Elasticsearch index. This project models two parts of it:

- **The serializer** (`lib/serialize.js`). It projects a document through a
  mapping tree into the document Elasticsearch stores. Declared fields are
  kept. ObjectIDs become lower-case hexadecimal strings and Dates become
  their `toJSON()` ISO strings. Other objects at a leaf are dropped.
- **The plugin's bookkeeping** (`lib/mongoosastic.js`):
  - the lazy index and type names (`setIndexNameIfUnset`), kept as the
    mutable fields of a `Plugin` class;
  - the `options.id` default of `index`;
  - the create-or-put decision of `createMappingIfNotPresent`;
  - the bounded 404 retry of `deleteByMongoId`, as a loop;
  - `hydrate`, which overwrites the search-hit array in place with the
    fetched documents;
  - the paged bulk run of `synchronize`, as a loop that stops at the first
    error;
  - the bulk delete actions of `clearAll`.

Elasticsearch and MongoDB are oracles. Every reply the plugin would wait for
(count, page fetch, bulk, exists, delete, search) is an input, consumed in
call order. Every request the plugin issues is part of the result.

Modules:

- `JsValue`: JavaScript values, truthiness and property reads.
- `ObjectIdString`: `ObjectID.toString` and its inverse.
- `DateJson`: `Date.prototype.toJSON` following ECMA-262. This covers the
  time-value range check and the proleptic Gregorian calendar, with a round
  trip between day numbers and dates.
- `JsString`: `toLowerCase` and `indexOf`.
- `Serialize`: the serializer.
- `Mongoosastic`: the rest.

Values are immutable. "Serialization does not modify its input" therefore
holds by construction: `Serialize` is a function of its arguments.

## Model

| member | source | states |
|---|---|---|
| Serialize.Serialize | lib/serialize.js:3-30 | The output is an index document for the mapping. A composite node yields an array of such documents or a record. That record holds only declared fields, never an `undefined` field, and omits only fields whose node is a leaf. A leaf yields a primitive. |
| Serialize.NormalizeLeaf | lib/serialize.js:20-29 | At a leaf the result is always a primitive. A primitive input is returned unchanged. An array or plain object becomes `undefined`. |
| Serialize.SerializeRecord | lib/serialize.js:10-18 | Over a record, every output key is a declared field. A declared field is present exactly when its own serialization is not `undefined`, and then it holds that serialization. |
| Serialize.OmittedFields | lib/serialize.js:12-16 | A declared field under a leaf is absent from the output, not `null`, when it is missing from the record or holds a non-ObjectID, non-Date object. A missing field under a composite node can only have a node without fields, and becomes `{}`. |
| Serialize.SerializeArray | lib/serialize.js:5-8 | Over an array, the output is an array of the same length. Element i is element i serialized against the same node. |
| Serialize.ObjectIdLeaf | lib/serialize.js:21-23 | An ObjectID at a leaf becomes a string of two hex digits per byte. Parsing that string gives back exactly its bytes. |
| Serialize.DateLeaf | lib/serialize.js:24-25 | A Date at a leaf becomes `null` when its time value is invalid or out of range. Otherwise it becomes its ISO string, which reads back as its time value. |
| Serialize.PrimitiveLeaf | lib/serialize.js:20-28 | At a leaf, `undefined`, `null`, booleans, numbers and strings pass through unchanged. Other plain objects and arrays yield `undefined`. |
| Serialize.ConformingIsFixpoint | lib/serialize.js:3-30 | Every index document for a mapping is accepted by the serializer and left unchanged by it. |
| Serialize.SerializeIdempotent | lib/serialize.js:3-30 | Serializing an output again against the same mapping returns it unchanged. |
| ObjectIdString.HexString | lib/serialize.js:23 | The string form has two characters per byte, all lower-case hex digits. |
| ObjectIdString.ParseHexString | lib/serialize.js:23 | The string form of an ObjectID determines its bytes: parsing it returns them. |
| DateJson.TimeClip | lib/serialize.js:25 | `new Date(d)` keeps a time value exactly when its magnitude is at most 8.64e15 ms, unchanged; otherwise the date is invalid. |
| DateJson.CivilFromDays | lib/serialize.js:25 | A day number maps to a real Gregorian date: month 1..12 and day 1..`DaysInMonth(year, month)`. February has 29 days exactly in leap years, by the 4/100/400 rule of `IsLeap`; April, June, September and November have 30 days; the other months have 31. Day numbers of valid time values give years within ±999999. |
| DateJson.CivilInverse | lib/serialize.js:25 | Every valid date, converted to its day number and back, is the same date. Together with CivilRoundTrip, days and valid dates correspond one to one. |
| DateJson.CivilRoundTrip | lib/serialize.js:25 | Converting a day number to a calendar date and back gives the same day number. |
| DateJson.Fixed | lib/serialize.js:25 | A number prints as exactly `width` decimal digits. When it fits, the digits denote the number. |
| DateJson.FixedOfDigits | lib/serialize.js:25 | Every string of decimal digits is the fixed-width form of the number it denotes, so equal-length digit fields with equal values are equal strings. |
| DateJson.YearString | lib/serialize.js:25 | Years 0..9999 print as four decimal digits denoting the year. Negative years print as `-` and six decimal digits denoting the magnitude; years above 9999 print as `+` and six decimal digits denoting the year. The result is always a valid year field. |
| DateJson.YearFieldCanonical | lib/serialize.js:25 | A valid year field reads as a year within ±999999, and it is exactly the field printed for that year. |
| DateJson.YearRoundTrip | lib/serialize.js:25 | Reading a printed year back gives the year. |
| DateJson.TailRoundTrip | lib/serialize.js:25 | Reading back `-MM-DDTHH:mm:ss.sssZ` gives the month, the day and the millisecond of the day it was printed from. |
| DateJson.IsoString | lib/serialize.js:25 | `toISOString` always returns a valid ISO string: a valid year field, then `-MM-DDTHH:mm:ss.sssZ` with every field in decimal digits, the month 1..12, the day within its month, the hour below 24, and the minute and second below 60. |
| DateJson.IsoRoundTrip | lib/serialize.js:25 | The ISO string of every valid time value reads back as that time value, so distinct times print differently. |
| DateJson.TailInjective | lib/serialize.js:25 | Two valid `-MM-DDTHH:mm:ss.sssZ` parts that read back as the same month, day and millisecond of the day are the same string. |
| DateJson.IsoInjective | lib/serialize.js:25 | Two valid ISO strings that read back as the same time value are the same string. |
| DateJson.IsoStringUnique | lib/serialize.js:25 | A valid ISO string that reads back as time value t is the ISO string of t: there is exactly one answer. |
| DateJson.DateToJson | lib/serialize.js:25 | `toJSON` returns `null` exactly when the clipped time value is invalid. Otherwise it returns a valid ISO string that reads back as the time value, and it is the only valid ISO string that does. |
| JsString.ToLowerCase | lib/mongoosastic.js:207 | Lower-casing keeps the length and leaves no upper-case ASCII letter. Each upper-case letter becomes its lower-case letter (code point plus 32); every other character is unchanged. |
| JsString.IndexOf | lib/mongoosastic.js:301 | The result is -1 or a position where the substring occurs. No occurrence starts before the result, and none at all when it is -1. |
| Mongoosastic.Resolve | lib/mongoosastic.js:206-214 | After resolution the index name is set. An index or type name that was already set is kept. |
| Mongoosastic.ResolveSetsOnlyUnsetNames | lib/mongoosastic.js:206-214 | An unset index name becomes the lower-cased model name plus "s". An unset type name becomes the lower-cased model name. Set names are kept, and the index name is always set afterwards. |
| Mongoosastic.ResolveIdempotent | lib/mongoosastic.js:206-214 | Resolving twice with the same model name equals resolving once. |
| Mongoosastic.ResolvedNamesAreFixed | lib/mongoosastic.js:206-214 | After one resolution with a non-empty model name, later calls with any model name change nothing. |
| Mongoosastic.Plugin.constructor | lib/mongoosastic.js:9-11 | The plugin starts with the mapping and the optional index and type names from its options. |
| Mongoosastic.Plugin.SetIndexNameIfUnset | lib/mongoosastic.js:206-214 | The names become the resolution of the old names; nothing else changes. |
| Mongoosastic.KeyString | lib/mongoosastic.js:300 | A string `_id` is its own key. An ObjectID `_id` becomes a string that reads back as exactly its bytes, so distinct ObjectIDs give distinct keys. |
| Mongoosastic.IdKey | lib/mongoosastic.js:300 | `model._id.toString()`: the document's string `_id` itself, or a string that reads back as the bytes of its ObjectID `_id`. |
| Mongoosastic.WithDefaultId | lib/mongoosastic.js:50-51 | The options gain an `id` key and keep every other key. The id is the caller's when truthy, otherwise the document's `_id` string. |
| Mongoosastic.DefaultIdSticks | lib/mongoosastic.js:50-51 | Once the options hold a truthy `id`, a later default leaves them unchanged. An options object reused for a second document keeps the first document's id. |
| Mongoosastic.Plugin.Index | lib/mongoosastic.js:48-55 | Names are resolved first. An explicit index or type overrides the plugin's. The id default is written into the caller's options object itself (absent options get a fresh one), and the request carries those options and the serialized document. `es-indexed` is emitted once with the reply. |
| Mongoosastic.CreateMappingIfNotPresent | lib/mongoosastic.js:249-260 | Exactly one request is issued. It is `putMapping` exactly when the index exists, otherwise `createIndex`. Both carry the mapping wrapped under the type name as its only key. |
| Mongoosastic.Plugin.CreateMapping | lib/mongoosastic.js:27-30 | Names are resolved first, and the request is made with the resolved names. |
| Mongoosastic.DeleteActions | lib/mongoosastic.js:190-198 | There is one `delete` action per hit, in hit order, with the hit's `_id` and the plugin's names. |
| Mongoosastic.ClearAllRequest | lib/mongoosastic.js:189-202 | A bulk request is sent exactly when the search total is positive. It holds one `delete` per hit, in order, and passes `refresh` through. |
| Mongoosastic.Plugin.ClearAll | lib/mongoosastic.js:180-204 | Names are resolved first, then the bulk delete is planned with the resolved names. |
| Mongoosastic.IndexActions | lib/mongoosastic.js:106-114 | There is one `index` action per fetched document, in fetch order. Each carries the document's id string, its serialized form (an index document for the mapping) and the resolved names. |
| Mongoosastic.PageCount | lib/mongoosastic.js:102 | The page count is ceil(total / 50): the least n with n * 50 >= total. |
| Mongoosastic.FirstFailedPage | lib/mongoosastic.js:102-124 | The result is the least page whose fetch or bulk failed, or the page count when none did. |
| Mongoosastic.SynchronizePages | lib/mongoosastic.js:102-124 | Pages run in increasing order, and page j queries skip j*50, limit 50. Each fetched page sends its `index` batch. The run stops after the first failing page and reports that page's error; otherwise all pages run and no error is reported. |
| Mongoosastic.Plugin.Synchronize | lib/mongoosastic.js:91-126 | Names are resolved first. A count error is reported and no page runs. Otherwise the paged run happens with the resolved names. |
| Mongoosastic.PositionMap | lib/mongoosastic.js:264-268 | Every key of the id map maps to a position inside the hit list, and the hit at that position has that id. |
| Mongoosastic.PositionMapKeys | lib/mongoosastic.js:264-268 | The id map has a key exactly for each hit id. |
| Mongoosastic.PositionMapLast | lib/mongoosastic.js:265-266 | Each key of the id map maps to a hit carrying that id, and no later hit carries it: with duplicate ids the last position wins. |
| Mongoosastic.Hydrated | lib/mongoosastic.js:281-287 | Writing the fetched documents into their slots keeps the hit list's length. |
| Mongoosastic.LastTarget | lib/mongoosastic.js:283-286 | The result is the last fetched document whose id maps to the slot, or -1 exactly when no document maps to it. |
| Mongoosastic.HydratedSlot | lib/mongoosastic.js:283-286 | A slot holds the last fetched document that targets it. It keeps its hit when no document targets it. |
| Mongoosastic.TargetsMatchingHit | lib/mongoosastic.js:264-268 | A document targets slot i exactly when it has hit i's id and no later hit has that id. |
| Mongoosastic.HydratedHits | lib/mongoosastic.js:264-288 | Hit i is replaced by the last fetched document with its id when i is the last hit with that id. Otherwise, or when no document has that id, hit i is unchanged. |
| Mongoosastic.Hydrate | lib/mongoosastic.js:263-291 | The query asks for exactly the hit ids, in hit order, with the hydrate options. On a fetch error the error is reported and the hits are untouched. On success the array is overwritten in place as described above. |
| Mongoosastic.IsNotFoundOccurs | lib/mongoosastic.js:301 | A reply counts as a 404 exactly when it carries an error whose message contains "404" at some position. |
| Mongoosastic.DeleteBudget | lib/mongoosastic.js:303-306 | There is always at least one delete call, and more calls than `tries`. |
| Mongoosastic.DeleteBudgetCountsCalls | lib/mongoosastic.js:299-306 | The budget equals the number of calls the source's recursion makes when every reply is a 404: one call, then another with `--tries` while `tries > 0`. |
| Mongoosastic.FirstAnswer | lib/mongoosastic.js:299-311 | The result is the first reply whose error is absent or lacks "404", or the limit when every reply before it was a 404. |
| Mongoosastic.DeleteByMongoId | lib/mongoosastic.js:299-313 | Calls repeat the same delete while replies are 404s, up to `tries` retries. The first other reply emits `es-removed` once with its error and result, and stops. When the retries run out, nothing is emitted. |
| Mongoosastic.Plugin.UnIndex | lib/mongoosastic.js:62-66 | Names are resolved first. The delete uses three retries. If the first 4 replies are all 404s, exactly 4 calls are made and nothing is emitted. Otherwise the first non-404 reply within 4 calls is emitted and ends the calls. |

## Left out

- The Elasticsearch client and the Mongoose `count`/`find`/`exec` calls are remote I/O; their replies are inputs.
- The 500 ms `setTimeout` between delete retries is left out; each retry is the next loop step. The elapsed time `synchronize` reports is left out too.
- `console.log` output is not modelled. `EventEmitter` delivery is modelled only as a list of emitted events.
- `getMapping` and `./mapping-generator` are not part of this model. The mapping is a constructor argument.
- The river setup (`setUpRiver`) is an experimental configuration payload for a third-party plugin and is not modelled.
- The wrappers `search`, `esCount`, `recreateIndex`, `saveAndIndex` and `saveAndIndexSync` are not modelled. Their only logic is argument and callback plumbing.
- The optional-argument reshuffling at the top of `index` is not modelled. `Plugin.Index` takes its arguments already sorted; "" means an index or type name was not given.
- The callbacks (`cb`, `done`) are not modelled; their arguments are the methods' results.
- Hydrate options are dynamically dispatched as `query[option](value)`. Here they are an opaque map passed through to the fetch query, so their key order is not modelled.
- Serialize.Serialize: a composite node with at least one declared field meeting `undefined` or `null` throws in the source. That case is excluded by the `WellFormed` precondition rather than modelled as an exception. A composite node without fields yields `{}` there and is modelled.
- Serialize.Serialize: a composite node meeting a string, number, boolean, ObjectID or Date reads each declared field as `undefined`. This ignores properties such as a string's `length`.
- The output key order of a serialized record is not modelled: records are maps.
- Numbers are reals; NaN and the infinities are not modelled.
- Objects with a custom `toJSON`, and objects whose constructor is named `ObjectID` or `Date` without being one, are not modelled.
- JsString.ToLowerCase: lower-cases ASCII letters only, not the full Unicode case mapping of `toLowerCase`.
- JsString.IndexOf: counts positions in characters (code points), while `indexOf` counts UTF-16 code units, so the two differ after any character outside the Basic Multilingual Plane. lib/mongoosastic.js:301 only compares the result with -1, and whether "404" occurs does not depend on the unit, so the plugin's behaviour is unaffected.
- Mongoosastic.WithDefaultId: requires a truthy `options.id` or an `_id` that is a string or an ObjectID. Any other `_id` (numbers, for example) is not modelled; a missing one throws in the source.
- Mongoosastic.IndexActions: a document's `id` virtual is modelled as the string of its `_id`, for `_id` values that are strings or ObjectIDs.
- Mongoosastic.Hydrate: a hit or fetched document that is `null` or `undefined` makes the source throw a TypeError when it reads `._id` (lib/mongoosastic.js:266 and 284). The requires exclude such elements, through `HasKeyableId`, instead of modelling the exception. The same holds for Mongoosastic.PositionMap and Mongoosastic.Hydrated.
- Mongoosastic.Hydrate: hit and document ids must be `undefined`, `null`, strings or ObjectIDs. Keys that collide with inherited properties of a plain object (`__proto__`, `constructor`, ...) are treated as ordinary keys.
- Mongoosastic.ClearAllRequest: a hit that is `null` or `undefined` makes the source throw a TypeError at `doc._id` (lib/mongoosastic.js:195). The requires exclude such hits whenever the total is positive, instead of modelling the exception. The same holds for Mongoosastic.DeleteActions and Mongoosastic.Plugin.ClearAll.
- Mongoosastic.ClearAllRequest: models the numeric `hits.total` of the Elasticsearch versions this plugin targets.
- Mongoosastic.Plugin.ClearAll: the search-error path is not modelled; the source dereferences `res.hits` there and throws. A search that hydrates (the plugin's `hydrate` option) is not modelled either.
- Mongoosastic.Plugin.Index: requires the document to be well-formed for the mapping, as `Serialize.Serialize` does.
- Mongoosastic.Plugin.UnIndex: requires an `_id` that is a string or an ObjectID. `model._id.toString()` at lib/mongoosastic.js:300 also accepts other values, such as numbers; these are not modelled.
- Mongoosastic.Plugin.Synchronize: requires one page reply and one bulk reply for each of the ceil(total/50) pages; later replies are ignored.

Two behaviours of the code that the model keeps:

- `synchronize` stops at the first failed page, whether the fetch or the bulk request failed, because `async.timesSeries` stops at the first error passed to its iteration callback (lib/mongoosastic.js:115-118, 121-123).
- `createMappingIfNotPresent` ignores the error of `indexExists`. It creates the index whenever `exists` is falsy (lib/mongoosastic.js:252-258).
