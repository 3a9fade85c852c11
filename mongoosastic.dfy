/** lib/mongoosastic.js: the plugin's index bookkeeping and the rules of its
    Elasticsearch and MongoDB round trips. The remote engines are oracles:
    each call's reply is an input, taken in call order, and each request the
    plugin issues is recorded in the result. */
module Mongoosastic {
  import opened JsValue
  import opened Serialize
  import JsString
  import ObjectIdString

  /** The number of documents per synchronize page. */
  const BulkSize: nat := 50
  /** The retries that unIndex allows a delete answered with a 404. */
  const UnIndexTries: int := 3

  datatype Error = Error(message: string)

  /** Events a document emits to its listeners. */
  datatype Event =
    | EsIndexed(err: Option<Error>, res: Value)
    | EsRemoved(err: Option<Error>, res: Value)

  // ---------------------------------------------------------------------
  // Index and type names

  /** The index and type names; "" stands for a name that is not set (any
      falsy value). */
  datatype Descriptor = Descriptor(indexName: string, typeName: string)

  /** The names after `setIndexNameIfUnset(modelName)`. */
  function Resolve(d: Descriptor, modelName: string): (r: Descriptor)
    ensures r.indexName != ""
    ensures d.indexName != "" ==> r.indexName == d.indexName
    ensures d.typeName != "" ==> r.typeName == d.typeName
  {
    var lower := JsString.ToLowerCase(modelName);
    Descriptor(if d.indexName == "" then lower + "s" else d.indexName,
               if d.typeName == "" then lower else d.typeName)
  }

  /** An unset index name becomes the lower-cased model name plus "s", an
      unset type name the lower-cased model name; a set name is kept. */
  lemma ResolveSetsOnlyUnsetNames(d: Descriptor, modelName: string)
    ensures var r := Resolve(d, modelName);
      && r.indexName != ""
      && r.indexName == (if d.indexName == "" then JsString.ToLowerCase(modelName) + "s" else d.indexName)
      && r.typeName == (if d.typeName == "" then JsString.ToLowerCase(modelName) else d.typeName)
  {
  }

  /** Resolving twice with the same model name equals resolving once. */
  lemma ResolveIdempotent(d: Descriptor, modelName: string)
    ensures Resolve(Resolve(d, modelName), modelName) == Resolve(d, modelName)
  {
  }

  /** Once resolved from a non-empty model name, the names never change again. */
  lemma ResolvedNamesAreFixed(d: Descriptor, first: string, later: string)
    requires first != ""
    ensures Resolve(Resolve(d, first), later) == Resolve(d, first)
  {
    assert |JsString.ToLowerCase(first)| > 0;
  }

  // ---------------------------------------------------------------------
  // Document identifiers

  /** Values that a property key can be made from here: `undefined`, `null`,
      strings and ObjectIDs. */
  predicate Keyable(v: Value) {
    v.Undefined? || v.Null? || v.Str? || v.ObjectId?
  }

  /** The string a value becomes when used as a property key or converted
      with `toString()`/`String()`. A string is its own key, and an ObjectID's
      key reads back as its bytes. */
  function KeyString(v: Value): (r: string)
    requires Keyable(v)
    ensures v.Str? ==> r == v.s
    ensures v.ObjectId? ==> ObjectIdString.ParseHex(r) == Some(v.bytes)
  {
    match v
    case Undefined => "undefined"
    case Null => "null"
    case Str(s) => s
    case ObjectId(bytes) => ObjectIdString.ParseHexString(bytes); ObjectIdString.HexString(bytes)
  }

  /** `v._id` can be read and made into a key. */
  predicate HasKeyableId(v: Value) {
    PropertyReadable(v) && Keyable(Get(v, "_id"))
  }

  /** A document's `_id` as a string key. */
  function IdKey(v: Value): (r: string)
    requires HasKeyableId(v)
    ensures Get(v, "_id").Str? ==> r == Get(v, "_id").s
    ensures Get(v, "_id").ObjectId? ==> ObjectIdString.ParseHex(r) == Some(Get(v, "_id").bytes)
  {
    KeyString(Get(v, "_id"))
  }

  /** `doc._id.toString()` (and the `doc.id` virtual) is defined. */
  predicate HasId(v: Value) {
    Get(v, "_id").Str? || Get(v, "_id").ObjectId?
  }

  // ---------------------------------------------------------------------
  // index: the `options.id` default

  datatype IndexRequest = IndexRequest(index: string, docType: string, document: Value, options: map<string, Value>)

  predicate HasTruthyId(options: map<string, Value>) {
    "id" in options && Truthy(options["id"])
  }

  /** `options.id = options.id || model._id.toString()`. */
  function WithDefaultId(options: map<string, Value>, doc: Value): (r: map<string, Value>)
    requires HasTruthyId(options) || HasId(doc)
    ensures r.Keys == options.Keys + {"id"}
    ensures forall k | k in options && k != "id" :: r[k] == options[k]
    ensures r["id"] == if HasTruthyId(options) then options["id"] else Str(IdKey(doc))
  {
    if HasTruthyId(options) then options else options["id" := Str(IdKey(doc))]
  }

  /** Once the options hold a truthy `id`, a later default leaves them as they
      are: an options object passed to `index` twice keeps the first
      document's id. */
  lemma DefaultIdSticks(options: map<string, Value>, first: Value, second: Value)
    requires HasTruthyId(options) || HasId(first)
    requires HasTruthyId(WithDefaultId(options, first))
    ensures WithDefaultId(WithDefaultId(options, first), second) == WithDefaultId(options, first)
    ensures WithDefaultId(WithDefaultId(options, first), second)["id"]
         == if HasTruthyId(options) then options["id"] else Str(IdKey(first))
  {
  }

  /** The caller's `options` object, into which `index` writes the `id`. */
  class IndexOptions {
    var fields: map<string, Value>

    constructor (fields: map<string, Value>)
      ensures this.fields == fields
    {
      this.fields := fields;
    }
  }

  // ---------------------------------------------------------------------
  // createMappingIfNotPresent

  datatype ExistsReply = ExistsReply(err: Option<Error>, found: Value)

  datatype MappingRequest =
    | PutMapping(index: string, docType: string, body: map<string, Mapping>)
    | CreateIndex(index: string, mappings: map<string, Mapping>)

  /** The one request createMappingIfNotPresent issues once `indexExists`
      has answered: the mapping is wrapped under the type name and put into
      the index when it exists, otherwise the index is created with it. An
      error from `indexExists` is not looked at. */
  function CreateMappingIfNotPresent(indexName: string, typeName: string, mapping: Mapping, reply: ExistsReply)
    : (r: MappingRequest)
    ensures r.index == indexName
    ensures r.PutMapping? <==> Truthy(reply.found)
    ensures r.PutMapping? ==> r.docType == typeName && r.body.Keys == {typeName} && r.body[typeName] == mapping
    ensures r.CreateIndex? ==> r.mappings.Keys == {typeName} && r.mappings[typeName] == mapping
  {
    var completeMapping := map[typeName := mapping];
    if Truthy(reply.found) then PutMapping(indexName, typeName, completeMapping)
    else CreateIndex(indexName, completeMapping)
  }

  // ---------------------------------------------------------------------
  // Bulk actions

  datatype BulkAction =
    | IndexAction(index: string, docType: string, id: Value, data: Value)
    | DeleteAction(index: string, docType: string, id: Value)

  /** The `delete` actions of clearAll: one per hit, in hit order. */
  function DeleteActions(d: Descriptor, hits: seq<Value>): (r: seq<BulkAction>)
    requires forall i :: 0 <= i < |hits| ==> PropertyReadable(hits[i])
    ensures |r| == |hits|
    ensures forall i :: 0 <= i < |hits| ==> r[i] == DeleteAction(d.indexName, d.typeName, Get(hits[i], "_id"))
  {
    seq(|hits|, i requires 0 <= i < |hits| => DeleteAction(d.indexName, d.typeName, Get(hits[i], "_id")))
  }

  /** The `hits` object of a search response: `total` and the hits themselves. */
  datatype SearchReply = SearchReply(total: int, hits: seq<Value>)

  datatype BulkRequest = BulkRequest(actions: seq<BulkAction>, refresh: bool)

  /** The bulk request clearAll sends after its match-all search: none when
      the search found nothing. */
  function ClearAllRequest(d: Descriptor, reply: SearchReply, refresh: bool): (r: Option<BulkRequest>)
    requires reply.total > 0 ==> forall i :: 0 <= i < |reply.hits| ==> PropertyReadable(reply.hits[i])
    ensures r.Some? <==> reply.total > 0
    ensures r.Some? ==> r.value.refresh == refresh && |r.value.actions| == |reply.hits|
    ensures r.Some? ==> forall i :: 0 <= i < |reply.hits| ==>
      r.value.actions[i] == DeleteAction(d.indexName, d.typeName, Get(reply.hits[i], "_id"))
  {
    if reply.total > 0 then Some(BulkRequest(DeleteActions(d, reply.hits), refresh)) else None
  }

  predicate Indexable(doc: Value, mapping: Mapping) {
    WellFormed(doc, mapping) && HasId(doc)
  }

  /** The `index` actions of one synchronize page: one per fetched document,
      in fetch order, carrying its id and its serialized form. */
  function IndexActions(d: Descriptor, mapping: Mapping, docs: seq<Value>): (r: seq<BulkAction>)
    requires forall i :: 0 <= i < |docs| ==> Indexable(docs[i], mapping)
    ensures |r| == |docs|
    ensures forall i :: 0 <= i < |docs| ==>
      && Indexable(docs[i], mapping)
      && r[i].IndexAction?
      && r[i].index == d.indexName && r[i].docType == d.typeName
      && r[i].id == Str(IdKey(docs[i]))
      && r[i].data == Serialize.Serialize(docs[i], mapping)
      && Conforms(r[i].data, mapping)
  {
    seq(|docs|, i requires 0 <= i < |docs| =>
      assert Indexable(docs[i], mapping);
      IndexAction(d.indexName, d.typeName, Str(IdKey(docs[i])), Serialize.Serialize(docs[i], mapping)))
  }

  // ---------------------------------------------------------------------
  // synchronize

  datatype CountReply = Counted(count: nat) | CountFailed(err: Error)
  datatype FetchReply = Fetched(docs: seq<Value>) | FetchFailed(err: Error)

  /** One page of synchronize as issued: the `skip`/`limit` of its query and
      the bulk batch sent for it (none when the query failed). */
  datatype PageStep = PageStep(skip: nat, limit: nat, batch: Option<seq<BulkAction>>)

  /** `Math.ceil(total / BulkSize)`. */
  function PageCount(total: nat): (n: nat)
    ensures total <= n * BulkSize < total + BulkSize
  {
    (total + BulkSize - 1) / BulkSize
  }

  predicate PageIndexable(page: FetchReply, mapping: Mapping) {
    page.Fetched? ==> forall i :: 0 <= i < |page.docs| ==> Indexable(page.docs[i], mapping)
  }

  function PageBatch(d: Descriptor, mapping: Mapping, page: FetchReply): Option<seq<BulkAction>>
    requires PageIndexable(page, mapping)
  {
    if page.Fetched? then Some(IndexActions(d, mapping, page.docs)) else None
  }

  /** Page `j` ends synchronize: its query failed, or its bulk request did. */
  predicate PageFails(pages: seq<FetchReply>, bulks: seq<Option<Error>>, j: nat)
    requires j < |pages| && j < |bulks|
  {
    pages[j].FetchFailed? || bulks[j].Some?
  }

  function PageError(pages: seq<FetchReply>, bulks: seq<Option<Error>>, j: nat): Error
    requires j < |pages| && j < |bulks| && PageFails(pages, bulks, j)
  {
    if pages[j].FetchFailed? then pages[j].err else bulks[j].value
  }

  /** The first failing page at or after `from` and before `n`, or `n`. */
  function FirstFailedPage(pages: seq<FetchReply>, bulks: seq<Option<Error>>, from: nat, n: nat): (f: nat)
    requires n <= |pages| && n <= |bulks|
    ensures from <= n ==> from <= f <= n
    ensures from > n ==> f == n
    ensures forall j :: from <= j < f ==> !PageFails(pages, bulks, j)
    ensures f < n ==> PageFails(pages, bulks, f)
    decreases n - from
  {
    if from >= n then n
    else if PageFails(pages, bulks, from) then from
    else FirstFailedPage(pages, bulks, from + 1, n)
  }

  /** What synchronize does once the collection has `total` documents: the
      pages run in increasing order, page `j` queries `skip j * 50, limit 50`
      and bulk-indexes what it fetched, and the run stops after the first
      page whose query or bulk request fails, reporting that error. */
  ghost predicate PagedRun(d: Descriptor, mapping: Mapping, total: nat, pages: seq<FetchReply>,
                           bulks: seq<Option<Error>>, steps: seq<PageStep>, err: Option<Error>)
    requires PageCount(total) <= |pages| && PageCount(total) <= |bulks|
    requires forall j :: 0 <= j < |pages| ==> PageIndexable(pages[j], mapping)
  {
    var n := PageCount(total);
    var f := FirstFailedPage(pages, bulks, 0, n);
    && |steps| == (if f < n then f + 1 else n)
    && (forall j :: 0 <= j < |steps| ==>
          steps[j] == PageStep(j * BulkSize, BulkSize, PageBatch(d, mapping, pages[j])))
    && err == (if f < n then Some(PageError(pages, bulks, f)) else None)
  }

  /** The `async.timesSeries` loop of synchronize. */
  method SynchronizePages(d: Descriptor, mapping: Mapping, total: nat, pages: seq<FetchReply>,
                          bulks: seq<Option<Error>>)
    returns (steps: seq<PageStep>, err: Option<Error>)
    requires PageCount(total) <= |pages| && PageCount(total) <= |bulks|
    requires forall j :: 0 <= j < |pages| ==> PageIndexable(pages[j], mapping)
    ensures PagedRun(d, mapping, total, pages, bulks, steps, err)
  {
    var n := PageCount(total);
    steps, err := [], None;
    var i := 0;
    while i < n
      invariant i <= n
      invariant |steps| == i
      invariant forall j :: 0 <= j < i ==> !PageFails(pages, bulks, j)
      invariant forall j :: 0 <= j < i ==>
        steps[j] == PageStep(j * BulkSize, BulkSize, PageBatch(d, mapping, pages[j]))
    {
      var page := pages[i];
      match page
      case FetchFailed(e) =>
        steps := steps + [PageStep(i * BulkSize, BulkSize, None)];
        err := Some(e);
        assert PageFails(pages, bulks, i);
        assert FirstFailedPage(pages, bulks, 0, n) == i;
        return;
      case Fetched(docs) =>
        steps := steps + [PageStep(i * BulkSize, BulkSize, Some(IndexActions(d, mapping, docs)))];
        if bulks[i].Some? {
          err := bulks[i];
          assert PageFails(pages, bulks, i);
          assert FirstFailedPage(pages, bulks, 0, n) == i;
          return;
        }
      i := i + 1;
    }
  }

  // ---------------------------------------------------------------------
  // hydrate

  /** The MongoDB query hydrate issues: `find({_id: {$in: ids}})` with the
      hydrate options applied as query modifiers. */
  datatype FetchQuery = FetchQuery(ids: seq<Value>, modifiers: map<string, Value>)

  /** `resultsMap`: each hit's `_id` key mapped to its position. */
  function PositionMap(hits: seq<Value>): (r: map<string, nat>)
    requires forall i :: 0 <= i < |hits| ==> HasKeyableId(hits[i])
    ensures forall k :: k in r ==> r[k] < |hits| && IdKey(hits[r[k]]) == k
  {
    if hits == [] then map[]
    else PositionMap(hits[..|hits| - 1])[IdKey(hits[|hits| - 1]) := |hits| - 1]
  }

  /** The map has a key exactly for each hit id. */
  lemma {:induction false} PositionMapKeys(hits: seq<Value>)
    requires forall i :: 0 <= i < |hits| ==> HasKeyableId(hits[i])
    ensures PositionMap(hits).Keys == set i | 0 <= i < |hits| :: IdKey(hits[i])
  {
    if hits != [] {
      var last := |hits| - 1;
      var init := hits[..last];
      assert forall i :: 0 <= i < last ==> init[i] == hits[i];
      PositionMapKeys(init);
      assert (set i | 0 <= i < |hits| :: IdKey(hits[i]))
          == (set i | 0 <= i < last :: IdKey(init[i])) + {IdKey(hits[last])};
    }
  }

  /** With duplicate ids, the last position wins. */
  lemma {:induction false} PositionMapLast(hits: seq<Value>, k: string)
    requires forall i :: 0 <= i < |hits| ==> HasKeyableId(hits[i])
    requires k in PositionMap(hits)
    ensures PositionMap(hits)[k] < |hits|
    ensures IdKey(hits[PositionMap(hits)[k]]) == k && IsLastPosition(hits, PositionMap(hits)[k])
  {
    var last := |hits| - 1;
    var init := hits[..last];
    if k != IdKey(hits[last]) {
      assert forall i :: 0 <= i < last ==> init[i] == hits[i];
      PositionMapLast(init, k);
      var q := PositionMap(init)[k];
      forall j | q < j < |hits|
        ensures IdKey(hits[j]) != k
      {
        if j < last {
          assert init[j] == hits[j];
        }
      }
    }
  }

  /** No later hit has the same `_id` key as hit `i`. */
  ghost predicate IsLastPosition(hits: seq<Value>, i: nat)
    requires i < |hits| && forall j :: 0 <= j < |hits| ==> HasKeyableId(hits[j])
  {
    forall j :: i < j < |hits| ==> IdKey(hits[j]) != IdKey(hits[i])
  }

  /** `doc` is written into slot `i` by `hits[resultsMap[doc._id]] = doc`. */
  predicate Targets(positions: map<string, nat>, doc: Value, i: nat)
    requires HasKeyableId(doc)
  {
    IdKey(doc) in positions && positions[IdKey(doc)] == i
  }

  /** The hit list after writing the fetched documents, in fetch order, into
      the slots their ids map to. A document whose id maps to no slot writes
      a non-index property of the array, which leaves its elements alone. */
  function Hydrated(slots: seq<Value>, positions: map<string, nat>, docs: seq<Value>): (r: seq<Value>)
    requires forall j :: 0 <= j < |docs| ==> HasKeyableId(docs[j])
    ensures |r| == |slots|
  {
    if docs == [] then slots
    else
      var last := |docs| - 1;
      var prior := Hydrated(slots, positions, docs[..last]);
      var k := IdKey(docs[last]);
      if k in positions && positions[k] < |prior| then prior[positions[k] := docs[last]] else prior
  }

  /** The last fetched document that targets slot `i`, or -1 when none does. */
  function LastTarget(positions: map<string, nat>, docs: seq<Value>, i: nat): (j: int)
    requires forall l :: 0 <= l < |docs| ==> HasKeyableId(docs[l])
    ensures -1 <= j < |docs|
    ensures 0 <= j ==> Targets(positions, docs[j], i)
    ensures forall l :: j < l < |docs| ==> !Targets(positions, docs[l], i)
  {
    if docs == [] then -1
    else if Targets(positions, docs[|docs| - 1], i) then |docs| - 1
    else
      assert forall l :: 0 <= l < |docs| - 1 ==> docs[..|docs| - 1][l] == docs[l];
      LastTarget(positions, docs[..|docs| - 1], i)
  }

  /** Slot `i` ends up holding the last fetched document that targets it, and
      keeps its hit when no fetched document does. */
  lemma {:induction false} HydratedSlot(slots: seq<Value>, positions: map<string, nat>, docs: seq<Value>, i: nat)
    requires forall j :: 0 <= j < |docs| ==> HasKeyableId(docs[j])
    requires i < |slots|
    ensures Hydrated(slots, positions, docs)[i]
         == if LastTarget(positions, docs, i) < 0 then slots[i] else docs[LastTarget(positions, docs, i)]
  {
    if docs != [] {
      var last := |docs| - 1;
      var init := docs[..last];
      assert forall j :: 0 <= j < last ==> init[j] == docs[j];
      HydratedSlot(slots, positions, init, i);
      if !Targets(positions, docs[last], i) {
        assert LastTarget(positions, docs, i) == LastTarget(positions, init, i);
      }
    }
  }

  /** With the position map of the hits themselves, a fetched document
      targets slot `i` exactly when it has hit `i`'s id and `i` is the last
      hit with that id. */
  lemma TargetsMatchingHit(hits: seq<Value>, doc: Value, i: nat)
    requires forall j :: 0 <= j < |hits| ==> HasKeyableId(hits[j])
    requires HasKeyableId(doc) && i < |hits|
    ensures Targets(PositionMap(hits), doc, i) <==> IdKey(doc) == IdKey(hits[i]) && IsLastPosition(hits, i)
  {
    var p := PositionMap(hits);
    var key := IdKey(doc);
    PositionMapKeys(hits);
    if key == IdKey(hits[i]) {
      assert key in p;
    }
    if key in p {
      PositionMapLast(hits, key);
    }
  }

  /** After a successful fetch, hit `i` is replaced by the last fetched
      document with its id when `i` is the last hit with that id; it keeps
      its hit when a later hit shares its id or no fetched document has it. */
  lemma HydratedHits(hits: seq<Value>, docs: seq<Value>, i: nat)
    requires forall j :: 0 <= j < |hits| ==> HasKeyableId(hits[j])
    requires forall j :: 0 <= j < |docs| ==> HasKeyableId(docs[j])
    requires i < |hits|
    ensures var r := Hydrated(hits, PositionMap(hits), docs);
      && |r| == |hits|
      && ((!IsLastPosition(hits, i) || forall j :: 0 <= j < |docs| ==> IdKey(docs[j]) != IdKey(hits[i]))
          ==> r[i] == hits[i])
      && (forall j ::
            (0 <= j < |docs| && IsLastPosition(hits, i) && IdKey(docs[j]) == IdKey(hits[i])
             && forall l :: j < l < |docs| ==> IdKey(docs[l]) != IdKey(hits[i]))
            ==> r[i] == docs[j])
  {
    var p := PositionMap(hits);
    forall j | 0 <= j < |docs|
      ensures Targets(p, docs[j], i) <==> IdKey(docs[j]) == IdKey(hits[i]) && IsLastPosition(hits, i)
    {
      TargetsMatchingHit(hits, docs[j], i);
    }
    HydratedSlot(hits, p, docs, i);
    var t := LastTarget(p, docs, i);
    forall j | 0 <= j < |docs| && IsLastPosition(hits, i) && IdKey(docs[j]) == IdKey(hits[i])
               && (forall l :: j < l < |docs| ==> IdKey(docs[l]) != IdKey(hits[i]))
      ensures j == t
    {
      assert Targets(p, docs[j], i);
    }
  }

  /** `hydrate(results, model, options, cb)` on the hits array. */
  method Hydrate(hits: array<Value>, modifiers: map<string, Value>, reply: FetchReply)
    returns (query: FetchQuery, err: Option<Error>)
    requires forall i :: 0 <= i < hits.Length ==> HasKeyableId(hits[i])
    requires reply.Fetched? ==> forall j :: 0 <= j < |reply.docs| ==> HasKeyableId(reply.docs[j])
    modifies hits
    ensures |query.ids| == hits.Length
    ensures forall i :: 0 <= i < hits.Length ==> query.ids[i] == Get(old(hits[i]), "_id")
    ensures query.modifiers == modifiers
    ensures reply.FetchFailed? ==> err == Some(reply.err) && hits[..] == old(hits[..])
    ensures reply.Fetched? ==>
      err == None && hits[..] == Hydrated(old(hits[..]), PositionMap(old(hits[..])), reply.docs)
  {
    var positions: map<string, nat> := map[];
    var ids: seq<Value> := [];
    for i := 0 to hits.Length
      invariant |ids| == i
      invariant forall j :: 0 <= j < i ==> ids[j] == Get(hits[j], "_id")
      invariant positions == PositionMap(hits[..i])
    {
      assert hits[..i + 1][..i] == hits[..i];
      positions := positions[IdKey(hits[i]) := i];
      ids := ids + [Get(hits[i], "_id")];
    }
    assert hits[..hits.Length] == hits[..];
    query := FetchQuery(ids, modifiers);
    match reply
    case FetchFailed(e) =>
      err := Some(e);
    case Fetched(docs) =>
      ghost var original := hits[..];
      for j := 0 to |docs|
        invariant hits[..] == Hydrated(original, positions, docs[..j])
      {
        assert docs[..j + 1][..j] == docs[..j];
        var k := IdKey(docs[j]);
        if k in positions && positions[k] < hits.Length {
          hits[positions[k]] := docs[j];
        }
      }
      assert docs[..|docs|] == docs;
      err := None;
  }

  // ---------------------------------------------------------------------
  // deleteByMongoId

  datatype EsReply = EsReply(err: Option<Error>, res: Value)
  datatype DeleteRequest = DeleteRequest(index: string, docType: string, id: string)

  /** `err && err.message.indexOf('404') > -1`. */
  predicate IsNotFound(err: Option<Error>) {
    err.Some? && JsString.IndexOf(err.value.message, "404") > -1
  }

  /** A reply is a 404 exactly when it carries an error whose message
      contains "404" somewhere. */
  lemma IsNotFoundOccurs(err: Option<Error>)
    ensures IsNotFound(err) <==> err.Some? && exists k: nat :: JsString.OccursAt(err.value.message, "404", k)
  {
    if err.Some? && exists k: nat :: JsString.OccursAt(err.value.message, "404", k) {
      var k: nat :| JsString.OccursAt(err.value.message, "404", k);
      assert JsString.IndexOf(err.value.message, "404") != -1;
    }
  }

  /** The number of delete calls allowed by `tries`: one, plus one retry per
      remaining try. */
  function DeleteBudget(tries: int): (r: nat)
    ensures r >= 1 && r > tries
  {
    if tries > 0 then tries + 1 else 1
  }

  /** The calls the source's recursion makes when every reply is a 404: one
      call, then, while `tries > 0`, a recursive call with `--tries`. */
  function AllNotFoundCalls(tries: int): nat
    decreases if tries > 0 then tries else 0
  {
    if tries <= 0 then 1 else 1 + AllNotFoundCalls(tries - 1)
  }

  /** The delete budget is the number of calls the recursion makes. */
  lemma {:induction false} DeleteBudgetCountsCalls(tries: int)
    ensures DeleteBudget(tries) == AllNotFoundCalls(tries)
    decreases if tries > 0 then tries else 0
  {
    if tries > 0 {
      DeleteBudgetCountsCalls(tries - 1);
    }
  }

  /** The first reply before `limit` that is not a 404, or `limit`. */
  function FirstAnswer(replies: seq<EsReply>, from: nat, limit: nat): (f: nat)
    requires limit <= |replies|
    ensures from <= limit ==> from <= f <= limit
    ensures from > limit ==> f == limit
    ensures forall k :: from <= k < f ==> IsNotFound(replies[k].err)
    ensures f < limit ==> !IsNotFound(replies[f].err)
    decreases limit - from
  {
    if from >= limit then limit
    else if !IsNotFound(replies[from].err) then from
    else FirstAnswer(replies, from + 1, limit)
  }

  /** `deleteByMongoId(client, model, indexName, typeName, tries)`, each
      retry taken as the next step instead of after a 500 ms timer. */
  method DeleteByMongoId(d: Descriptor, id: string, tries: int, replies: seq<EsReply>)
    returns (calls: seq<DeleteRequest>, events: seq<Event>)
    requires DeleteBudget(tries) <= |replies|
    ensures var f := FirstAnswer(replies, 0, DeleteBudget(tries));
      && |calls| == (if f < DeleteBudget(tries) then f + 1 else DeleteBudget(tries))
      && (forall c :: c in calls ==> c == DeleteRequest(d.indexName, d.typeName, id))
      && events == (if f < DeleteBudget(tries) then [EsRemoved(replies[f].err, replies[f].res)] else [])
  {
    var left := tries;
    calls, events := [], [];
    while true
      invariant |calls| <= |replies|
      invariant left <= 0 ==> |calls| == DeleteBudget(tries) - 1
      invariant left > 0 ==> |calls| == tries - left
      invariant left <= tries
      invariant forall k :: 0 <= k < |calls| ==> IsNotFound(replies[k].err)
      invariant forall c :: c in calls ==> c == DeleteRequest(d.indexName, d.typeName, id)
      invariant events == []
      decreases if left > 0 then left else 0
    {
      var reply := replies[|calls|];
      calls := calls + [DeleteRequest(d.indexName, d.typeName, id)];
      if !IsNotFound(reply.err) {
        events := [EsRemoved(reply.err, reply.res)];
        return;
      }
      if left <= 0 {
        return;
      }
      left := left - 1;
    }
  }

  // ---------------------------------------------------------------------
  // The plugin's state

  /** The state the plugin keeps for one schema: the names (resolved lazily
      from the model name) and the mapping. */
  class Plugin {
    var indexName: string
    var typeName: string
    const mapping: Mapping

    function Names(): Descriptor
      reads this
    {
      Descriptor(indexName, typeName)
    }

    /** `options.index`, `options.type` and `options.mapping`; "" for an absent name. */
    constructor (mapping: Mapping, index: string, docType: string)
      ensures this.mapping == mapping && Names() == Descriptor(index, docType)
    {
      this.mapping := mapping;
      indexName, typeName := index, docType;
    }

    /** `setIndexNameIfUnset(model)`. */
    method SetIndexNameIfUnset(modelName: string)
      modifies this
      ensures Names() == Resolve(old(Names()), modelName)
    {
      var lower := JsString.ToLowerCase(modelName);
      if indexName == "" {
        indexName := lower + "s";
      }
      if typeName == "" {
        typeName := lower;
      }
    }

    /** `createMapping(cb)`. */
    method CreateMapping(modelName: string, reply: ExistsReply) returns (request: MappingRequest)
      modifies this
      ensures Names() == Resolve(old(Names()), modelName)
      ensures request == CreateMappingIfNotPresent(indexName, typeName, mapping, reply)
    {
      SetIndexNameIfUnset(modelName);
      request := CreateMappingIfNotPresent(indexName, typeName, mapping, reply);
    }

    /** `doc.index(index, type, cb, options)`: an explicit index or type name
        ("" when not given) overrides the plugin's; `null` stands for absent
        options, which get a fresh object. */
    method Index(modelName: string, doc: Value, index: string, docType: string, options: IndexOptions?,
                 reply: EsReply)
      returns (request: IndexRequest, events: seq<Event>)
      requires WellFormed(doc, mapping)
      requires (options != null && HasTruthyId(options.fields)) || HasId(doc)
      modifies this, options
      ensures Names() == Resolve(old(Names()), modelName)
      ensures request.index == (if index != "" then index else indexName)
      ensures request.docType == (if docType != "" then docType else typeName)
      ensures request.document == Serialize.Serialize(doc, mapping)
      ensures options == null ==> request.options == WithDefaultId(map[], doc)
      ensures options != null ==> options.fields == WithDefaultId(old(options.fields), doc)
                                  && request.options == options.fields
      ensures events == [EsIndexed(reply.err, reply.res)]
    {
      SetIndexNameIfUnset(modelName);
      var opts := WithDefaultId(if options == null then map[] else options.fields, doc);
      if options != null {
        options.fields := opts;
      }
      request := IndexRequest(if index != "" then index else indexName,
                              if docType != "" then docType else typeName,
                              Serialize.Serialize(doc, mapping), opts);
      events := [EsIndexed(reply.err, reply.res)];
    }

    /** `doc.unIndex()`: a delete by `_id` with three retries on 404. */
    method UnIndex(modelName: string, doc: Value, replies: seq<EsReply>)
      returns (calls: seq<DeleteRequest>, events: seq<Event>)
      requires HasId(doc)
      requires DeleteBudget(UnIndexTries) <= |replies|
      modifies this
      ensures Names() == Resolve(old(Names()), modelName)
      ensures forall c :: c in calls ==> c == DeleteRequest(indexName, typeName, IdKey(doc))
      ensures (forall k :: 0 <= k <= UnIndexTries ==> IsNotFound(replies[k].err)) ==> |calls| == 4 && events == []
      ensures forall k :: 0 <= k <= UnIndexTries && !IsNotFound(replies[k].err)
                          && (forall l :: 0 <= l < k ==> IsNotFound(replies[l].err)) ==>
        |calls| == k + 1 && events == [EsRemoved(replies[k].err, replies[k].res)]
    {
      SetIndexNameIfUnset(modelName);
      calls, events := DeleteByMongoId(Names(), IdKey(doc), UnIndexTries, replies);
    }

    /** `Model.synchronize(query, done)`: count, then the paged run. */
    method Synchronize(modelName: string, count: CountReply, pages: seq<FetchReply>, bulks: seq<Option<Error>>)
      returns (steps: seq<PageStep>, err: Option<Error>)
      requires count.Counted? ==> PageCount(count.count) <= |pages| && PageCount(count.count) <= |bulks|
      requires forall j :: 0 <= j < |pages| ==> PageIndexable(pages[j], mapping)
      modifies this
      ensures Names() == Resolve(old(Names()), modelName)
      ensures count.CountFailed? ==> steps == [] && err == Some(count.err)
      ensures count.Counted? ==> PagedRun(Names(), mapping, count.count, pages, bulks, steps, err)
    {
      SetIndexNameIfUnset(modelName);
      match count
      case CountFailed(e) =>
        steps, err := [], Some(e);
      case Counted(total) =>
        steps, err := SynchronizePages(Names(), mapping, total, pages, bulks);
    }

    /** `Model.clearAll(refresh, cb)` once its match-all search has answered. */
    method ClearAll(modelName: string, reply: SearchReply, refresh: bool) returns (request: Option<BulkRequest>)
      requires reply.total > 0 ==> forall i :: 0 <= i < |reply.hits| ==> PropertyReadable(reply.hits[i])
      modifies this
      ensures Names() == Resolve(old(Names()), modelName)
      ensures request == ClearAllRequest(Names(), reply, refresh)
    {
      SetIndexNameIfUnset(modelName);
      request := ClearAllRequest(Names(), reply, refresh);
    }
  }
}
