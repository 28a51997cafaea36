/**
 * The dimension-aware metrics registry: a store of metric wrappers indexed by
 * the storage key of their name and dimensions.
 */
module Registry {
  import opened Wrappers
  import opened Lexicographic
  import opened KeyDerivation
  import JsObject

  /** The stored record: the metric's identity and the metric itself (opaque here). */
  datatype MetricWrapper<M> = MetricWrapper(name: string, metricImpl: M, dimensions: Dimensions)

  /** Reading the metric of an absent wrapper (a TypeError in the original). */
  datatype LookupError = UndefinedWrapper(key: string)

  /** The key under which a wrapper of this identity is stored. */
  ghost function WrapperKey<M>(w: MetricWrapper<M>): string {
    StorageKey(w.name, Some(w.dimensions))
  }

  /** Every wrapper sits at the key of its own name and dimensions. */
  ghost predicate Consistent<M>(store: map<string, MetricWrapper<M>>) {
    forall key :: key in store ==> key == WrapperKey(store[key])
  }

  /** The store after upserting `metric` for `name` and `dimensions`. */
  ghost function Upsert<M>(store: map<string, MetricWrapper<M>>, name: string, metric: M,
                           dimensions: Option<Dimensions>): map<string, MetricWrapper<M>> {
    store[StorageKey(name, dimensions) := MetricWrapper(name, metric, dimensions.GetOr(map[]))]
  }

  /** Absent dimensions are stored as the empty map and give the same key as it. */
  lemma StoredDimensionsGiveSameKey(name: string, dimensions: Option<Dimensions>)
    ensures StorageKey(name, Some(dimensions.GetOr(map[]))) == StorageKey(name, dimensions)
  {
    NoDimensionsKey(name);
  }

  /** Upserting keeps every wrapper at its own key. */
  lemma UpsertKeepsConsistent<M>(store: map<string, MetricWrapper<M>>, name: string, metric: M,
                                 dimensions: Option<Dimensions>)
    requires Consistent(store)
    ensures Consistent(Upsert(store, name, metric, dimensions))
  {
    StoredDimensionsGiveSameKey(name, dimensions);
  }

  /** After an upsert the derived key is present and holds exactly what was put. */
  lemma UpsertThenRead<M>(store: map<string, MetricWrapper<M>>, name: string, metric: M,
                          dimensions: Option<Dimensions>)
    ensures StorageKey(name, dimensions) in Upsert(store, name, metric, dimensions)
    ensures Upsert(store, name, metric, dimensions)[StorageKey(name, dimensions)]
         == MetricWrapper(name, metric, dimensions.GetOr(map[]))
  {
  }

  /** An upsert leaves every other key, present or absent, as it was. */
  lemma UpsertFrame<M>(store: map<string, MetricWrapper<M>>, name: string, metric: M,
                       dimensions: Option<Dimensions>, other: string)
    requires other != StorageKey(name, dimensions)
    ensures other in Upsert(store, name, metric, dimensions) <==> other in store
    ensures other in store ==> Upsert(store, name, metric, dimensions)[other] == store[other]
  {
  }

  /** An upsert adds one key when the derived key was new and none when it overwrote. */
  lemma UpsertKeyCount<M>(store: map<string, MetricWrapper<M>>, name: string, metric: M,
                          dimensions: Option<Dimensions>)
    ensures Upsert(store, name, metric, dimensions).Keys == store.Keys + {StorageKey(name, dimensions)}
    ensures |Upsert(store, name, metric, dimensions)|
         == if StorageKey(name, dimensions) in store then |store| else |store| + 1
  {
    var after := Upsert(store, name, metric, dimensions);
    assert after.Keys == store.Keys + {StorageKey(name, dimensions)};
    assert |after| == |after.Keys|;
  }

  /** Upserting the same name and dimensions again replaces the metric and adds no key. */
  lemma RepeatedUpsertKeepsOneKey<M>(store: map<string, MetricWrapper<M>>, name: string,
                                     first: M, second: M, dimensions: Option<Dimensions>)
    ensures Upsert(Upsert(store, name, first, dimensions), name, second, dimensions)
         == Upsert(store, name, second, dimensions)
  {
  }

  /**
   * The known collision: a put under other dimension names with the same
   * values overwrites the earlier wrapper, which is no longer stored anywhere.
   */
  lemma CollidingPutOverwrites<M>(store: map<string, MetricWrapper<M>>, m1: M, m2: M)
    ensures var after := Upsert(Upsert(store, "requests", m1, Some(map["statusCode" := "200"])),
                                "requests", m2, Some(map["code" := "200"]));
            |after| == |Upsert(store, "requests", m1, Some(map["statusCode" := "200"]))|
            && after[StorageKey("requests", Some(map["statusCode" := "200"]))]
               == MetricWrapper("requests", m2, map["code" := "200"])
  {
    CollisionExample();
    UpsertKeyCount(Upsert(store, "requests", m1, Some(map["statusCode" := "200"])),
                   "requests", m2, Some(map["code" := "200"]));
  }

  /** One GET of `/hello` answered with 200 leaves exactly one key, with that wrapper. */
  lemma HelloScenario<M>(timer: M)
    ensures var after := Upsert(map[], "requests", timer,
                                Some(map["statusCode" := "200", "method" := "GET", "uri" := "/hello"]));
            after.Keys == {"requests-GET-200-/hello"}
            && after["requests-GET-200-/hello"].name == "requests"
            && after["requests-GET-200-/hello"].dimensions
               == map["statusCode" := "200", "method" := "GET", "uri" := "/hello"]
  {
    HelloKey();
  }

  /** One POST of `/world` answered with 201 leaves exactly one key, with that wrapper. */
  lemma WorldScenario<M>(timer: M)
    ensures var after := Upsert(map[], "requests", timer,
                                Some(map["statusCode" := "201", "method" := "POST", "uri" := "/world"]));
            after.Keys == {"requests-POST-201-/world"}
            && after["requests-POST-201-/world"].name == "requests"
            && after["requests-POST-201-/world"].dimensions
               == map["statusCode" := "201", "method" := "POST", "uri" := "/world"]
  {
    WorldKey();
  }

  /** Three requests that share one route template leave exactly one key. */
  lemma SameRouteScenario<M>(t1: M, t2: M, t3: M, dims: Dimensions)
    ensures |Upsert(Upsert(Upsert(map[], "requests", t1, Some(dims)), "requests", t2, Some(dims)),
                    "requests", t3, Some(dims))| == 1
  {
    var after := Upsert(Upsert(Upsert(map[], "requests", t1, Some(dims)), "requests", t2, Some(dims)),
                        "requests", t3, Some(dims));
    assert after.Keys == {StorageKey("requests", Some(dims))};
  }

  /** Models `DimensionAwareMetricsRegistry`: the wrappers by storage key. */
  class DimensionAwareMetricsRegistry<M> {
    var metrics: map<string, MetricWrapper<M>>

    ghost predicate Valid()
      reads this
    {
      Consistent(metrics)
    }

    /** A new registry holds no metrics. */
    constructor ()
      ensures Valid()
      ensures metrics == map[]
    {
      metrics := map[];
    }

    /** True exactly when a wrapper is stored at the key of `name` and `dimensions`. */
    method HasMetric(name: string, dimensions: Option<Dimensions>) returns (present: bool)
      ensures present <==> StorageKey(name, dimensions) in metrics
    {
      var key := GenerateStorageKey(name, dimensions);
      present := key in metrics;
    }

    /** The metric stored for `name` and `dimensions`; an error when there is none. */
    method GetMetric(name: string, dimensions: Option<Dimensions>) returns (r: Result<M, LookupError>)
      ensures StorageKey(name, dimensions) in metrics
              ==> r == Success(metrics[StorageKey(name, dimensions)].metricImpl)
      ensures StorageKey(name, dimensions) !in metrics
              ==> r == Failure(UndefinedWrapper(StorageKey(name, dimensions)))
    {
      var key := GenerateStorageKey(name, dimensions);
      if key in metrics {
        r := Success(metrics[key].metricImpl);
      } else {
        r := Failure(UndefinedWrapper(key));
      }
    }

    /** The wrapper stored at `key`, if any; a stored wrapper's own identity derives `key`. */
    function GetMetricWrapperByKey(key: string): (r: Option<MetricWrapper<M>>)
      reads this
      ensures r.Some? <==> key in metrics
      ensures r.Some? ==> r.value == metrics[key]
      ensures Valid() && r.Some? ==> StorageKey(r.value.name, Some(r.value.dimensions)) == key
    {
      if key in metrics then Some(metrics[key]) else None
    }

    /** Upserts the wrapper for `name` and `dimensions` and returns its key. */
    method PutMetric(name: string, metric: M, dimensions: Option<Dimensions>) returns (key: string)
      modifies this
      ensures key == StorageKey(name, dimensions)
      ensures metrics == Upsert(old(metrics), name, metric, dimensions)
      ensures old(Valid()) ==> Valid()
    {
      key := GenerateStorageKey(name, dimensions);
      metrics := metrics[key := MetricWrapper(name, metric, dimensions.GetOr(map[]))];
      if old(Valid()) {
        UpsertKeepsConsistent(old(metrics), name, metric, dimensions);
      }
    }

    /** Every stored key, once each. */
    method AllKeys() returns (keys: seq<string>)
      ensures Distinct(keys)
      ensures forall k :: k in keys <==> k in metrics
      ensures |keys| == |metrics|
    {
      keys := JsObject.Keys(metrics);
    }
  }
}
