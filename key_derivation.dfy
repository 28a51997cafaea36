/**
 * The storage key of a (name, dimensions) pair: the metric name followed by
 * "-" and the value of each dimension, taken in ascending order of the
 * dimension names. The names themselves do not appear in the key.
 */
module KeyDerivation {
  import opened Wrappers
  import opened Lexicographic
  import JsObject

  /** Label name to label value. Maps are equal when they hold the same pairs, however they were built. */
  type Dimensions = map<string, string>

  /** "-" + value for each of `names`, in the order given. */
  function Suffix(dims: Dimensions, names: seq<string>): string
    requires forall k :: k in names ==> k in dims
  {
    if names == [] then ""
    else Suffix(dims, names[..|names| - 1]) + "-" + dims[names[|names| - 1]]
  }

  /** The key for `name` and `dimensions`; absent dimensions contribute nothing. */
  ghost function StorageKey(name: string, dimensions: Option<Dimensions>): string {
    match dimensions
    case None => name
    case Some(dims) => name + Suffix(dims, SortedNames(dims.Keys))
  }

  /** What the key loop computes from the names in the order `Object.keys` listed them. */
  function KeyFromListing(name: string, dims: Dimensions, listed: seq<string>): string
    requires forall k :: k in listed ==> k in dims
  {
    assert forall k :: k in Sort(listed) ==> k in dims by {
      SortPreservesNames(listed);
    }
    name + Suffix(dims, Sort(listed))
  }

  lemma {:induction false} SortPreservesNames(listed: seq<string>)
    ensures forall k :: k in Sort(listed) <==> k in listed
  {
    if listed != [] {
      SortPreservesNames(listed[1..]);
      InsertPreservesNames(listed[0], Sort(listed[1..]));
      assert listed == [listed[0]] + listed[1..];
    }
  }

  lemma {:induction false} InsertPreservesNames(x: string, s: seq<string>)
    ensures forall k :: k in Insert(x, s) <==> k == x || k in s
  {
    if s != [] && Below(s[0], x) {
      InsertPreservesNames(x, s[1..]);
      assert s == [s[0]] + s[1..];
    }
  }

  /** One more name of the listing extends the suffix by "-" and its value. */
  lemma SuffixStep(dims: Dimensions, names: seq<string>, i: nat)
    requires forall k :: k in names ==> k in dims
    requires i < |names|
    ensures names[i] in dims
    ensures Suffix(dims, names[..i + 1]) == Suffix(dims, names[..i]) + "-" + dims[names[i]]
  {
    assert names[..i + 1][..i] == names[..i];
  }

  /**
   * Models `_generateStorageKey`: start from the name and, when dimensions
   * are given, append "-" + value for each name of the sorted key listing.
   */
  method GenerateStorageKey(name: string, dimensions: Option<Dimensions>) returns (key: string)
    ensures key == StorageKey(name, dimensions)
  {
    key := name;
    if dimensions.Some? {
      var dims := dimensions.value;
      var listed := JsObject.Keys(dims);
      var names := Sort(listed);
      SortPreservesNames(listed);
      for i := 0 to |names|
        invariant key == name + Suffix(dims, names[..i])
      {
        SuffixStep(dims, names, i);
        key := key + "-" + dims[names[i]];
      }
      SortListsSortedNames(listed, dims.Keys);
      assert names[..|names|] == names;
    }
  }

  /** The key does not depend on the order in which the dimension names were listed. */
  lemma ListingOrderIrrelevant(name: string, dims: Dimensions, listed: seq<string>)
    requires Distinct(listed)
    requires forall k :: k in listed <==> k in dims
    ensures KeyFromListing(name, dims, listed) == StorageKey(name, Some(dims))
  {
    SortListsSortedNames(listed, dims.Keys);
  }

  /** The key is the name followed by "-" + value for the names in any strictly ascending listing. */
  lemma KeyFormat(name: string, dims: Dimensions, names: seq<string>)
    requires StrictlySorted(names)
    requires forall k :: k in names <==> k in dims
    ensures StorageKey(name, Some(dims)) == name + Suffix(dims, names)
  {
    SortedUnique(names, SortedNames(dims.Keys));
  }

  /** Absent dimensions and empty dimensions both leave the key equal to the name. */
  lemma NoDimensionsKey(name: string)
    ensures StorageKey(name, None) == name
    ensures StorageKey(name, Some(map[])) == name
  {
  }

  /** The suffix only sees the sequence of values, not the names they belong to. */
  lemma {:induction false} SuffixSeesOnlyValues(dims1: Dimensions, names1: seq<string>, dims2: Dimensions, names2: seq<string>)
    requires forall k :: k in names1 ==> k in dims1
    requires forall k :: k in names2 ==> k in dims2
    requires |names1| == |names2|
    requires forall i :: 0 <= i < |names1| ==> dims1[names1[i]] == dims2[names2[i]]
    ensures Suffix(dims1, names1) == Suffix(dims2, names2)
    decreases |names1|
  {
    if names1 != [] {
      var n := |names1| - 1;
      SuffixSeesOnlyValues(dims1, names1[..n], dims2, names2[..n]);
    }
  }

  /**
   * The known collision: two dimension maps whose values, each taken in the
   * order of its own sorted names, agree give the same key under one name.
   */
  lemma NamesNotEncoded(name: string, dims1: Dimensions, dims2: Dimensions)
    requires |dims1| == |dims2|
    requires forall i :: 0 <= i < |dims1| ==> dims1[SortedNames(dims1.Keys)[i]] == dims2[SortedNames(dims2.Keys)[i]]
    ensures StorageKey(name, Some(dims1)) == StorageKey(name, Some(dims2))
  {
    SuffixSeesOnlyValues(dims1, SortedNames(dims1.Keys), dims2, SortedNames(dims2.Keys));
  }

  /** Two different dimension maps that share one key. */
  lemma CollisionExample()
    ensures map["statusCode" := "200"] != map["code" := "200"]
    ensures StorageKey("requests", Some(map["statusCode" := "200"])) == StorageKey("requests", Some(map["code" := "200"]))
  {
    assert "statusCode" !in map["code" := "200"];
    NamesNotEncoded("requests", map["statusCode" := "200"], map["code" := "200"]);
  }

  /** A "-" inside the metric name collides with a dimension value. */
  lemma DelimiterCollisionExample()
    ensures StorageKey("requests-GET", None) == StorageKey("requests", Some(map["method" := "GET"]))
  {
    KeyFormat("requests", map["method" := "GET"], ["method"]);
  }

  /** With three dimensions, the key lists their values in ascending order of their names. */
  lemma ThreeDimensionKey(name: string, k1: string, v1: string, k2: string, v2: string, k3: string, v3: string)
    requires Below(k1, k2) && Below(k2, k3)
    ensures StorageKey(name, Some(map[k1 := v1, k2 := v2, k3 := v3])) == name + "-" + v1 + "-" + v2 + "-" + v3
  {
    var dims := map[k1 := v1, k2 := v2, k3 := v3];
    var names := [k1, k2, k3];
    BelowTransitive(k1, k2, k3);
    BelowIrreflexive(k1);
    BelowIrreflexive(k2);
    assert StrictlySorted(names);
    assert dims[k1] == v1 && dims[k2] == v2 && dims[k3] == v3;
    KeyFormat(name, dims, names);
    assert names[..1] == [k1] && names[..2] == [k1, k2] && names[..3] == names;
    SuffixStep(dims, names, 0);
    SuffixStep(dims, names, 1);
    SuffixStep(dims, names, 2);
  }

  /** The key the request instrumentation records a (method, status, route) under. */
  lemma RequestKey(verb: string, statusCode: string, uri: string)
    ensures StorageKey("requests", Some(map["statusCode" := statusCode, "method" := verb, "uri" := uri]))
         == "requests-" + verb + "-" + statusCode + "-" + uri
  {
    assert Below("method", "statusCode") && Below("statusCode", "uri");
    ThreeDimensionKey("requests", "method", verb, "statusCode", statusCode, "uri", uri);
    assert map["statusCode" := statusCode, "method" := verb, "uri" := uri]
        == map["method" := verb, "statusCode" := statusCode, "uri" := uri];
  }

  /** The key one GET of route `/hello` answered with 200 is recorded under. */
  lemma HelloKey()
    ensures StorageKey("requests", Some(map["statusCode" := "200", "method" := "GET", "uri" := "/hello"]))
         == "requests-GET-200-/hello"
  {
    RequestKey("GET", "200", "/hello");
  }

  /** The key one POST of route `/world` answered with 201 is recorded under. */
  lemma WorldKey()
    ensures StorageKey("requests", Some(map["statusCode" := "201", "method" := "POST", "uri" := "/world"]))
         == "requests-POST-201-/world"
  {
    RequestKey("POST", "201", "/world");
  }
}
