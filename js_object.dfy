/** `Object.keys` on a plain object, whose listing order depends on insertion history. */
module JsObject {
  import opened Lexicographic

  /**
   * Lists the own keys of `obj` once each. The order is left to the choice
   * the loop makes, as a caller of `Object.keys` cannot rely on one either.
   */
  method Keys<V>(obj: map<string, V>) returns (listed: seq<string>)
    ensures Distinct(listed)
    ensures forall k :: k in listed <==> k in obj
    ensures |listed| == |obj|
  {
    listed := [];
    var rest := obj.Keys;
    while rest != {}
      invariant rest <= obj.Keys
      invariant forall k :: k in listed <==> k in obj && k !in rest
      invariant Distinct(listed)
      invariant |listed| + |rest| == |obj|
      decreases |rest|
    {
      var k :| k in rest;
      listed := listed + [k];
      rest := rest - {k};
    }
  }
}
