/** Iteration over a dictionary.  A `foreach` over a `Dictionary` visits every
    key once in an order the program does not control; `Enumerate` gives that
    order as a sequence of distinct keys, and the stores' loops walk it. */
module Collections {

  /** No element occurs twice. */
  ghost predicate Distinct<T>(s: seq<T>)
  {
    forall i, j :: 0 <= i < j < |s| ==> s[i] != s[j]
  }

  /** A sequence without repetitions is as long as the set of its elements. */
  lemma {:induction false} DistinctCardinality<T>(s: seq<T>)
    requires Distinct(s)
    ensures |(set x | x in s)| == |s|
  {
    if s != [] {
      DistinctCardinality(s[1..]);
      assert (set x | x in s) == {s[0]} + (set x | x in s[1..]);
      assert s[0] !in s[1..];
    }
  }

  /** Lists every element of `keys` exactly once, in an unspecified order. */
  method Enumerate<K(==)>(keys: set<K>) returns (s: seq<K>)
    ensures Distinct(s)
    ensures forall k :: k in s <==> k in keys
  {
    s := [];
    var todo := keys;
    while todo != {}
      invariant todo <= keys
      invariant Distinct(s)
      invariant forall k :: k in s <==> k in keys && k !in todo
      decreases todo
    {
      var k :| k in todo;
      s := s + [k];
      todo := todo - {k};
    }
  }

  /** The values of a dictionary whose every value carries its own key, kept
      when they satisfy `p`: a `foreach` over the dictionary adding each
      matching value to a result list.  Values are listed once each, in
      iteration order. */
  method Select<K(==), V(==)>(m: map<K, V>, keyOf: V -> K, p: V -> bool) returns (s: seq<V>)
    requires forall k :: k in m ==> keyOf(m[k]) == k
    ensures Distinct(s)
    ensures forall v :: v in s <==> v in m.Values && p(v)
  {
    var ks := Enumerate(m.Keys);
    s := [];
    for i := 0 to |ks|
      invariant Distinct(s)
      invariant forall v :: v in s ==> v in m.Values && p(v) && keyOf(v) in ks[..i]
      invariant forall j :: 0 <= j < i && p(m[ks[j]]) ==> m[ks[j]] in s
    {
      var v := m[ks[i]];
      if p(v) {
        forall w | w in s ensures w != v {
          assert keyOf(w) in ks[..i];
        }
        s := s + [v];
      }
    }
    forall v | v in m.Values && p(v) ensures v in s {
      var k :| k in m && m[k] == v;
      assert k in ks;
      var j :| 0 <= j < |ks| && ks[j] == k;
    }
  }
}
