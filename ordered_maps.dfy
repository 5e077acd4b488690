/**
 * A JavaScript `Map` with string keys: its entries together with the order in
 * which their keys were first inserted, which is the order `entries()` and
 * `for ... of` visit them in.
 */
module OrderedMaps {

  /** `xs` without the element `x`, the others in their order. */
  function Without(xs: seq<string>, x: string): (r: seq<string>)
    ensures forall y :: y in r <==> y in xs && y != x
    ensures |r| <= |xs|
  {
    if xs == [] then []
    else if xs[0] == x then Without(xs[1..], x)
    else [xs[0]] + Without(xs[1..], x)
  }

  ghost predicate Distinct(xs: seq<string>) {
    forall i, j :: 0 <= i < j < |xs| ==> xs[i] != xs[j]
  }

  lemma {:induction false} WithoutKeepsDistinct(xs: seq<string>, x: string)
    requires Distinct(xs)
    ensures Distinct(Without(xs, x))
  {
    if xs != [] {
      WithoutKeepsDistinct(xs[1..], x);
      var r := Without(xs[1..], x);
      if xs[0] != x {
        assert xs[0] !in xs[1..];
        assert forall j :: 0 <= j < |r| ==> r[j] in xs[1..];
      }
    }
  }

  datatype OMap<V> = OMap(keys: seq<string>, values: map<string, V>) {

    /** The keys are listed once each, and exactly the keys that have values are listed. */
    ghost predicate Valid() {
      Distinct(keys) && forall k :: k in values <==> k in keys
    }

    /** `map.set(k, v)`: a new key goes to the end; an existing key keeps its place. */
    function Put(k: string, v: V): (r: OMap<V>)
      ensures r.values == values[k := v]
      ensures r.keys == if k in values then keys else keys + [k]
      ensures Valid() ==> r.Valid()
    {
      if k in values then OMap(keys, values[k := v]) else OMap(keys + [k], values[k := v])
    }

    /** `map.delete(k)`. */
    function Delete(k: string): (r: OMap<V>)
      requires Valid()
      ensures r.Valid()
      ensures r.values == values - {k}
      ensures r.keys == Without(keys, k)
    {
      WithoutKeepsDistinct(keys, k);
      OMap(Without(keys, k), values - {k})
    }
  }

  function Empty<V>(): (r: OMap<V>)
    ensures r.Valid() && r.keys == [] && r.values == map[]
  {
    OMap([], map[])
  }
}
