/** Python's insertion-ordered `dict`, with string keys. */
module PyDict {

  predicate Distinct(s: seq<string>) {
    forall i, j :: 0 <= i < j < |s| ==> s[i] != s[j]
  }

  /** A dict: its keys in insertion order, and the value stored under each key. */
  datatype Dict<V> = Dict(order: seq<string>, entries: map<string, V>) {

    /** The order lists every key of the dict exactly once. */
    ghost predicate Valid() {
      && Distinct(order)
      && (forall k :: k in entries <==> k in order)
    }

    /** `d[k] = v`: a new key goes to the end, a key already present keeps its place. */
    function Set(k: string, v: V): (d: Dict<V>)
      ensures d.entries == entries[k := v]
      ensures k in entries ==> d.order == order
      ensures k !in entries ==> d.order == order + [k]
      ensures Valid() ==> d.Valid()
    {
      Dict(if k in entries then order else order + [k], entries[k := v])
    }

    /** `d.pop(k, default)`: removes k when it is present and leaves the dict alone otherwise. */
    function Pop(k: string): (d: Dict<V>)
      ensures d.entries == entries - {k}
      ensures forall x :: x in d.order <==> x in order && x != k
      ensures Valid() ==> d.Valid()
    {
      Dict(Remove(order, k), entries - {k})
    }
  }

  /** `{}` */
  function Empty<V>(): (d: Dict<V>)
    ensures d.Valid() && d.order == [] && d.entries == map[]
  {
    Dict([], map[])
  }

  /** The sequence without the element k, the rest in their order. */
  function Remove(s: seq<string>, k: string): (r: seq<string>)
    ensures forall x :: x in r <==> x in s && x != k
    ensures Distinct(s) ==> Distinct(r)
    ensures |r| <= |s|
  {
    if s == [] then []
    else
      var rest := Remove(s[1..], k);
      assert Distinct(s) ==> s[0] !in s[1..];
      if s[0] == k then rest else [s[0]] + rest
  }
}
