/** Insertion-ordered dictionaries, the semantics of a Python `dict`: a new key
    goes to the end, assigning to an existing key keeps its place. */
module OrderedMaps {
  import opened Options

  datatype Binding<K, V> = Binding(key: K, value: V)

  function Keys<K, V>(t: seq<Binding<K, V>>): (ks: seq<K>)
    ensures |ks| == |t|
    ensures forall i :: 0 <= i < |t| ==> ks[i] == t[i].key
  {
    seq(|t|, i requires 0 <= i < |t| => t[i].key)
  }

  predicate DistinctKeys<K(==), V>(t: seq<Binding<K, V>>) {
    forall i, j :: 0 <= i < j < |t| ==> t[i].key != t[j].key
  }

  /** Position of `k`, or `|t|` when absent. */
  function IndexOf<K(==), V>(t: seq<Binding<K, V>>, k: K): (i: nat)
    ensures i <= |t|
    ensures i < |t| ==> t[i].key == k
    ensures forall j :: 0 <= j < i ==> t[j].key != k
  {
    if |t| == 0 then 0
    else if t[0].key == k then 0
    else 1 + IndexOf(t[1..], k)
  }

  predicate HasKey<K(==), V>(t: seq<Binding<K, V>>, k: K) {
    exists i :: 0 <= i < |t| && t[i].key == k
  }

  /** `dict.get(k)`: the value bound to `k`, if any. */
  function Lookup<K(==), V>(t: seq<Binding<K, V>>, k: K): (r: Option<V>)
    ensures r.Some? <==> HasKey(t, k)
    ensures r.Some? ==> exists i :: 0 <= i < |t| && t[i] == Binding(k, r.value)
    ensures DistinctKeys(t) ==> forall i :: 0 <= i < |t| && t[i].key == k ==> r == Some(t[i].value)
  {
    var i := IndexOf(t, k);
    if i < |t| then Some(t[i].value) else None
  }

  /** `d[k] = v`. */
  function Put<K(==,!new), V>(t: seq<Binding<K, V>>, k: K, v: V): (r: seq<Binding<K, V>>)
    ensures DistinctKeys(t) ==> DistinctKeys(r)
    ensures Lookup(r, k) == Some(v)
    ensures forall k' :: k' != k ==> Lookup(r, k') == Lookup(t, k')
    ensures HasKey(t, k) ==> Keys(r) == Keys(t)
    ensures !HasKey(t, k) ==> Keys(r) == Keys(t) + [k]
    ensures forall i :: 0 <= i < |r| ==> r[i] == Binding(k, v) || r[i] in t
  {
    var i := IndexOf(t, k);
    var r := if i < |t| then t[i := Binding(k, v)] else t + [Binding(k, v)];
    forall k' | k' != k ensures Lookup(r, k') == Lookup(t, k') {
      var j := IndexOf(t, k');
      IndexOfCharacterised(r, k', if j < |t| then j else |r|);
    }
    IndexOfCharacterised(r, k, i);
    r
  }

  /** `IndexOf` is pinned down by its contract: the first index holding `k`. */
  lemma IndexOfCharacterised<K, V>(t: seq<Binding<K, V>>, k: K, i: nat)
    requires i <= |t|
    requires i < |t| ==> t[i].key == k
    requires forall j :: 0 <= j < i ==> t[j].key != k
    ensures IndexOf(t, k) == i
  {
  }
}
