/** PHP's ordered arrays as the asset lists use them: key/value pairs in
    insertion order, each key at most once. Assigning `$a[$k] = $v`
    replaces the value in place when `$k` is present and appends the pair
    otherwise. */
module OrderedArray {
  import opened Options

  datatype Pair<V> = Pair(key: string, value: V)

  predicate KeysDistinct<V>(a: seq<Pair<V>>) {
    forall i, j :: 0 <= i < j < |a| ==> a[i].key != a[j].key
  }

  /** The keys in order (`array_keys`). */
  function Keys<V>(a: seq<Pair<V>>): seq<string> {
    seq(|a|, i requires 0 <= i < |a| => a[i].key)
  }

  /** Position of the first pair with key `k`. */
  function IndexOf<V>(a: seq<Pair<V>>, k: string): (r: Option<nat>)
    decreases |a|
    ensures r.Some? ==> r.value < |a| && a[r.value].key == k
    ensures r.Some? ==> forall j :: 0 <= j < r.value ==> a[j].key != k
    ensures r.None? ==> forall j :: 0 <= j < |a| ==> a[j].key != k
  {
    if a == [] then None
    else if a[0].key == k then Some(0)
    else
      match IndexOf(a[1..], k)
      case None => None
      case Some(i) => Some(i + 1)
  }

  /** `$a[$k]`, or None when the key is absent. */
  function Lookup<V>(a: seq<Pair<V>>, k: string): Option<V> {
    match IndexOf(a, k)
    case None => None
    case Some(i) => Some(a[i].value)
  }

  /** `$a[$k] = $v`. */
  function Put<V>(a: seq<Pair<V>>, k: string, v: V): seq<Pair<V>> {
    match IndexOf(a, k)
    case Some(i) => a[i := Pair(k, v)]
    case None => a + [Pair(k, v)]
  }

  /** In a list with distinct keys, the pair at `i` is the one found for
      its key. */
  lemma IndexOfDistinct<V>(a: seq<Pair<V>>, i: nat)
    requires KeysDistinct(a) && i < |a|
    ensures IndexOf(a, a[i].key) == Some(i)
  {
    var r := IndexOf(a, a[i].key);
    assert r.Some?;
  }

  /** An assignment keeps the keys distinct, leaves the order of the keys
      present alone and appends a new key at the end. */
  lemma PutKeys<V>(a: seq<Pair<V>>, k: string, v: V)
    requires KeysDistinct(a)
    ensures KeysDistinct(Put(a, k, v))
    ensures Keys(Put(a, k, v)) == if IndexOf(a, k).Some? then Keys(a) else Keys(a) + [k]
  {
    var b := Put(a, k, v);
    if IndexOf(a, k).None? {
      assert forall i :: 0 <= i < |a| ==> b[i] == a[i];
    }
  }

  /** After `$a[$k] = $v`, `$a[$k]` is `$v` and every other key reads as
      before. */
  lemma PutLookup<V>(a: seq<Pair<V>>, k: string, v: V, k2: string)
    requires KeysDistinct(a)
    ensures Lookup(Put(a, k, v), k2) == if k2 == k then Some(v) else Lookup(a, k2)
  {
    var b := Put(a, k, v);
    PutKeys(a, k, v);
    var n := if IndexOf(a, k).Some? then IndexOf(a, k).value else |a|;
    assert b[n] == Pair(k, v);
    if k2 == k {
      IndexOfDistinct(b, n);
    } else {
      match IndexOf(a, k2)
      case None =>
        assert forall j :: 0 <= j < |b| ==> b[j].key != k2 by {
          forall j | 0 <= j < |b| ensures b[j].key != k2 {
            if j != n {
              assert b[j] == a[j];
            }
          }
        }
      case Some(i) =>
        assert i != n && b[i] == a[i];
        IndexOfDistinct(b, i);
    }
  }

  /** Every pair after an assignment is the assigned one or the pair that
      was at that position. */
  lemma PutValues<V>(a: seq<Pair<V>>, k: string, v: V)
    ensures |Put(a, k, v)| >= |a|
    ensures forall i :: 0 <= i < |Put(a, k, v)| ==> Put(a, k, v)[i] == Pair(k, v) || (i < |a| && Put(a, k, v)[i] == a[i])
  {
  }

  /** A key is found exactly when it is among the keys. */
  lemma IndexOfKeys<V>(a: seq<Pair<V>>, k: string)
    ensures IndexOf(a, k).Some? <==> k in Keys(a)
  {
    if k in Keys(a) {
      var j :| 0 <= j < |a| && Keys(a)[j] == k;
      assert a[j].key == k;
    }
    if IndexOf(a, k).Some? {
      assert Keys(a)[IndexOf(a, k).value] == k;
    }
  }
}
