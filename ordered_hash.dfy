/**
  A Ruby `Hash` from strings to strings. Ruby hashes remember insertion
  order: assigning to a key that is already present keeps its position, a
  new key goes last, and `key(value)` answers with the first key, in that
  order, whose value is `value`.
*/
module OrderedHash {
  import opened Options

  datatype Entry = Entry(key: string, value: string)

  type Hash = seq<Entry>

  predicate UniqueKeys(h: Hash) {
    forall i, j :: 0 <= i < j < |h| ==> h[i].key != h[j].key
  }

  predicate HasKey(h: Hash, k: string) {
    exists i :: 0 <= i < |h| && h[i].key == k
  }

  function KeySet(h: Hash): set<string> {
    set i | 0 <= i < |h| :: h[i].key
  }

  /** The position of key `k`: keys are looked up from the front. */
  function KeyIndex(h: Hash, k: string): (r: Option<nat>)
    ensures r.None? <==> !HasKey(h, k)
    ensures r.Some? ==> r.value < |h| && h[r.value].key == k
    ensures r.Some? ==> forall j :: 0 <= j < r.value ==> h[j].key != k
  {
    if h == [] then None
    else if h[0].key == k then Some(0)
    else
      var r := KeyIndex(h[1..], k);
      assert forall i :: 0 <= i < |h[1..]| ==> h[1..][i] == h[i + 1];
      if r.None? then None else Some(r.value + 1)
  }

  /** `h[k]`: the value stored under `k`, `nil` when there is none. */
  function Get(h: Hash, k: string): (r: Option<string>)
    ensures r.None? <==> !HasKey(h, k)
    ensures r.Some? ==> exists i :: 0 <= i < |h| && h[i] == Entry(k, r.value)
  {
    match KeyIndex(h, k)
    case None => None
    case Some(i) => Some(h[i].value)
  }

  /** `h[k] = v`: overwrite in place when `k` is present, append otherwise. */
  function Put(h: Hash, k: string, v: string): (r: Hash)
    ensures |r| == if HasKey(h, k) then |h| else |h| + 1
    ensures forall i :: 0 <= i < |h| ==> r[i].key == h[i].key
    ensures forall i :: 0 <= i < |h| && h[i].key != k ==> r[i] == h[i]
    ensures !HasKey(h, k) ==> r[|h|] == Entry(k, v)
    ensures exists i :: 0 <= i < |r| && r[i] == Entry(k, v)
  {
    match KeyIndex(h, k)
    case None => h + [Entry(k, v)]
    case Some(i) => h[i := Entry(k, v)]
  }

  /** Assigning to a key keeps the keys distinct and adds that key to the key set. */
  lemma PutKeys(h: Hash, k: string, v: string)
    ensures KeySet(Put(h, k, v)) == KeySet(h) + {k}
    ensures UniqueKeys(h) ==> UniqueKeys(Put(h, k, v))
  {
    var r := Put(h, k, v);
    forall x | x in KeySet(r) ensures x in KeySet(h) + {k} {
      var i :| 0 <= i < |r| && r[i].key == x;
      if i < |h| { assert h[i].key == x; }
    }
    var i :| 0 <= i < |r| && r[i] == Entry(k, v);
    assert k in KeySet(r);
    forall x | x in KeySet(h) ensures x in KeySet(r) {
      var j :| 0 <= j < |h| && h[j].key == x;
      assert r[j].key == x;
    }
  }

  /** With distinct keys, the entry that carries a key is the only one: it holds the key's value. */
  lemma GetUnique(h: Hash, i: nat)
    requires UniqueKeys(h) && i < |h|
    ensures Get(h, h[i].key) == Some(h[i].value)
  {
  }

  /** After `h[k] = v`, `h[k]` is `v` and every other key reads as before. */
  lemma GetPut(h: Hash, k: string, v: string, k': string)
    requires UniqueKeys(h)
    ensures Get(Put(h, k, v), k') == if k' == k then Some(v) else Get(h, k')
  {
    var r := Put(h, k, v);
    PutKeys(h, k, v);
    if k' == k {
      var i :| 0 <= i < |r| && r[i] == Entry(k, v);
      GetUnique(r, i);
    } else if HasKey(h, k') {
      var j := KeyIndex(h, k').value;
      GetUnique(h, j);
      GetUnique(r, j);
    } else {
      assert !HasKey(r, k') by {
        forall i | 0 <= i < |r| ensures r[i].key != k' {
          if i < |h| { assert r[i].key == h[i].key; }
        }
      }
    }
  }

  /** The first position whose value is `v`. */
  function FirstWithValue(h: Hash, v: string): (r: Option<nat>)
    ensures r.None? <==> forall i :: 0 <= i < |h| ==> h[i].value != v
    ensures r.Some? ==> r.value < |h| && h[r.value].value == v
    ensures r.Some? ==> forall j :: 0 <= j < r.value ==> h[j].value != v
  {
    if h == [] then None
    else if h[0].value == v then Some(0)
    else
      var r := FirstWithValue(h[1..], v);
      assert forall i :: 0 <= i < |h[1..]| ==> h[1..][i] == h[i + 1];
      if r.None? then None else Some(r.value + 1)
  }

  /** `h.key(v)`: the first key, in insertion order, whose value is `v`; `nil` when no value is `v`. */
  function KeyOf(h: Hash, v: string): (r: Option<string>)
    ensures r.None? <==> forall i :: 0 <= i < |h| ==> h[i].value != v
    ensures r.Some? ==> exists i :: 0 <= i < |h| && h[i] == Entry(r.value, v) &&
                                    forall j :: 0 <= j < i ==> h[j].value != v
  {
    match FirstWithValue(h, v)
    case None => None
    case Some(i) => Some(h[i].key)
  }

  /** The reverse lookup undoes the lookup: the key it finds stores the label asked for. */
  lemma KeyOfThenGet(h: Hash, v: string)
    requires UniqueKeys(h)
    requires KeyOf(h, v).Some?
    ensures Get(h, KeyOf(h, v).value) == Some(v)
  {
    var k := KeyOf(h, v).value;
    var i :| 0 <= i < |h| && h[i] == Entry(k, v);
    var w := Get(h, k).value;
    var j :| 0 <= j < |h| && h[j] == Entry(k, w);
    assert i == j;
  }

  /** Every stored label is found again by the reverse lookup; with distinct labels it finds exactly its key. */
  lemma GetThenKeyOf(h: Hash, k: string, v: string)
    requires UniqueKeys(h)
    requires Get(h, k) == Some(v)
    ensures KeyOf(h, v).Some?
    ensures (forall i, j :: 0 <= i < j < |h| ==> h[i].value != h[j].value) ==> KeyOf(h, v) == Some(k)
  {
    var i :| 0 <= i < |h| && h[i] == Entry(k, v);
    var k' := KeyOf(h, v).value;
    var j :| 0 <= j < |h| && h[j] == Entry(k', v) && forall m :: 0 <= m < j ==> h[m].value != v;
    if forall a, b :: 0 <= a < b < |h| ==> h[a].value != h[b].value {
      assert i == j;
    }
  }
}
