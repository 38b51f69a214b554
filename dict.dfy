/**
  The `Dictionary<Vector3d, Vector3d>` of direction → tangent pairs.

  Keys are compared with `Equals`, which is exact, so a key is a `Vec` under
  datatype equality. A .NET dictionary that is only ever inserted into
  enumerates its entries in the order their keys were first inserted, so such
  a dictionary is an entry sequence with distinct keys: `Insert` overwrites
  the value of a present key where it stands and appends a new one.
*/
module Dictionaries {
  import opened Vectors

  /** One `KeyValuePair`: a direction and its tangent. */
  datatype Entry = Entry(key: Vec, value: Vec)

  /** No key appears twice. */
  predicate DistinctKeys(d: seq<Entry>)
  {
    forall i, j :: 0 <= i < j < |d| ==> d[i].key != d[j].key
  }

  /** The last position of `k` in `d`, or -1 when `k` is not a key. */
  function KeyIndex(d: seq<Entry>, k: Vec): (i: int)
    ensures -1 <= i < |d|
    ensures i >= 0 ==> d[i].key == k && forall j :: i < j < |d| ==> d[j].key != k
    ensures i == -1 ==> forall j :: 0 <= j < |d| ==> d[j].key != k
    decreases |d|
  {
    if d == [] then -1
    else if d[|d| - 1].key == k then |d| - 1
    else KeyIndex(d[..|d| - 1], k)
  }

  /** What the dictionary answers to lookups: the value of the last entry with each key. */
  function ToMap(d: seq<Entry>): map<Vec, Vec>
    decreases |d|
  {
    if d == [] then map[] else ToMap(d[..|d| - 1])[d[|d| - 1].key := d[|d| - 1].value]
  }

  /** The keys of the lookup map are the keys of the entries. */
  lemma {:induction false} ToMapKeys(d: seq<Entry>, k: Vec)
    ensures k in ToMap(d) <==> KeyIndex(d, k) >= 0
    decreases |d|
  {
    if d != [] && d[|d| - 1].key != k {
      ToMapKeys(d[..|d| - 1], k);
    }
  }

  /** Looking up a key gives the value of its last entry. */
  lemma {:induction false} ToMapAtKeyIndex(d: seq<Entry>, k: Vec)
    requires KeyIndex(d, k) >= 0
    ensures k in ToMap(d) && ToMap(d)[k] == d[KeyIndex(d, k)].value
    decreases |d|
  {
    if d[|d| - 1].key != k {
      ToMapAtKeyIndex(d[..|d| - 1], k);
    }
  }

  /** With distinct keys, looking up an entry's key gives that entry's value. */
  lemma {:induction false} ToMapAt(d: seq<Entry>, i: nat)
    requires DistinctKeys(d) && i < |d|
    ensures d[i].key in ToMap(d) && ToMap(d)[d[i].key] == d[i].value
    decreases |d|
  {
    if i < |d| - 1 {
      ToMapAt(d[..|d| - 1], i);
    }
  }

  /**
    The indexer setter `dict[k] = v`: the value of a present key is replaced
    in its place, an absent key is appended; keys stay distinct and keep
    their order.
  */
  function Insert(d: seq<Entry>, k: Vec, v: Vec): (r: seq<Entry>)
    ensures |r| == if KeyIndex(d, k) >= 0 then |d| else |d| + 1
    ensures forall j :: 0 <= j < |d| ==> r[j].key == d[j].key
    ensures KeyIndex(r, k) >= 0 && r[KeyIndex(r, k)].value == v
    ensures DistinctKeys(d) ==> DistinctKeys(r)
  {
    var i := KeyIndex(d, k);
    if i >= 0 then d[i := Entry(k, v)] else d + [Entry(k, v)]
  }

  /** Inserting sets the value of `k` and leaves every other lookup as it was. */
  lemma InsertToMap(d: seq<Entry>, k: Vec, v: Vec)
    requires DistinctKeys(d)
    ensures ToMap(Insert(d, k, v)) == ToMap(d)[k := v]
  {
    var r := Insert(d, k, v);
    var i := KeyIndex(d, k);
    forall q
      ensures q in ToMap(r) <==> q in ToMap(d)[k := v]
      ensures q in ToMap(r) ==> ToMap(r)[q] == ToMap(d)[k := v][q]
    {
      ToMapKeys(r, q);
      ToMapKeys(d, q);
      if q != k && KeyIndex(d, q) >= 0 {
        var j := KeyIndex(d, q);
        ToMapAt(d, j);
        ToMapAt(r, j);
        assert r[j] == d[j] by {
          if i >= 0 {
            assert j != i;
          }
        }
      } else if q == k {
        ToMapAt(r, KeyIndex(r, k));
      }
    }
  }
}
