/** A JSON object with string values, as a Python `dict` keeps it: keys in insertion order. */
module Json {
  import opened Common

  datatype Field = Field(key: string, value: string)

  /** The fields of a dict, in insertion order. */
  type Object = seq<Field>

  function Keys(o: Object): (ks: seq<string>)
    ensures |ks| == |o|
    ensures forall i :: 0 <= i < |o| ==> ks[i] == o[i].key
  {
    seq(|o|, i requires 0 <= i < |o| => o[i].key)
  }

  /** Index of key `k` in `o`, if present (first occurrence). */
  function IndexOf(o: Object, k: string): (r: Option<nat>)
    ensures r.Some? ==> r.value < |o| && o[r.value].key == k
    ensures r.Some? ==> forall j :: 0 <= j < r.value ==> o[j].key != k
    ensures r.None? ==> forall j :: 0 <= j < |o| ==> o[j].key != k
  {
    if o == [] then None
    else if o[0].key == k then Some(0)
    else match IndexOf(o[1..], k)
      case None => None
      case Some(i) => Some(i + 1)
  }

  /** `d.get(k)`: the value stored under `k`, or `None`. */
  function Get(o: Object, k: string): (r: Option<string>)
    ensures r.None? <==> forall j :: 0 <= j < |o| ==> o[j].key != k
    ensures r.Some? ==> exists j :: 0 <= j < |o| && o[j] == Field(k, r.value)
  {
    match IndexOf(o, k)
    case None => None
    case Some(i) => Some(o[i].value)
  }

  /** The value under the first occurrence of a key is the one `get` returns. */
  lemma GetFirst(o: Object, j: nat)
    requires j < |o| && forall i :: 0 <= i < j ==> o[i].key != o[j].key
    ensures Get(o, o[j].key) == Some(o[j].value)
  {
  }

  /** `d.get(k, default)`. */
  function GetOr(o: Object, k: string, default: string): string
  {
    match Get(o, k)
    case None => default
    case Some(v) => v
  }

  /** `get` with a default gives the default exactly for a missing key, otherwise the value of a field with that key. */
  lemma GetOrDefault(o: Object, k: string, default: string)
    ensures (forall j :: 0 <= j < |o| ==> o[j].key != k) ==> GetOr(o, k, default) == default
    ensures (exists j :: 0 <= j < |o| && o[j].key == k) ==> exists j :: 0 <= j < |o| && o[j] == Field(k, GetOr(o, k, default))
  {
  }

  /** `d[k] = v`: a new key goes at the end, an existing key keeps its place and takes the new value. */
  function Put(o: Object, k: string, v: string): (r: Object)
    ensures Get(r, k) == Some(v)
    ensures Get(o, k).None? ==> r == o + [Field(k, v)]
    ensures Get(o, k).Some? ==> |r| == |o| && Keys(r) == Keys(o)
    ensures forall k' :: k' != k ==> Get(r, k') == Get(o, k')
  {
    match IndexOf(o, k)
    case None =>
      assert IndexOf(o + [Field(k, v)], k) == Some(|o|) by { IndexOfAppend(o, Field(k, v), k); }
      forall k' | k' != k ensures Get(o + [Field(k, v)], k') == Get(o, k') {
        IndexOfAppend(o, Field(k, v), k');
      }
      o + [Field(k, v)]
    case Some(i) =>
      var r := o[i := Field(k, v)];
      assert Keys(r) == Keys(o);
      IndexOfSameKeys(o, r, k);
      forall k' | k' != k ensures Get(r, k') == Get(o, k') {
        IndexOfSameKeys(o, r, k');
      }
      r
  }

  lemma IndexOfAppend(o: Object, f: Field, k: string)
    ensures IndexOf(o + [f], k) == if IndexOf(o, k).Some? then IndexOf(o, k) else if f.key == k then Some(|o|) else None
  {
    if o != [] {
      assert (o + [f])[1..] == o[1..] + [f];
      IndexOfAppend(o[1..], f, k);
    }
  }

  lemma IndexOfSameKeys(o: Object, r: Object, k: string)
    requires Keys(o) == Keys(r)
    ensures IndexOf(o, k) == IndexOf(r, k)
  {
    if o != [] {
      assert Keys(o)[0] == o[0].key && Keys(r)[0] == r[0].key;
      assert Keys(o[1..]) == Keys(o)[1..] && Keys(r[1..]) == Keys(r)[1..];
      IndexOfSameKeys(o[1..], r[1..], k);
    }
  }
}
