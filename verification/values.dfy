/** Dynamic values and ordered dictionaries, the shapes the ETL script moves
    around: a raw record is an insertion-ordered dictionary from field name to
    a loosely typed value, and so are the residual attributes.
 */
module Values {

  datatype Option<+T> = None | Some(value: T)

  datatype Result<+T, +E> = Ok(value: T) | Err(error: E)

  /** A Python value as it can reach the script. `Null` is Python's `None`
      (and SQL NULL once it is a statement parameter). A float is kept as
      its textual form: float arithmetic is not modelled. `Date` and
      `DateTime` only arise from coercion, never from raw input. */
  datatype Value =
    | Null
    | Bool(b: bool)
    | Int(i: int)
    | Float(repr: string)
    | Str(s: string)
    | Date(day: int)
    | DateTime(day: int, second: int)
    | List(items: seq<Value>)
    | Object(entries: seq<(string, Value)>)

  /** An insertion-ordered dictionary with string keys, as a Python `dict`. */
  type Dict = seq<(string, Value)>

  function Keys(d: Dict): (ks: seq<string>)
    ensures |ks| == |d|
    ensures forall i :: 0 <= i < |d| ==> ks[i] == d[i].0
  {
    seq(|d|, i requires 0 <= i < |d| => d[i].0)
  }

  predicate DistinctKeys(d: Dict) {
    forall i, j :: 0 <= i < j < |d| ==> d[i].0 != d[j].0
  }

  /** The position of the first occurrence of `k` in `ks`. */
  function IndexOf(ks: seq<string>, k: string): (r: Option<nat>)
    ensures r.None? <==> k !in ks
    ensures r.Some? ==> r.value < |ks| && ks[r.value] == k
    ensures r.Some? ==> forall j :: 0 <= j < r.value ==> ks[j] != k
  {
    if ks == [] then None
    else if ks[0] == k then Some(0)
    else match IndexOf(ks[1..], k)
      case None => None
      case Some(i) => Some(i + 1)
  }

  /** `d.get(k)`: the value stored under `k`, if any. */
  function Get(d: Dict, k: string): (r: Option<Value>)
    ensures r.Some? <==> k in Keys(d)
    ensures r.Some? ==> exists i :: 0 <= i < |d| && d[i] == (k, r.value)
  {
    match IndexOf(Keys(d), k)
    case None => None
    case Some(i) => Some(d[i].1)
  }

  /** `d[k] = v`: an existing key keeps its position and takes the new
      value; a new key is appended at the end. */
  function Put(d: Dict, k: string, v: Value): (r: Dict)
    ensures Get(r, k) == Some(v)
    ensures forall k' :: k' != k ==> Get(r, k') == Get(d, k')
    ensures Keys(r) == if k in Keys(d) then Keys(d) else Keys(d) + [k]
    ensures k !in Keys(d) ==> r == d + [(k, v)]
    ensures DistinctKeys(d) ==> DistinctKeys(r)
  {
    match IndexOf(Keys(d), k)
    case None =>
      var r := d + [(k, v)];
      assert Keys(r) == Keys(d) + [k];
      assert forall k' :: k' != k ==> IndexOf(Keys(r), k') == IndexOf(Keys(d), k') by {
        forall k' | k' != k {
          IndexOfAppend(Keys(d), k, k');
        }
      }
      r
    case Some(i) =>
      var r := d[i := (k, v)];
      assert Keys(r) == Keys(d);
      r
  }

  /** On a dictionary without repeated keys, `Get` finds the entry at its
      unique position. */
  lemma GetAt(d: Dict, i: nat)
    requires DistinctKeys(d)
    requires i < |d|
    ensures Get(d, d[i].0) == Some(d[i].1)
  {
    assert Keys(d)[i] == d[i].0;
  }

  /** Appending a different key does not move the first occurrence of `k`. */
  lemma {:induction false} IndexOfAppend(ks: seq<string>, x: string, k: string)
    requires x != k
    ensures IndexOf(ks + [x], k) == IndexOf(ks, k)
  {
    if ks != [] {
      assert (ks + [x])[1..] == ks[1..] + [x];
      IndexOfAppend(ks[1..], x, k);
    }
  }
}
