/**
  The Python dict the validator keys by raw identifier token, modelled as a
  sequence of entries in insertion order.  Assigning to a key that is already
  present replaces its value in place and keeps its position, as a Python dict
  does; a new key is appended at the end.
 */
module PoseMap {
  import opened Wrappers

  /** One dict item: the raw first token of a line and the line's numbers. */
  datatype Entry = Entry(key: string, fields: seq<real>)

  type PoseMap = seq<Entry>

  /** A dict never holds the same key twice. */
  ghost predicate UniqueKeys(m: PoseMap)
  {
    forall i, j :: 0 <= i < j < |m| ==> m[i].key != m[j].key
  }

  /** Position of `k` in the dict, if it is there (its first occurrence). */
  function Find(m: PoseMap, k: string): (r: Option<nat>)
    ensures r.Some? ==> r.value < |m| && m[r.value].key == k
    ensures r.Some? ==> forall j :: 0 <= j < r.value ==> m[j].key != k
    ensures r.None? <==> forall j :: 0 <= j < |m| ==> m[j].key != k
  {
    if |m| == 0 then None
    else if m[0].key == k then Some(0)
    else
      match Find(m[1..], k)
      case Some(i) => Some(i + 1)
      case None => None
  }

  /** `k in d` */
  predicate HasKey(m: PoseMap, k: string)
  {
    Find(m, k).Some?
  }

  /** `d.get(k)` */
  function Get(m: PoseMap, k: string): Option<seq<real>>
  {
    match Find(m, k)
    case Some(i) => Some(m[i].fields)
    case None => None
  }

  /** In a dict, the entry at position `i` is the one `Find` returns for its key. */
  lemma FindUnique(m: PoseMap, i: nat)
    requires UniqueKeys(m)
    requires i < |m|
    ensures Find(m, m[i].key) == Some(i)
    ensures Get(m, m[i].key) == Some(m[i].fields)
  {
  }

  /** Two dicts with the same keys at the same positions locate every key alike. */
  lemma FindSameKeys(a: PoseMap, b: PoseMap, k: string)
    requires |a| == |b|
    requires forall j :: 0 <= j < |a| ==> a[j].key == b[j].key
    ensures Find(a, k) == Find(b, k)
  {
    if Find(a, k).Some? {
      assert b[Find(a, k).value].key == k;
    }
  }

  /** Overwriting the value at a key's position moves no key. */
  lemma FindAfterOverwrite(m: PoseMap, i: nat, e: Entry, k': string)
    requires i < |m| && e.key == m[i].key
    ensures Find(m[i := e], k') == Find(m, k')
  {
    FindSameKeys(m[i := e], m, k');
  }

  /** Appending a new key leaves every other key where it was and puts the new
      key last. */
  lemma FindAfterAppend(m: PoseMap, e: Entry, k': string)
    requires Find(m, e.key).None?
    ensures Find(m + [e], k') == if k' == e.key then Some(|m|) else Find(m, k')
  {
    var r := m + [e];
    if k' == e.key {
      assert r[|m|].key == k';
      assert forall j :: 0 <= j < |m| ==> r[j].key != k';
    } else if Find(m, k').Some? {
      assert r[Find(m, k').value].key == k';
    }
  }

  /** `d[k] = v`: the new value is what `k` now holds, every other key keeps
      its value, and the key order changes only by appending a new key. */
  function Insert(m: PoseMap, k: string, v: seq<real>): (r: PoseMap)
    ensures Get(r, k) == Some(v)
    ensures forall k' :: k' != k ==> Get(r, k') == Get(m, k')
    ensures forall k' :: HasKey(r, k') <==> k' == k || HasKey(m, k')
    ensures HasKey(m, k) ==> |r| == |m| && forall j :: 0 <= j < |m| ==> r[j].key == m[j].key
    ensures !HasKey(m, k) ==> r == m + [Entry(k, v)]
    ensures UniqueKeys(m) ==> UniqueKeys(r)
  {
    match Find(m, k)
    case Some(i) =>
      var r := m[i := Entry(k, v)];
      assert forall k' :: Find(r, k') == Find(m, k') by {
        forall k' ensures Find(r, k') == Find(m, k') {
          FindAfterOverwrite(m, i, Entry(k, v), k');
        }
      }
      r
    case None =>
      var r := m + [Entry(k, v)];
      assert forall k' :: Find(r, k') == if k' == k then Some(|m|) else Find(m, k') by {
        forall k' ensures Find(r, k') == if k' == k then Some(|m|) else Find(m, k') {
          FindAfterAppend(m, Entry(k, v), k');
        }
      }
      r
  }

  /** `ks` lists some of the keys of `m`, in the dict's order. */
  predicate KeysInOrder(ks: seq<string>, m: PoseMap)
    decreases |m|
  {
    if |ks| == 0 then true
    else if |m| == 0 then false
    else (ks[0] == m[0].key && KeysInOrder(ks[1..], m[1..])) || KeysInOrder(ks, m[1..])
  }
}
