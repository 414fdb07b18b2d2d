/**
 * A Python `dict` from strings to strings as the checker uses it: entries
 * in insertion order, one entry per key, and `d[k] = v` replaces the value
 * of an existing key in place or appends a new entry.
 */
module OrderedDict {
  import opened Wrappers

  type Dict = seq<(string, string)>

  function Keys(d: Dict): (ks: seq<string>)
    ensures |ks| == |d|
    ensures forall i :: 0 <= i < |d| ==> ks[i] == d[i].0
  {
    seq(|d|, i requires 0 <= i < |d| => d[i].0)
  }

  ghost predicate UniqueKeys(d: Dict) {
    forall i, j :: 0 <= i < j < |d| ==> d[i].0 != d[j].0
  }

  /** The position of the first entry for `k`, or `|d|` when there is none. */
  function IndexOf(d: Dict, k: string): (i: nat)
    ensures i <= |d|
    ensures i < |d| ==> d[i].0 == k
    ensures forall j :: 0 <= j < i ==> d[j].0 != k
  {
    if d == [] then 0
    else if d[0].0 == k then 0
    else 1 + IndexOf(d[1..], k)
  }

  /** `d.get(k)`. */
  function Get(d: Dict, k: string): (r: Option<string>)
    ensures r.None? <==> k !in Keys(d)
    ensures r.Some? ==> (k, r.value) in d
  {
    var i := IndexOf(d, k);
    assert i < |d| ==> Keys(d)[i] == k;
    if i < |d| then Some(d[i].1) else None
  }

  /** With one entry per key, an entry found in the dictionary is what `get` returns. */
  lemma GetEntry(d: Dict, i: nat)
    requires UniqueKeys(d) && i < |d|
    ensures Get(d, d[i].0) == Some(d[i].1)
  {
  }

  /** `d[k] = v`: a known key keeps its position, a new key is appended. */
  function Insert(d: Dict, k: string, v: string): (r: Dict)
    ensures Keys(r) == if k in Keys(d) then Keys(d) else Keys(d) + [k]
  {
    var i := IndexOf(d, k);
    assert k in Keys(d) <==> i < |d| by {
      if i < |d| { assert Keys(d)[i] == k; }
    }
    if i < |d| then d[i := (k, v)] else d + [(k, v)]
  }

  /** After `d[k] = v`, `k` maps to `v` and every other key to what it
      mapped to before. */
  lemma InsertGet(d: Dict, k: string, v: string, k': string)
    ensures Get(Insert(d, k, v), k') == if k' == k then Some(v) else Get(d, k')
  {
    var r := Insert(d, k, v);
    if k' == k {
      IndexOfAt(r, k, IndexOf(d, k));
    } else {
      InsertOther(d, k, v, r, k');
    }
  }

  /** Inserting keeps one entry per key and brings in no entry but `(k, v)`. */
  lemma InsertEntries(d: Dict, k: string, v: string)
    ensures UniqueKeys(d) ==> UniqueKeys(Insert(d, k, v))
    ensures forall e :: e in Insert(d, k, v) ==> e in d || e == (k, v)
  {
    var i := IndexOf(d, k);
    if i < |d| {
      assert Insert(d, k, v) == d[i := (k, v)];
    } else {
      assert Insert(d, k, v) == d + [(k, v)];
    }
  }

  /** `d[k] = v` leaves the lookup of every other key as it was. */
  lemma InsertOther(d: Dict, k: string, v: string, r: Dict, k': string)
    requires r == if IndexOf(d, k) < |d| then d[IndexOf(d, k) := (k, v)] else d + [(k, v)]
    requires k' != k
    ensures Get(r, k') == Get(d, k')
  {
    var j := IndexOf(d, k');
    if j < |d| {
      assert r[j] == d[j];
      assert forall p :: 0 <= p < j ==> r[p].0 != k';
      IndexOfAt(r, k', j);
    } else if IndexOf(d, k) < |d| {
      assert forall p :: 0 <= p < |r| ==> r[p].0 != k';
      IndexOfAt(r, k', |r|);
    } else {
      assert forall p :: 0 <= p < |r| ==> r[p].0 != k';
      IndexOfAt(r, k', |r|);
    }
  }

  /** A key no entry holds is not among the keys. */
  lemma NotInKeys(d: Dict, k: string)
    requires forall j :: 0 <= j < |d| ==> d[j].0 != k
    ensures k !in Keys(d)
  {
  }

  /** Appending an entry for a new key sets that key and no other. */
  lemma GetAppended(d: Dict, key: string, value: string, k: string)
    requires key !in Keys(d)
    ensures Get(d + [(key, value)], k) == if k == key then Some(value) else Get(d, k)
  {
    InsertNew(d, key, value);
    InsertGet(d, key, value, k);
  }

  /** `d[k] = v` for a new key appends the entry. */
  lemma InsertNew(d: Dict, key: string, value: string)
    requires key !in Keys(d)
    ensures Insert(d, key, value) == d + [(key, value)]
  {
    assert IndexOf(d, key) == |d|;
  }

  /** `IndexOf` is the first position holding the key. */
  lemma IndexOfAt(d: Dict, k: string, i: nat)
    requires i <= |d|
    requires i < |d| ==> d[i].0 == k
    requires forall j :: 0 <= j < i ==> d[j].0 != k
    ensures IndexOf(d, k) == i
  {
  }

  /** With one entry per key, the last key is new to the entries before it. */
  lemma FreshLastKey(d: Dict)
    requires UniqueKeys(d) && d != []
    ensures UniqueKeys(d[..|d| - 1])
    ensures d[|d| - 1].0 !in Keys(d[..|d| - 1])
  {
    var n := |d| - 1;
    var prefix := d[..n];
    assert forall j :: 0 <= j < n ==> prefix[j].0 != d[n].0;
    NotInKeys(prefix, d[n].0);
  }

  /** A dictionary is its entries before the last, followed by the last. */
  lemma SplitLast(d: Dict)
    requires d != []
    ensures d == d[..|d| - 1] + [(d[|d| - 1].0, d[|d| - 1].1)]
  {
    var n := |d| - 1;
    assert d[n] == (d[n].0, d[n].1);
    assert d == d[..n] + [d[n]];
  }
}
