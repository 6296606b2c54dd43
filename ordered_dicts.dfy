/** Python's insertion-ordered `dict` with string keys, as a list of (key, value)
    entries. Lookup finds the first entry with the key; assignment replaces that
    entry where it stands or appends a new one at the end. */
module OrderedDicts {
  import opened Wrappers

  type Dict<V> = seq<(string, V)>

  function Keys<V>(d: Dict<V>): (ks: seq<string>)
  {
    seq(|d|, i requires 0 <= i < |d| => d[i].0)
  }

  /** Every key occurs once: what a Python dict always satisfies. */
  predicate Unique<V>(d: Dict<V>) {
    forall i, j :: 0 <= i < j < |d| ==> d[i].0 != d[j].0
  }

  /** Position of the first entry with key `k`, or `|d|` when there is none. */
  function Position<V>(d: Dict<V>, k: string): (i: nat)
    ensures i <= |d|
    ensures i < |d| ==> d[i].0 == k
    ensures forall j :: 0 <= j < i ==> d[j].0 != k
  {
    if |d| == 0 then 0
    else if d[0].0 == k then 0
    else 1 + Position(d[1..], k)
  }

  /** `k in d`. */
  predicate HasKey<V>(d: Dict<V>, k: string) {
    Position(d, k) < |d|
  }

  /** `d.get(k)`. */
  function Find<V>(d: Dict<V>, k: string): (r: Option<V>)
    ensures r.Some? <==> HasKey(d, k)
  {
    if HasKey(d, k) then Some(d[Position(d, k)].1) else None
  }

  /** `d[k] = v`. */
  function Put<V>(d: Dict<V>, k: string, v: V): (r: Dict<V>)
  {
    if HasKey(d, k) then d[Position(d, k) := (k, v)] else d + [(k, v)]
  }

  /** `if k not in d: d[k] = v`. */
  function PutIfAbsent<V>(d: Dict<V>, k: string, v: V): Dict<V>
  {
    if HasKey(d, k) then d else Put(d, k, v)
  }

  /** `d.update(e)`: every entry of `e`, in order, assigned into `d`. */
  function Update<V>(d: Dict<V>, e: Dict<V>): Dict<V>
    decreases |e|
  {
    if |e| == 0 then d
    else Put(Update(d, e[..|e| - 1]), e[|e| - 1].0, e[|e| - 1].1)
  }

  /** `for k, v in e.items(): if k not in d: d[k] = v`. */
  function FillMissing<V>(d: Dict<V>, e: Dict<V>): Dict<V>
    decreases |e|
  {
    if |e| == 0 then d
    else PutIfAbsent(FillMissing(d, e[..|e| - 1]), e[|e| - 1].0, e[|e| - 1].1)
  }

  /** The first entry carrying a key is the one found. */
  lemma PositionIs<V>(d: Dict<V>, k: string, i: nat)
    requires i <= |d| && (i < |d| ==> d[i].0 == k)
    requires forall j :: 0 <= j < i ==> d[j].0 != k
    ensures Position(d, k) == i
  {
  }

  lemma FindAt<V>(d: Dict<V>, i: nat)
    requires i < |d| && forall j :: 0 <= j < i ==> d[j].0 != d[i].0
    ensures Find(d, d[i].0) == Some(d[i].1)
  {
    PositionIs(d, d[i].0, i);
  }

  lemma FindUnique<V>(d: Dict<V>, i: nat)
    requires Unique(d) && i < |d|
    ensures Find(d, d[i].0) == Some(d[i].1)
  {
    FindAt(d, i);
  }

  /** Two dictionaries with the same key sequence find each key at the same place. */
  lemma PositionSameKeys<V>(d: Dict<V>, r: Dict<V>, k: string)
    requires |d| <= |r| && forall j :: 0 <= j < |d| ==> r[j].0 == d[j].0
    requires HasKey(d, k) || |d| == |r|
    ensures Position(r, k) == Position(d, k)
  {
    PositionIs(r, k, Position(d, k));
  }

  /** Assigning `k` changes what `k` finds and nothing else. */
  lemma PutFind<V>(d: Dict<V>, k: string, v: V, k': string)
    ensures Find(Put(d, k, v), k') == if k' == k then Some(v) else Find(d, k')
  {
    var r := Put(d, k, v);
    if HasKey(d, k) {
      PositionSameKeys(d, r, k');
    } else if k' == k {
      PositionIs(r, k, |d|);
    } else if HasKey(d, k') {
      PositionSameKeys(d, r, k');
    } else {
      PositionIs(r, k', |r|);
    }
  }

  /** Assigning an existing key keeps the key order; a new key is appended. */
  lemma PutKeys<V>(d: Dict<V>, k: string, v: V)
    ensures Keys(Put(d, k, v)) == if HasKey(d, k) then Keys(d) else Keys(d) + [k]
    ensures Unique(d) ==> Unique(Put(d, k, v))
  {
  }

  lemma KeysPrefix<V>(d: Dict<V>, n: nat)
    requires n <= |d|
    ensures Keys(d[..n]) == Keys(d)[..n]
  {
  }

  /** A key present in a prefix is found there, with the same value. */
  lemma FindPrefix<V>(e: Dict<V>, n: nat, k: string)
    requires n <= |e| && HasKey(e[..n], k)
    ensures HasKey(e, k) && Find(e, k) == Find(e[..n], k)
  {
    PositionIs(e, k, Position(e[..n], k));
  }

  /** A key absent from `e[..n]` but carried by `e[n]` is found at `n`. */
  lemma FindAfterPrefix<V>(e: Dict<V>, n: nat, k: string)
    requires n < |e| && !HasKey(e[..n], k)
    ensures HasKey(e, k) <==> HasKey(e[n + 1..], k) || e[n].0 == k
    ensures e[n].0 == k ==> Find(e, k) == Some(e[n].1)
    ensures n == |e| - 1 && e[n].0 != k ==> !HasKey(e, k)
  {
    if e[n].0 == k {
      PositionIs(e, k, n);
    } else {
      PositionIs(e, k, n + 1 + Position(e[n + 1..], k));
    }
  }

  /** After `d.update(e)` the keys of `e` hold `e`'s values and every other key
      keeps its value. */
  lemma {:induction false} UpdateFind<V>(d: Dict<V>, e: Dict<V>, k: string)
    requires Unique(e)
    ensures Find(Update(d, e), k) == if HasKey(e, k) then Find(e, k) else Find(d, k)
    decreases |e|
  {
    if |e| > 0 {
      var n := |e| - 1;
      var init := e[..n];
      assert Unique(init);
      UpdateFind(d, init, k);
      PutFind(Update(d, init), e[n].0, e[n].1, k);
      if HasKey(init, k) {
        FindPrefix(e, n, k);
        assert k != e[n].0 by {
          var p := Position(init, k);
          assert e[p].0 == k;
        }
      } else {
        FindAfterPrefix(e, n, k);
      }
    }
  }

  /** `FillMissing(d, e)` keeps every value of `d` and takes `e`'s first value
      for each key `d` lacks. */
  lemma {:induction false} FillMissingFind<V>(d: Dict<V>, e: Dict<V>, k: string)
    ensures Find(FillMissing(d, e), k) == if HasKey(d, k) then Find(d, k) else Find(e, k)
    decreases |e|
  {
    if |e| > 0 {
      var n := |e| - 1;
      var init := e[..n];
      var prev := FillMissing(d, init);
      FillMissingFind(d, init, k);
      if HasKey(prev, e[n].0) {
      } else {
        PutFind(prev, e[n].0, e[n].1, k);
      }
      if HasKey(init, k) {
        FindPrefix(e, n, k);
      } else {
        FindAfterPrefix(e, n, k);
      }
    }
  }

  /** `d.update(e)` keeps `d`'s keys in their order, appends new ones, removes
      nothing and keeps keys distinct. */
  lemma {:induction false} UpdateKeys<V>(d: Dict<V>, e: Dict<V>)
    ensures |d| <= |Update(d, e)| && Keys(Update(d, e))[..|d|] == Keys(d)
    ensures forall k :: HasKey(d, k) ==> HasKey(Update(d, e), k)
    ensures Unique(d) ==> Unique(Update(d, e))
    decreases |e|
  {
    if |e| > 0 {
      var n := |e| - 1;
      var prev := Update(d, e[..n]);
      UpdateKeys(d, e[..n]);
      PutKeys(prev, e[n].0, e[n].1);
      assert Update(d, e) == Put(prev, e[n].0, e[n].1);
      assert (Keys(prev) + [e[n].0])[..|d|] == Keys(prev)[..|d|];
      forall k | HasKey(d, k) ensures HasKey(Update(d, e), k) {
        PutFind(prev, e[n].0, e[n].1, k);
      }
    }
  }

  lemma {:induction false} FillMissingKeys<V>(d: Dict<V>, e: Dict<V>)
    ensures |d| <= |FillMissing(d, e)| && Keys(FillMissing(d, e))[..|d|] == Keys(d)
    ensures forall k :: HasKey(d, k) ==> HasKey(FillMissing(d, e), k)
    ensures Unique(d) ==> Unique(FillMissing(d, e))
    decreases |e|
  {
    if |e| > 0 {
      var n := |e| - 1;
      var prev := FillMissing(d, e[..n]);
      FillMissingKeys(d, e[..n]);
      if !HasKey(prev, e[n].0) {
        var post := Put(prev, e[n].0, e[n].1);
        assert FillMissing(d, e) == post;
        PutKeys(prev, e[n].0, e[n].1);
        assert (Keys(prev) + [e[n].0])[..|d|] == Keys(prev)[..|d|];
        forall k | HasKey(d, k) ensures HasKey(post, k) {
          PutFind(prev, e[n].0, e[n].1, k);
        }
      }
    }
  }

  /** Writing back the value a key already has changes nothing. */
  lemma PutFound<V>(d: Dict<V>, k: string)
    requires HasKey(d, k)
    ensures Put(d, k, Find(d, k).value) == d
  {
  }

  /** Appending a placeholder for a new key and then assigning it is assigning it. */
  lemma PutAfterAppend<V>(d: Dict<V>, k: string, u: V, v: V)
    requires !HasKey(d, k)
    ensures HasKey(d + [(k, u)], k)
    ensures Put(d + [(k, u)], k, v) == Put(d, k, v)
  {
    PositionIs(d + [(k, u)], k, |d|);
  }
}
