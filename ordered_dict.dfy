/**
 * A Python dict with string keys as the pipelines use it: keys in first-insertion order, and `d[k] = v`
 * overwriting the value of an existing key in place.
 */
module OrderedDict {
  import opened Wrappers

  type Dict<V> = seq<(string, V)>

  predicate DistinctKeys<V>(d: Dict<V>) {
    forall i, j :: 0 <= i < j < |d| ==> d[i].0 != d[j].0
  }

  predicate HasKey<V>(d: Dict<V>, k: string) {
    exists i :: 0 <= i < |d| && d[i].0 == k
  }

  /** `d.get(k)`. */
  function Get<V>(d: Dict<V>, k: string): (r: Option<V>)
    ensures r.None? <==> !HasKey(d, k)
  {
    if d == [] then None
    else if d[0].0 == k then Some(d[0].1)
    else Get(d[1..], k)
  }

  /** A value found for `k` is the value of an entry with key `k`. */
  lemma {:induction false} GetEntry<V>(d: Dict<V>, k: string)
    requires HasKey(d, k)
    ensures exists i :: 0 <= i < |d| && d[i] == (k, Get(d, k).value)
    decreases |d|
  {
    if d[0].0 != k {
      var i :| 0 <= i < |d| && d[i].0 == k;
      assert d[1..][i - 1].0 == k;
      GetEntry(d[1..], k);
      var j :| 0 <= j < |d| - 1 && d[1..][j] == (k, Get(d, k).value);
      assert d[j + 1] == d[1..][j];
    }
  }

  /** `d[k] = v`: the key now gives `v`, every other key what it gave before. */
  function Put<V>(d: Dict<V>, k: string, v: V): (r: Dict<V>)
    ensures Get(r, k) == Some(v)
    ensures forall k' :: k' != k ==> Get(r, k') == Get(d, k')
    ensures DistinctKeys(d) ==> DistinctKeys(r)
  {
    if d == [] then [(k, v)]
    else if d[0].0 == k then [(k, v)] + d[1..]
    else
      var r := [d[0]] + Put(d[1..], k, v);
      assert DistinctKeys(d) ==> DistinctKeys(r) by {
        if DistinctKeys(d) {
          var t := Put(d[1..], k, v);
          assert !HasKey(d[1..], d[0].0);
          assert Get(t, d[0].0) == Get(d[1..], d[0].0);
          assert forall j :: 0 < j < |r| ==> r[j] == t[j - 1];
        }
      }
      r
  }

  /** An existing key keeps its place, and every other entry stays where it was. */
  lemma {:induction false} PutInPlace<V>(d: Dict<V>, k: string, v: V)
    ensures |Put(d, k, v)| == |d| || |Put(d, k, v)| == |d| + 1
    ensures forall i :: 0 <= i < |d| ==> Put(d, k, v)[i].0 == d[i].0
    ensures forall i :: 0 <= i < |d| && d[i].0 != k ==> Put(d, k, v)[i] == d[i]
    decreases |d|
  {
    if d != [] && d[0].0 != k {
      PutInPlace(d[1..], k, v);
      var t := Put(d[1..], k, v);
      assert forall i :: 0 < i < |Put(d, k, v)| ==> Put(d, k, v)[i] == t[i - 1];
    }
  }

  /** A new key goes at the end. */
  lemma {:induction false} PutNewKey<V>(d: Dict<V>, k: string, v: V)
    requires !HasKey(d, k)
    ensures Put(d, k, v) == d + [(k, v)]
    decreases |d|
  {
    if d != [] {
      assert d[0].0 != k;
      assert !HasKey(d[1..], k) by {
        forall i | 0 <= i < |d| - 1 ensures d[1..][i].0 != k {
          assert d[1..][i] == d[i + 1];
        }
      }
      PutNewKey(d[1..], k, v);
      assert d == [d[0]] + d[1..];
    }
  }

  /** Assigning an existing key does not change the length. */
  lemma {:induction false} PutExistingKey<V>(d: Dict<V>, k: string, v: V)
    requires HasKey(d, k)
    ensures |Put(d, k, v)| == |d|
    decreases |d|
  {
    if d[0].0 != k {
      var i :| 0 <= i < |d| && d[i].0 == k;
      assert d[1..][i - 1].0 == k;
      PutExistingKey(d[1..], k, v);
    }
  }

  /** Every entry after `d[k] = v` was already an entry of `d`, or is the new pair. */
  lemma {:induction false} PutEntries<V>(d: Dict<V>, k: string, v: V)
    ensures forall i :: 0 <= i < |Put(d, k, v)| ==> Put(d, k, v)[i] in d || Put(d, k, v)[i] == (k, v)
    decreases |d|
  {
    if d != [] && d[0].0 != k {
      PutEntries(d[1..], k, v);
      var r := Put(d, k, v);
      forall i | 0 <= i < |r| ensures r[i] in d || r[i] == (k, v) {
        if i > 0 {
          assert r[i] == Put(d[1..], k, v)[i - 1];
        }
      }
    }
  }

  /** The dict built by assigning each pair in order. */
  function FromPairs<V>(ps: seq<(string, V)>): (d: Dict<V>)
    ensures DistinctKeys(d)
  {
    if ps == [] then [] else Put(FromPairs(ps[..|ps| - 1]), ps[|ps| - 1].0, ps[|ps| - 1].1)
  }

  /** Last write wins: the value of a key is what the latest pair with that key assigned. */
  lemma {:induction false} FromPairsLastWins<V>(ps: seq<(string, V)>, i: nat)
    requires i < |ps|
    requires forall j :: i < j < |ps| ==> ps[j].0 != ps[i].0
    ensures Get(FromPairs(ps), ps[i].0) == Some(ps[i].1)
    decreases |ps|
  {
    if i < |ps| - 1 {
      FromPairsLastWins(ps[..|ps| - 1], i);
    }
  }

  /** The keys are exactly the keys that were assigned. */
  lemma {:induction false} FromPairsKeys<V>(ps: seq<(string, V)>, k: string)
    ensures Get(FromPairs(ps), k).Some? <==> exists j :: 0 <= j < |ps| && ps[j].0 == k
    decreases |ps|
  {
    if ps != [] {
      var n := |ps| - 1;
      var init := ps[..n];
      FromPairsKeys(init, k);
      if k != ps[n].0 {
        assert Get(FromPairs(ps), k) == Get(FromPairs(init), k);
        if exists j :: 0 <= j < |ps| && ps[j].0 == k {
          var j :| 0 <= j < |ps| && ps[j].0 == k;
          assert init[j].0 == k;
        }
        if exists j :: 0 <= j < n && init[j].0 == k {
          var j :| 0 <= j < n && init[j].0 == k;
          assert ps[j].0 == k;
        }
      }
    }
  }
}
