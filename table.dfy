/**
 The frequency table: a Python `dict` from words to counts. Python dictionaries
 remember insertion order, and the top-N selection breaks ties by that order, so
 the table is the key order together with the map of entries.
 */
module Table {

  type Entry = (string, int)

  datatype Dict = Dict(keys: seq<string>, entries: map<string, int>)

  predicate Distinct(ks: seq<string>) {
    forall i, j :: 0 <= i < j < |ks| ==> ks[i] != ks[j]
  }

  /** Each key is listed once, in insertion order, and the list is exactly the map's keys. */
  ghost predicate Valid(d: Dict) {
    Distinct(d.keys) && forall k :: k in d.entries <==> k in d.keys
  }

  const Empty: Dict := Dict([], map[])

  /**
   `d[k] = v`: a new key goes to the end of the order; an existing key keeps its
   place and only its value changes.
   */
  function Put(d: Dict, k: string, v: int): (e: Dict)
    requires Valid(d)
    ensures Valid(e)
    ensures e.entries == d.entries[k := v]
    ensures e.keys == if k in d.entries then d.keys else d.keys + [k]
  {
    if k in d.entries then Dict(d.keys, d.entries[k := v])
    else Dict(d.keys + [k], d.entries[k := v])
  }

  /** The keys of a sequence of pairs, in order. */
  function KeysOfPairs(ps: seq<Entry>): (ks: seq<string>)
    ensures |ks| == |ps| && forall i :: 0 <= i < |ps| ==> ks[i] == ps[i].0
  {
    seq(|ps|, i requires 0 <= i < |ps| => ps[i].0)
  }

  /**
   `dict(pairs)`: the pairs are inserted one after the other, so a key's place
   is that of its first pair and its value that of its last pair. Every key of
   the result comes from some pair and every pair's key is in the result.
   */
  function FromPairs(ps: seq<Entry>): (d: Dict)
    ensures Valid(d)
    ensures forall k :: k in d.entries <==> k in KeysOfPairs(ps)
  {
    if ps == [] then Empty
    else
      var n := |ps| - 1;
      var e := FromPairs(ps[..n]);
      assert KeysOfPairs(ps) == KeysOfPairs(ps[..n]) + [ps[n].0];
      Put(e, ps[n].0, ps[n].1)
  }

  /** `d.items()`: the entries in insertion order. */
  function Items(d: Dict): (items: seq<Entry>)
    requires Valid(d)
    ensures |items| == |d.keys|
    ensures forall i :: 0 <= i < |items| ==> items[i].0 == d.keys[i] && items[i].1 == d.entries[d.keys[i]]
  {
    seq(|d.keys|, i requires 0 <= i < |d.keys| => (d.keys[i], d.entries[d.keys[i]]))
  }

  /**
   When no key repeats, `dict(pairs)` keeps the pairs' order and values, so
   reading its items back gives the pairs again.
   */
  lemma {:induction false} FromDistinctPairs(ps: seq<Entry>)
    requires Distinct(KeysOfPairs(ps))
    ensures FromPairs(ps).keys == KeysOfPairs(ps)
    ensures forall i :: 0 <= i < |ps| ==> FromPairs(ps).entries[ps[i].0] == ps[i].1
    ensures Items(FromPairs(ps)) == ps
  {
    FromDistinctKeys(ps);
    FromDistinctValues(ps);
    var d := FromPairs(ps);
    forall i | 0 <= i < |ps| ensures Items(d)[i] == ps[i] {
      assert d.keys[i] == ps[i].0;
    }
  }

  /** With distinct keys, `dict(pairs)` lists the keys in the pairs' order. */
  lemma {:induction false} FromDistinctKeys(ps: seq<Entry>)
    requires Distinct(KeysOfPairs(ps))
    ensures FromPairs(ps).keys == KeysOfPairs(ps)
  {
    if ps != [] {
      var n := |ps| - 1;
      var k := ps[n].0;
      var e := FromPairs(ps[..n]);
      assert e.keys == KeysOfPairs(ps[..n]) && k !in e.entries by {
        LastKeyIsNew(ps);
        FromDistinctKeys(ps[..n]);
      }
      assert FromPairs(ps).keys == e.keys + [k];
      assert KeysOfPairs(ps) == KeysOfPairs(ps[..n]) + [k];
    }
  }

  /** With distinct keys, `dict(pairs)` maps each pair's key to that pair's value. */
  lemma {:induction false} FromDistinctValues(ps: seq<Entry>)
    requires Distinct(KeysOfPairs(ps))
    ensures forall i :: 0 <= i < |ps| ==> FromPairs(ps).entries[ps[i].0] == ps[i].1
  {
    if ps != [] {
      var n := |ps| - 1;
      var k := ps[n].0;
      var e := FromPairs(ps[..n]);
      var d := FromPairs(ps);
      assert d.entries == e.entries[k := ps[n].1];
      forall i | 0 <= i < |ps| ensures d.entries[ps[i].0] == ps[i].1 {
        if i < n {
          assert ps[i].0 != k && e.entries[ps[i].0] == ps[i].1 by {
            LastKeyIsNew(ps);
            FromDistinctValues(ps[..n]);
            assert ps[..n][i] == ps[i];
          }
        }
      }
    }
  }

  /** With distinct keys, the last pair's key is new to the pairs before it, which again have distinct keys. */
  lemma LastKeyIsNew(ps: seq<Entry>)
    requires ps != [] && Distinct(KeysOfPairs(ps))
    ensures Distinct(KeysOfPairs(ps[..|ps| - 1]))
    ensures forall i :: 0 <= i < |ps| - 1 ==> ps[i].0 != ps[|ps| - 1].0
    ensures ps[|ps| - 1].0 !in KeysOfPairs(ps[..|ps| - 1])
  {
    var n := |ps| - 1;
    assert KeysOfPairs(ps[..n]) == KeysOfPairs(ps)[..n];
    forall i | 0 <= i < n ensures ps[i].0 != ps[n].0 {
      assert KeysOfPairs(ps)[i] == ps[i].0 && KeysOfPairs(ps)[n] == ps[n].0;
    }
  }

  /** Reading a table's items and building a dict from them gives the table back. */
  lemma FromPairsItems(d: Dict)
    requires Valid(d)
    ensures FromPairs(Items(d)) == d
  {
    var items := Items(d);
    assert KeysOfPairs(items) == d.keys;
    FromDistinctPairs(items);
    var e := FromPairs(items);
    assert e.keys == d.keys;
    assert forall k :: k in e.entries ==> e.entries[k] == d.entries[k] by {
      forall k | k in e.entries ensures e.entries[k] == d.entries[k] {
        var i :| 0 <= i < |d.keys| && d.keys[i] == k;
        assert items[i].0 == k;
      }
    }
  }

  /** The sum of the counts of a sequence of entries. */
  function SumCounts(items: seq<Entry>): int {
    if items == [] then 0 else SumCounts(items[..|items| - 1]) + items[|items| - 1].1
  }
}
