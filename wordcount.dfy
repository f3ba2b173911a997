/**
 The frequency aggregator: `map_function`, `shuffle_function`, `reduce_function`
 and their assembly in `map_reduce`. Each thread pool's `executor.map` returns its
 results in input order, so both are modelled as sequential maps over a sequence.
 */
module WordCount {
  import opened Text
  import opened Table

  /** A key with the list of values grouped under it. */
  type Group = (string, seq<int>)

  /** `map_function`: the word, lower-cased, paired with the unit count 1. */
  function MapWord(w: string): (p: Entry)
    ensures p.1 == 1
    ensures |p.0| == |w| && IsLowerWord(p.0)
    ensures LowerWord(p.0) == LowerWord(w)
  {
    (LowerWord(w), 1)
  }

  /** The map stage: `map_function` applied to every word, results in input order. */
  function MapAll(ws: seq<string>): (ps: seq<Entry>)
    ensures |ps| == |ws|
    ensures forall i :: 0 <= i < |ws| ==> ps[i] == MapWord(ws[i])
  {
    seq(|ws|, i requires 0 <= i < |ws| => MapWord(ws[i]))
  }

  lemma MapAllPrefix(ws: seq<string>, n: nat)
    requires n <= |ws|
    ensures MapAll(ws)[..n] == MapAll(ws[..n])
  {
  }

  // ---------------------------------------------------------------------------
  // Shuffle: its reference definition, the loop that implements it, and its properties
  // ---------------------------------------------------------------------------

  /**
   The distinct keys of ps in the order in which `shuffle_function`'s
   `defaultdict` creates them: a key is added when it is first met.
   */
  function KeysOf(ps: seq<Entry>): seq<string>
  {
    if ps == [] then []
    else
      var ks := KeysOf(ps[..|ps| - 1]);
      if ps[|ps| - 1].0 in ks then ks else ks + [ps[|ps| - 1].0]
  }

  /** The values that ps pairs with k, in input order. */
  function ValuesOf(ps: seq<Entry>, k: string): seq<int>
  {
    if ps == [] then []
    else ValuesOf(ps[..|ps| - 1], k) + (if ps[|ps| - 1].0 == k then [ps[|ps| - 1].1] else [])
  }

  /** Each of the keys ks with the values that ps pairs with it. */
  function GroupsFor(ks: seq<string>, ps: seq<Entry>): (gs: seq<Group>)
    ensures |gs| == |ks|
    ensures forall i :: 0 <= i < |ks| ==> gs[i] == (ks[i], ValuesOf(ps, ks[i]))
  {
    seq(|ks|, i requires 0 <= i < |ks| => (ks[i], ValuesOf(ps, ks[i])))
  }

  /** What `shuffle_function(ps)` returns: every key once, with all its values. */
  function Grouped(ps: seq<Entry>): seq<Group>
  {
    GroupsFor(KeysOf(ps), ps)
  }

  /**
   The keys of the shuffle are pairwise distinct and are exactly the keys that
   occur in the input.
   */
  lemma {:induction false} KeysOfComplete(ps: seq<Entry>)
    ensures Distinct(KeysOf(ps))
    ensures forall k :: k in KeysOf(ps) <==> k in KeysOfPairs(ps)
  {
    if ps != [] {
      var n := |ps| - 1;
      KeysOfComplete(ps[..n]);
      assert KeysOfPairs(ps) == KeysOfPairs(ps[..n]) + [ps[n].0];
    }
  }

  /** A key has values exactly when it occurs in the input. */
  lemma {:induction false} ValuesOfPresent(ps: seq<Entry>, k: string)
    ensures ValuesOf(ps, k) != [] <==> k in KeysOfPairs(ps)
  {
    if ps != [] {
      var n := |ps| - 1;
      ValuesOfPresent(ps[..n], k);
      assert KeysOfPairs(ps) == KeysOfPairs(ps[..n]) + [ps[n].0];
    }
  }

  /** Appending a pair adds its value to the end of its own key's list only. */
  lemma ValuesOfAppend(ps: seq<Entry>, p: Entry, k: string)
    ensures ValuesOf(ps + [p], k) == ValuesOf(ps, k) + (if p.0 == k then [p.1] else [])
  {
    assert (ps + [p])[..|ps|] == ps;
  }

  /** The index at which k first occurs in ps. */
  function FirstIndex(ps: seq<Entry>, k: string): (r: nat)
    requires k in KeysOfPairs(ps)
    ensures r < |ps| && ps[r].0 == k
    ensures forall q :: 0 <= q < r ==> ps[q].0 != k
  {
    var n := |ps| - 1;
    assert KeysOfPairs(ps) == KeysOfPairs(ps[..n]) + [ps[n].0];
    if k in KeysOfPairs(ps[..n]) then FirstIndex(ps[..n], k) else n
  }

  /** The shuffle lists its keys in the order of their first occurrence in the input. */
  lemma {:induction false} KeysOfFirstOccurrence(ps: seq<Entry>)
    ensures forall k :: k in KeysOf(ps) ==> k in KeysOfPairs(ps)
    ensures forall i, j :: 0 <= i < j < |KeysOf(ps)| ==>
      FirstIndex(ps, KeysOf(ps)[i]) < FirstIndex(ps, KeysOf(ps)[j])
  {
    KeysOfComplete(ps);
    if ps != [] {
      var n := |ps| - 1;
      var ks, ks' := KeysOf(ps[..n]), KeysOf(ps);
      KeysOfFirstOccurrence(ps[..n]);
      KeysOfComplete(ps[..n]);
      forall k | k in ks
        ensures k in KeysOfPairs(ps[..n]) && FirstIndex(ps, k) == FirstIndex(ps[..n], k)
      {
      }
      forall i, j | 0 <= i < j < |ks'|
        ensures FirstIndex(ps, ks'[i]) < FirstIndex(ps, ks'[j])
      {
        if j < |ks| {
          assert ks'[i] == ks[i] && ks'[j] == ks[j];
        } else {
          assert ks'[j] == ps[n].0 && ps[n].0 !in KeysOfPairs(ps[..n]);
          assert ks'[i] == ks[i];
        }
      }
    }
  }

  /**
   `shuffle_function`: a `defaultdict(list)` filled by one pass over the pairs,
   each value appended to its key's list (a new key starting from the empty
   list), then read back as `.items()` in insertion order.
   */
  method Shuffle(ps: seq<Entry>) returns (items: seq<Group>)
    ensures items == Grouped(ps)
  {
    var order: seq<string> := [];
    var groups: map<string, seq<int>> := map[];
    for i := 0 to |ps|
      invariant order == KeysOf(ps[..i])
      invariant forall k :: k in groups <==> k in order
      invariant forall k :: k in groups ==> groups[k] == ValuesOf(ps[..i], k)
    {
      var (key, value) := ps[i];
      assert ps[..i + 1] == ps[..i] + [ps[i]];
      assert ps[..i + 1][..i] == ps[..i];
      if key !in groups {
        KeysOfComplete(ps[..i]);
        ValuesOfPresent(ps[..i], key);
        groups := groups[key := []];
        order := order + [key];
      }
      groups := groups[key := groups[key] + [value]];
      forall k | k in groups
        ensures groups[k] == ValuesOf(ps[..i + 1], k)
      {
        ValuesOfAppend(ps[..i], ps[i], k);
      }
    }
    assert ps[..|ps|] == ps;
    items := seq(|order|, j requires 0 <= j < |order| => (order[j], groups[order[j]]));
  }

  /** The number of values in all groups together. */
  function TotalLength(gs: seq<Group>): nat
  {
    if gs == [] then 0 else TotalLength(gs[..|gs| - 1]) + |gs[|gs| - 1].1|
  }

  /** One more pair lengthens by one the group of its key, if that key is listed. */
  lemma {:induction false} TotalLengthAppend(ks: seq<string>, ps: seq<Entry>, p: Entry)
    requires Distinct(ks)
    ensures TotalLength(GroupsFor(ks, ps + [p])) == TotalLength(GroupsFor(ks, ps)) + (if p.0 in ks then 1 else 0)
  {
    if ks != [] {
      var m := |ks| - 1;
      assert GroupsFor(ks, ps + [p])[..m] == GroupsFor(ks[..m], ps + [p]);
      assert GroupsFor(ks, ps)[..m] == GroupsFor(ks[..m], ps);
      assert p.0 in ks <==> p.0 in ks[..m] || p.0 == ks[m];
      TotalLengthAppend(ks[..m], ps, p);
      ValuesOfAppend(ps, p, ks[m]);
    }
  }

  /** The shuffle loses and invents no value: the groups hold as many values as the input has pairs. */
  lemma {:induction false} ShuffleConserves(ps: seq<Entry>)
    ensures TotalLength(Grouped(ps)) == |ps|
  {
    if ps != [] {
      var n := |ps| - 1;
      var q, p := ps[..n], ps[n];
      assert ps == q + [p];
      ShuffleConserves(q);
      KeysOfComplete(q);
      var ks := KeysOf(q);
      TotalLengthAppend(ks, q, p);
      if p.0 !in ks {
        assert KeysOf(ps) == ks + [p.0];
        assert GroupsFor(ks + [p.0], ps)[..|ks|] == GroupsFor(ks, ps);
        ValuesOfPresent(q, p.0);
        ValuesOfAppend(q, p, p.0);
      }
    }
  }

  // ---------------------------------------------------------------------------
  // Reduce
  // ---------------------------------------------------------------------------

  /**
   Python's `sum`: the values added from left to right. A sum of non-negative
   values is non-negative, and a sum of values of at least 1 is at least the
   number of values.
   */
  function Sum(vs: seq<int>): (r: int)
    ensures (forall i :: 0 <= i < |vs| ==> vs[i] >= 0) ==> r >= 0
    ensures (forall i :: 0 <= i < |vs| ==> vs[i] >= 1) ==> r >= |vs|
  {
    if vs == [] then 0 else Sum(vs[..|vs| - 1]) + vs[|vs| - 1]
  }

  predicate AllOnes(vs: seq<int>) {
    forall i :: 0 <= i < |vs| ==> vs[i] == 1
  }

  lemma {:induction false} SumOfOnes(vs: seq<int>)
    requires AllOnes(vs)
    ensures Sum(vs) == |vs|
  {
    if vs != [] {
      SumOfOnes(vs[..|vs| - 1]);
    }
  }

  /** Summing splits over concatenation, so groups may be reduced in any grouping. */
  lemma {:induction false} SumAppend(a: seq<int>, b: seq<int>)
    ensures Sum(a + b) == Sum(a) + Sum(b)
    decreases |b|
  {
    if b == [] {
      assert a + b == a;
    } else {
      var m := |b| - 1;
      assert (a + b)[..|a + b| - 1] == a + b[..m];
      SumAppend(a, b[..m]);
    }
  }

  /**
   `reduce_function`: the key unchanged with the sum of its values; for a group
   of unit counts that is the size of the group.
   */
  function ReduceGroup(g: Group): (r: Entry)
    ensures r.0 == g.0
    ensures AllOnes(g.1) ==> r.1 == |g.1|
  {
    var total := Sum(g.1);
    assert AllOnes(g.1) ==> total == |g.1| by {
      if AllOnes(g.1) {
        SumOfOnes(g.1);
      }
    }
    (g.0, total)
  }

  /** The reduce stage: `reduce_function` applied to every group, results in group order. */
  function ReduceAll(gs: seq<Group>): (rs: seq<Entry>)
    ensures |rs| == |gs|
    ensures forall i :: 0 <= i < |gs| ==> rs[i] == ReduceGroup(gs[i])
  {
    seq(|gs|, i requires 0 <= i < |gs| => ReduceGroup(gs[i]))
  }

  /** Reducing groups of unit counts keeps the total number of values. */
  lemma {:induction false} ReduceAllTotal(gs: seq<Group>)
    requires forall i :: 0 <= i < |gs| ==> AllOnes(gs[i].1)
    ensures SumCounts(ReduceAll(gs)) == TotalLength(gs)
  {
    if gs != [] {
      var m := |gs| - 1;
      assert ReduceAll(gs)[..m] == ReduceAll(gs[..m]);
      ReduceAllTotal(gs[..m]);
    }
  }

  // ---------------------------------------------------------------------------
  // map_reduce
  // ---------------------------------------------------------------------------

  /** The words whose lower-case form is one of the search words, in order. */
  function Filter(ws: seq<string>, search: set<string>): (r: seq<string>)
    ensures forall i :: 0 <= i < |r| ==> r[i] in ws && LowerWord(r[i]) in search
  {
    if ws == [] then []
    else
      var n := |ws| - 1;
      var kept := Filter(ws[..n], search);
      assert forall w :: w in ws[..n] ==> w in ws;
      kept + (if LowerWord(ws[n]) in search then [ws[n]] else [])
  }

  /**
   Filtering works word by word and keeps order: filtering a concatenation is
   the concatenation of the filtered parts.
   */
  lemma {:induction false} FilterAppend(a: seq<string>, b: seq<string>, search: set<string>)
    ensures Filter(a + b, search) == Filter(a, search) + Filter(b, search)
    decreases |b|
  {
    if b == [] {
      assert a + b == a;
    } else {
      var m := |b| - 1;
      assert (a + b)[..|a + b| - 1] == a + b[..m];
      assert (a + b)[|a + b| - 1] == b[m];
      FilterAppend(a, b[..m], search);
    }
  }

  /** One word is kept exactly when its lower-case form is a search word. With FilterAppend this fixes Filter. */
  lemma FilterOne(w: string, search: set<string>)
    ensures Filter([w], search) == if LowerWord(w) in search then [w] else []
  {
    assert [w][..0] == [];
  }

  /**
   The words `map_reduce` counts: the text without punctuation split on
   whitespace, filtered when the search words are a non-empty collection
   (`if search_words:` is false for None and for an empty one alike, so the
   empty set stands for both here).
   */
  function Tokens(text: string, search: set<string>): (ts: seq<string>)
    ensures forall i :: 0 <= i < |ts| ==> IsWord(ts[i])
  {
    var words := Split(RemovePunctuation(text));
    if search == {} then words else Filter(words, search)
  }

  /** `map_reduce(text, search_words)`: map, shuffle, reduce, and `dict` of the results. */
  function MapReduce(text: string, search: set<string>): (d: Dict)
    ensures Valid(d)
  {
    FromPairs(ReduceAll(Grouped(MapAll(Tokens(text, search)))))
  }

  /** How many of the words ws are w once lower-cased. */
  function CountOf(ws: seq<string>, w: string): nat
  {
    if ws == [] then 0
    else CountOf(ws[..|ws| - 1], w) + (if LowerWord(ws[|ws| - 1]) == w then 1 else 0)
  }

  /** The group of w after the map stage is one unit count per occurrence of w. */
  lemma {:induction false} MappedValues(ws: seq<string>, w: string)
    ensures |ValuesOf(MapAll(ws), w)| == CountOf(ws, w)
    ensures AllOnes(ValuesOf(MapAll(ws), w))
  {
    if ws != [] {
      var n := |ws| - 1;
      MapAllPrefix(ws, n);
      MappedValues(ws[..n], w);
    }
  }

  /** The dictionary's keys are the shuffle's keys, each with its reduced count. */
  lemma TableOfGroups(ps: seq<Entry>)
    ensures Distinct(KeysOfPairs(ReduceAll(Grouped(ps))))
    ensures FromPairs(ReduceAll(Grouped(ps))).keys == KeysOf(ps)
    ensures Items(FromPairs(ReduceAll(Grouped(ps)))) == ReduceAll(Grouped(ps))
  {
    KeysOfComplete(ps);
    var rs := ReduceAll(Grouped(ps));
    assert KeysOfPairs(rs) == KeysOf(ps);
    FromDistinctPairs(rs);
  }

  /**
   Every count is the number of occurrences: a word is a key of
   `map_reduce(text)` exactly when some counted token lower-cases to it, and its
   value is the number of such tokens.
   */
  lemma MapReduceCounts(text: string, search: set<string>)
    ensures forall w :: w in MapReduce(text, search).entries <==> CountOf(Tokens(text, search), w) > 0
    ensures forall w :: w in MapReduce(text, search).entries ==>
      MapReduce(text, search).entries[w] == CountOf(Tokens(text, search), w)
  {
    TableKeys(Tokens(text, search));
    TableValues(Tokens(text, search));
  }

  /** The keys of the table built from tokens ts are the words that occur in ts. */
  lemma TableKeys(ts: seq<string>)
    ensures forall w :: w in FromPairs(ReduceAll(Grouped(MapAll(ts)))).entries <==> CountOf(ts, w) > 0
  {
    var ps := MapAll(ts);
    var d := FromPairs(ReduceAll(Grouped(ps)));
    TableOfGroups(ps);
    KeysOfComplete(ps);
    forall w ensures w in d.entries <==> CountOf(ts, w) > 0 {
      MappedValues(ts, w);
      ValuesOfPresent(ps, w);
    }
  }

  /** Each key of the table built from tokens ts counts its occurrences in ts. */
  lemma TableValues(ts: seq<string>)
    ensures forall w :: w in FromPairs(ReduceAll(Grouped(MapAll(ts)))).entries ==>
      FromPairs(ReduceAll(Grouped(MapAll(ts)))).entries[w] == CountOf(ts, w)
  {
    var ps := MapAll(ts);
    var rs := ReduceAll(Grouped(ps));
    var d := FromPairs(rs);
    var ks := KeysOf(ps);
    TableOfGroups(ps);
    KeysOfComplete(ps);
    forall w | w in d.entries ensures d.entries[w] == CountOf(ts, w) {
      var i :| 0 <= i < |ks| && ks[i] == w;
      MappedValues(ts, w);
      assert Items(d)[i] == rs[i];
    }
  }

  /** Every key is a lower-case word. */
  lemma MapReduceKeysLower(text: string, search: set<string>)
    ensures forall w :: w in MapReduce(text, search).entries ==> IsWord(w) && IsLowerWord(w)
  {
    var ts := Tokens(text, search);
    var ps := MapAll(ts);
    TableOfGroups(ps);
    KeysOfComplete(ps);
    forall w | w in MapReduce(text, search).entries ensures IsWord(w) && IsLowerWord(w) {
      var i :| 0 <= i < |ps| && ps[i].0 == w;
      LowerWordIdempotent(ts[i]);
    }
  }

  /**
   The table's insertion order is the shuffle's key order, that is, the order in
   which the lower-cased tokens first occur (KeysOfFirstOccurrence); the top-N
   selection breaks ties by it.
   */
  lemma MapReduceOrder(text: string, search: set<string>)
    ensures MapReduce(text, search).keys == KeysOf(MapAll(Tokens(text, search)))
  {
    TableOfGroups(MapAll(Tokens(text, search)));
  }

  /** The counts add up to the number of counted tokens. */
  lemma MapReduceTotal(text: string, search: set<string>)
    ensures SumCounts(Items(MapReduce(text, search))) == |Tokens(text, search)|
  {
    var ts := Tokens(text, search);
    var ps := MapAll(ts);
    var gs := Grouped(ps);
    TableOfGroups(ps);
    forall i | 0 <= i < |gs| ensures AllOnes(gs[i].1) {
      MappedValues(ts, gs[i].0);
    }
    ReduceAllTotal(gs);
    ShuffleConserves(ps);
  }

  /**
   A text with no token, whether blank after punctuation removal or filtered to
   nothing, gives the empty table, not an error.
   */
  lemma MapReduceEmpty(text: string, search: set<string>)
    requires NonSpace(RemovePunctuation(text)) == [] || Tokens(text, search) == []
    ensures MapReduce(text, search) == Empty
  {
    if NonSpace(RemovePunctuation(text)) == [] {
      SplitBlank(RemovePunctuation(text));
    }
    assert Tokens(text, search) == [];
  }

  /** Filtering keeps the tokens whose lower-case form is a search word, and only those. */
  lemma {:induction false} FilterCount(ws: seq<string>, search: set<string>, w: string)
    ensures CountOf(Filter(ws, search), w) == if w in search then CountOf(ws, w) else 0
  {
    if ws != [] {
      var n := |ws| - 1;
      FilterCount(ws[..n], search, w);
      var kept := Filter(ws[..n], search);
      var last := if LowerWord(ws[n]) in search then [ws[n]] else [];
      if last != [] {
        assert (kept + last)[..|kept|] == kept;
      } else {
        assert kept + last == kept;
      }
    }
  }

  /**
   With a non-empty set of search words every key is a search word, a search
   word is a key exactly when it occurs in the unfiltered text, and then it is
   counted as there; without search words nothing is filtered.
   */
  lemma MapReduceFilter(text: string, search: set<string>)
    ensures search != {} ==> forall w :: w in MapReduce(text, search).entries ==> w in search
    ensures forall w :: w in search && w in MapReduce(text, search).entries ==>
      MapReduce(text, search).entries[w] == CountOf(Split(RemovePunctuation(text)), w)
    ensures search != {} ==> forall w :: w in search ==>
      (w in MapReduce(text, search).entries <==> CountOf(Split(RemovePunctuation(text)), w) > 0)
    ensures search == {} ==> Tokens(text, search) == Split(RemovePunctuation(text))
  {
    MapReduceCounts(text, search);
    if search != {} {
      forall w ensures CountOf(Tokens(text, search), w) == if w in search then CountOf(Split(RemovePunctuation(text)), w) else 0 {
        FilterCount(Split(RemovePunctuation(text)), search, w);
      }
    }
  }
}
