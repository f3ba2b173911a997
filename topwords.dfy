/**
 Top-N selection: the table's items sorted by count in reverse order, then the
 first n of them. Python's sort is stable, also with `reverse=True`, so entries of equal count keep
 the table's insertion order; the slice then keeps the first n entries.
 */
module TopWords {
  import opened Table

  /** Counts never increase from left to right. */
  predicate SortedDesc(s: seq<Entry>) {
    forall i, j :: 0 <= i < j < |s| ==> s[i].1 >= s[j].1
  }

  /** The entries of s whose count is c, in their order in s. */
  function WithCount(s: seq<Entry>, c: int): (r: seq<Entry>)
    ensures forall i :: 0 <= i < |r| ==> r[i] in s && r[i].1 == c
  {
    if s == [] then []
    else (if s[0].1 == c then [s[0]] else []) + WithCount(s[1..], c)
  }

  /** The first entry of a non-empty sequence is selected by its own count. */
  lemma WithCountFirst(s: seq<Entry>)
    ensures s != [] ==> WithCount(s, s[0].1) == [s[0]] + WithCount(s[1..], s[0].1)
  {
  }

  lemma {:induction false} WithCountAppend(a: seq<Entry>, b: seq<Entry>, c: int)
    ensures WithCount(a + b, c) == WithCount(a, c) + WithCount(b, c)
  {
    if a == [] {
      assert a + b == b;
    } else {
      assert (a + b)[0] == a[0] && (a + b)[1..] == a[1..] + b;
      WithCountAppend(a[1..], b, c);
    }
  }

  /** A count larger than every count in s selects nothing. */
  lemma {:induction false} WithCountAbove(s: seq<Entry>, c: int)
    requires forall i :: 0 <= i < |s| ==> s[i].1 < c
    ensures WithCount(s, c) == []
  {
    if s != [] {
      WithCountAbove(s[1..], c);
    }
  }

  /**
   One step of a stable sort: x goes after every entry of the sorted s whose
   count is at least its own, so among equal counts the earlier entry stays first.
   */
  function Insert(x: Entry, s: seq<Entry>): (r: seq<Entry>)
    requires SortedDesc(s)
    ensures SortedDesc(r)
    ensures |r| == |s| + 1
    ensures r[0] == x || (s != [] && r[0] == s[0])
    ensures forall y :: y in r <==> y in s || y == x
  {
    if s == [] then [x]
    else if s[0].1 >= x.1 then
      var rest := Insert(x, s[1..]);
      assert forall y :: y in s[1..] ==> y in s;
      assert rest[0] == x || rest[0] == s[1..][0];
      [s[0]] + rest
    else
      [x] + s
  }

  /** Insertion adds x and loses nothing. */
  lemma {:induction false} InsertPermutes(x: Entry, s: seq<Entry>)
    requires SortedDesc(s)
    ensures multiset(Insert(x, s)) == multiset(s) + multiset{x}
  {
    if s != [] && s[0].1 >= x.1 {
      InsertPermutes(x, s[1..]);
      assert s == [s[0]] + s[1..];
    }
  }

  /** Inserting x adds it at the end of the entries that share its count. */
  lemma {:induction false} InsertWithCount(x: Entry, s: seq<Entry>, c: int)
    requires SortedDesc(s)
    ensures WithCount(Insert(x, s), c) == WithCount(s, c) + (if x.1 == c then [x] else [])
  {
    if s == [] {
    } else if s[0].1 >= x.1 {
      var rest := Insert(x, s[1..]);
      assert Insert(x, s) == [s[0]] + rest;
      assert ([s[0]] + rest)[1..] == rest;
      var head := if s[0].1 == c then [s[0]] else [];
      assert WithCount([s[0]] + rest, c) == head + WithCount(rest, c);
      assert WithCount(s, c) == head + WithCount(s[1..], c);
      InsertWithCount(x, s[1..], c);
    } else {
      assert Insert(x, s) == [x] + s;
      assert ([x] + s)[1..] == s;
      if x.1 == c {
        WithCountAbove(s, c);
      }
    }
  }

  /** The stable sort by count, largest first: insertion of each entry in turn. */
  function SortByCount(s: seq<Entry>): (r: seq<Entry>)
    ensures SortedDesc(r)
    ensures |r| == |s|
    ensures forall y :: y in r <==> y in s
  {
    if s == [] then []
    else
      var n := |s| - 1;
      assert s == s[..n] + [s[n]];
      Insert(s[n], SortByCount(s[..n]))
  }

  /** The sort is a permutation of its input. */
  lemma {:induction false} SortByCountPermutes(s: seq<Entry>)
    ensures multiset(SortByCount(s)) == multiset(s)
  {
    if s != [] {
      var n := |s| - 1;
      SortByCountPermutes(s[..n]);
      InsertPermutes(s[n], SortByCount(s[..n]));
      assert s == s[..n] + [s[n]];
    }
  }

  /**
   The sort is stable: for every count, the entries with that count appear in
   the same order before and after sorting.
   */
  lemma {:induction false} SortByCountStable(s: seq<Entry>, c: int)
    ensures WithCount(SortByCount(s), c) == WithCount(s, c)
  {
    if s != [] {
      var n := |s| - 1;
      SortByCountStable(s[..n], c);
      InsertWithCount(s[n], SortByCount(s[..n]), c);
      assert s == s[..n] + [s[n]];
      WithCountAppend(s[..n], [s[n]], c);
    }
  }

  /**
   Two sorted sequences with the same entries per count start with the same
   entry, and what follows it again has the same entries per count.
   */
  lemma SameHead(a: seq<Entry>, b: seq<Entry>)
    requires a != [] && b != [] && SortedDesc(a) && SortedDesc(b)
    requires forall c :: WithCount(a, c) == WithCount(b, c)
    ensures a[0] == b[0]
    ensures forall c :: WithCount(a[1..], c) == WithCount(b[1..], c)
  {
    WithCountFirst(a);
    WithCountFirst(b);
    var c := a[0].1;
    assert WithCount(b, c)[0] in b;
    assert b[0].1 >= c;
    assert WithCount(a, b[0].1)[0] in a;
    assert c >= b[0].1;
    forall c' ensures WithCount(a[1..], c') == WithCount(b[1..], c') {
      if c' == c {
        assert WithCount(a, c)[1..] == WithCount(a[1..], c);
        assert WithCount(b, c)[1..] == WithCount(b[1..], c);
      } else {
        assert WithCount(a, c') == WithCount(a[1..], c');
        assert WithCount(b, c') == WithCount(b[1..], c');
      }
    }
  }

  /**
   Sortedness and stability determine the result: any stable sort by count,
   largest first, such as Python's own, yields SortByCount's sequence.
   */
  lemma {:induction false} StableSortUnique(a: seq<Entry>, b: seq<Entry>)
    requires SortedDesc(a) && SortedDesc(b)
    requires forall c :: WithCount(a, c) == WithCount(b, c)
    ensures a == b
    decreases |a|
  {
    WithCountFirst(a);
    WithCountFirst(b);
    if a == [] && b == [] {
    } else if a == [] || b == [] {
      assert false;
    } else {
      SameHead(a, b);
      StableSortUnique(a[1..], b[1..]);
      assert a == [a[0]] + a[1..] && b == [b[0]] + b[1..];
    }
  }

  /**
   Python's slice `s[:n]`: a negative n counts from the end, and a bound past
   either end is clamped. The result is a prefix of s; for n >= 0 it has
   min(n, |s|) entries.
   */
  function Head(s: seq<Entry>, n: int): (r: seq<Entry>)
    ensures |r| <= |s| && r == s[..|r|]
    ensures n >= 0 ==> |r| == if n < |s| then n else |s|
    ensures n < 0 ==> |r| == if |s| + n > 0 then |s| + n else 0
  {
    var stop := if n < 0 then |s| + n else n;
    if stop <= 0 then [] else if stop >= |s| then s else s[..stop]
  }

  /**
   The n entries with the highest counts, as the source computes them at lines
   57 and 77: a prefix of the table's items sorted by count, largest first.
   */
  function TopN(d: Dict, n: int): (r: seq<Entry>)
    requires Valid(d)
    ensures |r| <= |d.keys| && r == SortByCount(Items(d))[..|r|]
    ensures SortedDesc(r)
  {
    Head(SortByCount(Items(d)), n)
  }

  /** Sorting keeps the keys of the entries distinct. */
  lemma {:induction false} InsertDistinct(x: Entry, s: seq<Entry>)
    requires SortedDesc(s) && Distinct(KeysOfPairs(s)) && x.0 !in KeysOfPairs(s)
    ensures Distinct(KeysOfPairs(Insert(x, s)))
  {
    if s != [] && s[0].1 >= x.1 {
      assert KeysOfPairs(s[1..]) == KeysOfPairs(s)[1..];
      InsertDistinct(x, s[1..]);
      var rest := Insert(x, s[1..]);
      forall i | 0 <= i < |rest| ensures rest[i].0 != s[0].0 {
        assert rest[i] in rest;
      }
    } else if s != [] {
      forall i | 0 <= i < |s| ensures s[i].0 != x.0 {
        assert KeysOfPairs(s)[i] == s[i].0;
      }
    }
  }

  lemma {:induction false} SortDistinct(s: seq<Entry>)
    requires Distinct(KeysOfPairs(s))
    ensures Distinct(KeysOfPairs(SortByCount(s)))
  {
    if s != [] {
      var n := |s| - 1;
      assert KeysOfPairs(s[..n]) == KeysOfPairs(s)[..n];
      SortDistinct(s[..n]);
      forall y | y in SortByCount(s[..n]) ensures y.0 != s[n].0 {
        var j :| 0 <= j < n && s[..n][j] == y;
        assert KeysOfPairs(s)[j] == y.0;
      }
      InsertDistinct(s[n], SortByCount(s[..n]));
    }
  }

  /**
   The top-N selection returns min(n, number of keys) entries for n >= 0, sorted
   by count, largest first; each is an entry of the table, no key is returned
   twice, and no entry left out has a count above a returned one.
   */
  lemma TopNSpec(d: Dict, n: int)
    requires Valid(d)
    ensures n >= 0 ==> |TopN(d, n)| == if n < |d.keys| then n else |d.keys|
    ensures SortedDesc(TopN(d, n))
    ensures forall i :: 0 <= i < |TopN(d, n)| ==>
      TopN(d, n)[i].0 in d.entries && d.entries[TopN(d, n)[i].0] == TopN(d, n)[i].1
    ensures Distinct(KeysOfPairs(TopN(d, n)))
    ensures forall k :: k in d.entries && k !in KeysOfPairs(TopN(d, n)) ==>
      forall i :: 0 <= i < |TopN(d, n)| ==> d.entries[k] <= TopN(d, n)[i].1
  {
    var items := Items(d);
    var sorted := SortByCount(items);
    var r := TopN(d, n);
    assert r == sorted[..|r|];
    assert KeysOfPairs(items) == d.keys;
    SortDistinct(items);
    assert KeysOfPairs(r) == KeysOfPairs(sorted)[..|r|];
    forall i | 0 <= i < |r| ensures r[i].0 in d.entries && d.entries[r[i].0] == r[i].1 {
      assert r[i] in sorted;
    }
    forall k | k in d.entries && k !in KeysOfPairs(r)
      ensures forall i :: 0 <= i < |r| ==> d.entries[k] <= r[i].1
    {
      var p :| 0 <= p < |d.keys| && d.keys[p] == k;
      assert items[p] in sorted;
      var j :| 0 <= j < |sorted| && sorted[j] == items[p];
    }
  }
}
