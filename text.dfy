/**
 The normaliser of the word-count pipeline: removal of punctuation
 (`remove_punctuation`), splitting on runs of whitespace (`str.split()` with no
 argument) and lower-casing (`str.lower()`, ASCII letters only in this model).
 */
module Text {

  /**
   Python's `string.punctuation`: the 32 printable ASCII characters that are
   neither letters, digits nor the space, namely !"#$%&'()*+,-./ :;<=>?@ [\]^_` {|}~
   (the four ranges below): exactly the printable ASCII characters other than
   the space, the letters and the digits.
   */
  predicate IsPunctuation(c: char)
    ensures IsPunctuation(c) <==> '!' <= c <= '~' && !IsAsciiAlnum(c)
  {
    || '!' <= c <= '/'
    || ':' <= c <= '@'
    || '[' <= c <= '`'
    || '{' <= c <= '~'
  }

  predicate IsAsciiAlnum(c: char) {
    'a' <= c <= 'z' || 'A' <= c <= 'Z' || '0' <= c <= '9'
  }

  /**
   `remove_punctuation`: a translation table that maps every punctuation
   character to nothing, so each one is deleted and nothing takes its place.
   */
  function RemovePunctuation(s: string): (r: string)
    ensures |r| <= |s|
    ensures forall i :: 0 <= i < |r| ==> !IsPunctuation(r[i])
  {
    if s == [] then []
    else if IsPunctuation(s[0]) then RemovePunctuation(s[1..])
    else [s[0]] + RemovePunctuation(s[1..])
  }

  /** Every character other than punctuation keeps its number of occurrences. */
  lemma {:induction false} RemovePunctuationCounts(s: string)
    ensures forall c :: !IsPunctuation(c) ==> multiset(RemovePunctuation(s))[c] == multiset(s)[c]
    ensures forall c :: IsPunctuation(c) ==> multiset(RemovePunctuation(s))[c] == 0
  {
    if s != [] {
      assert s == [s[0]] + s[1..];
      RemovePunctuationCounts(s[1..]);
    }
  }

  /**
   Deletion works character by character and keeps order: removing from a
   concatenation is the concatenation of the removals. With the one-character
   case this determines RemovePunctuation on every string.
   */
  lemma {:induction false} RemovePunctuationAppend(a: string, b: string)
    ensures RemovePunctuation(a + b) == RemovePunctuation(a) + RemovePunctuation(b)
  {
    if a != [] {
      assert (a + b)[0] == a[0] && (a + b)[1..] == a[1..] + b;
      RemovePunctuationAppend(a[1..], b);
    } else {
      assert a + b == b;
    }
  }

  lemma RemovePunctuationChar(c: char)
    ensures RemovePunctuation([c]) == if IsPunctuation(c) then [] else [c]
  {
  }

  /** A string without punctuation is left alone, so removal is idempotent. */
  lemma {:induction false} RemovePunctuationKeepsClean(s: string)
    requires forall i :: 0 <= i < |s| ==> !IsPunctuation(s[i])
    ensures RemovePunctuation(s) == s
  {
    if s != [] {
      RemovePunctuationKeepsClean(s[1..]);
    }
  }

  lemma RemovePunctuationIdempotent(s: string)
    ensures RemovePunctuation(RemovePunctuation(s)) == RemovePunctuation(s)
  {
    RemovePunctuationKeepsClean(RemovePunctuation(s));
  }

  /** Words joined by punctuation become one word: "end.Next" turns into "endNext". */
  lemma RemovePunctuationJoinsWords()
    ensures RemovePunctuation("end.Next") == "endNext"
  {
  }

  /**
   The characters Python's `str.split()` treats as whitespace: ASCII 9-13 and
   28-32, NEXT LINE, NO-BREAK SPACE, OGHAM SPACE MARK, the spaces U+2000-U+200A,
   LINE and PARAGRAPH SEPARATOR, NARROW NO-BREAK SPACE, MEDIUM MATHEMATICAL SPACE
   and IDEOGRAPHIC SPACE. None of them is punctuation, a letter or a digit, so
   removing punctuation never deletes a separator between two tokens.
   */
  predicate IsSpace(c: char)
    ensures IsSpace(c) ==> !IsPunctuation(c) && !IsAsciiAlnum(c)
  {
    || '\t' <= c <= '\r'
    || '\U{1C}' <= c <= ' '
    || c == '\U{85}' || c == '\U{A0}' || c == '\U{1680}'
    || '\U{2000}' <= c <= '\U{200A}'
    || c == '\U{2028}' || c == '\U{2029}' || c == '\U{202F}' || c == '\U{205F}'
    || c == '\U{3000}'
  }

  predicate NoSpace(s: string) {
    forall i :: 0 <= i < |s| ==> !IsSpace(s[i])
  }

  /** A token of `str.split()`: non-empty and free of whitespace. */
  predicate IsWord(w: string) {
    w != [] && NoSpace(w)
  }

  /** The non-whitespace characters of s, in order. */
  function NonSpace(s: string): (r: string)
    ensures NoSpace(r)
  {
    if s == [] then []
    else if IsSpace(s[0]) then NonSpace(s[1..])
    else [s[0]] + NonSpace(s[1..])
  }

  /** All tokens written one after the other. */
  function Concat(ts: seq<string>): string {
    if ts == [] then [] else ts[0] + Concat(ts[1..])
  }

  /**
   Splitting the rest `s` of a text when the characters `cur` of an unfinished
   token precede it.
   */
  function SplitFrom(s: string, cur: string): (ts: seq<string>)
    requires NoSpace(cur)
    ensures forall i :: 0 <= i < |ts| ==> IsWord(ts[i])
    ensures Concat(ts) == cur + NonSpace(s)
    decreases |s|
  {
    if s == [] then
      (if cur == [] then [] else [cur])
    else if IsSpace(s[0]) then
      var rest := SplitFrom(s[1..], []);
      if cur == [] then rest
      else
        assert ([cur] + rest)[1..] == rest;
        [cur] + rest
    else
      SplitFrom(s[1..], cur + [s[0]])
  }

  /**
   `str.split()` with no argument: the maximal runs of non-whitespace characters;
   leading, trailing and repeated whitespace yield no empty token. Every token is
   a word and, written one after the other, the tokens are exactly the
   non-whitespace characters of s.
   */
  function Split(s: string): (ts: seq<string>)
    ensures forall i :: 0 <= i < |ts| ==> IsWord(ts[i])
    ensures Concat(ts) == NonSpace(s)
  {
    SplitFrom(s, [])
  }

  /** The words joined with single spaces. */
  function JoinWords(ws: seq<string>): string {
    if ws == [] then []
    else if |ws| == 1 then ws[0]
    else ws[0] + " " + JoinWords(ws[1..])
  }

  /** A whitespace-free stretch only extends the token being accumulated. */
  lemma {:induction false} SplitFromWord(w: string, rest: string, cur: string)
    requires NoSpace(cur) && NoSpace(w)
    ensures SplitFrom(w + rest, cur) == SplitFrom(rest, cur + w)
    decreases |w|
  {
    if w != [] {
      assert (w + rest)[0] == w[0];
      assert (w + rest)[1..] == w[1..] + rest;
      assert cur + [w[0]] + w[1..] == cur + w;
      SplitFromWord(w[1..], rest, cur + [w[0]]);
    } else {
      assert w + rest == rest && cur + w == cur;
    }
  }

  /**
   Split recovers the words of a single-space join: token boundaries fall
   exactly at the whitespace.
   */
  lemma {:induction false} SplitJoinWords(ws: seq<string>)
    requires forall i :: 0 <= i < |ws| ==> IsWord(ws[i])
    ensures Split(JoinWords(ws)) == ws
  {
    if |ws| == 1 {
      assert ws[0] + [] == ws[0] && [] + ws[0] == ws[0];
      SplitFromWord(ws[0], [], []);
    } else if |ws| > 1 {
      var rest := " " + JoinWords(ws[1..]);
      assert JoinWords(ws) == ws[0] + rest;
      SplitFromWord(ws[0], rest, []);
      assert [] + ws[0] == ws[0];
      assert rest[1..] == JoinWords(ws[1..]);
      SplitJoinWords(ws[1..]);
      assert ws == [ws[0]] + ws[1..];
    }
  }

  /**
   A whitespace character ends the token being accumulated: splitting `a`, a
   whitespace character and `b` is splitting `a` with that prefix, then `b` afresh.
   */
  lemma {:induction false} SplitFromAtSpace(a: string, c: char, b: string, cur: string)
    requires IsSpace(c) && NoSpace(cur)
    ensures SplitFrom(a + [c] + b, cur) == SplitFrom(a, cur) + SplitFrom(b, [])
    decreases |a|
  {
    var s := a + [c] + b;
    if a == [] {
      assert s == [c] + b && s[0] == c && s[1..] == b;
    } else {
      assert s[0] == a[0] && s[1..] == a[1..] + [c] + b;
      SplitFromAtSpace(a[1..], c, b, if IsSpace(a[0]) then [] else cur + [a[0]]);
    }
  }

  /**
   Token boundaries fall exactly at whitespace: a whitespace character splits
   the text into two parts that are tokenised independently. With SplitWord,
   SplitBlank and SplitFromWord this fixes Split on every string.
   */
  lemma SplitAtSpace(a: string, c: char, b: string)
    requires IsSpace(c)
    ensures Split(a + [c] + b) == Split(a) + Split(b)
  {
    SplitFromAtSpace(a, c, b, []);
  }

  /** A word on its own is a single token. */
  lemma SplitWord(w: string)
    requires IsWord(w)
    ensures Split(w) == [w]
  {
    assert w + [] == w && [] + w == w;
    SplitFromWord(w, [], []);
  }

  /** Whitespace alone, or nothing at all, gives no token. */
  lemma {:induction false} SplitBlank(s: string)
    ensures Split(s) == [] <==> NonSpace(s) == []
  {
    if Split(s) != [] {
      assert IsWord(Split(s)[0]);
      assert Concat(Split(s)) == Split(s)[0] + Concat(Split(s)[1..]);
    }
  }

  /** The ASCII part of `str.lower()`: 'A'..'Z' become 'a'..'z', letter for letter. */
  function Lower(c: char): (d: char)
    ensures 'A' <= c <= 'Z' ==> 'a' <= d <= 'z' && d as int - 'a' as int == c as int - 'A' as int
    ensures !('A' <= d <= 'Z')
    ensures 'a' <= d <= 'z' ==> 'a' <= c <= 'z' || c as int == d as int - 32
    ensures !('A' <= c <= 'Z') ==> d == c
  {
    if 'A' <= c <= 'Z' then (c as int + 32) as char else c
  }

  predicate IsLowerWord(w: string) {
    forall i :: 0 <= i < |w| ==> !('A' <= w[i] <= 'Z')
  }

  /**
   `str.lower()` on a word: same length, each upper-case letter replaced by its
   lower-case letter, every other character kept.
   */
  function LowerWord(w: string): (r: string)
    ensures |r| == |w| && IsLowerWord(r)
    ensures forall i :: 0 <= i < |w| && 'A' <= w[i] <= 'Z' ==>
      'a' <= r[i] <= 'z' && r[i] as int - 'a' as int == w[i] as int - 'A' as int
    ensures forall i :: 0 <= i < |w| && !('A' <= w[i] <= 'Z') ==> r[i] == w[i]
  {
    seq(|w|, i requires 0 <= i < |w| => Lower(w[i]))
  }

  /** Lower-casing is idempotent and keeps a word a word. */
  lemma LowerWordIdempotent(w: string)
    ensures LowerWord(LowerWord(w)) == LowerWord(w)
    ensures IsWord(w) ==> IsWord(LowerWord(w))
  {
  }
}
