/**
 The word list shown in the left pane: the store's words sorted
 case-insensitively, optionally narrowed to the words whose lower-case form
 contains the lower-case search text. Python's `sorted` is stable, but the
 store has no insertion order to be stable about, so the model only promises
 an order by `Lower` and leaves the order of words equal under `Lower` open.
 */
module WordList {
  import opened Text
  import opened Dictionary

  /** The sort key comparison: `w.lower()` against `v.lower()`. */
  predicate KeyLe(a: string, b: string) {
    LexLe(Lower(a), Lower(b))
  }

  predicate Sorted(ws: seq<string>) {
    forall i, j :: 0 <= i < j < |ws| ==> KeyLe(ws[i], ws[j])
  }

  predicate Distinct(ws: seq<string>) {
    forall i, j :: 0 <= i < j < |ws| ==> ws[i] != ws[j]
  }

  /** `ws` lists every word of `data` exactly once, in key order: one of the
      lists `sorted(data.keys(), key=str.lower)` can produce. */
  ghost predicate IsListing(data: Store, ws: seq<string>) {
    && Sorted(ws)
    && Distinct(ws)
    && |ws| == |data|
    && forall w :: w in ws <==> w in data
  }

  /** `a` is a subsequence of `b`: `b` with some elements dropped. */
  predicate Subseq(a: seq<string>, b: seq<string>) {
    a == [] || (b != [] && ((a[0] == b[0] && Subseq(a[1..], b[1..])) || Subseq(a, b[1..])))
  }

  /** The search test `filter_text.lower() in w.lower()`. */
  predicate Matches(w: string, filterText: string) {
    Contains(Lower(w), Lower(filterText))
  }

  /** A word matches exactly when the lower-cased search text occurs at some
      position of the lower-cased word. */
  lemma MatchesIff(w: string, filterText: string)
    ensures Matches(w, filterText) <==> exists i :: OccursAt(Lower(w), Lower(filterText), i)
  {
    if Matches(w, filterText) {
      ContainsHasWitness(Lower(w), Lower(filterText));
      assert exists j :: OccursAt(Lower(w), Lower(filterText), j);
    } else if i :| OccursAt(Lower(w), Lower(filterText), i) {
      ContainsFromWitness(Lower(w), Lower(filterText), i);
    }
  }

  lemma KeyLeTotal(a: string, b: string)
    ensures KeyLe(a, b) || KeyLe(b, a)
  {
    LexLeTotal(Lower(a), Lower(b));
  }

  lemma KeyLeTransitive(a: string, b: string, c: string)
    requires KeyLe(a, b) && KeyLe(b, c)
    ensures KeyLe(a, c)
  {
    LexLeTransitive(Lower(a), Lower(b), Lower(c));
  }

  /** A word that sorts no later than every word of a sorted list may be put
      in front of it. */
  lemma PrependSorted(x: string, ws: seq<string>)
    requires Sorted(ws)
    requires forall y :: y in ws ==> KeyLe(x, y)
    ensures Sorted([x] + ws)
  {
    var r := [x] + ws;
    forall i, j | 0 <= i < j < |r|
      ensures KeyLe(r[i], r[j])
    {
      if i == 0 {
        assert r[j] == ws[j - 1];
        assert r[j] in ws;
      } else {
        assert r[i] == ws[i - 1] && r[j] == ws[j - 1];
      }
    }
  }

  /** The head of a sorted list sorts no later than any of its words. */
  lemma HeadIsLeast(ws: seq<string>)
    requires Sorted(ws) && ws != []
    ensures forall y :: y in ws ==> KeyLe(ws[0], y)
  {
    forall y | y in ws
      ensures KeyLe(ws[0], y)
    {
      var j :| 0 <= j < |ws| && ws[j] == y;
      if j == 0 {
        LexLeTotal(Lower(y), Lower(y));
      }
    }
  }

  /** Keeping the head of a sorted list in front of words drawn from its
      tail keeps the result sorted. */
  lemma KeepHeadSorted(ws: seq<string>, rest: seq<string>)
    requires ws != []
    requires forall y :: y in rest ==> y in ws[1..]
    requires Sorted(ws) ==> Sorted(rest)
    ensures Sorted(ws) ==> Sorted([ws[0]] + rest)
  {
    if Sorted(ws) {
      HeadIsLeast(ws);
      PrependSorted(ws[0], rest);
    }
  }

  /** A word that is not yet in a duplicate-free list may be put in front of
      it. */
  lemma PrependDistinct(x: string, ws: seq<string>)
    ensures Distinct(ws) && x !in ws ==> Distinct([x] + ws)
  {
    if Distinct(ws) && x !in ws {
      var r := [x] + ws;
      forall i, j | 0 <= i < j < |r|
        ensures r[i] != r[j]
      {
        assert r[j] == ws[j - 1];
        if i > 0 {
          assert r[i] == ws[i - 1];
        }
      }
    }
  }

  /** One step of insertion sort: put `x` before the first word it does not
      sort after. */
  function Insert(x: string, ws: seq<string>): (r: seq<string>)
    requires Sorted(ws)
    ensures |r| == |ws| + 1
    ensures multiset(r) == multiset(ws) + multiset{x}
    ensures forall y :: y in r <==> y == x || y in ws
    ensures Sorted(r)
    ensures Distinct(ws) && x !in ws ==> Distinct(r)
  {
    if ws == [] then
      [x]
    else if KeyLe(x, ws[0]) then
      HeadIsLeast(ws);
      forall y | y in ws
        ensures KeyLe(x, y)
      {
        KeyLeTransitive(x, ws[0], y);
      }
      PrependSorted(x, ws);
      [x] + ws
    else
      var rest := Insert(x, ws[1..]);
      assert ws == [ws[0]] + ws[1..];
      KeyLeTotal(x, ws[0]);
      HeadIsLeast(ws);
      PrependSorted(ws[0], rest);
      assert Distinct(ws) ==> ws[0] !in ws[1..];
      PrependDistinct(ws[0], rest);
      [ws[0]] + rest
  }

  /** `sorted(data.keys(), key=lambda s: s.lower())`: every word of the store
      once, in case-insensitive order. */
  method SortedKeys(data: Store) returns (words: seq<string>)
    ensures Sorted(words)
    ensures Distinct(words)
    ensures |words| == |data|
    ensures forall w :: w in words <==> w in data
  {
    words := [];
    var rest := data.Keys;
    while rest != {}
      invariant rest <= data.Keys
      invariant Sorted(words) && Distinct(words)
      invariant forall w :: w in words <==> w in data && w !in rest
      invariant |words| + |rest| == |data|
      decreases |rest|
    {
      var k :| k in rest;
      words := Insert(k, words);
      rest := rest - {k};
    }
  }

  /** No two words of the store differ only by letter case. */
  ghost predicate CaseDistinct(data: Store) {
    forall v, w :: v in data && w in data && Lower(v) == Lower(w) ==> v == w
  }

  /** Dropping the first word of a listing lists the store without it. */
  lemma TailListing(data: Store, ws: seq<string>)
    requires IsListing(data, ws) && ws != []
    ensures IsListing(data - {ws[0]}, ws[1..])
  {
    var rest := data - {ws[0]};
    assert rest.Keys == data.Keys - {ws[0]};
    forall w
      ensures w in ws[1..] <==> w in rest
    {
      if w in ws[1..] {
        var j :| 1 <= j < |ws| && ws[j] == w;
        assert ws[0] != ws[j];
      }
      if w in rest {
        assert w in ws && w != ws[0];
      }
    }
  }

  lemma CaseDistinctWithout(data: Store, x: string)
    requires CaseDistinct(data)
    ensures CaseDistinct(data - {x})
  {
    assert (data - {x}).Keys <= data.Keys;
  }

  /** Two listings of a store without case-only differences start with the
      same word, and what follows lists the rest of the store. */
  lemma ListingsAgreeOnHead(data: Store, a: seq<string>, b: seq<string>)
    requires CaseDistinct(data) && IsListing(data, a) && IsListing(data, b)
    requires a != []
    ensures b != [] && a[0] == b[0]
    ensures CaseDistinct(data - {a[0]})
    ensures IsListing(data - {a[0]}, a[1..]) && IsListing(data - {a[0]}, b[1..])
  {
    HeadIsLeast(a);
    HeadIsLeast(b);
    assert b[0] in a && a[0] in b;
    LexLeAntisymmetric(Lower(a[0]), Lower(b[0]));
    TailListing(data, a);
    TailListing(data, b);
    CaseDistinctWithout(data, a[0]);
  }

  lemma SameHeadSameTail(a: seq<string>, b: seq<string>)
    requires a != [] && b != [] && a[0] == b[0] && a[1..] == b[1..]
    ensures a == b
  {
    assert a == [a[0]] + a[1..];
    assert b == [b[0]] + b[1..];
  }

  /** The listing is determined by the store when no two words differ only
      by case: only the order among such words is left open. */
  lemma {:induction false} ListingUnique(data: Store, a: seq<string>, b: seq<string>)
    requires CaseDistinct(data) && IsListing(data, a) && IsListing(data, b)
    ensures a == b
    decreases |a|
  {
    if a != [] {
      ListingsAgreeOnHead(data, a, b);
      ListingUnique(data - {a[0]}, a[1..], b[1..]);
      SameHeadSameTail(a, b);
    }
  }

  /** `[w for w in ws if filter_text.lower() in w.lower()]`. */
  function FilterWords(ws: seq<string>, filterText: string): (r: seq<string>)
    ensures forall w :: w in r <==> w in ws && Matches(w, filterText)
    ensures Subseq(r, ws)
    ensures Sorted(ws) ==> Sorted(r)
    ensures Distinct(ws) ==> Distinct(r)
  {
    if ws == [] then
      []
    else
      var rest := FilterWords(ws[1..], filterText);
      if Matches(ws[0], filterText) then
        var r := [ws[0]] + rest;
        assert r[1..] == rest;
        KeepHeadSorted(ws, rest);
        r
      else
        assert rest != [] ==> rest[0] in ws[1..] && rest[0] != ws[0];
        rest
  }

  /** The filter keeps every occurrence of a matching word and none of the
      others: it is `ws` with exactly the non-matching words removed. */
  lemma {:induction false} FilterCounts(ws: seq<string>, filterText: string, w: string)
    ensures multiset(FilterWords(ws, filterText))[w] == if Matches(w, filterText) then multiset(ws)[w] else 0
  {
    if ws != [] {
      FilterCounts(ws[1..], filterText, w);
      assert ws == [ws[0]] + ws[1..];
    }
  }

  /** The empty search text matches every word, so the `if filter_text:`
      guard does not change the result. */
  lemma {:induction false} FilterEmptyKeepsAll(ws: seq<string>)
    ensures FilterWords(ws, []) == ws
  {
    if ws != [] {
      FilterEmptyKeepsAll(ws[1..]);
      assert Matches(ws[0], []);
    }
  }

  /** The search ignores the case of the search text. */
  lemma {:induction false} FilterIgnoresCase(ws: seq<string>, filterText: string)
    ensures FilterWords(ws, Lower(filterText)) == FilterWords(ws, filterText)
  {
    LowerIdempotent(filterText);
    if ws != [] {
      FilterIgnoresCase(ws[1..], filterText);
    }
  }

  /** `refresh_word_list(filter_text)`: the sorted listing of the store,
      narrowed to the matching words when the search text is non-empty. The
      result is the matching part of a full listing, in the same order. */
  method ListWords(data: Store, filterText: string) returns (words: seq<string>)
    ensures Sorted(words) && Distinct(words)
    ensures forall w :: w in words <==> w in data && Matches(w, filterText)
    ensures filterText == [] ==> |words| == |data|
    ensures exists all :: IsListing(data, all) && Subseq(words, all) && words == FilterWords(all, filterText)
  {
    var all := SortedKeys(data);
    if filterText != [] {
      words := FilterWords(all, filterText);
    } else {
      words := all;
      FilterEmptyKeepsAll(all);
    }
    assert IsListing(data, all);
  }

  /** `on_search`: the typed search text is trimmed before filtering. */
  method Search(data: Store, query: string) returns (words: seq<string>)
    ensures Sorted(words) && Distinct(words)
    ensures forall w :: w in words <==> w in data && Matches(w, Trim(query))
    ensures AllSpace(query) ==> |words| == |data|
  {
    TrimEmptyIffAllSpace(query);
    words := ListWords(data, Trim(query));
  }
}
