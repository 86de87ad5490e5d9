/** The selection in `visualize_top_words` of task-two/main.py:
    `dict(sorted(words_count.items(), key=lambda x: x[1], reverse=True)[:10])`.
    Python's `sorted` is stable, also with `reverse=True`: entries with equal
    counts keep the order they had in the dict, which is the order in which
    their words first occurred in the text. */
module TopWords {
  import opened Seqs
  import opened MapReduce

  /** How many entries `visualize_top_words` keeps. */
  const TopCount: nat := 10

  /** Counts never increase along `s`. */
  predicate SortedByCountDesc(s: seq<(string, int)>) {
    forall i, j :: 0 <= i < j < |s| ==> s[i].1 >= s[j].1
  }

  /** The entries of `s` whose count is `c`, in their order in `s`. */
  function WithCount(s: seq<(string, int)>, c: int): seq<(string, int)> {
    if s == [] then []
    else (if s[0].1 == c then [s[0]] else []) + WithCount(s[1..], c)
  }

  lemma {:induction false} WithCountMember(s: seq<(string, int)>, c: int, x: (string, int))
    ensures x in WithCount(s, c) <==> x in s && x.1 == c
  {
    if s != [] {
      WithCountMember(s[1..], c, x);
      assert s == [s[0]] + s[1..];
    }
  }

  /** Puts `item` in front of the first entry whose count is not larger:
      `item` came earlier in the input than everything in `sorted`, so it
      goes first among equal counts. */
  function Insert(item: (string, int), sorted: seq<(string, int)>): (r: seq<(string, int)>)
    ensures |r| == |sorted| + 1
    ensures multiset(r) == multiset(sorted) + multiset{item}
  {
    if sorted == [] || sorted[0].1 <= item.1 then [item] + sorted
    else
      assert sorted == [sorted[0]] + sorted[1..];
      [sorted[0]] + Insert(item, sorted[1..])
  }

  lemma {:induction false} InsertMember(item: (string, int), sorted: seq<(string, int)>, k: nat)
    requires k < |Insert(item, sorted)|
    ensures Insert(item, sorted)[k] == item || Insert(item, sorted)[k] in sorted
  {
    if sorted != [] && sorted[0].1 > item.1 && k > 0 {
      InsertMember(item, sorted[1..], k - 1);
    }
  }

  lemma {:induction false} InsertSorted(item: (string, int), sorted: seq<(string, int)>)
    requires SortedByCountDesc(sorted)
    ensures SortedByCountDesc(Insert(item, sorted))
  {
    if sorted != [] && sorted[0].1 > item.1 {
      var rest := Insert(item, sorted[1..]);
      InsertSorted(item, sorted[1..]);
      forall k | 0 <= k < |rest| ensures sorted[0].1 >= rest[k].1 {
        InsertMember(item, sorted[1..], k);
      }
      var r := Insert(item, sorted);
      assert r == [sorted[0]] + rest;
      forall i, j | 0 <= i < j < |r| ensures r[i].1 >= r[j].1 {
        if i > 0 {
          assert r[i] == rest[i - 1] && r[j] == rest[j - 1];
        }
      }
    }
  }

  /** `sorted(items, key=lambda x: x[1], reverse=True)`: a stable sort by
      descending count. */
  function SortByCountDesc(items: seq<(string, int)>): (r: seq<(string, int)>)
    ensures |r| == |items|
    ensures multiset(r) == multiset(items)
    ensures SortedByCountDesc(r)
  {
    if items == [] then []
    else
      assert items == [items[0]] + items[1..];
      InsertSorted(items[0], SortByCountDesc(items[1..]));
      Insert(items[0], SortByCountDesc(items[1..]))
  }

  lemma {:induction false} WithCountInsert(item: (string, int), sorted: seq<(string, int)>, c: int)
    ensures WithCount(Insert(item, sorted), c)
         == (if item.1 == c then [item] else []) + WithCount(sorted, c)
  {
    if sorted == [] || sorted[0].1 <= item.1 {
      assert ([item] + sorted)[1..] == sorted;
    } else {
      var rest := Insert(item, sorted[1..]);
      var first := if sorted[0].1 == c then [sorted[0]] else [];
      var mine := if item.1 == c then [item] else [];
      calc {
        WithCount(Insert(item, sorted), c);
        == { assert ([sorted[0]] + rest)[1..] == rest; }
        first + WithCount(rest, c);
        == { WithCountInsert(item, sorted[1..], c); }
        first + (mine + WithCount(sorted[1..], c));
        == { assert first == [] || mine == []; }
        mine + (first + WithCount(sorted[1..], c));
      }
    }
  }

  /** The sort is stable: for every count, the entries with that count come
      out in the order they went in. */
  lemma {:induction false} SortStable(items: seq<(string, int)>, c: int)
    ensures WithCount(SortByCountDesc(items), c) == WithCount(items, c)
  {
    if items != [] {
      WithCountInsert(items[0], SortByCountDesc(items[1..]), c);
      SortStable(items[1..], c);
    }
  }

  /** Sorted and stable pin the result down: any arrangement that is sorted
      by descending count and keeps the order among equal counts is the one
      SortByCountDesc computes. */
  lemma StableSortUnique(items: seq<(string, int)>, t: seq<(string, int)>)
    requires SortedByCountDesc(t)
    requires forall c :: WithCount(t, c) == WithCount(items, c)
    ensures t == SortByCountDesc(items)
  {
    var s := SortByCountDesc(items);
    forall c ensures WithCount(t, c) == WithCount(s, c) {
      SortStable(items, c);
    }
    SortedUnique(t, s);
  }

  lemma {:induction false} SortedUnique(t: seq<(string, int)>, s: seq<(string, int)>)
    requires SortedByCountDesc(t) && SortedByCountDesc(s)
    requires forall c :: WithCount(t, c) == WithCount(s, c)
    ensures t == s
    decreases |t|
  {
    if t == [] && s != [] {
      WithCountMember(s, s[0].1, s[0]);
      assert false;
    } else if t != [] && s == [] {
      WithCountMember(t, t[0].1, t[0]);
      assert false;
    } else if t != [] {
      HeadCountBound(t, s);
      HeadCountBound(s, t);
      SameHead(t, s);
      SameTails(t, s);
      SortedUnique(t[1..], s[1..]);
      assert t == [t[0]] + t[1..] && s == [s[0]] + s[1..];
    }
  }

  /** The head of `t` has the largest count, so it occurs in `s` no earlier
      than `s`'s head can bound it. */
  lemma HeadCountBound(t: seq<(string, int)>, s: seq<(string, int)>)
    requires t != [] && s != [] && SortedByCountDesc(s)
    requires WithCount(t, t[0].1) == WithCount(s, t[0].1)
    ensures s[0].1 >= t[0].1
  {
    WithCountMember(t, t[0].1, t[0]);
    WithCountMember(s, t[0].1, t[0]);
    var k :| 0 <= k < |s| && s[k] == t[0];
  }

  /** Two sequences whose heads share a count and which agree on the
      entries of that count have the same head. */
  lemma SameHead(t: seq<(string, int)>, s: seq<(string, int)>)
    requires t != [] && s != [] && t[0].1 == s[0].1
    requires WithCount(t, t[0].1) == WithCount(s, t[0].1)
    ensures t[0] == s[0]
  {
    assert WithCount(t, t[0].1)[0] == t[0];
    assert WithCount(s, t[0].1)[0] == s[0];
  }

  lemma SameTails(t: seq<(string, int)>, s: seq<(string, int)>)
    requires t != [] && s != [] && t[0] == s[0]
    requires forall c :: WithCount(t, c) == WithCount(s, c)
    ensures forall c :: WithCount(t[1..], c) == WithCount(s[1..], c)
  {
    forall c ensures WithCount(t[1..], c) == WithCount(s[1..], c) {
      var head := if t[0].1 == c then [t[0]] else [];
      assert WithCount(t, c) == head + WithCount(t[1..], c);
      assert WithCount(s, c) == head + WithCount(s[1..], c);
      assert WithCount(t, c) == WithCount(s, c);
      assert WithCount(t[1..], c) == WithCount(t, c)[|head|..];
    }
  }

  function Min(a: int, b: int): int {
    if a <= b then a else b
  }

  /** The entries `visualize_top_words` draws: the first ten after sorting,
      or all of them when there are fewer. */
  function SelectTop(counts: seq<(string, int)>): (top: seq<(string, int)>)
    ensures |top| == Min(TopCount, |counts|)
  {
    SortByCountDesc(counts)[..Min(TopCount, |counts|)]
  }

  /** The selection is sorted by descending count, holds entries of the
      input only, and no entry left out has a larger count than an entry
      kept. */
  lemma TopWordsSelects(counts: seq<(string, int)>)
    ensures SortedByCountDesc(SelectTop(counts))
    ensures multiset(SelectTop(counts)) <= multiset(counts)
    ensures forall x, i ::
      x in counts && x !in SelectTop(counts) && 0 <= i < |SelectTop(counts)| ==> SelectTop(counts)[i].1 >= x.1
  {
    var sorted := SortByCountDesc(counts);
    var n := Min(TopCount, |counts|);
    SortedPrefix(sorted, n);
    assert multiset(sorted[..n]) <= multiset(sorted) by {
      assert sorted == sorted[..n] + sorted[n..];
    }
    forall x, i | x in counts && x !in sorted[..n] && 0 <= i < n ensures sorted[..n][i].1 >= x.1 {
      assert x in multiset(sorted);
      SortedPrefixDominates(sorted, n, x, i);
    }
  }

  lemma SortedPrefix(s: seq<(string, int)>, n: nat)
    requires SortedByCountDesc(s) && n <= |s|
    ensures SortedByCountDesc(s[..n])
  {
    forall i, j | 0 <= i < j < n ensures s[..n][i].1 >= s[..n][j].1 {
      assert s[..n][i] == s[i] && s[..n][j] == s[j];
    }
  }

  /** An entry of a sorted sequence that is not in its first `n` entries
      has no larger count than any of them. */
  lemma SortedPrefixDominates(s: seq<(string, int)>, n: nat, x: (string, int), i: nat)
    requires SortedByCountDesc(s) && i < n <= |s|
    requires x in s && x !in s[..n]
    ensures s[..n][i].1 >= x.1
  {
    var k :| 0 <= k < |s| && s[k] == x;
    assert s[..n][i] == s[i];
  }

  /** Fewer than ten distinct words: all of them are reported. */
  lemma TopWordsAll(counts: seq<(string, int)>)
    requires |counts| <= TopCount
    ensures multiset(SelectTop(counts)) == multiset(counts)
  {
    var sorted := SortByCountDesc(counts);
    assert sorted[..|counts|] == sorted;
  }

  // ----------------------------------------- ties, in order of first use

  /** Along `s`, the words first occur in `words` ever later. */
  predicate RankedBy(s: seq<(string, int)>, words: seq<string>) {
    && (forall p :: 0 <= p < |s| ==> s[p].0 in words)
    && (forall p, q :: 0 <= p < q < |s| ==> FirstIndex(words, s[p].0) < FirstIndex(words, s[q].0))
  }

  lemma RankedByTail(s: seq<(string, int)>, words: seq<string>)
    requires s != [] && RankedBy(s, words)
    ensures RankedBy(s[1..], words)
  {
    var tail := s[1..];
    forall p, q | 0 <= p < q < |tail|
      ensures FirstIndex(words, tail[p].0) < FirstIndex(words, tail[q].0)
    {
      assert tail[p] == s[p + 1] && tail[q] == s[q + 1];
    }
  }

  lemma RankedByCons(x: (string, int), r: seq<(string, int)>, words: seq<string>)
    requires RankedBy(r, words) && x.0 in words
    requires forall q :: 0 <= q < |r| ==> FirstIndex(words, x.0) < FirstIndex(words, r[q].0)
    ensures RankedBy([x] + r, words)
  {
    var s := [x] + r;
    forall p, q | 0 <= p < q < |s| ensures FirstIndex(words, s[p].0) < FirstIndex(words, s[q].0) {
      assert s[q] == r[q - 1];
      if p > 0 {
        assert s[p] == r[p - 1];
      }
    }
  }

  lemma {:induction false} RankedByWithCount(s: seq<(string, int)>, words: seq<string>, c: int)
    requires RankedBy(s, words)
    ensures RankedBy(WithCount(s, c), words)
  {
    if s != [] {
      RankedByTail(s, words);
      RankedByWithCount(s[1..], words, c);
      if s[0].1 == c {
        var rest := WithCount(s[1..], c);
        forall q | 0 <= q < |rest| ensures FirstIndex(words, s[0].0) < FirstIndex(words, rest[q].0) {
          HeadBeforeWithCount(s, words, c, q);
        }
        RankedByCons(s[0], rest, words);
      }
    }
  }

  lemma HeadBeforeWithCount(s: seq<(string, int)>, words: seq<string>, c: int, q: nat)
    requires s != [] && RankedBy(s, words) && q < |WithCount(s[1..], c)|
    ensures WithCount(s[1..], c)[q].0 in words
    ensures FirstIndex(words, s[0].0) < FirstIndex(words, WithCount(s[1..], c)[q].0)
  {
    var x := WithCount(s[1..], c)[q];
    WithCountMember(s[1..], c, x);
    var k :| 0 <= k < |s[1..]| && s[1..][k] == x;
    assert s[k + 1] == x;
  }

  /** The word counts come in order of first occurrence. */
  lemma WordCountsRanked(words: seq<string>)
    ensures RankedBy(WordCounts(words), words)
  {
    var counts := WordCounts(words);
    forall p, q | 0 <= p < q < |counts|
      ensures FirstIndex(words, counts[p].0) < FirstIndex(words, counts[q].0)
    {
      DistinctFirstOccurrence(words, p, q);
    }
  }

  lemma {:induction false} WithCountConcat(a: seq<(string, int)>, b: seq<(string, int)>, c: int)
    ensures WithCount(a + b, c) == WithCount(a, c) + WithCount(b, c)
  {
    if a == [] {
      assert a + b == b;
    } else {
      var head := if a[0].1 == c then [a[0]] else [];
      calc {
        WithCount(a + b, c);
        == { assert (a + b)[0] == a[0] && (a + b)[1..] == a[1..] + b; }
        head + WithCount(a[1..] + b, c);
        == { WithCountConcat(a[1..], b, c); }
        head + (WithCount(a[1..], c) + WithCount(b, c));
        ==
        (head + WithCount(a[1..], c)) + WithCount(b, c);
      }
    }
  }

  /** Two entries with count `c` keep their relative order in WithCount. */
  lemma WithCountKeepsOrder(s: seq<(string, int)>, c: int, p: nat, q: nat)
    requires p < q < |s| && s[p].1 == c && s[q].1 == c
    ensures exists p', q' ::
      0 <= p' < q' < |WithCount(s, c)| && WithCount(s, c)[p'] == s[p] && WithCount(s, c)[q'] == s[q]
  {
    var r := WithCount(s, c);
    var before := WithCount(s[..p], c);
    var between := WithCount(s[p + 1..q], c);
    assert s == s[..p] + ([s[p]] + (s[p + 1..q] + ([s[q]] + s[q + 1..])));
    WithCountConcat(s[..p], [s[p]] + (s[p + 1..q] + ([s[q]] + s[q + 1..])), c);
    WithCountConcat([s[p]], s[p + 1..q] + ([s[q]] + s[q + 1..]), c);
    WithCountConcat(s[p + 1..q], [s[q]] + s[q + 1..], c);
    WithCountConcat([s[q]], s[q + 1..], c);
    assert WithCount([s[p]], c) == [s[p]];
    assert WithCount([s[q]], c) == [s[q]];
    var p', q' := |before|, |before| + 1 + |between|;
    assert r == before + ([s[p]] + (between + ([s[q]] + WithCount(s[q + 1..], c))));
    assert r[p'] == s[p] && r[q'] == s[q];
  }

  /** Among the reported words, equal counts appear in the order in which
      the words first occur in the text. */
  lemma TopWordsTieOrder(words: seq<string>, i: nat, j: nat)
    requires i < j < |SelectTop(WordCounts(words))|
    requires SelectTop(WordCounts(words))[i].1 == SelectTop(WordCounts(words))[j].1
    ensures var top := SelectTop(WordCounts(words));
      top[i].0 in words && top[j].0 in words && FirstIndex(words, top[i].0) < FirstIndex(words, top[j].0)
  {
    var counts := WordCounts(words);
    var sorted := SortByCountDesc(counts);
    var top := SelectTop(counts);
    var c := top[i].1;
    assert top[i] == sorted[i] && top[j] == sorted[j];
    WithCountKeepsOrder(sorted, c, i, j);
    var p', q' :| 0 <= p' < q' < |WithCount(sorted, c)|
      && WithCount(sorted, c)[p'] == sorted[i] && WithCount(sorted, c)[q'] == sorted[j];
    SortStable(counts, c);
    WordCountsRanked(words);
    RankedByWithCount(counts, words, c);
  }

  // ------------------------------------------------ the dict() around it

  lemma KeysCons(x: (string, int), s: seq<(string, int)>)
    ensures multiset(Keys([x] + s)) == multiset{x.0} + multiset(Keys(s))
  {
    KeysConcat([x], s);
    assert Keys([x]) == [x.0];
  }

  lemma {:induction false} KeysInsert(item: (string, int), sorted: seq<(string, int)>)
    ensures multiset(Keys(Insert(item, sorted))) == multiset(Keys(sorted)) + multiset{item.0}
  {
    if sorted != [] && sorted[0].1 > item.1 {
      KeysInsert(item, sorted[1..]);
      assert sorted == [sorted[0]] + sorted[1..];
      KeysCons(sorted[0], Insert(item, sorted[1..]));
      KeysCons(sorted[0], sorted[1..]);
    } else {
      KeysCons(item, sorted);
    }
  }

  lemma {:induction false} KeysSort(items: seq<(string, int)>)
    ensures multiset(Keys(SortByCountDesc(items))) == multiset(Keys(items))
  {
    if items != [] {
      var rest := SortByCountDesc(items[1..]);
      calc {
        multiset(Keys(SortByCountDesc(items)));
        == { KeysInsert(items[0], rest); }
        multiset(Keys(rest)) + multiset{items[0].0};
        == { KeysSort(items[1..]); }
        multiset(Keys(items[1..])) + multiset{items[0].0};
        == { assert items == [items[0]] + items[1..]; KeysCons(items[0], items[1..]); }
        multiset(Keys(items));
      }
    }
  }

  /** A dict's items have distinct keys, and so do the selected ones: the
      `dict(...)` around the selection drops nothing and maps every
      selected word to its count. */
  lemma TopWordsDistinct(counts: seq<(string, int)>)
    requires NoDuplicates(Keys(counts))
    ensures NoDuplicates(Keys(SelectTop(counts)))
    ensures forall i :: 0 <= i < |SelectTop(counts)| ==>
      AsDict(SelectTop(counts))[SelectTop(counts)[i].0] == SelectTop(counts)[i].1
  {
    var sorted := SortByCountDesc(counts);
    var top := SelectTop(counts);
    KeysSort(counts);
    NoDuplicatesMultiset(Keys(counts));
    NoDuplicatesMultiset(Keys(sorted));
    forall i | 0 <= i < |Keys(sorted)| ensures multiset(Keys(sorted))[Keys(sorted)[i]] == 1 {
      assert Keys(sorted)[i] in multiset(Keys(counts));
      var j :| 0 <= j < |Keys(counts)| && Keys(counts)[j] == Keys(sorted)[i];
    }
    assert Keys(top) == Keys(sorted)[..|top|];
    forall i | 0 <= i < |top| ensures AsDict(top)[top[i].0] == top[i].1 {
      AsDictLookup(top, i);
    }
  }
}
