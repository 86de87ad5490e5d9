/** The map/shuffle/reduce word count of task-two/main.py.

    `map_reduce` strips punctuation, splits the text, maps every token to
    `(word, 1)`, groups the pairs by word in a `defaultdict(list)` and sums
    every group. The thread pools only run `executor.map`, whose results
    come back in input order, so each pool stage is an order-preserving
    sequence map here. A Python dict is modelled as the sequence of its
    items in insertion order; `AsDict` gives its key/value view. */
module MapReduce {
  import opened Seqs
  import opened Tokenizer

  /** The words of a list of `(word, value)` pairs. */
  function Keys<V>(items: seq<(string, V)>): (ks: seq<string>)
    ensures |ks| == |items|
    ensures forall i :: 0 <= i < |items| ==> ks[i] == items[i].0
  {
    seq(|items|, i requires 0 <= i < |items| => items[i].0)
  }

  lemma KeysPrefix<V>(items: seq<(string, V)>, n: nat)
    requires n <= |items|
    ensures Keys(items[..n]) == Keys(items)[..n]
  {
  }

  lemma KeysConcat<V>(a: seq<(string, V)>, b: seq<(string, V)>)
    ensures Keys(a + b) == Keys(a) + Keys(b)
  {
  }

  // ---------------------------------------------------------------- map

  /** `map_function`: a word with its count unit. */
  function MapFunction(word: string): (pair: (string, int))
    ensures pair.0 == word && pair.1 == 1
  {
    (word, 1)
  }

  /** `list(executor.map(map_function, words))`: one pair per token, in
      token order, duplicates kept. */
  function MapAll(words: seq<string>): (pairs: seq<(string, int)>)
    ensures Keys(pairs) == words
    ensures forall i :: 0 <= i < |pairs| ==> pairs[i].1 == 1
  {
    seq(|words|, i requires 0 <= i < |words| => MapFunction(words[i]))
  }

  // ------------------------------------------------------------ shuffle

  /** The values paired with `key`, in input order. */
  function ValuesOf(pairs: seq<(string, int)>, key: string): (vs: seq<int>) {
    if pairs == [] then []
    else ValuesOf(pairs[..|pairs| - 1], key) + (if pairs[|pairs| - 1].0 == key then [pairs[|pairs| - 1].1] else [])
  }

  /** A key has as many values as it has occurrences. */
  lemma {:induction false} ValuesOfLength(pairs: seq<(string, int)>, key: string)
    ensures |ValuesOf(pairs, key)| == multiset(Keys(pairs))[key]
  {
    if pairs != [] {
      var init := pairs[..|pairs| - 1];
      assert Keys(pairs) == Keys(init) + [pairs[|pairs| - 1].0];
      ValuesOfLength(init, key);
    }
  }

  /** Grouping keeps input order: the values of a concatenation are the
      values of each part, one after the other. */
  lemma {:induction false} ValuesOfConcat(a: seq<(string, int)>, b: seq<(string, int)>, key: string)
    ensures ValuesOf(a + b, key) == ValuesOf(a, key) + ValuesOf(b, key)
  {
    if b == [] {
      assert a + b == a;
    } else {
      var init := b[..|b| - 1];
      assert (a + b)[..|a + b| - 1] == a + init;
      ValuesOfConcat(a, init, key);
    }
  }

  /** What `shuffle_function` returns: `shuffled.items()`, one entry per
      distinct word in order of first occurrence, holding the values paired
      with that word. */
  function Grouped(pairs: seq<(string, int)>): (items: seq<(string, seq<int>)>)
    ensures Keys(items) == Distinct(Keys(pairs))
  {
    var order := Distinct(Keys(pairs));
    seq(|order|, i requires 0 <= i < |order| => (order[i], ValuesOf(pairs, order[i])))
  }

  /** The `defaultdict(list)` after the pairs: every value appended to the
      list of its key, the key created on its first value. */
  function GroupsOf(pairs: seq<(string, int)>): map<string, seq<int>> {
    if pairs == [] then map[]
    else
      var g := GroupsOf(pairs[..|pairs| - 1]);
      var (key, value) := pairs[|pairs| - 1];
      g[key := (if key in g then g[key] else []) + [value]]
  }

  /** The dict holds a key exactly when some pair carries it. */
  lemma {:induction false} GroupsOfKeys(pairs: seq<(string, int)>, key: string)
    ensures key in GroupsOf(pairs) <==> key in Keys(pairs)
  {
    if pairs != [] {
      var init := pairs[..|pairs| - 1];
      GroupsOfKeys(init, key);
      assert Keys(pairs) == Keys(init) + [pairs[|pairs| - 1].0];
    }
  }

  /** The dict maps every key to the values paired with it, in input order. */
  lemma {:induction false} GroupsOfValues(pairs: seq<(string, int)>, key: string)
    requires key in GroupsOf(pairs)
    ensures GroupsOf(pairs)[key] == ValuesOf(pairs, key)
  {
    var init := pairs[..|pairs| - 1];
    var last := pairs[|pairs| - 1];
    if key in GroupsOf(init) {
      GroupsOfValues(init, key);
    } else if key == last.0 {
      GroupsOfKeys(init, key);
      ValuesOfLength(init, key);
    }
  }

  /** A new key goes to the end of the key order. */
  lemma OrderStep(pairs: seq<(string, int)>, i: nat)
    requires i < |pairs|
    ensures Distinct(Keys(pairs[..i + 1]))
         == if pairs[i].0 in Keys(pairs[..i]) then Distinct(Keys(pairs[..i]))
            else Distinct(Keys(pairs[..i])) + [pairs[i].0]
  {
    assert Keys(pairs[..i + 1]) == Keys(pairs[..i]) + [pairs[i].0] by {
      assert pairs[..i + 1] == pairs[..i] + [pairs[i]];
      KeysConcat(pairs[..i], [pairs[i]]);
    }
    DistinctAppend(Keys(pairs[..i]), pairs[i].0);
  }

  /** `shuffle_function`: one pass over the pairs, appending every value to
      the list of its key in a `defaultdict(list)`; `order` is the dict's
      key insertion order. */
  method Shuffle(pairs: seq<(string, int)>) returns (items: seq<(string, seq<int>)>)
    ensures items == Grouped(pairs)
  {
    var groups: map<string, seq<int>> := map[];
    var order: seq<string> := [];
    for i := 0 to |pairs|
      invariant order == Distinct(Keys(pairs[..i]))
      invariant groups == GroupsOf(pairs[..i])
    {
      var (key, value) := pairs[i];
      assert pairs[..i + 1][..i] == pairs[..i];
      OrderStep(pairs, i);
      GroupsOfKeys(pairs[..i], key);
      var bucket := if key in groups then groups[key] else [];
      if key !in groups {
        order := order + [key];
      }
      groups := groups[key := bucket + [value]];
    }
    assert pairs[..|pairs|] == pairs;
    forall j | 0 <= j < |order| ensures order[j] in groups && groups[order[j]] == ValuesOf(pairs, order[j]) {
      GroupsOfKeys(pairs, order[j]);
      GroupsOfValues(pairs, order[j]);
    }
    items := seq(|order|, j requires 0 <= j < |order| => (order[j], groups[order[j]]));
    assert |items| == |Grouped(pairs)|;
    forall j | 0 <= j < |items| ensures items[j] == Grouped(pairs)[j] {
      assert Grouped(pairs)[j] == (order[j], ValuesOf(pairs, order[j]));
    }
  }

  /** The total number of values held by the groups. */
  function TotalLength(items: seq<(string, seq<int>)>): int {
    if items == [] then 0 else TotalLength(items[..|items| - 1]) + |items[|items| - 1].1|
  }

  lemma {:induction false} TotalLengthCounts(items: seq<(string, seq<int>)>, m: multiset<string>)
    requires forall i :: 0 <= i < |items| ==> |items[i].1| == m[items[i].0]
    ensures TotalLength(items) == SumCounts(Keys(items), m)
  {
    if items != [] {
      var n := |items| - 1;
      KeysPrefix(items, n);
      TotalLengthCounts(items[..n], m);
    }
  }

  /** After shuffling, the keys are exactly the words of the input, each
      once; every group is non-empty and holds exactly the values paired
      with its key; and the group sizes add up to the number of pairs. */
  lemma ShuffleProperties(pairs: seq<(string, int)>)
    ensures var items := Grouped(pairs);
      && NoDuplicates(Keys(items))
      && (forall k :: k in Keys(items) <==> k in Keys(pairs))
      && (forall i :: 0 <= i < |items| ==> items[i].1 == ValuesOf(pairs, items[i].0) && items[i].1 != [])
      && TotalLength(items) == |pairs|
  {
    var items := Grouped(pairs);
    var m := multiset(Keys(pairs));
    forall i | 0 <= i < |items| ensures |items[i].1| == m[items[i].0] > 0 {
      assert items[i].0 in Keys(pairs);
      ValuesOfLength(pairs, items[i].0);
    }
    TotalLengthCounts(items, m);
    DistinctCountsSum(Keys(pairs));
  }

  // ------------------------------------------------------------- reduce

  /** Python's `sum`: 0 plus the values from left to right. */
  function Sum(values: seq<int>): int {
    if values == [] then 0 else Sum(values[..|values| - 1]) + values[|values| - 1]
  }

  /** `sum` adds up a concatenation part by part. */
  lemma {:induction false} SumConcat(a: seq<int>, b: seq<int>)
    ensures Sum(a + b) == Sum(a) + Sum(b)
  {
    if b == [] {
      assert a + b == a;
    } else {
      assert (a + b)[..|a + b| - 1] == a + b[..|b| - 1];
      SumConcat(a, b[..|b| - 1]);
    }
  }

  /** A list of count units sums to its length. */
  lemma {:induction false} SumOfUnits(values: seq<int>)
    requires forall i :: 0 <= i < |values| ==> values[i] == 1
    ensures Sum(values) == |values|
  {
    if values != [] {
      SumOfUnits(values[..|values| - 1]);
    }
  }

  /** `reduce_function`: the key and the sum of its values. */
  function ReduceFunction(item: (string, seq<int>)): (r: (string, int))
    ensures r.0 == item.0
    ensures (forall i :: 0 <= i < |item.1| ==> item.1[i] == 1) ==> r.1 == |item.1|
  {
    assert (forall i :: 0 <= i < |item.1| ==> item.1[i] == 1) ==> Sum(item.1) == |item.1| by {
      if forall i :: 0 <= i < |item.1| ==> item.1[i] == 1 {
        SumOfUnits(item.1);
      }
    }
    (item.0, Sum(item.1))
  }

  /** `list(executor.map(reduce_function, shuffled_values))`, in group order. */
  function ReduceAll(items: seq<(string, seq<int>)>): (counts: seq<(string, int)>)
    ensures Keys(counts) == Keys(items)
    ensures forall i :: 0 <= i < |items| ==> counts[i] == ReduceFunction(items[i])
  {
    seq(|items|, i requires 0 <= i < |items| => ReduceFunction(items[i]))
  }

  // -------------------------------------------------------------- dicts

  /** `dict(items)`: later items overwrite earlier ones with the same key. */
  function AsDict(items: seq<(string, int)>): (m: map<string, int>)
    ensures forall k :: k in m <==> k in Keys(items)
  {
    if items == [] then map[]
    else
      var n := |items| - 1;
      KeysPrefix(items, n);
      assert Keys(items) == Keys(items[..n]) + [items[n].0];
      AsDict(items[..n])[items[n].0 := items[n].1]
  }

  /** With distinct keys, the dict holds every item's value. */
  lemma {:induction false} AsDictLookup(items: seq<(string, int)>, i: nat)
    requires NoDuplicates(Keys(items)) && i < |items|
    ensures AsDict(items)[items[i].0] == items[i].1
  {
    var n := |items| - 1;
    if i < n {
      KeysPrefix(items, n);
      AsDictLookup(items[..n], i);
    }
  }

  /** The sum of the counts. */
  function TotalCount(counts: seq<(string, int)>): int {
    if counts == [] then 0 else TotalCount(counts[..|counts| - 1]) + counts[|counts| - 1].1
  }

  // ---------------------------------------------------------- map_reduce

  /** The word count `map_reduce` computes: every distinct token, in order
      of first occurrence, with its number of occurrences. */
  function WordCounts(words: seq<string>): (counts: seq<(string, int)>)
    ensures Keys(counts) == Distinct(words)
  {
    var order := Distinct(words);
    seq(|order|, i requires 0 <= i < |order| => (order[i], multiset(words)[order[i]]))
  }

  lemma {:induction false} TotalCountOf(counts: seq<(string, int)>, m: multiset<string>)
    requires forall i :: 0 <= i < |counts| ==> counts[i].1 == m[counts[i].0]
    ensures TotalCount(counts) == SumCounts(Keys(counts), m)
  {
    if counts != [] {
      var n := |counts| - 1;
      KeysPrefix(counts, n);
      TotalCountOf(counts[..n], m);
    }
  }

  /** The counts add up to the number of tokens, every count is at least
      one, and there are no words exactly when there are no tokens. */
  lemma {:induction false} WordCountsTotal(words: seq<string>)
    ensures TotalCount(WordCounts(words)) == |words|
    ensures forall i :: 0 <= i < |WordCounts(words)| ==> WordCounts(words)[i].1 >= 1
    ensures WordCounts(words) == [] <==> words == []
  {
    var counts := WordCounts(words);
    TotalCountOf(counts, multiset(words));
    DistinctCountsSum(words);
    forall i | 0 <= i < |counts| ensures counts[i].1 >= 1 {
      assert counts[i].0 in words;
    }
    if words != [] {
      assert words[0] in Keys(counts);
    }
  }

  /** Grouping the mapped tokens and summing the groups counts the tokens. */
  lemma ReduceShuffleMapped(words: seq<string>)
    ensures ReduceAll(Grouped(MapAll(words))) == WordCounts(words)
  {
    var pairs := MapAll(words);
    var items := Grouped(pairs);
    var counts := ReduceAll(items);
    forall i | 0 <= i < |items| ensures counts[i] == WordCounts(words)[i] {
      UnitsOf(words, items[i].0);
      ValuesOfLength(pairs, items[i].0);
    }
  }

  /** Every value paired with a word by MapAll is the unit 1. */
  lemma {:induction false} UnitsOf(words: seq<string>, key: string)
    ensures forall j :: 0 <= j < |ValuesOf(MapAll(words), key)| ==> ValuesOf(MapAll(words), key)[j] == 1
  {
    if words != [] {
      var n := |words| - 1;
      assert MapAll(words)[..n] == MapAll(words[..n]);
      UnitsOf(words[..n], key);
    }
  }

  /** `map_reduce`: the dict of word counts, as its items in insertion
      order. Its keys are exactly the tokens of the punctuation-stripped
      text, each once and in order of first occurrence; each value is the
      number of occurrences of its key, at least one; the values add up to
      the number of tokens. */
  method CountWords(text: string) returns (counts: seq<(string, int)>)
    ensures counts == WordCounts(Tokens(text))
    ensures NoDuplicates(Keys(counts))
    ensures forall w :: w in AsDict(counts) <==> w in Tokens(text)
    ensures forall w :: w in AsDict(counts) ==> AsDict(counts)[w] == multiset(Tokens(text))[w] >= 1
    ensures TotalCount(counts) == |Tokens(text)|
    ensures counts == [] <==> Tokens(text) == []
  {
    var words := Tokens(text);
    var mapped := MapAll(words);
    var shuffled := Shuffle(mapped);
    counts := ReduceAll(shuffled);
    ReduceShuffleMapped(words);
    WordCountsTotal(words);
    forall w | w in AsDict(counts)
      ensures AsDict(counts)[w] == multiset(words)[w] >= 1
    {
      var i :| 0 <= i < |counts| && counts[i].0 == w;
      AsDictLookup(counts, i);
    }
  }
}
