/** Sequence facts shared by the stages of the word-count pipeline: the
    distinct elements of a sequence in order of first occurrence (the key
    order of a Python dict filled from that sequence), and sums of
    occurrence counts over them. */
module Seqs {

  /** No element occurs twice. */
  predicate NoDuplicates<T(==)>(s: seq<T>) {
    forall i, j :: 0 <= i < j < |s| ==> s[i] != s[j]
  }

  /** The position of the first occurrence of `x` in `s`. */
  function FirstIndex<T(==)>(s: seq<T>, x: T): (k: nat)
    requires x in s
    ensures k < |s| && s[k] == x && x !in s[..k]
  {
    if s[0] == x then 0
    else
      var k := 1 + FirstIndex(s[1..], x);
      assert s[..k] == [s[0]] + s[1..][..k - 1];
      k
  }

  /** The elements of `s`, each once, in the order of their first occurrence.
      Defined on the last element so that a loop that walks `s` from the left
      extends it one step at a time. */
  function Distinct<T(==,!new)>(s: seq<T>): (d: seq<T>)
    ensures forall x :: x in d <==> x in s
    ensures NoDuplicates(d)
  {
    if s == [] then []
    else
      var init := s[..|s| - 1];
      assert s == init + [s[|s| - 1]];
      var d := Distinct(init);
      if s[|s| - 1] in d then d else d + [s[|s| - 1]]
  }

  lemma DistinctAppend<T(!new)>(s: seq<T>, x: T)
    ensures Distinct(s + [x]) == if x in s then Distinct(s) else Distinct(s) + [x]
  {
    assert (s + [x])[..|s + [x]| - 1] == s;
  }

  /** Distinct lists the elements in the order in which they first occur. */
  lemma {:induction false} DistinctFirstOccurrence<T(!new)>(s: seq<T>, i: nat, j: nat)
    requires i < j < |Distinct(s)|
    ensures FirstIndex(s, Distinct(s)[i]) < FirstIndex(s, Distinct(s)[j])
  {
    var init := s[..|s| - 1];
    var y := s[|s| - 1];
    assert s == init + [y];
    DistinctAppend(init, y);
    var d := Distinct(s);
    FirstIndexPrefix(init, y, d[i]);
    if j < |Distinct(init)| {
      DistinctFirstOccurrence(init, i, j);
      FirstIndexPrefix(init, y, d[j]);
    } else {
      assert d[j] == y && y !in init;
      assert FirstIndex(s, y) == |init| by {
        assert s[|init|] == y && y !in s[..|init|];
        FirstIndexUnique(s, y, |init|);
      }
    }
  }

  /** The conditions in FirstIndex's contract pin the index down. */
  lemma FirstIndexUnique<T>(s: seq<T>, x: T, k: nat)
    requires k < |s| && s[k] == x && x !in s[..k]
    ensures FirstIndex(s, x) == k
  {
    var f := FirstIndex(s, x);
    assert forall i :: 0 <= i < k ==> s[..k][i] == s[i];
    assert forall i :: 0 <= i < f ==> s[..f][i] == s[i];
  }

  lemma FirstIndexPrefix<T>(s: seq<T>, y: T, x: T)
    requires x in s
    ensures FirstIndex(s + [y], x) == FirstIndex(s, x)
  {
    var k := FirstIndex(s, x);
    assert (s + [y])[..k] == s[..k];
    FirstIndexUnique(s + [y], x, k);
  }

  /** The sum, over the elements of `d`, of their multiplicities in `m`. */
  function SumCounts<T>(d: seq<T>, m: multiset<T>): int {
    if d == [] then 0 else SumCounts(d[..|d| - 1], m) + m[d[|d| - 1]]
  }

  lemma {:induction false} SumCountsAddIn<T>(d: seq<T>, m: multiset<T>, x: T)
    requires NoDuplicates(d) && x in d
    ensures SumCounts(d, m + multiset{x}) == SumCounts(d, m) + 1
  {
    var init := d[..|d| - 1];
    if d[|d| - 1] == x {
      assert x !in init;
      SumCountsAddOut(init, m, x);
    } else {
      assert x in init;
      SumCountsAddIn(init, m, x);
    }
  }

  lemma {:induction false} SumCountsAddOut<T>(d: seq<T>, m: multiset<T>, x: T)
    requires x !in d
    ensures SumCounts(d, m + multiset{x}) == SumCounts(d, m)
  {
    if d != [] {
      SumCountsAddOut(d[..|d| - 1], m, x);
    }
  }

  /** Summing the occurrence counts of the distinct elements of `s` gives
      back the length of `s`. */
  lemma {:induction false} DistinctCountsSum<T(!new)>(s: seq<T>)
    ensures SumCounts(Distinct(s), multiset(s)) == |s|
  {
    if s != [] {
      var init := s[..|s| - 1];
      var y := s[|s| - 1];
      var d := Distinct(init);
      assert s == init + [y];
      assert multiset(s) == multiset(init) + multiset{y};
      DistinctAppend(init, y);
      if y in init {
        calc {
          SumCounts(Distinct(s), multiset(s));
          == { SumCountsAddIn(d, multiset(init), y); }
          SumCounts(d, multiset(init)) + 1;
          == { DistinctCountsSum(init); }
          |s|;
        }
      } else {
        calc {
          SumCounts(Distinct(s), multiset(s));
          == { assert (d + [y])[..|d + [y]| - 1] == d; }
          SumCounts(d, multiset(s)) + multiset(s)[y];
          == { SumCountsAddOut(d, multiset(init), y); }
          SumCounts(d, multiset(init)) + multiset(s)[y];
          == { DistinctCountsSum(init); }
          |s|;
        }
      }
    }
  }

  /** No duplicates means every element occurs at most once. */
  lemma {:induction false} NoDuplicatesMultiset<T>(s: seq<T>)
    ensures NoDuplicates(s) <==> forall i :: 0 <= i < |s| ==> multiset(s)[s[i]] == 1
  {
    if s != [] {
      var tail := s[1..];
      assert s == [s[0]] + tail;
      NoDuplicatesMultiset(tail);
      if NoDuplicates(s) {
        assert NoDuplicates(tail) by {
          forall i, j | 0 <= i < j < |tail| ensures tail[i] != tail[j] {
            assert tail[i] == s[i + 1] && tail[j] == s[j + 1];
          }
        }
        assert s[0] !in tail by {
          forall j | 0 <= j < |tail| ensures tail[j] != s[0] {
            assert tail[j] == s[j + 1];
          }
        }
        forall i | 0 <= i < |s| ensures multiset(s)[s[i]] == 1 {
          if i > 0 {
            assert s[i] == tail[i - 1];
          }
        }
      }
      if forall i :: 0 <= i < |s| ==> multiset(s)[s[i]] == 1 {
        assert multiset(tail)[s[0]] == 0;
        forall i | 0 <= i < |tail| ensures multiset(tail)[tail[i]] == 1 {
          assert tail[i] == s[i + 1];
        }
        forall i, j | 0 <= i < j < |s| ensures s[i] != s[j] {
          assert s[j] == tail[j - 1];
          if i > 0 {
            assert s[i] == tail[i - 1];
          }
        }
      }
    }
  }
}
