/** The tokenizer of task-two/main.py: `remove_punctuation` deletes every
    character of Python's `string.punctuation`, and `str.split()` with no
    argument cuts the rest into maximal runs of non-whitespace. */
module Tokenizer {

  /** Python's `string.punctuation`, spelled out as the string it is. */
  const PythonPunctuation: string := "!\"#$%&'()*+,-./:;<=>?@[\\]^_`{|}~"

  /** The characters `str.split()` with no argument separates on, one by one:
      the ASCII controls \t \n \v \f \r, the information separators
      \x1c..\x1f, the space, and the Unicode spaces and line and paragraph
      separators. */
  const SplitSeparators: string :=
    "\t\n\U{b}\U{c}\r\U{1c}\U{1d}\U{1e}\U{1f} \U{85}\U{a0}\U{1680}"
    + "\U{2000}\U{2001}\U{2002}\U{2003}\U{2004}\U{2005}\U{2006}\U{2007}\U{2008}\U{2009}\U{200a}"
    + "\U{2028}\U{2029}\U{202f}\U{205f}\U{3000}"

  /** Membership in `string.punctuation`, as four code-point ranges. */
  predicate IsPunctuation(c: char) {
    || ('!' <= c <= '/')
    || (':' <= c <= '@')
    || ('[' <= c <= '`')
    || ('{' <= c <= '~')
  }

  /** Membership in the separators of `str.split()`, as code-point ranges. */
  predicate IsWhitespace(c: char) {
    || ('\t' <= c <= '\r')
    || ('\U{1c}' <= c <= ' ')
    || c == '\U{85}' || c == '\U{a0}' || c == '\U{1680}'
    || ('\U{2000}' <= c <= '\U{200a}')
    || c == '\U{2028}' || c == '\U{2029}' || c == '\U{202f}'
    || c == '\U{205f}' || c == '\U{3000}'
  }

  /** The ranges hold exactly the characters of `string.punctuation`. */
  lemma PunctuationIsPythonSet(c: char)
    ensures IsPunctuation(c) <==> c in PythonPunctuation
  {
  }

  /** The ranges hold exactly the separators of `str.split()`. */
  lemma WhitespaceIsSplitSet(c: char)
    ensures IsWhitespace(c) <==> c in SplitSeparators
  {
  }

  /** `remove_punctuation`: `text.translate(str.maketrans("", "", string.punctuation))`
      deletes punctuation (it does not replace it by a space). */
  function RemovePunctuation(text: string): (r: string)
    ensures |r| <= |text|
    ensures forall i :: 0 <= i < |r| ==> !IsPunctuation(r[i])
  {
    if text == [] then []
    else
      (if IsPunctuation(text[0]) then [] else [text[0]]) + RemovePunctuation(text[1..])
  }

  /** Every character that is not punctuation is kept, as often as it occurs. */
  lemma {:induction false} RemovePunctuationCounts(text: string, c: char)
    requires !IsPunctuation(c)
    ensures multiset(RemovePunctuation(text))[c] == multiset(text)[c]
  {
    if text != [] {
      assert text == [text[0]] + text[1..];
      RemovePunctuationCounts(text[1..], c);
    }
  }

  /** Deleting works character by character, so the kept characters stay in
      their original order: stripping a concatenation strips each part. */
  lemma {:induction false} RemovePunctuationConcat(a: string, b: string)
    ensures RemovePunctuation(a + b) == RemovePunctuation(a) + RemovePunctuation(b)
  {
    if a != [] {
      assert (a + b)[0] == a[0] && (a + b)[1..] == a[1..] + b;
      RemovePunctuationConcat(a[1..], b);
      var head := if IsPunctuation(a[0]) then [] else [a[0]];
      assert RemovePunctuation(a + b) == head + (RemovePunctuation(a[1..]) + RemovePunctuation(b));
    } else {
      assert a + b == b;
    }
  }

  /** Text without punctuation comes through unchanged; in particular
      stripping is idempotent. */
  lemma {:induction false} RemovePunctuationKeeps(text: string)
    requires forall i :: 0 <= i < |text| ==> !IsPunctuation(text[i])
    ensures RemovePunctuation(text) == text
  {
    if text != [] {
      RemovePunctuationKeeps(text[1..]);
    }
  }

  lemma RemovePunctuationIdempotent(text: string)
    ensures RemovePunctuation(RemovePunctuation(text)) == RemovePunctuation(text)
  {
    RemovePunctuationKeeps(RemovePunctuation(text));
  }

  /** Two words joined by a full stop and no space become one token. */
  lemma RemovePunctuationJoinsWords()
    ensures RemovePunctuation("a.b") == "ab"
  {
    assert "a.b" == "a" + ".b";
    RemovePunctuationConcat("a", ".b");
  }

  /** A token: non-empty, and free of whitespace. */
  predicate IsWord(w: string) {
    w != [] && forall j :: 0 <= j < |w| ==> !IsWhitespace(w[j])
  }

  /** The length of the run of non-whitespace at the start of `s`. */
  function WordLength(s: string): (n: nat)
    ensures n <= |s|
    ensures forall i :: 0 <= i < n ==> !IsWhitespace(s[i])
    ensures n < |s| ==> IsWhitespace(s[n])
  {
    if s == [] || IsWhitespace(s[0]) then 0 else 1 + WordLength(s[1..])
  }

  lemma WordLengthUnique(s: string, n: nat)
    requires n <= |s|
    requires forall i :: 0 <= i < n ==> !IsWhitespace(s[i])
    requires n < |s| ==> IsWhitespace(s[n])
    ensures WordLength(s) == n
  {
  }

  /** `str.split()` with no separator: the maximal runs of non-whitespace,
      left to right; leading, trailing and repeated whitespace yield no
      empty pieces. */
  function Split(s: string): (words: seq<string>)
    ensures forall i :: 0 <= i < |words| ==> IsWord(words[i])
    decreases |s|
  {
    if s == [] then []
    else if IsWhitespace(s[0]) then Split(s[1..])
    else
      var n := WordLength(s);
      [s[..n]] + Split(s[n..])
  }

  /** One whitespace character separates: splitting `a c b` splits `a` and
      `b` independently. */
  lemma {:induction false} SplitAtWhitespace(a: string, c: char, b: string)
    requires IsWhitespace(c)
    ensures Split(a + [c] + b) == Split(a) + Split(b)
    decreases |a|
  {
    var s := a + [c] + b;
    if a == [] {
      assert s[1..] == b;
    } else if IsWhitespace(a[0]) {
      calc {
        Split(s);
        == { assert s[0] == a[0] && s[1..] == a[1..] + [c] + b; }
        Split(a[1..] + [c] + b);
        == { SplitAtWhitespace(a[1..], c, b); }
        Split(a[1..]) + Split(b);
      }
    } else {
      var n := WordLength(a);
      calc {
        Split(s);
        == { assert s[0] == a[0]; WordLengthUnique(s, n); }
        [s[..n]] + Split(s[n..]);
        == { assert s[..n] == a[..n] && s[n..] == a[n..] + [c] + b; }
        [a[..n]] + Split(a[n..] + [c] + b);
        == { SplitAtWhitespace(a[n..], c, b); }
        [a[..n]] + (Split(a[n..]) + Split(b));
        ==
        ([a[..n]] + Split(a[n..])) + Split(b);
      }
    }
  }

  /** A string that is a single word splits into exactly itself. */
  lemma SplitWord(w: string)
    requires IsWord(w)
    ensures Split(w) == [w]
  {
    WordLengthUnique(w, |w|);
    assert w[..|w|] == w;
  }

  /** Text made only of whitespace (including the empty text) has no tokens;
      any other text has at least one. */
  lemma {:induction false} SplitEmpty(s: string)
    ensures Split(s) == [] <==> forall i :: 0 <= i < |s| ==> IsWhitespace(s[i])
  {
    if s != [] && IsWhitespace(s[0]) {
      SplitEmpty(s[1..]);
      assert forall i :: 1 <= i < |s| ==> s[i] == s[1..][i - 1];
    }
  }

  /** The non-whitespace characters of `s`, in order. */
  function NonWhitespace(s: string): (r: string)
    ensures forall i :: 0 <= i < |r| ==> !IsWhitespace(r[i])
  {
    if s == [] then []
    else (if IsWhitespace(s[0]) then [] else [s[0]]) + NonWhitespace(s[1..])
  }

  lemma {:induction false} NonWhitespaceConcat(a: string, b: string)
    ensures NonWhitespace(a + b) == NonWhitespace(a) + NonWhitespace(b)
  {
    if a != [] {
      assert (a + b)[0] == a[0] && (a + b)[1..] == a[1..] + b;
      NonWhitespaceConcat(a[1..], b);
      var head := if IsWhitespace(a[0]) then [] else [a[0]];
      assert NonWhitespace(a + b) == head + (NonWhitespace(a[1..]) + NonWhitespace(b));
    } else {
      assert a + b == b;
    }
  }

  lemma {:induction false} NonWhitespaceKeeps(w: string)
    requires forall i :: 0 <= i < |w| ==> !IsWhitespace(w[i])
    ensures NonWhitespace(w) == w
  {
    if w != [] {
      NonWhitespaceKeeps(w[1..]);
    }
  }

  /** The tokens glued back together. */
  function Concat(words: seq<string>): string {
    if words == [] then [] else words[0] + Concat(words[1..])
  }

  /** Splitting loses exactly the whitespace: every other character ends up
      in some token, in its original order. */
  lemma {:induction false} SplitKeepsText(s: string)
    ensures Concat(Split(s)) == NonWhitespace(s)
    decreases |s|
  {
    if s != [] {
      if IsWhitespace(s[0]) {
        SplitKeepsText(s[1..]);
      } else {
        var n := WordLength(s);
        SplitKeepsText(s[n..]);
        assert s == s[..n] + s[n..];
        NonWhitespaceConcat(s[..n], s[n..]);
        NonWhitespaceKeeps(s[..n]);
        assert ([s[..n]] + Split(s[n..]))[1..] == Split(s[n..]);
      }
    }
  }

  /** `map_reduce` counts the tokens of the punctuation-stripped text. */
  function Tokens(text: string): (words: seq<string>)
    ensures forall i :: 0 <= i < |words| ==> IsWord(words[i])
  {
    Split(RemovePunctuation(text))
  }

  /** Every character of a token is a character of the stripped text. */
  lemma {:induction false} SplitCharsFrom(s: string, i: nat, j: nat)
    requires i < |Split(s)| && j < |Split(s)[i]|
    ensures Split(s)[i][j] in s
    decreases |s|
  {
    if IsWhitespace(s[0]) {
      SplitCharsFrom(s[1..], i, j);
    } else {
      var n := WordLength(s);
      if i > 0 {
        SplitCharsFrom(s[n..], i - 1, j);
      } else {
        assert s[..n][j] == s[j];
      }
    }
  }

  /** Tokens are non-empty and hold neither whitespace nor punctuation. */
  lemma TokenChars(text: string, i: nat, j: nat)
    requires i < |Tokens(text)| && j < |Tokens(text)[i]|
    ensures !IsWhitespace(Tokens(text)[i][j]) && !IsPunctuation(Tokens(text)[i][j])
  {
    SplitCharsFrom(RemovePunctuation(text), i, j);
  }

  /** Text made only of whitespace and punctuation (including the empty
      text) yields no tokens, and any other text yields some. */
  lemma TokensEmpty(text: string)
    ensures Tokens(text) == [] <==>
      forall i :: 0 <= i < |text| ==> IsWhitespace(text[i]) || IsPunctuation(text[i])
  {
    var r := RemovePunctuation(text);
    SplitEmpty(r);
    if forall i :: 0 <= i < |text| ==> IsWhitespace(text[i]) || IsPunctuation(text[i]) {
      forall i | 0 <= i < |r| ensures IsWhitespace(r[i]) {
        RemovePunctuationCounts(text, r[i]);
        assert r[i] in multiset(r);
        assert r[i] in multiset(text);
        assert r[i] in text;
      }
    } else {
      var k :| 0 <= k < |text| && !IsWhitespace(text[k]) && !IsPunctuation(text[k]);
      RemovePunctuationCounts(text, text[k]);
      assert text[k] in multiset(text);
      assert text[k] in multiset(r);
      assert text[k] in r;
    }
  }

  /** Python's `" ".join(words)`. */
  function JoinWithSpace(words: seq<string>): string {
    if words == [] then []
    else if |words| == 1 then words[0]
    else words[0] + [' '] + JoinWithSpace(words[1..])
  }

  /** Splitting inverts joining with a space, for any list of words. */
  lemma {:induction false} SplitJoin(words: seq<string>)
    requires forall i :: 0 <= i < |words| ==> IsWord(words[i])
    ensures Split(JoinWithSpace(words)) == words
  {
    if |words| == 1 {
      SplitWord(words[0]);
    } else if |words| > 1 {
      SplitAtWhitespace(words[0], ' ', JoinWithSpace(words[1..]));
      SplitWord(words[0]);
      SplitJoin(words[1..]);
    }
  }

  /** Matching is case-sensitive: "A" and "a" stay two tokens, and the
      trailing full stop is dropped. */
  lemma TokensExample()
    ensures Tokens("A a.") == ["A", "a"]
  {
    assert RemovePunctuation("A a.") == "A a" by {
      assert "A a." == "A a" + ".";
      RemovePunctuationConcat("A a", ".");
      RemovePunctuationKeeps("A a");
    }
    assert JoinWithSpace(["A", "a"]) == "A a";
    SplitJoin(["A", "a"]);
  }
}
