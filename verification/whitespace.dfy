/**
 Whitespace cleaning and splitting as the noisy WordPiece tokenizer's nested
 `whitespace_tokenize` does it: strip the text, return no words when nothing is
 left, otherwise split on runs of whitespace. Strings are sequences of Unicode
 scalar values; the lone surrogates a Python `str` may also hold cannot be
 represented, and since none of them is whitespace nothing here depends on
 them.
 */
module Whitespace {

  /** The characters Python's `str.isspace()` accepts; `str.strip()` and
      `str.split()` without arguments use exactly this set. */
  predicate IsSpace(c: char) {
    || ('\t' <= c <= '\r')
    || ('\U{1C}' <= c <= ' ')
    || c == '\U{85}'
    || c == '\U{A0}'
    || c == '\U{1680}'
    || ('\U{2000}' <= c <= '\U{200A}')
    || c == '\U{2028}'
    || c == '\U{2029}'
    || c == '\U{202F}'
    || c == '\U{205F}'
    || c == '\U{3000}'
  }

  /** Every character of `s` is whitespace (the empty string included). */
  predicate IsBlank(s: string) {
    forall i :: 0 <= i < |s| ==> IsSpace(s[i])
  }

  /** A word as `str.split()` produces it: non-empty, no whitespace inside. */
  predicate IsWord(w: string) {
    |w| > 0 && forall i :: 0 <= i < |w| ==> !IsSpace(w[i])
  }

  /** `t` is the part of `s` from index `i` on, with only whitespace before
      and after it. */
  predicate IsWindow(s: string, t: string, i: nat)
    requires i <= |s| - |t|
  {
    && t == s[i..i + |t|]
    && IsBlank(s[..i])
    && IsBlank(s[i + |t|..])
  }

  /** Removes leading whitespace: the result is a suffix of `s`, every
      character removed is whitespace, and the result does not start with
      whitespace. */
  function TrimLeft(s: string): (t: string)
    ensures |t| <= |s| && t == s[|s| - |t|..]
    ensures forall i :: 0 <= i < |s| - |t| ==> IsSpace(s[i])
    ensures |t| == 0 || !IsSpace(t[0])
    decreases |s|
  {
    if |s| > 0 && IsSpace(s[0]) then
      var t := TrimLeft(s[1..]);
      assert forall i :: 1 <= i < |s| ==> s[i] == s[1..][i - 1];
      t
    else
      s
  }

  /** Removes trailing whitespace: the result is a prefix of `s`, every
      character removed is whitespace, and the result does not end with
      whitespace. */
  function TrimRight(s: string): (t: string)
    ensures |t| <= |s| && t == s[..|t|]
    ensures forall i :: |t| <= i < |s| ==> IsSpace(s[i])
    ensures |t| == 0 || !IsSpace(t[|t| - 1])
    decreases |s|
  {
    if |s| > 0 && IsSpace(s[|s| - 1]) then
      TrimRight(s[..|s| - 1])
    else
      s
  }

  /** Python's `str.strip()` with no argument. */
  function Strip(s: string): (t: string)
    ensures |t| == 0 || (!IsSpace(t[0]) && !IsSpace(t[|t| - 1]))
    ensures |t| == 0 <==> IsBlank(s)
    ensures exists i :: 0 <= i <= |s| - |t| && IsWindow(s, t, i)
  {
    var l := TrimLeft(s);
    var t := TrimRight(l);
    StripWindow(s, l, t);
    t
  }

  /** Trimming the left and then the right leaves a window of `s` with only
      whitespace on either side. */
  lemma StripWindow(s: string, l: string, t: string)
    requires |l| <= |s| && l == s[|s| - |l|..]
    requires forall i :: 0 <= i < |s| - |l| ==> IsSpace(s[i])
    requires |l| == 0 || !IsSpace(l[0])
    requires |t| <= |l| && t == l[..|t|]
    requires forall i :: |t| <= i < |l| ==> IsSpace(l[i])
    requires |t| == 0 || !IsSpace(t[|t| - 1])
    ensures |t| == 0 || (!IsSpace(t[0]) && !IsSpace(t[|t| - 1]))
    ensures |t| == 0 <==> IsBlank(s)
    ensures |s| - |l| <= |s| - |t| && IsWindow(s, t, |s| - |l|)
  {
    if |t| == 0 {
      assert |l| == 0;
    }
    var i := |s| - |l|;
    assert t == s[i..i + |t|];
    assert IsBlank(s[..i]);
    assert IsBlank(s[i + |t|..]) by {
      assert s[i + |t|..] == l[|t|..];
    }
  }

  /** Length of the longest whitespace-free prefix of `s`. */
  function WordEnd(s: string): (n: nat)
    ensures n <= |s|
    ensures forall i :: 0 <= i < n ==> !IsSpace(s[i])
    ensures n == |s| || IsSpace(s[n])
    decreases |s|
  {
    if |s| == 0 || IsSpace(s[0]) then 0
    else
      var n := 1 + WordEnd(s[1..]);
      assert forall i :: 1 <= i < n ==> s[i] == s[1..][i - 1];
      n
  }

  /** Python's `str.split()` with no argument: the maximal runs of
      non-whitespace characters, in order. */
  function Split(s: string): (ws: seq<string>)
    ensures forall i :: 0 <= i < |ws| ==> IsWord(ws[i])
    decreases |s|
  {
    if |s| == 0 then []
    else if IsSpace(s[0]) then Split(s[1..])
    else
      var n := WordEnd(s);
      [s[..n]] + Split(s[n..])
  }

  /** The nested `whitespace_tokenize` of the tokenizer. */
  function WhitespaceTokenize(text: string): seq<string> {
    var t := Strip(text);
    if |t| == 0 then [] else Split(t)
  }

  /** The words joined with one space between neighbours. */
  function Join(ws: seq<string>): string {
    if |ws| == 0 then ""
    else if |ws| == 1 then ws[0]
    else ws[0] + " " + Join(ws[1..])
  }

  /** The words concatenated with nothing between them. */
  function Flatten(ws: seq<string>): string {
    if |ws| == 0 then "" else ws[0] + Flatten(ws[1..])
  }

  /** The non-whitespace characters of `s`, in order. */
  function NonSpace(s: string): string {
    if |s| == 0 then ""
    else (if IsSpace(s[0]) then "" else [s[0]]) + NonSpace(s[1..])
  }

  // ---------------------------------------------------------------------------
  // Lemmas

  /** `WordEnd` is the first whitespace position: any `n` with its defining
      properties is it. */
  lemma WordEndIsFirstSpace(s: string, n: nat)
    requires n <= |s|
    requires forall i :: 0 <= i < n ==> !IsSpace(s[i])
    requires n == |s| || IsSpace(s[n])
    ensures WordEnd(s) == n
  {
  }

  lemma {:induction false} NonSpaceAppend(a: string, b: string)
    ensures NonSpace(a + b) == NonSpace(a) + NonSpace(b)
    decreases |a|
  {
    if |a| == 0 {
      assert a + b == b;
    } else {
      assert (a + b)[1..] == a[1..] + b;
      NonSpaceAppend(a[1..], b);
    }
  }

  lemma {:induction false} NonSpaceOfWord(w: string)
    requires forall i :: 0 <= i < |w| ==> !IsSpace(w[i])
    ensures NonSpace(w) == w
    decreases |w|
  {
    if |w| > 0 {
      NonSpaceOfWord(w[1..]);
    }
  }

  /** Splitting loses exactly the whitespace: the words, concatenated, are
      the non-whitespace characters of the input in their original order. */
  lemma {:induction false} SplitKeepsContent(s: string)
    ensures Flatten(Split(s)) == NonSpace(s)
    decreases |s|
  {
    if |s| > 0 {
      if IsSpace(s[0]) {
        SplitKeepsContent(s[1..]);
      } else {
        var n := WordEnd(s);
        assert s == s[..n] + s[n..];
        NonSpaceAppend(s[..n], s[n..]);
        NonSpaceOfWord(s[..n]);
        SplitKeepsContent(s[n..]);
        assert Split(s)[1..] == Split(s[n..]);
      }
    }
  }

  /** A text splits into no words exactly when it is all whitespace. */
  lemma {:induction false} SplitEmptyIffBlank(s: string)
    ensures Split(s) == [] <==> IsBlank(s)
    decreases |s|
  {
    if |s| > 0 && IsSpace(s[0]) {
      SplitEmptyIffBlank(s[1..]);
      if IsBlank(s[1..]) {
        forall i | 0 <= i < |s| ensures IsSpace(s[i]) {
          if i > 0 { assert s[i] == s[1..][i - 1]; }
        }
      }
    }
  }

  lemma {:induction false} WordEndOfWordThenSpace(w: string, rest: string)
    requires IsWord(w)
    requires |rest| == 0 || IsSpace(rest[0])
    ensures WordEnd(w + rest) == |w|
  {
    WordEndIsFirstSpace(w + rest, |w|);
  }

  /** Round trip: splitting the words joined by single spaces gives the
      words back. */
  lemma {:induction false} SplitJoin(ws: seq<string>)
    requires forall i :: 0 <= i < |ws| ==> IsWord(ws[i])
    ensures Split(Join(ws)) == ws
    decreases |ws|
  {
    if |ws| == 1 {
      var w := ws[0];
      WordEndOfWordThenSpace(w, "");
      assert w + "" == w;
      assert w[|w|..] == "";
    } else if |ws| > 1 {
      var w := ws[0];
      var rest := " " + Join(ws[1..]);
      assert Join(ws) == w + rest;
      WordEndOfWordThenSpace(w, rest);
      assert (w + rest)[..|w|] == w;
      assert (w + rest)[|w|..] == rest;
      assert rest[1..] == Join(ws[1..]);
      SplitJoin(ws[1..]);
    }
  }

  /** A whitespace-free non-empty text is one word. */
  lemma SplitOfWord(w: string)
    requires IsWord(w)
    ensures Split(w) == [w]
  {
    WordEndIsFirstSpace(w, |w|);
    assert w[..|w|] == w;
    assert w[|w|..] == [];
  }

  /** Splitting cuts at every whitespace character: the words of `a`, a
      whitespace character, then `b` are the words of `a` followed by those
      of `b`. With `SplitOfWord` and `Split("") == []` this makes the words
      exactly the maximal whitespace-free runs of any text. */
  lemma SplitAtSpace(a: string, c: char, b: string)
    requires IsSpace(c)
    ensures Split(a + [c] + b) == Split(a) + Split(b)
  {
    var t := [c] + b;
    SplitAppend(a, t);
    assert a + [c] + b == a + t;
    assert t[1..] == b;
  }

  /** A text that starts with whitespace adds its words after those of
      whatever comes before it. */
  lemma {:induction false} SplitAppend(a: string, t: string)
    requires |t| > 0 && IsSpace(t[0])
    ensures Split(a + t) == Split(a) + Split(t)
    decreases |a|
  {
    if |a| == 0 {
      assert a + t == t;
    } else if IsSpace(a[0]) {
      assert (a + t)[1..] == a[1..] + t;
      SplitAppend(a[1..], t);
    } else {
      var k := WordEnd(a);
      SplitAppend(a[k..], t);
      SplitAppendAfterWord(a, t);
    }
  }

  /** The step of `SplitAppend` past the first word of `a`, which ends
      inside `a` or right before `t`. */
  lemma SplitAppendAfterWord(a: string, t: string)
    requires |t| > 0 && IsSpace(t[0]) && |a| > 0 && !IsSpace(a[0])
    requires Split(a[WordEnd(a)..] + t) == Split(a[WordEnd(a)..]) + Split(t)
    ensures Split(a + t) == Split(a) + Split(t)
  {
    var k := WordEnd(a);
    var w := a[..k];
    SplitAppendFirstWord(a, t);
    SplitFirstWord(a, k, w, a[k..]);
    CutAfterFirst(Split(a + t), w, Split(a[k..] + t), Split(a[k..]), Split(t), Split(a));
  }

  /** The first word of `a` is also the first word of `a + t` when `t`
      starts with whitespace. */
  lemma SplitAppendFirstWord(a: string, t: string)
    requires |t| > 0 && IsSpace(t[0]) && |a| > 0 && !IsSpace(a[0])
    ensures Split(a + t) == [a[..WordEnd(a)]] + Split(a[WordEnd(a)..] + t)
  {
    var k := WordEnd(a);
    var s := a + t;
    assert forall i :: 0 <= i < k ==> s[i] == a[i];
    assert s[k] == if k < |a| then a[k] else t[0];
    assert s[..k] == a[..k];
    assert s[k..] == a[k..] + t;
    SplitFirstWord(s, k, a[..k], a[k..] + t);
  }

  /** Regroups `[w] + (rest + tail)` as `([w] + rest) + tail`. Stated over
      plain sequences so that the regrouping is proved away from any `Split`
      term, whose unfolding makes the solver loop. */
  lemma CutAfterFirst<T>(whole: seq<T>, w: T, restWhole: seq<T>, rest: seq<T>, tail: seq<T>, left: seq<T>)
    requires whole == [w] + restWhole && restWhole == rest + tail && left == [w] + rest
    ensures whole == left + tail
  {
  }

  /** A text that starts with a word splits into that word and the words
      of what follows it. */
  lemma SplitFirstWord(s: string, k: nat, w: string, rest: string)
    requires |s| > 0 && !IsSpace(s[0])
    requires k <= |s| && (forall i :: 0 <= i < k ==> !IsSpace(s[i])) && (k == |s| || IsSpace(s[k]))
    requires w == s[..k] && rest == s[k..]
    ensures Split(s) == [w] + Split(rest)
  {
    WordEndIsFirstSpace(s, k);
  }

  /** Leading whitespace does not change the words. */
  lemma {:induction false} SplitDropsLeadingSpace(s: string)
    ensures Split(TrimLeft(s)) == Split(s)
    decreases |s|
  {
    if |s| > 0 && IsSpace(s[0]) {
      SplitDropsLeadingSpace(s[1..]);
    }
  }

  /** One trailing whitespace character does not change the words. */
  lemma {:induction false} SplitDropsLastSpace(s: string)
    requires |s| > 0 && IsSpace(s[|s| - 1])
    ensures Split(s[..|s| - 1]) == Split(s)
    decreases |s|, 1
  {
    if |s| == 1 {
      assert Split(s) == Split(s[1..]);
    } else if IsSpace(s[0]) {
      var p := s[..|s| - 1];
      assert p[1..] == s[1..][..|s[1..]| - 1];
      SplitDropsLastSpace(s[1..]);
    } else {
      SplitDropsLastSpaceAfterWord(s);
    }
  }

  /** The case of `SplitDropsLastSpace` where `s` starts with a word: the
      word ends before the trailing whitespace, so dropping that character
      only shortens the text after the word. */
  lemma {:induction false} SplitDropsLastSpaceAfterWord(s: string)
    requires |s| > 1 && IsSpace(s[|s| - 1]) && !IsSpace(s[0])
    ensures Split(s[..|s| - 1]) == Split(s)
    decreases |s|, 0
  {
    var p := s[..|s| - 1];
    var n := WordEnd(s);
    WordEndIsFirstSpace(p, n);
    assert p[..n] == s[..n];
    assert p[n..] == s[n..][..|s[n..]| - 1];
    SplitDropsLastSpace(s[n..]);
  }

  /** Trailing whitespace does not change the words. */
  lemma {:induction false} SplitDropsTrailingSpace(s: string)
    ensures Split(TrimRight(s)) == Split(s)
    decreases |s|
  {
    if |s| > 0 && IsSpace(s[|s| - 1]) {
      SplitDropsLastSpace(s);
      SplitDropsTrailingSpace(s[..|s| - 1]);
    }
  }

  /** The strip before the split is redundant: `whitespace_tokenize` returns
      exactly the `str.split()` words, and none exactly when the text is
      blank. */
  lemma WhitespaceTokenizeIsSplit(text: string)
    ensures WhitespaceTokenize(text) == Split(text)
    ensures WhitespaceTokenize(text) == [] <==> IsBlank(text)
  {
    SplitDropsLeadingSpace(text);
    SplitDropsTrailingSpace(TrimLeft(text));
    SplitEmptyIffBlank(text);
    if |Strip(text)| == 0 {
      SplitEmptyIffBlank(Strip(text));
    }
  }
}
