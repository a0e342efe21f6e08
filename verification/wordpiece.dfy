/**
 The noisy WordPiece tokenizer (`tokenize` in preprocessor.py) as pure
 functions. Each whitespace-separated word is cut greedily, longest match
 first, into vocabulary pieces; pieces after the first carry the "##"
 continuation marker. Every vocabulary hit is kept only when a uniform draw
 exceeds 0.1, so a hit can be refused and the scan falls back to a shorter
 candidate. A word that cannot be cut, or is too long, becomes one unknown
 token.

 The global random source becomes an explicit oracle: `draws(i)` is the value
 of the i-th call to `random()`, and every function threads `pos`, the number
 of draws taken so far. A draw is taken only for a candidate that is in the
 vocabulary, because the source's `and` short-circuits.
 */
module WordPiece {
  import opened Whitespace

  datatype Option<T> = None | Some(value: T)

  /** What a tokenizer instance carries: its vocabulary (only membership is
      used), the longest word it will cut, and the unknown token. */
  datatype Config = Config(vocab: set<string>, maxInputCharsPerWord: int, unkToken: string)

  /** The uniform source, indexed by how many values have been drawn. */
  type Draws = nat -> real

  const ContinuationMarker: string := "##"

  /** A vocabulary hit is refused when its draw is at most this value. */
  const RejectProbability: real := 0.1

  predicate Accepts(draw: real) {
    draw > RejectProbability
  }

  /** The string looked up for `word[start..end]`: pieces that do not start
      the word get the continuation marker. */
  function Candidate(word: string, start: nat, end: nat): string
    requires start < end <= |word|
  {
    if start > 0 then ContinuationMarker + word[start..end] else word[start..end]
  }

  /** How many of the candidates `word[start..e]` with `lo < e <= end` are in
      the vocabulary: the draws a scan from `end` down to `lo + 1` takes. */
  function Hits(vocab: set<string>, word: string, start: nat, lo: nat, end: nat): (n: nat)
    requires start <= lo <= end <= |word|
    ensures n <= end - lo
    decreases end - lo
  {
    if end == lo then 0
    else (if Candidate(word, start, end) in vocab then 1 else 0) + Hits(vocab, word, start, lo, end - 1)
  }

  /** Outcome of the inner scan at one cursor: the end of the accepted piece,
      if any, and the draw position afterwards. */
  datatype Match = Match(end: Option<nat>, pos: nat)

  /** The inner loop: try `end`, `end - 1`, ..., `start + 1` and stop at the
      first candidate that is in the vocabulary and whose draw accepts it. */
  function LongestAccepted(vocab: set<string>, draws: Draws, word: string, start: nat, end: nat, pos: nat): (m: Match)
    requires start <= end <= |word|
    ensures m.end.Some? ==> start < m.end.value <= end
    ensures pos <= m.pos <= pos + (end - start)
    decreases end
  {
    if end == start then Match(None, pos)
    else if Candidate(word, start, end) in vocab then
      if Accepts(draws(pos)) then Match(Some(end), pos + 1)
      else LongestAccepted(vocab, draws, word, start, end - 1, pos + 1)
    else LongestAccepted(vocab, draws, word, start, end - 1, pos)
  }

  /** Outcome of cutting a word from a cursor on: the pieces, or None when
      some cursor found no accepted candidate, and the draw position. */
  datatype Scan = Scan(pieces: Option<seq<string>>, pos: nat)

  /** Triangular numbers: `Tri(n)` is 1 + 2 + ... + n. */
  function Tri(n: nat): nat {
    if n == 0 then 0 else n + Tri(n - 1)
  }

  /** The outer loop from cursor `start`: accept a piece, move the cursor to
      its end, repeat until the word is used up or a cursor fails. A word of
      n characters takes at most 1 + 2 + ... + n draws. */
  function ScanFrom(vocab: set<string>, draws: Draws, word: string, start: nat, pos: nat): (r: Scan)
    requires start <= |word|
    ensures pos <= r.pos <= pos + Tri(|word| - start)
    decreases |word| - start
  {
    if start == |word| then Scan(Some([]), pos)
    else
      var m := LongestAccepted(vocab, draws, word, start, |word|, pos);
      match m.end
      case None => Scan(None, m.pos)
      case Some(e) =>
        var rest := ScanFrom(vocab, draws, word, e, m.pos);
        TriMonotone(|word| - e, |word| - start - 1);
        match rest.pieces
        case None => Scan(None, rest.pos)
        case Some(ps) => Scan(Some([Candidate(word, start, e)] + ps), rest.pos)
  }

  /** Tokens produced so far and the draw position after producing them. */
  datatype Tokenized = Tokenized(tokens: seq<string>, pos: nat)

  /** One word: the unknown token when it is too long or cannot be cut,
      otherwise its pieces. */
  function TokenizeWord(cfg: Config, draws: Draws, word: string, pos: nat): Tokenized {
    if |word| > cfg.maxInputCharsPerWord then Tokenized([cfg.unkToken], pos)
    else
      var s := ScanFrom(cfg.vocab, draws, word, 0, pos);
      match s.pieces
      case None => Tokenized([cfg.unkToken], s.pos)
      case Some(ps) => Tokenized(ps, s.pos)
  }

  /** The words one after another, each starting where the previous one left
      the draws. */
  function TokenizeWords(cfg: Config, draws: Draws, words: seq<string>, pos: nat): Tokenized
    decreases |words|
  {
    if |words| == 0 then Tokenized([], pos)
    else
      var first := TokenizeWord(cfg, draws, words[0], pos);
      var rest := TokenizeWords(cfg, draws, words[1..], first.pos);
      Tokenized(first.tokens + rest.tokens, rest.pos)
  }

  /** The patched `tokenize(self, text)`. */
  function Tokenize(cfg: Config, draws: Draws, text: string, pos: nat): Tokenized {
    TokenizeWords(cfg, draws, WhitespaceTokenize(text), pos)
  }

  // ---------------------------------------------------------------------------
  // Segmentations

  /** A piece that carries the continuation marker and something after it. */
  predicate IsContinuation(p: string) {
    |p| > |ContinuationMarker| && p[..|ContinuationMarker|] == ContinuationMarker
  }

  /** A piece with its leading continuation marker removed, if it has one. */
  function StripMarker(p: string): string {
    if |p| >= |ContinuationMarker| && p[..|ContinuationMarker|] == ContinuationMarker
    then p[|ContinuationMarker|..]
    else p
  }

  /** Continuation pieces joined back, markers removed. */
  function JoinContinuations(ps: seq<string>): string {
    if |ps| == 0 then "" else StripMarker(ps[0]) + JoinContinuations(ps[1..])
  }

  /** The word a sequence of pieces spells: the first piece as it is, the
      others without their marker. */
  function Detokenize(ps: seq<string>): string {
    if |ps| == 0 then "" else ps[0] + JoinContinuations(ps[1..])
  }

  /** Pieces that are all continuation pieces from the vocabulary and spell
      `suffix` once their markers are removed. */
  predicate IsContinuationRun(vocab: set<string>, suffix: string, ps: seq<string>) {
    && (forall i :: 0 <= i < |ps| ==> ps[i] in vocab && IsContinuation(ps[i]))
    && JoinContinuations(ps) == suffix
  }

  /** A complete cut of `word` into vocabulary pieces: a non-empty first piece
      without an added marker, continuation pieces after it, and together
      they spell the word. */
  predicate IsSegmentation(vocab: set<string>, word: string, ps: seq<string>) {
    && (forall i :: 0 <= i < |ps| ==> ps[i] in vocab)
    && (|ps| > 0 ==> |ps[0]| > 0)
    && (forall i :: 1 <= i < |ps| ==> IsContinuation(ps[i]))
    && Detokenize(ps) == word
  }

  // ---------------------------------------------------------------------------
  // Lemmas

  lemma {:induction false} TriMonotone(a: nat, b: nat)
    requires a <= b
    ensures Tri(a) <= Tri(b)
    decreases b
  {
    if a < b {
      TriMonotone(a, b - 1);
    }
  }

  /** Every vocabulary hit `word[start..e']` with `e < e' <= end` had its
      draw refuse it, when the scan from `end` started at draw `pos`. */
  ghost predicate RefusedAbove(vocab: set<string>, draws: Draws, word: string, start: nat, e: nat, end: nat, pos: nat)
    requires start <= e <= end <= |word|
  {
    forall e' :: e < e' <= end && Candidate(word, start, e') in vocab ==>
      !Accepts(draws(pos + Hits(vocab, word, start, e', end)))
  }

  /** The piece `word[start..e]` was accepted by a scan from `end` that
      started at draw `pos` and left the draws at `pos'`: it is a vocabulary
      hit, its draw accepted it, every longer hit had its draw refuse it, and
      one draw was taken per hit tried. */
  ghost predicate AcceptedAt(vocab: set<string>, draws: Draws, word: string, start: nat, e: nat, end: nat, pos: nat, pos': nat)
    requires start < e <= end <= |word|
  {
    && Candidate(word, start, e) in vocab
    && Accepts(draws(pos + Hits(vocab, word, start, e, end)))
    && pos' == pos + Hits(vocab, word, start, e - 1, end)
    && RefusedAbove(vocab, draws, word, start, e, end, pos)
  }

  /** A scan from `end` accepted nothing: every hit had its draw refuse it,
      and one draw was taken per hit. */
  ghost predicate NoneAccepted(vocab: set<string>, draws: Draws, word: string, start: nat, end: nat, pos: nat, pos': nat)
    requires start <= end <= |word|
  {
    && pos' == pos + Hits(vocab, word, start, start, end)
    && RefusedAbove(vocab, draws, word, start, start, end, pos)
  }

  lemma RefusedAboveStep(vocab: set<string>, draws: Draws, word: string, start: nat, e: nat, end: nat, pos: nat)
    requires start <= e < end <= |word|
    requires Candidate(word, start, end) in vocab ==> !Accepts(draws(pos))
    requires RefusedAbove(vocab, draws, word, start, e, end - 1,
                          if Candidate(word, start, end) in vocab then pos + 1 else pos)
    ensures RefusedAbove(vocab, draws, word, start, e, end, pos)
  {
    var hit := if Candidate(word, start, end) in vocab then 1 else 0;
    forall e' | e < e' <= end && Candidate(word, start, e') in vocab
      ensures !Accepts(draws(pos + Hits(vocab, word, start, e', end)))
    {
      if e' < end {
        assert Hits(vocab, word, start, e', end) == hit + Hits(vocab, word, start, e', end - 1);
      }
    }
  }

  /** Refusing the candidate at `end` and accepting one below it is
      accepting that one from `end`. */
  lemma AcceptedAtStep(vocab: set<string>, draws: Draws, word: string, start: nat, e: nat, end: nat, pos: nat, pos': nat)
    requires start < e < end <= |word|
    requires Candidate(word, start, end) in vocab ==> !Accepts(draws(pos))
    requires AcceptedAt(vocab, draws, word, start, e, end - 1,
                        if Candidate(word, start, end) in vocab then pos + 1 else pos, pos')
    ensures AcceptedAt(vocab, draws, word, start, e, end, pos, pos')
  {
    var hit := if Candidate(word, start, end) in vocab then 1 else 0;
    assert Hits(vocab, word, start, e, end) == hit + Hits(vocab, word, start, e, end - 1);
    assert Hits(vocab, word, start, e - 1, end) == hit + Hits(vocab, word, start, e - 1, end - 1);
    RefusedAboveStep(vocab, draws, word, start, e, end, pos);
  }

  /** Refusing the candidate at `end` and accepting nothing below it is
      accepting nothing from `end`. */
  lemma NoneAcceptedStep(vocab: set<string>, draws: Draws, word: string, start: nat, end: nat, pos: nat, pos': nat)
    requires start < end <= |word|
    requires Candidate(word, start, end) in vocab ==> !Accepts(draws(pos))
    requires NoneAccepted(vocab, draws, word, start, end - 1,
                          if Candidate(word, start, end) in vocab then pos + 1 else pos, pos')
    ensures NoneAccepted(vocab, draws, word, start, end, pos, pos')
  {
    var hit := if Candidate(word, start, end) in vocab then 1 else 0;
    assert Hits(vocab, word, start, start, end) == hit + Hits(vocab, word, start, start, end - 1);
    RefusedAboveStep(vocab, draws, word, start, start, end, pos);
  }

  /** The inner loop exactly: an accepted end is a vocabulary hit whose draw
      accepts it; every longer candidate in the vocabulary had its draw
      refuse it; and the draws taken are exactly the vocabulary hits tried. */
  lemma {:induction false} LongestAcceptedSpec(vocab: set<string>, draws: Draws, word: string, start: nat, end: nat, pos: nat)
    requires start <= end <= |word|
    ensures var m := LongestAccepted(vocab, draws, word, start, end, pos);
      && (m.end.Some? ==> start < m.end.value <= end
                          && AcceptedAt(vocab, draws, word, start, m.end.value, end, pos, m.pos))
      && (m.end.None? ==> NoneAccepted(vocab, draws, word, start, end, pos, m.pos))
    decreases end
  {
    if end > start {
      var hit := Candidate(word, start, end) in vocab;
      var p' := if hit then pos + 1 else pos;
      if hit && Accepts(draws(pos)) {
        assert Hits(vocab, word, start, end, end) == 0;
        assert Hits(vocab, word, start, end - 1, end) == 1;
      } else {
        var m := LongestAccepted(vocab, draws, word, start, end - 1, p');
        LongestAcceptedSpec(vocab, draws, word, start, end - 1, p');
        if m.end.Some? {
          AcceptedAtStep(vocab, draws, word, start, m.end.value, end, pos, m.pos);
        } else {
          NoneAcceptedStep(vocab, draws, word, start, end, pos, m.pos);
        }
      }
    }
  }

  /** An accepted piece is always a vocabulary entry. */
  lemma {:induction false} AcceptedInVocab(vocab: set<string>, draws: Draws, word: string, start: nat, end: nat, pos: nat)
    requires start <= end <= |word|
    ensures var m := LongestAccepted(vocab, draws, word, start, end, pos);
      m.end.Some? ==> Candidate(word, start, m.end.value) in vocab
  {
    LongestAcceptedSpec(vocab, draws, word, start, end, pos);
  }

  /** A continuation piece for `word[start..e]` in front of a run spelling
      `word[e..]` makes a run spelling `word[start..]`. */
  lemma ContinuationRunCons(vocab: set<string>, word: string, start: nat, e: nat, ps: seq<string>)
    requires 0 < start < e <= |word|
    requires Candidate(word, start, e) in vocab
    requires IsContinuationRun(vocab, word[e..], ps)
    ensures IsContinuationRun(vocab, word[start..], [Candidate(word, start, e)] + ps)
  {
    var c := Candidate(word, start, e);
    assert c == ContinuationMarker + word[start..e];
    assert c[..|ContinuationMarker|] == ContinuationMarker;
    assert StripMarker(c) == word[start..e];
    assert ([c] + ps)[1..] == ps;
    assert word[start..] == word[start..e] + word[e..];
  }

  /** Cutting from a cursor past the start yields continuation pieces from
      the vocabulary that spell the rest of the word. */
  lemma {:induction false} ScanFromContinues(vocab: set<string>, draws: Draws, word: string, start: nat, pos: nat)
    requires 0 < start <= |word|
    ensures var r := ScanFrom(vocab, draws, word, start, pos);
      r.pieces.Some? ==> IsContinuationRun(vocab, word[start..], r.pieces.value)
    decreases |word| - start
  {
    if start < |word| {
      var m := LongestAccepted(vocab, draws, word, start, |word|, pos);
      AcceptedInVocab(vocab, draws, word, start, |word|, pos);
      if m.end.Some? {
        var e := m.end.value;
        var rest := ScanFrom(vocab, draws, word, e, m.pos);
        ScanFromContinues(vocab, draws, word, e, m.pos);
        if rest.pieces.Some? {
          ContinuationRunCons(vocab, word, start, e, rest.pieces.value);
        }
      }
    }
  }

  /** A word whose scan succeeds is cut into a complete segmentation. */
  lemma ScanSegments(vocab: set<string>, draws: Draws, word: string, pos: nat)
    ensures var r := ScanFrom(vocab, draws, word, 0, pos);
      r.pieces.Some? ==> IsSegmentation(vocab, word, r.pieces.value)
  {
    var r := ScanFrom(vocab, draws, word, 0, pos);
    if 0 < |word| && r.pieces.Some? {
      var m := LongestAccepted(vocab, draws, word, 0, |word|, pos);
      var e := m.end.value;
      AcceptedInVocab(vocab, draws, word, 0, |word|, pos);
      var rest := ScanFrom(vocab, draws, word, e, m.pos);
      ScanFromContinues(vocab, draws, word, e, m.pos);
      var ps := r.pieces.value;
      assert ps[1..] == rest.pieces.value;
      assert word == word[..e] + word[e..];
    }
  }

  /** The pieces of a segmentation, less their markers, add up to the word,
      and none of them is empty apart from the marker. */
  lemma {:induction false} JoinContinuationsLength(ps: seq<string>)
    requires forall i :: 0 <= i < |ps| ==> IsContinuation(ps[i])
    ensures |JoinContinuations(ps)| >= |ps|
    decreases |ps|
  {
    if |ps| > 0 {
      JoinContinuationsLength(ps[1..]);
    }
  }

  /** Every segmentation of a word has at most as many pieces as the word has
      characters, and at least one when the word is not empty. */
  lemma SegmentationSize(vocab: set<string>, word: string, ps: seq<string>)
    requires IsSegmentation(vocab, word, ps)
    ensures |word| > 0 <==> |ps| > 0
    ensures |ps| <= |word|
  {
    if |ps| > 0 {
      JoinContinuationsLength(ps[1..]);
    }
  }

  /** The first piece is a prefix of the word, so it begins with the marker
      only when the word itself does. */
  lemma FirstPieceUnmarked(vocab: set<string>, word: string, ps: seq<string>)
    requires IsSegmentation(vocab, word, ps)
    requires |ps| > 0
    requires !(|word| >= |ContinuationMarker| && word[..|ContinuationMarker|] == ContinuationMarker)
    ensures !(|ps[0]| >= |ContinuationMarker| && ps[0][..|ContinuationMarker|] == ContinuationMarker)
  {
  }

  /** What one word contributes: a word longer than the limit gives the
      unknown token and takes no draw; any other word gives either the
      unknown token alone (never part of a cut) or a complete segmentation;
      a word whose scan fails at some cursor gives the unknown token, and a
      word whose scan succeeds gives that scan's pieces, a segmentation; the
      draws taken are those of the scan, whether it succeeds or fails. */
  lemma WordOutcome(cfg: Config, draws: Draws, word: string, pos: nat)
    ensures var r := TokenizeWord(cfg, draws, word, pos);
      && (|word| > cfg.maxInputCharsPerWord ==> r == Tokenized([cfg.unkToken], pos))
      && (r.tokens == [cfg.unkToken]
          || (|word| <= cfg.maxInputCharsPerWord && IsSegmentation(cfg.vocab, word, r.tokens)))
      && (|word| <= cfg.maxInputCharsPerWord && ScanFrom(cfg.vocab, draws, word, 0, pos).pieces.None?
          ==> r.tokens == [cfg.unkToken])
      && (|word| <= cfg.maxInputCharsPerWord && ScanFrom(cfg.vocab, draws, word, 0, pos).pieces.Some?
          ==> r.tokens == ScanFrom(cfg.vocab, draws, word, 0, pos).pieces.value
              && IsSegmentation(cfg.vocab, word, r.tokens))
      && (|word| <= cfg.maxInputCharsPerWord ==> r.pos == ScanFrom(cfg.vocab, draws, word, 0, pos).pos)
      && pos <= r.pos <= pos + Tri(|word|)
  {
    ScanSegments(cfg.vocab, draws, word, pos);
  }

  /** Every token a word contributes is the unknown token or a vocabulary
      entry, and a non-empty word contributes at least one. */
  lemma WordTokens(cfg: Config, draws: Draws, word: string, pos: nat)
    ensures var r := TokenizeWord(cfg, draws, word, pos);
      && (forall t :: t in r.tokens ==> t == cfg.unkToken || t in cfg.vocab)
      && (|word| > 0 ==> |r.tokens| > 0)
  {
    var r := TokenizeWord(cfg, draws, word, pos);
    WordOutcome(cfg, draws, word, pos);
    if r.tokens != [cfg.unkToken] {
      SegmentationSize(cfg.vocab, word, r.tokens);
    }
  }

  /** When every draw refuses, no vocabulary hit is ever kept: each
      non-empty word becomes the unknown token, single characters included. */
  lemma {:induction false} NeverAcceptNoMatch(vocab: set<string>, draws: Draws, word: string, start: nat, end: nat, pos: nat)
    requires forall i :: !Accepts(draws(i))
    requires start <= end <= |word|
    ensures LongestAccepted(vocab, draws, word, start, end, pos).end.None?
    decreases end
  {
    if end > start {
      var p' := if Candidate(word, start, end) in vocab then pos + 1 else pos;
      NeverAcceptNoMatch(vocab, draws, word, start, end - 1, p');
    }
  }

  lemma NeverAcceptGivesUnknown(cfg: Config, draws: Draws, word: string, pos: nat)
    requires forall i :: !Accepts(draws(i))
    requires |word| > 0
    ensures TokenizeWord(cfg, draws, word, pos).tokens == [cfg.unkToken]
  {
    NeverAcceptNoMatch(cfg.vocab, draws, word, 0, |word|, pos);
  }

  /** Word order is kept and words do not interact except through the draw
      position: tokenizing `a + b` is tokenizing `a`, then `b` from where `a`
      left the draws. */
  lemma {:induction false} TokenizeWordsAppend(cfg: Config, draws: Draws, a: seq<string>, b: seq<string>, pos: nat)
    ensures var ra := TokenizeWords(cfg, draws, a, pos);
      var rb := TokenizeWords(cfg, draws, b, ra.pos);
      TokenizeWords(cfg, draws, a + b, pos) == Tokenized(ra.tokens + rb.tokens, rb.pos)
    decreases |a|
  {
    if |a| == 0 {
      assert a + b == b;
    } else {
      var first := TokenizeWord(cfg, draws, a[0], pos);
      assert (a + b)[0] == a[0];
      assert (a + b)[1..] == a[1..] + b;
      TokenizeWordsAppend(cfg, draws, a[1..], b, first.pos);
    }
  }

  /** Every token is the unknown token or a vocabulary entry; every word
      contributes at least one token; the draw position never goes back. */
  lemma {:induction false} WordsTokens(cfg: Config, draws: Draws, words: seq<string>, pos: nat)
    requires forall i :: 0 <= i < |words| ==> IsWord(words[i])
    ensures var r := TokenizeWords(cfg, draws, words, pos);
      && (forall t :: t in r.tokens ==> t == cfg.unkToken || t in cfg.vocab)
      && |r.tokens| >= |words|
      && pos <= r.pos
    decreases |words|
  {
    if |words| > 0 {
      var first := TokenizeWord(cfg, draws, words[0], pos);
      WordTokens(cfg, draws, words[0], pos);
      WordOutcome(cfg, draws, words[0], pos);
      WordsTokens(cfg, draws, words[1..], first.pos);
    }
  }

  /** The whole text: every token is the unknown token or a vocabulary
      entry, there are at least as many tokens as whitespace-separated words,
      and the result is empty exactly when the text is blank, in which case
      no draw is taken; the text's tokens are those of its `str.split()`
      words in order. */
  lemma TokenizeText(cfg: Config, draws: Draws, text: string, pos: nat)
    ensures var r := Tokenize(cfg, draws, text, pos);
      && (forall t :: t in r.tokens ==> t == cfg.unkToken || t in cfg.vocab)
      && |r.tokens| >= |Split(text)|
      && (r.tokens == [] <==> IsBlank(text))
      && (IsBlank(text) ==> r.pos == pos)
      && r == TokenizeWords(cfg, draws, Split(text), pos)
  {
    WhitespaceTokenizeIsSplit(text);
    WordsTokens(cfg, draws, Split(text), pos);
  }
}
