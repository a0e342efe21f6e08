/**
 Standard greedy longest-match-first WordPiece, the deterministic tokenizer
 the noisy one was derived from, and the proof that the noisy tokenizer is
 exactly it when every draw accepts.
 */
module Greedy {
  import opened Whitespace
  import opened WordPiece

  /** The largest `e` in `start + 1 .. end` whose candidate is in the
      vocabulary, or None when there is none. */
  function LongestInVocab(vocab: set<string>, word: string, start: nat, end: nat): (e: Option<nat>)
    requires start <= end <= |word|
    ensures e.Some? ==> start < e.value <= end && Candidate(word, start, e.value) in vocab
    ensures e.Some? ==> forall e' :: e.value < e' <= end ==> Candidate(word, start, e') !in vocab
    ensures e.None? <==> forall e' :: start < e' <= end ==> Candidate(word, start, e') !in vocab
    decreases end
  {
    if end == start then None
    else if Candidate(word, start, end) in vocab then Some(end)
    else LongestInVocab(vocab, word, start, end - 1)
  }

  /** Cut the rest of the word from `start`, each piece the longest
      vocabulary candidate at its cursor. */
  function GreedyScan(vocab: set<string>, word: string, start: nat): Option<seq<string>>
    requires start <= |word|
    decreases |word| - start
  {
    if start == |word| then Some([])
    else
      match LongestInVocab(vocab, word, start, |word|)
      case None => None
      case Some(e) =>
        match GreedyScan(vocab, word, e)
        case None => None
        case Some(ps) => Some([Candidate(word, start, e)] + ps)
  }

  /** One word through the deterministic tokenizer. */
  function GreedyWordPiece(cfg: Config, word: string): seq<string> {
    if |word| > cfg.maxInputCharsPerWord then [cfg.unkToken]
    else
      match GreedyScan(cfg.vocab, word, 0)
      case None => [cfg.unkToken]
      case Some(ps) => ps
  }

  function GreedyWords(cfg: Config, words: seq<string>): seq<string>
    decreases |words|
  {
    if |words| == 0 then [] else GreedyWordPiece(cfg, words[0]) + GreedyWords(cfg, words[1..])
  }

  /** A text through the deterministic tokenizer. */
  function GreedyTokenize(cfg: Config, text: string): seq<string> {
    GreedyWords(cfg, WhitespaceTokenize(text))
  }

  // ---------------------------------------------------------------------------
  // With every draw accepting, the noisy tokenizer is the greedy one

  /** At one cursor the first vocabulary hit is kept, so the accepted end is
      the longest vocabulary candidate and exactly one draw is taken when
      there is one. */
  lemma {:induction false} AlwaysAcceptMatch(vocab: set<string>, draws: Draws, word: string, start: nat, end: nat, pos: nat)
    requires forall i :: Accepts(draws(i))
    requires start <= end <= |word|
    ensures var m := LongestAccepted(vocab, draws, word, start, end, pos);
      && m.end == LongestInVocab(vocab, word, start, end)
      && m.pos == pos + (if m.end.Some? then 1 else 0)
    decreases end
  {
    if end > start && Candidate(word, start, end) !in vocab {
      AlwaysAcceptMatch(vocab, draws, word, start, end - 1, pos);
    }
  }

  /** The whole scan agrees with the greedy one, and a word cut into k pieces
      takes exactly k draws. */
  lemma {:induction false} AlwaysAcceptScan(vocab: set<string>, draws: Draws, word: string, start: nat, pos: nat)
    requires forall i :: Accepts(draws(i))
    requires start <= |word|
    ensures var r := ScanFrom(vocab, draws, word, start, pos);
      && r.pieces == GreedyScan(vocab, word, start)
      && (r.pieces.Some? ==> r.pos == pos + |r.pieces.value|)
    decreases |word| - start
  {
    if start < |word| {
      AlwaysAcceptMatch(vocab, draws, word, start, |word|, pos);
      var m := LongestAccepted(vocab, draws, word, start, |word|, pos);
      if m.end.Some? {
        AlwaysAcceptScan(vocab, draws, word, m.end.value, m.pos);
      }
    }
  }

  lemma AlwaysAcceptWord(cfg: Config, draws: Draws, word: string, pos: nat)
    requires forall i :: Accepts(draws(i))
    ensures TokenizeWord(cfg, draws, word, pos).tokens == GreedyWordPiece(cfg, word)
  {
    AlwaysAcceptScan(cfg.vocab, draws, word, 0, pos);
  }

  lemma {:induction false} AlwaysAcceptWords(cfg: Config, draws: Draws, words: seq<string>, pos: nat)
    requires forall i :: Accepts(draws(i))
    ensures TokenizeWords(cfg, draws, words, pos).tokens == GreedyWords(cfg, words)
    decreases |words|
  {
    if |words| > 0 {
      AlwaysAcceptWord(cfg, draws, words[0], pos);
      AlwaysAcceptWords(cfg, draws, words[1..], TokenizeWord(cfg, draws, words[0], pos).pos);
    }
  }

  /** With an oracle that always accepts, the noisy tokenizer is standard
      deterministic greedy WordPiece on every text. */
  lemma AlwaysAcceptIsGreedy(cfg: Config, draws: Draws, text: string, pos: nat)
    requires forall i :: Accepts(draws(i))
    ensures Tokenize(cfg, draws, text, pos).tokens == GreedyTokenize(cfg, text)
  {
    AlwaysAcceptWords(cfg, draws, WhitespaceTokenize(text), pos);
  }

  // ---------------------------------------------------------------------------
  // Worked examples

  /** At cursor 0 of "unable" the longest candidate in {"un", "##able"} is
      "un": "unable", "unabl", "unab" and "una" are not in it. */
  lemma UnableFirstCut()
    ensures LongestInVocab({"un", "##able"}, "unable", 0, 6) == Some(2)
  {
    var w := "unable";
    assert Candidate(w, 0, 6) == "unable" && Candidate(w, 0, 5) == "unabl";
    assert Candidate(w, 0, 4) == "unab" && Candidate(w, 0, 3) == "una";
    assert Candidate(w, 0, 2) == "un";
  }

  /** At cursor 2 of "unable" the whole rest, "##able", is in the
      vocabulary. */
  lemma UnableSecondCut()
    ensures LongestInVocab({"un", "##able"}, "unable", 2, 6) == Some(6)
  {
    assert Candidate("unable", 2, 6) == "##able";
  }

  /** With every draw accepting, "unable" is cut at the longest vocabulary
      match: into "un" and "##able" when the whole word is not in the
      vocabulary. */
  lemma UnableSplitExample(draws: Draws, pos: nat)
    requires forall i :: Accepts(draws(i))
    ensures TokenizeWord(Config({"un", "##able"}, 100, "[UNK]"), draws, "unable", pos).tokens
            == ["un", "##able"]
  {
    var cfg := Config({"un", "##able"}, 100, "[UNK]");
    var w := "unable";
    AlwaysAcceptWord(cfg, draws, w, pos);
    UnableFirstCut();
    UnableSecondCut();
    assert |w| == 6;
    assert GreedyScan(cfg.vocab, w, 6) == Some([]);
    assert [Candidate(w, 2, 6)] + [] == ["##able"];
    assert GreedyScan(cfg.vocab, w, 2) == Some(["##able"]);
    assert [Candidate(w, 0, 2)] + ["##able"] == ["un", "##able"];
    assert GreedyScan(cfg.vocab, w, 0) == Some(["un", "##able"]);
  }

  /** ... and kept whole when the whole word is in the vocabulary. */
  lemma UnableWholeExample(draws: Draws, pos: nat)
    requires forall i :: Accepts(draws(i))
    ensures TokenizeWord(Config({"un", "##able", "unable"}, 100, "[UNK]"), draws, "unable", pos).tokens
            == ["unable"]
  {
    var cfg := Config({"un", "##able", "unable"}, 100, "[UNK]");
    var w := "unable";
    AlwaysAcceptWord(cfg, draws, w, pos);
    assert |w| == 6;
    assert GreedyScan(cfg.vocab, w, 6) == Some([]);
    assert Candidate(w, 0, 6) == "unable";
    assert LongestInVocab(cfg.vocab, w, 0, 6) == Some(6);
    assert [Candidate(w, 0, 6)] + [] == ["unable"];
    assert GreedyScan(cfg.vocab, w, 0) == Some(["unable"]);
  }

  /** The noise at work: when the first draw refuses the whole-word hit
      "unable", the scan falls back to "un" and "##able", taking three draws
      in all. */
  lemma RefusedWholeWordExample()
    ensures TokenizeWord(Config({"un", "##able", "unable"}, 100, "[UNK]"),
                         (i: nat) => if i == 0 then 0.05 else 0.5, "unable", 0)
            == Tokenized(["un", "##able"], 3)
  {
    var cfg := Config({"un", "##able", "unable"}, 100, "[UNK]");
    var draws: Draws := (i: nat) => if i == 0 then 0.05 else 0.5;
    var w := "unable";
    assert Candidate(w, 0, 6) == "unable";
    assert Candidate(w, 0, 2) == "un";
    assert Candidate(w, 2, 6) == "##able";
    assert LongestAccepted(cfg.vocab, draws, w, 0, 6, 0) == Match(Some(2), 2);
    assert LongestAccepted(cfg.vocab, draws, w, 2, 6, 2) == Match(Some(6), 3);
  }
}
