/**
 The tokenizer written the way the source writes it, with its `for` over
 words and its two nested `while` loops, and proved to compute the same
 tokens and take the same draws as the functional model in `WordPiece`.
 */
module TokenizeLoops {
  import opened Whitespace
  import opened WordPiece

  /** The pieces found so far in front of the outcome of the rest of the
      scan. */
  function Prefixed(pieces: seq<string>, rest: Scan): Scan {
    match rest.pieces
    case None => Scan(None, rest.pos)
    case Some(ps) => Scan(Some(pieces + ps), rest.pos)
  }

  lemma PrefixedNothing(s: Scan)
    ensures Prefixed([], s) == s
  {
    if s.pieces.Some? {
      assert [] + s.pieces.value == s.pieces.value;
    }
  }

  lemma PrefixedTwice(a: seq<string>, b: seq<string>, s: Scan)
    ensures Prefixed(a, Prefixed(b, s)) == Prefixed(a + b, s)
  {
    if s.pieces.Some? {
      assert a + (b + s.pieces.value) == (a + b) + s.pieces.value;
    }
  }

  /** The inner `while start < end` loop at one cursor: the candidate it
      accepts, if any, the `end` it stops at, and the draw position after. */
  method LongestAcceptedLoop(vocab: set<string>, draws: Draws, chars: string, start: nat, pos0: nat)
    returns (curSubstr: Option<string>, end: nat, pos: nat)
    requires start < |chars|
    ensures LongestAccepted(vocab, draws, chars, start, |chars|, pos0)
            == Match(if curSubstr.Some? then Some(end) else None, pos)
    ensures curSubstr.Some? ==> start < end <= |chars| && curSubstr.value == Candidate(chars, start, end)
  {
    pos := pos0;
    end := |chars|;
    curSubstr := None;
    while start < end
      invariant start <= end <= |chars|
      invariant curSubstr.None?
      invariant LongestAccepted(vocab, draws, chars, start, |chars|, pos0)
                == LongestAccepted(vocab, draws, chars, start, end, pos)
      decreases end
    {
      var substr := chars[start..end];
      if start > 0 {
        substr := ContinuationMarker + substr;
      }
      if substr in vocab {
        var draw := draws(pos);
        pos := pos + 1;
        if Accepts(draw) {
          curSubstr := Some(substr);
          return;
        }
      }
      end := end - 1;
    }
  }

  /** One word, as the body of the source's `for token in ...` loop. */
  method TokenizeWordLoops(cfg: Config, draws: Draws, chars: string, pos0: nat)
    returns (tokens: seq<string>, pos: nat)
    ensures Tokenized(tokens, pos) == TokenizeWord(cfg, draws, chars, pos0)
  {
    pos := pos0;
    if |chars| > cfg.maxInputCharsPerWord {
      return [cfg.unkToken], pos;
    }
    var isBad := false;
    var start := 0;
    var subTokens: seq<string> := [];
    PrefixedNothing(ScanFrom(cfg.vocab, draws, chars, 0, pos0));
    while start < |chars|
      invariant start <= |chars|
      invariant ScanFrom(cfg.vocab, draws, chars, 0, pos0)
                == Prefixed(subTokens, ScanFrom(cfg.vocab, draws, chars, start, pos))
      decreases |chars| - start
    {
      var curSubstr, end, next := LongestAcceptedLoop(cfg.vocab, draws, chars, start, pos);
      pos := next;
      if curSubstr.None? {
        isBad := true;
        break;
      }
      PrefixedTwice(subTokens, [curSubstr.value], ScanFrom(cfg.vocab, draws, chars, end, pos));
      subTokens := subTokens + [curSubstr.value];
      start := end;
    }
    if isBad {
      tokens := [cfg.unkToken];
    } else {
      tokens := subTokens;
    }
  }

  /** One turn of the loop over the words keeps the loop's invariant: the
      tokens so far followed by those of the remaining words are the tokens
      of the whole text. */
  lemma TextLoopStep(cfg: Config, draws: Draws, words: seq<string>, i: nat, pos: nat,
                     goal: Tokenized, output: seq<string>, wordTokens: seq<string>, next: nat)
    requires i < |words|
    requires var rest := TokenizeWords(cfg, draws, words[i..], pos);
      goal == Tokenized(output + rest.tokens, rest.pos)
    requires Tokenized(wordTokens, next) == TokenizeWord(cfg, draws, words[i], pos)
    ensures var rest := TokenizeWords(cfg, draws, words[i + 1..], next);
      goal == Tokenized((output + wordTokens) + rest.tokens, rest.pos)
  {
    assert words[i..][0] == words[i];
    assert words[i..][1..] == words[i + 1..];
    var later := TokenizeWords(cfg, draws, words[i + 1..], next);
    assert output + (wordTokens + later.tokens) == (output + wordTokens) + later.tokens;
  }

  /** The patched `tokenize(self, text)`: whitespace-split the text and
      append each word's tokens in order. */
  method TokenizeTextLoops(cfg: Config, draws: Draws, text: string, pos0: nat)
    returns (outputTokens: seq<string>, pos: nat)
    ensures Tokenized(outputTokens, pos) == Tokenize(cfg, draws, text, pos0)
  {
    var words := WhitespaceTokenize(text);
    outputTokens := [];
    pos := pos0;
    var i := 0;
    ghost var goal := TokenizeWords(cfg, draws, words, pos0);
    assert words[0..] == words;
    while i < |words|
      invariant i <= |words|
      invariant var rest := TokenizeWords(cfg, draws, words[i..], pos);
        goal == Tokenized(outputTokens + rest.tokens, rest.pos)
    {
      var wordTokens, next := TokenizeWordLoops(cfg, draws, words[i], pos);
      TextLoopStep(cfg, draws, words, i, pos, goal, outputTokens, wordTokens, next);
      outputTokens := outputTokens + wordTokens;
      pos := next;
      i := i + 1;
    }
    assert words[i..] == [];
    assert outputTokens + [] == outputTokens;
  }
}
