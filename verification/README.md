# Noisy WordPiece tokenizer

A Dafny model of the noisy WordPiece `tokenize` function of the jigsaw-multilingual
toxicity classifiers (preprocessor.py). The function replaces a BERT
WordpieceTokenizer's `tokenize` method to inject subword noise into training
data:

- the text is stripped and split on whitespace (`whitespace_tokenize`);
- a word longer than `max_input_chars_per_word` becomes the unknown token;
- any other word is cut greedily, longest match first: at each cursor the
  candidates `word[start:end]` are tried for `end` from the word's length down
  to `start + 1`, with a `"##"` continuation marker in front when the piece
  does not start the word;
- a candidate is accepted only if it is in the vocabulary **and** a uniform
  draw exceeds 0.1, so a real vocabulary hit is refused about one time in ten;
- if some cursor has no accepted candidate the whole word becomes one unknown
  token; otherwise its pieces are emitted in order.

Modules:

- `Whitespace` (whitespace.dfy): Python's `str.isspace` character set,
  `str.strip()`, `str.split()` and the nested `whitespace_tokenize`, with the
  content, emptiness and join/split round-trip properties.
- `WordPiece` (wordpiece.dfy): the tokenizer as pure recursive functions
  (`LongestAccepted` is the inner loop, `ScanFrom` the outer loop,
  `TokenizeWord`, `TokenizeWords`, `Tokenize`), the notion of a segmentation,
  and the properties of the output and of the draws taken.
- `Greedy` (greedy.dfy): standard deterministic greedy WordPiece and the proof
  that the noisy tokenizer equals it when every draw accepts, with the
  `"unable"` examples.
- `TokenizeLoops` (loops.dfy): the tokenizer written with the source's nested
  loops, proved equal to the functional model.

The random source is an explicit oracle `draws: nat -> real`: `draws(i)` is
the value returned by the i-th call to `random()`, and every function threads
`pos`, the number of values drawn so far, and returns the new position. Because
`substr in self.vocab and random() > 0.1` short-circuits, a value is drawn only
for candidates that are in the vocabulary; the model draws exactly there, and
`LongestAcceptedSpec` states that the draws taken at a cursor are exactly the
vocabulary hits tried. The vocabulary is a `set<string>` (the source only
tests membership).

The refusal threshold is the constant 0.1 written in the code
(`RejectProbability`).

The first piece of a successful cut is a prefix of the word with no marker
added. It begins with `"##"` only when the word itself does (a word such as
`"##ab"`), so `FirstPieceUnmarked` states "the first piece carries no marker"
under the condition that the word does not begin with one.

## Model

| member | source | states |
|---|---|---|
| Whitespace.TrimLeft | preprocessor.py:130 | the result is a suffix of the input, everything removed is whitespace, and the result does not start with whitespace |
| Whitespace.TrimRight | preprocessor.py:130 | the result is a prefix of the input, everything removed is whitespace, and the result does not end with whitespace |
| Whitespace.Strip | preprocessor.py:130-131 | the stripped text is a contiguous part of the text with only whitespace before and after it, it neither starts nor ends with whitespace, and it is empty exactly when the text is all whitespace |
| Whitespace.WordEnd | preprocessor.py:133 | the length returned is that of the longest whitespace-free prefix: every character before it is non-whitespace and the character at it, if any, is whitespace |
| Whitespace.Split | preprocessor.py:133 | every word produced by splitting is non-empty and contains no whitespace |
| Whitespace.SplitKeepsContent | preprocessor.py:133 | the words, concatenated, are exactly the non-whitespace characters of the text in their original order |
| Whitespace.SplitEmptyIffBlank | preprocessor.py:131-133 | splitting yields no word if and only if the text is all whitespace |
| Whitespace.SplitOfWord | preprocessor.py:133 | a non-empty text without whitespace splits into exactly itself |
| Whitespace.SplitAtSpace | preprocessor.py:133 | splitting cuts at every whitespace character: the words of a, a whitespace character, then b are the words of a followed by the words of b; with SplitOfWord and the empty text this fixes the words as the maximal whitespace-free runs |
| Whitespace.SplitJoin | preprocessor.py:133 | round trip: words without whitespace, joined with single spaces, split back into the same words |
| Whitespace.WhitespaceTokenizeIsSplit | preprocessor.py:128-134 | whitespace_tokenize returns exactly the split words (the strip changes nothing), and returns no words exactly when the text is blank |
| WordPiece.LongestAccepted | preprocessor.py:147-157 | an accepted end lies strictly after the cursor and within the word, so the cursor strictly advances; at most one draw per candidate tried |
| WordPiece.LongestAcceptedSpec | preprocessor.py:147-157 | the accepted piece is a vocabulary hit whose draw exceeds 0.1, every longer vocabulary hit at that cursor had its draw refuse it, and the draws taken are exactly the vocabulary hits tried (also when no candidate is accepted) |
| WordPiece.AcceptedInVocab | preprocessor.py:154-156 | a piece the inner loop accepts is always a vocabulary entry |
| WordPiece.ScanFrom | preprocessor.py:146-162 | the draw position never goes back, and a word of n characters takes at most 1 + 2 + ... + n draws |
| WordPiece.ScanFromContinues | preprocessor.py:146-162 | pieces found from a non-initial cursor are vocabulary entries carrying the "##" marker, and with the markers removed they spell the rest of the word |
| WordPiece.ScanSegments | preprocessor.py:146-162 | a successful scan of a word is a complete segmentation: every piece is in the vocabulary, the first is a non-empty prefix with no marker added, every later one carries "##", and first piece plus unmarked later pieces spell the word |
| WordPiece.SegmentationSize | preprocessor.py:161-162 | a segmentation is non-empty exactly when the word is, and has no more pieces than the word has characters |
| WordPiece.FirstPieceUnmarked | preprocessor.py:150-152 | the first piece of a segmentation begins with "##" only if the word itself does |
| WordPiece.WordOutcome | preprocessor.py:138-167 | an over-long word gives exactly the unknown token and takes no draw; any other word gives the unknown token alone or a complete segmentation, never part of one; a scan that fails at some cursor gives the unknown token; a scan that succeeds gives exactly that scan's pieces (so a refused vocabulary hit changes what is emitted), a complete segmentation of the word; a word within the limit leaves the draws where its scan stopped, whether it succeeds or fails; the draws taken are bounded by 1 + 2 + ... + n |
| WordPiece.WordTokens | preprocessor.py:154-167 | every token a word contributes is the unknown token or a vocabulary entry, and a non-empty word contributes at least one token |
| WordPiece.NeverAcceptNoMatch | preprocessor.py:149-157 | when every draw is at most 0.1, no candidate is ever accepted at any cursor |
| WordPiece.NeverAcceptGivesUnknown | preprocessor.py:154-165 | when every draw is at most 0.1, every non-empty word, single characters included, becomes the unknown token |
| WordPiece.TokenizeWordsAppend | preprocessor.py:137-167 | word order is kept: the tokens of a + b are the tokens of a followed by those of b tokenized from where a left the draws |
| WordPiece.WordsTokens | preprocessor.py:137-167 | over a list of words every token is the unknown token or a vocabulary entry, there are at least as many tokens as words, and the draw position never goes back |
| WordPiece.TokenizeText | preprocessor.py:119-168 | over a text every token is the unknown token or a vocabulary entry, there are at least as many tokens as whitespace-separated words, the output is empty if and only if the text is blank, a blank text takes no draw, and the tokens are those of the text's whitespace-separated words in order |
| Greedy.LongestInVocab | preprocessor.py:147-157 | the end chosen is the longest candidate at the cursor that is in the vocabulary; none is chosen if and only if no candidate is in the vocabulary |
| Greedy.AlwaysAcceptMatch | preprocessor.py:147-157 | when every draw exceeds 0.1 the accepted end at a cursor is the longest vocabulary candidate, and exactly one draw is taken when there is one |
| Greedy.AlwaysAcceptScan | preprocessor.py:146-162 | when every draw exceeds 0.1 the scan yields the greedy longest-match cut, and a word cut into k pieces takes exactly k draws |
| Greedy.AlwaysAcceptWord | preprocessor.py:138-167 | when every draw exceeds 0.1 a word is tokenized as deterministic greedy WordPiece tokenizes it |
| Greedy.AlwaysAcceptWords | preprocessor.py:137-167 | when every draw exceeds 0.1 a list of words is tokenized as deterministic greedy WordPiece tokenizes it |
| Greedy.AlwaysAcceptIsGreedy | preprocessor.py:119-168 | when every draw exceeds 0.1 the noisy tokenizer is standard greedy WordPiece on every text |
| Greedy.UnableSplitExample | preprocessor.py:146-162 | with vocabulary {"un", "##able"} and every draw accepting, "unable" becomes ["un", "##able"] |
| Greedy.UnableWholeExample | preprocessor.py:146-162 | with "unable" also in the vocabulary and every draw accepting, "unable" stays ["unable"] |
| Greedy.RefusedWholeWordExample | preprocessor.py:154 | when the first draw (0.05) refuses the whole-word hit "unable", the scan falls back to ["un", "##able"] after three draws |
| TokenizeLoops.LongestAcceptedLoop | preprocessor.py:147-157 | the source's inner while loop at one cursor returns the candidate the functional model accepts (with its end, marker added when the cursor is inside the word) or none, and leaves the draws where the model does |
| TokenizeLoops.TokenizeWordLoops | preprocessor.py:138-167 | the source's nested while loops over one word produce the same tokens and take the same draws as the functional model |
| TokenizeLoops.TokenizeTextLoops | preprocessor.py:136-168 | the source's loop over the whitespace-split words produces the same tokens and takes the same draws as the functional model |

## Left out

- `generate_target_dist` (preprocessor.py:91-116): truncated-normal probabilities computed with floating point and a library CDF, memoized by a process-wide cache; not modelled.
- The CSV loaders, balanced sampling and k-fold index generation (preprocessor.py:14-88): file I/O and library randomness.
- The training and evaluation scripts (classifier_baseline.py, classifier_dual_model.py, classifier_torch.py, classifier_bigru_fasttext_tf.py) and the ensembling in postprocessor.py: deep-learning frameworks, file I/O and floating-point averaging. Their `' '.join(x.split())` cleaning helpers repeat the whitespace split modelled here.
- The monkey-patching of a tokenizer instance (preprocessor.py:122-125): the model takes the instance's vocabulary, `max_input_chars_per_word` and `unk_token` as a `Config` value instead.
- The random source itself: `random()` becomes the `draws` oracle; its distribution (uniform on [0, 1)) is not modelled, only the comparison `> 0.1` applied to each value.
- Token ids: the vocabulary's mapping from token to id is not used by `tokenize` and is modelled as a set of tokens.
