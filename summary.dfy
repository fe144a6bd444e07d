/** The extractive summariser: split the text into sentences, count the
    frequencies of its content words, score each sentence, and emit the N
    best-ranked sentences in their original order. */
module Summary {
  import opened Text
  import opened Ranking

  // ---------------------------------------------------------------------------
  // Sentences: re.split(r'(?<=[.!?])\s+', text), then strip and drop blanks

  predicate IsTerminal(c: char) {
    c == '.' || c == '!' || c == '?'
  }

  /** Position x starts a whitespace run that follows a sentence terminator:
      the only places the splitting pattern matches, and from there it takes
      the whole run. */
  predicate SplitsAt(s: string, x: int) {
    0 < x < |s| && IsTerminal(s[x - 1]) && IsSpace(s[x])
  }

  /** The first split position at or after `from`, or |s| when there is none. */
  function SentenceBreak(s: string, from: nat): (i: nat)
    requires from <= |s|
    ensures from <= i <= |s|
    ensures i < |s| ==> SplitsAt(s, i)
    ensures forall x :: from <= x < i ==> !SplitsAt(s, x)
    decreases |s| - from
  {
    if from == |s| || SplitsAt(s, from) then from else SentenceBreak(s, from + 1)
  }

  /** What is left of s once its leading whitespace is removed. */
  function SkipSpace(s: string): (r: string)
    ensures |r| <= |s|
    ensures s != [] && IsSpace(s[0]) ==> |r| < |s|
    ensures r == [] || !IsSpace(r[0])
  {
    if s != [] && IsSpace(s[0]) then SkipSpace(s[1..]) else s
  }

  /** The removed part is all whitespace, and the rest is a suffix. */
  lemma {:induction false} SkipSpaceSplits(s: string)
    ensures var r := SkipSpace(s);
      && s == s[..|s| - |r|] + r
      && AllSpace(s[..|s| - |r|])
  {
    if s != [] && IsSpace(s[0]) {
      SkipSpaceSplits(s[1..]);
      var r := SkipSpace(s);
      assert s[1..][..|s| - 1 - |r|] == s[1..|s| - |r|];
    }
  }

  /** The pieces re.split returns: the text cut at each split position, the
      whitespace run there removed. Always at least one piece. */
  function Chunks(s: string): (chunks: seq<string>)
    ensures |chunks| >= 1
    decreases |s|
  {
    var i := SentenceBreak(s, 0);
    if i == |s| then [s]
    else [s[..i]] + Chunks(SkipSpace(s[i..]))
  }

  lemma ChunksStep(s: string)
    requires SentenceBreak(s, 0) < |s|
    ensures var i := SentenceBreak(s, 0);
      && 0 < i
      && Chunks(s) == [s[..i]] + Chunks(SkipSpace(s[i..]))
  {
  }

  /** Each piece but the last ends with a terminator; no piece holds a split
      position; each piece after the first starts with a non-whitespace
      character (the run at the cut is removed whole); the first piece is a
      prefix of the text. */
  lemma {:induction false} ChunkBoundaries(s: string)
    ensures var c := Chunks(s);
      && c[0] == s[..|c[0]|]
      && (forall k :: 0 <= k < |c| - 1 ==> c[k] != [] && IsTerminal(c[k][|c[k]| - 1]))
      && (forall k, x :: 0 <= k < |c| ==> !SplitsAt(c[k], x))
      && (forall k :: 0 < k < |c| ==> c[k] == [] || !IsSpace(c[k][0]))
    decreases |s|
  {
    var c := Chunks(s);
    var i := SentenceBreak(s, 0);
    if i == |s| {
      assert c == [s];
      assert forall x :: !SplitsAt(s, x);
    } else {
      ChunksStep(s);
      var t := SkipSpace(s[i..]);
      var rest := Chunks(t);
      ChunkBoundaries(t);
      assert c == [s[..i]] + rest;
      forall x
        ensures !SplitsAt(s[..i], x)
      {
        if 0 < x < i {
          assert !SplitsAt(s, x);
        }
      }
      assert rest[0] == [] || rest[0][0] == t[0];
      forall k | 0 < k < |c|
        ensures c[k] == rest[k - 1]
      {
      }
    }
  }

  /** Cutting removes whitespace only: every visible character of the text is
      in the pieces, in order, and nothing else visible is. */
  lemma {:induction false} ChunksKeepVisible(s: string)
    ensures Keep(Flatten(Chunks(s)), NonSpace) == Keep(s, NonSpace)
    decreases |s|
  {
    var i := SentenceBreak(s, 0);
    if i < |s| {
      ChunksStep(s);
      var t := SkipSpace(s[i..]);
      var rest := Chunks(t);
      ChunksKeepVisible(t);
      KeepAtCut(s, i);
      assert Flatten([s[..i]] + rest) == s[..i] + Flatten(rest);
      KeepAppend(s[..i], Flatten(rest), NonSpace);
    } else {
      assert Flatten(Chunks(s)) == s + Flatten([]);
      assert s + "" == s;
    }
  }

  lemma KeepAtCut(s: string, i: nat)
    requires i <= |s|
    ensures Keep(s, NonSpace) == Keep(s[..i], NonSpace) + Keep(SkipSpace(s[i..]), NonSpace)
  {
    var u := s[i..];
    var t := SkipSpace(u);
    SkipSpaceSplits(u);
    var run := u[..|u| - |t|];
    assert s == s[..i] + (run + t);
    KeepAcrossCut(s[..i], run, t);
  }

  /** Removing a whitespace run leaves the visible characters as they were. */
  lemma KeepAcrossCut(head: string, run: string, tail: string)
    requires AllSpace(run)
    ensures Keep(head + (run + tail), NonSpace) == Keep(head, NonSpace) + Keep(tail, NonSpace)
  {
    KeepNonSpaceOfBlank(run);
    KeepAppend(run, tail, NonSpace);
    KeepAppend(head, run + tail, NonSpace);
  }

  /** The whitespace runs the split removes, one per cut, left to right. */
  function Gaps(s: string): seq<string>
    decreases |s|
  {
    var i := SentenceBreak(s, 0);
    if i == |s| then []
    else
      var u := s[i..];
      var t := SkipSpace(u);
      [u[..|u| - |t|]] + Gaps(t)
  }

  /** The split loses nothing: the pieces, with the whitespace run of each
      cut put back between them, are the text again. Every removed run is
      non-empty whitespace; with ChunkBoundaries it follows a terminator and
      is followed by a non-whitespace character or the end of the text. */
  lemma {:induction false} ChunksRoundTrip(s: string)
    ensures |Chunks(s)| == |Gaps(s)| + 1
    ensures Interleave(Chunks(s), Gaps(s)) == s
    ensures forall k :: 0 <= k < |Gaps(s)| ==> Gaps(s)[k] != [] && AllSpace(Gaps(s)[k])
    decreases |s|
  {
    var i := SentenceBreak(s, 0);
    if i < |s| {
      var u := s[i..];
      var t := SkipSpace(u);
      var run := u[..|u| - |t|];
      ChunksRoundTrip(t);
      ChunksStep(s);
      GapsStep(s);
      CutAt(s, i);
      InterleaveStep(s[..i], run, Chunks(t), Gaps(t));
      GapsCons(run, Gaps(t));
    } else {
      assert Chunks(s) == [s];
    }
  }

  /** At a split position the text is the part before, a non-empty
      whitespace run, and what SkipSpace leaves. */
  lemma CutAt(s: string, i: nat)
    requires i < |s| && IsSpace(s[i])
    ensures var u := s[i..];
      var t := SkipSpace(u);
      && s == s[..i] + u[..|u| - |t|] + t
      && u[..|u| - |t|] != []
      && AllSpace(u[..|u| - |t|])
  {
    var u := s[i..];
    SkipSpaceSplits(u);
    assert s == s[..i] + u;
  }

  lemma GapsCons(run: string, gaps: seq<string>)
    requires run != [] && AllSpace(run)
    requires forall k :: 0 <= k < |gaps| ==> gaps[k] != [] && AllSpace(gaps[k])
    ensures forall k :: 0 <= k < |[run] + gaps| ==> ([run] + gaps)[k] != [] && AllSpace(([run] + gaps)[k])
  {
    forall k | 0 < k < |[run] + gaps|
      ensures ([run] + gaps)[k] == gaps[k - 1]
    {
    }
  }

  lemma GapsStep(s: string)
    requires SentenceBreak(s, 0) < |s|
    ensures var u := s[SentenceBreak(s, 0)..];
      Gaps(s) == [u[..|u| - |SkipSpace(u)|]] + Gaps(SkipSpace(u))
  {
  }


  /** The sentences: the pieces, stripped, without the blank ones. */
  function Sentences(text: string): seq<string> {
    StripNonBlank(Chunks(text))
  }

  /** Sentences are stripped and non-empty, and together they hold exactly
      the visible characters of the text, in order. */
  lemma SentencesSpec(text: string)
    ensures forall k :: 0 <= k < |Sentences(text)| ==>
      Sentences(text)[k] != [] && Strip(Sentences(text)[k]) == Sentences(text)[k]
    ensures Keep(Flatten(Sentences(text)), NonSpace) == Keep(text, NonSpace)
  {
    ChunksKeepVisible(text);
    KeepNonSpaceOfStripNonBlank(Chunks(text));
  }

  /** Each sentence is the strip of its own piece of the split, in order, and
      a piece gives a sentence exactly when it is not blank. */
  lemma SentencesFromChunks(text: string)
    ensures var c := Chunks(text);
      var ps := KeptPositions(c, 0);
      && |ps| == |Sentences(text)|
      && (forall k :: 0 <= k < |ps| ==> ps[k] < |c| && Sentences(text)[k] == Strip(c[ps[k]]))
      && (forall k, l :: 0 <= k < l < |ps| ==> ps[k] < ps[l])
      && (forall i :: 0 <= i < |c| ==> (i in ps <==> !AllSpace(c[i])))
  {
    var c := Chunks(text);
    KeptInOrder(c);
    forall i | 0 <= i < |c| ensures Strip(c[i]) != [] <==> !AllSpace(c[i]) {
      StripSpec(c[i]);
    }
  }

  /** A text without any terminator followed by whitespace is one sentence,
      stripped, or none when it is blank. */
  lemma OneSentenceWithoutBreak(text: string)
    requires forall x :: !SplitsAt(text, x)
    ensures Sentences(text) == if AllSpace(text) then [] else [Strip(text)]
  {
    assert SentenceBreak(text, 0) == |text|;
    assert Chunks(text) == [text];
    StripSpec(text);
    assert StripNonBlank([text]) == (if Strip(text) != [] then [Strip(text)] else []) + StripNonBlank([]);
  }

  // ---------------------------------------------------------------------------
  // Tokens: re.findall(r"[A-Za-z']+", s.lower())

  predicate IsTokenChar(c: char) {
    ('a' <= c <= 'z') || ('A' <= c <= 'Z') || c == '\''
  }

  function Tokens(s: string): seq<string> {
    Runs(Lower(s), IsTokenChar)
  }

  predicate IsLowerWord(w: string) {
    w != [] && forall m :: 0 <= m < |w| ==> ('a' <= w[m] <= 'z') || w[m] == '\''
  }

  /** Every token is a non-empty run of lower-case ASCII letters and
      apostrophes. */
  lemma TokensAreLowerWords(s: string)
    ensures forall k :: 0 <= k < |Tokens(s)| ==> IsLowerWord(Tokens(s)[k])
  {
    RunsWithin(Lower(s), IsTokenChar, c => !IsUpperAscii(c));
  }

  /** The tokens are the maximal runs of letters and apostrophes of the
      lower-cased text, left to right and by position: put back between the
      stretches of other characters (each free of token characters, and
      non-empty between two tokens) they give the lower-cased text again;
      together they hold every token character in order, there is one per
      run start, and each is a slice bounded by other characters or the
      text's ends. */
  lemma TokensAreMaximalRuns(s: string)
    ensures var g := Outside(Lower(s), IsTokenChar);
      && |g| == |Tokens(s)| + 1
      && Interleave(g, Tokens(s)) == Lower(s)
      && (forall k :: 0 <= k < |g| ==> NoneIn(g[k], IsTokenChar))
      && (forall k :: 0 < k < |g| - 1 ==> g[k] != [])
    ensures Flatten(Tokens(s)) == Keep(Lower(s), IsTokenChar)
    ensures |Tokens(s)| == CountRunStarts(Lower(s), IsTokenChar, false)
    ensures forall k :: 0 <= k < |Tokens(s)| ==> IsMaximalRun(Lower(s), IsTokenChar, Tokens(s)[k])
  {
    RunsRoundTrip(Lower(s), IsTokenChar);
    RunsCoverClass(Lower(s), IsTokenChar);
    RunsCountStarts(Lower(s), IsTokenChar);
    RunsAreMaximal(Lower(s), IsTokenChar);
  }

  // ---------------------------------------------------------------------------
  // Frequencies

  const Stopwords: set<string> :=
    { "a", "an", "the", "and", "or", "but", "is", "are", "was", "were", "be", "being", "been",
      "i", "you", "he", "she", "it", "we", "they", "them", "me", "my", "our", "your", "his",
      "her", "its", "their", "to", "of", "in", "for", "on", "at", "from", "by", "with", "as",
      "that", "this", "those", "these", "not", "no", "do", "does", "did", "have", "has", "had",
      "can", "could", "should", "would", "will", "just", "than", "then", "so", "if", "while",
      "during", "over", "into", "out", "up", "down", "about", "above", "below", "under",
      "again", "further", "here", "there", "when", "where", "why", "how", "all", "any", "both",
      "each", "few", "more", "most", "other", "some", "such", "nor", "only", "own", "same",
      "too", "very", "s", "t", "d", "ll", "m", "o", "re", "ve", "y" }

  /** A token that is counted: not a stopword and longer than two characters. */
  predicate Eligible(t: string) {
    t !in Stopwords && |t| > 2
  }

  /** The frequency dictionary: each counted token, mapped to the number of
      its occurrences. */
  function Frequencies(tokens: seq<string>): map<string, nat> {
    map w | w in tokens && Eligible(w) :: multiset(tokens)[w]
  }

  /** Counting one more token adds one to its entry, or leaves the map alone
      when the token is not counted. */
  lemma FrequenciesStep(tokens: seq<string>, t: string)
    ensures Frequencies(tokens + [t]) ==
      if Eligible(t) then Frequencies(tokens)[t := (if t in Frequencies(tokens) then Frequencies(tokens)[t] else 0) + 1]
      else Frequencies(tokens)
  {
    assert multiset(tokens + [t]) == multiset(tokens) + multiset{t};
    assert forall w :: w in tokens + [t] <==> w in tokens || w == t;
  }

  /** The loop that fills `freqs` (app.py:112-116). */
  method CountFrequencies(tokens: seq<string>) returns (freqs: map<string, nat>)
    ensures freqs == Frequencies(tokens)
  {
    freqs := map[];
    var i := 0;
    while i < |tokens|
      invariant 0 <= i <= |tokens|
      invariant freqs == Frequencies(tokens[..i])
    {
      var t := tokens[i];
      assert tokens[..i + 1] == tokens[..i] + [t];
      FrequenciesStep(tokens[..i], t);
      if Eligible(t) {
        freqs := freqs[t := (if t in freqs then freqs[t] else 0) + 1];
      }
      i := i + 1;
    }
    assert tokens[..i] == tokens;
  }

  /** Every key is a lower-case word of the text that is not a stopword and
      is longer than two characters, and its value is its number of
      occurrences among the text's tokens, at least one. */
  lemma FrequencyKeys(text: string)
    ensures var f := Frequencies(Tokens(text));
      forall w :: w in f ==>
        && IsLowerWord(w) && w !in Stopwords && |w| > 2
        && w in Tokens(text) && f[w] == multiset(Tokens(text))[w] >= 1
  {
    TokensAreLowerWords(text);
  }

  /** The dictionary is empty exactly when no token is counted. */
  lemma FrequenciesEmpty(tokens: seq<string>)
    ensures Frequencies(tokens) == map[] <==> forall k :: 0 <= k < |tokens| ==> !Eligible(tokens[k])
  {
    if Frequencies(tokens) == map[] {
      forall k | 0 <= k < |tokens|
        ensures !Eligible(tokens[k])
      {
        assert tokens[k] !in Frequencies(tokens);
      }
    }
  }

  // ---------------------------------------------------------------------------
  // Scores

  /** The score of a sentence, kept abstract: a real number computed from
      the sum of its tokens' frequencies, its token count and its index. */
  type Scorer = (nat, nat, nat) -> real

  /** sum(freqs.get(t, 0) for t in toks) */
  function FreqSum(toks: seq<string>, freqs: map<string, nat>): nat {
    if toks == [] then 0
    else (if toks[0] in freqs then freqs[toks[0]] else 0) + FreqSum(toks[1..], freqs)
  }

  /** With positive counts, the sum is zero exactly when no token of the
      sentence is in the dictionary. */
  lemma {:induction false} FreqSumZero(toks: seq<string>, freqs: map<string, nat>)
    requires forall w :: w in freqs ==> freqs[w] >= 1
    ensures FreqSum(toks, freqs) == 0 <==> forall k :: 0 <= k < |toks| ==> toks[k] !in freqs
  {
    if toks != [] {
      FreqSumZero(toks[1..], freqs);
      assert forall k :: 1 <= k < |toks| ==> toks[k] == toks[1..][k - 1];
    }
  }

  /** The tuple (score, idx, s) of sentence i. */
  function SentenceEntry(sentences: seq<string>, freqs: map<string, nat>, score: Scorer, i: nat): Entry
    requires i < |sentences|
  {
    var toks := Tokens(sentences[i]);
    Entry(score(FreqSum(toks, freqs), |toks|, i), i, sentences[i])
  }

  /** The scored sentences, one entry per sentence at its own index. */
  function ScoredEntries(sentences: seq<string>, freqs: map<string, nat>, score: Scorer): (r: seq<Entry>)
    ensures |r| == |sentences| && WellIndexed(r)
    ensures forall i :: 0 <= i < |r| ==> r[i].text == sentences[i]
  {
    seq(|sentences|, i requires 0 <= i < |sentences| => SentenceEntry(sentences, freqs, score, i))
  }

  /** The loop that appends to `scores` (app.py:119-124). */
  method ScoreSentences(sentences: seq<string>, freqs: map<string, nat>, score: Scorer) returns (scores: seq<Entry>)
    ensures scores == ScoredEntries(sentences, freqs, score)
  {
    scores := [];
    var idx := 0;
    while idx < |sentences|
      invariant 0 <= idx <= |sentences|
      invariant |scores| == idx
      invariant forall k :: 0 <= k < idx ==> scores[k] == SentenceEntry(sentences, freqs, score, k)
    {
      scores := scores + [SentenceEntry(sentences, freqs, score, idx)];
      idx := idx + 1;
    }
  }

  // ---------------------------------------------------------------------------
  // The summary

  /** The sentences at the picked positions, in the order picked. */
  function Select(sentences: seq<string>, picked: seq<nat>): (r: seq<string>)
    requires forall k :: 0 <= k < |picked| ==> picked[k] < |sentences|
    ensures |r| == |picked|
    ensures forall k :: 0 <= k < |r| ==> r[k] == sentences[picked[k]]
  {
    seq(|picked|, k requires 0 <= k < |picked| => sentences[picked[k]])
  }

  function Texts(entries: seq<Entry>): (r: seq<string>)
    ensures |r| == |entries|
    ensures forall k :: 0 <= k < |r| ==> r[k] == entries[k].text
  {
    seq(|entries|, k requires 0 <= k < |entries| => entries[k].text)
  }

  /** simple_frequency_summary. With at most n sentences, all of them; when
      no token is counted, the first n; otherwise the top-n selection by
      score, ties going to the later sentence, emitted in original order.
      `picked` names the positions chosen in that last case. */
  method Summarize(text: string, n: nat, score: Scorer) returns (summary: string, ghost picked: seq<nat>)
    ensures |Sentences(text)| <= n ==> summary == Join(Sentences(text), " ")
    ensures |Sentences(text)| > n && Frequencies(Tokens(text)) == map[] ==>
      summary == Join(Sentences(text)[..n], " ")
    ensures |Sentences(text)| > n && Frequencies(Tokens(text)) != map[] ==>
      && IsTopSelection(ScoredEntries(Sentences(text), Frequencies(Tokens(text)), score), n, picked)
      && summary == Join(Select(Sentences(text), picked), " ")
  {
    var sentences := Sentences(text);
    picked := [];
    if |sentences| <= n {
      summary := Join(sentences, " ");
      return;
    }
    var tokens := Tokens(text);
    var freqs := CountFrequencies(tokens);
    if freqs == map[] {
      summary := Join(sentences[..n], " ");
      return;
    }
    var scores := ScoreSentences(sentences, freqs, score);
    var top := RankAndSelect(scores, n);
    picked := Indices(top);
    assert Texts(top) == Select(sentences, picked);
    summary := Join(Texts(top), " ");
  }
}
