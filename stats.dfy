/** Text statistics: characters, whitespace-separated words, non-blank lines. */
module Stats {
  import opened Text
  import opened Extraction

  datatype Stats = Stats(characters: nat, words: nat, lines: nat)

  /** str.split() with no argument: the maximal runs of non-whitespace. */
  function Words(text: string): seq<string> {
    Runs(text, NonSpace)
  }

  /** word_count_stats */
  function WordCountStats(text: string): Stats {
    Stats(|text|, |Words(text)|, |StripNonBlank(SplitLines(text))|)
  }

  /** How many pieces are not blank (an independent count, on AllSpace). */
  function CountNonBlank(pieces: seq<string>): nat {
    if pieces == [] then 0
    else (if AllSpace(pieces[0]) then 0 else 1) + CountNonBlank(pieces[1..])
  }

  function CountChar(s: string, c: char): nat {
    if s == [] then 0 else (if s[0] == c then 1 else 0) + CountChar(s[1..], c)
  }

  /** The characters count is the length of the text; the words are the
      maximal runs of non-whitespace (each a slice of the text between
      whitespace or its ends, and put back between the whitespace stretches
      they give the text again), as many as the positions where such a
      run starts, each non-empty and free of whitespace, and together they
      hold every non-whitespace character of the text in order; the lines
      count is the number of lines of the text that are not blank. */
  lemma {:induction false} StatsMeaning(text: string)
    ensures WordCountStats(text).characters == |text|
    ensures WordCountStats(text).words == CountRunStarts(text, NonSpace, false)
    ensures forall k, m :: 0 <= k < |Words(text)| && 0 <= m < |Words(text)[k]| ==> !IsSpace(Words(text)[k][m])
    ensures forall k :: 0 <= k < |Words(text)| ==> Words(text)[k] != []
    ensures forall k :: 0 <= k < |Words(text)| ==> IsMaximalRun(text, NonSpace, Words(text)[k])
    ensures |Outside(text, NonSpace)| == |Words(text)| + 1
    ensures Interleave(Outside(text, NonSpace), Words(text)) == text
    ensures Flatten(Words(text)) == Keep(text, NonSpace)
    ensures WordCountStats(text).lines == CountNonBlank(SplitLines(text))
  {
    RunsCountStarts(text, NonSpace);
    RunsCoverClass(text, NonSpace);
    RunsAreMaximal(text, NonSpace);
    RunsRoundTrip(text, NonSpace);
    NonBlankCount(SplitLines(text));
  }

  lemma {:induction false} NonBlankCount(pieces: seq<string>)
    ensures |StripNonBlank(pieces)| == CountNonBlank(pieces)
  {
    if pieces != [] {
      StripSpec(pieces[0]);
      NonBlankCount(pieces[1..]);
    }
  }

  /** Empty text has no characters, words or lines. */
  lemma EmptyTextStats()
    ensures WordCountStats("") == Stats(0, 0, 0)
  {
    assert Words("") == [];
  }

  /** Text made only of whitespace has no words and no lines. */
  lemma {:induction false} BlankTextStats(text: string)
    requires AllSpace(text)
    ensures WordCountStats(text).words == 0
    ensures WordCountStats(text).lines == 0
  {
    NoRunsInSpace(text);
    var pieces := SplitLines(text);
    AllSpaceLines(text);
    NonBlankCount(pieces);
    NoNonBlank(pieces);
  }

  lemma {:induction false} NoRunsInSpace(text: string)
    requires AllSpace(text)
    ensures Words(text) == []
    decreases |text|
  {
    if text != [] {
      NoRunsInSpace(text[1..]);
    }
  }

  lemma {:induction false} NoNonBlank(pieces: seq<string>)
    requires forall k :: 0 <= k < |pieces| ==> AllSpace(pieces[k])
    ensures CountNonBlank(pieces) == 0
  {
    if pieces != [] {
      NoNonBlank(pieces[1..]);
    }
  }

  /** Every line of all-whitespace text is all whitespace. */
  lemma {:induction false} AllSpaceLines(text: string)
    requires AllSpace(text)
    ensures forall k :: 0 <= k < |SplitLines(text)| ==> AllSpace(SplitLines(text)[k])
    decreases |text|
  {
    if text != [] {
      var i := FirstBreak(text);
      if i == |text| {
        assert SplitLines(text) == [text];
      } else {
        var next := if text[i] == '\r' && i + 1 < |text| && text[i + 1] == '\n' then i + 2 else i + 1;
        var rest := SplitLines(text[next..]);
        assert SplitLines(text) == [text[..i]] + rest;
        assert AllSpace(text[next..]);
        AllSpaceLines(text[next..]);
        forall k | 0 <= k < |SplitLines(text)|
          ensures AllSpace(SplitLines(text)[k])
        {
          if k > 0 {
            assert SplitLines(text)[k] == rest[k - 1];
          }
        }
      }
    }
  }

  lemma {:induction false} CountCharAppend(a: string, b: string, c: char)
    ensures CountChar(a + b, c) == CountChar(a, c) + CountChar(b, c)
  {
    if a == [] {
      assert a + b == b;
    } else {
      assert (a + b)[1..] == a[1..] + b;
      CountCharAppend(a[1..], b, c);
    }
  }

  lemma {:induction false} NoBreakNoNewline(s: string)
    requires NoLineBreak(s)
    ensures CountChar(s, '\n') == 0
  {
    if s != [] {
      NoBreakNoNewline(s[1..]);
    }
  }

  /** Joining n break-free lines with "\n" puts exactly n - 1 newlines in. */
  lemma {:induction false} JoinNewlines(lines: seq<string>)
    requires |lines| > 0
    requires forall k :: 0 <= k < |lines| ==> NoLineBreak(lines[k])
    ensures CountChar(Join(lines, "\n"), '\n') + 1 == |lines|
  {
    NoBreakNoNewline(lines[0]);
    if |lines| > 1 {
      JoinNewlines(lines[1..]);
      CountCharAppend(lines[0], "\n", '\n');
      CountCharAppend(lines[0] + "\n", Join(lines[1..], "\n"), '\n');
    }
  }

  /** On normalised text the lines count is the number of "\n"-separated
      pieces: one more than the number of newlines, or zero for empty text. */
  lemma NormalizedLinesCount(text: string)
    ensures var r := Normalize(text);
      && WordCountStats(r).lines == |SplitLines(r)|
      && (r == [] ==> WordCountStats(r).lines == 0)
      && (r != [] ==> WordCountStats(r).lines == CountChar(r, '\n') + 1)
  {
    var r := Normalize(text);
    var lines := SplitLines(r);
    StripNonBlankFixed(lines);
    if r != [] {
      JoinNewlines(NormalizedLines(text));
    }
  }
}
