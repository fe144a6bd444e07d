/** The Python string primitives the document pipeline is built from:
    whitespace and line-boundary tests, lower-casing, strip, splitlines,
    maximal runs (str.split() and re.findall over a character class),
    join, endswith and substring search. */
module Text {

  /** Python's whitespace test, shared by str.isspace, str.split(), str.strip()
      and the regular-expression class \s on str patterns. */
  predicate IsSpace(c: char) {
    var n := c as int;
    (0x09 <= n <= 0x0D) || (0x1C <= n <= 0x20) || n == 0x85 || n == 0xA0 || n == 0x1680
    || (0x2000 <= n <= 0x200A) || n == 0x2028 || n == 0x2029 || n == 0x202F
    || n == 0x205F || n == 0x3000
  }

  /** The line boundaries of str.splitlines(). */
  predicate IsLineBreak(c: char) {
    var n := c as int;
    (0x0A <= n <= 0x0D) || (0x1C <= n <= 0x1E) || n == 0x85 || n == 0x2028 || n == 0x2029
  }

  predicate NoLineBreak(s: string) {
    forall k :: 0 <= k < |s| ==> !IsLineBreak(s[k])
  }

  predicate IsUpperAscii(c: char) {
    'A' <= c <= 'Z'
  }

  // ---------------------------------------------------------------------------
  // str.lower()

  /** Lower-casing of one character. Besides A-Z, the only characters whose
      lower-case form contains an ASCII letter are the Kelvin sign and the
      capital I with dot above (which becomes two characters); every other
      character is kept, and its Python lower-case form is never an ASCII
      letter, digit or punctuation mark either. */
  function LowerChar(c: char): (r: string)
    ensures forall k :: 0 <= k < |r| ==> !IsUpperAscii(r[k])
  {
    if IsUpperAscii(c) then [(c as int + 32) as char]
    else if c == '\U{212A}' then "k"
    else if c == '\U{0130}' then "i\U{0307}"
    else [c]
  }

  function Lower(s: string): (r: string)
    ensures forall k :: 0 <= k < |r| ==> !IsUpperAscii(r[k])
  {
    if s == [] then [] else LowerChar(s[0]) + Lower(s[1..])
  }

  lemma {:induction false} LowerAppend(a: string, b: string)
    ensures Lower(a + b) == Lower(a) + Lower(b)
  {
    if a == [] {
      assert a + b == b;
    } else {
      assert (a + b)[1..] == a[1..] + b;
      LowerAppend(a[1..], b);
    }
  }

  lemma LowerCharIdempotent(c: char)
    ensures Lower(LowerChar(c)) == LowerChar(c)
  {
    var r := LowerChar(c);
    if |r| == 1 {
      assert Lower(r) == LowerChar(r[0]) + Lower([]);
    } else {
      assert r == ['i', '\U{0307}'];
      assert Lower(r) == LowerChar('i') + Lower(['\U{0307}']);
    }
  }

  /** Lower-casing twice is lower-casing once. */
  lemma {:induction false} LowerIdempotent(s: string)
    ensures Lower(Lower(s)) == Lower(s)
  {
    if s != [] {
      LowerAppend(LowerChar(s[0]), Lower(s[1..]));
      LowerCharIdempotent(s[0]);
      LowerIdempotent(s[1..]);
    }
  }

  // ---------------------------------------------------------------------------
  // str.strip()

  predicate AllSpace(s: string) {
    forall k :: 0 <= k < |s| ==> IsSpace(s[k])
  }

  /** str.strip() with no argument: whitespace is removed from both ends. */
  function Strip(s: string): string
    decreases |s|
  {
    if s != [] && IsSpace(s[0]) then Strip(s[1..])
    else if s != [] && IsSpace(s[|s| - 1]) then Strip(s[..|s| - 1])
    else s
  }

  /** What strip leaves is the input with a whitespace prefix and a
      whitespace suffix cut off; it has no whitespace at either end, and it
      is empty exactly when the input is all whitespace. */
  lemma {:induction false} StripSpec(s: string)
    ensures exists i, j :: 0 <= i <= j <= |s| && Strip(s) == s[i..j] && AllSpace(s[..i]) && AllSpace(s[j..])
    ensures Strip(s) == [] || (!IsSpace(Strip(s)[0]) && !IsSpace(Strip(s)[|Strip(s)| - 1]))
    ensures Strip(s) == [] <==> AllSpace(s)
    decreases |s|
  {
    var i, j := StripBounds(s);
    if s != [] && IsSpace(s[0]) {
      StripSpec(s[1..]);
    } else if s != [] && IsSpace(s[|s| - 1]) {
      StripSpec(s[..|s| - 1]);
    }
  }

  /** The bounds of the slice strip keeps. */
  lemma {:induction false} StripBounds(s: string) returns (i: nat, j: nat)
    ensures i <= j <= |s| && Strip(s) == s[i..j] && AllSpace(s[..i]) && AllSpace(s[j..])
    decreases |s|
  {
    if s != [] && IsSpace(s[0]) {
      var t := s[1..];
      var i', j' := StripBounds(t);
      i, j := i' + 1, j' + 1;
      assert t[i'..j'] == s[i..j];
      assert s[j..] == t[j'..];
      forall k | 0 <= k < i
        ensures IsSpace(s[..i][k])
      {
        if k > 0 {
          assert s[..i][k] == t[..i'][k - 1];
        }
      }
    } else if s != [] && IsSpace(s[|s| - 1]) {
      var t := s[..|s| - 1];
      i, j := StripBounds(t);
      assert t[i..j] == s[i..j];
      assert s[..i] == t[..i];
      forall k | 0 <= k < |s| - j
        ensures IsSpace(s[j..][k])
      {
        if k < |t| - j {
          assert s[j..][k] == t[j..][k];
        }
      }
    } else {
      i, j := 0, |s|;
      assert s[0..|s|] == s;
    }
  }

  lemma {:induction false} StripKeepsNoLineBreak(s: string)
    requires NoLineBreak(s)
    ensures NoLineBreak(Strip(s))
    decreases |s|
  {
    if s != [] && IsSpace(s[0]) {
      StripKeepsNoLineBreak(s[1..]);
    } else if s != [] && IsSpace(s[|s| - 1]) {
      StripKeepsNoLineBreak(s[..|s| - 1]);
    }
  }

  lemma StripIdempotent(s: string)
    ensures Strip(Strip(s)) == Strip(s)
  {
    StripSpec(s);
  }

  // ---------------------------------------------------------------------------
  // str.splitlines()

  /** Index of the first line boundary in s, or |s| when there is none. */
  function FirstBreak(s: string): (i: nat)
    ensures i <= |s|
    ensures forall k :: 0 <= k < i ==> !IsLineBreak(s[k])
    ensures i < |s| ==> IsLineBreak(s[i])
  {
    if s == [] || IsLineBreak(s[0]) then 0 else 1 + FirstBreak(s[1..])
  }

  /** str.splitlines(): pieces between line boundaries, "\r\n" counting as one
      boundary, with no trailing empty piece after a final boundary. */
  function SplitLines(s: string): (lines: seq<string>)
    ensures forall k :: 0 <= k < |lines| ==> NoLineBreak(lines[k])
    ensures s == [] <==> lines == []
    decreases |s|
  {
    if s == [] then []
    else
      var i := FirstBreak(s);
      if i == |s| then [s]
      else
        var next := if s[i] == '\r' && i + 1 < |s| && s[i + 1] == '\n' then i + 2 else i + 1;
        [s[..i]] + SplitLines(s[next..])
  }

  // ---------------------------------------------------------------------------
  // str.join

  function Join(parts: seq<string>, sep: string): string {
    if |parts| == 0 then ""
    else if |parts| == 1 then parts[0]
    else parts[0] + sep + Join(parts[1..], sep)
  }

  // ---------------------------------------------------------------------------
  // [l.strip() for l in pieces if l.strip()]

  /** The stripped, non-blank pieces, in their original order. */
  function StripNonBlank(pieces: seq<string>): (r: seq<string>)
    ensures forall k :: 0 <= k < |r| ==> r[k] != [] && Strip(r[k]) == r[k]
  {
    if pieces == [] then []
    else
      var line := Strip(pieces[0]);
      StripIdempotent(pieces[0]);
      (if line != [] then [line] else []) + StripNonBlank(pieces[1..])
  }

  /** The positions, counted from `from`, of the pieces StripNonBlank keeps. */
  ghost function KeptPositions(pieces: seq<string>, from: nat): seq<nat> {
    if pieces == [] then []
    else (if Strip(pieces[0]) != [] then [from] else []) + KeptPositions(pieces[1..], from + 1)
  }

  lemma {:induction false} KeptLength(pieces: seq<string>, from: nat)
    ensures |KeptPositions(pieces, from)| == |StripNonBlank(pieces)|
  {
    if pieces != [] {
      KeptLength(pieces[1..], from + 1);
    }
  }

  lemma {:induction false} KeptAt(pieces: seq<string>, from: nat, k: nat)
    requires k < |KeptPositions(pieces, from)|
    ensures from <= KeptPositions(pieces, from)[k] < from + |pieces|
    ensures k < |StripNonBlank(pieces)|
    ensures StripNonBlank(pieces)[k] == Strip(pieces[KeptPositions(pieces, from)[k] - from])
  {
    var tail := pieces[1..];
    var line := Strip(pieces[0]);
    var rest := KeptPositions(tail, from + 1);
    var head := if line != [] then [from] else [];
    assert KeptPositions(pieces, from) == head + rest;
    assert StripNonBlank(pieces) == (if line != [] then [line] else []) + StripNonBlank(tail);
    KeptLength(tail, from + 1);
    if k >= |head| {
      KeptAt(tail, from + 1, k - |head|);
      assert pieces[rest[k - |head|] - from] == tail[rest[k - |head|] - (from + 1)];
    }
  }

  lemma {:induction false} KeptIncreasing(pieces: seq<string>, from: nat)
    ensures forall k, l :: 0 <= k < l < |KeptPositions(pieces, from)| ==>
      KeptPositions(pieces, from)[k] < KeptPositions(pieces, from)[l]
  {
    if pieces != [] {
      var tail := pieces[1..];
      KeptIncreasing(tail, from + 1);
      var rest := KeptPositions(tail, from + 1);
      forall l | 0 <= l < |rest|
        ensures from < rest[l]
      {
        KeptAt(tail, from + 1, l);
      }
    }
  }

  lemma {:induction false} KeptExactly(pieces: seq<string>, from: nat, i: nat)
    requires from <= i < from + |pieces|
    ensures i in KeptPositions(pieces, from) <==> Strip(pieces[i - from]) != []
  {
    var tail := pieces[1..];
    if i > from {
      KeptExactly(tail, from + 1, i);
      assert pieces[i - from] == tail[i - (from + 1)];
    } else if i !in KeptPositions(tail, from + 1) {
    } else {
      var k :| 0 <= k < |KeptPositions(tail, from + 1)| && KeptPositions(tail, from + 1)[k] == i;
      KeptAt(tail, from + 1, k);
    }
  }

  /** StripNonBlank keeps the pieces in their original order, and keeps
      exactly the pieces that are not blank. */
  lemma KeptInOrder(pieces: seq<string>)
    ensures var ps := KeptPositions(pieces, 0);
      && |ps| == |StripNonBlank(pieces)|
      && (forall k :: 0 <= k < |ps| ==> ps[k] < |pieces| && StripNonBlank(pieces)[k] == Strip(pieces[ps[k]]))
      && (forall k, l :: 0 <= k < l < |ps| ==> ps[k] < ps[l])
      && (forall i :: 0 <= i < |pieces| ==> (i in ps <==> Strip(pieces[i]) != []))
  {
    var ps := KeptPositions(pieces, 0);
    KeptLength(pieces, 0);
    KeptIncreasing(pieces, 0);
    forall k | 0 <= k < |ps|
      ensures ps[k] < |pieces| && StripNonBlank(pieces)[k] == Strip(pieces[ps[k]])
    {
      KeptAt(pieces, 0, k);
    }
    forall i | 0 <= i < |pieces|
      ensures i in ps <==> Strip(pieces[i]) != []
    {
      KeptExactly(pieces, 0, i);
    }
  }

  /** Joining with "\n" and splitting into lines again takes the first piece
      off as a line of its own. */
  lemma SplitLinesOfJoinStep(pieces: seq<string>)
    requires |pieces| > 1 && NoLineBreak(pieces[0])
    ensures SplitLines(Join(pieces, "\n")) == [pieces[0]] + SplitLines(Join(pieces[1..], "\n"))
  {
    var p := pieces[0];
    var rest := Join(pieces[1..], "\n");
    var s := p + (['\n'] + rest);
    assert Join(pieces, "\n") == s;
    FirstBreakOfPrefix(p, ['\n'] + rest);
    assert s[|p|] == '\n' && s[..|p|] == p && s[|p| + 1..] == rest;
    assert SplitLines(s) == [s[..|p|]] + SplitLines(s[|p| + 1..]);
  }

  /** Non-empty pieces free of line boundaries come back exactly from
      splitlines once joined with "\n". */
  lemma {:induction false} SplitLinesOfJoinExact(pieces: seq<string>)
    requires forall k :: 0 <= k < |pieces| ==> pieces[k] != [] && NoLineBreak(pieces[k])
    ensures SplitLines(Join(pieces, "\n")) == pieces
  {
    if |pieces| == 1 {
      assert FirstBreak(pieces[0]) == |pieces[0]|;
    } else if |pieces| > 1 {
      SplitLinesOfJoinStep(pieces);
      SplitLinesOfJoinExact(pieces[1..]);
    }
  }

  /** Pieces free of line boundaries come back from splitlines once joined
      with "\n", up to blank pieces, which StripNonBlank drops anyway. */
  lemma {:induction false} SplitLinesOfJoin(pieces: seq<string>)
    requires forall k :: 0 <= k < |pieces| ==> NoLineBreak(pieces[k])
    ensures StripNonBlank(SplitLines(Join(pieces, "\n"))) == StripNonBlank(pieces)
  {
    if |pieces| == 1 {
      var p := pieces[0];
      assert FirstBreak(p) == |p|;
      if p == [] {
        StripSpec(p);
      }
    } else if |pieces| > 1 {
      var p := pieces[0];
      SplitLinesOfJoinStep(pieces);
      SplitLinesOfJoin(pieces[1..]);
      assert pieces == [p] + pieces[1..];
      StripNonBlankAppend([p], SplitLines(Join(pieces[1..], "\n")));
      StripNonBlankAppend([p], pieces[1..]);
    }
  }

  lemma FirstBreakOfPrefix(p: string, t: string)
    requires NoLineBreak(p) && t != [] && IsLineBreak(t[0])
    ensures FirstBreak(p + t) == |p|
    decreases |p|
  {
    if p != [] {
      assert (p + t)[1..] == p[1..] + t;
      FirstBreakOfPrefix(p[1..], t);
    }
  }

  lemma {:induction false} StripNonBlankAppend(a: seq<string>, b: seq<string>)
    ensures StripNonBlank(a + b) == StripNonBlank(a) + StripNonBlank(b)
  {
    if a == [] {
      assert a + b == b;
    } else {
      assert (a + b)[1..] == a[1..] + b;
      StripNonBlankAppend(a[1..], b);
    }
  }

  /** Pieces that are already stripped and non-blank are kept as they are. */
  lemma {:induction false} StripNonBlankFixed(pieces: seq<string>)
    requires forall k :: 0 <= k < |pieces| ==> pieces[k] != [] && Strip(pieces[k]) == pieces[k]
    ensures StripNonBlank(pieces) == pieces
  {
    if pieces != [] {
      StripNonBlankFixed(pieces[1..]);
    }
  }

  // ---------------------------------------------------------------------------
  // Maximal runs: str.split() and re.findall over a character class

  /** Length of the longest prefix of s whose characters all satisfy inRun. */
  function RunLength(s: string, inRun: char -> bool): (n: nat)
    ensures n <= |s|
    ensures forall k :: 0 <= k < n ==> inRun(s[k])
    ensures n < |s| ==> !inRun(s[n])
  {
    if s == [] || !inRun(s[0]) then 0 else 1 + RunLength(s[1..], inRun)
  }

  /** The maximal runs of characters satisfying inRun, left to right. */
  function Runs(s: string, inRun: char -> bool): (runs: seq<string>)
    ensures forall k :: 0 <= k < |runs| ==> runs[k] != []
    ensures forall k, m :: 0 <= k < |runs| && 0 <= m < |runs[k]| ==> inRun(runs[k][m])
    decreases |s|
  {
    if s == [] then []
    else if !inRun(s[0]) then Runs(s[1..], inRun)
    else
      var n := RunLength(s, inRun);
      [s[..n]] + Runs(s[n..], inRun)
  }

  /** A left-to-right counter of run starts: a position starts a run when its
      character is in the class and the previous one was not. */
  function CountRunStarts(s: string, inRun: char -> bool, previousIn: bool): nat {
    if s == [] then 0
    else
      (if inRun(s[0]) && !previousIn then 1 else 0) + CountRunStarts(s[1..], inRun, inRun(s[0]))
  }

  /** The runs are exactly as many as the run starts. */
  lemma {:induction false} RunsCountStarts(s: string, inRun: char -> bool)
    ensures |Runs(s, inRun)| == CountRunStarts(s, inRun, false)
    decreases |s|
  {
    if s != [] {
      if !inRun(s[0]) {
        RunsCountStarts(s[1..], inRun);
      } else {
        var n := RunLength(s, inRun);
        RunsCountStarts(s[n..], inRun);
        SkipRun(s[1..], inRun, n - 1);
        assert s[1..][n - 1..] == s[n..];
      }
    }
  }

  /** Inside a run, the counter finds no new start until the run ends. */
  lemma {:induction false} SkipRun(s: string, inRun: char -> bool, n: nat)
    requires n <= |s|
    requires forall k :: 0 <= k < n ==> inRun(s[k])
    requires n < |s| ==> !inRun(s[n])
    ensures CountRunStarts(s, inRun, true) == CountRunStarts(s[n..], inRun, false)
    decreases n
  {
    if n > 0 {
      assert s[1..][n - 1..] == s[n..];
      SkipRun(s[1..], inRun, n - 1);
    } else if s != [] {
      assert s[0..] == s;
    }
  }

  function Flatten(parts: seq<string>): string {
    if parts == [] then "" else parts[0] + Flatten(parts[1..])
  }

  function Keep(s: string, inRun: char -> bool): string {
    if s == [] then "" else (if inRun(s[0]) then [s[0]] else "") + Keep(s[1..], inRun)
  }

  lemma {:induction false} KeepAppend(a: string, b: string, inRun: char -> bool)
    ensures Keep(a + b, inRun) == Keep(a, inRun) + Keep(b, inRun)
  {
    if a == [] {
      assert a + b == b;
    } else {
      var c := a + b;
      assert c[0] == a[0] && c[1..] == a[1..] + b;
      KeepAppend(a[1..], b, inRun);
      assert Keep(c, inRun) == (if inRun(a[0]) then [a[0]] else "") + Keep(c[1..], inRun);
      assert Keep(a, inRun) == (if inRun(a[0]) then [a[0]] else "") + Keep(a[1..], inRun);
    }
  }

  lemma {:induction false} KeepAll(s: string, inRun: char -> bool)
    requires forall k :: 0 <= k < |s| ==> inRun(s[k])
    ensures Keep(s, inRun) == s
  {
    if s != [] {
      KeepAll(s[1..], inRun);
    }
  }

  /** The runs, laid end to end, are the characters of the class in order:
      no character of the class is lost and none outside it gets in. */
  lemma {:induction false} RunsCoverClass(s: string, inRun: char -> bool)
    ensures Flatten(Runs(s, inRun)) == Keep(s, inRun)
    decreases |s|
  {
    if s != [] {
      if !inRun(s[0]) {
        RunsCoverClass(s[1..], inRun);
      } else {
        var n := RunLength(s, inRun);
        RunsCoverClass(s[n..], inRun);
        assert s == s[..n] + s[n..];
        KeepAppend(s[..n], s[n..], inRun);
        KeepAll(s[..n], inRun);
      }
    }
  }

  /** s[i..j] is a non-empty slice neither preceded nor followed by a
      character of the class. */
  predicate RunAt(s: string, inRun: char -> bool, i: int, j: int) {
    0 <= i < j <= |s| && (i == 0 || !inRun(s[i - 1])) && (j == |s| || !inRun(s[j]))
  }

  /** r occurs in s as a maximal run: a slice that is neither preceded nor
      followed by a character of the class. */
  ghost predicate IsMaximalRun(s: string, inRun: char -> bool, r: string) {
    exists i, j :: RunAt(s, inRun, i, j) && r == s[i..j]
  }

  lemma RunAtShift(s: string, inRun: char -> bool, d: nat, i: nat, j: nat)
    requires d <= |s|
    requires RunAt(s[d..], inRun, i, j)
    requires i > 0 || d == 0 || !inRun(s[d - 1])
    ensures RunAt(s, inRun, i + d, j + d)
    ensures s[d..][i..j] == s[i + d..j + d]
  {
    if i > 0 {
      assert s[d..][i - 1] == s[i + d - 1];
    }
    if j < |s| - d {
      assert s[d..][j] == s[j + d];
    }
  }

  /** A maximal run of a suffix is one of the whole text, unless it could
      extend left across the cut. */
  lemma ShiftMaximalRun(s: string, inRun: char -> bool, d: nat, r: string)
    requires d <= |s|
    requires IsMaximalRun(s[d..], inRun, r)
    requires r != [] && inRun(r[0])
    requires d == 0 || !inRun(s[d - 1]) || !inRun(s[d])
    ensures IsMaximalRun(s, inRun, r)
  {
    var i: nat, j: nat :| RunAt(s[d..], inRun, i, j) && r == s[d..][i..j];
    if i == 0 && d > 0 {
      assert r[0] == s[d];
    }
    RunAtShift(s, inRun, d, i, j);
  }

  /** Every run is a maximal run of the text. */
  lemma {:induction false} RunsAreMaximal(s: string, inRun: char -> bool)
    ensures forall k :: 0 <= k < |Runs(s, inRun)| ==> IsMaximalRun(s, inRun, Runs(s, inRun)[k])
    decreases |s|
  {
    if s != [] {
      if !inRun(s[0]) {
        var rest := Runs(s[1..], inRun);
        RunsAreMaximal(s[1..], inRun);
        forall k | 0 <= k < |rest|
          ensures IsMaximalRun(s, inRun, rest[k])
        {
          ShiftMaximalRun(s, inRun, 1, rest[k]);
        }
      } else {
        var n := RunLength(s, inRun);
        var rest := Runs(s[n..], inRun);
        assert Runs(s, inRun) == [s[..n]] + rest;
        assert s[..n] == s[0..n];
        assert IsMaximalRun(s, inRun, s[..n]);
        RunsAreMaximal(s[n..], inRun);
        forall k | 0 <= k < |rest|
          ensures IsMaximalRun(s, inRun, rest[k])
        {
          ShiftMaximalRun(s, inRun, n, rest[k]);
        }
      }
    }
  }

  /** The parts with the separators put back between them:
      parts[0] + seps[0] + parts[1] + ... + parts[|seps|]. */
  function Interleave(parts: seq<string>, seps: seq<string>): string
    requires |parts| == |seps| + 1
  {
    if |seps| == 0 then parts[0]
    else parts[0] + seps[0] + Interleave(parts[1..], seps[1..])
  }

  lemma {:induction false} InterleaveStep(head: string, sep: string, parts: seq<string>, seps: seq<string>)
    requires |parts| == |seps| + 1
    ensures Interleave([head] + parts, [sep] + seps) == head + sep + Interleave(parts, seps)
  {
    assert ([head] + parts)[1..] == parts;
    assert ([sep] + seps)[1..] == seps;
  }

  /** One more leading character of the first part is one more leading
      character of the whole. */
  lemma {:induction false} InterleavePrepend(c: char, parts: seq<string>, seps: seq<string>)
    requires |parts| == |seps| + 1
    ensures Interleave([[c] + parts[0]] + parts[1..], seps) == [c] + Interleave(parts, seps)
  {
    var q := [[c] + parts[0]] + parts[1..];
    assert q[0] == [c] + parts[0] && q[1..] == parts[1..];
    if |seps| > 0 {
      var rest := Interleave(parts[1..], seps[1..]);
      assert Interleave(q, seps) == ([c] + parts[0]) + seps[0] + rest;
      assert Interleave(parts, seps) == parts[0] + seps[0] + rest;
      assert ([c] + parts[0]) + seps[0] + rest == [c] + (parts[0] + seps[0] + rest);
    }
  }

  predicate NoneIn(g: string, inRun: char -> bool) {
    forall m :: 0 <= m < |g| ==> !inRun(g[m])
  }

  /** The stretches of s outside the class: the one before the first run,
      the ones between runs, and the one after the last run. */
  function Outside(s: string, inRun: char -> bool): (gaps: seq<string>)
    ensures |gaps| >= 1
    ensures forall k :: 0 <= k < |gaps| ==> NoneIn(gaps[k], inRun)
    ensures s != [] && !inRun(s[0]) ==> gaps[0] != []
    decreases |s|
  {
    if s == [] then [""]
    else if !inRun(s[0]) then
      var g := Outside(s[1..], inRun);
      [[s[0]] + g[0]] + g[1..]
    else
      [""] + Outside(s[RunLength(s, inRun)..], inRun)
  }

  /** The runs are the text cut at its stretches outside the class, by
      position: put back between those stretches, they give the text again,
      and every stretch between two runs is non-empty. */
  lemma RunsRoundTrip(s: string, inRun: char -> bool)
    ensures |Outside(s, inRun)| == |Runs(s, inRun)| + 1
    ensures Interleave(Outside(s, inRun), Runs(s, inRun)) == s
    ensures forall k :: 0 < k < |Outside(s, inRun)| - 1 ==> Outside(s, inRun)[k] != []
  {
    OutsideCount(s, inRun);
    RunsRejoin(s, inRun);
    InnerStretches(s, inRun);
  }

  lemma {:induction false} OutsideCount(s: string, inRun: char -> bool)
    ensures |Outside(s, inRun)| == |Runs(s, inRun)| + 1
    decreases |s|
  {
    if s != [] && !inRun(s[0]) {
      OutsideCount(s[1..], inRun);
    } else if s != [] {
      OutsideCount(s[RunLength(s, inRun)..], inRun);
    }
  }

  lemma {:induction false} RunsRejoin(s: string, inRun: char -> bool)
    ensures |Outside(s, inRun)| == |Runs(s, inRun)| + 1
    ensures Interleave(Outside(s, inRun), Runs(s, inRun)) == s
    decreases |s|
  {
    OutsideCount(s, inRun);
    if s == [] {
    } else if !inRun(s[0]) {
      var t := s[1..];
      RunsRejoin(t, inRun);
      assert Outside(s, inRun) == [[s[0]] + Outside(t, inRun)[0]] + Outside(t, inRun)[1..];
      assert Runs(s, inRun) == Runs(t, inRun);
      InterleavePrepend(s[0], Outside(t, inRun), Runs(t, inRun));
      assert [s[0]] + t == s;
    } else {
      var n := RunLength(s, inRun);
      var t := s[n..];
      RunsRejoin(t, inRun);
      assert Outside(s, inRun) == [""] + Outside(t, inRun);
      assert Runs(s, inRun) == [s[..n]] + Runs(t, inRun);
      InterleaveStep("", s[..n], Outside(t, inRun), Runs(t, inRun));
      assert "" + s[..n] + t == s;
    }
  }

  lemma {:induction false} InnerStretches(s: string, inRun: char -> bool)
    ensures forall k :: 0 < k < |Outside(s, inRun)| - 1 ==> Outside(s, inRun)[k] != []
    decreases |s|
  {
    if s == [] {
    } else if !inRun(s[0]) {
      var g := Outside(s[1..], inRun);
      InnerStretches(s[1..], inRun);
      assert Outside(s, inRun) == [[s[0]] + g[0]] + g[1..];
      forall k | 0 < k < |Outside(s, inRun)| - 1
        ensures Outside(s, inRun)[k] != []
      {
        assert Outside(s, inRun)[k] == g[k];
      }
    } else {
      var g := Outside(s[RunLength(s, inRun)..], inRun);
      InnerStretches(s[RunLength(s, inRun)..], inRun);
      assert Outside(s, inRun) == [""] + g;
      forall k | 0 < k < |Outside(s, inRun)| - 1
        ensures Outside(s, inRun)[k] != []
      {
        assert Outside(s, inRun)[k] == g[k - 1];
      }
    }
  }

  /** Every character of every run satisfies any test that every character
      of the text satisfies. */
  lemma {:induction false} RunsWithin(s: string, inRun: char -> bool, p: char -> bool)
    requires forall k :: 0 <= k < |s| ==> p(s[k])
    ensures forall k, m :: 0 <= k < |Runs(s, inRun)| && 0 <= m < |Runs(s, inRun)[k]| ==> p(Runs(s, inRun)[k][m])
    decreases |s|
  {
    if s != [] {
      if !inRun(s[0]) {
        RunsWithin(s[1..], inRun, p);
      } else {
        var n := RunLength(s, inRun);
        var rest := Runs(s[n..], inRun);
        RunsWithin(s[n..], inRun, p);
        assert Runs(s, inRun) == [s[..n]] + rest;
        forall k, m | 0 <= k < |Runs(s, inRun)| && 0 <= m < |Runs(s, inRun)[k]|
          ensures p(Runs(s, inRun)[k][m])
        {
          if k > 0 {
            assert Runs(s, inRun)[k] == rest[k - 1];
          }
        }
      }
    }
  }

  predicate NonSpace(c: char) {
    !IsSpace(c)
  }

  lemma {:induction false} FlattenAppend(a: seq<string>, b: seq<string>)
    ensures Flatten(a + b) == Flatten(a) + Flatten(b)
  {
    if a == [] {
      assert a + b == b;
    } else {
      assert (a + b)[1..] == a[1..] + b;
      FlattenAppend(a[1..], b);
    }
  }

  lemma {:induction false} KeepNonSpaceOfBlank(s: string)
    requires AllSpace(s)
    ensures Keep(s, NonSpace) == ""
  {
    if s != [] {
      KeepNonSpaceOfBlank(s[1..]);
    }
  }

  /** strip removes whitespace only. */
  lemma {:induction false} KeepNonSpaceOfStrip(s: string)
    ensures Keep(Strip(s), NonSpace) == Keep(s, NonSpace)
    decreases |s|
  {
    if s != [] && IsSpace(s[0]) {
      KeepNonSpaceOfStrip(s[1..]);
      assert Strip(s) == Strip(s[1..]);
      assert Keep(s, NonSpace) == Keep(s[1..], NonSpace);
    } else if s != [] && IsSpace(s[|s| - 1]) {
      var init := s[..|s| - 1];
      var last := [s[|s| - 1]];
      KeepNonSpaceOfStrip(init);
      assert Strip(s) == Strip(init);
      assert s == init + last;
      KeepAppend(init, last, NonSpace);
      assert Keep(last, NonSpace) == "" by {
        assert last[1..] == [];
      }
    }
  }

  /** Stripping the pieces and dropping the blank ones removes whitespace
      only: the visible characters are kept, in order. */
  lemma {:induction false} KeepNonSpaceOfStripNonBlank(pieces: seq<string>)
    ensures Keep(Flatten(StripNonBlank(pieces)), NonSpace) == Keep(Flatten(pieces), NonSpace)
  {
    if pieces != [] {
      var line := Strip(pieces[0]);
      var head := if line != [] then [line] else [];
      KeepNonSpaceOfStripNonBlank(pieces[1..]);
      FlattenAppend(head, StripNonBlank(pieces[1..]));
      assert Flatten(head) == line;
      KeepAppend(line, Flatten(StripNonBlank(pieces[1..])), NonSpace);
      KeepAppend(pieces[0], Flatten(pieces[1..]), NonSpace);
      KeepNonSpaceOfStrip(pieces[0]);
    }
  }

  // ---------------------------------------------------------------------------
  // str.endswith and the `in` operator on strings

  predicate StartsWith(s: string, prefix: string) {
    |prefix| <= |s| && s[..|prefix|] == prefix
  }

  predicate EndsWith(s: string, suffix: string) {
    |suffix| <= |s| && s[|s| - |suffix|..] == suffix
  }

  /** `sub in s` */
  predicate Contains(s: string, sub: string)
    decreases |s|
  {
    StartsWith(s, sub) || (s != [] && Contains(s[1..], sub))
  }
}
