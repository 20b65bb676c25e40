/** The OCR text cleaner: `post_process_text` and `fix_common_errors` of the
    Tesseract front end. Raw OCR text is cut into lines; every line is
    stripped, its whitespace runs collapsed and a few misread glyphs
    replaced; lines that are too short or have no letter or digit are
    dropped, and the rest are joined again in their original order. */
module TextCleaner {
  import opened Chars
  import opened Text

  /** The substitution table, in the order the replacement loop visits it. */
  const Fixes: seq<(char, char)> := [('|', 'I'), ('[', 'I'), (']', 'I'), ('{', '('), ('}', ')')]

  /** A glyph the table rewrites. */
  predicate IsMisread(c: char) {
    c == '|' || c == '[' || c == ']' || c == '{' || c == '}'
  }

  predicate NoMisread(s: string) {
    forall i :: 0 <= i < |s| ==> !IsMisread(s[i])
  }

  /** What the whole table does to one character. */
  function FixChar(c: char): (d: char)
    ensures !IsMisread(d)
    ensures IsSpace(d) <==> IsSpace(c)
    ensures d == ' ' <==> c == ' '
  {
    if c == '|' || c == '[' || c == ']' then 'I'
    else if c == '{' then '('
    else if c == '}' then ')'
    else c
  }

  /** The table applied to every character of `s`. */
  function Fixed(s: string): (r: string)
    ensures |r| == |s|
  {
    seq(|s|, k requires 0 <= k < |s| => FixChar(s[k]))
  }

  /** `s.replace(wrong, correct)` for one-character arguments. */
  function Replace(s: string, wrong: char, correct: char): (r: string)
    ensures |r| == |s|
  {
    seq(|s|, k requires 0 <= k < |s| => if s[k] == wrong then correct else s[k])
  }

  /** A key of one of the first `n` table entries. */
  predicate FixedByFirst(c: char, n: nat)
    requires n <= |Fixes|
  {
    exists j :: 0 <= j < n && Fixes[j].0 == c
  }

  /** `fix_common_errors`: each table entry is replaced in turn in the whole
      text. Because no replacement produces a key of the table, the result
      is the single-pass, character-by-character substitution. */
  method FixCommonErrors(text: string) returns (r: string)
    ensures |r| == |text|
    ensures forall k :: 0 <= k < |text| ==> r[k] == FixChar(text[k])
  {
    assert forall j :: 0 <= j < |Fixes| ==>
      IsMisread(Fixes[j].0) && FixChar(Fixes[j].0) == Fixes[j].1;
    assert forall c :: IsMisread(c) ==> FixedByFirst(c, |Fixes|) by {
      assert Fixes[0].0 == '|' && Fixes[1].0 == '[' && Fixes[2].0 == ']';
      assert Fixes[3].0 == '{' && Fixes[4].0 == '}';
    }
    r := text;
    var i := 0;
    while i < |Fixes|
      invariant 0 <= i <= |Fixes|
      invariant |r| == |text|
      invariant forall k :: 0 <= k < |text| ==>
        r[k] == if FixedByFirst(text[k], i) then FixChar(text[k]) else text[k]
    {
      var (wrong, correct) := Fixes[i];
      r := Replace(r, wrong, correct);
      i := i + 1;
    }
  }

  lemma FixedIdempotent(s: string)
    ensures Fixed(Fixed(s)) == Fixed(s)
  {
    assert forall k :: 0 <= k < |s| ==> Fixed(Fixed(s))[k] == Fixed(s)[k];
  }

  /** Fixing leaves a string without misread glyphs unchanged. */
  lemma FixedKeepsClean(s: string)
    requires NoMisread(s)
    ensures Fixed(s) == s
  {
    assert forall k :: 0 <= k < |s| ==> Fixed(s)[k] == s[k];
  }

  /** The cleaning of one line: strip, collapse whitespace, fix glyphs. */
  function CleanLine(line: string): string {
    Fixed(Collapse(Strip(line)))
  }

  /** `any(c.isalnum() for c in s)`, scanning from the front. */
  predicate HasAlnum(s: string) {
    s != [] && (IsAlnum(s[0]) || HasAlnum(s[1..]))
  }

  /** The scan succeeds exactly when some character is a letter or a digit. */
  lemma {:induction false} HasAlnumIff(s: string)
    ensures HasAlnum(s) <==> exists i :: 0 <= i < |s| && IsAlnum(s[i])
  {
    if s != [] {
      HasAlnumIff(s[1..]);
      assert forall i :: 0 < i < |s| ==> s[i] == s[1..][i - 1];
      if exists i :: 0 <= i < |s| && IsAlnum(s[i]) {
        var i :| 0 <= i < |s| && IsAlnum(s[i]);
        if i > 0 {
          assert IsAlnum(s[1..][i - 1]);
        }
      }
    }
  }

  /** The filter a cleaned line must pass to be kept. */
  predicate Keep(line: string) {
    |line| > 2 && HasAlnum(line)
  }

  /** Fixing keeps a string normalized and removes every misread glyph. */
  lemma FixedShape(s: string)
    requires Normalized(s)
    ensures Normalized(Fixed(s)) && NoMisread(Fixed(s))
  {
    var f := Fixed(s);
    assert forall i :: 0 <= i < |s| ==> f[i] == FixChar(s[i]);
  }

  lemma CleanLineShape(line: string)
    ensures Normalized(CleanLine(line)) && NoMisread(CleanLine(line))
  {
    CollapseNormalized(Strip(line));
    FixedShape(Collapse(Strip(line)));
  }

  /** A line that is already the cleaning of some line is its own cleaning. */
  lemma CleanLineFixpoint(line: string)
    requires Normalized(line) && NoMisread(line)
    ensures CleanLine(line) == line
  {
    assert line == [] || (!IsSpace(line[0]) && !IsSpace(line[|line| - 1]));
    CollapseKeepsNormalized(line);
    FixedKeepsClean(line);
  }

  /** Every line cleaned, kept or not. */
  function Cleaned(lines: seq<string>): (cs: seq<string>)
    ensures |cs| == |lines|
  {
    seq(|lines|, i requires 0 <= i < |lines| => CleanLine(lines[i]))
  }

  lemma CleanedShape(lines: seq<string>)
    ensures forall l :: l in Cleaned(lines) ==> Normalized(l) && NoMisread(l)
  {
    var cs := Cleaned(lines);
    forall l | l in cs ensures Normalized(l) && NoMisread(l) {
      var i :| 0 <= i < |cs| && cs[i] == l;
      CleanLineShape(lines[i]);
    }
  }

  /** The lines that pass the filter, in their order. */
  function Kept(cs: seq<string>): (kept: seq<string>)
    ensures |kept| <= |cs|
  {
    if cs == [] then []
    else
      var n := |cs| - 1;
      Kept(cs[..n]) + if Keep(cs[n]) then [cs[n]] else []
  }

  /** Every kept line is one of the lines and passes the filter. */
  lemma {:induction false} KeptMembers(cs: seq<string>)
    ensures forall l :: l in Kept(cs) ==> l in cs && Keep(l)
  {
    if cs != [] {
      var n := |cs| - 1;
      KeptMembers(cs[..n]);
      assert forall l :: l in cs[..n] ==> l in cs;
    }
  }

  /** The cleaned lines that survive the filter, in input order. */
  function CleanedLines(lines: seq<string>): seq<string> {
    Kept(Cleaned(lines))
  }

  /** Every kept line is a normalized, glyph-fixed line that passes the filter. */
  lemma CleanedLinesShape(lines: seq<string>)
    ensures |CleanedLines(lines)| <= |lines|
    ensures forall l :: l in CleanedLines(lines) ==> Keep(l) && Normalized(l) && NoMisread(l)
  {
    CleanedShape(lines);
    KeptMembers(Cleaned(lines));
  }

  /** What `post_process_text` returns. */
  function Clean(text: string): string {
    JoinLines(CleanedLines(SplitLines(text)))
  }

  /** Filtering one more line extends the kept lines by that line when it
      passes the filter. */
  lemma KeptStep(cs: seq<string>, i: nat)
    requires i < |cs|
    ensures Kept(cs[..i + 1]) == Kept(cs[..i]) + if Keep(cs[i]) then [cs[i]] else []
  {
    assert cs[..i + 1][..i] == cs[..i];
  }

  /** `post_process_text`. Its `except` branch cannot be reached for string
      input, so the method has no error path. */
  method PostProcessText(text: string) returns (cleaned: string)
    ensures cleaned == Clean(text)
  {
    var lines := SplitLines(text);
    ghost var cs := Cleaned(lines);
    var kept: seq<string> := [];
    var i := 0;
    while i < |lines|
      invariant 0 <= i <= |lines|
      invariant kept == Kept(cs[..i])
    {
      KeptStep(cs, i);
      assert cs[i] == CleanLine(lines[i]);
      var line := Strip(lines[i]);
      if line != [] {
        line := Collapse(line);
        line := FixCommonErrors(line);
        assert line == cs[i];
        if |line| > 2 && HasAlnum(line) {
          kept := kept + [line];
        }
      } else {
        assert cs[i] == [];
      }
      i := i + 1;
    }
    assert cs[..i] == cs;
    cleaned := JoinLines(kept);
  }

  /** The lines of a text, where the empty text has none. */
  function OutputLines(text: string): seq<string> {
    if text == "" then [] else SplitLines(text)
  }

  lemma NormalizedHasNoNewline(s: string)
    requires Normalized(s)
    ensures '\n' !in s
  {
  }

  lemma JoinLinesNonEmpty(ls: seq<string>)
    requires ls != [] && ls[0] != []
    ensures JoinLines(ls) != []
  {
  }

  /** The lines of the cleaned text are exactly the kept cleaned lines. */
  lemma CleanedTextLines(text: string)
    ensures OutputLines(Clean(text)) == CleanedLines(SplitLines(text))
  {
    var kept := CleanedLines(SplitLines(text));
    CleanedLinesShape(SplitLines(text));
    if kept != [] {
      assert kept[0] in kept;
      JoinLinesNonEmpty(kept);
      forall l | l in kept ensures '\n' !in l {
        NormalizedHasNoNewline(l);
      }
      SplitJoinLines(kept);
    }
  }

  /** The shape of an output line: longer than two characters, with a
      letter or a digit, no whitespace at either end, no whitespace but
      single spaces, and no misread glyph. */
  predicate OutputShaped(l: string) {
    && |l| > 2
    && HasAlnum(l)
    && !IsSpace(l[0]) && !IsSpace(l[|l| - 1])
    && (forall i :: 0 <= i < |l| && IsSpace(l[i]) ==> l[i] == ' ')
    && (forall i, j :: 0 <= i && j == i + 1 < |l| ==> !(l[i] == ' ' && l[j] == ' '))
    && NoMisread(l)
  }

  /** A kept cleaned line has the output shape. */
  lemma KeptLineShape(l: string)
    requires Keep(l) && Normalized(l) && NoMisread(l)
    ensures OutputShaped(l)
  {
  }

  /** Every output line has the output shape. */
  lemma OutputLineShape(text: string)
    ensures forall l :: l in OutputLines(Clean(text)) ==> OutputShaped(l)
  {
    var kept := CleanedLines(SplitLines(text));
    CleanedTextLines(text);
    CleanedLinesShape(SplitLines(text));
    forall l | l in kept ensures OutputShaped(l) {
      KeptLineShape(l);
    }
  }

  /** Cleaning never adds lines. */
  lemma LineCountBound(text: string)
    ensures |OutputLines(Clean(text))| <= |SplitLines(text)|
  {
    CleanedTextLines(text);
    CleanedLinesShape(SplitLines(text));
  }

  lemma {:induction false} JoinLinesNoMisread(ls: seq<string>)
    requires forall l :: l in ls ==> NoMisread(l)
    ensures NoMisread(JoinLines(ls))
  {
    if |ls| >= 2 {
      assert ls[0] in ls;
      assert forall l :: l in ls[1..] ==> l in ls;
      JoinLinesNoMisread(ls[1..]);
      var j := JoinLines(ls);
      assert j == ls[0] + "\n" + JoinLines(ls[1..]);
      assert forall i :: 0 <= i < |ls[0]| ==> j[i] == ls[0][i];
      assert forall i :: |ls[0]| < i < |j| ==> j[i] == JoinLines(ls[1..])[i - |ls[0]| - 1];
    } else if |ls| == 1 {
      assert ls[0] in ls;
    }
  }

  /** No misread glyph survives anywhere in the cleaned text. */
  lemma CleanHasNoMisread(text: string)
    ensures NoMisread(Clean(text))
  {
    CleanedLinesShape(SplitLines(text));
    JoinLinesNoMisread(CleanedLines(SplitLines(text)));
  }

  /** `idx` lists, in increasing order, the positions of the lines of `cs`
      that pass the filter, and `Kept(cs)` holds those lines. */
  predicate PositionsOfKept(cs: seq<string>, idx: seq<nat>) {
    && |idx| == |Kept(cs)|
    && (forall k :: 0 <= k < |idx| ==> idx[k] < |cs| && Kept(cs)[k] == cs[idx[k]])
    && (forall k, m :: 0 <= k < m < |idx| ==> idx[k] < idx[m])
    && (forall i :: 0 <= i < |cs| ==> (Keep(cs[i]) <==> i in idx))
  }

  /** The positions of the lines that pass the filter. */
  function KeptIndices(cs: seq<string>): (idx: seq<nat>)
    ensures |idx| == |Kept(cs)|
    ensures forall k :: 0 <= k < |idx| ==> idx[k] < |cs| && Kept(cs)[k] == cs[idx[k]]
    ensures forall k, m :: 0 <= k < m < |idx| ==> idx[k] < idx[m]
    ensures forall i :: 0 <= i < |cs| ==> (Keep(cs[i]) <==> i in idx)
  {
    if cs == [] then []
    else
      var n := |cs| - 1;
      var r := KeptIndices(cs[..n]);
      if Keep(cs[n]) then
        KeptLast(cs, r);
        r + [n]
      else
        DroppedLast(cs, r);
        r
  }

  /** A last line that passes the filter adds its position. */
  lemma KeptLast(cs: seq<string>, r: seq<nat>)
    requires cs != [] && Keep(cs[|cs| - 1]) && PositionsOfKept(cs[..|cs| - 1], r)
    ensures PositionsOfKept(cs, r + [|cs| - 1])
  {
    var n := |cs| - 1;
    var front := cs[..n];
    var idx := r + [n];
    assert forall i :: 0 <= i < n ==> front[i] == cs[i];
    assert Kept(cs) == Kept(front) + [cs[n]];
    assert forall k :: 0 <= k < |r| ==> idx[k] == r[k];
    assert forall i :: 0 <= i < |cs| ==> (i in idx <==> i in r || i == n);
  }

  /** A last line that fails the filter adds nothing. */
  lemma DroppedLast(cs: seq<string>, r: seq<nat>)
    requires cs != [] && !Keep(cs[|cs| - 1]) && PositionsOfKept(cs[..|cs| - 1], r)
    ensures PositionsOfKept(cs, r)
  {
    var n := |cs| - 1;
    var front := cs[..n];
    assert Kept(cs) == Kept(front);
    forall k | 0 <= k < |r| ensures r[k] < |cs| && Kept(cs)[k] == cs[r[k]] {
      assert front[r[k]] == cs[r[k]];
    }
    forall i | 0 <= i < |cs| ensures Keep(cs[i]) <==> i in r {
      if i < n {
        assert front[i] == cs[i];
      }
    }
  }

  /** The kept lines are the cleaned input lines in their input order: the
      k-th kept line is the cleaning of input line `idx[k]`, the indices
      increase, and an input line is used exactly when its cleaned form
      passes the filter. With `CleanedTextLines` this describes the lines
      of the output. */
  lemma OrderPreserved(lines: seq<string>)
    ensures var idx := KeptIndices(Cleaned(lines));
      && |CleanedLines(lines)| == |idx|
      && (forall k :: 0 <= k < |idx| ==>
            idx[k] < |lines| && CleanedLines(lines)[k] == CleanLine(lines[idx[k]]))
      && (forall k, m :: 0 <= k < m < |idx| ==> idx[k] < idx[m])
      && (forall i :: 0 <= i < |lines| ==> (Keep(CleanLine(lines[i])) <==> i in idx))
  {
    var cs := Cleaned(lines);
    assert forall i :: 0 <= i < |lines| ==> cs[i] == CleanLine(lines[i]);
  }

  lemma {:induction false} KeptAll(cs: seq<string>)
    requires forall l :: l in cs ==> Keep(l)
    ensures Kept(cs) == cs
  {
    if cs != [] {
      var n := |cs| - 1;
      assert cs[n] in cs;
      assert forall l :: l in cs[..n] ==> l in cs;
      KeptAll(cs[..n]);
      assert cs[..n] + [cs[n]] == cs;
    }
  }

  lemma CleanedLinesFixpoint(lines: seq<string>)
    requires forall l :: l in lines ==> Keep(l) && Normalized(l) && NoMisread(l)
    ensures CleanedLines(lines) == lines
  {
    forall i | 0 <= i < |lines| ensures Cleaned(lines)[i] == lines[i] {
      assert lines[i] in lines;
      CleanLineFixpoint(lines[i]);
    }
    assert Cleaned(lines) == lines;
    KeptAll(lines);
  }

  /** Cleaning an already cleaned text changes nothing. */
  lemma CleanIdempotent(text: string)
    ensures Clean(Clean(text)) == Clean(text)
  {
    var kept := CleanedLines(SplitLines(text));
    CleanedTextLines(text);
    if kept == [] {
      assert Clean(text) == "";
      assert SplitLines("") == [""];
      assert CleanLine("") == "";
      assert Cleaned([""]) == [""];
      assert Kept([""]) == [];
    } else {
      CleanedLinesShape(SplitLines(text));
      assert SplitLines(Clean(text)) == kept;
      CleanedLinesFixpoint(kept);
    }
  }

  lemma {:induction false} NothingKept(cs: seq<string>)
    requires forall l :: l in cs ==> l == []
    ensures Kept(cs) == []
  {
    if cs != [] {
      var n := |cs| - 1;
      assert cs[n] in cs;
      assert forall l :: l in cs[..n] ==> l in cs;
      NothingKept(cs[..n]);
    }
  }

  /** Empty or whitespace-only input cleans to the empty text. */
  lemma BlankCleansToEmpty(text: string)
    requires forall i :: 0 <= i < |text| ==> IsSpace(text[i])
    ensures Clean(text) == ""
  {
    var lines := SplitLines(text);
    var cs := Cleaned(lines);
    forall l | l in cs ensures l == [] {
      var i :| 0 <= i < |cs| && cs[i] == l;
      assert forall j :: 0 <= j < |lines[i]| ==> lines[i][j] in text;
      assert Strip(lines[i]) == [];
      assert Collapse([]) == [];
    }
    NothingKept(cs);
  }
}
