/** The Python `str` operations the core relies on: `strip()`, `split()` with
    no argument, `' '.join`, `split('\n')`, `'\n'.join` and the `in` operator
    on strings. */
module Text {
  import opened Chars

  predicate NoSpace(s: string) {
    forall i :: 0 <= i < |s| ==> !IsSpace(s[i])
  }

  /** `s.lstrip()` */
  function TrimLeft(s: string): (r: string)
    ensures |r| <= |s| && r == s[|s| - |r|..]
    ensures r == [] || !IsSpace(r[0])
    ensures forall i :: 0 <= i < |s| - |r| ==> IsSpace(s[i])
  {
    if s != [] && IsSpace(s[0]) then TrimLeft(s[1..]) else s
  }

  /** `s.rstrip()` */
  function TrimRight(s: string): (r: string)
    ensures |r| <= |s| && r == s[..|r|]
    ensures r == [] || !IsSpace(r[|r| - 1])
    ensures forall i :: |r| <= i < |s| ==> IsSpace(s[i])
  {
    if s != [] && IsSpace(s[|s| - 1]) then TrimRight(s[..|s| - 1]) else s
  }

  /** `s.strip()`: whitespace removed from both ends. */
  function Strip(s: string): (r: string)
    ensures r == [] || (!IsSpace(r[0]) && !IsSpace(r[|r| - 1]))
    ensures (forall i :: 0 <= i < |s| ==> IsSpace(s[i])) ==> r == []
    ensures s == [] || (!IsSpace(s[0]) && !IsSpace(s[|s| - 1])) ==> r == s
  {
    var t := TrimLeft(s);
    assert t != [] ==> t[0] == s[|s| - |t|];
    TrimRight(t)
  }

  /** `strip()` removes exactly the leading and the trailing whitespace: what
      is left is a slice of `s` with only whitespace before and after it. */
  lemma StripSlice(s: string)
    ensures exists i :: (0 <= i <= |s| - |Strip(s)| && Strip(s) == s[i..][..|Strip(s)|]
      && AllSpace(s[..i]) && AllSpace(s[i..][|Strip(s)|..]))
  {
    var t := TrimLeft(s);
    var i := |s| - |t|;
    assert t == s[i..] && AllSpace(s[..i]);
    var r := TrimRight(t);
    assert AllSpace(t[|r|..]);
  }


  /** Length of the longest prefix of `s` without whitespace. */
  function WordLen(s: string): (n: nat)
    ensures n <= |s|
    ensures forall i :: 0 <= i < n ==> !IsSpace(s[i])
    ensures n < |s| ==> IsSpace(s[n])
  {
    if s == [] || IsSpace(s[0]) then 0 else 1 + WordLen(s[1..])
  }

  /** `s.split()`: the maximal runs of non-whitespace characters, in order. */
  function Words(s: string): (ws: seq<string>)
    ensures forall w :: w in ws ==> w != [] && NoSpace(w)
    decreases |s|
  {
    var t := TrimLeft(s);
    if t == [] then []
    else
      var n := WordLen(t);
      [t[..n]] + Words(t[n..])
  }

  /** `' '.join(ws)` */
  function JoinSpaces(ws: seq<string>): string {
    if ws == [] then ""
    else if |ws| == 1 then ws[0]
    else ws[0] + " " + JoinSpaces(ws[1..])
  }

  /** `' '.join(s.split())`: every run of whitespace becomes one space and
      whitespace at either end disappears. */
  function Collapse(s: string): string {
    JoinSpaces(Words(s))
  }

  /** The shape of a collapsed string: its only whitespace character is the
      space, never at either end and never followed by another whitespace. */
  predicate Normalized(s: string) {
    && (forall i :: 0 <= i < |s| && IsSpace(s[i]) ==> s[i] == ' ' && 0 < i < |s| - 1)
    && (forall i, j :: 0 <= i < |s| && j == i + 1 < |s| && IsSpace(s[i]) ==> !IsSpace(s[j]))
  }

  lemma {:induction false} JoinSpacesNormalized(ws: seq<string>)
    requires forall w :: w in ws ==> w != [] && NoSpace(w)
    ensures Normalized(JoinSpaces(ws))
    ensures ws != [] ==> JoinSpaces(ws) != []
  {
    if |ws| >= 2 {
      var w, rest := ws[0], JoinSpaces(ws[1..]);
      assert ws[0] in ws;
      assert forall v :: v in ws[1..] ==> v in ws;
      JoinSpacesNormalized(ws[1..]);
      var j := JoinSpaces(ws);
      assert j == w + " " + rest;
      assert forall k :: 0 <= k < |w| ==> j[k] == w[k];
      assert forall k :: 0 <= k < |rest| ==> j[|w| + 1 + k] == rest[k];
      forall i | 0 <= i < |j| && IsSpace(j[i])
        ensures j[i] == ' ' && 0 < i < |j| - 1 && !IsSpace(j[i + 1])
      {
        if i == |w| {
          assert j[i + 1] == rest[0];
        }
      }
    } else if |ws| == 1 {
      assert ws[0] in ws;
    }
  }

  /** Collapsing always yields a normalized string. */
  lemma CollapseNormalized(s: string)
    ensures Normalized(Collapse(s))
  {
    JoinSpacesNormalized(Words(s));
  }

  lemma {:induction false} WordLenOfWord(w: string, rest: string)
    requires NoSpace(w) && (rest == [] || IsSpace(rest[0]))
    ensures WordLen(w + rest) == |w|
  {
    if w != [] {
      assert (w + rest)[1..] == w[1..] + rest;
      WordLenOfWord(w[1..], rest);
    } else {
      assert w + rest == rest;
    }
  }

  /** Splitting a word, one space and a string that starts with a word. */
  lemma WordsAfterSpace(w: string, t: string)
    requires w != [] && NoSpace(w) && t != [] && !IsSpace(t[0])
    ensures Words(w + " " + t) == [w] + Words(t)
  {
    var x := w + " " + t;
    assert x == w + (" " + t);
    WordLenOfWord(w, " " + t);
    assert x[0] == w[0];
    assert TrimLeft(x) == x;
    assert x[..|w|] == w;
    assert x[|w|..] == " " + t;
    assert (" " + t)[1..] == t;
    assert TrimLeft(" " + t) == t;
  }

  lemma NormalizedAfterSpace(s: string, n: nat)
    requires Normalized(s) && n < |s| && s[n] == ' '
    ensures n + 1 < |s| && !IsSpace(s[n + 1])
    ensures Normalized(s[n + 1..])
  {
    var tail := s[n + 1..];
    forall i | 0 <= i < |tail| && IsSpace(tail[i])
      ensures tail[i] == ' ' && 0 < i < |tail| - 1 && !IsSpace(tail[i + 1])
    {
      assert tail[i] == s[n + 1 + i];
    }
  }

  /** A string that is already normalized is left unchanged by collapsing. */
  lemma {:induction false} CollapseKeepsNormalized(s: string)
    requires Normalized(s)
    ensures Collapse(s) == s
    ensures s != [] ==> Words(s) != []
    decreases |s|
  {
    if s != [] {
      var n := WordLen(s);
      if n < |s| {
        var w, tail := s[..n], s[n + 1..];
        assert s == w + " " + tail;
        NormalizedAfterSpace(s, n);
        CollapseKeepsNormalized(tail);
        WordsAfterSpace(w, tail);
        var ws := Words(tail);
        var all := [w] + ws;
        assert all[0] == w && all[1..] == ws && |all| >= 2;
        assert JoinSpaces(all) == w + " " + JoinSpaces(ws);
      } else {
        assert TrimLeft(s) == s;
        assert s[n..] == [] && s[..n] == s;
        assert Words(s[n..]) == [];
        assert Words(s) == [s];
      }
    }
  }

  /** Every character of `s` is whitespace. */
  predicate AllSpace(s: string) {
    forall i :: 0 <= i < |s| ==> IsSpace(s[i])
  }

  /** `s` is whitespace, then `ws[0]` ending at whitespace or the end, then
      the rest of `s` split the same way into `ws[1..]`: the words are the
      maximal runs without whitespace, in order. */
  ghost predicate SplitInto(s: string, ws: seq<string>)
    decreases |ws|
  {
    if ws == [] then AllSpace(s)
    else exists i: nat, j: nat :: (i <= j <= |s| && AllSpace(s[..i]) && s[i..j] == ws[0]
      && (j == |s| || IsSpace(s[j])) && SplitInto(s[j..], ws[1..]))
  }

  /** `split()` cuts `s` exactly at its whitespace runs. */
  lemma {:induction false} WordsSplit(s: string)
    ensures SplitInto(s, Words(s))
    decreases |s|
  {
    var t := TrimLeft(s);
    var i := |s| - |t|;
    assert AllSpace(s[..i]);
    if t != [] {
      var n := WordLen(t);
      var j := i + n;
      assert t == s[i..];
      assert s[i..j] == t[..n];
      assert j == |s| || IsSpace(s[j]);
      var rest := t[n..];
      assert rest == s[j..];
      WordsSplit(rest);
      assert Words(s)[0] == s[i..j] && Words(s)[1..] == Words(rest);
    }
  }

  /** The characters of `s` that are not whitespace, in order. */
  function NonSpace(s: string): string {
    if s == [] then []
    else (if IsSpace(s[0]) then [] else [s[0]]) + NonSpace(s[1..])
  }

  /** The words one after the other, with nothing between them. */
  function Concat(ws: seq<string>): string {
    if ws == [] then [] else ws[0] + Concat(ws[1..])
  }

  lemma {:induction false} NonSpaceAppend(a: string, b: string)
    ensures NonSpace(a + b) == NonSpace(a) + NonSpace(b)
  {
    if a == [] {
      assert a + b == b;
    } else {
      var h := if IsSpace(a[0]) then [] else [a[0]];
      var c := a + b;
      assert c[0] == a[0] && c[1..] == a[1..] + b;
      NonSpaceAppend(a[1..], b);
      assert NonSpace(c) == h + (NonSpace(a[1..]) + NonSpace(b));
    }
  }

  lemma {:induction false} NonSpaceOfWord(w: string)
    requires NoSpace(w)
    ensures NonSpace(w) == w
  {
    if w != [] {
      NonSpaceOfWord(w[1..]);
    }
  }

  lemma {:induction false} NonSpaceOfBlank(s: string)
    requires AllSpace(s)
    ensures NonSpace(s) == []
  {
    if s != [] {
      NonSpaceOfBlank(s[1..]);
    }
  }

  /** Whitespace, then a word, then the rest: only the word and the rest's
      non-whitespace remain. */
  lemma NonSpaceStep(s: string, i: nat, j: nat)
    requires i <= j <= |s| && AllSpace(s[..i]) && NoSpace(s[i..j])
    ensures NonSpace(s) == s[i..j] + NonSpace(s[j..])
  {
    assert s == s[..i] + (s[i..j] + s[j..]);
    NonSpaceAppend(s[..i], s[i..j] + s[j..]);
    NonSpaceAppend(s[i..j], s[j..]);
    NonSpaceOfBlank(s[..i]);
    NonSpaceOfWord(s[i..j]);
  }

  /** Splitting at whitespace loses exactly the whitespace. */
  lemma {:induction false} SplitIntoNonSpace(s: string, ws: seq<string>)
    requires SplitInto(s, ws) && forall w :: w in ws ==> NoSpace(w)
    ensures NonSpace(s) == Concat(ws)
    decreases |ws|
  {
    if ws == [] {
      NonSpaceOfBlank(s);
    } else {
      var i: nat, j: nat :| i <= j <= |s| && AllSpace(s[..i]) && s[i..j] == ws[0]
        && (j == |s| || IsSpace(s[j])) && SplitInto(s[j..], ws[1..]);
      assert ws[0] in ws;
      NonSpaceStep(s, i, j);
      assert forall w :: w in ws[1..] ==> w in ws;
      SplitIntoNonSpace(s[j..], ws[1..]);
    }
  }

  /** A word, a space, then the rest: the space is dropped. */
  lemma NonSpaceJoinStep(w: string, rest: string)
    requires NoSpace(w)
    ensures NonSpace(w + " " + rest) == w + NonSpace(rest)
  {
    var tail := " " + rest;
    assert w + " " + rest == w + tail;
    assert IsSpace(tail[0]) && tail[1..] == rest;
    NonSpaceAppend(w, tail);
    NonSpaceOfWord(w);
  }

  /** Joining words with single spaces loses exactly those spaces. */
  lemma {:induction false} JoinSpacesNonSpace(ws: seq<string>)
    requires forall w :: w in ws ==> NoSpace(w)
    ensures NonSpace(JoinSpaces(ws)) == Concat(ws)
  {
    if ws != [] {
      assert ws[0] in ws;
      if |ws| == 1 {
        NonSpaceOfWord(ws[0]);
        assert Concat(ws) == ws[0] + Concat([]);
      } else {
        assert forall w :: w in ws[1..] ==> w in ws;
        JoinSpacesNonSpace(ws[1..]);
        NonSpaceJoinStep(ws[0], JoinSpaces(ws[1..]));
      }
    }
  }

  /** `' '.join(s.split())` keeps every character that is not whitespace,
      in order, and adds none. */
  lemma CollapseKeepsContent(s: string)
    ensures NonSpace(Collapse(s)) == NonSpace(s)
  {
    WordsSplit(s);
    SplitIntoNonSpace(s, Words(s));
    JoinSpacesNonSpace(Words(s));
  }

  /** `s.split('\n')`: the pieces between line feeds; always at least one. */
  function SplitLines(s: string): (ls: seq<string>)
    ensures |ls| >= 1
    ensures forall l :: l in ls ==> '\n' !in l
    ensures forall i, j :: 0 <= i < |ls| && 0 <= j < |ls[i]| ==> ls[i][j] in s
  {
    if s == [] then [""]
    else
      var rest := SplitLines(s[1..]);
      if s[0] == '\n' then [""] + rest
      else [[s[0]] + rest[0]] + rest[1..]
  }

  /** `'\n'.join(ls)` */
  function JoinLines(ls: seq<string>): string {
    if ls == [] then ""
    else if |ls| == 1 then ls[0]
    else ls[0] + "\n" + JoinLines(ls[1..])
  }

  lemma {:induction false} SplitLinesSingle(a: string)
    requires '\n' !in a
    ensures SplitLines(a) == [a]
  {
    if a != [] {
      SplitLinesSingle(a[1..]);
      assert [a[0]] + a[1..] == a;
    }
  }

  lemma {:induction false} SplitLinesJoined(a: string, b: string)
    requires '\n' !in a
    ensures SplitLines(a + "\n" + b) == [a] + SplitLines(b)
  {
    if a == [] {
      assert a + "\n" + b == "\n" + b;
      assert ("\n" + b)[1..] == b;
    } else {
      assert (a + "\n" + b)[1..] == a[1..] + "\n" + b;
      SplitLinesJoined(a[1..], b);
      assert [a[0]] + a[1..] == a;
    }
  }

  /** Splitting undoes joining for lines without line feeds. */
  lemma {:induction false} SplitJoinLines(ls: seq<string>)
    requires |ls| >= 1
    requires forall l :: l in ls ==> '\n' !in l
    ensures SplitLines(JoinLines(ls)) == ls
  {
    assert ls[0] in ls;
    if |ls| == 1 {
      SplitLinesSingle(ls[0]);
    } else {
      assert forall l :: l in ls[1..] ==> l in ls;
      SplitJoinLines(ls[1..]);
      SplitLinesJoined(ls[0], JoinLines(ls[1..]));
    }
  }

  /** `t` occurs in `s` starting at index `p`. */
  predicate OccursAt(s: string, p: nat, t: string) {
    p + |t| <= |s| && forall i :: 0 <= i < |t| ==> s[p + i] == t[i]
  }

  /** `t in s` on strings. */
  predicate Contains(s: string, t: string) {
    exists p :: 0 <= p <= |s| && OccursAt(s, p, t)
  }
}
