/** The field extractor: `parse_document_info` of the document manager.
    The text is upper-cased; the document type is the first entry of a fixed
    vocabulary that occurs in it, and every other field is the group of an
    independent regular-expression search of the shape
    `(?:L1|L2|...)[.:# ]*(VALUE)`. Each search is modelled as the backtracking
    scanner the regular-expression engine runs: for every start position from
    the left, the label alternatives in their written order, the separators
    taken greedily and given back one at a time, then the value. */
module FieldExtractor {
  import opened Chars
  import opened Text

  datatype Option<T> = None | Some(value: T)

  /** The record `parse_document_info` returns; a field that was not found
      is the empty string. */
  datatype DocumentInfo = DocumentInfo(
    docType: string,
    docNumber: string,
    fullName: string,
    dateOfBirth: string,
    expiryDate: string,
    issueDate: string)

  const NoInfo := DocumentInfo("", "", "", "", "", "")

  /** The document types, in the priority order of the search. */
  const DocTypes: seq<string> := ["PASSPORT", "DRIVER LICENSE", "ID CARD"]

  /** The character classes the patterns use: `[.:# ]`, `[A-Z0-9-]`,
      `[A-Z ]` and `\d`. */
  datatype CharClass = Separator | NumberChar | NameChar | Digit

  predicate InClass(cls: CharClass, c: char) {
    match cls
    case Separator => c == '.' || c == ':' || c == '#' || c == ' '
    case NumberChar => IsUpper(c) || IsDigit(c) || c == '-'
    case NameChar => IsUpper(c) || c == ' '
    case Digit => IsDigit(c)
  }

  /** `[-/]` */
  predicate IsDateSep(c: char) { c == '-' || c == '/' }

  /** `[b, e)` holds only `cls` characters and cannot be extended: what a
      greedy star over `cls` takes from `b`. */
  predicate MaximalRun(s: string, b: nat, e: nat, cls: CharClass) {
    && b <= e <= |s|
    && (forall i :: b <= i < e ==> InClass(cls, s[i]))
    && (e == |s| || !InClass(cls, s[e]))
  }

  /** The length of the longest run of `cls` characters starting at `q`. */
  function Run(s: string, q: nat, cls: CharClass): (n: nat)
    requires q <= |s|
    ensures MaximalRun(s, q, q + n, cls)
    ensures forall e: nat :: MaximalRun(s, q, e, cls) ==> e == q + n
    decreases |s| - q
  {
    if q < |s| && InClass(cls, s[q]) then 1 + Run(s, q + 1, cls) else 0
  }

  /** What the capturing group of a pattern is. */
  datatype ValueKind =
    | NumberValue  // `[A-Z0-9-]{6,}`
    | NameValue    // `[A-Z ]+`
    | DateValue    // `\d{1,2}[-/]\d{1,2}[-/]\d{2,4}`

  /** One search: the label alternatives in order and the value pattern. */
  datatype Rule = Rule(labels: seq<string>, kind: ValueKind)

  const NumberRule := Rule(["ID", "DL", "NO", "NUMBER"], NumberValue)
  const NameRule := Rule(["NAME"], NameValue)
  const BirthRule := Rule(["DOB", "BIRTH"], DateValue)
  const ExpiryRule := Rule(["EXP", "EXPIRES"], DateValue)
  const IssueRule := Rule(["ISS", "ISSUED"], DateValue)

  predicate AllDigits(s: string) {
    forall i :: 0 <= i < |s| ==> IsDigit(s[i])
  }

  /** `day` digits, `[-/]`, `month` digits, `[-/]`, then two to four digits
      make up all of `v`. */
  predicate DateShapedWith(v: string, day: nat, month: nat) {
    && day + month + 4 <= |v| <= day + month + 6
    && AllDigits(v[..day]) && IsDateSep(v[day])
    && AllDigits(v[day + 1..day + month + 1]) && IsDateSep(v[day + month + 1])
    && AllDigits(v[day + month + 2..])
  }

  /** The shape `D{1,2}[-/]D{1,2}[-/]D{2,4}` of a whole string. */
  predicate DateShaped(v: string) {
    DateShapedWith(v, 1, 1) || DateShapedWith(v, 1, 2) || DateShapedWith(v, 2, 1) || DateShapedWith(v, 2, 2)
  }

  /** `count` digits at `q`, then a `[-/]`. */
  predicate DigitsThenSep(s: string, q: nat, count: nat) {
    && q + count < |s|
    && (forall i :: q <= i < q + count ==> IsDigit(s[i]))
    && IsDateSep(s[q + count])
  }

  /** `\d{2,4}` closing the pattern, from `q` to `e`: the quantifier is
      greedy and nothing follows it, so it takes as many digits as there
      are, up to four. */
  predicate YearAt(s: string, q: nat, e: nat) {
    && q + 2 <= e <= q + 4 && e <= |s|
    && (forall i :: q <= i < e ==> IsDigit(s[i]))
    && (e == q + 4 || e == |s| || !IsDigit(s[e]))
  }

  /** The date pattern with `day` digits before the first `[-/]` and `month`
      digits before the second matches from `q` to `e`. */
  predicate DateAt(s: string, q: nat, day: nat, month: nat, e: nat) {
    DigitsThenSep(s, q, day) && DigitsThenSep(s, q + day + 1, month) && YearAt(s, q + day + month + 2, e)
  }

  /** `\d{1,2}[-/]\d{1,2}[-/]\d{2,4}` matches from `q` to `e`, the year taking
      as many digits as the greedy quantifier does. */
  predicate GreedyDate(s: string, q: nat, e: nat) {
    DateAt(s, q, 2, 2, e) || DateAt(s, q, 2, 1, e) || DateAt(s, q, 1, 2, e) || DateAt(s, q, 1, 1, e)
  }

  /** `\d{2,4}` closing the pattern. */
  function MatchYear(s: string, q: nat): (e: Option<nat>)
    requires q <= |s|
    ensures e.Some? ==> YearAt(s, q, e.value) && AllDigits(s[q..e.value])
    ensures forall end: nat :: YearAt(s, q, end) ==> e == Some(end)
  {
    var n := Run(s, q, Digit);
    assert forall end: nat :: YearAt(s, q, end) ==> MaximalRun(s, q, end, Digit) || end == q + 4;
    if n >= 2 then Some(q + if n < 4 then n else 4) else None
  }

  /** The date with `day` digits before the first `[-/]` and `month` digits
      before the second. */
  function DateWith(s: string, q: nat, day: nat, month: nat): (e: Option<nat>)
    requires q <= |s| && 1 <= day <= 2 && 1 <= month <= 2
    ensures e.Some? ==> (q < e.value <= |s| && DateAt(s, q, day, month, e.value)
      && DateShapedWith(s[q..e.value], day, month))
    ensures forall end: nat :: DateAt(s, q, day, month, end) ==> e == Some(end)
  {
    if DigitsThenSep(s, q, day) && DigitsThenSep(s, q + day + 1, month) then
      var e := MatchYear(s, q + day + month + 2);
      if e.Some? then
        var v := s[q..e.value];
        assert v[..day] == s[q..q + day];
        assert v[day + 1..day + month + 1] == s[q + day + 1..q + day + month + 1];
        assert v[day + month + 2..] == s[q + day + month + 2..e.value];
        e
      else None
    else None
  }

  /** One or two digits then `[-/]` cannot both hold at `q`: the second
      character is a digit in one case and a separator in the other. */
  lemma DigitsThenSepOnce(s: string, q: nat)
    ensures !(DigitsThenSep(s, q, 1) && DigitsThenSep(s, q, 2))
  {
    if DigitsThenSep(s, q, 2) {
      assert IsDigit(s[q + 1]);
    }
  }

  /** `\d{1,2}[-/]\d{1,2}[-/]\d{2,4}` at `q`, in the engine's backtracking
      order: two day digits before one, and within each, two month digits
      before one. It finds the date exactly when one starts at `q`. */
  function MatchDate(s: string, q: nat): (e: Option<nat>)
    requires q <= |s|
    ensures e.Some? ==> q < e.value <= |s| && GreedyDate(s, q, e.value) && DateShaped(s[q..e.value])
    ensures forall end: nat :: GreedyDate(s, q, end) ==> e == Some(end)
  {
    DigitsThenSepOnce(s, q);
    DigitsThenSepOnce(s, q + 2);
    DigitsThenSepOnce(s, q + 3);
    var e := DateWith(s, q, 2, 2);
    if e.Some? then e
    else
      var e := DateWith(s, q, 2, 1);
      if e.Some? then e
      else
        var e := DateWith(s, q, 1, 2);
        if e.Some? then e
        else DateWith(s, q, 1, 1)
  }

  /** What the value group takes when it starts at `b`: a maximal run of
      six or more number characters, a non-empty maximal run of name
      characters, or a date. */
  predicate ValueAt(kind: ValueKind, s: string, b: nat, e: nat) {
    match kind
    case NumberValue => MaximalRun(s, b, e, NumberChar) && e - b >= 6
    case NameValue => MaximalRun(s, b, e, NameChar) && b < e
    case DateValue => GreedyDate(s, b, e)
  }

  /** The end of the value group when it starts at `q`; it is found
      exactly when the value pattern matches there. */
  function MatchValue(kind: ValueKind, s: string, q: nat): (e: Option<nat>)
    requires q <= |s|
    ensures e.Some? ==> q < e.value <= |s| && ValueAt(kind, s, q, e.value)
    ensures e.Some? && kind == DateValue ==> DateShaped(s[q..e.value])
    ensures forall end: nat :: ValueAt(kind, s, q, end) ==> e == Some(end)
  {
    match kind
    case NumberValue =>
      var n := Run(s, q, NumberChar);
      if n >= 6 then Some(q + n) else None
    case NameValue =>
      var n := Run(s, q, NameChar);
      if n >= 1 then Some(q + n) else None
    case DateValue =>
      MatchDate(s, q)
  }

  /** The group, as (start, end), once a label ending at `a` has matched and
      `[.:# ]*` holds `k` characters: the value is tried there, and if it
      fails the separator run gives back one character and it is tried
      again, down to an empty separator run. */
  function MatchAfterLabel(s: string, a: nat, k: nat, kind: ValueKind): (g: Option<(nat, nat)>)
    requires a + k <= |s|
    ensures g.Some? ==> a <= g.value.0 <= a + k && g.value.0 < g.value.1 <= |s|
    decreases k
  {
    match MatchValue(kind, s, a + k)
    case Some(e) => Some((a + k, e))
    case None => if k == 0 then None else MatchAfterLabel(s, a, k - 1, kind)
  }

  /** The group once a label ending at `a` has matched: the greedy
      separator run, given back as needed, then the value. */
  function AfterSeparators(s: string, a: nat, kind: ValueKind): (g: Option<(nat, nat)>)
    requires a <= |s|
    ensures g.Some? ==> a <= g.value.0 < g.value.1 <= |s|
  {
    MatchAfterLabel(s, a, Run(s, a, Separator), kind)
  }

  /** The group when the label `lbl` is tried at position `p`: the label
      itself, the greedy separator run, then the value. */
  function AfterLabel(s: string, p: nat, lbl: string, kind: ValueKind): (g: Option<(nat, nat)>)
    requires p <= |s|
    ensures g.Some? ==> p + |lbl| <= g.value.0 < g.value.1 <= |s|
  {
    if OccursAt(s, p, lbl) then
      AfterSeparators(s, p + |lbl|, kind)
    else None
  }

  /** The label alternatives tried in their written order at position `p`. */
  function MatchLabels(s: string, p: nat, labels: seq<string>, kind: ValueKind): (g: Option<(nat, nat)>)
    requires p <= |s|
    ensures g.Some? ==> p <= g.value.0 < g.value.1 <= |s|
  {
    if labels == [] then None
    else
      var first := AfterLabel(s, p, labels[0], kind);
      if first.Some? then first else MatchLabels(s, p, labels[1..], kind)
  }

  /** `re.search` from position `p` on: the first position where the
      pattern matches. */
  function SearchFrom(s: string, p: nat, rule: Rule): (g: Option<(nat, nat)>)
    requires p <= |s|
    ensures g.Some? ==> p <= g.value.0 < g.value.1 <= |s|
    decreases |s| - p
  {
    var here := MatchLabels(s, p, rule.labels, rule.kind);
    if here.Some? then here
    else if p == |s| then None
    else SearchFrom(s, p + 1, rule)
  }

  /** `match.group(1)` of `re.search`, or `''` when nothing matches. */
  function Capture(s: string, rule: Rule): string {
    match SearchFrom(s, 0, rule)
    case None => ""
    case Some((b, e)) => s[b..e]
  }

  /** The search finds the leftmost position at which the pattern matches:
      nothing matches further left, and when it finds nothing, nothing
      matches anywhere. */
  lemma {:induction false} SearchLeftmost(s: string, p: nat, rule: Rule)
    requires p <= |s|
    ensures SearchFrom(s, p, rule).None? ==>
      forall q :: p <= q <= |s| ==> MatchLabels(s, q, rule.labels, rule.kind).None?
    decreases |s| - p
  {
    var here := MatchLabels(s, p, rule.labels, rule.kind);
    if here.None? && p < |s| {
      assert SearchFrom(s, p, rule) == SearchFrom(s, p + 1, rule);
      SearchLeftmost(s, p + 1, rule);
    }
  }

  /** No position in `[lo, hi)` starts a match of the rule. */
  predicate NoMatchBetween(s: string, lo: nat, hi: nat, rule: Rule)
    requires hi <= |s|
  {
    forall r :: lo <= r < hi ==> MatchLabels(s, r, rule.labels, rule.kind).None?
  }

  /** What the search finds is the match at the leftmost position that
      starts one. */
  lemma {:induction false} SearchFindsLeftmost(s: string, p: nat, rule: Rule)
    requires p <= |s|
    requires SearchFrom(s, p, rule).Some?
    ensures exists q :: (p <= q <= |s|
      && MatchLabels(s, q, rule.labels, rule.kind) == SearchFrom(s, p, rule)
      && NoMatchBetween(s, p, q, rule))
    decreases |s| - p
  {
    var here := MatchLabels(s, p, rule.labels, rule.kind);
    if here.Some? {
      assert NoMatchBetween(s, p, p, rule);
    } else {
      assert SearchFrom(s, p, rule) == SearchFrom(s, p + 1, rule);
      SearchFindsLeftmost(s, p + 1, rule);
      var q :| p + 1 <= q <= |s|
        && MatchLabels(s, q, rule.labels, rule.kind) == SearchFrom(s, p, rule)
        && NoMatchBetween(s, p + 1, q, rule);
      assert NoMatchBetween(s, p, q, rule);
    }
  }

  /** A text in which none of the labels occurs yields no value. */
  lemma NoLabelNoCapture(s: string, rule: Rule)
    requires forall p, j :: 0 <= p <= |s| && 0 <= j < |rule.labels| ==> !OccursAt(s, p, rule.labels[j])
    ensures Capture(s, rule) == ""
  {
    if SearchFrom(s, 0, rule).Some? {
      SearchFindsLeftmost(s, 0, rule);
      var q :| 0 <= q <= |s| && MatchLabels(s, q, rule.labels, rule.kind) == SearchFrom(s, 0, rule)
        && NoMatchBetween(s, 0, q, rule);
      MatchLabelsFrom(s, q, rule.labels, rule.kind);
    }
  }

  /** Once the attempt at `a + k + 1` has failed, a name group found by giving
      back separators is the single space at which it starts. */
  lemma {:induction false} NameBacktracksToSpace(s: string, a: nat, k: nat)
    requires a + k < |s|
    requires forall i :: a <= i <= a + k ==> InClass(Separator, s[i])
    requires a + k + 1 == |s| || !InClass(NameChar, s[a + k + 1])
    ensures var g := MatchAfterLabel(s, a, k, NameValue);
      g.Some? ==> s[g.value.0] == ' ' && g.value.1 == g.value.0 + 1
    decreases k
  {
    if MatchValue(NameValue, s, a + k).None? && k > 0 {
      NameBacktracksToSpace(s, a, k - 1);
    }
  }

  /** A name group right after the greedy separator run starts with a
      letter; one found by backtracking is a single space. */
  lemma NameGroupShape(s: string, a: nat)
    requires a <= |s|
    ensures var g := AfterSeparators(s, a, NameValue);
      g.Some? ==>
        (g.value.0 == a + Run(s, a, Separator) && IsUpper(s[g.value.0]))
        || (s[g.value.0] == ' ' && g.value.1 == g.value.0 + 1)
  {
    var m := Run(s, a, Separator);
    if MatchValue(NameValue, s, a + m).None? && m > 0 {
      NameBacktracksToSpace(s, a, m - 1);
    }
  }

  /** A match at `p` is the match after the first label alternative that
      matches there; when there is none, no alternative matches. */
  lemma {:induction false} MatchLabelsFrom(s: string, p: nat, labels: seq<string>, kind: ValueKind)
    requires p <= |s|
    ensures MatchLabels(s, p, labels, kind).Some? ==>
      exists j :: (0 <= j < |labels| && AfterLabel(s, p, labels[j], kind) == MatchLabels(s, p, labels, kind)
        && forall i :: 0 <= i < j ==> AfterLabel(s, p, labels[i], kind).None?)
    ensures MatchLabels(s, p, labels, kind).None? ==>
      forall j :: 0 <= j < |labels| ==> AfterLabel(s, p, labels[j], kind).None?
  {
    if labels != [] {
      var first := AfterLabel(s, p, labels[0], kind);
      if first.None? {
        var rest := labels[1..];
        assert MatchLabels(s, p, labels, kind) == MatchLabels(s, p, rest, kind);
        MatchLabelsFrom(s, p, rest, kind);
        assert forall i :: 0 < i < |labels| ==> labels[i] == rest[i - 1];
        if MatchLabels(s, p, rest, kind).Some? {
          var j :| 0 <= j < |rest| && AfterLabel(s, p, rest[j], kind) == MatchLabels(s, p, rest, kind)
            && forall i :: 0 <= i < j ==> AfterLabel(s, p, rest[i], kind).None?;
          assert AfterLabel(s, p, labels[j + 1], kind) == MatchLabels(s, p, labels, kind);
        }
      } else {
        assert MatchLabels(s, p, labels, kind) == first;
      }
    }
  }

  /** A match after the label `t` at `p`: the label is there and only
      separators lie between it and the group. */
  lemma AfterLabelSeparated(s: string, p: nat, t: string, kind: ValueKind, b: nat, e: nat)
    requires p <= |s|
    requires AfterLabel(s, p, t, kind) == Some((b, e))
    ensures OccursAt(s, p, t) && p + |t| <= |s|
    ensures AfterSeparators(s, p + |t|, kind) == Some((b, e))
    ensures Separated(s, p + |t|, b)
  {
    var a := p + |t|;
    AfterLabelShape(s, a, Run(s, a, Separator), kind, b, e);
  }

  /** A name is a maximal `[A-Z ]` run starting with a capital right after
      the separators following the label that ends at `a`, or, when no
      capital follows them, the last space among the separators on its own. */
  lemma NameGroup(s: string, a: nat, kind: ValueKind, b: nat, e: nat)
    requires a <= |s| && kind == NameValue
    requires AfterSeparators(s, a, kind) == Some((b, e))
    ensures Separated(s, a, b)
      && (forall i :: b <= i < e ==> InClass(NameChar, s[i]))
      && ((IsUpper(s[b]) && (e == |s| || !InClass(NameChar, s[e])))
          || (s[b] == ' ' && e == b + 1))
  {
    var m := Run(s, a, Separator);
    AfterLabelShape(s, a, m, kind, b, e);
    NameGroupShape(s, a);
  }

  /** Only separators lie in `[a, b)`. */
  predicate Separated(s: string, a: nat, b: nat) {
    a <= b <= |s| && forall i :: a <= i < b ==> InClass(Separator, s[i])
  }

  /** The group found after a label fits the value pattern and only
      separators lie between the label and the group. */
  lemma {:induction false} AfterLabelShape(s: string, a: nat, k: nat, kind: ValueKind, b: nat, e: nat)
    requires a + k <= |s|
    requires forall i :: a <= i < a + k ==> InClass(Separator, s[i])
    requires MatchAfterLabel(s, a, k, kind) == Some((b, e))
    ensures forall i :: a <= i < b ==> InClass(Separator, s[i])
    ensures kind == NumberValue ==>
      e - b >= 6 && (forall i :: b <= i < e ==> InClass(NumberChar, s[i]))
      && (e == |s| || !InClass(NumberChar, s[e]))
    ensures kind == DateValue ==> DateShaped(s[b..e]) && GreedyDate(s, b, e)
    ensures kind == NameValue ==> forall i :: b <= i < e ==> InClass(NameChar, s[i])
    decreases k
  {
    if MatchValue(kind, s, a + k).None? {
      AfterLabelShape(s, a, k - 1, kind, b, e);
    }
  }

  /** A match found by the search is the match after a label alternative
      at some position. */
  lemma {:induction false} SearchFromLabel(s: string, p: nat, rule: Rule)
    requires p <= |s|
    requires SearchFrom(s, p, rule).Some?
    ensures exists q, j :: (p <= q <= |s| && 0 <= j < |rule.labels|
      && AfterLabel(s, q, rule.labels[j], rule.kind) == SearchFrom(s, p, rule))
    decreases |s| - p
  {
    if MatchLabels(s, p, rule.labels, rule.kind).Some? {
      MatchLabelsFrom(s, p, rule.labels, rule.kind);
    } else {
      SearchFromLabel(s, p + 1, rule);
    }
  }

  /** The label `labels[j]` occurs at `p` and only separators lie between
      it and position `b`. */
  predicate AfterLabelAt(s: string, labels: seq<string>, j: nat, p: nat, b: nat) {
    j < |labels| && OccursAt(s, p, labels[j]) && Separated(s, p + |labels[j]|, b)
  }

  /** A captured value is the group found after one of the rule's labels
      at some position. */
  lemma CaptureGroup(s: string, rule: Rule)
    ensures Capture(s, rule) != "" ==>
      exists j: nat, p: nat, b: nat, e: nat :: (p <= |s| && j < |rule.labels| && b <= e <= |s|
        && AfterLabel(s, p, rule.labels[j], rule.kind) == Some((b, e))
        && Capture(s, rule) == s[b..e])
  {
    if SearchFrom(s, 0, rule).Some? {
      var g := SearchFrom(s, 0, rule).value;
      SearchFromLabel(s, 0, rule);
      var p, j :| 0 <= p <= |s| && 0 <= j < |rule.labels|
        && AfterLabel(s, p, rule.labels[j], rule.kind) == SearchFrom(s, 0, rule);
      assert AfterLabel(s, p, rule.labels[j], rule.kind) == Some((g.0, g.1));
    }
  }

  /** A value of the pattern starts at `c`. */
  ghost predicate ValueStarts(kind: ValueKind, s: string, c: nat) {
    exists e: nat :: ValueAt(kind, s, c, e)
  }

  /** The group the pattern takes after a label that ends at `a`: only
      separators lie before `b`, the value runs from `b` to `e`, and no value
      starts at any later position the separators reach. The engine takes
      the separators greedily and gives them back one at a time, so it finds
      the latest such start. */
  ghost predicate GroupAt(kind: ValueKind, s: string, a: nat, b: nat, e: nat) {
    && Separated(s, a, b) && ValueAt(kind, s, b, e)
    && forall c: nat :: b < c && Separated(s, a, c) ==> !ValueStarts(kind, s, c)
  }

  /** The value scanner finds a value exactly when one starts there. */
  lemma MatchValueStarts(kind: ValueKind, s: string, c: nat)
    requires c <= |s|
    ensures MatchValue(kind, s, c).Some? <==> ValueStarts(kind, s, c)
  {
    if MatchValue(kind, s, c).Some? {
      assert ValueAt(kind, s, c, MatchValue(kind, s, c).value);
    }
  }

  /** No value starts at any position from `lo` through `hi`. */
  ghost predicate NoValueThrough(kind: ValueKind, s: string, lo: nat, hi: nat) {
    forall c: nat :: lo <= c <= hi ==> !ValueStarts(kind, s, c)
  }

  /** When no value starts at `a + k`, one separator is given back. */
  lemma GiveBackOne(s: string, a: nat, k: nat, kind: ValueKind)
    requires 0 < k && a + k <= |s|
    requires MatchValue(kind, s, a + k).None?
    ensures MatchAfterLabel(s, a, k, kind) == MatchAfterLabel(s, a, k - 1, kind)
  {
  }

  /** What the scanner returns is where the value pattern matches. */
  lemma {:induction false} ScanFindsValue(s: string, a: nat, k: nat, kind: ValueKind)
    requires a + k <= |s|
    ensures var g := MatchAfterLabel(s, a, k, kind);
      g.Some? ==> MatchValue(kind, s, g.value.0) == Some(g.value.1)
    decreases k
  {
    if MatchValue(kind, s, a + k).None? && k > 0 {
      GiveBackOne(s, a, k, kind);
      var j := k - 1;
      ScanFindsValue(s, a, j, kind);
    }
  }

  /** A value starting at `c`, within reach of the scan from `a + k` down
      to `a`, is found, or a later one is. */
  lemma {:induction false} ScanReaches(s: string, a: nat, k: nat, kind: ValueKind, c: nat)
    requires a + k <= |s| && a <= c <= a + k && ValueStarts(kind, s, c)
    ensures MatchAfterLabel(s, a, k, kind).Some? && c <= MatchAfterLabel(s, a, k, kind).value.0
    decreases k
  {
    if MatchValue(kind, s, a + k).None? {
      MatchValueStarts(kind, s, c);
      assert c < a + k;
      GiveBackOne(s, a, k, kind);
      var j := k - 1;
      ScanReaches(s, a, j, kind, c);
    }
  }

  /** Giving back separators from `a + k` down to `a`, the scanner stops at
      the latest position where a value starts, and fails only when there is
      none. */
  lemma MatchAfterLabelSpec(s: string, a: nat, k: nat, kind: ValueKind)
    requires a + k <= |s|
    ensures var g := MatchAfterLabel(s, a, k, kind);
      g.Some? ==> MatchValue(kind, s, g.value.0) == Some(g.value.1) && NoValueThrough(kind, s, g.value.0 + 1, a + k)
    ensures MatchAfterLabel(s, a, k, kind).None? ==> NoValueThrough(kind, s, a, a + k)
  {
    ScanFindsValue(s, a, k, kind);
    forall c: nat | a <= c <= a + k && ValueStarts(kind, s, c)
      ensures MatchAfterLabel(s, a, k, kind).Some? && c <= MatchAfterLabel(s, a, k, kind).value.0
    {
      ScanReaches(s, a, k, kind, c);
    }
  }

  /** The group after a label ending at `a` is exactly the one `GroupAt`
      describes, and there is none when no value starts within reach of the
      separators. */
  lemma AfterSeparatorsSpec(s: string, a: nat, kind: ValueKind, b: nat, e: nat)
    requires a <= |s|
    ensures AfterSeparators(s, a, kind) == Some((b, e)) <==> GroupAt(kind, s, a, b, e)
    ensures AfterSeparators(s, a, kind).None? <==>
      forall c: nat :: Separated(s, a, c) ==> !ValueStarts(kind, s, c)
  {
    var m := Run(s, a, Separator);
    MatchAfterLabelSpec(s, a, m, kind);
    assert forall c: nat :: Separated(s, a, c) ==> c <= a + m;
    var g := AfterSeparators(s, a, kind);
    if g.Some? {
      assert Separated(s, a, g.value.0);
    }
    if GroupAt(kind, s, a, b, e) {
      assert ValueStarts(kind, s, b);
      var (b', e') := g.value;
      assert ValueStarts(kind, s, b');
      assert b' == b;
      MatchValueStarts(kind, s, b);
    }
  }

  /** The group after the label `t` at `p`. */
  lemma AfterLabelSpec(s: string, p: nat, t: string, kind: ValueKind, b: nat, e: nat)
    requires p <= |s|
    ensures AfterLabel(s, p, t, kind) == Some((b, e)) <==> OccursAt(s, p, t) && GroupAt(kind, s, p + |t|, b, e)
  {
    if OccursAt(s, p, t) {
      AfterSeparatorsSpec(s, p + |t|, kind, b, e);
    }
  }

  /** The label `labels[j]` occurs at `p` and the group after it runs from
      `b` to `e`. */
  ghost predicate MatchAt(s: string, labels: seq<string>, kind: ValueKind, j: nat, p: nat, b: nat, e: nat) {
    j < |labels| && p <= |s| && OccursAt(s, p, labels[j]) && GroupAt(kind, s, p + |labels[j]|, b, e)
  }

  /** The pattern matches at `p` through the label alternative `labels[j]`. */
  ghost predicate LabelMatches(s: string, labels: seq<string>, kind: ValueKind, j: nat, p: nat) {
    exists b: nat, e: nat :: MatchAt(s, labels, kind, j, p, b, e)
  }

  /** The pattern matches at `p`. */
  ghost predicate MatchesAt(s: string, labels: seq<string>, kind: ValueKind, p: nat) {
    exists j: nat :: LabelMatches(s, labels, kind, j, p)
  }

  /** The match `re.search` reports: the leftmost position at which the
      pattern matches and, there, the first label alternative that leads to
      a match. */
  ghost predicate FirstMatch(s: string, labels: seq<string>, kind: ValueKind, j: nat, p: nat, b: nat, e: nat) {
    && MatchAt(s, labels, kind, j, p, b, e)
    && (forall i: nat :: i < j ==> !LabelMatches(s, labels, kind, i, p))
    && (forall q: nat :: q < p ==> !MatchesAt(s, labels, kind, q))
  }

  /** At one position, the alternatives scanned in order find the group of
      the first alternative that matches, and nothing when none does. */
  lemma MatchLabelsSpec(s: string, p: nat, labels: seq<string>, kind: ValueKind)
    requires p <= |s|
    ensures MatchLabels(s, p, labels, kind).None? <==> !MatchesAt(s, labels, kind, p)
    ensures forall j: nat, b: nat, e: nat ::
      (MatchAt(s, labels, kind, j, p, b, e) && (forall i: nat :: i < j ==> !LabelMatches(s, labels, kind, i, p)))
      <==> (j < |labels| && AfterLabel(s, p, labels[j], kind) == Some((b, e))
        && forall i :: 0 <= i < j ==> AfterLabel(s, p, labels[i], kind).None?)
  {
    MatchLabelsFrom(s, p, labels, kind);
    forall j: nat | j < |labels|
      ensures AfterLabel(s, p, labels[j], kind).Some? <==> LabelMatches(s, labels, kind, j, p)
      ensures forall b: nat, e: nat ::
        AfterLabel(s, p, labels[j], kind) == Some((b, e)) <==> MatchAt(s, labels, kind, j, p, b, e)
    {
      LabelAlternative(s, p, labels, kind, j);
    }
  }

  /** One label alternative at `p` finds the group of `MatchAt`. */
  lemma LabelAlternative(s: string, p: nat, labels: seq<string>, kind: ValueKind, j: nat)
    requires p <= |s| && j < |labels|
    ensures AfterLabel(s, p, labels[j], kind).Some? <==> LabelMatches(s, labels, kind, j, p)
    ensures forall b: nat, e: nat ::
      AfterLabel(s, p, labels[j], kind) == Some((b, e)) <==> MatchAt(s, labels, kind, j, p, b, e)
  {
    forall b: nat, e: nat
      ensures AfterLabel(s, p, labels[j], kind) == Some((b, e)) <==> MatchAt(s, labels, kind, j, p, b, e)
    {
      AfterLabelSpec(s, p, labels[j], kind, b, e);
    }
    if AfterLabel(s, p, labels[j], kind).Some? {
      var (b, e) := AfterLabel(s, p, labels[j], kind).value;
      assert MatchAt(s, labels, kind, j, p, b, e);
    }
  }

  /** There is only one first match. */
  lemma FirstMatchUnique(s: string, labels: seq<string>, kind: ValueKind,
    j: nat, p: nat, b: nat, e: nat, j': nat, p': nat, b': nat, e': nat)
    requires FirstMatch(s, labels, kind, j, p, b, e)
    requires FirstMatch(s, labels, kind, j', p', b', e')
    ensures j == j' && p == p' && b == b' && e == e'
  {
    assert LabelMatches(s, labels, kind, j, p) && MatchesAt(s, labels, kind, p);
    assert LabelMatches(s, labels, kind, j', p') && MatchesAt(s, labels, kind, p');
    assert p == p';
    assert j == j';
    MatchLabelsSpec(s, p, labels, kind);
  }

  /** When the search finds nothing, the pattern matches nowhere. */
  lemma SearchNoneSpec(s: string, rule: Rule)
    requires SearchFrom(s, 0, rule).None?
    ensures forall q: nat :: !MatchesAt(s, rule.labels, rule.kind, q)
  {
    var labels, kind := rule.labels, rule.kind;
    SearchLeftmost(s, 0, rule);
    forall q: nat ensures !MatchesAt(s, labels, kind, q) {
      if q <= |s| {
        assert MatchLabels(s, q, labels, kind).None?;
        MatchLabelsSpec(s, q, labels, kind);
      }
    }
  }

  /** When the search finds a group, that group is the one of the first
      match, and every first match has it. */
  lemma SearchSomeSpec(s: string, rule: Rule)
    requires SearchFrom(s, 0, rule).Some?
    ensures var (b, e) := SearchFrom(s, 0, rule).value;
      exists j: nat, p: nat :: FirstMatch(s, rule.labels, rule.kind, j, p, b, e)
    ensures var (b, e) := SearchFrom(s, 0, rule).value;
      forall j: nat, p: nat, b': nat, e': nat :: FirstMatch(s, rule.labels, rule.kind, j, p, b', e') ==>
        b' == b && e' == e
  {
    var labels, kind := rule.labels, rule.kind;
    var found := SearchFrom(s, 0, rule);
    var (b, e) := found.value;
    SearchFindsLeftmost(s, 0, rule);
    var p :| 0 <= p <= |s| && MatchLabels(s, p, labels, kind) == found && NoMatchBetween(s, 0, p, rule);
    MatchLabelsFrom(s, p, labels, kind);
    MatchLabelsSpec(s, p, labels, kind);
    var j :| 0 <= j < |labels| && AfterLabel(s, p, labels[j], kind) == found
      && forall i :: 0 <= i < j ==> AfterLabel(s, p, labels[i], kind).None?;
    assert MatchAt(s, labels, kind, j, p, b, e);
    assert forall i: nat :: i < j ==> !LabelMatches(s, labels, kind, i, p);
    forall q: nat | q < p ensures !MatchesAt(s, labels, kind, q) {
      assert MatchLabels(s, q, labels, kind).None?;
      MatchLabelsSpec(s, q, labels, kind);
    }
    assert FirstMatch(s, labels, kind, j, p, b, e);
    forall j': nat, p': nat, b': nat, e': nat | FirstMatch(s, labels, kind, j', p', b', e')
      ensures b' == b && e' == e
    {
      FirstMatchUnique(s, labels, kind, j, p, b, e, j', p', b', e');
    }
  }

  /** `re.search` reports the first match: the field is empty exactly when
      the pattern matches nowhere, and otherwise it is the group of the
      leftmost match, taken through the first label alternative that matches
      there. */
  lemma CaptureSpec(s: string, rule: Rule)
    ensures Capture(s, rule) != "" <==> exists p: nat :: MatchesAt(s, rule.labels, rule.kind, p)
    ensures Capture(s, rule) != "" ==>
      exists j: nat, p: nat, b: nat, e: nat :: FirstMatch(s, rule.labels, rule.kind, j, p, b, e)
    ensures forall j: nat, p: nat, b: nat, e: nat :: FirstMatch(s, rule.labels, rule.kind, j, p, b, e) ==>
      b <= e <= |s| && Capture(s, rule) == s[b..e]
  {
    var labels, kind := rule.labels, rule.kind;
    forall j: nat, p: nat, b: nat, e: nat | FirstMatch(s, labels, kind, j, p, b, e)
      ensures MatchesAt(s, labels, kind, p) && b < e <= |s|
    {
      assert LabelMatches(s, labels, kind, j, p);
    }
    var found := SearchFrom(s, 0, rule);
    if found.None? {
      SearchNoneSpec(s, rule);
      assert Capture(s, rule) == "";
    } else {
      var (b, e) := found.value;
      assert Capture(s, rule) == s[b..e] && b < e;
      SearchSomeSpec(s, rule);
      var j: nat, p: nat :| FirstMatch(s, labels, kind, j, p, b, e);
      assert MatchesAt(s, labels, kind, p);
    }
  }

  /** Past the label `labels[j]` at `p` and separators only, a value of the
      pattern starts at `c`. */
  ghost predicate Reaches(s: string, labels: seq<string>, kind: ValueKind, j: nat, p: nat, c: nat) {
    AfterLabelAt(s, labels, j, p, c) && ValueStarts(kind, s, c)
  }

  /** Somewhere in `s` one of the labels is followed, past separators only,
      by the start of a value. */
  ghost predicate ValueFollowsLabel(s: string, labels: seq<string>, kind: ValueKind) {
    exists j: nat, p: nat, c: nat :: Reaches(s, labels, kind, j, p, c)
  }

  /** No label reaches a value from a position left of `p`, nor from `p`
      through an alternative written before `labels[j]`. */
  ghost predicate Earliest(s: string, labels: seq<string>, kind: ValueKind, j: nat, p: nat) {
    forall j': nat, p': nat, c: nat :: Reaches(s, labels, kind, j', p', c) ==> p < p' || (p == p' && j <= j')
  }

  /** The pattern matches at `p` through `labels[j]` exactly when a value
      starts somewhere the separators after that label reach. */
  lemma LabelMatchesReaches(s: string, labels: seq<string>, kind: ValueKind, j: nat, p: nat)
    ensures LabelMatches(s, labels, kind, j, p) <==> exists c: nat :: Reaches(s, labels, kind, j, p, c)
  {
    if j < |labels| && OccursAt(s, p, labels[j]) {
      var a := p + |labels[j]|;
      AfterSeparatorsSpec(s, a, kind, 0, 0);
      var g := AfterSeparators(s, a, kind);
      if g.Some? {
        var (b, e) := g.value;
        AfterSeparatorsSpec(s, a, kind, b, e);
        assert MatchAt(s, labels, kind, j, p, b, e);
        assert Reaches(s, labels, kind, j, p, b);
      } else {
        forall b: nat, e: nat ensures !MatchAt(s, labels, kind, j, p, b, e) {
          AfterSeparatorsSpec(s, a, kind, b, e);
        }
      }
    }
  }

  /** The field is empty exactly when no value follows a label anywhere;
      otherwise it is the group of the match through the leftmost label
      occurrence that reaches a value, the earlier alternative winning at
      one position. */
  lemma CaptureLeftmost(s: string, rule: Rule)
    ensures Capture(s, rule) != "" <==> ValueFollowsLabel(s, rule.labels, rule.kind)
    ensures Capture(s, rule) != "" ==>
      exists j: nat, p: nat, b: nat, e: nat :: (MatchAt(s, rule.labels, rule.kind, j, p, b, e)
        && Earliest(s, rule.labels, rule.kind, j, p) && b <= e <= |s| && Capture(s, rule) == s[b..e])
  {
    var labels, kind := rule.labels, rule.kind;
    CaptureSpec(s, rule);
    forall j: nat, p: nat
      ensures LabelMatches(s, labels, kind, j, p) <==> exists c: nat :: Reaches(s, labels, kind, j, p, c)
    {
      LabelMatchesReaches(s, labels, kind, j, p);
    }
    if ValueFollowsLabel(s, labels, kind) {
      var j: nat, p: nat, c: nat :| Reaches(s, labels, kind, j, p, c);
      assert LabelMatches(s, labels, kind, j, p);
      assert MatchesAt(s, labels, kind, p);
    }
    if Capture(s, rule) != "" {
      var j: nat, p: nat, b: nat, e: nat :| FirstMatch(s, labels, kind, j, p, b, e);
      assert LabelMatches(s, labels, kind, j, p);
      forall j': nat, p': nat, c: nat | Reaches(s, labels, kind, j', p', c)
        ensures p < p' || (p == p' && j <= j')
      {
        assert LabelMatches(s, labels, kind, j', p');
        assert MatchesAt(s, labels, kind, p');
      }
      assert MatchAt(s, labels, kind, j, p, b, e) && Earliest(s, labels, kind, j, p);
    }
  }

  /** Where a value starts determines where it ends. */
  lemma ValueEndUnique(kind: ValueKind, s: string, b: nat, e: nat, e': nat)
    requires ValueAt(kind, s, b, e) && ValueAt(kind, s, b, e')
    ensures e == e'
  {
    var m := MatchValue(kind, s, b);
  }

  /** A number or a date starts with a letter, a digit or `-`, never with a
      separator. */
  lemma ValueStartsNoSeparator(kind: ValueKind, s: string, c: nat)
    requires kind != NameValue && ValueStarts(kind, s, c)
    ensures c < |s| && !InClass(Separator, s[c])
  {
    var e: nat :| ValueAt(kind, s, c, e);
    if kind == DateValue {
      assert IsDigit(s[c]);
    }
  }

  /** For numbers and dates the group is simply the value right after the
      separators: giving separators back never reaches another start. */
  lemma SimpleGroupAt(kind: ValueKind, s: string, a: nat, b: nat, e: nat)
    requires kind != NameValue
    ensures GroupAt(kind, s, a, b, e) <==> Separated(s, a, b) && ValueAt(kind, s, b, e)
  {
    if Separated(s, a, b) && ValueAt(kind, s, b, e) {
      assert ValueStarts(kind, s, b);
      ValueStartsNoSeparator(kind, s, b);
      assert forall c: nat :: b < c && Separated(s, a, c) ==> InClass(Separator, s[b]);
    }
  }

  /** A name starts at any capital or space. */
  lemma NameStarts(s: string, c: nat)
    ensures ValueStarts(NameValue, s, c) <==> c < |s| && InClass(NameChar, s[c])
  {
    if c < |s| && InClass(NameChar, s[c]) {
      assert ValueAt(NameValue, s, c, c + Run(s, c, NameChar));
    }
  }

  /** The slice `s[b..e]` occurs in `s` at `b`. */
  lemma SliceOccurs(s: string, b: nat, e: nat)
    requires b <= e <= |s|
    ensures OccursAt(s, b, s[b..e])
  {
  }

  /** What a run of `cls` characters in `s[b..e]` says about the slice. */
  lemma SliceInClass(s: string, b: nat, e: nat, cls: CharClass)
    requires b <= e <= |s|
    requires forall i :: b <= i < e ==> InClass(cls, s[i])
    ensures OccursAt(s, b, s[b..e])
    ensures forall i :: 0 <= i < e - b ==> InClass(cls, s[b..e][i])
  {
    assert forall i :: 0 <= i < e - b ==> s[b..e][i] == s[b + i];
  }

  /** `r` is a document number of `s`: at least six `[A-Z0-9-]` characters,
      found at some `b` right after a label and its separators, with neither
      a separator at `b` nor a further number character after it. */
  ghost predicate NumberFound(s: string, labels: seq<string>, r: string) {
    && |r| >= 6
    && (forall i :: 0 <= i < |r| ==> InClass(NumberChar, r[i]))
    && exists j: nat, p: nat, b: nat :: (AfterLabelAt(s, labels, j, p, b) && OccursAt(s, b, r)
         && (b == |s| || !InClass(Separator, s[b]))
         && (b + |r| == |s| || !InClass(NumberChar, s[b + |r|])))
  }

  /** `r` is a date of `s`: date-shaped and found at some `b` right after a
      label and all of its separators, its year taking every digit there is
      up to four. */
  ghost predicate DateFound(s: string, labels: seq<string>, r: string) {
    && DateShaped(r)
    && exists j: nat, p: nat, b: nat :: (AfterLabelAt(s, labels, j, p, b) && OccursAt(s, b, r)
         && (b == |s| || !InClass(Separator, s[b])) && GreedyDate(s, b, b + |r|))
  }

  /** `r` is a name of `s`: `[A-Z ]` characters found at some `b` after a
      label and its separators, either the longest such run there starting
      with a capital, or a single space. */
  ghost predicate NameFound(s: string, labels: seq<string>, r: string) {
    && (forall i :: 0 <= i < |r| ==> InClass(NameChar, r[i]))
    && (r == " " || (r != [] && IsUpper(r[0])))
    && exists j: nat, p: nat, b: nat :: (AfterLabelAt(s, labels, j, p, b) && OccursAt(s, b, r)
         && (r != " " ==> b + |r| == |s| || !InClass(NameChar, s[b + |r|])))
  }

  lemma NumberSlice(s: string, labels: seq<string>, j: nat, p: nat, b: nat, e: nat)
    requires AfterLabelAt(s, labels, j, p, b) && b <= e <= |s|
    requires (b == |s| || !InClass(Separator, s[b])) && e - b >= 6
    requires forall i :: b <= i < e ==> InClass(NumberChar, s[i])
    requires e == |s| || !InClass(NumberChar, s[e])
    ensures NumberFound(s, labels, s[b..e])
  {
    SliceInClass(s, b, e, NumberChar);
  }

  lemma DateSlice(s: string, labels: seq<string>, j: nat, p: nat, b: nat, e: nat)
    requires AfterLabelAt(s, labels, j, p, b) && b <= e <= |s|
    requires (b == |s| || !InClass(Separator, s[b])) && DateShaped(s[b..e]) && GreedyDate(s, b, e)
    ensures DateFound(s, labels, s[b..e])
  {
    SliceOccurs(s, b, e);
    assert b + |s[b..e]| == e;
  }

  lemma NameSlice(s: string, labels: seq<string>, j: nat, p: nat, b: nat, e: nat)
    requires AfterLabelAt(s, labels, j, p, b) && b < e <= |s|
    requires forall i :: b <= i < e ==> InClass(NameChar, s[i])
    requires (IsUpper(s[b]) && (e == |s| || !InClass(NameChar, s[e]))) || (s[b] == ' ' && e == b + 1)
    ensures NameFound(s, labels, s[b..e])
  {
    SliceInClass(s, b, e, NameChar);
    var r := s[b..e];
    assert r[0] == s[b];
    if !IsUpper(s[b]) {
      assert r == [s[b]];
    }
    assert OccursAt(s, b, r) && (r != " " ==> b + |r| == |s| || !InClass(NameChar, s[b + |r|]));
  }

  /** The group found after label `labels[j]` at `p` is a name. */
  lemma NameAfter(s: string, labels: seq<string>, kind: ValueKind, j: nat, p: nat, b: nat, e: nat)
    requires kind == NameValue && j < |labels| && p <= |s|
    requires AfterLabel(s, p, labels[j], kind) == Some((b, e))
    ensures b <= e <= |s| && NameFound(s, labels, s[b..e])
  {
    var t := labels[j];
    AfterLabelSeparated(s, p, t, kind, b, e);
    NameGroup(s, p + |t|, kind, b, e);
    NameSlice(s, labels, j, p, b, e);
  }

  /** A document number is found exactly when one of the rule's labels is
      followed, past separators only, by a run of at least six
      `[A-Z0-9-]` characters; the field is then the whole run after the
      leftmost such label. */
  lemma NumberCapture(s: string, rule: Rule)
    requires rule.kind == NumberValue
    ensures Capture(s, rule) != "" <==>
      exists j: nat, p: nat, b: nat, e: nat :: AfterLabelAt(s, rule.labels, j, p, b) && ValueAt(rule.kind, s, b, e)
    ensures Capture(s, rule) != "" ==>
      exists j: nat, p: nat, b: nat, e: nat :: (AfterLabelAt(s, rule.labels, j, p, b) && ValueAt(rule.kind, s, b, e)
        && Earliest(s, rule.labels, rule.kind, j, p) && b <= e <= |s| && Capture(s, rule) == s[b..e])
    ensures Capture(s, rule) != "" ==> NumberFound(s, rule.labels, Capture(s, rule))
  {
    var labels, kind := rule.labels, rule.kind;
    CaptureLeftmost(s, rule);
    if Capture(s, rule) != "" {
      var j: nat, p: nat, b: nat, e: nat :| MatchAt(s, labels, kind, j, p, b, e)
        && Earliest(s, labels, kind, j, p) && b <= e <= |s| && Capture(s, rule) == s[b..e];
      SimpleGroupAt(kind, s, p + |labels[j]|, b, e);
      assert ValueStarts(kind, s, b);
      ValueStartsNoSeparator(kind, s, b);
      NumberSlice(s, labels, j, p, b, e);
    }
    if exists j: nat, p: nat, b: nat, e: nat :: AfterLabelAt(s, labels, j, p, b) && ValueAt(kind, s, b, e) {
      var j: nat, p: nat, b: nat, e: nat :| AfterLabelAt(s, labels, j, p, b) && ValueAt(kind, s, b, e);
      assert Reaches(s, labels, kind, j, p, b);
    }
  }

  /** A date is found exactly when one of the rule's labels is followed,
      past separators only, by `D{1,2}[-/]D{1,2}[-/]D{2,4}`; the field is
      then that date after the leftmost such label, its year as long as the
      digits allow up to four. */
  lemma DateCapture(s: string, rule: Rule)
    requires rule.kind == DateValue
    ensures Capture(s, rule) != "" <==>
      exists j: nat, p: nat, b: nat, e: nat :: AfterLabelAt(s, rule.labels, j, p, b) && ValueAt(rule.kind, s, b, e)
    ensures Capture(s, rule) != "" ==>
      exists j: nat, p: nat, b: nat, e: nat :: (AfterLabelAt(s, rule.labels, j, p, b) && ValueAt(rule.kind, s, b, e)
        && Earliest(s, rule.labels, rule.kind, j, p) && b <= e <= |s| && Capture(s, rule) == s[b..e])
    ensures Capture(s, rule) != "" ==> DateFound(s, rule.labels, Capture(s, rule))
  {
    var labels, kind := rule.labels, rule.kind;
    CaptureLeftmost(s, rule);
    if Capture(s, rule) != "" {
      var j: nat, p: nat, b: nat, e: nat :| MatchAt(s, labels, kind, j, p, b, e)
        && Earliest(s, labels, kind, j, p) && b <= e <= |s| && Capture(s, rule) == s[b..e];
      SimpleGroupAt(kind, s, p + |labels[j]|, b, e);
      assert ValueStarts(kind, s, b);
      ValueStartsNoSeparator(kind, s, b);
      assert MatchValue(kind, s, b) == Some(e);
      DateSlice(s, labels, j, p, b, e);
    }
    if exists j: nat, p: nat, b: nat, e: nat :: AfterLabelAt(s, labels, j, p, b) && ValueAt(kind, s, b, e) {
      var j: nat, p: nat, b: nat, e: nat :| AfterLabelAt(s, labels, j, p, b) && ValueAt(kind, s, b, e);
      assert Reaches(s, labels, kind, j, p, b);
    }
  }

  /** For numbers and dates: when the text starts with the first label and,
      past separators only, a value runs from `b` to `e`, that value is the
      field. */
  lemma LeadingLabelCapture(s: string, rule: Rule, b: nat, e: nat)
    requires rule.kind != NameValue && rule.labels != []
    requires AfterLabelAt(s, rule.labels, 0, 0, b) && ValueAt(rule.kind, s, b, e)
    ensures b <= e <= |s| && Capture(s, rule) == s[b..e]
  {
    var labels, kind := rule.labels, rule.kind;
    assert Reaches(s, labels, kind, 0, 0, b);
    CaptureLeftmost(s, rule);
    var j: nat, p: nat, b': nat, e': nat :| MatchAt(s, labels, kind, j, p, b', e')
      && Earliest(s, labels, kind, j, p) && b' <= e' <= |s| && Capture(s, rule) == s[b'..e'];
    assert p == 0 && j == 0;
    SimpleGroupAt(kind, s, |labels[0]|, b', e');
    assert ValueStarts(kind, s, b) && ValueStarts(kind, s, b');
    ValueStartsNoSeparator(kind, s, b);
    ValueStartsNoSeparator(kind, s, b');
    assert b == b';
    ValueEndUnique(kind, s, b, e, e');
  }

  /** After `DOB 01-02-1990` the date keeps its four-digit year: the
      greedy `\d{2,4}` does not stop at `19`. */
  lemma BirthDateKeepsYear()
    ensures Capture("DOB 01-02-1990", BirthRule) == "01-02-1990"
  {
    var date := "01-02-1990";
    var s := "DOB " + date;
    assert s == "DOB 01-02-1990";
    assert DateAt(s, 4, 2, 2, 14);
    assert OccursAt(s, 0, BirthRule.labels[0]);
    LeadingLabelCapture(s, BirthRule, 4, 14);
    assert s[4..14] == date;
  }

  /** A name found in `s` is a run of capitals and spaces after a label
      and its separators: the longest such run starting with a capital, or a
      single space when no capital follows the separators. */
  lemma NameCapture(s: string, rule: Rule)
    requires rule.kind == NameValue
    ensures Capture(s, rule) != "" <==>
      exists j: nat, p: nat, c: nat :: AfterLabelAt(s, rule.labels, j, p, c) && c < |s| && InClass(NameChar, s[c])
    ensures Capture(s, rule) != "" ==>
      exists j: nat, p: nat, b: nat, e: nat :: (MatchAt(s, rule.labels, rule.kind, j, p, b, e)
        && Earliest(s, rule.labels, rule.kind, j, p) && b <= e <= |s| && Capture(s, rule) == s[b..e])
    ensures Capture(s, rule) != "" ==> NameFound(s, rule.labels, Capture(s, rule))
  {
    CaptureLeftmost(s, rule);
    forall j: nat, p: nat, c: nat
      ensures Reaches(s, rule.labels, rule.kind, j, p, c) <==>
        AfterLabelAt(s, rule.labels, j, p, c) && c < |s| && InClass(NameChar, s[c])
    {
      NameStarts(s, c);
    }
    CaptureGroup(s, rule);
    if Capture(s, rule) != "" {
      var j: nat, p: nat, b: nat, e: nat :| p <= |s| && j < |rule.labels| && b <= e <= |s|
        && AfterLabel(s, p, rule.labels[j], rule.kind) == Some((b, e))
        && Capture(s, rule) == s[b..e];
      NameAfter(s, rule.labels, rule.kind, j, p, b, e);
    }
  }

  /** `s.title()` on ASCII: a letter is upper-cased when the character
      before it is not a letter and lower-cased otherwise. */
  function Title(s: string): (r: string)
    ensures |r| == |s|
    ensures forall i :: 0 <= i < |s| && !IsLetter(s[i]) ==> r[i] == s[i]
  {
    seq(|s|, i requires 0 <= i < |s| =>
      if i == 0 || !IsLetter(s[i - 1]) then ToUpperChar(s[i]) else ToLowerChar(s[i]))
  }

  /** Changing the case of a letter keeps it a letter with the same
      upper-case form. */
  lemma CaseChange(c: char)
    requires IsLetter(c)
    ensures IsLetter(ToUpperChar(c)) && IsUpper(ToUpperChar(c))
    ensures IsLetter(ToLowerChar(c)) && !IsUpper(ToLowerChar(c))
    ensures ToUpperChar(ToLowerChar(c)) == ToUpperChar(c)
    ensures ToUpperChar(ToUpperChar(c)) == ToUpperChar(c)
  {
    assert IsUpper(c) ==> ToLowerChar(c) as int == c as int + 32;
    assert IsLower(c) ==> ToUpperChar(c) as int == c as int - 32;
  }

  /** Title-casing only changes the case of letters: each letter that
      starts a word is a capital, every other letter is small, and
      upper-casing the result gives back the upper-cased input. */
  lemma TitleCase(s: string)
    ensures var r := Title(s);
      && (forall i :: 0 <= i < |s| ==> (IsLetter(r[i]) <==> IsLetter(s[i])))
      && (forall i :: 0 <= i < |s| && IsLetter(s[i]) ==>
            (IsUpper(r[i]) <==> i == 0 || !IsLetter(s[i - 1])))
      && ToUpper(r) == ToUpper(s)
  {
    var r := Title(s);
    forall i | 0 <= i < |s|
      ensures IsLetter(r[i]) <==> IsLetter(s[i])
      ensures IsLetter(s[i]) ==> (IsUpper(r[i]) <==> i == 0 || !IsLetter(s[i - 1]))
      ensures ToUpperChar(r[i]) == ToUpperChar(s[i])
    {
      TitleAt(s, i);
    }
    assert forall i :: 0 <= i < |s| ==> ToUpper(r)[i] == ToUpper(s)[i];
  }

  /** One character of a title-cased string. */
  lemma TitleAt(s: string, i: nat)
    requires i < |s|
    ensures var c, d := s[i], Title(s)[i];
      && (IsLetter(d) <==> IsLetter(c))
      && (IsLetter(c) ==> (IsUpper(d) <==> i == 0 || !IsLetter(s[i - 1])))
      && ToUpperChar(d) == ToUpperChar(c)
  {
    if IsLetter(s[i]) {
      CaseChange(s[i]);
    }
  }

  /** Title-casing a title-cased string changes nothing. */
  lemma TitleIdempotent(s: string)
    ensures Title(Title(s)) == Title(s)
  {
    var r := Title(s);
    TitleCase(s);
    forall i | 0 <= i < |s| ensures Title(r)[i] == r[i] {
      if IsLetter(s[i]) {
        CaseChange(s[i]);
      }
    }
  }

  /** The first entry of `types` that occurs in `s`, or `""`. */
  function FirstContained(s: string, types: seq<string>): (r: string)
    requires forall j :: 0 <= j < |types| ==> types[j] != ""
    ensures r == "" ==> forall j :: 0 <= j < |types| ==> !Contains(s, types[j])
    ensures r != "" ==> exists j :: (0 <= j < |types| && r == types[j] && Contains(s, r)
      && forall m :: 0 <= m < j ==> !Contains(s, types[m]))
  {
    if types == [] then ""
    else if Contains(s, types[0]) then types[0]
    else
      var r := FirstContained(s, types[1..]);
      assert forall m :: 0 < m < |types| ==> types[m] == types[1..][m - 1];
      if r != "" then
        var j :| 0 <= j < |types[1..]| && r == types[1..][j] && Contains(s, r)
          && forall m :: 0 <= m < j ==> !Contains(s, types[1..][m]);
        assert r == types[j + 1];
        r
      else
        r
  }

  /** What `parse_document_info` returns for `text`. */
  function DocumentInfoOf(text: string): DocumentInfo {
    var u := ToUpper(text);
    DocumentInfo(
      FirstContained(u, DocTypes),
      Capture(u, NumberRule),
      Title(Capture(u, NameRule)),
      Capture(u, BirthRule),
      Capture(u, ExpiryRule),
      Capture(u, IssueRule))
  }

  /** `parse_document_info`: the document-type loop with its early exit, then
      the five searches. */
  method ParseDocumentInfo(text: string) returns (info: DocumentInfo)
    ensures info == DocumentInfoOf(text)
    ensures info.docType == "" <==>
      forall j :: 0 <= j < |DocTypes| ==> !Contains(ToUpper(text), DocTypes[j])
    ensures info.docType != "" ==>
      exists j :: 0 <= j < |DocTypes| && info.docType == DocTypes[j]
        && Contains(ToUpper(text), DocTypes[j])
        && forall m :: 0 <= m < j ==> !Contains(ToUpper(text), DocTypes[m])
  {
    var upper := ToUpper(text);
    var docType := "";
    var i := 0;
    while i < |DocTypes|
      invariant 0 <= i <= |DocTypes|
      invariant docType == ""
      invariant forall m :: 0 <= m < i ==> !Contains(upper, DocTypes[m])
    {
      if Contains(upper, DocTypes[i]) {
        docType := DocTypes[i];
        break;
      }
      i := i + 1;
    }
    assert DocTypes[0] != "" && DocTypes[1] != "" && DocTypes[2] != "";
    if docType != "" {
      var r := FirstContained(upper, DocTypes);
      assert r != "";
      var j :| 0 <= j < |DocTypes| && r == DocTypes[j] && Contains(upper, r)
        && forall m :: 0 <= m < j ==> !Contains(upper, DocTypes[m]);
      assert j == i;
    }
    info := DocumentInfo(
      docType,
      Capture(upper, NumberRule),
      Title(Capture(upper, NameRule)),
      Capture(upper, BirthRule),
      Capture(upper, ExpiryRule),
      Capture(upper, IssueRule));
  }

  /** An empty text yields no field at all. */
  lemma EmptyText()
    ensures DocumentInfoOf("") == NoInfo
  {
    assert ToUpper("") == "";
    forall rule: Rule | rule.labels != [] && forall j :: 0 <= j < |rule.labels| ==> rule.labels[j] != ""
      ensures Capture("", rule) == ""
    {
      NoLabelNoCapture("", rule);
    }
    assert forall j :: 0 <= j < |DocTypes| ==> !Contains("", DocTypes[j]);
  }

  /** Every character of a date-shaped string is a digit, `-` or `/`. */
  lemma DateChars(v: string)
    requires DateShaped(v)
    ensures forall i :: 0 <= i < |v| ==> IsDigit(v[i]) || IsDateSep(v[i])
  {
    var d, m :| 1 <= d <= 2 && 1 <= m <= 2 && DateShapedWith(v, d, m);
    forall i | 0 <= i < |v| ensures IsDigit(v[i]) || IsDateSep(v[i]) {
      if i < d {
        assert v[..d][i] == v[i];
      } else if d < i < d + m + 1 {
        assert v[d + 1..d + m + 1][i - d - 1] == v[i];
      } else if d + m + 1 < i {
        assert v[d + m + 2..][i - d - m - 2] == v[i];
      }
    }
  }

  /** A string of digits, `-` and `/` found in the upper-cased text is also
      in the original text at the same place. */
  lemma UpperKeepsDate(text: string, b: nat, r: string)
    requires OccursAt(ToUpper(text), b, r)
    requires forall i :: 0 <= i < |r| ==> IsDigit(r[i]) || IsDateSep(r[i])
    ensures OccursAt(text, b, r)
  {
    forall i | 0 <= i < |r| ensures text[b + i] == r[i] {
      assert ToUpperChar(text[b + i]) == r[i];
    }
  }

  /** A date field is date-shaped, follows one of its labels in the
      upper-cased text, and is copied verbatim from the original text. */
  lemma DateField(text: string, rule: Rule)
    requires rule.kind == DateValue
    ensures var r := Capture(ToUpper(text), rule); r != "" ==>
      DateFound(ToUpper(text), rule.labels, r) && Contains(text, r)
  {
    var u := ToUpper(text);
    var r := Capture(u, rule);
    DateCapture(u, rule);
    if r != "" {
      var j: nat, p: nat, b: nat :| AfterLabelAt(u, rule.labels, j, p, b) && OccursAt(u, b, r);
      DateChars(r);
      UpperKeepsDate(text, b, r);
    }
  }

  /** The fields `parse_document_info` returns: a number, a name and three
      dates, each present exactly when one of its labels is followed by a
      value in the upper-cased text, and then found there; the name comes
      back title-cased and the dates verbatim. */
  lemma DocumentFields(text: string)
    ensures var info, u := DocumentInfoOf(text), ToUpper(text);
      && (info.docNumber != "" <==> ValueFollowsLabel(u, NumberRule.labels, NumberValue))
      && (info.fullName != "" <==> ValueFollowsLabel(u, NameRule.labels, NameValue))
      && (info.dateOfBirth != "" <==> ValueFollowsLabel(u, BirthRule.labels, DateValue))
      && (info.expiryDate != "" <==> ValueFollowsLabel(u, ExpiryRule.labels, DateValue))
      && (info.issueDate != "" <==> ValueFollowsLabel(u, IssueRule.labels, DateValue))
    ensures var info, u := DocumentInfoOf(text), ToUpper(text);
      && (info.docNumber != "" ==> NumberFound(u, NumberRule.labels, info.docNumber))
      && (info.fullName != "" ==>
            NameFound(u, NameRule.labels, ToUpper(info.fullName)) && Title(info.fullName) == info.fullName)
      && (info.dateOfBirth != "" ==> DateFound(u, BirthRule.labels, info.dateOfBirth) && Contains(text, info.dateOfBirth))
      && (info.expiryDate != "" ==> DateFound(u, ExpiryRule.labels, info.expiryDate) && Contains(text, info.expiryDate))
      && (info.issueDate != "" ==> DateFound(u, IssueRule.labels, info.issueDate) && Contains(text, info.issueDate))
  {
    var u := ToUpper(text);
    CaptureLeftmost(u, NumberRule);
    CaptureLeftmost(u, NameRule);
    CaptureLeftmost(u, BirthRule);
    CaptureLeftmost(u, ExpiryRule);
    CaptureLeftmost(u, IssueRule);
    NumberCapture(u, NumberRule);
    var n := Capture(u, NameRule);
    NameCapture(u, NameRule);
    NameIsUpper(n);
    TitleCase(n);
    TitleIdempotent(n);
    DateField(text, BirthRule);
    DateField(text, ExpiryRule);
    DateField(text, IssueRule);
  }

  /** A string of capitals and spaces is its own upper-case form. */
  lemma NameIsUpper(n: string)
    requires forall i :: 0 <= i < |n| ==> InClass(NameChar, n[i])
    ensures ToUpper(n) == n
  {
    assert forall i :: 0 <= i < |n| ==> ToUpper(n)[i] == n[i];
  }
}
