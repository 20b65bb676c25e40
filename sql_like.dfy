/** SQLite's `LIKE` operator with its default settings, as the search query
    uses it: `%` matches any run of characters, `_` any one character, there
    is no escape character, and ASCII letters match regardless of case. */
module SqlLike {
  import opened Chars
  import opened Text

  /** Two characters are equal up to ASCII case. */
  predicate SameFolded(c: char, d: char) {
    ToUpperChar(c) == ToUpperChar(d)
  }

  predicate IsWildcard(c: char) { c == '%' || c == '_' }

  predicate NoWildcards(t: string) {
    forall i :: 0 <= i < |t| ==> !IsWildcard(t[i])
  }

  /** `s LIKE pat` */
  predicate Like(s: string, pat: string)
    decreases |s| + |pat|
  {
    if pat == [] then s == []
    else if pat[0] == '%' then Like(s, pat[1..]) || (s != [] && Like(s[1..], pat))
    else s != [] && (pat[0] == '_' || SameFolded(pat[0], s[0])) && Like(s[1..], pat[1..])
  }

  /** `t` occurs in `s` at `p` up to ASCII case. */
  predicate FoldedAt(s: string, p: nat, t: string) {
    p + |t| <= |s| && forall i :: 0 <= i < |t| ==> SameFolded(s[p + i], t[i])
  }

  /** A lone `%` matches every string. */
  lemma {:induction false} LikeAnything(s: string)
    ensures Like(s, "%")
    decreases |s|
  {
    if s != [] {
      LikeAnything(s[1..]);
    }
  }

  /** `s LIKE t || '%'` for a wildcard-free `t`: `s` starts with `t` up to
      case. */
  lemma {:induction false} LikePrefix(s: string, t: string)
    requires NoWildcards(t)
    ensures Like(s, t + "%") <==> FoldedAt(s, 0, t)
    decreases |t|
  {
    if t == [] {
      assert t + "%" == "%";
      LikeAnything(s);
    } else {
      var pat := t + "%";
      assert pat[0] == t[0] && pat[1..] == t[1..] + "%";
      if s != [] {
        LikePrefix(s[1..], t[1..]);
        if FoldedAt(s[1..], 0, t[1..]) && SameFolded(t[0], s[0]) {
          forall i | 0 <= i < |t| ensures SameFolded(s[i], t[i]) {
            if i > 0 {
              assert s[1..][i - 1] == s[i];
            }
          }
        }
        if FoldedAt(s, 0, t) {
          forall i | 0 <= i < |t| - 1 ensures SameFolded(s[1..][i], t[1..][i]) {
            assert s[1 + i] == s[1..][i];
          }
        }
      }
    }
  }

  /** `s LIKE '%' || q` holds exactly when some suffix of `s` is `LIKE q`. */
  lemma {:induction false} LikeSuffix(s: string, q: string)
    ensures Like(s, "%" + q) <==> exists p :: 0 <= p <= |s| && Like(s[p..], q)
    decreases |s|
  {
    var pat := "%" + q;
    assert pat[0] == '%' && pat[1..] == q;
    assert s[0..] == s;
    if s != [] {
      LikeSuffix(s[1..], q);
      if exists p :: 0 <= p <= |s| && Like(s[p..], q) {
        var p :| 0 <= p <= |s| && Like(s[p..], q);
        if p > 0 {
          assert s[1..][p - 1..] == s[p..];
        }
      }
      if exists p :: 0 <= p <= |s[1..]| && Like(s[1..][p..], q) {
        var p :| 0 <= p <= |s[1..]| && Like(s[1..][p..], q);
        assert s[1..][p..] == s[p + 1..];
      }
    }
  }

  /** For a term without wildcards, `s LIKE '%' || t || '%'` is a
      substring test up to ASCII case. */
  lemma LikeContains(s: string, t: string)
    requires NoWildcards(t)
    ensures Like(s, "%" + t + "%") <==> exists p :: 0 <= p <= |s| && FoldedAt(s, p, t)
  {
    assert "%" + t + "%" == "%" + (t + "%");
    LikeSuffix(s, t + "%");
    forall p | 0 <= p <= |s|
      ensures Like(s[p..], t + "%") <==> FoldedAt(s, p, t)
    {
      LikePrefix(s[p..], t);
      if FoldedAt(s[p..], 0, t) {
        forall i | 0 <= i < |t| ensures SameFolded(s[p + i], t[i]) {
          assert s[p..][i] == s[p + i];
        }
      }
      if FoldedAt(s, p, t) {
        forall i | 0 <= i < |t| ensures SameFolded(s[p..][i], t[i]) {
          assert s[p..][i] == s[p + i];
        }
      }
    }
  }

  /** Matching up to case is plain matching of the upper-cased strings. */
  lemma FoldedAtUpper(s: string, p: nat, t: string)
    ensures FoldedAt(s, p, t) <==> OccursAt(ToUpper(s), p, ToUpper(t))
  {
  }

  /** For a term without wildcards, `s LIKE '%' || t || '%'` holds exactly
      when the upper-cased `t` occurs in the upper-cased `s`. */
  lemma LikeIsFoldedContains(s: string, t: string)
    requires NoWildcards(t)
    ensures Like(s, "%" + t + "%") <==> Contains(ToUpper(s), ToUpper(t))
  {
    LikeContains(s, t);
    forall p | 0 <= p <= |s| ensures FoldedAt(s, p, t) <==> OccursAt(ToUpper(s), p, ToUpper(t)) {
      FoldedAtUpper(s, p, t);
    }
  }

  /** Every occurrence is also an occurrence up to case. */
  lemma ContainsIsLike(s: string, t: string)
    requires NoWildcards(t) && Contains(s, t)
    ensures Like(s, "%" + t + "%")
  {
    var p :| 0 <= p <= |s| && OccursAt(s, p, t);
    assert FoldedAt(s, p, t);
    LikeContains(s, t);
  }
}
