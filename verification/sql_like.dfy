/**
  The SQL `LIKE` operator as MySQL evaluates it under a binary collation:
  `%` matches any run of characters, `_` matches one character, and the
  default escape character `\` makes the character after it literal.
  The search statement wraps the user's term in `%` on both sides.
 */
module SqlLike {
  import opened Strings

  const ESCAPE: char := '\\'

  /** Characters with a meaning of their own inside a LIKE pattern. */
  predicate IsSpecial(c: char) {
    c == '%' || c == '_' || c == ESCAPE
  }

  predicate Plain(t: string) {
    forall i | 0 <= i < |t| :: !IsSpecial(t[i])
  }

  /** `s LIKE p`. An escape character at the very end of the pattern stands for itself. */
  predicate Like(s: string, p: string)
    decreases |s| + |p|
  {
    if p == [] then s == []
    else if p[0] == '%' then Like(s, p[1..]) || (s != [] && Like(s[1..], p))
    else if p[0] == '_' then s != [] && Like(s[1..], p[1..])
    else if p[0] == ESCAPE && |p| >= 2 then s != [] && s[0] == p[1] && Like(s[1..], p[2..])
    else s != [] && s[0] == p[0] && Like(s[1..], p[1..])
  }

  /** The pattern the search statement binds, as written: `"%" + term + "%"`. */
  function RawPattern(term: string): (p: string)
    ensures Plain(term) <==> p == Pattern(term)
  {
    var p := "%" + term + "%";
    assert p == Pattern(term) ==> term == p[1..|p| - 1] == Escape(term);
    p
  }

  /** Prefixes every special character of `t` with the escape character. */
  function Escape(t: string): (e: string)
    ensures |e| >= |t|
    ensures Plain(t) <==> e == t
    decreases |t|
  {
    if t == [] then []
    else (if IsSpecial(t[0]) then [ESCAPE, t[0]] else [t[0]]) + Escape(t[1..])
  }

  /** The search pattern with the term's special characters escaped, so that it matches the term literally. */
  function Pattern(term: string): string {
    "%" + Escape(term) + "%"
  }

  lemma {:induction false} PercentMatchesAll(s: string)
    ensures Like(s, "%")
    decreases |s|
  {
    if s != [] {
      PercentMatchesAll(s[1..]);
    }
  }

  /** An escaped term followed by `%` matches exactly the strings that start with the term. */
  lemma {:induction false} EscapedPrefix(s: string, t: string)
    ensures Like(s, Escape(t) + "%") <==> t <= s
    decreases |t|
  {
    var p := Escape(t) + "%";
    if t == [] {
      assert p == "%";
      PercentMatchesAll(s);
    } else {
      var rest := Escape(t[1..]) + "%";
      if IsSpecial(t[0]) {
        assert p == [ESCAPE, t[0]] + rest;
        assert p[0] == ESCAPE && p[1] == t[0] && p[2..] == rest;
      } else {
        assert p == [t[0]] + rest;
        assert p[0] == t[0] && p[1..] == rest;
      }
      if s != [] {
        EscapedPrefix(s[1..], t[1..]);
        assert t <= s <==> s[0] == t[0] && t[1..] <= s[1..];
      }
    }
  }

  /** A leading `%` lets the rest of the pattern match any suffix. */
  lemma {:induction false} LeadingPercent(s: string, q: string)
    ensures Like(s, "%" + q) <==> exists k | 0 <= k <= |s| :: Like(s[k..], q)
    decreases |s|
  {
    var p := "%" + q;
    assert p[0] == '%' && p[1..] == q;
    if Like(s, p) {
      if Like(s, q) {
        assert s[0..] == s;
      } else {
        LeadingPercent(s[1..], q);
        var k :| 0 <= k <= |s| - 1 && Like(s[1..][k..], q);
        assert s[1..][k..] == s[k + 1..];
      }
    }
    if exists k | 0 <= k <= |s| :: Like(s[k..], q) {
      var k :| 0 <= k <= |s| && Like(s[k..], q);
      if k == 0 {
        assert s[0..] == s;
      } else {
        assert s[1..][k - 1..] == s[k..];
        LeadingPercent(s[1..], q);
      }
    }
  }

  /** The escaped search pattern matches a string exactly when the term occurs in it. */
  lemma PatternMeansContains(s: string, term: string)
    ensures Like(s, Pattern(term)) <==> Contains(s, term)
  {
    var q := Escape(term) + "%";
    assert Pattern(term) == "%" + q;
    LeadingPercent(s, q);
    forall k | 0 <= k <= |s|
      ensures Like(s[k..], q) <==> term <= s[k..]
    {
      EscapedPrefix(s[k..], term);
    }
  }

  /** For a term without special characters the written pattern and the escaped one coincide. */
  lemma PlainTermsAgree(term: string)
    requires Plain(term)
    ensures RawPattern(term) == Pattern(term)
  {
  }

  /**
    As written, the term `_` is a wildcard: it matches "Soup", which does not contain an underscore.
   */
  lemma UnderscoreMatchesTooMuch()
    ensures Like("Soup", RawPattern("_"))
    ensures !Contains("Soup", "_")
  {
    var p := RawPattern("_");
    assert p == "%_%";
    assert p[1..] == "_%";
    assert p[2..] == "%";
    PercentMatchesAll("oup");
    assert "Soup"[1..] == "oup";
    assert Like("Soup", "_%");
  }

  /** With the pattern as written, the term `a\b` does not match the text `a\b`: `\b` stands for a literal `b`. */
  lemma BackslashTermMissesItself()
    ensures Contains("a\\b", "a\\b")
    ensures !Like("a\\b", RawPattern("a\\b"))
  {
    var s, q := "a\\b", "a\\b%";
    assert RawPattern(s) == "%" + q;
    LeadingPercent(s, q);
    forall k | 0 <= k <= |s| ensures !Like(s[k..], q) {
      var x := s[k..];
      if x != [] && x[0] == 'a' {
        assert k == 0 && x[1] == ESCAPE;
        assert q[1..] == "\\b%";
        assert !Like(x[1..], q[1..]);
      }
    }
    ContainsSelf(s);
  }
}
