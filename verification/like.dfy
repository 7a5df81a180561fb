/**
 * SQLite's `LIKE` operator as the source uses it: no ESCAPE clause and the
 * default `case_sensitive_like = OFF`.  In the pattern, `%` matches any run
 * of characters (possibly empty), `_` matches exactly one character, and
 * every other character matches itself up to ASCII case: only `A`-`Z` fold
 * to `a`-`z`, all other characters compare exactly.
 */
module SqlLike {

  /** ASCII lower-casing, the only case folding SQLite's LIKE performs. */
  function Fold(c: char): (r: char)
    ensures 'A' <= c <= 'Z' ==> 'a' <= r <= 'z' && r as int == c as int + 32
    ensures !('A' <= c <= 'Z') ==> r == c
  {
    if 'A' <= c <= 'Z' then (c as int + 32) as char else c
  }

  /** Does the string `s` match the LIKE pattern `p`? */
  predicate Like(p: string, s: string)
    decreases |p| + |s|
  {
    if p == [] then s == []
    else if p[0] == '%' then Like(p[1..], s) || (s != [] && Like(p, s[1..]))
    else s != [] && (p[0] == '_' || Fold(p[0]) == Fold(s[0])) && Like(p[1..], s[1..])
  }

  /** The pattern `%q%` the source builds around a user string `q`. */
  function Pattern(q: string): (p: string)
    ensures |p| == |q| + 2 && p[0] == '%' && p[|p| - 1] == '%' && p[1..|p| - 1] == q
  {
    ['%'] + q + ['%']
  }

  /** One pattern character accepts one string character. */
  predicate CharAccepts(pc: char, c: char)
  {
    pc == '%' || pc == '_' || Fold(pc) == Fold(c)
  }

  /** `q` occurs in `s` at offset `i`, up to ASCII case (wildcards accept anything). */
  predicate OccursAt(q: string, s: string, i: nat)
  {
    i + |q| <= |s| && forall j :: 0 <= j < |q| ==> CharAccepts(q[j], s[i + j])
  }

  /** ASCII-case-insensitive containment of `q` in `s`. */
  predicate ContainsFolded(s: string, q: string)
  {
    exists i: nat :: i <= |s| && OccursAt(q, s, i)
  }

  /** `q` occurs literally in `s` at offset `i`. */
  predicate SubstringAt(q: string, s: string, i: nat)
  {
    i + |q| <= |s| && s[i..i + |q|] == q
  }

  /** Plain, case-sensitive substring. */
  predicate IsSubstring(q: string, s: string)
  {
    exists i: nat :: i <= |s| && SubstringAt(q, s, i)
  }

  /** A lone `%` matches every string. */
  lemma {:induction false} PercentMatchesAll(s: string)
    ensures Like("%", s)
  {
    if s != [] {
      PercentMatchesAll(s[1..]);
    }
  }

  /** A pattern that starts with `%` may skip any prefix of the string. */
  lemma {:induction false} PercentSkips(p: string, a: string, s: string)
    requires p != [] && p[0] == '%' && Like(p, s)
    ensures Like(p, a + s)
    decreases |a|
  {
    if a != [] {
      PercentSkips(p, a[1..], s);
      assert (a + s)[1..] == a[1..] + s;
      assert Like(p, (a + s)[1..]);
    } else {
      assert a + s == s;
    }
  }

  /** If `q` occurs at the start of `s`, then `q%` matches `s`. */
  lemma {:induction false} PrefixMatches(q: string, s: string)
    requires OccursAt(q, s, 0)
    ensures Like(q + "%", s)
    decreases |q|
  {
    var p := q + "%";
    if q == [] {
      assert p == "%";
      PercentMatchesAll(s);
    } else {
      assert OccursAt(q[1..], s[1..], 0) by {
        forall j | 0 <= j < |q[1..]|
          ensures CharAccepts(q[1..][j], s[1..][0 + j])
        {
          assert CharAccepts(q[j + 1], s[0 + (j + 1)]);
        }
      }
      PrefixMatches(q[1..], s[1..]);
      assert p[1..] == q[1..] + "%";
      if q[0] == '%' {
        // `%` absorbs the first character, then the rest matches
        assert Like(p, s[1..]);
      } else {
        assert CharAccepts(q[0], s[0 + 0]);
      }
    }
  }

  /** ASCII-case-insensitive containment implies a match of `%q%`. */
  lemma ContainsFoldedMatches(q: string, s: string)
    requires ContainsFolded(s, q)
    ensures Like(Pattern(q), s)
  {
    var i: nat :| i <= |s| && OccursAt(q, s, i);
    var tail := s[i..];
    assert OccursAt(q, tail, 0) by {
      forall j | 0 <= j < |q| ensures CharAccepts(q[j], tail[0 + j]) {
        assert CharAccepts(q[j], s[i + j]);
      }
    }
    PrefixMatches(q, tail);
    var p := Pattern(q);
    assert p[1..] == q + "%";
    assert Like(p, tail);
    PercentSkips(p, s[..i], tail);
    assert s[..i] + tail == s;
  }

  /** The property the source relies on: every plain substring matches `%q%`. */
  lemma SubstringMatches(q: string, s: string)
    requires IsSubstring(q, s)
    ensures Like(Pattern(q), s)
  {
    var i: nat :| i <= |s| && SubstringAt(q, s, i);
    assert OccursAt(q, s, i) by {
      forall j | 0 <= j < |q| ensures CharAccepts(q[j], s[i + j]) {
        assert q[j] == s[i..i + |q|][j];
      }
    }
    ContainsFoldedMatches(q, s);
  }

  /** Matching ignores ASCII case: "%ABC%" matches "xabcx", which does not contain "ABC". */
  lemma CaseInsensitive()
    ensures Like(Pattern("ABC"), "xabcx") && !IsSubstring("ABC", "xabcx")
  {
    assert OccursAt("ABC", "xabcx", 1);
    ContainsFoldedMatches("ABC", "xabcx");
    forall i: nat | i <= 5 ensures !SubstringAt("ABC", "xabcx", i) {
      if i + 3 <= 5 {
        assert "xabcx"[i..i + 3][0] == "xabcx"[i] != 'A';
      }
    }
  }

  /** `_` in the user string is a wildcard: "%a_c%" matches "abc". */
  lemma UnderscoreIsWildcard()
    ensures Like(Pattern("a_c"), "abc") && !IsSubstring("a_c", "abc")
  {
    assert OccursAt("a_c", "abc", 0);
    ContainsFoldedMatches("a_c", "abc");
    forall i: nat | i <= 3 ensures !SubstringAt("a_c", "abc", i) {
      if i + 3 <= 3 {
        assert "abc"[i..i + 3][1] == "abc"[1] != '_';
      }
    }
  }

  /** The patterns built from "", "%" and "_" match every id (the last: every non-empty id). */
  lemma WildcardPatternsMatchAll(s: string)
    ensures Like(Pattern(""), s) && Like(Pattern("%"), s)
    ensures s != [] ==> Like(Pattern("_"), s)
  {
    assert OccursAt("", s, 0);
    ContainsFoldedMatches("", s);
    if s != [] {
      assert OccursAt("%", s, 0);
      ContainsFoldedMatches("%", s);
      assert OccursAt("_", s, 0);
      ContainsFoldedMatches("_", s);
    } else {
      PercentMatchesAll(s);
      assert Pattern("%") == "%%%";
      assert Like("%%", s);
    }
  }
}
