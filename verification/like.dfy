/**
 * SQLite's `LIKE` operator as the storage layer's text search uses it: `%`
 * matches any run of characters, `_` any one character, and letters compare
 * without regard to ASCII case. No escape character is declared.
 */
module SqlLike {
  import opened Strings

  /** `s LIKE p`. */
  predicate Like(s: string, p: string)
    decreases |s| + |p|
  {
    if p == [] then s == []
    else if p[0] == '%' then Like(s, p[1..]) || (s != [] && Like(s[1..], p))
    else s != [] && (p[0] == '_' || LowerChar(p[0]) == LowerChar(s[0])) && Like(s[1..], p[1..])
  }

  /** A pattern in which neither wildcard occurs. */
  predicate NoWildcards(q: string)
  {
    '%' !in q && '_' !in q
  }

  /** A lone `%` matches everything. */
  lemma {:induction false} LikeAnything(s: string)
    ensures Like(s, "%")
    decreases |s|
  {
    if s != [] {
      LikeAnything(s[1..]);
    }
  }

  /** `s LIKE q || '%'` for a literal `q`: `s` starts with `q`, ignoring ASCII case. */
  lemma {:induction false} LikePrefix(s: string, q: string)
    requires NoWildcards(q)
    ensures Like(s, q + "%") <==> |q| <= |s| && Lower(s[..|q|]) == Lower(q)
    decreases |q|
  {
    if q == [] {
      assert q + "%" == "%";
      LikeAnything(s);
      assert s[..0] == [];
    } else {
      var p := q + "%";
      assert p[0] == q[0] && p[1..] == q[1..] + "%";
      assert q[0] != '%' && q[0] != '_';
      if s != [] {
        LikePrefix(s[1..], q[1..]);
        if |q| <= |s| {
          var a, b := Lower(s[..|q|]), Lower(q);
          var a1, b1 := Lower(s[1..][..|q| - 1]), Lower(q[1..]);
          assert a == [LowerChar(s[0])] + a1;
          assert b == [LowerChar(q[0])] + b1;
        }
      }
    }
  }

  /** A leading `%` lets the rest of the pattern match any suffix. */
  lemma {:induction false} LikeLeadingPercent(s: string, p: string)
    ensures Like(s, "%" + p) <==> exists i :: 0 <= i <= |s| && Like(s[i..], p)
    decreases |s|
  {
    var pp := "%" + p;
    assert pp[0] == '%' && pp[1..] == p;
    assert s[0..] == s;
    if s != [] {
      LikeLeadingPercent(s[1..], p);
      if Like(s[1..], pp) {
        var i :| 0 <= i <= |s[1..]| && Like(s[1..][i..], p);
        assert s[i + 1..] == s[1..][i..];
      }
      if exists i :: 0 <= i <= |s| && Like(s[i..], p) {
        var i :| 0 <= i <= |s| && Like(s[i..], p);
        if i > 0 {
          assert s[1..][i - 1..] == s[i..];
        }
      }
    }
  }

  /**
   * The search `content_text LIKE '%' || q || '%'` for a query without
   * wildcards is a case-insensitive (ASCII) substring test.
   */
  lemma LikeIsContains(s: string, q: string)
    requires NoWildcards(q)
    ensures Like(s, "%" + q + "%") <==> Contains(Lower(s), Lower(q))
  {
    assert "%" + q + "%" == "%" + (q + "%");
    LikeLeadingPercent(s, q + "%");
    if Like(s, "%" + q + "%") {
      var i :| 0 <= i <= |s| && Like(s[i..], q + "%");
      MatchAtIsOccurrence(s, q, i);
    }
    if Contains(Lower(s), Lower(q)) {
      var i :| 0 <= i <= |Lower(s)| - |Lower(q)| && OccursAt(Lower(s), Lower(q), i);
      MatchAtIsOccurrence(s, q, i);
    }
  }

  /** The prefix pattern matches the suffix from `i` exactly when `q` occurs there, ignoring case. */
  lemma MatchAtIsOccurrence(s: string, q: string, i: int)
    requires NoWildcards(q) && 0 <= i <= |s|
    ensures Like(s[i..], q + "%") <==> OccursAt(Lower(s), Lower(q), i)
  {
    LikePrefix(s[i..], q);
    if |q| <= |s[i..]| {
      assert Lower(s)[i..i + |q|] == Lower(s[i..][..|q|]);
    }
  }
}
