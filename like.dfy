/**
 * SQLite's `LIKE` operator with no ESCAPE clause, as `search_vocabulary`
 * uses it: `%` matches any run of characters, `_` matches exactly one, and
 * every other character matches itself with ASCII letters compared without
 * regard to case (SQLite folds only ASCII case by default).
 */
module SqlLike {
  import opened Text

  /** `s LIKE p`. */
  predicate Like(p: string, s: string)
    decreases |p| + |s|
  {
    if p == [] then s == []
    else if p[0] == '%' then Like(p[1..], s) || (s != [] && Like(p, s[1..]))
    else s != [] && (p[0] == '_' || LowerChar(p[0]) == LowerChar(s[0])) && Like(p[1..], s[1..])
  }

  /** `t` holds neither of the two wildcards. */
  predicate NoWildcards(t: string) {
    forall i :: 0 <= i < |t| ==> t[i] != '%' && t[i] != '_'
  }

  /** A lone `%` matches every string. */
  lemma {:induction false} PercentMatchesAll(s: string)
    ensures Like("%", s)
  {
    if s != [] {
      PercentMatchesAll(s[1..]);
    }
  }

  lemma LowerCons(s: string)
    requires s != []
    ensures Lower(s) == [LowerChar(s[0])] + Lower(s[1..])
  {
  }

  /**
   * A wildcard-free pattern followed by `%` is a case-insensitive prefix
   * test.
   */
  lemma {:induction false} LikePrefix(t: string, s: string)
    requires NoWildcards(t)
    ensures Like(t + "%", s) <==> |t| <= |s| && Lower(t) == Lower(s[..|t|])
  {
    if t == [] {
      assert t + "%" == "%";
      PercentMatchesAll(s);
    } else {
      var p := t + "%";
      assert p[0] == t[0] && p[1..] == t[1..] + "%";
      assert NoWildcards(t[1..]) by {
        forall i | 0 <= i < |t[1..]| ensures t[1..][i] != '%' && t[1..][i] != '_' {
          assert t[1..][i] == t[i + 1];
        }
      }
      LowerCons(t);
      if s == [] {
        assert !Like(p, s);
      } else {
        LikePrefix(t[1..], s[1..]);
        assert t[0] != '%' && t[0] != '_';
        assert Like(p, s) <==> LowerChar(t[0]) == LowerChar(s[0]) && Like(t[1..] + "%", s[1..]);
        if |t| <= |s| {
          var u := s[..|t|];
          LowerCons(u);
          assert u[0] == s[0];
          assert u[1..] == s[1..][..|t[1..]|];
          var a, b := [LowerChar(t[0])] + Lower(t[1..]), [LowerChar(u[0])] + Lower(u[1..]);
          if a == b {
            assert a[0] == b[0] && a[1..] == b[1..];
          }
        }
      }
    }
  }

  /** A leading `%` lets the rest of the pattern match any suffix. */
  lemma {:induction false} LikeLeadingPercent(q: string, s: string)
    ensures Like("%" + q, s) <==> exists i :: 0 <= i <= |s| && Like(q, s[i..])
  {
    var p := "%" + q;
    assert p[1..] == q;
    if s == [] {
      assert Like(q, s) ==> Like(q, s[0..]);
    } else {
      LikeLeadingPercent(q, s[1..]);
      if Like(p, s) {
        if Like(q, s) {
          assert Like(q, s[0..]);
        } else {
          var i :| 0 <= i <= |s[1..]| && Like(q, s[1..][i..]);
          assert s[1..][i..] == s[i + 1..];
        }
      }
      if exists i :: 0 <= i <= |s| && Like(q, s[i..]) {
        var i :| 0 <= i <= |s| && Like(q, s[i..]);
        if i > 0 {
          assert s[1..][i - 1..] == s[i..];
        }
      }
    }
  }

  /**
   * `column LIKE '%' || t || '%'` for a wildcard-free `t` is exactly Python's
   * `t.lower() in column.lower()` on ASCII case.
   */
  lemma LikeContains(t: string, s: string)
    requires NoWildcards(t)
    ensures Like("%" + t + "%", s) <==> Contains(Lower(t), Lower(s))
  {
    assert "%" + t + "%" == "%" + (t + "%");
    LikeLeadingPercent(t + "%", s);
    if Like("%" + t + "%", s) {
      var i :| 0 <= i <= |s| && Like(t + "%", s[i..]);
      LikePrefix(t, s[i..]);
      assert s[i..][..|t|] == s[i..i + |t|];
      LowerSlice(s, i, i + |t|);
      assert OccursAt(Lower(t), Lower(s), i);
    }
    if Contains(Lower(t), Lower(s)) {
      var i :| 0 <= i <= |s| - |t| && OccursAt(Lower(t), Lower(s), i);
      LowerSlice(s, i, i + |t|);
      assert s[i..][..|t|] == s[i..i + |t|];
      LikePrefix(t, s[i..]);
      assert Like(t + "%", s[i..]);
    }
  }

  /** A search term that is empty matches every column: `LIKE '%%'`. */
  lemma EmptyTermMatchesAll(s: string)
    ensures Like("%" + "" + "%", s)
  {
    LikeContains("", s);
    EmptyIsContained(Lower(s));
  }
}
