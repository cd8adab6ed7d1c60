/** SQLite's LIKE operator, as the relational queries use it: no ESCAPE
    clause, so `%` and `_` typed by the user stay wildcards, and letters
    compare without regard to ASCII case. */
module SqlLike {
  import opened Text

  /** `s LIKE p`: `%` matches any run of characters (possibly empty), `_`
      exactly one character, every other character itself up to ASCII case. */
  predicate Like(s: string, p: string)
    decreases |s| + |p|
  {
    if p == [] then s == []
    else if p[0] == '%' then Like(s, p[1..]) || (s != [] && Like(s[1..], p))
    else s != [] && (p[0] == '_' || Lower(s[0]) == Lower(p[0])) && Like(s[1..], p[1..])
  }

  /** Every string matches itself as a pattern: `%` and `_` can stand for
      themselves. */
  lemma {:induction false} LikeSelf(s: string)
    ensures Like(s, s)
    decreases |s|
  {
    if s != [] {
      LikeSelf(s[1..]);
      if s[0] == '%' {
        assert Like(s[1..], s) by {
          assert s[1..] == s[1..] && Like(s[1..], s[1..]);
        }
      }
    }
  }

  /** A pattern without wildcards. */
  predicate Literal(p: string) {
    forall i :: 0 <= i < |p| ==> p[i] != '%' && p[i] != '_'
  }

  /** The pattern `'%' || kw || '%'` built for a contains-search. */
  function ContainsPattern(kw: string): string {
    "%" + kw + "%"
  }

  lemma {:induction false} LikeAnything(s: string)
    ensures Like(s, "%")
  {
    if s != [] {
      LikeAnything(s[1..]);
    }
  }

  lemma EqCICons(a: string, b: string)
    requires |a| > 0 && |b| > 0
    ensures EqCI(a, b) <==> Lower(a[0]) == Lower(b[0]) && EqCI(a[1..], b[1..])
  {
    if Lower(a[0]) == Lower(b[0]) && EqCI(a[1..], b[1..]) {
      forall i | 0 <= i < |a| ensures Lower(a[i]) == Lower(b[i]) {
        if i > 0 {
          assert a[i] == a[1..][i - 1] && b[i] == b[1..][i - 1];
        }
      }
    }
  }

  /** A literal prefix of a pattern consumes exactly as many characters,
      matching them up to case. */
  lemma {:induction false} LikeLiteralPrefix(s: string, p: string, q: string)
    requires Literal(p)
    ensures Like(s, p + q) <==> |p| <= |s| && EqCI(s[..|p|], p) && Like(s[|p|..], q)
  {
    if p == [] {
      assert p + q == q;
      assert s[|p|..] == s;
    } else {
      assert (p + q)[0] == p[0];
      assert (p + q)[1..] == p[1..] + q;
      assert p[0] != '%' && p[0] != '_';
      if s != [] {
        LikeLiteralPrefix(s[1..], p[1..], q);
        if |p| <= |s| {
          EqCICons(s[..|p|], p);
          assert s[..|p|][1..] == s[1..][..|p| - 1];
          assert s[1..][|p| - 1..] == s[|p|..];
        }
      }
    }
  }

  /** `s` matches `q` from position `i` on. */
  predicate LikeFrom(s: string, q: string, i: int) {
    0 <= i <= |s| && Like(s[i..], q)
  }

  /** A leading `%` tries every starting position. */
  lemma {:induction false} LikeLeadingPercent(s: string, q: string)
    ensures Like(s, "%" + q) <==> exists i :: LikeFrom(s, q, i)
  {
    assert ("%" + q)[0] == '%' && ("%" + q)[1..] == q;
    assert s[0..] == s;
    assert Like(s, q) ==> LikeFrom(s, q, 0);
    if s == [] {
      if exists i :: LikeFrom(s, q, i) {
        var i :| LikeFrom(s, q, i);
        assert i == 0;
      }
    } else {
      LikeLeadingPercent(s[1..], q);
      if exists i :: LikeFrom(s[1..], q, i) {
        var i :| LikeFrom(s[1..], q, i);
        assert s[1..][i..] == s[i + 1..];
        assert LikeFrom(s, q, i + 1);
      }
      if exists i :: LikeFrom(s, q, i) {
        var i :| LikeFrom(s, q, i);
        if i > 0 {
          assert s[1..][i - 1..] == s[i..];
          assert LikeFrom(s[1..], q, i - 1);
        }
      }
    }
  }

  /** For a keyword without wildcards, `s LIKE '%kw%'` is a case-insensitive
      substring test. */
  lemma LikeContains(s: string, kw: string)
    requires Literal(kw)
    ensures Like(s, ContainsPattern(kw)) <==> ContainsCI(s, kw)
  {
    assert ContainsPattern(kw) == "%" + (kw + "%");
    LikeLeadingPercent(s, kw + "%");
    forall i | 0 <= i <= |s|
      ensures LikeFrom(s, kw + "%", i) <==> OccursAt(s, kw, i)
    {
      LikeLiteralPrefix(s[i..], kw, "%");
      if |kw| <= |s| - i {
        LikeAnything(s[i..][|kw|..]);
        assert s[i..][..|kw|] == s[i..i + |kw|];
      }
    }
    if ContainsCI(s, kw) {
      var i :| 0 <= i <= |s| - |kw| && OccursAt(s, kw, i);
      assert LikeFrom(s, kw + "%", i);
    }
  }

  /** For a pattern without wildcards, LIKE is equality up to ASCII case. */
  lemma LikeExact(s: string, p: string)
    requires Literal(p)
    ensures Like(s, p) <==> EqCI(s, p)
  {
    LikeLiteralPrefix(s, p, "");
    assert p + "" == p;
    if |p| <= |s| {
      assert |s[|p|..]| == |s| - |p|;
      if |s| == |p| {
        assert s[..|p|] == s;
      }
    }
  }

  /** LOWER() on the subject does not change a LIKE test. */
  lemma {:induction false} LikeLowerSubject(s: string, p: string)
    ensures Like(LowerStr(s), p) <==> Like(s, p)
    decreases |s| + |p|
  {
    var ls := LowerStr(s);
    if p != [] {
      if p[0] == '%' {
        LikeLowerSubject(s, p[1..]);
        if s != [] {
          assert ls[1..] == LowerStr(s[1..]);
          LikeLowerSubject(s[1..], p);
        }
      } else if s != [] {
        assert ls[1..] == LowerStr(s[1..]);
        LikeLowerSubject(s[1..], p[1..]);
        LowerIdempotent(s[0]);
      }
    }
  }

  /** Lower-casing the pattern does not change a LIKE test either: it leaves
      `%` and `_` alone and LIKE already ignores ASCII case. */
  lemma {:induction false} LikeLowerPattern(s: string, p: string)
    ensures Like(s, LowerStr(p)) <==> Like(s, p)
    decreases |s| + |p|
  {
    var lp := LowerStr(p);
    if p != [] {
      assert lp[1..] == LowerStr(p[1..]);
      LowerIdempotent(p[0]);
      if p[0] == '%' {
        LikeLowerPattern(s, p[1..]);
        if s != [] {
          LikeLowerPattern(s[1..], p);
        }
      } else if s != [] {
        LikeLowerPattern(s[1..], p[1..]);
      }
    }
  }

  /** An underscore in a search term is a one-character wildcard: the term
      `g_` selects the stored hashtag `go`, which it does not spell. */
  lemma UnderscoreIsWildcard()
    ensures Like("go", "g_") && !EqCI("go", "g_")
  {
    assert Like("", "");
    assert "go"[1..] == "o" && "g_"[1..] == "_";
    assert "o"[1..] == "" && "_"[1..] == "";
    assert "go"[1] == 'o' && "g_"[1] == '_';
    assert Lower('o') != Lower('_');
  }

  /** A `%` in a free-text keyword is a wildcard too: the keyword `5%0`
      finds the text `520` although it does not occur in it. */
  lemma PercentInKeywordIsWildcard()
    ensures Like("520", ContainsPattern("5%0")) && !ContainsCI("520", "5%0")
  {
    var p := ContainsPattern("5%0");
    assert p == "%5%0%";
    assert Like("", "%") by { LikeAnything(""); }
    assert Like("0", "0%") by {
      assert "0"[1..] == "" && "0%"[1..] == "%";
    }
    assert Like("20", "%0%") by {
      assert "%0%"[1..] == "0%" && "20"[1..] == "0";
    }
    assert Like("520", "5%0%") by {
      assert "5%0%"[1..] == "%0%" && "520"[1..] == "20";
    }
    assert Like("520", p) by {
      assert p[1..] == "5%0%";
    }
    forall i | 0 <= i <= |"520"| - |"5%0"| ensures !OccursAt("520", "5%0", i) {
      assert i == 0;
      assert "520"[0..3][1] == '2';
    }
  }
}
