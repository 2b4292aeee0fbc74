/**
 * SQLite's `LIKE` operator with no ESCAPE clause, as used by the title and
 * bucket-path filters (`title LIKE '%' || :query || '%'`): `%` matches any
 * run of characters, `_` exactly one, and letters compare without regard
 * to case for ASCII only.
 */
module SqlLike {

  /** ASCII lower-casing; every other character is left alone. */
  function Fold(c: char): char {
    if 'A' <= c <= 'Z' then (c as int + 32) as char else c
  }

  predicate FoldEq(a: string, b: string) {
    |a| == |b| && forall i | 0 <= i < |a| :: Fold(a[i]) == Fold(b[i])
  }

  /** `q` occurs in `s` at position `i`, up to ASCII case. */
  predicate OccursAt(s: string, q: string, i: int) {
    0 <= i && i + |q| <= |s| && FoldEq(s[i..i + |q|], q)
  }

  predicate NoWildcards(q: string) {
    forall i | 0 <= i < |q| :: q[i] != '%' && q[i] != '_'
  }

  /** `s LIKE p`. */
  predicate Like(s: string, p: string)
    decreases |s| + |p|
  {
    if p == [] then s == []
    else if p[0] == '%' then Like(s, p[1..]) || (s != [] && Like(s[1..], p))
    else s != [] && (p[0] == '_' || Fold(s[0]) == Fold(p[0])) && Like(s[1..], p[1..])
  }

  /** The pattern the DAO filters build around a query. */
  function Containing(q: string): string {
    "%" + q + "%"
  }

  /** `%` alone matches every string. */
  lemma {:induction false} PercentMatchesAll(s: string)
    ensures Like(s, "%")
  {
    if s != [] {
      PercentMatchesAll(s[1..]);
    }
  }

  /** A wildcard-free `q` followed by `%` matches exactly the strings that start with `q`, up to ASCII case. */
  lemma {:induction false} PrefixPattern(s: string, q: string)
    requires NoWildcards(q)
    ensures Like(s, q + "%") <==> |q| <= |s| && FoldEq(s[..|q|], q)
  {
    if q == [] {
      assert q + "%" == "%";
      PercentMatchesAll(s);
    } else {
      var p := q + "%";
      assert p[0] == q[0] && p[1..] == q[1..] + "%";
      assert NoWildcards(q[1..]) by {
        forall i | 0 <= i < |q[1..]| ensures q[1..][i] != '%' && q[1..][i] != '_' {
          assert q[1..][i] == q[i + 1];
        }
      }
      if s != [] {
        PrefixPattern(s[1..], q[1..]);
        if |q| <= |s| && FoldEq(s[..|q|], q) {
          assert FoldEq(s[1..][..|q[1..]|], q[1..]) by {
            forall i | 0 <= i < |q[1..]|
              ensures Fold(s[1..][..|q[1..]|][i]) == Fold(q[1..][i])
            {
              assert s[1..][..|q[1..]|][i] == s[..|q|][i + 1];
            }
          }
          assert Fold(s[0]) == Fold(q[0]) by { assert s[..|q|][0] == s[0]; }
        }
        if Like(s, p) {
          assert FoldEq(s[..|q|], q) by {
            forall i | 0 <= i < |q| ensures Fold(s[..|q|][i]) == Fold(q[i]) {
              if i > 0 {
                assert s[..|q|][i] == s[1..][..|q[1..]|][i - 1];
              }
            }
          }
        }
      }
    }
  }

  /** A leading `%` lets the rest of the pattern match any suffix. */
  lemma {:induction false} LeadingPercent(s: string, r: string)
    ensures Like(s, "%" + r) <==> exists i :: 0 <= i <= |s| && Like(s[i..], r)
  {
    var p := "%" + r;
    assert p[0] == '%' && p[1..] == r;
    if s == [] {
      assert s[0..] == s;
    } else {
      LeadingPercent(s[1..], r);
      if Like(s, p) && !Like(s, r) {
        var j :| 0 <= j <= |s[1..]| && Like(s[1..][j..], r);
        assert s[1..][j..] == s[j + 1..];
      }
      if exists i :: 0 <= i <= |s| && Like(s[i..], r) {
        var i :| 0 <= i <= |s| && Like(s[i..], r);
        if i == 0 {
          assert s[0..] == s;
        } else {
          assert s[1..][i - 1..] == s[i..];
        }
      }
    }
  }

  /**
   * For a query without wildcard characters the filter is a case-insensitive
   * (ASCII) substring test.
   */
  lemma ContainingIsSubstring(s: string, q: string)
    requires NoWildcards(q)
    ensures Like(s, Containing(q)) <==> exists i :: OccursAt(s, q, i)
  {
    assert Containing(q) == "%" + (q + "%");
    LeadingPercent(s, q + "%");
    if Like(s, Containing(q)) {
      var i :| 0 <= i <= |s| && Like(s[i..], q + "%");
      PrefixPattern(s[i..], q);
      assert s[i..][..|q|] == s[i..i + |q|];
      assert OccursAt(s, q, i);
    }
    if exists i :: OccursAt(s, q, i) {
      var i :| OccursAt(s, q, i);
      PrefixPattern(s[i..], q);
      assert s[i..][..|q|] == s[i..i + |q|];
      assert Like(s[i..], q + "%");
    }
  }

  /** An empty query (`'%%'`) keeps every title. */
  lemma EmptyQueryMatchesAll(s: string)
    ensures Like(s, Containing(""))
  {
    assert Containing("") == "%" + "%";
    LeadingPercent(s, "%");
    PercentMatchesAll(s);
    assert s[0..] == s;
  }
}
