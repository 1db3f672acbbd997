/**
 * BookSpecs: three factories of optional query conditions on a Book. A factory whose
 * parameter is null (or, for the title, blank) contributes no condition at all.
 */
module Specs {
  import opened Wrappers
  import opened JavaText
  import opened Entity

  /** A single condition of a query's WHERE clause. */
  datatype Condition =
    | TitleLike(pattern: string)  // lower(title) LIKE pattern
    | YearAtLeast(year: int)      // publishedYear >= year
    | YearAtMost(year: int)       // publishedYear <= year

  /** titleContains: no condition for a null or blank query, else lower(title) LIKE
      '%' + lower(query) + '%', with the query's own '%' and '_' left unescaped. */
  function TitleContains(query: Option<string>): (r: Option<Condition>)
    ensures r.None? <==> query.None? || IsBlank(query.value)
    ensures r.Some? ==> && r.value.TitleLike?
                        && r.value.pattern == "%" + ToLowerCase(query.value) + "%"
                        && !IsBlank(query.value)
  {
    if query.None? || IsBlank(query.value) then None
    else Some(TitleLike("%" + ToLowerCase(query.value) + "%"))
  }

  /** yearGTE: no condition for a null year. */
  function YearGte(year: Option<int>): (r: Option<Condition>)
    ensures r.None? <==> year.None?
    ensures r.Some? ==> r.value == YearAtLeast(year.value)
  {
    if year.None? then None else Some(YearAtLeast(year.value))
  }

  /** yearLTE: no condition for a null year. */
  function YearLte(year: Option<int>): (r: Option<Condition>)
    ensures r.None? <==> year.None?
    ensures r.Some? ==> r.value == YearAtMost(year.value)
  {
    if year.None? then None else Some(YearAtMost(year.value))
  }

  /** Whether a row satisfies a condition. A comparison against a null column is unknown
      in SQL, and a WHERE clause keeps only rows for which it is true: a row whose compared
      column is null satisfies no condition. */
  predicate Holds(c: Condition, b: Book)
    ensures Holds(c, b) && c.TitleLike? ==> b.title.Some?
    ensures Holds(c, b) && !c.TitleLike? ==> b.publishedYear.Some?
  {
    match c
    case TitleLike(p) => b.title.Some? && Like(ToLowerCase(b.title.value), p)
    case YearAtLeast(y) => b.publishedYear.Some? && b.publishedYear.value >= y
    case YearAtMost(y) => b.publishedYear.Some? && b.publishedYear.value <= y
  }

  /** SQL LIKE without an escape character: '%' matches any run of characters, '_' any one
      character, every other character itself. A pattern without wildcards matches only
      itself. */
  predicate Like(s: string, p: string)
    ensures NoWildcards(p) ==> (Like(s, p) <==> s == p)
    decreases |s| + |p|
  {
    if p == [] then s == []
    else if p[0] == '%' then Like(s, p[1..]) || (s != [] && Like(s[1..], p))
    else s != [] && (p[0] == '_' || s[0] == p[0]) && Like(s[1..], p[1..])
  }

  predicate NoWildcards(w: string)
  {
    forall i | 0 <= i < |w| :: w[i] != '%' && w[i] != '_'
  }

  /** w occurs in s starting at index i. */
  predicate OccursAt(w: string, s: string, i: int)
  {
    0 <= i && i + |w| <= |s| && s[i..i + |w|] == w
  }

  /** w occurs in s as a contiguous substring. */
  predicate IsSubstring(w: string, s: string)
  {
    exists i | 0 <= i <= |s| :: OccursAt(w, s, i)
  }

  lemma {:induction false} PercentMatchesAll(s: string)
    ensures Like(s, "%")
    decreases |s|
  {
    if s != [] {
      PercentMatchesAll(s[1..]);
    }
  }

  /** A wildcard-free word followed by '%' matches exactly the strings it begins. */
  lemma {:induction false} LikePrefix(s: string, w: string)
    requires NoWildcards(w)
    ensures Like(s, w + "%") <==> |w| <= |s| && s[..|w|] == w
    decreases |w|
  {
    if w == [] {
      assert w + "%" == "%";
      PercentMatchesAll(s);
    } else {
      var p := w + "%";
      assert p[0] == w[0] && p[1..] == w[1..] + "%";
      assert NoWildcards(w[1..]) by {
        forall i | 0 <= i < |w[1..]| ensures w[1..][i] != '%' && w[1..][i] != '_' {
          assert w[1..][i] == w[i + 1];
        }
      }
      if s != [] {
        LikePrefix(s[1..], w[1..]);
        if |w| <= |s| && s[..|w|] == w {
          assert s[1..][..|w[1..]|] == w[1..];
        }
        if |w[1..]| <= |s[1..]| && s[1..][..|w[1..]|] == w[1..] && s[0] == w[0] {
          assert s[..|w|] == [s[0]] + s[1..][..|w[1..]|];
        }
      }
    }
  }

  /** A leading '%' lets the rest of the pattern match any suffix. */
  lemma {:induction false} LikeLeadingPercent(s: string, r: string)
    ensures Like(s, "%" + r) <==> exists i | 0 <= i <= |s| :: Like(s[i..], r)
    decreases |s|
  {
    var p := "%" + r;
    assert p[0] == '%' && p[1..] == r;
    if s == [] {
      assert s[0..] == s;
    } else {
      LikeLeadingPercent(s[1..], r);
      if Like(s, p) {
        if !Like(s, r) {
          var i :| 0 <= i <= |s[1..]| && Like(s[1..][i..], r);
          assert s[1..][i..] == s[i + 1..];
        } else {
          assert s[0..] == s;
        }
      }
      if exists i | 0 <= i <= |s| :: Like(s[i..], r) {
        var i :| 0 <= i <= |s| && Like(s[i..], r);
        if i > 0 {
          assert s[1..][i - 1..] == s[i..];
        } else {
          assert s[0..] == s;
        }
      }
    }
  }

  /** '%' + w + '%' for a wildcard-free w is the substring test. */
  lemma ContainsPattern(s: string, w: string)
    requires NoWildcards(w)
    ensures Like(s, "%" + w + "%") <==> IsSubstring(w, s)
  {
    assert "%" + w + "%" == "%" + (w + "%");
    LikeLeadingPercent(s, w + "%");
    if Like(s, "%" + w + "%") {
      var i :| 0 <= i <= |s| && Like(s[i..], w + "%");
      LikePrefix(s[i..], w);
      assert s[i..i + |w|] == s[i..][..|w|];
      assert OccursAt(w, s, i);
    }
    if IsSubstring(w, s) {
      var i :| 0 <= i <= |s| && OccursAt(w, s, i);
      LikePrefix(s[i..], w);
      assert s[i..i + |w|] == s[i..][..|w|];
    }
  }

  /** titleContains, for a query that is present, not blank and free of LIKE wildcards,
      selects the books whose lower-cased title contains the lower-cased query. */
  lemma TitleContainsMeaning(query: string, b: Book)
    requires !IsBlank(query) && NoWildcards(query)
    ensures TitleContains(Some(query)).Some?
    ensures Holds(TitleContains(Some(query)).value, b) <==>
              b.title.Some? && IsSubstring(ToLowerCase(query), ToLowerCase(b.title.value))
  {
    assert NoWildcards(ToLowerCase(query));
    if b.title.Some? {
      ContainsPattern(ToLowerCase(b.title.value), ToLowerCase(query));
    }
  }

  /** titleContains ignores the case of the query: its upper- and lower-cased variants yield
      the very same condition. */
  lemma TitleContainsIgnoresCase(query: string)
    ensures TitleContains(Some(ToUpperCase(query))) == TitleContains(Some(query))
    ensures TitleContains(Some(ToLowerCase(query))) == TitleContains(Some(query))
  {
    LowerForgetsCase(query);
    CaseKeepsBlank(query);
  }

  /** yearGTE and yearLTE select by the year, both ways round. */
  lemma YearBoundsMeaning(year: int, b: Book)
    ensures Holds(YearGte(Some(year)).value, b) <==> b.publishedYear.Some? && b.publishedYear.value >= year
    ensures Holds(YearLte(Some(year)).value, b) <==> b.publishedYear.Some? && b.publishedYear.value <= year
  {
  }

  /** A lower bound above the upper bound selects nothing. */
  lemma EmptyYearRange(fromYear: int, toYear: int, b: Book)
    requires fromYear > toYear
    ensures !(Holds(YearGte(Some(fromYear)).value, b) && Holds(YearLte(Some(toYear)).value, b))
  {
  }
}
