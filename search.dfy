/** The last-name search: a result is shown when its lower-cased last name contains the
    lower-cased search term as a substring (`toLowerCase().includes(...)`). */
module Search {
  import opened Seqs
  import opened Records

  predicate IsUpper(c: char)
  {
    'A' <= c <= 'Z'
  }

  /** `toLowerCase` on one character, for the ASCII letters. */
  function LowerChar(c: char): (l: char)
    ensures !IsUpper(l)
    ensures IsUpper(c) ==> l as int == c as int + 32
    ensures !IsUpper(c) ==> l == c
  {
    if IsUpper(c) then (c as int + 32) as char else c
  }

  /** `s.toLowerCase()`, character by character: no upper-case letter is left, and a
      string with none is its own lower-case form. */
  function Lower(s: string): (r: string)
    ensures |r| == |s|
    ensures forall i :: 0 <= i < |s| ==> r[i] == LowerChar(s[i])
    ensures forall i :: 0 <= i < |r| ==> !IsUpper(r[i])
    ensures (forall i :: 0 <= i < |s| ==> !IsUpper(s[i])) ==> r == s
  {
    seq(|s|, i requires 0 <= i < |s| => LowerChar(s[i]))
  }

  /** Lower-casing twice is lower-casing once, so lower-casing the term and the last name
      again would change nothing. */
  lemma LowerIdempotent(s: string)
    ensures Lower(Lower(s)) == Lower(s)
  {
    assert forall i :: 0 <= i < |Lower(s)| ==> !IsUpper(Lower(s)[i]);
  }

  lemma LowerConcat(a: string, b: string)
    ensures Lower(a + b) == Lower(a) + Lower(b)
  {
  }

  /** `s` begins with `p`. */
  predicate StartsWith(s: string, p: string)
  {
    |p| <= |s| && s[..|p|] == p
  }

  /** `hay.includes(needle)`: `needle` starts at some position of `hay`. */
  predicate Contains(hay: string, needle: string)
    decreases |hay|
  {
    StartsWith(hay, needle) || (hay != [] && Contains(hay[1..], needle))
  }

  /** `needle` occupies the positions `i .. i + |needle|` of `hay`. */
  predicate OccursAt(hay: string, needle: string, i: int)
  {
    0 <= i && i + |needle| <= |hay| && hay[i..i + |needle|] == needle
  }

  /** Contains is the substring test. */
  lemma {:induction false} ContainsIff(hay: string, needle: string)
    ensures Contains(hay, needle) <==> exists i :: OccursAt(hay, needle, i)
  {
    if hay == [] {
      if Contains(hay, needle) {
        assert OccursAt(hay, needle, 0);
      }
    } else {
      ContainsIff(hay[1..], needle);
      if Contains(hay, needle) {
        if StartsWith(hay, needle) {
          assert OccursAt(hay, needle, 0);
        } else {
          var i :| OccursAt(hay[1..], needle, i);
          assert hay[i + 1..i + 1 + |needle|] == hay[1..][i..i + |needle|];
          assert OccursAt(hay, needle, i + 1);
        }
      }
      if i :| OccursAt(hay, needle, i) {
        if i > 0 {
          assert hay[1..][i - 1..i - 1 + |needle|] == hay[i..i + |needle|];
          assert OccursAt(hay[1..], needle, i - 1);
        }
      }
    }
  }

  /** A substring of a substring is a substring. */
  lemma ContainsTransitive(a: string, b: string, c: string)
    requires Contains(a, b) && Contains(b, c)
    ensures Contains(a, c)
  {
    ContainsIff(a, b);
    ContainsIff(b, c);
    var i :| OccursAt(a, b, i);
    var j :| OccursAt(b, c, j);
    forall k | 0 <= k < |c|
      ensures a[i + j + k] == c[k]
    {
      assert a[i..i + |b|][j + k] == b[j + k];
      assert b[j..j + |c|][k] == c[k];
    }
    assert a[i + j..i + j + |c|] == c;
    assert OccursAt(a, c, i + j);
    ContainsIff(a, c);
  }

  /** Nothing contains a longer string. */
  lemma {:induction false} ContainsLength(hay: string, needle: string)
    requires Contains(hay, needle)
    ensures |needle| <= |hay|
  {
    if !StartsWith(hay, needle) {
      ContainsLength(hay[1..], needle);
    }
  }

  /** The search test of one result. */
  predicate Matches(r: RaceResult, term: string)
  {
    Contains(Lower(r.lastName), Lower(term))
  }

  function MatchesTerm(term: string): RaceResult -> bool
  {
    r => Matches(r, term)
  }

  /** `results.filter(...)` with the search test: the matching results, in their order. */
  function SearchByLastName(rs: seq<RaceResult>, term: string): (found: seq<RaceResult>)
    ensures IsSubsequence(found, rs)
    ensures forall i :: 0 <= i < |found| ==> Matches(found[i], term)
    ensures forall r :: r in rs && Matches(r, term) ==> r in found
    ensures forall r :: r in found ==> r in rs
    ensures forall r :: multiset(found)[r] == if Matches(r, term) then multiset(rs)[r] else 0
  {
    FilterSpec(rs, MatchesTerm(term));
    assert forall r :: MatchesTerm(term)(r) == Matches(r, term);
    Filter(rs, MatchesTerm(term))
  }

  /** The empty term matches every result, so the unfiltered list and the filtered one agree
      and the `searchTerm.length === 0` branch shows the same rows as the other. */
  lemma EmptyTermKeepsAll(rs: seq<RaceResult>)
    ensures SearchByLastName(rs, "") == rs
  {
    forall i | 0 <= i < |rs|
      ensures MatchesTerm("")(rs[i])
    {
      assert StartsWith(Lower(rs[i].lastName), Lower(""));
    }
    FilterKeepsAll(rs, MatchesTerm(""));
  }

  /** Terms that lower-case alike find the same results. */
  lemma SearchIgnoresCase(rs: seq<RaceResult>, t: string, u: string)
    requires Lower(t) == Lower(u)
    ensures SearchByLastName(rs, t) == SearchByLastName(rs, u)
  {
    FilterAgree(rs, MatchesTerm(t), MatchesTerm(u));
  }

  lemma UpperAndLowerTermsAgree(rs: seq<RaceResult>)
    ensures SearchByLastName(rs, "SMITH") == SearchByLastName(rs, "smith")
  {
    assert Lower("SMITH") == "smith" == Lower("smith");
    SearchIgnoresCase(rs, "SMITH", "smith");
  }

  /** The first name is never consulted: lists that differ only in first names are
      filtered alike, position by position. */
  lemma {:induction false} FirstNameNotConsulted(rs: seq<RaceResult>, qs: seq<RaceResult>, term: string)
    requires |rs| == |qs|
    requires forall i :: 0 <= i < |rs| ==> qs[i] == rs[i].(firstName := qs[i].firstName)
    ensures |SearchByLastName(rs, term)| == |SearchByLastName(qs, term)|
    ensures forall k :: 0 <= k < |SearchByLastName(rs, term)| ==>
      SearchByLastName(qs, term)[k] == SearchByLastName(rs, term)[k].(firstName := SearchByLastName(qs, term)[k].firstName)
  {
    if rs != [] {
      FirstNameNotConsulted(rs[1..], qs[1..], term);
      assert Matches(rs[0], term) == Matches(qs[0], term);
    }
  }

  /** Typing more characters only narrows the list: the results for the longer term are
      those results for the shorter term that also match the longer one. */
  lemma ExtendingTermNarrows(rs: seq<RaceResult>, t: string, more: string)
    ensures SearchByLastName(rs, t + more) == Filter(SearchByLastName(rs, t), MatchesTerm(t + more))
  {
    LowerConcat(t, more);
    var lt, lu := Lower(t), Lower(t + more);
    assert StartsWith(lu, lt) by {
      assert lu[..|lt|] == lt;
    }
    forall i | 0 <= i < |rs| && MatchesTerm(t + more)(rs[i])
      ensures MatchesTerm(t)(rs[i])
    {
      ContainsTransitive(Lower(rs[i].lastName), lu, lt);
    }
    FilterNarrow(rs, MatchesTerm(t), MatchesTerm(t + more));
  }

  /** A term longer than every last name finds nothing. */
  lemma TooLongTermFindsNothing(rs: seq<RaceResult>, term: string)
    requires forall i :: 0 <= i < |rs| ==> |rs[i].lastName| < |term|
    ensures SearchByLastName(rs, term) == []
  {
    forall i | 0 <= i < |rs|
      ensures !MatchesTerm(term)(rs[i])
    {
      if Matches(rs[i], term) {
        ContainsLength(Lower(rs[i].lastName), Lower(term));
      }
    }
    FilterKeepsNone(rs, MatchesTerm(term));
  }
}
