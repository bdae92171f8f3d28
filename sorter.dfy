/** The in-place sort of the valid records by total time:
    `validResults.sort((a, b) => a.total_time.localeCompare(b.total_time))`.
    `Array.prototype.sort` is stable (required since ES2019, section 23.1.3.30 of
    ECMA-262), so the result is determined: records ordered by total time, records with
    equal total times in their input order. SortByTime is that result, computed as an
    insertion sort; StableSortIsUnique shows that every stable sort gives it. */
module Sorter {
  import opened Seqs
  import opened Lex
  import opened Records

  ghost predicate SortedByTime(s: seq<RaceResult>)
  {
    forall i, j :: 0 <= i < j < |s| ==> LessEq(s[i].totalTime, s[j].totalTime)
  }

  /** The records of `s` whose total time is `t`, in order. */
  function WithTime(s: seq<RaceResult>, t: string): seq<RaceResult>
  {
    Filter(s, TimeIs(t))
  }

  function TimeIs(t: string): RaceResult -> bool
  {
    (r: RaceResult) => r.totalTime == t
  }

  /** `s` with `x` placed after every element whose total time is not greater than its own,
      scanning from the right as an insertion sort does. */
  function Insert(s: seq<RaceResult>, x: RaceResult): seq<RaceResult>
  {
    if s == [] || !Less(x.totalTime, s[|s| - 1].totalTime) then s + [x]
    else Insert(s[..|s| - 1], x) + [s[|s| - 1]]
  }

  /** Where Insert puts `x`: everything after it is strictly later, and the element just
      before it is not later. */
  function InsertPoint(s: seq<RaceResult>, x: RaceResult): (m: nat)
    ensures m <= |s|
    ensures forall i :: m <= i < |s| ==> Less(x.totalTime, s[i].totalTime)
    ensures m > 0 ==> LessEq(s[m - 1].totalTime, x.totalTime)
  {
    if s == [] || !Less(x.totalTime, s[|s| - 1].totalTime) then |s|
    else
      var m := InsertPoint(s[..|s| - 1], x);
      assert forall i :: m <= i < |s| - 1 ==> s[..|s| - 1][i] == s[i];
      m
  }

  /** Insert splices `x` in at its insert point. */
  lemma {:induction false} InsertSplices(s: seq<RaceResult>, x: RaceResult)
    ensures Insert(s, x) == s[..InsertPoint(s, x)] + [x] + s[InsertPoint(s, x)..]
  {
    if s == [] || !Less(x.totalTime, s[|s| - 1].totalTime) {
      assert s[..|s|] == s && s[|s|..] == [];
    } else {
      var init, last := s[..|s| - 1], s[|s| - 1];
      var m := InsertPoint(init, x);
      InsertSplices(init, x);
      assert init[..m] == s[..m];
      assert init[m..] + [last] == s[m..];
    }
  }

  function SortByTime(s: seq<RaceResult>): seq<RaceResult>
  {
    if s == [] then [] else Insert(SortByTime(s[..|s| - 1]), s[|s| - 1])
  }

  lemma SplicePermutes(s: seq<RaceResult>, m: nat, x: RaceResult, r: seq<RaceResult>)
    requires m <= |s| && r == s[..m] + [x] + s[m..]
    ensures multiset(r) == multiset(s) + multiset{x}
  {
    assert s == s[..m] + s[m..];
  }

  lemma InsertPermutes(s: seq<RaceResult>, x: RaceResult)
    ensures multiset(Insert(s, x)) == multiset(s) + multiset{x}
  {
    InsertSplices(s, x);
    SplicePermutes(s, InsertPoint(s, x), x, Insert(s, x));
  }

  /** The sorted list holds exactly the records it was given. */
  lemma {:induction false} SortPermutes(s: seq<RaceResult>)
    ensures multiset(SortByTime(s)) == multiset(s)
  {
    if s != [] {
      var init, x := s[..|s| - 1], s[|s| - 1];
      var sorted := SortByTime(init);
      SortPermutes(init);
      InsertPermutes(sorted, x);
      assert SortByTime(s) == Insert(sorted, x);
      SnocMultiset(s);
    }
  }

  lemma SnocMultiset(s: seq<RaceResult>)
    requires s != []
    ensures multiset(s) == multiset(s[..|s| - 1]) + multiset{s[|s| - 1]}
  {
    assert s == s[..|s| - 1] + [s[|s| - 1]];
  }

  /** Placing `x` between a not-later prefix and a strictly later suffix keeps the order. */
  lemma SpliceSorted(pre: seq<RaceResult>, x: RaceResult, post: seq<RaceResult>)
    requires SortedByTime(pre + post)
    requires forall i :: 0 <= i < |post| ==> Less(x.totalTime, post[i].totalTime)
    requires pre != [] ==> LessEq(pre[|pre| - 1].totalTime, x.totalTime)
    ensures SortedByTime(pre + [x] + post)
  {
    var s, r, m := pre + post, pre + [x] + post, |pre|;
    assert forall k :: 0 <= k < m ==> r[k] == s[k];
    assert forall k :: m < k < |r| ==> r[k] == s[k - 1];
    forall i, j | 0 <= i < j < |r|
      ensures LessEq(r[i].totalTime, r[j].totalTime)
    {
      if j < m {
      } else if j == m {
        if i < m - 1 {
          LessEqTransitive(s[i].totalTime, s[m - 1].totalTime, x.totalTime);
        }
      } else if i == m {
        LessAsymmetric(x.totalTime, s[j - 1].totalTime);
      } else if i < m {
      } else {
      }
    }
  }

  lemma InsertSorted(s: seq<RaceResult>, x: RaceResult)
    requires SortedByTime(s)
    ensures SortedByTime(Insert(s, x))
  {
    var m := InsertPoint(s, x);
    InsertSplices(s, x);
    assert s[..m] + s[m..] == s;
    SpliceSorted(s[..m], x, s[m..]);
  }

  /** The sorted list is ordered by total time. */
  lemma {:induction false} SortSorts(s: seq<RaceResult>)
    ensures SortedByTime(SortByTime(s))
  {
    if s != [] {
      SortSorts(s[..|s| - 1]);
      InsertSorted(SortByTime(s[..|s| - 1]), s[|s| - 1]);
    }
  }

  lemma WithTimeConcat(a: seq<RaceResult>, b: seq<RaceResult>, t: string)
    ensures WithTime(a + b, t) == WithTime(a, t) + WithTime(b, t)
  {
    FilterConcat(a, b, TimeIs(t));
  }

  lemma WithTimeSingle(x: RaceResult, t: string)
    ensures WithTime([x], t) == if x.totalTime == t then [x] else []
  {
    assert [x][1..] == [];
  }

  /** Placing `x` in front of records that are all strictly later than it keeps the
      records of every total time in order. */
  lemma SpliceStable(pre: seq<RaceResult>, x: RaceResult, post: seq<RaceResult>, t: string)
    requires forall i :: 0 <= i < |post| ==> Less(x.totalTime, post[i].totalTime)
    ensures WithTime(pre + [x] + post, t) == WithTime(pre + post, t) + WithTime([x], t)
  {
    WithTimeConcat(pre + [x], post, t);
    WithTimeConcat(pre, [x], t);
    WithTimeConcat(pre, post, t);
    WithTimeSingle(x, t);
    if x.totalTime == t {
      LaterTimesExcluded(post, t);
    }
  }

  lemma InsertStable(s: seq<RaceResult>, x: RaceResult, t: string)
    ensures WithTime(Insert(s, x), t) == WithTime(s, t) + WithTime([x], t)
  {
    var m := InsertPoint(s, x);
    InsertSplices(s, x);
    SpliceStable(s[..m], x, s[m..], t);
    assert s[..m] + s[m..] == s;
  }

  lemma LaterTimesExcluded(post: seq<RaceResult>, t: string)
    requires forall i :: 0 <= i < |post| ==> Less(t, post[i].totalTime)
    ensures WithTime(post, t) == []
  {
    forall i | 0 <= i < |post|
      ensures !TimeIs(t)(post[i])
    {
      LessIrreflexive(t);
    }
    FilterKeepsNone(post, TimeIs(t));
  }

  /** Stability: for every total time, the records holding it come out in the order they
      went in. */
  lemma {:induction false} SortIsStable(s: seq<RaceResult>, t: string)
    ensures WithTime(SortByTime(s), t) == WithTime(s, t)
  {
    if s != [] {
      var init, x := s[..|s| - 1], s[|s| - 1];
      SortIsStable(init, t);
      InsertStable(SortByTime(init), x, t);
      assert s == init + [x];
      FilterConcat(init, [x], TimeIs(t));
    }
  }

  /** Dropping the last record keeps the order. */
  lemma SortedInit(s: seq<RaceResult>)
    requires SortedByTime(s) && s != []
    ensures SortedByTime(s[..|s| - 1])
  {
    var init := s[..|s| - 1];
    forall i, j | 0 <= i < j < |init|
      ensures LessEq(init[i].totalTime, init[j].totalTime)
    {
      assert init[i] == s[i] && init[j] == s[j];
    }
  }

  lemma InsertLast(s: seq<RaceResult>, x: RaceResult)
    requires s != [] ==> LessEq(s[|s| - 1].totalTime, x.totalTime)
    ensures Insert(s, x) == s + [x]
  {
  }

  lemma SortedLastPair(s: seq<RaceResult>)
    requires SortedByTime(s) && |s| >= 2
    ensures LessEq(s[|s| - 2].totalTime, s[|s| - 1].totalTime)
  {
  }

  lemma SortLast(s: seq<RaceResult>)
    requires s != []
    ensures SortByTime(s) == Insert(SortByTime(s[..|s| - 1]), s[|s| - 1])
  {
  }

  /** Sorting a list that is already in total-time order changes nothing. */
  lemma {:induction false} SortKeepsSorted(s: seq<RaceResult>)
    requires SortedByTime(s)
    ensures SortByTime(s) == s
  {
    if s != [] {
      var init, x := s[..|s| - 1], s[|s| - 1];
      SortedInit(s);
      SortKeepsSorted(init);
      SortLast(s);
      if |s| >= 2 {
        SortedLastPair(s);
        assert init[|init| - 1] == s[|s| - 2];
      }
      InsertLast(init, x);
      assert init + [x] == s;
    }
  }

  /** Sorting the sorted list again leaves it unchanged. */
  lemma SortIdempotent(s: seq<RaceResult>)
    ensures SortByTime(SortByTime(s)) == SortByTime(s)
  {
    SortSorts(s);
    SortKeepsSorted(SortByTime(s));
  }

  lemma WithTimeMembers(s: seq<RaceResult>, t: string)
    ensures forall x :: x in WithTime(s, t) <==> x in s && x.totalTime == t
  {
    FilterSpec(s, TimeIs(t));
    forall x
      ensures x in WithTime(s, t) <==> x in s && x.totalTime == t
    {
      assert x in WithTime(s, t) <==> multiset(WithTime(s, t))[x] > 0;
      assert x in s <==> multiset(s)[x] > 0;
    }
  }

  lemma WithTimeHead(s: seq<RaceResult>, t: string)
    requires s != []
    ensures WithTime(s, t) == if s[0].totalTime == t then [s[0]] + WithTime(s[1..], t) else WithTime(s[1..], t)
  {
  }

  lemma SortedTail(s: seq<RaceResult>)
    requires SortedByTime(s) && s != []
    ensures SortedByTime(s[1..])
  {
    var tail := s[1..];
    forall i, j | 0 <= i < j < |tail|
      ensures LessEq(tail[i].totalTime, tail[j].totalTime)
    {
      assert tail[i] == s[i + 1] && tail[j] == s[j + 1];
    }
  }

  lemma SortedHeadFirst(s: seq<RaceResult>, x: RaceResult)
    requires SortedByTime(s) && x in s
    ensures LessEq(s[0].totalTime, x.totalTime)
  {
    var i :| 0 <= i < |s| && s[i] == x;
    if i > 0 {
      assert LessEq(s[0].totalTime, s[i].totalTime);
    } else {
      LessIrreflexive(x.totalTime);
    }
  }

  lemma SortedHeadsEqual(r: seq<RaceResult>, q: seq<RaceResult>)
    requires SortedByTime(r) && SortedByTime(q) && r != [] && q != []
    requires WithTime(r, r[0].totalTime) == WithTime(q, r[0].totalTime)
    requires WithTime(r, q[0].totalTime) == WithTime(q, q[0].totalTime)
    ensures r[0] == q[0]
  {
    var a, b := r[0].totalTime, q[0].totalTime;
    WithTimeHead(r, a);
    assert WithTime(r, a)[0] == r[0];
    WithTimeMembers(q, a);
    assert r[0] in WithTime(q, a);
    SortedHeadFirst(q, r[0]);
    assert LessEq(b, a);
    WithTimeHead(q, b);
    assert WithTime(q, b)[0] == q[0];
    WithTimeMembers(r, b);
    assert q[0] in WithTime(r, b);
    SortedHeadFirst(r, q[0]);
    assert LessEq(a, b);
    LessEqAntisymmetric(a, b);
    assert WithTime(q, a)[0] == q[0];
  }

  lemma TailsAgree(r: seq<RaceResult>, q: seq<RaceResult>, t: string)
    requires r != [] && q != [] && r[0] == q[0]
    requires WithTime(r, t) == WithTime(q, t)
    ensures WithTime(r[1..], t) == WithTime(q[1..], t)
  {
    WithTimeHead(r, t);
    WithTimeHead(q, t);
    if r[0].totalTime == t {
      assert WithTime(r[1..], t) == WithTime(r, t)[1..];
      assert WithTime(q[1..], t) == WithTime(q, t)[1..];
    }
  }

  lemma EmptyAgree(r: seq<RaceResult>, q: seq<RaceResult>)
    requires r == [] && q != []
    ensures WithTime(r, q[0].totalTime) != WithTime(q, q[0].totalTime)
  {
    WithTimeHead(q, q[0].totalTime);
  }

  /** Two lists in total-time order that agree on the records of every total time are
      equal. */
  lemma {:induction false} SortedUnique(r: seq<RaceResult>, q: seq<RaceResult>)
    requires SortedByTime(r) && SortedByTime(q)
    requires forall t :: WithTime(r, t) == WithTime(q, t)
    ensures r == q
  {
    if r == [] {
      if q != [] {
        EmptyAgree(r, q);
      }
    } else if q == [] {
      EmptyAgree(q, r);
    } else {
      SortedHeadsEqual(r, q);
      forall t
        ensures WithTime(r[1..], t) == WithTime(q[1..], t)
      {
        TailsAgree(r, q, t);
      }
      SortedTail(r);
      SortedTail(q);
      SortedUnique(r[1..], q[1..]);
      assert r == [r[0]] + r[1..] && q == [q[0]] + q[1..];
    }
  }

  /** Any result that is in total-time order and keeps the input order of each total time,
      whichever algorithm produced it, is SortByTime. */
  lemma StableSortIsUnique(s: seq<RaceResult>, r: seq<RaceResult>)
    requires SortedByTime(r)
    requires forall t :: WithTime(r, t) == WithTime(s, t)
    ensures r == SortByTime(s)
  {
    SortSorts(s);
    forall t
      ensures WithTime(r, t) == WithTime(SortByTime(s), t)
    {
      SortIsStable(s, t);
    }
    SortedUnique(r, SortByTime(s));
  }

  /** Insert is the only placement of `x` with strictly later records after it and a
      not-later record (or nothing) before it. */
  lemma InsertAt(s: seq<RaceResult>, x: RaceResult, j: nat)
    requires j <= |s|
    requires forall k :: j <= k < |s| ==> Less(x.totalTime, s[k].totalTime)
    requires j > 0 ==> !Less(x.totalTime, s[j - 1].totalTime)
    ensures Insert(s, x) == s[..j] + [x] + s[j..]
  {
    var m := InsertPoint(s, x);
    InsertSplices(s, x);
    if j < m {
      assert false;
    } else if m < j {
      assert false;
    }
  }

  /** One step of the in-place sort: shifts the later records of the sorted prefix
      `a[..i]` one place right and drops `a[i]` into the gap. */
  method InsertInPlace(a: array<RaceResult>, i: nat)
    requires i < a.Length
    modifies a
    ensures a[..i + 1] == Insert(old(a[..i]), old(a[i]))
    ensures a[i + 1..] == old(a[i + 1..])
  {
    ghost var sorted := a[..i];
    var x := a[i];
    var j := i;
    while j > 0 && Less(x.totalTime, a[j - 1].totalTime)
      invariant 0 <= j <= i
      invariant a[..j] == sorted[..j]
      invariant a[j + 1..i + 1] == sorted[j..]
      invariant a[i + 1..] == old(a[i + 1..])
      invariant forall k :: j <= k < i ==> Less(x.totalTime, sorted[k].totalTime)
    {
      a[j] := a[j - 1];
      j := j - 1;
    }
    a[j] := x;
    assert a[..i + 1] == sorted[..j] + [x] + sorted[j..];
    InsertAt(sorted, x, j);
  }

  lemma SortSnoc(s: seq<RaceResult>, i: nat)
    requires i < |s|
    ensures SortByTime(s[..i + 1]) == Insert(SortByTime(s[..i]), s[i])
  {
    assert s[..i + 1][..i] == s[..i];
  }

  /** The in-place sort: an insertion sort on the array, leaving it holding SortByTime of
      its old contents. */
  method SortInPlace(a: array<RaceResult>)
    modifies a
    ensures a[..] == SortByTime(old(a[..]))
  {
    ghost var input := a[..];
    var i := 0;
    while i < a.Length
      invariant 0 <= i <= a.Length
      invariant a[..i] == SortByTime(input[..i])
      invariant a[i..] == input[i..]
    {
      assert a[i] == input[i];
      ghost var before := a[..];
      InsertInPlace(a, i);
      assert a[i + 1..] == before[i + 1..] == input[i + 1..];
      SortSnoc(input, i);
      i := i + 1;
    }
    assert input[..a.Length] == input;
  }
}
