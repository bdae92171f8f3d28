/** The fastest-split table: seeded with one entry per discipline, then updated by a scan of
    every split of every sorted result, in order. An entry is overwritten only by a split of
    its own discipline whose time is neither "00:00:00" (not recorded) nor "23:59:59" (the
    seed) and is strictly smaller, as strings, than the entry's current time. */
module Aggregator {
  import opened Lex
  import opened Records

  const SwimTime: string := "swim_time"
  const BikeTime: string := "bike_time"
  const RunTime: string := "run_time"

  /** The allow-list of split names. */
  const Disciplines: set<string> := {SwimTime, BikeTime, RunTime}

  /** The seed time, also the largest time the table can hold. */
  const Sentinel: string := "23:59:59"

  /** The time of a split that was not recorded. */
  const NotRecorded: string := "00:00:00"

  /** `{ time, athlete }`: a discipline's best time so far and who set it. */
  datatype Fastest = Fastest(time: string, athlete: string)

  const Unset: Fastest := Fastest(Sentinel, "")

  type Table = map<string, Fastest>

  const Seed: Table := map[SwimTime := Unset, BikeTime := Unset, RunTime := Unset]

  /** A split as the scan meets it, with the full name of the result it belongs to. */
  datatype Entry = Entry(name: string, time: string, athlete: string)

  /** Split `j` of `r` as the scan meets it. */
  function SplitEntry(r: RaceResult, j: int): Entry
    requires 0 <= j < |r.splits|
  {
    Entry(r.splits[j].name, r.splits[j].time, FullName(r))
  }

  /** The splits of one result, in list order. */
  function EntriesOf(r: RaceResult): seq<Entry>
  {
    seq(|r.splits|, j requires 0 <= j < |r.splits| => SplitEntry(r, j))
  }

  /** The order of the scan: results in the given order, the splits of each in list order. */
  function Entries(rs: seq<RaceResult>): seq<Entry>
  {
    if rs == [] then [] else Entries(rs[..|rs| - 1]) + EntriesOf(rs[|rs| - 1])
  }

  /** The scan order is compositional: results before results, splits before splits. */
  lemma {:induction false} EntriesConcat(a: seq<RaceResult>, b: seq<RaceResult>)
    ensures Entries(a + b) == Entries(a) + Entries(b)
  {
    if b == [] {
      assert a + b == a;
    } else {
      var b', last := b[..|b| - 1], b[|b| - 1];
      assert (a + b)[..|a + b| - 1] == a + b';
      assert (a + b)[|a + b| - 1] == last;
      EntriesConcat(a, b');
    }
  }

  /** Every scanned split comes from some split of some result. */
  lemma {:induction false} EntryOrigin(rs: seq<RaceResult>, k: int)
    requires 0 <= k < |Entries(rs)|
    ensures exists i, j :: 0 <= i < |rs| && 0 <= j < |rs[i].splits| && Entries(rs)[k] == SplitEntry(rs[i], j)
  {
    var init, last := rs[..|rs| - 1], rs[|rs| - 1];
    var n := |Entries(init)|;
    if k < n {
      EntryOrigin(init, k);
      var i, j :| 0 <= i < |init| && 0 <= j < |init[i].splits| && Entries(init)[k] == SplitEntry(init[i], j);
      assert init[i] == rs[i];
    } else {
      var j := k - n;
      assert Entries(rs)[k] == EntriesOf(last)[j];
      assert rs[|rs| - 1] == last;
    }
  }

  /** Every split of every result is scanned. */
  lemma {:induction false} EntryOfSplit(rs: seq<RaceResult>, i: int, j: int)
    requires 0 <= i < |rs| && 0 <= j < |rs[i].splits|
    ensures SplitEntry(rs[i], j) in Entries(rs)
  {
    var init, last := rs[..|rs| - 1], rs[|rs| - 1];
    var e := SplitEntry(rs[i], j);
    if i < |init| {
      assert init[i] == rs[i];
      EntryOfSplit(init, i, j);
    } else {
      assert EntriesOf(last)[j] == e;
    }
  }

  /** The update test of one split, given its discipline's current entry. */
  predicate Beats(e: Entry, best: Fastest)
  {
    e.time != NotRecorded && e.time != Sentinel && Less(e.time, best.time)
  }

  /** One iteration of the inner loop. A split whose name is not on the allow-list leaves
      the table as it is; any split changes at most the entry of its own name; a real split
      strictly faster than its discipline's entry replaces it with its own time and athlete,
      and any other split leaves the entry as it was. */
  function Step(t: Table, e: Entry): (r: Table)
    requires Disciplines <= t.Keys
    ensures r.Keys == t.Keys
    ensures e.name !in Disciplines ==> r == t
    ensures forall d :: d in t && d != e.name ==> r[d] == t[d]
    ensures e.name in Disciplines && Beats(e, t[e.name]) ==> r[e.name] == Fastest(e.time, e.athlete)
    ensures e.name in Disciplines && !Beats(e, t[e.name]) ==> r == t
  {
    if e.name in Disciplines && Beats(e, t[e.name]) then t[e.name := Fastest(e.time, e.athlete)] else t
  }

  /** The table after scanning `es` from `t`. */
  function Fold(t: Table, es: seq<Entry>): (r: Table)
    requires Disciplines <= t.Keys
    ensures r.Keys == t.Keys
  {
    if es == [] then t else Step(Fold(t, es[..|es| - 1]), es[|es| - 1])
  }

  /** The fastest-split table of the sorted results. */
  function Aggregate(rs: seq<RaceResult>): (r: Table)
    ensures r.Keys == Disciplines
  {
    Fold(Seed, Entries(rs))
  }

  lemma FoldSnoc(t: Table, es: seq<Entry>, e: Entry)
    requires Disciplines <= t.Keys
    ensures Fold(t, es + [e]) == Step(Fold(t, es), e)
  {
    assert (es + [e])[..|es|] == es;
  }

  lemma EntriesSnoc(rs: seq<RaceResult>, i: nat)
    requires i < |rs|
    ensures Entries(rs[..i + 1]) == Entries(rs[..i]) + EntriesOf(rs[i])
  {
    assert rs[..i + 1][..i] == rs[..i];
  }

  /** Scanning two stretches one after the other. */
  lemma {:induction false} FoldConcat(t: Table, a: seq<Entry>, b: seq<Entry>)
    requires Disciplines <= t.Keys
    ensures Fold(t, a + b) == Fold(Fold(t, a), b)
  {
    if b == [] {
      assert a + b == a;
    } else {
      var b', e := b[..|b| - 1], b[|b| - 1];
      assert a + b == (a + b') + [e];
      FoldConcat(t, a, b');
      FoldSnoc(t, a + b', e);
      FoldSnoc(Fold(t, a), b', e);
      assert b' + [e] == b;
    }
  }

  /** The inner `result.splits.forEach(...)`: the table after the splits of one result. */
  method ScanSplits(fastest: Table, result: RaceResult) returns (updated: Table)
    requires Disciplines <= fastest.Keys
    ensures updated == Fold(fastest, EntriesOf(result))
  {
    ghost var own := EntriesOf(result);
    updated := fastest;
    var j := 0;
    assert own[..0] == [];
    while j < |result.splits|
      invariant 0 <= j <= |result.splits|
      invariant updated == Fold(fastest, own[..j])
    {
      var split := result.splits[j];
      assert own[..j + 1] == own[..j] + [own[j]];
      FoldSnoc(fastest, own[..j], own[j]);
      if split.name in Disciplines {
        if split.time != NotRecorded && split.time != Sentinel && Less(split.time, updated[split.name].time) {
          updated := updated[split.name := Fastest(split.time, FullName(result))];
        }
      }
      j := j + 1;
    }
    assert own[..|result.splits|] == own;
  }

  /** The nested `forEach` loops: the table after every split of every result. */
  method FindFastestSplits(sorted: seq<RaceResult>) returns (fastest: Table)
    ensures fastest == Aggregate(sorted)
  {
    fastest := Seed;
    var i := 0;
    assert sorted[..0] == [];
    while i < |sorted|
      invariant 0 <= i <= |sorted|
      invariant fastest == Fold(Seed, Entries(sorted[..i]))
    {
      fastest := ScanSplits(fastest, sorted[i]);
      EntriesSnoc(sorted, i);
      FoldConcat(Seed, Entries(sorted[..i]), EntriesOf(sorted[i]));
      i := i + 1;
    }
    assert sorted[..|sorted|] == sorted;
  }

  /** A split that counts for discipline `d`: it has that name and a real time. */
  predicate Qualifies(e: Entry, d: string)
  {
    e.name == d && e.time != NotRecorded && e.time != Sentinel
  }

  /** The entry of discipline `d` after scanning `es` from the seed. */
  function Best(es: seq<Entry>, d: string): Fastest
    requires d in Disciplines
  {
    Fold(Seed, es)[d]
  }

  /** `es[k]` is the first split of discipline `d` with time `b.time`, every earlier one is
      strictly slower, and `b` names its athlete. */
  ghost predicate FirstHolder(es: seq<Entry>, d: string, k: int, b: Fastest)
  {
    0 <= k < |es| && Qualifies(es[k], d) && es[k].time == b.time && es[k].athlete == b.athlete &&
    forall i :: 0 <= i < k && Qualifies(es[i], d) ==> Less(b.time, es[i].time)
  }

  lemma BestStep(es: seq<Entry>, d: string)
    requires d in Disciplines && es != []
    ensures var e, b := es[|es| - 1], Best(es[..|es| - 1], d);
      Best(es, d) == if e.name == d && Beats(e, b) then Fastest(e.time, e.athlete) else b
  {
  }

  /** What the scan leaves in the entry of discipline `d`:
      its time is never "00:00:00" and never above the seed;
      it is no slower than any qualifying split of `d`;
      it is the untouched seed exactly when no qualifying split is faster than the seed;
      otherwise it holds the time and athlete of the first split with the minimum time,
      so later splits with an equal time do not replace it. */
  lemma {:induction false} FoldIsFirstMinimum(es: seq<Entry>, d: string)
    requires d in Disciplines
    ensures Best(es, d).time != NotRecorded
    ensures LessEq(Best(es, d).time, Sentinel)
    ensures forall k :: 0 <= k < |es| && Qualifies(es[k], d) ==> LessEq(Best(es, d).time, es[k].time)
    ensures Best(es, d) == Unset <==> forall k :: 0 <= k < |es| && Qualifies(es[k], d) ==> !Less(es[k].time, Sentinel)
    ensures Best(es, d) != Unset ==> exists k :: FirstHolder(es, d, k, Best(es, d))
  {
    if es == [] {
      LessIrreflexive(Sentinel);
    } else {
      var init, e := es[..|es| - 1], es[|es| - 1];
      var b', b := Best(init, d), Best(es, d);
      FoldIsFirstMinimum(init, d);
      BestStep(es, d);
      assert forall k :: 0 <= k < |init| ==> es[k] == init[k];
      if e.name == d && Beats(e, b') {
        assert b == Fastest(e.time, e.athlete);
        LessLessEq(e.time, b'.time, Sentinel);
        LessAsymmetric(e.time, Sentinel);
        forall k | 0 <= k < |es| && Qualifies(es[k], d)
          ensures LessEq(b.time, es[k].time)
        {
          if k < |init| {
            LessLessEq(e.time, b'.time, es[k].time);
            LessAsymmetric(e.time, es[k].time);
          } else {
            LessIrreflexive(e.time);
          }
        }
        forall i | 0 <= i < |es| - 1 && Qualifies(es[i], d)
          ensures Less(b.time, es[i].time)
        {
          LessLessEq(e.time, b'.time, es[i].time);
        }
        assert FirstHolder(es, d, |es| - 1, b);
        assert b != Unset;
      } else {
        assert b == b';
        if b' != Unset {
          var k :| FirstHolder(init, d, k, b');
          assert FirstHolder(es, d, k, b);
        }
      }
    }
  }

  /** The recorded time of `d` is no slower than any real split of `d` in any result. */
  lemma AggregateNoSlower(rs: seq<RaceResult>, d: string)
    requires d in Disciplines
    ensures forall i, j :: 0 <= i < |rs| && 0 <= j < |rs[i].splits| && rs[i].splits[j].name == d &&
                           rs[i].splits[j].time != NotRecorded && rs[i].splits[j].time != Sentinel ==>
                           LessEq(Aggregate(rs)[d].time, rs[i].splits[j].time)
  {
    var es := Entries(rs);
    FoldIsFirstMinimum(es, d);
    forall i, j | 0 <= i < |rs| && 0 <= j < |rs[i].splits| && rs[i].splits[j].name == d &&
                  rs[i].splits[j].time != NotRecorded && rs[i].splits[j].time != Sentinel
      ensures LessEq(Aggregate(rs)[d].time, rs[i].splits[j].time)
    {
      EntryOfSplit(rs, i, j);
      var m :| 0 <= m < |es| && es[m] == SplitEntry(rs[i], j);
      assert Qualifies(es[m], d);
    }
  }

  /** A discipline without a qualifying split faster than the seed keeps the seed: time
      "23:59:59", athlete "". */
  lemma NoQualifyingSplitKeepsSeed(rs: seq<RaceResult>, d: string)
    requires d in Disciplines
    requires forall k :: 0 <= k < |Entries(rs)| ==> !Qualifies(Entries(rs)[k], d)
    ensures Aggregate(rs)[d] == Unset
  {
    FoldIsFirstMinimum(Entries(rs), d);
  }

  /** The seed value is the only entry that can hold "23:59:59". */
  lemma SentinelOnlyWhenUnset(es: seq<Entry>, d: string)
    requires d in Disciplines
    ensures Best(es, d).time == Sentinel <==> Best(es, d) == Unset
  {
    FoldIsFirstMinimum(es, d);
    if Best(es, d) != Unset {
      var k :| FirstHolder(es, d, k, Best(es, d));
    }
  }
}

/** Worked examples of the fastest-split scan. */
module AggregatorExamples {
  import opened Lex
  import opened Records
  import opened Aggregator

  function Swimmer(first: string, total: string, swim: string): RaceResult
  {
    RaceResult(first, "Doe", "M", "Elite", "NZL", total, [Split(SwimTime, swim)])
  }

  lemma EntriesOfSwimmer(first: string, total: string, swim: string)
    ensures EntriesOf(Swimmer(first, total, swim)) == [Entry(SwimTime, swim, first + " Doe")]
  {
    assert first + " " + "Doe" == first + " Doe";
  }

  lemma EntriesSingle(r: RaceResult)
    ensures Entries([r]) == EntriesOf(r)
  {
    assert [r][..0] == [];
  }

  const A1: RaceResult := Swimmer("A", "02:00:00", "00:30:00")
  const B1: RaceResult := Swimmer("B", "02:10:00", "00:00:00")
  const C1: RaceResult := Swimmer("C", "02:20:00", "00:25:00")

  lemma ThreeSwimmersEntries()
    ensures Entries([A1, B1, C1]) == [Entry(SwimTime, "00:30:00", "A Doe"), Entry(SwimTime, "00:00:00", "B Doe"),
                                      Entry(SwimTime, "00:25:00", "C Doe")]
  {
    EntriesOfSwimmer("A", "02:00:00", "00:30:00");
    EntriesOfSwimmer("B", "02:10:00", "00:00:00");
    EntriesOfSwimmer("C", "02:20:00", "00:25:00");
    assert "A" + " Doe" == "A Doe" && "B" + " Doe" == "B Doe" && "C" + " Doe" == "C Doe";
    EntriesSingle(A1);
    EntriesConcat([A1], [B1]);
    EntriesConcat([A1, B1], [C1]);
    assert [A1] + [B1] == [A1, B1] && [A1, B1] + [C1] == [A1, B1, C1];
  }

  const EA: Entry := Entry(SwimTime, "00:30:00", "A Doe")
  const EB: Entry := Entry(SwimTime, "00:00:00", "B Doe")
  const EC: Entry := Entry(SwimTime, "00:25:00", "C Doe")

  lemma FirstSwimmerFold()
    ensures Fold(Seed, [EA, EB])[SwimTime] == Fastest("00:30:00", "A Doe")
  {
    FoldSnoc(Seed, [], EA);
    FoldSnoc(Seed, [EA], EB);
    assert [] + [EA] == [EA] && [EA] + [EB] == [EA, EB];
    assert Fold(Seed, []) == Seed;
    assert Less("00:30:00", Sentinel);
  }

  lemma ThreeSwimmersFold()
    ensures Fold(Seed, [EA, EB, EC])[SwimTime] == Fastest("00:25:00", "C Doe")
  {
    var t2 := Fold(Seed, [EA, EB]);
    FirstSwimmerFold();
    FoldSnoc(Seed, [EA, EB], EC);
    assert [EA, EB] + [EC] == [EA, EB, EC];
    TakesOver(t2, EC);
  }

  /** "00:25:00" beats a recorded "00:30:00". */
  lemma TakesOver(t: Table, e: Entry)
    requires Disciplines <= t.Keys && e == EC && t[SwimTime] == Fastest("00:30:00", "A Doe")
    ensures Step(t, e)[SwimTime] == Fastest("00:25:00", "C Doe")
  {
    assert Less("00:25:00", "00:30:00");
  }

  /** Swim splits "00:30:00", "00:00:00", "00:25:00": the unrecorded zero is skipped and the
      third athlete is fastest. */
  lemma ZeroSplitExcluded()
    ensures Aggregate([A1, B1, C1])[SwimTime] == Fastest("00:25:00", "C Doe")
  {
    ThreeSwimmersEntries();
    ThreeSwimmersFold();
  }

  /** Two equal swim splits: the first result in sorted order keeps the record. */
  lemma TieKeepsFirst()
    ensures Aggregate([Swimmer("A", "02:00:00", "00:20:00"), Swimmer("B", "02:10:00", "00:20:00")])[SwimTime]
         == Fastest("00:20:00", "A Doe")
  {
    var a, b := Swimmer("A", "02:00:00", "00:20:00"), Swimmer("B", "02:10:00", "00:20:00");
    EntriesOfSwimmer("A", "02:00:00", "00:20:00");
    EntriesOfSwimmer("B", "02:10:00", "00:20:00");
    var ea, eb := Entry(SwimTime, "00:20:00", "A Doe"), Entry(SwimTime, "00:20:00", "B Doe");
    EntriesSingle(a);
    EntriesSingle(b);
    assert "A" + " Doe" == "A Doe" && "B" + " Doe" == "B Doe";
    EntriesConcat([a], [b]);
    assert [a] + [b] == [a, b];
    assert Entries([a, b]) == [ea] + [eb];
    FoldSnoc(Seed, [], ea);
    FoldSnoc(Seed, [ea], eb);
    assert [] + [ea] == [ea] && [ea] + [eb] == [ea, eb];
    assert Less("00:20:00", Sentinel);
    LessIrreflexive("00:20:00");
    assert Fold(Seed, [ea])[SwimTime] == Fastest("00:20:00", "A Doe");
  }
}
