/** The table rows: position, name, the result's own columns, and the "Fastest Swim",
    "Fastest Bike" and "Fastest Run" badges, each shown when the discipline's recorded
    athlete is this result's full name. */
module Badges {
  import opened Lex
  import opened Records
  import opened Aggregator

  /** Which of the three badges a row shows. */
  datatype BadgeSet = BadgeSet(swim: bool, bike: bool, run: bool)

  /** `fastestTimes[d].athlete === `${first_name} ${last_name}``. */
  predicate HasBadge(table: Table, d: string, r: RaceResult)
    requires d in table
  {
    table[d].athlete == FullName(r)
  }

  /** The badges of one row. The seed's empty athlete never equals a full name, which
      always holds the separating space, so a discipline nobody set awards no badge. */
  function BadgesOf(table: Table, r: RaceResult): (b: BadgeSet)
    requires Disciplines <= table.Keys
    ensures table[SwimTime] == Unset ==> !b.swim
    ensures table[BikeTime] == Unset ==> !b.bike
    ensures table[RunTime] == Unset ==> !b.run
  {
    BadgeSet(HasBadge(table, SwimTime, r), HasBadge(table, BikeTime, r), HasBadge(table, RunTime, r))
  }

  /** A badge awarded from the scan of `rs` goes to a name that has, in some result of `rs`,
      a real split of that discipline with the recorded time, and that time is no slower than
      any real split of the discipline in any result. */
  lemma BadgeHolderSetFastestSplit(rs: seq<RaceResult>, d: string, r: RaceResult)
    requires d in Disciplines && HasBadge(Aggregate(rs), d, r)
    ensures Aggregate(rs)[d].time != NotRecorded && Aggregate(rs)[d].time != Sentinel
    ensures exists i, j :: 0 <= i < |rs| && 0 <= j < |rs[i].splits| && FullName(rs[i]) == FullName(r) &&
                           rs[i].splits[j] == Split(d, Aggregate(rs)[d].time)
    ensures forall i, j :: 0 <= i < |rs| && 0 <= j < |rs[i].splits| && rs[i].splits[j].name == d &&
                           rs[i].splits[j].time != NotRecorded && rs[i].splits[j].time != Sentinel ==>
                           LessEq(Aggregate(rs)[d].time, rs[i].splits[j].time)
  {
    var es := Entries(rs);
    var b := Aggregate(rs)[d];
    FoldIsFirstMinimum(es, d);
    assert b != Unset;
    var k :| FirstHolder(es, d, k, b);
    EntryOrigin(rs, k);
    var i, j :| 0 <= i < |rs| && 0 <= j < |rs[i].splits| && es[k] == SplitEntry(rs[i], j);
    assert rs[i].splits[j] == Split(d, b.time);
    AggregateNoSlower(rs, d);
  }

  /** One row of the table. */
  datatype Row = Row(
    position: nat,
    name: string,
    gender: string,
    division: string,
    nationality: string,
    totalTime: string,
    badges: BadgeSet)

  /** `shown.map((result, index) => <tr>...)`: one row per shown result, in order, numbered
      from 1. The badges are read from `table` only when there is a row to show. */
  function Rows(shown: seq<RaceResult>, table: Table): (rows: seq<Row>)
    requires shown != [] ==> Disciplines <= table.Keys
    ensures |rows| == |shown|
    ensures forall k :: 0 <= k < |rows| ==> rows[k].position == k + 1
    ensures forall k :: 0 <= k < |rows| ==>
      var r := shown[k];
      rows[k].name == FullName(r) && rows[k].gender == r.gender && rows[k].division == r.division &&
      rows[k].nationality == r.nationality && rows[k].totalTime == r.totalTime
    ensures forall k :: 0 <= k < |rows| ==> rows[k].badges == BadgesOf(table, shown[k])
  {
    seq(|shown|, k requires 0 <= k < |shown| =>
      var r := shown[k];
      Row(k + 1, FullName(r), r.gender, r.division, r.nationality, r.totalTime, BadgesOf(table, r)))
  }

  /** "Ann Lee" + " " + "Smith" and "Ann" + " " + "Lee Smith" give the same full name. */
  lemma AmbiguousNamesShareBadges(table: Table)
    requires Disciplines <= table.Keys
    ensures var a := RaceResult("Ann Lee", "Smith", "F", "Open", "NZL", "02:00:00", []);
            var b := RaceResult("Ann", "Lee Smith", "F", "Open", "NZL", "02:30:00", []);
            BadgesOf(table, a) == BadgesOf(table, b)
  {
    assert "Ann Lee" + " " + "Smith" == "Ann" + " " + "Lee Smith";
  }
}
