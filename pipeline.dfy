/** The component's state and what it renders: the five pieces of state, the fetch that fills
    them once, the search box, and the choice between the error alert, the loading row and
    the result rows. */
module Pipeline {
  import opened Seqs
  import opened TimeCodec
  import opened Records
  import opened Validator
  import opened Sorter
  import opened Aggregator
  import opened Search
  import opened Badges

  /** The message thrown when the response is not ok. */
  const FetchFailed: string := "Failed to fetch results"

  /** The text the alert appends to the error message. */
  const RefreshHint: string := ". Please try refreshing the page."

  /** How the request ended: it threw (network failure, unreadable body, or a parse of the
      records that threw) with a message, it answered without `ok`, or it delivered records. */
  datatype FetchOutcome = Failed(message: string) | NotOk | Received(data: seq<RaceResult>)

  /** The body of the table. */
  datatype Body = LoadingRow | TableRows(rows: seq<Row>)

  /** What the component renders: the error alert, or the page with its table body. */
  datatype Screen = Alert(message: string) | Page(body: Body)

  /** What processing stores: valid records, in total-time order. */
  lemma ProcessedAreValidAndSorted(data: seq<RaceResult>)
    ensures SortedByTime(SortByTime(ValidResults(data)))
    ensures forall i :: 0 <= i < |SortByTime(ValidResults(data))| ==> IsValid(SortByTime(ValidResults(data))[i])
  {
    var valid := ValidResults(data);
    var sorted := SortByTime(valid);
    SortSorts(valid);
    SortPermutes(valid);
    forall i | 0 <= i < |sorted|
      ensures IsValid(sorted[i])
    {
      assert sorted[i] in multiset(valid);
    }
  }

  /** `validResults.sort(...)`: the filtered array is a fresh array, sorted in place. */
  method SortedCopy(valid: seq<RaceResult>) returns (sorted: seq<RaceResult>)
    ensures sorted == SortByTime(valid)
  {
    var a := new RaceResult[|valid|](i requires 0 <= i < |valid| => valid[i]);
    assert a[..] == valid;
    SortInPlace(a);
    sorted := a[..];
  }

  lemma KeepFirstOnly(a: RaceResult, b: RaceResult)
    requires IsValid(a) && !IsValid(b)
    ensures ValidResults([a, b]) == [a]
  {
    assert [a, b][1..] == [b] && [b][1..] == [];
  }

  lemma SortSingle(a: RaceResult)
    ensures SortByTime([a]) == [a]
  {
    assert [a][..0] == [];
  }

  /** A total time of "25:00:00" is dropped and the other record is all that is sorted. */
  lemma OutOfRangeHourDropped(a: RaceResult, b: RaceResult)
    requires a.totalTime == "01:02:03" && b.totalTime == "25:00:00"
    ensures SortByTime(ValidResults([a, b])) == [a]
  {
    ValidExamples();
    HourBoundRejects();
    KeepFirstOnly(a, b);
    SortSingle(a);
  }

  /** A term that matches no received last name matches none of the processed records. */
  lemma NoMatchFindsNothingProcessed(data: seq<RaceResult>, term: string)
    requires forall i :: 0 <= i < |data| ==> !Matches(data[i], term)
    ensures SearchByLastName(SortByTime(ValidResults(data)), term) == []
  {
    var valid := ValidResults(data);
    var sorted := SortByTime(valid);
    SortPermutes(valid);
    forall i | 0 <= i < |sorted|
      ensures !MatchesTerm(term)(sorted[i])
    {
      assert sorted[i] in multiset(valid);
      assert sorted[i] in data;
    }
    FilterKeepsNone(sorted, MatchesTerm(term));
  }

  class ResultsTable {
    var results: seq<RaceResult>
    var error: Option<string>
    var fastestTimes: Table
    var loading: bool
    var searchTerm: string

    /** The stored results are valid records in total-time order, and the fastest-split
        table is the one computed from them (or still the empty object before any data). */
    ghost predicate Valid()
      reads this
    {
      SortedByTime(results) &&
      (forall i :: 0 <= i < |results| ==> IsValid(results[i])) &&
      ((results == [] && fastestTimes == map[]) || fastestTimes == Aggregate(results))
    }

    /** The initial state: no results, no error, `{}` for the fastest splits, loading, and
        an empty search box. */
    constructor()
      ensures Valid()
      ensures results == [] && error == None && fastestTimes == map[] && loading && searchTerm == ""
    {
      results := [];
      error := None;
      fastestTimes := map[];
      loading := true;
      searchTerm := "";
    }

    /** Filter, sort, scan, then store the sorted results and their fastest splits. */
    method ProcessResults(data: seq<RaceResult>)
      modifies this
      ensures results == SortByTime(ValidResults(data))
      ensures fastestTimes == Aggregate(results)
      ensures error == old(error) && loading == old(loading) && searchTerm == old(searchTerm)
      ensures Valid()
    {
      var valid := ValidResults(data);
      var sorted := SortedCopy(valid);
      var fastest := FindFastestSplits(sorted);
      ProcessedAreValidAndSorted(data);
      results := sorted;
      fastestTimes := fastest;
    }

    /** The effect run on mount: on failure the message becomes the error and the results
        stay as they were; on success the records are processed; loading ends either way. */
    method FetchResults(outcome: FetchOutcome)
      requires Valid()
      modifies this
      ensures Valid()
      ensures !loading && searchTerm == old(searchTerm)
      ensures outcome.NotOk? ==> error == Some(FetchFailed)
      ensures outcome.Failed? ==> error == Some(outcome.message)
      ensures !outcome.Received? ==> results == old(results) && fastestTimes == old(fastestTimes)
      ensures outcome.Received? ==>
        error == old(error) && results == SortByTime(ValidResults(outcome.data)) && fastestTimes == Aggregate(results)
    {
      match outcome {
        case NotOk =>
          error := Some(FetchFailed);
        case Failed(message) =>
          error := Some(message);
        case Received(data) =>
          ProcessResults(data);
      }
      loading := false;
    }

    /** The search box's `onChange`. */
    method SetSearchTerm(term: string)
      modifies this
      ensures searchTerm == term
      ensures results == old(results) && error == old(error) && fastestTimes == old(fastestTimes)
      ensures loading == old(loading)
    {
      searchTerm := term;
    }

    /** The memoised `filterResults`. */
    function FilterResults(): seq<RaceResult>
      reads this
    {
      SearchByLastName(results, searchTerm)
    }

    /** The render. A non-empty error shows the alert, whatever else holds (an empty message
        is falsy and does not); otherwise the loading row while loading; otherwise one row
        per result matching the search term, numbered in sorted order. With an empty term
        the results are shown unfiltered, which is the same list. */
    function Render(): (screen: Screen)
      reads this
      requires Valid()
      ensures screen.Alert? <==> error.Some? && error.value != []
      ensures screen.Alert? ==> screen.message == error.value + RefreshHint
      ensures screen == Page(LoadingRow) <==> !screen.Alert? && loading
      ensures screen.Page? && screen.body.TableRows? ==>
        screen.body.rows == Rows(SearchByLastName(results, searchTerm), fastestTimes)
    {
      if error.Some? && error.value != [] then Alert(error.value + RefreshHint)
      else if loading then Page(LoadingRow)
      else
        EmptyTermKeepsAll(results);
        var shown := if |searchTerm| == 0 then results else FilterResults();
        Page(TableRows(Rows(shown, fastestTimes)))
    }
  }

  /** A response without `ok` shows the alert with the thrown message. */
  method NotOkShowsAlert() returns (screen: Screen)
    ensures screen == Alert(FetchFailed + RefreshHint)
  {
    var table := new ResultsTable();
    table.FetchResults(NotOk);
    screen := table.Render();
  }

  /** Before the request ends the loading row is shown. */
  method InitiallyLoading() returns (screen: Screen)
    ensures screen == Page(LoadingRow)
  {
    var table := new ResultsTable();
    screen := table.Render();
  }

  /** An error with an empty message is falsy: the table is shown, with no rows. */
  method EmptyErrorShowsEmptyTable() returns (screen: Screen)
    ensures screen == Page(TableRows([]))
  {
    var table := new ResultsTable();
    table.FetchResults(Failed(""));
    screen := table.Render();
  }

  /** The term "zz-no-match" is already lower case, so it matches a record exactly when the
      lower-cased last name contains it. */
  lemma NoMatchTermMatchesNothing(data: seq<RaceResult>)
    requires forall i :: 0 <= i < |data| ==> !Contains(Lower(data[i].lastName), "zz-no-match")
    ensures forall i :: 0 <= i < |data| ==> !Matches(data[i], "zz-no-match")
  {
    var term := "zz-no-match";
    assert forall i :: 0 <= i < |term| ==> !IsUpper(term[i]);
    assert Lower(term) == term;
  }

  /** With records received, a term that no lower-cased last name contains leaves the page
      showing an empty table, not the alert and not the loading row. */
  method NoMatchShowsEmptyTable(data: seq<RaceResult>) returns (screen: Screen)
    requires forall i :: 0 <= i < |data| ==> !Contains(Lower(data[i].lastName), "zz-no-match")
    ensures screen == Page(TableRows([]))
  {
    var table := new ResultsTable();
    table.FetchResults(Received(data));
    table.SetSearchTerm("zz-no-match");
    NoMatchTermMatchesNothing(data);
    NoMatchFindsNothingProcessed(data, "zz-no-match");
    screen := table.Render();
  }
}
