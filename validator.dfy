/** The validity filter applied to the fetched records before sorting: a record stays only
    when the first three `:`-separated components of its total time read as numbers with
    hours below 23, minutes below 60 and seconds below 60. */
module Validator {
  import opened Seqs
  import opened TimeCodec
  import opened Records

  /** `const [hours, minutes, seconds] = t.split(":").map(Number);
      hours < 23 && minutes < 60 && seconds < 60`. A missing component is `undefined`
      and a non-numeric one NaN; both make their comparison false. */
  predicate IsValidTime(t: string)
  {
    var parts := SplitOn(t, ':');
    FieldBelow(parts, 0, 23) && FieldBelow(parts, 1, 60) && FieldBelow(parts, 2, 60)
  }

  predicate IsValid(r: RaceResult)
  {
    IsValidTime(r.totalTime)
  }

  /** `data.filter(...)`: the valid records, in their input order, each occurrence kept. */
  function ValidResults(data: seq<RaceResult>): (valid: seq<RaceResult>)
    ensures IsSubsequence(valid, data)
    ensures forall i :: 0 <= i < |valid| ==> IsValid(valid[i])
    ensures forall r :: r in data && IsValid(r) ==> r in valid
    ensures forall r :: r in valid ==> r in data
    ensures forall r :: multiset(valid)[r] == if IsValid(r) then multiset(data)[r] else 0
  {
    FilterSpec(data, IsValid);
    Filter(data, IsValid)
  }

  /** On a zero-padded `HH:MM:SS` total time, validity is exactly the three bounds. */
  lemma ValidFormatIff(h: nat, m: nat, s: nat)
    requires h < 100 && m < 100 && s < 100
    ensures IsValidTime(Format(h, m, s)) <==> h < 23 && m < 60 && s < 60
  {
    SplitFormat(h, m, s);
    ParsePad2(h);
    ParsePad2(m);
    ParsePad2(s);
  }

  /** The hour bound is 23, so a real time after 23:00:00 is dropped, as is any larger
      hour count. */
  lemma HourBoundRejects()
    ensures !IsValidTime("23:00:00") && !IsValidTime("23:30:15") && !IsValidTime("25:00:00")
  {
    assert Format(23, 0, 0) == "23:00:00";
    ValidFormatIff(23, 0, 0);
    assert Format(23, 30, 15) == "23:30:15";
    ValidFormatIff(23, 30, 15);
    assert Format(25, 0, 0) == "25:00:00";
    ValidFormatIff(25, 0, 0);
  }

  lemma ValidExamples()
    ensures IsValidTime("22:59:59") && IsValidTime("01:02:03")
  {
    assert Format(22, 59, 59) == "22:59:59";
    ValidFormatIff(22, 59, 59);
    assert Format(1, 2, 3) == "01:02:03";
    ValidFormatIff(1, 2, 3);
  }

  /** Fewer than three components: the missing ones are `undefined`, so the record is
      dropped. */
  lemma TooFewComponentsRejected(t: string)
    requires |SplitOn(t, ':')| < 3
    ensures !IsValidTime(t)
  {
  }

  /** Components after the third are never looked at. */
  lemma ExtraComponentsIgnored(t: string, rest: string)
    requires |SplitOn(t, ':')| >= 3
    ensures IsValidTime(t + [':'] + rest) == IsValidTime(t)
  {
    SplitOnAppend(t, ':', rest);
  }

  /** `Number("")` is 0, so empty components pass: `"::"` is kept. */
  lemma EmptyComponentsAccepted()
    ensures IsValidTime("::")
  {
    assert "::" == "" + [':'] + ("" + [':'] + "");
    SplitOnAppend("", ':', "" + [':'] + "");
    SplitOnAppend("", ':', "");
  }

  lemma MinusOneParses()
    ensures ParseNumber("-1") == Some(-1)
  {
    assert !IsDigit("-1"[0]);
    assert "-1"[1..] == "1" && AllDigits("1");
    assert "1"[..0] == [];
    assert DigitsValue("1") == 1;
  }

  lemma SplitNegativeHour()
    ensures SplitOn("-1:00:00", ':') == ["-1", "00", "00"]
  {
    assert "-1:00:00" == "-1" + [':'] + ("00" + [':'] + "00");
    SplitOnAppend("-1", ':', "00" + [':'] + "00");
    SplitOnAppend("00", ':', "00");
    SplitOnNoSep("-1", ':');
    SplitOnNoSep("00", ':');
  }

  /** A sign before the hours is read as part of the number. */
  lemma NegativeHourAccepted()
    ensures IsValidTime("-1:00:00")
  {
    SplitNegativeHour();
    MinusOneParses();
    ParsePad2(0);
    assert Pad2(0) == "00";
  }
}
