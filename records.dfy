/** The records the results endpoint delivers, as the component uses them. */
module Records {

  /** One entry of a result's `splits` list. */
  datatype Split = Split(name: string, time: string)

  /** One competitor's result (`first_name`, `last_name`, `gender`, `division`,
      `nationality`, `total_time`, `splits`). */
  datatype RaceResult = RaceResult(
    firstName: string,
    lastName: string,
    gender: string,
    division: string,
    nationality: string,
    totalTime: string,
    splits: seq<Split>)

  /** The `${first_name} ${last_name}` text used both as the fastest-split athlete and as
      the name a row's badges are matched against. */
  function FullName(r: RaceResult): (n: string)
    ensures |n| == |r.firstName| + 1 + |r.lastName|
    ensures n[..|r.firstName|] == r.firstName && n[|r.firstName|] == ' ' && n[|r.firstName| + 1..] == r.lastName
  {
    r.firstName + " " + r.lastName
  }
}
