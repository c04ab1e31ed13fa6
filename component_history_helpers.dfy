/**
  src/utils/componentHistoryHelpers.ts: the deployment-history filter, the
  environment list shown in menus and columns, and the status and
  environment lookup switches.

  Date handling is abstract. `parse(s)` stands for `new Date(s).getTime()`,
  `dayStart(s)` for `new Date(s)` after `setHours(0, 0, 0, 0)` and
  `dayEnd(s)` for `new Date(s)` after `setHours(23, 59, 59, 999)`, all in
  milliseconds; `None` stands for an invalid date, whose time value is NaN.
  The day's end is a function of its own, not a fixed offset from its start,
  because a local day is 23 or 25 hours long when the clocks change.
*/
module ComponentHistoryHelpers {
  import opened Wrappers
  import opened Seqs
  import opened Text
  import opened Types

  /** The four filter controls; `""` means the control is not set. */
  datatype Criteria = Criteria(environment: string, status: string, startDate: string, endDate: string)

  const NoCriteria: Criteria := Criteria("", "", "", "")

  /** `t < bound` on time values: false when either is NaN. */
  predicate Before(t: Option<int>, bound: Option<int>) {
    t.Some? && bound.Some? && t.value < bound.value
  }

  /** `t > bound` on time values: false when either is NaN. */
  predicate After(t: Option<int>, bound: Option<int>) {
    t.Some? && bound.Some? && t.value > bound.value
  }

  // ------------------------------------------------------------ filtering

  predicate EnvironmentMatches(d: Deployment, environment: string) {
    environment == "" || Lower(d.envName) == Lower(environment)
  }

  predicate StatusMatches(d: Deployment, status: string) {
    status == "" || StatusName(d.status) == status
  }

  /** Neither before the start of `startDate` nor after the end of `endDate`, for the bounds that are set. */
  predicate WithinDates(d: Deployment, startDate: string, endDate: string,
                        parse: string -> Option<int>, dayStart: string -> Option<int>,
                        dayEnd: string -> Option<int>)
  {
    && (startDate == "" || !Before(parse(d.deployedAt), dayStart(startDate)))
    && (endDate == "" || !After(parse(d.deployedAt), dayEnd(endDate)))
  }

  /** All criteria at once (AND). */
  predicate Keeps(d: Deployment, c: Criteria,
                  parse: string -> Option<int>, dayStart: string -> Option<int>, dayEnd: string -> Option<int>) {
    && EnvironmentMatches(d, c.environment)
    && StatusMatches(d, c.status)
    && WithinDates(d, c.startDate, c.endDate, parse, dayStart, dayEnd)
  }

  function KeepPredicate(c: Criteria,
                         parse: string -> Option<int>, dayStart: string -> Option<int>, dayEnd: string -> Option<int>): Deployment -> bool {
    d => Keeps(d, c, parse, dayStart, dayEnd)
  }

  /** Specification of the filter: the events meeting every criterion, in input order. */
  function FilteredHistory(history: seq<Deployment>, c: Criteria,
                           parse: string -> Option<int>, dayStart: string -> Option<int>,
                           dayEnd: string -> Option<int>): seq<Deployment>
  {
    Filter(history, KeepPredicate(c, parse, dayStart, dayEnd))
  }

  /**
    `filterDeploymentHistory`: computes the three match flags per event as the
    source does, lowering `dateMatch` once per violated bound.
  */
  method FilterDeploymentHistory(history: seq<Deployment>, c: Criteria,
                                 parse: string -> Option<int>, dayStart: string -> Option<int>,
                                 dayEnd: string -> Option<int>)
    returns (kept: seq<Deployment>)
    ensures kept == FilteredHistory(history, c, parse, dayStart, dayEnd)
  {
    kept := [];
    var i := 0;
    while i < |history|
      invariant 0 <= i <= |history|
      invariant kept == FilteredHistory(history[..i], c, parse, dayStart, dayEnd)
    {
      var deployment := history[i];
      var envMatch := c.environment == "" || Lower(deployment.envName) == Lower(c.environment);
      var statusMatch := c.status == "" || StatusName(deployment.status) == c.status;
      var dateMatch := true;
      if c.startDate != "" || c.endDate != "" {
        var deploymentDate := parse(deployment.deployedAt);
        if c.startDate != "" {
          var start := dayStart(c.startDate);
          if Before(deploymentDate, start) {
            dateMatch := false;
          }
        }
        if c.endDate != "" {
          var end := dayEnd(c.endDate);
          if After(deploymentDate, end) {
            dateMatch := false;
          }
        }
      }
      assert history[..i + 1] == history[..i] + [deployment];
      FilterAppend(history[..i], [deployment], KeepPredicate(c, parse, dayStart, dayEnd));
      if envMatch && statusMatch && dateMatch {
        kept := kept + [deployment];
      }
      i := i + 1;
    }
    assert history[..|history|] == history;
  }

  /** The result is an order-preserving subsequence of the input history. */
  lemma FilteredHistoryIsSubsequence(history: seq<Deployment>, c: Criteria,
                                     parse: string -> Option<int>, dayStart: string -> Option<int>,
                                     dayEnd: string -> Option<int>)
    ensures IsSubsequence(FilteredHistory(history, c, parse, dayStart, dayEnd), history)
  {
    FilterIsSubsequence(history, KeepPredicate(c, parse, dayStart, dayEnd));
  }

  /** With no control set, every event is kept, in order. */
  lemma NoCriteriaKeepsAll(history: seq<Deployment>,
                           parse: string -> Option<int>, dayStart: string -> Option<int>, dayEnd: string -> Option<int>)
    ensures FilteredHistory(history, NoCriteria, parse, dayStart, dayEnd) == history
  {
    FilterKeepsAll(history, KeepPredicate(NoCriteria, parse, dayStart, dayEnd));
  }

  /** An event is in the result exactly when it is in the input and meets every criterion. */
  lemma FilteredHistoryMembers(history: seq<Deployment>, c: Criteria,
                               parse: string -> Option<int>, dayStart: string -> Option<int>,
                               dayEnd: string -> Option<int>, d: Deployment)
    ensures d in FilteredHistory(history, c, parse, dayStart, dayEnd) <==>
      && d in history
      && (c.environment == "" || Lower(d.envName) == Lower(c.environment))
      && (c.status == "" || StatusName(d.status) == c.status)
      && WithinDates(d, c.startDate, c.endDate, parse, dayStart, dayEnd)
  {
    FilterMembership(history, KeepPredicate(c, parse, dayStart, dayEnd), d);
  }

  /** Filtering the result again with the same criteria changes nothing. */
  lemma FilteredHistoryIdempotent(history: seq<Deployment>, c: Criteria,
                                  parse: string -> Option<int>, dayStart: string -> Option<int>,
                                  dayEnd: string -> Option<int>)
    ensures FilteredHistory(FilteredHistory(history, c, parse, dayStart, dayEnd), c, parse, dayStart, dayEnd)
         == FilteredHistory(history, c, parse, dayStart, dayEnd)
  {
    FilterIdempotent(history, KeepPredicate(c, parse, dayStart, dayEnd));
  }

  /**
    Both bounds are inclusive: with both dates set and everything parseable,
    an event passes exactly when it lies between the first millisecond of the
    start day and the last millisecond of the end day.
  */
  lemma DateRangeInclusive(d: Deployment, startDate: string, endDate: string,
                           parse: string -> Option<int>, dayStart: string -> Option<int>,
                           dayEnd: string -> Option<int>)
    requires startDate != "" && endDate != ""
    requires parse(d.deployedAt).Some? && dayStart(startDate).Some? && dayEnd(endDate).Some?
    ensures WithinDates(d, startDate, endDate, parse, dayStart, dayEnd) <==>
      dayStart(startDate).value <= parse(d.deployedAt).value <= dayEnd(endDate).value
  {
  }

  /**
    The end bound is inclusive to the millisecond: an event at the last
    millisecond of the end day is kept, one a millisecond later is dropped.
  */
  lemma EndOfDayBoundary(d: Deployment, e: Deployment, endDate: string,
                         parse: string -> Option<int>, dayStart: string -> Option<int>,
                         dayEnd: string -> Option<int>)
    requires endDate != "" && dayEnd(endDate).Some?
    requires parse(d.deployedAt) == dayEnd(endDate)
    requires parse(e.deployedAt) == Some(dayEnd(endDate).value + 1)
    ensures WithinDates(d, "", endDate, parse, dayStart, dayEnd)
    ensures !WithinDates(e, "", endDate, parse, dayStart, dayEnd)
  {
  }

  /**
    An event whose timestamp does not parse is never dropped by the date
    bounds: both comparisons with NaN are false.
  */
  lemma UnparseableNotExcludedByDates(d: Deployment, startDate: string, endDate: string,
                                      parse: string -> Option<int>, dayStart: string -> Option<int>,
                                      dayEnd: string -> Option<int>)
    requires parse(d.deployedAt).None?
    ensures WithinDates(d, startDate, endDate, parse, dayStart, dayEnd)
  {
  }

  /** Environment and status combine with AND. */
  lemma EnvironmentAndStatusExample(e1: Deployment, e2: Deployment, e3: Deployment,
                                    parse: string -> Option<int>, dayStart: string -> Option<int>,
                                    dayEnd: string -> Option<int>)
    requires e1.envName == "dev" && e1.status == Success
    requires e2.envName == "dev" && e2.status == Failed
    requires e3.envName == "qa" && e3.status == Failed
    ensures FilteredHistory([e1, e2, e3], Criteria("dev", "failed", "", ""), parse, dayStart, dayEnd) == [e2]
  {
    assert Lower("dev") == "dev";
    assert Lower("qa") == "qa";
    var c := Criteria("dev", "failed", "", "");
    var p := KeepPredicate(c, parse, dayStart, dayEnd);
    assert !Keeps(e1, c, parse, dayStart, dayEnd);
    assert Keeps(e2, c, parse, dayStart, dayEnd);
    assert !Keeps(e3, c, parse, dayStart, dayEnd);
    assert [e1, e2, e3][1..] == [e2, e3];
    assert [e2, e3][1..] == [e3];
    assert Filter([e3], p) == [];
    assert Filter([e2, e3], p) == [e2];
  }

  // --------------------------------------------------------- environments

  const Baseline: seq<string> := ["dev", "qa", "uat", "prod"]

  const NotBaseline: string -> bool := e => e !in Baseline

  /** The lower-cased non-empty `envName`s of `history`, in order. */
  function EnvNames(history: seq<Deployment>): seq<string> {
    if history == [] then []
    else
      var init, last := history[..|history| - 1], history[|history| - 1];
      if last.envName != "" then EnvNames(init) + [Lower(last.envName)] else EnvNames(init)
  }

  /** What `computeEnvironments` returns: the baseline, then the set's other members in insertion order. */
  function EnvironmentList(history: seq<Deployment>): seq<string> {
    Baseline + Filter(AddAll(Baseline, EnvNames(history)), NotBaseline)
  }

  /** `computeEnvironments`: a set seeded with the baseline, filled by `add` in a `forEach`. */
  method ComputeEnvironments(history: seq<Deployment>) returns (envs: seq<string>)
    ensures envs == EnvironmentList(history)
  {
    var envSet := Baseline;
    var i := 0;
    while i < |history|
      invariant 0 <= i <= |history|
      invariant envSet == AddAll(Baseline, EnvNames(history[..i]))
    {
      var deployment := history[i];
      assert history[..i + 1][..i] == history[..i];
      if deployment.envName != "" {
        var name := Lower(deployment.envName);
        if name !in envSet {
          envSet := envSet + [name];
        }
      }
      i := i + 1;
    }
    assert history[..|history|] == history;
    var others := Filter(envSet, NotBaseline);
    envs := Baseline + others;
  }

  lemma {:induction false} EnvNamesMembers(history: seq<Deployment>, e: string)
    ensures e in EnvNames(history) <==>
      exists i :: 0 <= i < |history| && history[i].envName != "" && Lower(history[i].envName) == e
  {
    if history != [] {
      var init := history[..|history| - 1];
      EnvNamesMembers(init, e);
      if e in EnvNames(init) {
        var i :| 0 <= i < |init| && init[i].envName != "" && Lower(init[i].envName) == e;
        assert history[i] == init[i];
      }
      if exists i :: 0 <= i < |history| && history[i].envName != "" && Lower(history[i].envName) == e {
        var i :| 0 <= i < |history| && history[i].envName != "" && Lower(history[i].envName) == e;
        if i < |init| {
          assert init[i] == history[i];
        }
      }
    }
  }

  /** The list is the baseline followed by the other names in first-seen order. */
  lemma EnvironmentListShape(history: seq<Deployment>)
    ensures EnvironmentList(history) == Baseline + FirstSeen(EnvNames(history), Baseline)
  {
    FilterOutSeed(Baseline, EnvNames(history), NotBaseline);
  }

  lemma BaselineFiltersOut()
    ensures Filter(Baseline, NotBaseline) == []
  {
    FilterNoneHold(Baseline, NotBaseline);
  }

  /** The list always starts with exactly dev, qa, uat, prod, even for an empty history. */
  lemma EnvironmentListStartsWithBaseline(history: seq<Deployment>)
    ensures |EnvironmentList(history)| >= 4
    ensures EnvironmentList(history)[..4] == ["dev", "qa", "uat", "prod"]
  {
  }

  /** No name appears twice. */
  lemma EnvironmentListNoDuplicates(history: seq<Deployment>)
    ensures NoDuplicates(EnvironmentList(history))
  {
    EnvironmentListShape(history);
    FirstSeenNoDuplicates(EnvNames(history), Baseline);
    FirstSeenMembers(EnvNames(history), Baseline);
    NoDuplicatesConcat(Baseline, FirstSeen(EnvNames(history), Baseline));
  }

  /** Beyond the baseline, the list holds exactly the lower-cased non-empty `envName`s. */
  lemma EnvironmentListMembers(history: seq<Deployment>, e: string)
    ensures e in EnvironmentList(history) <==>
      e in Baseline || exists i :: 0 <= i < |history| && history[i].envName != "" && Lower(history[i].envName) == e
  {
    EnvironmentListShape(history);
    FirstSeenMembers(EnvNames(history), Baseline);
    EnvNamesMembers(history, e);
  }

  // -------------------------------------------------------------- lookups

  /** `getStatusIcon`: the icon name for a status string. */
  function StatusIcon(status: string): (icon: string)
    ensures icon == "Clock" <==> status !in [StatusName(Success), StatusName(Failed), StatusName(Rollback)]
  {
    match status
    case "success" => "CheckCircle"
    case "failed" => "AlertCircle"
    case "rollback" => "RotateCcw"
    case _ => "Clock"
  }

  /** `getStatusColor`: the badge classes for a status string. */
  function StatusColor(status: string): (classes: string)
    ensures classes == "bg-gray-100 text-gray-800 border-gray-200" <==>
      status !in [StatusName(Success), StatusName(Failed), StatusName(Rollback)]
  {
    match status
    case "success" => "bg-green-100 text-green-800 border-green-200"
    case "failed" => "bg-red-100 text-red-800 border-red-200"
    case "rollback" => "bg-orange-100 text-orange-800 border-orange-200"
    case _ => "bg-gray-100 text-gray-800 border-gray-200"
  }

  /** `getEnvironmentColor` of this file: looks the name up after lower-casing it. */
  function EnvironmentColor(env: string): string {
    match Lower(env)
    case "dev" => "bg-yellow-100 text-yellow-800 border-yellow-200"
    case "qa" => "bg-blue-100 text-blue-800 border-blue-200"
    case "uat" => "bg-purple-100 text-purple-800 border-purple-200"
    case "prod" => "bg-green-100 text-green-800 border-green-200"
    case _ => "bg-gray-100 text-gray-800 border-gray-200"
  }

  /** The lookup ignores ASCII case, and only the baseline names get a colour other than gray. */
  lemma EnvironmentColorIgnoresCase(env: string)
    ensures EnvironmentColor(env) == EnvironmentColor(Lower(env))
    ensures EnvironmentColor(env) != "bg-gray-100 text-gray-800 border-gray-200" <==> Lower(env) in Baseline
  {
    LowerIdempotent(env);
  }
}
