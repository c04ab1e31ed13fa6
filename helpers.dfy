/**
  src/utils/helpers.ts: the dashboard's environment colour classes and the
  "deployed in the last 24 hours" test. Both colour lookups compare the name
  exactly (no lower-casing) and fall back to gray.
*/
module Helpers {
  import opened Wrappers

  const DarkGray: string := "dark:bg-gray-800/30"
  const LightGray: string := "bg-gray-50 border-gray-200"

  /** The names with their own background in dark mode; `fut` has one only there. */
  const DarkColored: seq<string> := ["dev", "qa", "uat", "fut", "prod"]
  const LightColored: seq<string> := ["dev", "qa", "uat", "prod"]

  /** `getEnvironmentColor(env, darkMode)`. */
  function EnvironmentColor(env: string, darkMode: bool): (classes: string)
    ensures darkMode ==> (classes == DarkGray <==> env !in DarkColored)
    ensures !darkMode ==> (classes == LightGray <==> env !in LightColored)
  {
    if darkMode then
      match env
      case "dev" => "dark:bg-yellow-900/30"
      case "qa" => "dark:bg-blue-900/30"
      case "uat" => "dark:bg-purple-900/30"
      case "fut" => "dark:bg-purple-900/30"
      case "prod" => "dark:bg-green-900/30"
      case _ => DarkGray
    else
      match env
      case "dev" => "bg-yellow-50 border-yellow-200"
      case "qa" => "bg-blue-50 border-blue-200"
      case "uat" => "bg-purple-50 border-purple-200"
      case "prod" => "bg-green-50 border-green-200"
      case _ => LightGray
  }

  /** `getEnvironmentTextColor(env, darkMode)`: the four baseline names, gray otherwise. */
  function EnvironmentTextColor(env: string, darkMode: bool): (classes: string)
    ensures darkMode ==> (classes == "dark:text-gray-200" <==> env !in LightColored)
    ensures !darkMode ==> (classes == "text-gray-700" <==> env !in LightColored)
  {
    if darkMode then
      match env
      case "dev" => "dark:text-yellow-200"
      case "qa" => "dark:text-blue-200"
      case "uat" => "dark:text-purple-200"
      case "prod" => "dark:text-green-200"
      case _ => "dark:text-gray-200"
    else
      match env
      case "dev" => "text-yellow-700"
      case "qa" => "text-blue-700"
      case "uat" => "text-purple-700"
      case "prod" => "text-green-700"
      case _ => "text-gray-700"
  }

  /** `fut` shares `uat`'s colour in dark mode, is gray in light mode, and its text is gray in both. */
  lemma FutOnlyInDarkMode()
    ensures EnvironmentColor("fut", true) == EnvironmentColor("uat", true) != DarkGray
    ensures EnvironmentColor("fut", false) == LightGray
    ensures EnvironmentTextColor("fut", true) == "dark:text-gray-200"
    ensures EnvironmentTextColor("fut", false) == "text-gray-700"
  {
  }

  /** The lookups do not fold case: an upper-case name gets the gray default. */
  lemma ColorsAreCaseSensitive(darkMode: bool)
    ensures EnvironmentColor("PROD", darkMode) == (if darkMode then DarkGray else LightGray)
    ensures EnvironmentColor("prod", darkMode) != EnvironmentColor("PROD", darkMode)
  {
  }

  const MillisecondsPerHour: int := 1000 * 60 * 60

  /**
    `isRecentDeployment(deployedAt)` with the clock reading `nowMs` passed in
    and `parse` standing for `new Date(s).getTime()` (`None` for NaN). The
    difference in hours is a real quotient, as in the source.
  */
  predicate IsRecentDeployment(deployedAt: Option<string>, nowMs: int, parse: string -> Option<int>) {
    if deployedAt.None? || deployedAt.value == "" then false
    else
      match parse(deployedAt.value)
      case None => false
      case Some(t) => (nowMs - t) as real / MillisecondsPerHour as real <= 24.0
  }

  /** Absent, empty and unparseable timestamps are never recent. */
  lemma NotRecentWithoutTime(deployedAt: Option<string>, nowMs: int, parse: string -> Option<int>)
    requires deployedAt.None? || deployedAt.value == "" || parse(deployedAt.value).None?
    ensures !IsRecentDeployment(deployedAt, nowMs, parse)
  {
  }

  /** With a parseable timestamp, recent means at most 24 hours (86 400 000 ms) ago, the boundary included. */
  lemma RecentIffWithinDay(s: string, nowMs: int, parse: string -> Option<int>)
    requires s != "" && parse(s).Some?
    ensures IsRecentDeployment(Some(s), nowMs, parse) <==> nowMs - parse(s).value <= 86_400_000
  {
    var d := (nowMs - parse(s).value) as real;
    assert d / 3_600_000.0 <= 24.0 <==> d <= 86_400_000.0;
  }

  /** A timestamp exactly 24 hours old is recent; one millisecond older is not. */
  lemma RecentBoundary(s: string, parse: string -> Option<int>)
    requires s != "" && parse(s).Some?
    ensures IsRecentDeployment(Some(s), parse(s).value + 86_400_000, parse)
    ensures !IsRecentDeployment(Some(s), parse(s).value + 86_400_001, parse)
  {
    RecentIffWithinDay(s, parse(s).value + 86_400_000, parse);
    RecentIffWithinDay(s, parse(s).value + 86_400_001, parse);
  }

  /** A timestamp later than `now` (a negative difference) counts as recent. */
  lemma FutureIsRecent(s: string, nowMs: int, parse: string -> Option<int>)
    requires s != "" && parse(s).Some? && parse(s).value > nowMs
    ensures IsRecentDeployment(Some(s), nowMs, parse)
  {
    RecentIffWithinDay(s, nowMs, parse);
  }

  /** What is recent now was recent at every earlier moment. */
  lemma RecentMonotone(deployedAt: Option<string>, earlier: int, nowMs: int, parse: string -> Option<int>)
    requires earlier <= nowMs
    requires IsRecentDeployment(deployedAt, nowMs, parse)
    ensures IsRecentDeployment(deployedAt, earlier, parse)
  {
    RecentIffWithinDay(deployedAt.value, nowMs, parse);
    RecentIffWithinDay(deployedAt.value, earlier, parse);
  }
}
