/**
  src/components/SummaryStats.tsx: one tile per environment with how many of
  the shown components are deployed there, how many of those were deployed
  in the last 24 hours, and the deployed share as a whole percentage.
  `isRecentDeployment` is src/utils/helpers.ts's, with the clock reading
  `nowMs` and the date parser `parse` passed in.
*/
module SummaryStats {
  import opened Wrappers
  import opened Seqs
  import opened Types
  import opened Helpers

  datatype EnvironmentStat = EnvironmentStat(env: string, deployedCount: nat, recentCount: nat, totalCount: nat, percentage: int)

  /** `component.deployments[env]` is set (a `null` slot is an absent key). */
  function DeployedTo(env: string): ComponentData -> bool {
    (c: ComponentData) => env in c.deployments
  }

  function DeployedRecentlyTo(env: string, nowMs: int, parse: string -> Option<int>): ComponentData -> bool {
    (c: ComponentData) => env in c.deployments && IsRecentDeployment(Some(c.deployments[env].deployedAt), nowMs, parse)
  }

  /**
    `Math.round(deployed / total * 100)` on exact rationals: the nearest
    integer to `100 * deployed / total`, halves rounded up; 0 when there are
    no components.
  */
  function Percentage(deployed: nat, total: nat): int {
    if total > 0 then (200 * deployed + total) / (2 * total) else 0
  }

  function StatFor(env: string, filteredData: seq<ComponentData>, nowMs: int, parse: string -> Option<int>): EnvironmentStat {
    var deployedCount := |Filter(filteredData, DeployedTo(env))|;
    var recentCount := |Filter(filteredData, DeployedRecentlyTo(env, nowMs, parse))|;
    var totalCount := |filteredData|;
    EnvironmentStat(env, deployedCount, recentCount, totalCount, Percentage(deployedCount, totalCount))
  }

  /** `environments.map(...)`: one tile per environment, in the given order. */
  function Stats(environments: seq<string>, filteredData: seq<ComponentData>, nowMs: int, parse: string -> Option<int>): (stats: seq<EnvironmentStat>)
    ensures |stats| == |environments|
    ensures forall i :: 0 <= i < |environments| ==> stats[i] == StatFor(environments[i], filteredData, nowMs, parse)
  {
    seq(|environments|, i requires 0 <= i < |environments| => StatFor(environments[i], filteredData, nowMs, parse))
  }

  /** The percentage is the rounded share: within half a point of `100 * deployed / total`. */
  lemma PercentageIsRounded(deployed: nat, total: nat)
    requires total > 0
    ensures 2 * total * Percentage(deployed, total) <= 200 * deployed + total < 2 * total * (Percentage(deployed, total) + 1)
  {
  }

  lemma PercentageBounds(deployed: nat, total: nat)
    requires deployed <= total
    ensures 0 <= Percentage(deployed, total) <= 100
    ensures total > 0 && deployed == total ==> Percentage(deployed, total) == 100
    ensures total == 0 ==> Percentage(deployed, total) == 0
  {
    if total > 0 {
      var q := Percentage(deployed, total);
      PercentageIsRounded(deployed, total);
      if q > 100 {
        assert 2 * total * q >= 2 * total * 101 by {
          MultiplyMonotone(2 * total, 101, q);
        }
      }
      if deployed == total {
        assert 200 * deployed + total == 2 * total * 100 + total;
        if q < 100 {
          MultiplyMonotone(2 * total, q + 1, 100);
        }
      }
    }
  }

  lemma MultiplyMonotone(a: nat, x: int, y: int)
    requires x <= y
    ensures a * x <= a * y
  {
  }

  /**
    `recentCount <= deployedCount <= totalCount`, the percentage lies in
    0..100, is 0 without components and 100 when all are deployed to `env`.
  */
  lemma StatBounds(env: string, filteredData: seq<ComponentData>, nowMs: int, parse: string -> Option<int>)
    ensures var s := StatFor(env, filteredData, nowMs, parse);
      && s.env == env
      && s.recentCount <= s.deployedCount <= s.totalCount == |filteredData|
      && 0 <= s.percentage <= 100
      && (s.totalCount == 0 ==> s.percentage == 0)
      && ((forall c :: c in filteredData ==> env in c.deployments) && s.totalCount > 0 ==> s.percentage == 100)
  {
    FilterNarrower(filteredData, DeployedRecentlyTo(env, nowMs, parse), DeployedTo(env));
    var deployedCount := |Filter(filteredData, DeployedTo(env))|;
    if forall c :: c in filteredData ==> env in c.deployments {
      FilterKeepsAll(filteredData, DeployedTo(env));
    }
    PercentageBounds(deployedCount, |filteredData|);
  }

  /** A component counts as deployed exactly when it has an entry for `env`. */
  lemma DeployedCountMembers(env: string, filteredData: seq<ComponentData>, c: ComponentData)
    ensures c in Filter(filteredData, DeployedTo(env)) <==> c in filteredData && env in c.deployments
  {
    FilterMembership(filteredData, DeployedTo(env), c);
  }
}
