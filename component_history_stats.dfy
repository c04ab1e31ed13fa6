/**
  src/components/ComponentHistoryStats.tsx: the success, failed and rollback
  tiles, each a `history.filter(d => d.status === ...).length`. The same three
  counts are drawn over the unfiltered history by
  src/components/ComponentHistory.tsx.
*/
module ComponentHistoryStats {
  import opened Seqs
  import opened Types

  datatype StatusCounts = StatusCounts(success: nat, failed: nat, rollback: nat)

  function HasStatus(s: Status): Deployment -> bool {
    (d: Deployment) => d.status == s
  }

  function CountStatus(history: seq<Deployment>, s: Status): (n: nat)
    ensures n <= |history|
  {
    |Filter(history, HasStatus(s))|
  }

  function Counts(history: seq<Deployment>): StatusCounts {
    StatusCounts(CountStatus(history, Success), CountStatus(history, Failed), CountStatus(history, Rollback))
  }

  /** The statuses of `history`, in order: an independent way to count them. */
  function Statuses(history: seq<Deployment>): (r: seq<Status>)
    ensures |r| == |history|
  {
    if history == [] then [] else [history[0].status] + Statuses(history[1..])
  }

  /** Each tile shows the number of entries with its status. */
  lemma {:induction false} CountStatusIsMultiplicity(history: seq<Deployment>, s: Status)
    ensures CountStatus(history, s) == multiset(Statuses(history))[s]
  {
    if history != [] {
      CountStatusIsMultiplicity(history[1..], s);
      assert Statuses(history) == [history[0].status] + Statuses(history[1..]);
    }
  }

  /** Every entry has one of the three statuses, so the tiles add up to the history's length. */
  lemma CountsSumToLength(history: seq<Deployment>)
    ensures var c := Counts(history);
      c.success + c.failed + c.rollback == |history|
  {
    FilterPartition(history, HasStatus(Success), HasStatus(Failed), HasStatus(Rollback));
  }

  /** Reordering the history leaves the tiles unchanged. */
  lemma CountsPermutationInvariant(a: seq<Deployment>, b: seq<Deployment>)
    requires multiset(a) == multiset(b)
    ensures Counts(a) == Counts(b)
  {
    FilterLengthPermutation(a, b, HasStatus(Success));
    FilterLengthPermutation(a, b, HasStatus(Failed));
    FilterLengthPermutation(a, b, HasStatus(Rollback));
  }
}
