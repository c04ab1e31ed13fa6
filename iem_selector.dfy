/**
  src/components/IEMSelector.tsx: the IEM list filtered by a free-text term
  and an exact region, the de-duplicated region list, and the summary
  figures. The `IEM` record it imports is not declared in src/types.ts; its
  fields here are the ones the component reads.
*/
module IemSelector {
  import opened Seqs
  import opened Text

  datatype Iem = Iem(id: string, name: string, description: string, region: string,
                     status: string, componentCount: int, lastUpdated: string)

  /** `matchesSearch`: the lower-cased term occurs in the name, description or region. */
  predicate MatchesSearch(iem: Iem, searchTerm: string) {
    || Contains(Lower(iem.name), Lower(searchTerm))
    || Contains(Lower(iem.description), Lower(searchTerm))
    || Contains(Lower(iem.region), Lower(searchTerm))
  }

  /** `matchesRegion`: no region chosen, or exactly the chosen one (case matters). */
  predicate MatchesRegion(iem: Iem, selectedRegion: string) {
    selectedRegion == "" || iem.region == selectedRegion
  }

  function IemPredicate(searchTerm: string, selectedRegion: string): Iem -> bool {
    (iem: Iem) => MatchesSearch(iem, searchTerm) && MatchesRegion(iem, selectedRegion)
  }

  function FilteredIems(iems: seq<Iem>, searchTerm: string, selectedRegion: string): seq<Iem> {
    Filter(iems, IemPredicate(searchTerm, selectedRegion))
  }

  /** The filter keeps the list's order. */
  lemma FilteredIemsIsSubsequence(iems: seq<Iem>, searchTerm: string, selectedRegion: string)
    ensures IsSubsequence(FilteredIems(iems, searchTerm, selectedRegion), iems)
  {
    FilterIsSubsequence(iems, IemPredicate(searchTerm, selectedRegion));
  }

  /** An IEM is shown exactly when the term matches one of its three texts and the region filter allows it. */
  lemma FilteredIemsMembers(iems: seq<Iem>, searchTerm: string, selectedRegion: string, iem: Iem)
    ensures iem in FilteredIems(iems, searchTerm, selectedRegion) <==>
      && iem in iems
      && (|| Contains(Lower(iem.name), Lower(searchTerm))
          || Contains(Lower(iem.description), Lower(searchTerm))
          || Contains(Lower(iem.region), Lower(searchTerm)))
      && (selectedRegion == "" || iem.region == selectedRegion)
  {
    FilterMembership(iems, IemPredicate(searchTerm, selectedRegion), iem);
  }

  /** With no term and no region every IEM is shown. */
  lemma EmptyFiltersKeepAll(iems: seq<Iem>)
    ensures FilteredIems(iems, "", "") == iems
  {
    forall i | 0 <= i < |iems| ensures IemPredicate("", "")(iems[i]) {
      ContainsEmpty(Lower(iems[i].name));
    }
    FilterKeepsAll(iems, IemPredicate("", ""));
  }

  /** `iems.map(iem => iem.region)`. */
  function RegionsOf(iems: seq<Iem>): (r: seq<string>)
    ensures |r| == |iems|
    ensures forall i :: 0 <= i < |iems| ==> r[i] == iems[i].region
  {
    seq(|iems|, i requires 0 <= i < |iems| => iems[i].region)
  }

  /** `[...new Set(regions)]`. */
  function Regions(iems: seq<Iem>): seq<string> {
    AddAll([], RegionsOf(iems))
  }

  /** The region list has no duplicates, keeps first-seen order, and holds every IEM's region and nothing else. */
  lemma RegionsDeduplicated(iems: seq<Iem>)
    ensures Regions(iems) == FirstSeen(RegionsOf(iems), [])
    ensures NoDuplicates(Regions(iems))
    ensures forall r :: r in Regions(iems) <==> exists i :: 0 <= i < |iems| && iems[i].region == r
  {
    AddAllIsFirstSeen([], RegionsOf(iems));
    FirstSeenNoDuplicates(RegionsOf(iems), []);
    FirstSeenMembers(RegionsOf(iems), []);
    forall r ensures r in Regions(iems) <==> exists i :: 0 <= i < |iems| && iems[i].region == r {
      if r in RegionsOf(iems) {
        var i :| 0 <= i < |iems| && RegionsOf(iems)[i] == r;
      }
    }
  }

  /** There are never more regions than IEMs. */
  lemma RegionCountBound(iems: seq<Iem>)
    ensures |Regions(iems)| <= |iems|
  {
    AddAllIsFirstSeen([], RegionsOf(iems));
    FirstSeenLength(RegionsOf(iems), []);
  }

  const IsActive: Iem -> bool := (iem: Iem) => iem.status == "active"

  /** The `Active IEMs` figure. */
  function ActiveCount(iems: seq<Iem>): (n: nat)
    ensures n <= |iems|
  {
    |Filter(iems, IsActive)|
  }

  /** The active count counts exactly the IEMs whose status is `active`. */
  lemma ActiveCountMembers(iems: seq<Iem>, iem: Iem)
    ensures iem in Filter(iems, IsActive) <==> iem in iems && iem.status == "active"
  {
    FilterMembership(iems, IsActive, iem);
  }

  /** The statuses of `iems`, in order: an independent way to count them. */
  function IemStatuses(iems: seq<Iem>): (r: seq<string>)
    ensures |r| == |iems|
    ensures forall k :: 0 <= k < |r| ==> r[k] == iems[k].status
  {
    if iems == [] then [] else [iems[0].status] + IemStatuses(iems[1..])
  }

  /** The active count is the number of times `active` occurs among the statuses. */
  lemma {:induction false} ActiveCountIsMultiplicity(iems: seq<Iem>)
    ensures ActiveCount(iems) == multiset(IemStatuses(iems))["active"]
  {
    if iems != [] {
      ActiveCountIsMultiplicity(iems[1..]);
      assert IemStatuses(iems) == [iems[0].status] + IemStatuses(iems[1..]);
    }
  }

  /** `iems.reduce((sum, iem) => sum + iem.componentCount, 0)`: a left fold. */
  function TotalComponents(iems: seq<Iem>): int {
    if iems == [] then 0 else TotalComponents(iems[..|iems| - 1]) + iems[|iems| - 1].componentCount
  }

  /** The total over a concatenation is the sum of the totals. */
  lemma {:induction false} TotalComponentsAppend(a: seq<Iem>, b: seq<Iem>)
    ensures TotalComponents(a + b) == TotalComponents(a) + TotalComponents(b)
  {
    if b == [] {
      assert a + b == a;
    } else {
      TotalComponentsAppend(a, b[..|b| - 1]);
      assert (a + b)[..|a + b| - 1] == a + b[..|b| - 1];
    }
  }

  /** The total sums `componentCount` over the list, first to last. */
  lemma {:induction false} TotalComponentsFromFront(iems: seq<Iem>)
    ensures iems != [] ==> TotalComponents(iems) == iems[0].componentCount + TotalComponents(iems[1..])
  {
    if iems != [] {
      TotalComponentsAppend([iems[0]], iems[1..]);
      assert [iems[0]] + iems[1..] == iems;
      assert [iems[0]][..0] == [];
    }
  }

  /** `getStatusColor` of the IEM cards. */
  function IemStatusColor(status: string): (classes: string)
    ensures classes == "bg-gray-100 text-gray-800 border-gray-200" <==> status !in ["active", "maintenance", "inactive"]
  {
    match status
    case "active" => "bg-green-100 text-green-800 border-green-200"
    case "maintenance" => "bg-yellow-100 text-yellow-800 border-yellow-200"
    case "inactive" => "bg-red-100 text-red-800 border-red-200"
    case _ => "bg-gray-100 text-gray-800 border-gray-200"
  }
}
