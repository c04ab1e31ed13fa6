/**
  src/components/ComponentHistory.tsx: the deployment-history screen of one
  component. Its state is the four filter controls and the current page;
  the filtered list, the page slice, the environment menu and the status
  tiles are derived from that state and the `history` prop.
*/
module ComponentHistory {
  import opened Wrappers
  import opened Seqs
  import opened Text
  import opened Types
  import opened ComponentHistoryHelpers
  import opened ComponentHistoryStats
  import opened Pagination

  /**
    The component's own copy of the filter callback, with its `envMatch`,
    `statusMatch` and `dateMatch` flags.
  */
  predicate InlineKeeps(d: Deployment, c: Criteria,
                        parse: string -> Option<int>, dayStart: string -> Option<int>, dayEnd: string -> Option<int>) {
    var envMatch := c.environment == "" || Lower(d.envName) == Lower(c.environment);
    var statusMatch := c.status == "" || StatusName(d.status) == c.status;
    var dateMatch :=
      if c.startDate != "" || c.endDate != "" then
        var deploymentDate := parse(d.deployedAt);
        var afterStart := !(c.startDate != "" && Before(deploymentDate, dayStart(c.startDate)));
        var beforeEnd := !(c.endDate != "" && After(deploymentDate, dayEnd(c.endDate)));
        afterStart && beforeEnd
      else true;
    envMatch && statusMatch && dateMatch
  }

  function InlinePredicate(c: Criteria,
                           parse: string -> Option<int>, dayStart: string -> Option<int>, dayEnd: string -> Option<int>): Deployment -> bool {
    d => InlineKeeps(d, c, parse, dayStart, dayEnd)
  }

  /** The component's inline filter and `filterDeploymentHistory` keep the same events. */
  lemma InlineFilterIsHelperFilter(history: seq<Deployment>, c: Criteria,
                                   parse: string -> Option<int>, dayStart: string -> Option<int>,
                                   dayEnd: string -> Option<int>)
    ensures Filter(history, InlinePredicate(c, parse, dayStart, dayEnd)) == FilteredHistory(history, c, parse, dayStart, dayEnd)
  {
    FilterCongruent(history, InlinePredicate(c, parse, dayStart, dayEnd), KeepPredicate(c, parse, dayStart, dayEnd));
  }

  class ComponentHistoryView {
    const history: seq<Deployment>
    const parse: string -> Option<int>
    const dayStart: string -> Option<int>
    const dayEnd: string -> Option<int>
    var selectedEnvironment: string
    var selectedStatus: string
    var startDate: string
    var endDate: string
    var currentPage: int

    function Filters(): Criteria
      reads this
    {
      Criteria(selectedEnvironment, selectedStatus, startDate, endDate)
    }

    /** `filteredHistory`. */
    function Filtered(): seq<Deployment>
      reads this
    {
      Filter(history, InlinePredicate(Filters(), parse, dayStart, dayEnd))
    }

    function PageCount(): nat
      reads this
    {
      TotalPages(|Filtered()|)
    }

    /** The current page is page 1 or a page that exists. */
    predicate Valid()
      reads this
    {
      currentPage >= 1 && (currentPage == 1 || currentPage <= PageCount())
    }

    /** `paginatedHistory`: at most five events, taken in order from the filtered list. */
    function Paginated(): (page: seq<Deployment>)
      reads this
      requires Valid()
      ensures |page| <= ItemsPerPage
    {
      PageSlice(Filtered(), currentPage)
    }

    /** The `Showing a-b of n` figures. */
    function ShowingRange(): (range: (int, int))
      reads this
      requires Valid()
      ensures range.1 <= |Filtered()|
      ensures |Filtered()| > 0 ==> range.1 - range.0 + 1 == |Paginated()|
    {
      (StartIndex(currentPage) + 1, ShowingUpper(currentPage, |Filtered()|))
    }

    /** The three tiles below the list, over the unfiltered history. */
    function StatusTiles(): (tiles: StatusCounts)
      reads this
      ensures tiles.success + tiles.failed + tiles.rollback == |history|
    {
      CountsSumToLength(history);
      Counts(history)
    }

    /** The `useState` initial values: no filter, page 1. */
    constructor (history: seq<Deployment>,
                 parse: string -> Option<int>, dayStart: string -> Option<int>, dayEnd: string -> Option<int>)
      ensures this.history == history && this.parse == parse && this.dayStart == dayStart && this.dayEnd == dayEnd
      ensures Filters() == NoCriteria && currentPage == 1
      ensures Valid()
    {
      this.history := history;
      this.parse := parse;
      this.dayStart := dayStart;
      this.dayEnd := dayEnd;
      selectedEnvironment := "";
      selectedStatus := "";
      startDate := "";
      endDate := "";
      currentPage := 1;
    }

    /** `setSelectedEnvironment`; the reset effect sends a changed filter back to page 1. */
    method SetSelectedEnvironment(value: string)
      requires Valid()
      modifies this
      ensures Valid()
      ensures Filters() == old(Filters()).(environment := value)
      ensures currentPage == if value == old(selectedEnvironment) then old(currentPage) else 1
    {
      if value != selectedEnvironment {
        selectedEnvironment := value;
        currentPage := 1;
      }
    }

    method SetSelectedStatus(value: string)
      requires Valid()
      modifies this
      ensures Valid()
      ensures Filters() == old(Filters()).(status := value)
      ensures currentPage == if value == old(selectedStatus) then old(currentPage) else 1
    {
      if value != selectedStatus {
        selectedStatus := value;
        currentPage := 1;
      }
    }

    method SetStartDate(value: string)
      requires Valid()
      modifies this
      ensures Valid()
      ensures Filters() == old(Filters()).(startDate := value)
      ensures currentPage == if value == old(startDate) then old(currentPage) else 1
    {
      if value != startDate {
        startDate := value;
        currentPage := 1;
      }
    }

    method SetEndDate(value: string)
      requires Valid()
      modifies this
      ensures Valid()
      ensures Filters() == old(Filters()).(endDate := value)
      ensures currentPage == if value == old(endDate) then old(currentPage) else 1
    {
      if value != endDate {
        endDate := value;
        currentPage := 1;
      }
    }

    /** `goToPage`: the requested page clamped to `1..totalPages`; the filters stay. */
    method GoToPage(page: int)
      requires Valid()
      modifies this
      ensures Valid()
      ensures Filters() == old(Filters())
      ensures currentPage == ClampPage(page, old(PageCount()))
      ensures currentPage >= 1
      ensures 1 <= page <= old(PageCount()) ==> currentPage == page
    {
      currentPage := ClampPage(page, PageCount());
    }

    /** `clearAllFilters`: every control emptied and page 1. */
    method ClearAllFilters()
      requires Valid()
      modifies this
      ensures Valid()
      ensures Filters() == NoCriteria && currentPage == 1
      ensures Filtered() == history
    {
      selectedEnvironment := "";
      selectedStatus := "";
      startDate := "";
      endDate := "";
      currentPage := 1;
      InlineFilterIsHelperFilter(history, NoCriteria, parse, dayStart, dayEnd);
      NoCriteriaKeepsAll(history, parse, dayStart, dayEnd);
    }

    /** The `environments` memo, the same `Set` filling as `computeEnvironments`. */
    method Environments() returns (envs: seq<string>)
      ensures envs == EnvironmentList(history)
    {
      envs := ComputeEnvironments(history);
    }
  }
}
