/**
  src/components/EimSearch.tsx: the landing page's EIM list, filtered by a
  case-insensitive substring of the EIM number or name. The list it filters
  (`mockEims`) is not part of this model; its entries carry the two fields
  the filter reads.
*/
module EimSearch {
  import opened Seqs
  import opened Text

  datatype EimEntry = EimEntry(number: string, name: string)

  predicate MatchesTerm(eim: EimEntry, searchTerm: string) {
    Contains(Lower(eim.number), Lower(searchTerm)) || Contains(Lower(eim.name), Lower(searchTerm))
  }

  function TermPredicate(searchTerm: string): EimEntry -> bool {
    (eim: EimEntry) => MatchesTerm(eim, searchTerm)
  }

  /** `filteredEIMList`. */
  function FilteredEims(eims: seq<EimEntry>, searchTerm: string): seq<EimEntry> {
    Filter(eims, TermPredicate(searchTerm))
  }

  /** The filter keeps the list's order. */
  lemma FilteredEimsIsSubsequence(eims: seq<EimEntry>, searchTerm: string)
    ensures IsSubsequence(FilteredEims(eims, searchTerm), eims)
  {
    FilterIsSubsequence(eims, TermPredicate(searchTerm));
  }

  /** An EIM is listed exactly when the lower-cased term occurs in its lower-cased number or name. */
  lemma FilteredEimsMembers(eims: seq<EimEntry>, searchTerm: string, eim: EimEntry)
    ensures eim in FilteredEims(eims, searchTerm) <==>
      eim in eims && (Contains(Lower(eim.number), Lower(searchTerm)) || Contains(Lower(eim.name), Lower(searchTerm)))
  {
    FilterMembership(eims, TermPredicate(searchTerm), eim);
  }

  /** The empty term lists every EIM. */
  lemma EmptyTermKeepsAll(eims: seq<EimEntry>)
    ensures FilteredEims(eims, "") == eims
  {
    forall i | 0 <= i < |eims| ensures TermPredicate("")(eims[i]) {
      ContainsEmpty(Lower(eims[i].number));
    }
    FilterKeepsAll(eims, TermPredicate(""));
  }

  /** Typing more (a term that contains the old one) can only narrow the list, keeping its order. */
  lemma LongerTermNarrows(eims: seq<EimEntry>, shorter: string, longer: string)
    requires Contains(longer, shorter)
    ensures IsSubsequence(FilteredEims(eims, longer), FilteredEims(eims, shorter))
    ensures |FilteredEims(eims, longer)| <= |FilteredEims(eims, shorter)|
  {
    ContainsLower(longer, shorter);
    forall i | 0 <= i < |eims| && TermPredicate(longer)(eims[i]) ensures TermPredicate(shorter)(eims[i]) {
      if Contains(Lower(eims[i].number), Lower(longer)) {
        ContainsTransitive(Lower(shorter), Lower(longer), Lower(eims[i].number));
      } else {
        ContainsTransitive(Lower(shorter), Lower(longer), Lower(eims[i].name));
      }
    }
    FilterNarrower(eims, TermPredicate(longer), TermPredicate(shorter));
  }
}
