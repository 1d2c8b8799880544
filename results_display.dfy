/**
 * The result projection of the results table: the status/search filter over a crawl's
 * link records and the working/broken counts shown above it.
 */
module ResultsDisplay {
  import opened Records
  import opened Text
  import opened Seqs

  /** The three status modes of the filter buttons ('all' | 'broken' | 'ok'). */
  datatype StatusFilter = All | Broken | Ok

  /** The status test: `broken` rejects healthy records, `ok` rejects broken ones. */
  predicate PassesStatus(filter: StatusFilter, r: LinkRecord)
  {
    !(filter == Broken && r.ok) && !(filter == Ok && !r.ok)
  }

  /** The search test: the lower-cased `url` or `sourceUrl` contains the lower-cased term. */
  predicate MatchesSearch(term: string, r: LinkRecord)
  {
    Contains(Lower(r.url), Lower(term)) || Contains(Lower(r.sourceUrl), Lower(term))
  }

  /** The filter callback, branch by branch: two early rejections, then the search test if a term is set. */
  predicate Keeps(filter: StatusFilter, searchTerm: string, r: LinkRecord)
    ensures Keeps(filter, searchTerm, r) <==>
            PassesStatus(filter, r) && (searchTerm == "" || MatchesSearch(searchTerm, r))
  {
    if filter == Broken && r.ok then false
    else if filter == Ok && !r.ok then false
    else if searchTerm != "" then MatchesSearch(searchTerm, r)
    else true
  }

  /** `results.filter(...)`: the records the callback keeps, in their original order. */
  function FilteredResults(results: seq<LinkRecord>, filter: StatusFilter, searchTerm: string): (out: seq<LinkRecord>)
    ensures |out| <= |results|
  {
    if results == [] then []
    else
      var init := FilteredResults(results[..|results| - 1], filter, searchTerm);
      var last := results[|results| - 1];
      if Keeps(filter, searchTerm, last) then init + [last] else init
  }

  /** `results.filter((result) => result.ok == ok)` */
  function WithOk(results: seq<LinkRecord>, ok: bool): (out: seq<LinkRecord>)
    ensures |out| <= |results|
    ensures forall x :: x in out ==> x.ok == ok
  {
    if results == [] then []
    else
      var init := WithOk(results[..|results| - 1], ok);
      var last := results[|results| - 1];
      if last.ok == ok then init + [last] else init
  }

  /** Filtering a list extended by one record extends the filtered list by that record or by nothing. */
  lemma WithOkSnoc(init: seq<LinkRecord>, last: LinkRecord, ok: bool)
    ensures WithOk(init + [last], ok) == WithOk(init, ok) + (if last.ok == ok then [last] else [])
  {
    assert (init + [last])[..|init|] == init;
  }

  /** No record is selected exactly when no record has the wanted status. */
  lemma {:induction false} WithOkEmptyIff(results: seq<LinkRecord>, ok: bool)
    ensures WithOk(results, ok) == [] <==> forall i :: 0 <= i < |results| ==> results[i].ok != ok
  {
    if results != [] {
      var init := results[..|results| - 1];
      assert forall i :: 0 <= i < |init| ==> results[i] == init[i];
      WithOkEmptyIff(init, ok);
    }
  }

  /** `results.filter((result) => !result.ok).length` */
  function BrokenCount(results: seq<LinkRecord>): (n: nat)
    ensures n <= |results|
    ensures n == 0 <==> forall i :: 0 <= i < |results| ==> results[i].ok
  {
    WithOkEmptyIff(results, false);
    |WithOk(results, false)|
  }

  /** `results.filter((result) => result.ok).length` */
  function WorkingCount(results: seq<LinkRecord>): (n: nat)
    ensures n <= |results|
    ensures n == 0 <==> forall i :: 0 <= i < |results| ==> !results[i].ok
  {
    WithOkEmptyIff(results, true);
    |WithOk(results, true)|
  }

  /** What the component derives from its props and its two pieces of filter state. */
  datatype ResultsView = ResultsView(total: nat, working: nat, broken: nat, shown: seq<LinkRecord>)

  function View(results: seq<LinkRecord>, filter: StatusFilter, searchTerm: string): (v: ResultsView)
    ensures v.total == |results| && v.working + v.broken == v.total
    ensures IsSubsequence(v.shown, results)
    ensures filter == All && searchTerm == "" ==> v.shown == results
  {
    CountsPartition(results);
    FilteredIsSubsequence(results, filter, searchTerm);
    AllWithoutSearchIsIdentity(results);
    ResultsView(|results|, WorkingCount(results), BrokenCount(results), FilteredResults(results, filter, searchTerm))
  }

  /** Every record is either working or broken. */
  lemma {:induction false} CountsPartition(results: seq<LinkRecord>)
    ensures BrokenCount(results) + WorkingCount(results) == |results|
  {
    if results != [] {
      CountsPartition(results[..|results| - 1]);
    }
  }

  /** The badges count the whole result list: changing the filter or the term does not change them. */
  lemma CountsIgnoreFilterState(results: seq<LinkRecord>, f1: StatusFilter, t1: string, f2: StatusFilter, t2: string)
    ensures View(results, f1, t1).working == View(results, f2, t2).working
    ensures View(results, f1, t1).broken == View(results, f2, t2).broken
    ensures View(results, f1, t1).total == View(results, f2, t2).total
  {
  }

  lemma {:induction false} FilteredIsSubsequence(results: seq<LinkRecord>, filter: StatusFilter, searchTerm: string)
    ensures IsSubsequence(FilteredResults(results, filter, searchTerm), results)
  {
    if results != [] {
      var init := results[..|results| - 1];
      var out := FilteredResults(results, filter, searchTerm);
      FilteredIsSubsequence(init, filter, searchTerm);
      if Keeps(filter, searchTerm, results[|results| - 1]) {
        assert out[..|out| - 1] == FilteredResults(init, filter, searchTerm);
      }
    }
  }

  /** A record value is in the output iff it is in the input and passes both tests. */
  lemma {:induction false} FilteredMembership(results: seq<LinkRecord>, filter: StatusFilter, searchTerm: string, r: LinkRecord)
    ensures r in FilteredResults(results, filter, searchTerm) <==>
            r in results && PassesStatus(filter, r) && (searchTerm == "" || MatchesSearch(searchTerm, r))
  {
    if results != [] {
      var init := results[..|results| - 1];
      assert results == init + [results[|results| - 1]];
      FilteredMembership(init, filter, searchTerm, r);
    }
  }

  /**
   * Every copy of a record is kept or dropped together: the output holds a record exactly as
   * often as the input when the callback keeps it, and not at all otherwise.
   */
  lemma {:induction false} FilteredMultiplicity(results: seq<LinkRecord>, filter: StatusFilter, searchTerm: string, r: LinkRecord)
    ensures multiset(FilteredResults(results, filter, searchTerm))[r] ==
            if Keeps(filter, searchTerm, r) then multiset(results)[r] else 0
  {
    if results != [] {
      var init := results[..|results| - 1];
      assert results == init + [results[|results| - 1]];
      FilteredMultiplicity(init, filter, searchTerm, r);
    }
  }

  /** `broken` shows only broken records, `ok` only working ones, whatever the term. */
  lemma {:induction false} StatusFilterSound(results: seq<LinkRecord>, searchTerm: string)
    ensures forall r :: r in FilteredResults(results, Broken, searchTerm) ==> !r.ok
    ensures forall r :: r in FilteredResults(results, Ok, searchTerm) ==> r.ok
  {
    forall r | r in FilteredResults(results, Broken, searchTerm) ensures !r.ok {
      FilteredMembership(results, Broken, searchTerm, r);
    }
    forall r | r in FilteredResults(results, Ok, searchTerm) ensures r.ok {
      FilteredMembership(results, Ok, searchTerm, r);
    }
  }

  /** A working record is hidden by `broken` even when it matches the term. */
  lemma SearchDoesNotOverrideStatus(results: seq<LinkRecord>, r: LinkRecord, searchTerm: string)
    requires r.ok && searchTerm != "" && MatchesSearch(searchTerm, r)
    ensures r !in FilteredResults(results, Broken, searchTerm)
  {
    FilteredMembership(results, Broken, searchTerm, r);
  }

  /** The initial state of the component ('all', empty term) shows every record, in order. */
  lemma {:induction false} AllWithoutSearchIsIdentity(results: seq<LinkRecord>)
    ensures FilteredResults(results, All, "") == results
  {
    if results != [] {
      AllWithoutSearchIsIdentity(results[..|results| - 1]);
    }
  }

  /** With no term, the `broken` and `ok` views are exactly `WithOk`, so their sizes are the badge counts. */
  lemma {:induction false} StatusOnlyMatchesCounts(results: seq<LinkRecord>)
    ensures FilteredResults(results, Broken, "") == WithOk(results, false)
    ensures FilteredResults(results, Ok, "") == WithOk(results, true)
    ensures |FilteredResults(results, Broken, "")| == BrokenCount(results)
    ensures |FilteredResults(results, Ok, "")| == WorkingCount(results)
  {
    if results != [] {
      StatusOnlyMatchesCounts(results[..|results| - 1]);
    }
  }

  /** Terms that differ only in the case of ASCII letters select the same records. */
  lemma {:induction false} SearchIgnoresCase(results: seq<LinkRecord>, filter: StatusFilter, t1: string, t2: string)
    requires SameIgnoringCase(t1, t2)
    ensures FilteredResults(results, filter, t1) == FilteredResults(results, filter, t2)
  {
    LowerOfSameIgnoringCase(t1, t2);
    if results != [] {
      SearchIgnoresCase(results[..|results| - 1], filter, t1, t2);
    }
  }
}
