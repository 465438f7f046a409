/**
 * The job list of `screens/JobsScreen.js`: the search filter applied at each
 * render, and the state that `fetchJobs` and `onRefresh` update.
 *
 * The network request is not modelled; its outcome is a `Response` given to
 * the step that runs once the request has settled. `fetchJobs` is split at
 * its `await`: `FetchJobs` is what runs at the call (the loading guard and
 * `setLoading(true)`), `FetchSettled` is what runs when the response is in.
 */
module JobsScreen {
  import opened Wrappers
  import opened Jobs
  import opened JsStrings
  import Seqs

  // ---------------------------------------------------------------------------
  // The search filter

  /** `${field}` in a template literal: a missing field renders as "undefined". */
  function Interpolated(field: Option<string>): string {
    if field.Some? then field.value else "undefined"
  }

  /** `field || ''` for a `primary_details` entry; a missing block or entry gives "". */
  function DetailOrEmpty(details: Option<Details>, pick: Details -> Option<string>): string {
    if details.Some? && pick(details.value).Some? then pick(details.value).value else ""
  }

  /**
   * The text a query is matched against: title, company, place, salary and
   * experience, space separated. It starts with the title, followed by a
   * space and the company.
   */
  function SearchText(job: Job): (r: string)
    ensures OccursAt(r, Interpolated(job.title), 0)
    ensures OccursAt(r, Interpolated(job.companyName), |Interpolated(job.title)| + 1)
  {
    Interpolated(job.title) + " " + Interpolated(job.companyName)
    + " " + DetailOrEmpty(job.primaryDetails, (d: Details) => d.place)
    + " " + DetailOrEmpty(job.primaryDetails, (d: Details) => d.salary)
    + " " + DetailOrEmpty(job.primaryDetails, (d: Details) => d.experience)
  }

  /**
   * The filter's test: every term of the lowered query, split on single
   * spaces, occurs in the lowered search text of the job. So a query
   * without spaces that occurs in the title, ignoring case, matches.
   */
  predicate Matches(job: Job, searchQuery: string)
    ensures ' ' !in Lower(searchQuery) && Includes(Lower(Interpolated(job.title)), Lower(searchQuery))
            ==> Matches(job, searchQuery)
  {
    var title := Interpolated(job.title);
    var text := SearchText(job);
    assert text == title + text[|title|..];
    LowerAppend(title, text[|title|..]);
    IncludesInPrefix(Lower(title), Lower(text[|title|..]), Lower(searchQuery));
    SplitNoSpace(Lower(searchQuery));
    var terms := Split(Lower(searchQuery));
    AllIncluded(Lower(text), terms)
  }

  /** Every one of `terms` occurs in `text`. */
  predicate AllIncluded(text: string, terms: seq<string>) {
    forall k :: 0 <= k < |terms| ==> Includes(text, terms[k])
  }

  /** The terms of two lists all occur exactly when those of each list do. */
  lemma AllIncludedAppend(text: string, ta: seq<string>, tb: seq<string>)
    ensures AllIncluded(text, ta + tb) <==> AllIncluded(text, ta) && AllIncluded(text, tb)
  {
    if AllIncluded(text, ta + tb) {
      forall k | 0 <= k < |ta| ensures Includes(text, ta[k]) {
        assert (ta + tb)[k] == ta[k];
      }
      forall k | 0 <= k < |tb| ensures Includes(text, tb[k]) {
        assert (ta + tb)[|ta| + k] == tb[k];
      }
    }
    if AllIncluded(text, ta) && AllIncluded(text, tb) {
      forall k | 0 <= k < |ta + tb| ensures Includes(text, (ta + tb)[k]) {
        if k >= |ta| {
          assert (ta + tb)[k] == tb[k - |ta|];
        }
      }
    }
  }

  /** The test handed to `jobs.filter` for one query. */
  function MatchesQuery(searchQuery: string): Job -> bool {
    (job: Job) => Matches(job, searchQuery)
  }

  /** `filteredJobs`: the jobs that match the query, in their order in `jobs`. */
  function FilteredJobs(jobs: seq<Job>, searchQuery: string): (r: seq<Job>)
    ensures Seqs.IsSubsequence(r, jobs)
    ensures forall k :: 0 <= k < |r| ==> Matches(r[k], searchQuery)
    ensures forall k :: 0 <= k < |jobs| && Matches(jobs[k], searchQuery) ==> jobs[k] in r
    ensures forall job :: multiset(r)[job] == if Matches(job, searchQuery) then multiset(jobs)[job] else 0
  {
    Seqs.FilterIsSubsequence(jobs, MatchesQuery(searchQuery));
    Seqs.FilterMultiset(jobs, MatchesQuery(searchQuery));
    Seqs.Filter(jobs, MatchesQuery(searchQuery))
  }

  /** A query of spaces only, the empty query among them, keeps every job in order. */
  lemma BlankQueryKeepsAll(jobs: seq<Job>, searchQuery: string)
    requires forall k :: 0 <= k < |searchQuery| ==> searchQuery[k] == ' '
    ensures FilteredJobs(jobs, searchQuery) == jobs
  {
    var lowered := Lower(searchQuery);
    assert forall k :: 0 <= k < |lowered| ==> lowered[k] == ' ';
    SplitOfSpaces(lowered);
    forall job: Job ensures Matches(job, searchQuery) {
      IncludesEmpty(Lower(SearchText(job)));
    }
    Seqs.FilterKeepsAll(jobs, MatchesQuery(searchQuery));
  }

  /** Queries that differ only in the case of their letters select the same jobs. */
  lemma CaseInsensitive(jobs: seq<Job>, q1: string, q2: string)
    requires |q1| == |q2|
    requires forall k :: 0 <= k < |q1| ==> SameIgnoringCase(q1[k], q2[k])
    ensures FilteredJobs(jobs, q1) == FilteredJobs(jobs, q2)
  {
    CaseVariantsLowerAlike(q1, q2);
    SameLoweringSelectsSame(jobs, q1, q2);
  }

  /** Queries with the same lowered form select the same jobs. */
  lemma SameLoweringSelectsSame(jobs: seq<Job>, q1: string, q2: string)
    requires Lower(q1) == Lower(q2)
    ensures FilteredJobs(jobs, q1) == FilteredJobs(jobs, q2)
  {
    Seqs.FilterSameTest(jobs, MatchesQuery(q1), MatchesQuery(q2));
  }

  /** A query and its lowered form select the same jobs. */
  lemma LoweredQuerySelectsSame(jobs: seq<Job>, searchQuery: string)
    ensures FilteredJobs(jobs, Lower(searchQuery)) == FilteredJobs(jobs, searchQuery)
  {
    LowerIdempotent(searchQuery);
    SameLoweringSelectsSame(jobs, Lower(searchQuery), searchQuery);
  }

  /** A job matches `a b` exactly when it matches `a` and matches `b`. */
  lemma MatchesBoth(job: Job, a: string, b: string)
    ensures Matches(job, a + " " + b) <==> Matches(job, a) && Matches(job, b)
  {
    LowerAppend(a + " ", b);
    LowerAppend(a, " ");
    assert Lower(" ") == " ";
    SplitAtSpace(Lower(a), Lower(b));
    var ta, tb := Split(Lower(a)), Split(Lower(b));
    var text := Lower(SearchText(job));
    assert Split(Lower(a + " " + b)) == ta + tb;
    AllIncludedAppend(text, ta, tb);
  }

  /**
   * Adding a term only narrows the result: filtering by `a b` is filtering by
   * `a` and then by `b`, so it keeps a subsequence of what `a` alone keeps.
   */
  lemma MoreTermsNarrow(jobs: seq<Job>, a: string, b: string)
    ensures FilteredJobs(jobs, a + " " + b) == FilteredJobs(FilteredJobs(jobs, a), b)
    ensures Seqs.IsSubsequence(FilteredJobs(jobs, a + " " + b), FilteredJobs(jobs, a))
  {
    forall job: Job ensures MatchesQuery(a + " " + b)(job) == (MatchesQuery(a)(job) && MatchesQuery(b)(job)) {
      MatchesBoth(job, a, b);
    }
    Seqs.FilterConjunction(jobs, MatchesQuery(a + " " + b), MatchesQuery(a), MatchesQuery(b));
  }

  /** A space at the end of the query adds an empty term, which every job matches, so the result is unchanged. */
  lemma TrailingSpaceKeepsResult(jobs: seq<Job>, a: string)
    ensures FilteredJobs(jobs, a + " ") == FilteredJobs(jobs, a)
  {
    assert a + " " == a + " " + "";
    MoreTermsNarrow(jobs, a, "");
    BlankQueryKeepsAll(FilteredJobs(jobs, a), "");
  }

  // ---------------------------------------------------------------------------
  // Loading pages

  const LoadError := "Failed to load jobs"

  /**
   * How a request for a page settles: a response with `ok` and an array
   * `results`; a response without `ok` (or a rejected request); or a body
   * that is not JSON or has no array `results`.
   */
  datatype Response = Ok(results: seq<Job>) | NotOk | BadFormat

  /** The screen's state variables that loading touches. */
  datatype Feed = Feed(jobs: seq<Job>, page: int, loading: bool, refreshing: bool, error: Option<string>)

  /** The state on mount. */
  const Initial := Feed([], 1, false, false, None)

  /**
   * What `fetchJobs` does before its `await`: a non-refresh call while a load
   * is in flight returns at once; otherwise `loading` is set and the request
   * is sent (the flag says whether it was).
   */
  function StartFetch(f: Feed, isRefreshing: bool): (r: (Feed, bool))
    ensures r.0.loading
    ensures r.1 <==> isRefreshing || !f.loading
    ensures r.0.(loading := f.loading) == f
  {
    if f.loading && !isRefreshing then (f, false) else (f.(loading := true), true)
  }

  /**
   * What `fetchJobs` does once the response is in: on success the page's
   * results replace the list (refresh) or are appended to it, and `page`
   * becomes `pageNumber + 1`; on failure only `error` is set. Both flags are
   * cleared in either case.
   */
  function SettleFetch(f: Feed, pageNumber: int, isRefreshing: bool, response: Response): (r: Feed)
    ensures !r.loading && !r.refreshing
    ensures r.error == if response.Ok? then f.error else Some(LoadError)
    ensures !response.Ok? ==> r.jobs == f.jobs && r.page == f.page
  {
    var settled :=
      match response
      case Ok(results) =>
        f.(jobs := if isRefreshing then results else f.jobs + results, page := pageNumber + 1)
      case _ => f.(error := Some(LoadError));
    settled.(loading := false, refreshing := false)
  }

  /** `onRefresh`: mark refreshing, reset the page to 1, and start loading page 1 in replace mode. */
  function Refresh(f: Feed): (r: Feed)
    ensures r.page == 1 && r.refreshing && r.loading
    ensures r.jobs == f.jobs && r.error == f.error
  {
    StartFetch(f.(refreshing := true, page := 1), true).0
  }

  /**
   * A run of the list's end-reached handler: each reach starts a fetch for
   * the current `page`, and each fetch the guard lets through settles with
   * the next of `pages`. The list only grows and the error is untouched.
   */
  function Scroll(f: Feed, pages: seq<seq<Job>>): (r: Feed)
    ensures f.jobs <= r.jobs
    ensures r.error == f.error
    decreases |pages|
  {
    if pages == [] then f
    else
      var (started, sent) := StartFetch(f, false);
      if !sent then f  // the guard drops the request, so no page arrives
      else Scroll(SettleFetch(started, f.page, false, Ok(pages[0])), pages[1..])
  }

  class Screen {
    var jobs: seq<Job>
    var page: int
    var loading: bool
    var refreshing: bool
    var error: Option<string>

    function State(): Feed
      reads this
    {
      Feed(jobs, page, loading, refreshing, error)
    }

    constructor ()
      ensures State() == Initial
    {
      jobs, page, loading, refreshing, error := [], 1, false, false, None;
    }

    /**
     * The call of `fetchJobs(pageNumber, isRefreshing)` up to its `await`.
     * The page asked for is not used before the `await`; the caller passes
     * it, with the same `isRefreshing`, to `FetchSettled` once the
     * response is in.
     */
    method FetchJobs(isRefreshing: bool) returns (sent: bool)
      modifies this
      ensures (State(), sent) == StartFetch(old(State()), isRefreshing)
    {
      if loading && !isRefreshing {
        return false;
      }
      loading := true;
      return true;
    }

    /** The rest of `fetchJobs(pageNumber, isRefreshing)`, once `response` is in. */
    method FetchSettled(pageNumber: int, isRefreshing: bool, response: Response)
      modifies this
      ensures State() == SettleFetch(old(State()), pageNumber, isRefreshing, response)
    {
      match response {
        case Ok(results) =>
          if isRefreshing {
            jobs := results;
          } else {
            jobs := jobs + results;
          }
          page := pageNumber + 1;
        case _ =>
          error := Some(LoadError);
      }
      loading := false;
      refreshing := false;
    }

    method OnRefresh()
      modifies this
      ensures State() == Refresh(old(State()))
    {
      refreshing := true;
      page := 1;
      var sent := FetchJobs(true);
    }

    /** The list's end-reached handler, which asks for the page in `page`. */
    method OnEndReached() returns (sent: bool)
      modifies this
      ensures (State(), sent) == StartFetch(old(State()), false)
    {
      sent := FetchJobs(false);
    }
  }

  /** A non-refresh call made while a load is in flight sends nothing and changes nothing. */
  lemma LoadingGuard(f: Feed)
    requires f.loading
    ensures StartFetch(f, false) == (f, false)
  {
  }

  /** A refresh call, or any call while idle, is sent and sets `loading`. */
  lemma FetchStarts(f: Feed, isRefreshing: bool)
    requires isRefreshing || !f.loading
    ensures StartFetch(f, isRefreshing) == (f.(loading := true), true)
  {
  }

  /**
   * A successful non-refresh load appends the page as it came, duplicates
   * included, and moves `page` past it; a successful refresh replaces the list.
   */
  lemma SettleSuccess(f: Feed, pageNumber: int, isRefreshing: bool, results: seq<Job>)
    ensures var g := SettleFetch(f, pageNumber, isRefreshing, Ok(results));
            && g.page == pageNumber + 1
            && g.error == f.error
            && (isRefreshing ==> g.jobs == results)
            && (!isRefreshing ==> |g.jobs| == |f.jobs| + |results|
                                  && g.jobs[..|f.jobs|] == f.jobs && g.jobs[|f.jobs|..] == results)
  {
    if !isRefreshing {
      assert (f.jobs + results)[..|f.jobs|] == f.jobs;
      assert (f.jobs + results)[|f.jobs|..] == results;
    }
  }

  /** A failed load keeps the list and the page and sets `error`. */
  lemma SettleFailure(f: Feed, pageNumber: int, isRefreshing: bool, response: Response)
    requires !response.Ok?
    ensures var g := SettleFetch(f, pageNumber, isRefreshing, response);
            g.jobs == f.jobs && g.page == f.page && g.error == Some(LoadError)
  {
  }

  /** Whatever the response, both flags are clear afterwards, and an error once set stays set. */
  lemma SettleClearsFlags(f: Feed, pageNumber: int, isRefreshing: bool, response: Response)
    ensures var g := SettleFetch(f, pageNumber, isRefreshing, response);
            !g.loading && !g.refreshing && (f.error.Some? ==> g.error.Some?)
  {
  }

  /** Refreshing reloads page 1: a success leaves exactly that page listed and `page` at 2. */
  lemma RefreshReloads(f: Feed, results: seq<Job>)
    ensures Refresh(f).page == 1 && Refresh(f).refreshing && Refresh(f).loading
    ensures var g := SettleFetch(Refresh(f), 1, true, Ok(results));
            g.jobs == results && g.page == 2 && !g.loading && !g.refreshing
  {
  }

  /**
   * Scrolling through pages while idle accumulates them in order after the
   * jobs already listed, and the page counter advances by one per page.
   */
  lemma {:induction false} ScrollAccumulates(f: Feed, pages: seq<seq<Job>>)
    requires !f.loading
    ensures Scroll(f, pages).jobs == f.jobs + Seqs.Flatten(pages)
    ensures Scroll(f, pages).page == f.page + |pages|
    ensures !Scroll(f, pages).loading
    decreases |pages|
  {
    if pages != [] {
      var g := SettleFetch(StartFetch(f, false).0, f.page, false, Ok(pages[0]));
      ScrollAccumulates(g, pages[1..]);
      assert g.jobs + Seqs.Flatten(pages[1..]) == f.jobs + (pages[0] + Seqs.Flatten(pages[1..]));
    }
  }

  /** While a load is in flight, reaching the end of the list is dropped by the guard and loads nothing. */
  lemma ScrollWhileLoading(f: Feed, pages: seq<seq<Job>>)
    requires f.loading
    ensures Scroll(f, pages) == f
  {
  }

  /** From the mounted screen, the list is the loaded pages one after another. */
  lemma MountThenScroll(pages: seq<seq<Job>>)
    ensures Scroll(Initial, pages).jobs == Seqs.Flatten(pages)
    ensures Scroll(Initial, pages).page == 1 + |pages|
  {
    ScrollAccumulates(Initial, pages);
    assert Initial.jobs + Seqs.Flatten(pages) == Seqs.Flatten(pages);
  }
}
