/** The two process-wide counters of the allocator and the ceilings an
    allocation request is admitted against. The counters are C `int`s in
    the driver; here they are unbounded integers. */
module Quota {

  /** Most pages all successful requests together may have asked for. */
  const MAX_PAGES: int := 4096
  /** Most allocation requests that may succeed. */
  const MAX_ALLOCATIONS: int := 100

  /** `total_pages_allocated` and `total_alloc_requests`; both start at 0. */
  datatype Counters = Counters(pages: int, requests: int)

  const Initial: Counters := Counters(0, 0)

  datatype Admission = Admitted | PageQuotaExceeded | RequestQuotaExceeded

  /** The quota gate of an allocation of `numPages` pages: the page ceiling
      is checked first, the request ceiling second; it changes nothing. */
  function Admit(c: Counters, numPages: int): (r: Admission)
    ensures r == PageQuotaExceeded <==> c.pages + numPages > MAX_PAGES
    ensures r == RequestQuotaExceeded <==>
              c.pages + numPages <= MAX_PAGES && c.requests >= MAX_ALLOCATIONS
    ensures r == Admitted ==> c.requests < MAX_ALLOCATIONS
  {
    if c.pages + numPages > MAX_PAGES then PageQuotaExceeded
    else if c.requests >= MAX_ALLOCATIONS then RequestQuotaExceeded
    else Admitted
  }

  /** Books a request of `numPages` pages that mapped every page. */
  function Commit(c: Counters, numPages: int): (r: Counters)
    ensures r.requests > c.requests
    ensures Admit(c, numPages) == Admitted && WithinCeilings(c) && 0 <= numPages ==>
              WithinCeilings(r)
  {
    Counters(c.pages + numPages, c.requests + 1)
  }

  /** Both counters are non-negative and within their ceilings. */
  predicate WithinCeilings(c: Counters)
  {
    0 <= c.pages <= MAX_PAGES && 0 <= c.requests <= MAX_ALLOCATIONS
  }

  /** Committing an admitted request of a non-negative page count keeps the
      counters within their ceilings and never decreases either of them. */
  lemma CommitKeepsCeilings(c: Counters, numPages: int)
    requires WithinCeilings(c) && 0 <= numPages
    requires Admit(c, numPages) == Admitted
    ensures WithinCeilings(Commit(c, numPages))
    ensures Commit(c, numPages).pages >= c.pages
    ensures Commit(c, numPages).requests > c.requests
  {
  }
}
