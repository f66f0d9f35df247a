/** The ioctl handler of the memalloc device: ALLOCATE runs the quota gate,
    then the page loop, then books the request; FREE only reads its
    argument; any other command is refused. */
module Memalloc {
  import opened Wrappers
  import opened PageTable
  import opened Quota
  import opened Mapping

  /** Linux errno values the handler returns negated. */
  const EFAULT: int := 14
  const ENOMEM: int := 12
  const EINVAL: int := 22

  /** Status of a quota rejection and of a page that is already present. */
  const PAGE_QUOTA_STATUS: int := -2
  const REQUEST_QUOTA_STATUS: int := -3
  const ALREADY_MAPPED_STATUS: int := -1

  /** The global counters and the caller's leaf entries. */
  datatype State = State(counters: Counters, pages: Mappings)

  /** An ioctl command with its argument as `copy_from_user` delivered it:
      `None` when the copy faulted. */
  datatype Command =
    | Allocate(info: Option<Request>)
    | Free(target: Option<nat>)
    | Unrecognized(cmd: nat)

  datatype Reply = Reply(status: int, state: State)

  /** The status the handler returns for a fault of the page loop. */
  function FaultStatus(f: Fault): (status: int)
    ensures status < 0
    ensures status != PAGE_QUOTA_STATUS && status != REQUEST_QUOTA_STATUS
    ensures status == ALREADY_MAPPED_STATUS <==> f == AlreadyMapped
    ensures status == -ENOMEM <==> f == OutOfMemory
    ensures status == -EFAULT <==> f == BadOuterEntry || f == UnresolvableLeaf
  {
    match f
    case BadOuterEntry => -EFAULT
    case UnresolvableLeaf => -EFAULT
    case OutOfMemory => -ENOMEM
    case AlreadyMapped => ALREADY_MAPPED_STATUS
  }

  /** One ioctl call. `w` and `frames` stand for the table walk and the
      page allocator during this call. */
  function Dispatch(cmd: Command, st: State, w: Walker, frames: seq<Option<nat>>): (r: Reply)
    // only a successful allocation touches the counters, and it books the
    // whole page count and one request, even for a count of 0
    ensures r.status != 0 ==> r.state.counters == st.counters
    ensures r.status == 0 && cmd.Allocate? ==>
              && cmd.info.Some?
              && r.state.counters.pages == st.counters.pages + cmd.info.value.numPages
              && r.state.counters.requests == st.counters.requests + 1
    // the quota gate: pages first, requests second, no change on rejection
    ensures cmd.Allocate? && cmd.info.Some? &&
            st.counters.pages + cmd.info.value.numPages > MAX_PAGES ==>
              r == Reply(PAGE_QUOTA_STATUS, st)
    ensures cmd.Allocate? && cmd.info.Some? &&
            st.counters.pages + cmd.info.value.numPages <= MAX_PAGES &&
            st.counters.requests >= MAX_ALLOCATIONS ==>
              r == Reply(REQUEST_QUOTA_STATUS, st)
    // faulting copies, FREE and unknown commands change nothing
    ensures cmd.Allocate? && cmd.info.None? ==> r == Reply(-EFAULT, st)
    ensures cmd.Free? ==> r == Reply(if cmd.target.Some? then 0 else -EFAULT, st)
    ensures cmd.Unrecognized? ==> r == Reply(-EINVAL, st)
  {
    match cmd
    case Allocate(None) => Reply(-EFAULT, st)
    case Allocate(Some(req)) =>
      (match Admit(st.counters, req.numPages)
       case PageQuotaExceeded => Reply(PAGE_QUOTA_STATUS, st)
       case RequestQuotaExceeded => Reply(REQUEST_QUOTA_STATUS, st)
       case Admitted =>
         (match MapRange(req, w, frames, st.pages)
          case Aborted(_, f, pages') => Reply(FaultStatus(f), st.(pages := pages'))
          case Completed(pages') => Reply(0, State(Commit(st.counters, req.numPages), pages'))))
    case Free(None) => Reply(-EFAULT, st)
    case Free(Some(_)) => Reply(0, st)
    case Unrecognized(_) => Reply(-EINVAL, st)
  }

  /** An admitted allocation succeeds iff no page of its range faults; on
      success every page is installed, on failure the status is that of
      the first faulting page, the pages before it are installed and the
      rest of the address space is as it was. */
  lemma AllocateMatchesReference(req: Request, st: State, w: Walker, frames: seq<Option<nat>>)
    requires Admit(st.counters, req.numPages) == Admitted
    ensures var r := Dispatch(Allocate(Some(req)), st, w, frames);
            var o := MapRange(req, w, frames, st.pages);
            && (r.status == 0 <==> NoFaultBefore(req, w, frames, st.pages, PageCount(req)))
            && (r.status == 0 ==> AgreesUpTo(req, frames, st.pages, PageCount(req), r.state.pages))
            && (r.status != 0 ==>
                  && o.Aborted?
                  && NoFaultBefore(req, w, frames, st.pages, o.at)
                  && FaultAt(req, w, frames, st.pages, o.at) == Some(o.fault)
                  && r.status == FaultStatus(o.fault)
                  && AgreesUpTo(req, frames, st.pages, o.at, r.state.pages))
  {
    MapRangeMatchesReference(req, w, frames, st.pages);
  }

  /** An admitted request succeeds when every page of its range is
      reachable and not present, and the allocator has a frame for each of
      its empty pages. */
  lemma AllocateSucceeds(req: Request, st: State, w: Walker, frames: seq<Option<nat>>)
    requires Admit(st.counters, req.numPages) == Admitted
    requires forall k: nat :: k < PageCount(req) ==>
               && PageOf(req, k) !in w.badOuter && PageOf(req, k) !in w.unresolvable
               && !EntryAt(st.pages, PageOf(req, k)).Present?
    requires forall n: nat :: n < EmptyBefore(req, st.pages, PageCount(req)) ==> Frame(frames, n).Some?
    ensures Dispatch(Allocate(Some(req)), st, w, frames).status == 0
  {
    forall k: nat | k < PageCount(req)
      ensures FaultAt(req, w, frames, st.pages, k).None?
    {
      if EntryAt(st.pages, PageOf(req, k)) == Empty {
        EmptyBeforeIncreases(req, st.pages, k, PageCount(req));
        assert Frame(frames, EmptyBefore(req, st.pages, k)).Some?;
      } else {
        assert EntryAt(st.pages, PageOf(req, k)) == NonPresent;
      }
    }
    AllocateMatchesReference(req, st, w, frames);
  }

  /** A request of zero pages maps nothing and still uses up a request. */
  lemma ZeroPageRequest(req: Request, st: State, w: Walker, frames: seq<Option<nat>>)
    requires req.numPages == 0 && Admit(st.counters, 0) == Admitted
    ensures Dispatch(Allocate(Some(req)), st, w, frames) ==
              Reply(0, State(Counters(st.counters.pages, st.counters.requests + 1), st.pages))
  {
  }

  /** An admitted request over a present page fails without touching that
      page or the counters; the status is -1 unless an earlier page of the
      range faulted first or the walk to this page failed. */
  lemma AlreadyMappedRejected(req: Request, st: State, w: Walker, frames: seq<Option<nat>>, k: nat)
    requires Admit(st.counters, req.numPages) == Admitted
    requires k < req.numPages && EntryAt(st.pages, PageOf(req, k)).Present?
    ensures var r := Dispatch(Allocate(Some(req)), st, w, frames);
            && r.status < 0
            && r.state.counters == st.counters
            && EntryAt(r.state.pages, PageOf(req, k)) == EntryAt(st.pages, PageOf(req, k))
            && (NoFaultBefore(req, w, frames, st.pages, k) &&
                PageOf(req, k) !in w.badOuter && PageOf(req, k) !in w.unresolvable ==>
                  r.status == ALREADY_MAPPED_STATUS)
  {
    PresentPageAborts(req, w, frames, st.pages, k);
    PresentStaysPresent(req, w, frames, st.pages, PageOf(req, k));
    MapRangeMatchesReference(req, w, frames, st.pages);
  }

  /** Every page count a request carries is non-negative. The handler does
      not check this; the counter invariants below need it. */
  predicate NonNegativeCount(cmd: Command)
  {
    cmd.Allocate? && cmd.info.Some? ==> cmd.info.value.numPages >= 0
  }

  /** One ioctl call keeps the counters within their ceilings. */
  lemma DispatchKeepsCeilings(cmd: Command, st: State, w: Walker, frames: seq<Option<nat>>)
    requires WithinCeilings(st.counters) && NonNegativeCount(cmd)
    ensures WithinCeilings(Dispatch(cmd, st, w, frames).state.counters)
  {
  }

  /** One ioctl call with the walk and allocator it meets. */
  datatype Call = Call(cmd: Command, walker: Walker, frames: seq<Option<nat>>)

  /** The state after a sequence of calls. */
  function Replay(st: State, calls: seq<Call>): State
    decreases |calls|
  {
    if |calls| == 0 then st
    else Replay(Dispatch(calls[0].cmd, st, calls[0].walker, calls[0].frames).state, calls[1..])
  }

  /** How many of the calls were allocations that succeeded. */
  function Successes(st: State, calls: seq<Call>): nat
    decreases |calls|
  {
    if |calls| == 0 then 0
    else
      var r := Dispatch(calls[0].cmd, st, calls[0].walker, calls[0].frames);
      (if calls[0].cmd.Allocate? && r.status == 0 then 1 else 0) + Successes(r.state, calls[1..])
  }

  /** The counters stay within their ceilings over any run of calls whose
      page counts are non-negative. */
  lemma {:induction false} ReplayKeepsCeilings(st: State, calls: seq<Call>)
    requires WithinCeilings(st.counters)
    requires forall i :: 0 <= i < |calls| ==> NonNegativeCount(calls[i].cmd)
    ensures WithinCeilings(Replay(st, calls).counters)
    decreases |calls|
  {
    if |calls| > 0 {
      DispatchKeepsCeilings(calls[0].cmd, st, calls[0].walker, calls[0].frames);
      ReplayKeepsCeilings(Dispatch(calls[0].cmd, st, calls[0].walker, calls[0].frames).state, calls[1..]);
    }
  }

  /** The request counter counts exactly the successful allocations: FREE
      never gives a request back. */
  lemma {:induction false} RequestsCountSuccesses(st: State, calls: seq<Call>)
    ensures Replay(st, calls).counters.requests == st.counters.requests + Successes(st, calls)
    decreases |calls|
  {
    if |calls| > 0 {
      RequestsCountSuccesses(Dispatch(calls[0].cmd, st, calls[0].walker, calls[0].frames).state, calls[1..]);
    }
  }

  /** Once a page is present no call replaces or removes its entry. */
  lemma {:induction false} ReplayKeepsPresent(st: State, calls: seq<Call>, v: nat)
    requires EntryAt(st.pages, v).Present?
    ensures EntryAt(Replay(st, calls).pages, v) == EntryAt(st.pages, v)
    decreases |calls|
  {
    if |calls| > 0 {
      var c := calls[0];
      var r := Dispatch(c.cmd, st, c.walker, c.frames);
      if c.cmd.Allocate? && c.cmd.info.Some? {
        PresentStaysPresent(c.cmd.info.value, c.walker, c.frames, st.pages, v);
      }
      assert EntryAt(r.state.pages, v) == EntryAt(st.pages, v);
      ReplayKeepsPresent(r.state, calls[1..], v);
    }
  }

  /** After 100 successful allocations from the initial state, every further
      allocation is refused by a quota, whatever it asks for. */
  lemma RequestQuotaExhausted(calls: seq<Call>, req: Request, w: Walker, frames: seq<Option<nat>>)
    requires Successes(State(Initial, map[]), calls) == MAX_ALLOCATIONS
    ensures Dispatch(Allocate(Some(req)), Replay(State(Initial, map[]), calls), w, frames).status
              in {PAGE_QUOTA_STATUS, REQUEST_QUOTA_STATUS}
  {
    RequestsCountSuccesses(State(Initial, map[]), calls);
  }

  /** Two pages at 0x1000 on an empty address space, writable: both pages
      get the allocator's frames read-write and the request is booked. */
  lemma TwoFreshPages(f0: nat, f1: nat)
    ensures var st := State(Initial, map[]);
            Dispatch(Allocate(Some(Request(0x1000, 2, true))), st, Walker({}, {}), [Some(f0), Some(f1)]) ==
              Reply(0, State(Counters(2, 1), map[1 := Present(f0, true), 2 := Present(f1, true)]))
  {
  }
}
