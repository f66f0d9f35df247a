/** The mapping engine of an ALLOCATE request: the pages of the range are
    visited in increasing address order; each one is walked to its leaf
    entry and then mapped, rejected or skipped. The first fault ends the
    request, and the pages mapped before it stay mapped. */
module Mapping {
  import opened Wrappers
  import opened PageTable

  /** `struct alloc_info` as copied from the caller: first address of the
      range, number of pages (a C `int`, never checked for sign) and
      whether the new mappings are writable. */
  datatype Request = Request(vaddr: nat, numPages: int, write: bool)

  /** Why a page stops the request. */
  datatype Fault =
    | BadOuterEntry     // top-level entry none or bad
    | UnresolvableLeaf  // no leaf entry after the intermediate levels
    | OutOfMemory       // the zeroed-page allocator returned nothing
    | AlreadyMapped     // the leaf is present

  /** The answer of the n-th call to the zeroed-page allocator during the
      request (counting from 0); calls past the end of `frames` fail. */
  function Frame(frames: seq<Option<nat>>, n: nat): Option<nat>
  {
    if n < |frames| then frames[n] else None
  }

  /** The page number of the i-th page of the request. */
  function PageOf(req: Request, i: nat): nat
  {
    PageNumber(req.vaddr) + i
  }

  /** Page i of the request is the page that holds the loop's address
      `vaddr + i*PAGE_SIZE`. */
  lemma PageOfHoldsPageAddress(req: Request, i: nat)
    ensures PageOf(req, i) == PageNumber(PageAddress(req.vaddr, i))
  {
    PageNumberOfPageAddress(req.vaddr, i);
  }

  /** How many pages the loop visits: none for a count below 1. */
  function PageCount(req: Request): nat
  {
    if req.numPages < 0 then 0 else req.numPages
  }

  /** The effect of one page on the mappings, with the number of allocator
      calls made so far. */
  datatype Step = Stepped(pages: Mappings, used: nat) | Faulted(fault: Fault)

  /** One iteration of the loop, for page i, after `used` allocator calls. */
  function MapPage(req: Request, w: Walker, frames: seq<Option<nat>>,
                   i: nat, used: nat, pages: Mappings): (r: Step)
    // the walk gives up first on the outer entry, then on the leaf pointer
    ensures r == Faulted(BadOuterEntry) <==> PageOf(req, i) in w.badOuter
    ensures r == Faulted(UnresolvableLeaf) <==>
              PageOf(req, i) !in w.badOuter && PageOf(req, i) in w.unresolvable
    // a reachable leaf: present fails, empty gets the next frame (writable
    // iff requested) or fails for want of one, recorded-but-absent is skipped
    ensures PageOf(req, i) !in w.badOuter && PageOf(req, i) !in w.unresolvable ==>
              match EntryAt(pages, PageOf(req, i))
              case Present(_, _) => r == Faulted(AlreadyMapped)
              case Empty =>
                (match Frame(frames, used)
                 case None => r == Faulted(OutOfMemory)
                 case Some(f) =>
                   && r.Stepped?
                   && EntryAt(r.pages, PageOf(req, i)) == Present(f, req.write)
                   && r.used == used + 1)
              case NonPresent => r == Stepped(pages, used)
    // no other page changes
    ensures r.Stepped? ==>
              forall v: nat :: v != PageOf(req, i) ==> EntryAt(r.pages, v) == EntryAt(pages, v)
  {
    var vpn := PageOf(req, i);
    match Walk(w, pages, vpn)
    case OuterInvalid => Faulted(BadOuterEntry)
    case LeafUnresolvable => Faulted(UnresolvableLeaf)
    case Leaf(Empty) =>
      (match Frame(frames, used)
       case None => Faulted(OutOfMemory)
       case Some(f) => Stepped(Install(pages, vpn, Present(f, req.write)), used + 1))
    case Leaf(Present(_, _)) => Faulted(AlreadyMapped)
    case Leaf(NonPresent) => Stepped(pages, used)
  }

  /** How the loop ends: every page done, or a fault at page `at`. */
  datatype Outcome =
    | Completed(pages: Mappings)
    | Aborted(at: nat, fault: Fault, pages: Mappings)

  /** The loop from page i on, after `used` allocator calls. */
  function MapFrom(req: Request, w: Walker, frames: seq<Option<nat>>,
                   i: nat, used: nat, pages: Mappings): (r: Outcome)
    ensures r.Aborted? ==> i <= r.at < req.numPages
    decreases req.numPages - i
  {
    if i >= req.numPages then Completed(pages)
    else match MapPage(req, w, frames, i, used, pages)
      case Faulted(f) => Aborted(i, f, pages)
      case Stepped(pages', used') => MapFrom(req, w, frames, i + 1, used', pages')
  }

  /** The whole loop, from page 0 with no allocator call made yet. */
  function MapRange(req: Request, w: Walker, frames: seq<Option<nat>>, pages: Mappings): (r: Outcome)
    ensures r.Aborted? ==> r.at < PageCount(req)
  {
    MapFrom(req, w, frames, 0, 0, pages)
  }

  // ---------------------------------------------------------------------
  // Reference: each page decided on its own against the state before the
  // request, the k-th page getting the allocator call numbered by the
  // empty pages in front of it.
  // ---------------------------------------------------------------------

  /** How many of the first k pages of the range were Empty before the
      request: the allocator calls the loop makes before page k. */
  function EmptyBefore(req: Request, pages: Mappings, k: nat): nat
    decreases k
  {
    if k == 0 then 0
    else EmptyBefore(req, pages, k - 1) + (if EntryAt(pages, PageOf(req, k - 1)) == Empty then 1 else 0)
  }

  /** The fault page k raises, judged against the state before the request. */
  function FaultAt(req: Request, w: Walker, frames: seq<Option<nat>>, pages: Mappings, k: nat): Option<Fault>
  {
    var vpn := PageOf(req, k);
    if vpn in w.badOuter then Some(BadOuterEntry)
    else if vpn in w.unresolvable then Some(UnresolvableLeaf)
    else match EntryAt(pages, vpn)
      case Present(_, _) => Some(AlreadyMapped)
      case Empty => if Frame(frames, EmptyBefore(req, pages, k)).None? then Some(OutOfMemory) else None
      case NonPresent => None
  }

  /** The leaf entry page k holds once the loop has passed it without a
      fault: an empty page holds its frame with the requested permission,
      any other page is as it was. */
  function Installed(req: Request, frames: seq<Option<nat>>, pages: Mappings, k: nat): Entry
  {
    match EntryAt(pages, PageOf(req, k))
    case Empty =>
      (match Frame(frames, EmptyBefore(req, pages, k))
       case Some(f) => Present(f, req.write)
       case None => Empty)
    case e => e
  }

  /** None of the first n pages faults. */
  ghost predicate NoFaultBefore(req: Request, w: Walker, frames: seq<Option<nat>>, pages: Mappings, n: nat)
  {
    forall k: nat :: k < n ==> FaultAt(req, w, frames, pages, k).None?
  }

  /** `cur` is `pages` with the first n pages of the range installed and
      every other page, inside the range or not, as it was. */
  ghost predicate AgreesUpTo(req: Request, frames: seq<Option<nat>>, pages: Mappings,
                             n: nat, cur: Mappings)
  {
    && (forall k: nat {:trigger Installed(req, frames, pages, k)} :: k < n ==>
          EntryAt(cur, PageOf(req, k)) == Installed(req, frames, pages, k))
    && (forall v: nat {:trigger EntryAt(cur, v)} :: v < PageNumber(req.vaddr) || PageNumber(req.vaddr) + n <= v ==>
          EntryAt(cur, v) == EntryAt(pages, v))
  }

  /** Installing page i on top of the first i pages extends the agreement
      with the reference to the first i + 1 pages. */
  lemma StepKeepsAgreement(req: Request, frames: seq<Option<nat>>, pages: Mappings,
                           i: nat, cur: Mappings, cur': Mappings)
    requires AgreesUpTo(req, frames, pages, i, cur)
    requires EntryAt(cur', PageOf(req, i)) == Installed(req, frames, pages, i)
    requires forall v: nat :: v != PageOf(req, i) ==> EntryAt(cur', v) == EntryAt(cur, v)
    ensures AgreesUpTo(req, frames, pages, i + 1, cur')
  {
    forall k: nat | k < i + 1
      ensures EntryAt(cur', PageOf(req, k)) == Installed(req, frames, pages, k)
    {
      if k < i {
        assert PageOf(req, k) != PageOf(req, i);
      }
    }
  }

  /** The loop, entered at page i with the first i pages handled as the
      reference says, ends as the reference says. */
  lemma {:induction false} MapFromMatchesReference(req: Request, w: Walker, frames: seq<Option<nat>>,
                                                   pages: Mappings, i: nat, used: nat, cur: Mappings)
    requires i == 0 || i <= req.numPages
    requires used == EmptyBefore(req, pages, i)
    requires NoFaultBefore(req, w, frames, pages, i)
    requires AgreesUpTo(req, frames, pages, i, cur)
    ensures var r := MapFrom(req, w, frames, i, used, cur);
            && (r.Completed? <==> NoFaultBefore(req, w, frames, pages, PageCount(req)))
            && (r.Completed? ==> AgreesUpTo(req, frames, pages, PageCount(req), r.pages))
            && (r.Aborted? ==>
                  && r.at < PageCount(req)
                  && NoFaultBefore(req, w, frames, pages, r.at)
                  && FaultAt(req, w, frames, pages, r.at) == Some(r.fault)
                  && AgreesUpTo(req, frames, pages, r.at, r.pages))
    decreases req.numPages - i
  {
    if i >= req.numPages {
      assert i == PageCount(req);
    } else {
      var vpn := PageOf(req, i);
      assert EntryAt(cur, vpn) == EntryAt(pages, vpn);
      match MapPage(req, w, frames, i, used, cur)
      case Faulted(f) => {
        assert FaultAt(req, w, frames, pages, i) == Some(f);
      }
      case Stepped(cur', used') => {
        assert FaultAt(req, w, frames, pages, i).None?;
        assert EntryAt(cur', vpn) == Installed(req, frames, pages, i);
        assert used' == EmptyBefore(req, pages, i + 1);
        StepKeepsAgreement(req, frames, pages, i, cur, cur');
        MapFromMatchesReference(req, w, frames, pages, i + 1, used', cur');
      }
    }
  }

  /** The whole loop against the reference: it completes iff no page of the
      range faults; otherwise it stops at the first faulting page with that
      page's fault, every page before it installed and every page from it
      on as it was (no rollback, no look-ahead). */
  lemma MapRangeMatchesReference(req: Request, w: Walker, frames: seq<Option<nat>>, pages: Mappings)
    ensures var r := MapRange(req, w, frames, pages);
            && (r.Completed? <==> NoFaultBefore(req, w, frames, pages, PageCount(req)))
            && (r.Completed? ==> AgreesUpTo(req, frames, pages, PageCount(req), r.pages))
            && (r.Aborted? ==>
                  && r.at < PageCount(req)
                  && NoFaultBefore(req, w, frames, pages, r.at)
                  && FaultAt(req, w, frames, pages, r.at) == Some(r.fault)
                  && AgreesUpTo(req, frames, pages, r.at, r.pages))
  {
    MapFromMatchesReference(req, w, frames, pages, 0, 0, pages);
  }

  /** A failing request keeps what it did: the pages before the failing one
      hold their new entries, the failing page and all pages after it are
      untouched. */
  lemma NoRollback(req: Request, w: Walker, frames: seq<Option<nat>>, pages: Mappings)
    requires MapRange(req, w, frames, pages).Aborted?
    ensures var r := MapRange(req, w, frames, pages);
            && (forall k: nat :: k < r.at && EntryAt(pages, PageOf(req, k)) == Empty ==>
                  && EntryAt(r.pages, PageOf(req, k)).Present?
                  && EntryAt(r.pages, PageOf(req, k)).writable == req.write
                  && Frame(frames, EmptyBefore(req, pages, k)) == Some(EntryAt(r.pages, PageOf(req, k)).frame))
            && (forall k: nat :: r.at <= k < PageCount(req) ==>
                  EntryAt(r.pages, PageOf(req, k)) == EntryAt(pages, PageOf(req, k)))
  {
    MapRangeMatchesReference(req, w, frames, pages);
    var r := MapRange(req, w, frames, pages);
    forall k: nat | k < r.at && EntryAt(pages, PageOf(req, k)) == Empty
      ensures EntryAt(r.pages, PageOf(req, k)) == Installed(req, frames, pages, k)
      ensures Frame(frames, EmptyBefore(req, pages, k)).Some?
    {
      assert FaultAt(req, w, frames, pages, k).None?;
    }
    forall k: nat | r.at <= k < PageCount(req)
      ensures EntryAt(r.pages, PageOf(req, k)) == EntryAt(pages, PageOf(req, k))
    {
      assert PageNumber(req.vaddr) + r.at <= PageOf(req, k);
    }
  }

  /** A request whose range holds a present page fails, at that page or at
      an earlier one. */
  lemma PresentPageAborts(req: Request, w: Walker, frames: seq<Option<nat>>, pages: Mappings, k: nat)
    requires k < req.numPages && EntryAt(pages, PageOf(req, k)).Present?
    ensures MapRange(req, w, frames, pages).Aborted?
    ensures MapRange(req, w, frames, pages).at <= k
  {
    MapRangeMatchesReference(req, w, frames, pages);
    assert FaultAt(req, w, frames, pages, k).Some?;
  }

  /** On success every page of the range is mapped or left non-present:
      none was present before, and each empty one now holds a frame with
      the requested permission. */
  lemma CompletedMapsRange(req: Request, w: Walker, frames: seq<Option<nat>>, pages: Mappings)
    requires MapRange(req, w, frames, pages).Completed?
    ensures var r := MapRange(req, w, frames, pages);
            forall k: nat :: k < PageCount(req) ==>
              && !EntryAt(pages, PageOf(req, k)).Present?
              && (EntryAt(pages, PageOf(req, k)) == Empty ==>
                    && EntryAt(r.pages, PageOf(req, k)).Present?
                    && EntryAt(r.pages, PageOf(req, k)).writable == req.write
                    && Frame(frames, EmptyBefore(req, pages, k)) == Some(EntryAt(r.pages, PageOf(req, k)).frame))
              && (EntryAt(pages, PageOf(req, k)) == NonPresent ==>
                    EntryAt(r.pages, PageOf(req, k)) == NonPresent)
  {
    MapRangeMatchesReference(req, w, frames, pages);
    var r := MapRange(req, w, frames, pages);
    forall k: nat | k < PageCount(req)
      ensures !EntryAt(pages, PageOf(req, k)).Present?
      ensures EntryAt(r.pages, PageOf(req, k)) == Installed(req, frames, pages, k)
      ensures EntryAt(pages, PageOf(req, k)) == Empty ==> Frame(frames, EmptyBefore(req, pages, k)).Some?
    {
      assert FaultAt(req, w, frames, pages, k).None?;
    }
  }

  /** The loop never overwrites a present leaf, whatever the outcome. */
  lemma PresentStaysPresent(req: Request, w: Walker, frames: seq<Option<nat>>, pages: Mappings, v: nat)
    requires EntryAt(pages, v).Present?
    ensures EntryAt(MapRange(req, w, frames, pages).pages, v) == EntryAt(pages, v)
  {
    MapRangeMatchesReference(req, w, frames, pages);
    var r := MapRange(req, w, frames, pages);
    var n := if r.Completed? then PageCount(req) else r.at;
    assert AgreesUpTo(req, frames, pages, n, r.pages);
    if PageNumber(req.vaddr) <= v < PageNumber(req.vaddr) + n {
      var k: nat := v - PageNumber(req.vaddr);
      assert PageOf(req, k) == v;
      assert EntryAt(r.pages, v) == Installed(req, frames, pages, k);
    }
  }

  /** Empty pages take allocator calls in page order, each its own call. */
  lemma {:induction false} EmptyBeforeIncreases(req: Request, pages: Mappings, j: nat, k: nat)
    requires j < k && EntryAt(pages, PageOf(req, j)) == Empty
    ensures EmptyBefore(req, pages, j) < EmptyBefore(req, pages, k)
    decreases k
  {
    if j < k - 1 {
      EmptyBeforeIncreases(req, pages, j, k - 1);
    }
  }
}
