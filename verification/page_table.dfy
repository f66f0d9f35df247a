/** The calling process's address space, abstracted to what the allocator
    can observe: one leaf entry per virtual page number, plus the outcome
    of walking the radix table down to that leaf. */
module PageTable {

  /** Bytes per page; the model fixes the x86-64 value. */
  const PAGE_SIZE: nat := 4096

  /** The state of one leaf entry (pte).
      - Empty: `pte_none` holds, nothing is recorded for the page;
      - Present: backed by physical frame `frame`, read-write iff `writable`;
      - NonPresent: something is recorded (a swap or migration entry, say)
        but `pte_present` is false. */
  datatype Entry = Empty | Present(frame: nat, writable: bool) | NonPresent

  /** Leaf entries by virtual page number; a page without a key is Empty. */
  type Mappings = map<nat, Entry>

  function EntryAt(m: Mappings, vpn: nat): Entry
  {
    if vpn in m then m[vpn] else Empty
  }

  /** Overwrites the leaf entry of one page (`set_pte_at`). */
  function Install(m: Mappings, vpn: nat, e: Entry): (m': Mappings)
    ensures EntryAt(m', vpn) == e
    ensures forall v: nat :: v != vpn ==> EntryAt(m', v) == EntryAt(m, v)
  {
    m[vpn := e]
  }

  /** The virtual page an address lies in. */
  function PageNumber(addr: nat): nat
  {
    addr / PAGE_SIZE
  }

  /** The address of the i-th page of a range starting at `vaddr`. */
  function PageAddress(vaddr: nat, i: nat): nat
  {
    vaddr + i * PAGE_SIZE
  }

  /** Stepping the address by i pages steps the page number by i, whatever
      the offset of `vaddr` inside its page. */
  lemma PageNumberOfPageAddress(vaddr: nat, i: nat)
    ensures PageNumber(PageAddress(vaddr, i)) == PageNumber(vaddr) + i
  {
  }

  /** What the table walk finds for each page during one request. The
      radix-table primitives are not modelled; their observable outcome is:
      - `badOuter`: pages whose top-level entry is none or bad, for which
        the walk gives up before creating anything;
      - `unresolvable`: pages whose leaf-entry pointer is null once the
        intermediate levels have been (re)created.
      Creating an intermediate level never fails from the walk's point of
      view: its result is not inspected. */
  datatype Walker = Walker(badOuter: set<nat>, unresolvable: set<nat>)

  /** The result of walking to the leaf of one page. */
  datatype WalkResult = OuterInvalid | LeafUnresolvable | Leaf(entry: Entry)

  function Walk(w: Walker, m: Mappings, vpn: nat): (r: WalkResult)
    ensures r.Leaf? <==> vpn !in w.badOuter && vpn !in w.unresolvable
    ensures r.Leaf? ==> r.entry == EntryAt(m, vpn)
    ensures r == OuterInvalid <==> vpn in w.badOuter
  {
    if vpn in w.badOuter then OuterInvalid
    else if vpn in w.unresolvable then LeafUnresolvable
    else Leaf(EntryAt(m, vpn))
  }
}
