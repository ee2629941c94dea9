/**
 * The page allocator's state as a value, and each operation of
 * kernel/kalloc.c as a function from the old state to the new one.
 * The class in module Kalloc is proved to follow these functions; the
 * properties of the allocator are proved about them in module FrameLemmas.
 */
module FrameSpec {
  import opened Layout

  /**
   * The allocator's state:
   *  - refcount[i]: the `refcounter` entry of page index i;
   *  - free: the page indices on `kmem.freelist`, head first;
   *  - zeroed[i]: page i was zero-filled by the allocator. While page i is
   *    on the free list its first word holds the list link, which this
   *    model keeps apart (in the `next` array of module Kalloc), so the
   *    flag speaks of the rest of the page.
   */
  datatype Frames = Frames(refcount: seq<int>, free: seq<nat>, zeroed: seq<bool>)

  /** The three `panic` calls of the allocator. */
  datatype Panic =
    | BadFree          // panic("kfree"): misaligned or outside [end, PHYSTOP)
    | FreeOfFreePage   // panic("kfree panic"): refcount already below 1
    | FreeListCorrupt  // panic("refcounter kalloc panic"): free page in use

  /** An operation either returns normally with a value or halts the kernel. */
  datatype Step<T> = Ok(value: T) | Fatal(why: Panic)

  /** Table sizes match the address space and free entries index the table. */
  ghost predicate Shaped(s: Frames)
  {
    |s.refcount| == NPAGES && |s.zeroed| == NPAGES &&
    forall k :: 0 <= k < |s.free| ==> s.free[k] < NPAGES
  }

  /** Page index i lies in [end, PHYSTOP): kfree accepts its address. */
  predicate Managed(end: nat, i: int)
  {
    0 <= i && end <= i * PGSIZE < PHYSTOP
  }

  /** Index of the first managed page, PGROUNDUP(end) / PGSIZE. */
  function FirstPage(end: nat): (first: nat)
    requires end <= PHYSTOP
    ensures first <= NPAGES
  {
    PgRoundUp(end) / PGSIZE
  }

  /** The managed pages are exactly the indices FirstPage(end) .. NPAGES-1. */
  lemma ManagedIff(end: nat, i: int)
    requires end <= PHYSTOP
    ensures Managed(end, i) <==> FirstPage(end) <= i < NPAGES
  {
    if 0 <= i && end <= i * PGSIZE { RoundUpIsLeast(end, i); }
  }

  /** The entries in `s.free` are pairwise distinct. */
  ghost predicate Distinct(free: seq<nat>)
  {
    forall j, k :: 0 <= j < k < |free| ==> free[j] != free[k]
  }

  /**
   * The allocator invariant that every operation preserves:
   *  - `end` lies in RAM, above KERNBASE;
   *  - no count is negative;
   *  - pages outside [end, PHYSTOP) never acquire a count;
   *  - every page on the free list is managed, has count 0, and appears once.
   */
  ghost predicate Inv(s: Frames, end: nat)
  {
    Shaped(s) &&
    KERNBASE <= end <= PHYSTOP &&
    (forall i :: 0 <= i < NPAGES ==> s.refcount[i] >= 0) &&
    (forall i :: 0 <= i < NPAGES && !Managed(end, i) ==> s.refcount[i] == 0) &&
    (forall k :: 0 <= k < |s.free| ==> Managed(end, s.free[k]) && s.refcount[s.free[k]] == 0) &&
    Distinct(s.free)
  }

  /**
   * The converse direction, which refCountDecrement can break: every
   * managed page whose count is 0 is on the free list.
   */
  ghost predicate Tight(s: Frames, end: nat)
    requires Shaped(s)
  {
    forall i :: 0 <= i < NPAGES && Managed(end, i) && s.refcount[i] == 0 ==> i in s.free
  }

  /** Number of table entries with a count of at least 1 (pages in use). */
  function Live(rc: seq<int>): (n: nat)
    ensures n <= |rc|
  {
    if rc == [] then 0 else (if rc[0] >= 1 then 1 else 0) + Live(rc[1..])
  }

  /** The address kfree accepts before it touches the table. */
  predicate FreeableAddress(end: nat, pa: nat)
  {
    pa % PGSIZE == 0 && end <= pa < PHYSTOP
  }

  /** kfree(pa): decrement; on reaching 0, zero the page and push it. */
  function KFree(s: Frames, end: nat, pa: nat): (r: Step<Frames>)
    requires Shaped(s)
    ensures r == Fatal(BadFree) <==> !FreeableAddress(end, pa)
    ensures r.Ok? ==> Shaped(r.value) && |s.free| <= |r.value.free| <= |s.free| + 1
  {
    if pa % PGSIZE != 0 || pa < end || pa >= PHYSTOP then Fatal(BadFree)
    else
      var i := pa / PGSIZE;
      if s.refcount[i] < 1 then Fatal(FreeOfFreePage)
      else
        var count := s.refcount[i] - 1;
        if count > 0 then Ok(s.(refcount := s.refcount[i := count]))
        else Ok(Frames(s.refcount[i := count], [i] + s.free, s.zeroed[i := true]))
  }

  /**
   * kalloc(): the address of the popped page, or 0 when the list is
   * empty, together with the new state.
   */
  function KAlloc(s: Frames): (r: Step<(nat, Frames)>)
    requires Shaped(s)
    ensures r.Fatal? ==> r.why == FreeListCorrupt && s.free != []
    ensures r.Ok? ==> Shaped(r.value.1) && r.value.0 % PGSIZE == 0 && r.value.0 < PHYSTOP
    ensures r.Ok? && s.free != [] ==>
      r.value.1.free == s.free[1..] && r.value.1.refcount[s.free[0]] == 1 && r.value.0 / PGSIZE == s.free[0]
  {
    if s.free == [] then Ok((0, s))
    else
      var i := s.free[0];
      if s.refcount[i] != 0 then Fatal(FreeListCorrupt)
      else Ok((i * PGSIZE, Frames(s.refcount[i := 1], s.free[1..], s.zeroed[i := true])))
  }

  /**
   * refCountIncrement(address), with the corrected range test: whether the
   * count was changed, and the new state. The free list is never touched.
   */
  function Increment(s: Frames, address: nat): (r: (bool, Frames))
    requires Shaped(s)
    ensures Shaped(r.1) && r.1.free == s.free && r.1.zeroed == s.zeroed
    ensures r.0 <==> InRange(address) && s.refcount[address / PGSIZE] >= 1
    ensures !r.0 ==> r.1 == s
  {
    var i := address / PGSIZE;
    if !InRange(address) || s.refcount[i] < 1 then (false, s)
    else (true, s.(refcount := s.refcount[i := s.refcount[i] + 1]))
  }

  /**
   * refCountDecrement(address), with the corrected range test: whether the
   * count was changed, and the new state. The free list is never touched,
   * even when the count reaches 0.
   */
  function Decrement(s: Frames, address: nat): (r: (bool, Frames))
    requires Shaped(s)
    ensures Shaped(r.1) && r.1.free == s.free && r.1.zeroed == s.zeroed
    ensures r.0 <==> InRange(address) && s.refcount[address / PGSIZE] >= 1
    ensures !r.0 ==> r.1 == s
  {
    var i := address / PGSIZE;
    if !InRange(address) || s.refcount[i] < 1 then (false, s)
    else (true, s.(refcount := s.refcount[i := s.refcount[i] - 1]))
  }

  /** getRefCount(address), with the corrected range test; -1 when out of range. */
  function RefCount(s: Frames, address: nat): (c: int)
    requires Shaped(s)
    ensures !InRange(address) ==> c == -1
    ensures InRange(address) ==> c == s.refcount[address / PGSIZE]
  {
    if !InRange(address) then -1 else s.refcount[address / PGSIZE]
  }

  /**
   * The state freerange leaves after visiting pages first .. first+n-1 in
   * ascending order: each is given count 1 and then released through kfree.
   */
  function Seed(s: Frames, end: nat, first: nat, n: nat): (r: Frames)
    requires Shaped(s) && (n > 0 ==> end <= first * PGSIZE && first + n <= NPAGES)
    ensures Shaped(r)
    ensures |r.free| == |s.free| + n
    decreases n
  {
    if n == 0 then s
    else
      var t := Seed(s, end, first, n - 1);
      var p := first + n - 1;
      KFree(t.(refcount := t.refcount[p := 1]), end, p * PGSIZE).value
  }

  /**
   * freerange may be given pages first .. first+n-1 on state s: kfree
   * accepts each of them (all lie in [end, PHYSTOP)) and none of them is
   * already on the free list.
   */
  ghost predicate SeedableRange(s: Frames, end: nat, first: nat, n: nat)
  {
    (n > 0 ==> end <= first * PGSIZE && first + n <= NPAGES) &&
    forall j :: 0 <= j < |s.free| ==> !(first <= s.free[j] < first + n)
  }

  /** Number of whole pages freerange(start, stop) visits. */
  function PagesIn(start: nat, stop: nat): nat
  {
    var p := PgRoundUp(start);
    if p + PGSIZE <= stop then (stop - p) / PGSIZE else 0
  }

  /** The page indices [first + n - 1, ..., first]: the order seeding pushes them. */
  function Descending(first: nat, n: nat): (r: seq<nat>)
    ensures |r| == n
  {
    if n == 0 then [] else [first + n - 1] + Descending(first, n - 1)
  }

  /** The state right after boot, before kinit: all counts 0, list empty. */
  function Blank(): (s: Frames)
    ensures Shaped(s) && s.free == []
    ensures forall i :: 0 <= i < NPAGES ==> s.refcount[i] == 0 && !s.zeroed[i]
  {
    Frames(seq(NPAGES, _ => 0), [], seq(NPAGES, _ => false))
  }

  /** kinit(): freerange(end, PHYSTOP) on the blank state. */
  function Boot(end: nat): (s: Frames)
    requires end <= PHYSTOP
    ensures Shaped(s) && |s.free| == NPAGES - FirstPage(end)
  {
    var first := FirstPage(end);
    Seed(Blank(), end, first, NPAGES - first)
  }

  /** The operations a caller of the allocator can issue after kinit. */
  datatype Op = Alloc | Free(pa: nat) | Inc(address: nat) | Dec(address: nat)

  /** One operation; the address kalloc returns is dropped. */
  function Apply(s: Frames, end: nat, op: Op): (r: Step<Frames>)
    requires Shaped(s)
    ensures r.Ok? ==> Shaped(r.value)
  {
    match op
    case Alloc => (match KAlloc(s) case Ok(v) => Ok(v.1) case Fatal(why) => Fatal(why))
    case Free(pa) => KFree(s, end, pa)
    case Inc(address) => Ok(Increment(s, address).1)
    case Dec(address) => Ok(Decrement(s, address).1)
  }

  /** A sequence of operations, stopping at the first panic. */
  function Run(s: Frames, end: nat, ops: seq<Op>): (r: Step<Frames>)
    requires Shaped(s)
    ensures r.Ok? ==> Shaped(r.value)
    decreases |ops|
  {
    if ops == [] then Ok(s)
    else match Apply(s, end, ops[0])
      case Fatal(why) => Fatal(why)
      case Ok(t) => Run(t, end, ops[1..])
  }
}
