/**
 * The allocator of kernel/kalloc.c as an object: the `refcounter` table, the
 * intrusive free list `kmem.freelist` (its `next` links kept per page), and a
 * per-page flag standing for the page having been zero-filled by memset.
 * Each method follows the corresponding function of FrameSpec.
 */
module Kalloc {
  import opened Layout
  import opened FrameSpec
  import FrameLemmas

  /** How a call that may panic ends. */
  datatype Outcome = Returned | Panicked(why: Panic)

  /** The link the k-th page of `free` holds: the next page's address, or 0 for the last. */
  function LinkOf(free: seq<nat>, k: nat): int
  {
    if k + 1 < |free| then free[k + 1] * PGSIZE else 0
  }

  /**
   * The linked list starting at address `head` visits exactly the pages of
   * `free`, in order: each page's link holds the address of the next page,
   * and the last link, like an empty list's head, is 0 (null).
   */
  ghost predicate Linked(head: int, next: seq<int>, free: seq<nat>)
  {
    (head == if free == [] then 0 else free[0] * PGSIZE) &&
    (forall k :: 0 <= k < |free| ==> free[k] < |next|) &&
    forall k {:trigger next[free[k]]} :: 0 <= k < |free| ==> next[free[k]] == LinkOf(free, k)
  }

  /** Popping the head: the list continues at the head's link. */
  lemma LinkedTail(head: int, next: seq<int>, free: seq<nat>)
    requires Linked(head, next, free) && free != []
    ensures free[0] < |next| && Linked(next[free[0]], next, free[1..])
  {
    var tail := free[1..];
    assert next[free[0]] == LinkOf(free, 0);
    forall k | 0 <= k < |tail|
      ensures tail[k] < |next| && next[tail[k]] == LinkOf(tail, k)
    {
      assert tail[k] == free[k + 1];
      assert next[free[k + 1]] == LinkOf(free, k + 1);
    }
  }

  /** Pushing page i, not yet on the list, whose link is set to the old head. */
  lemma LinkedPush(head: int, next: seq<int>, free: seq<nat>, i: nat)
    requires Linked(head, next, free) && i < |next| && i !in free
    ensures Linked(i * PGSIZE, next[i := head], [i] + free)
  {
    var free', next' := [i] + free, next[i := head];
    forall k | 0 <= k < |free'|
      ensures free'[k] < |next'| && next'[free'[k]] == LinkOf(free', k)
    {
      if k > 0 {
        assert free'[k] == free[k - 1];
        assert next[free[k - 1]] == LinkOf(free, k - 1);
      }
    }
  }

  class Kmem {
    /** `end`: the first address after the kernel image. */
    const end: nat
    /** `refcounter`: one count per page index below PHYSTOP. */
    var refcounter: array<int>
    /** `struct run.next` of each free page: the next page's address, or 0. */
    var next: array<int>
    /**
     * Whether the allocator zero-filled each page. A free page's first word
     * holds its link, kept here in `next`; the flag covers the rest.
     */
    var zeroed: array<bool>
    /** `kmem.freelist`: the address of the first free page, or 0. */
    var freelist: nat
    /** The page indices on the free list, head first. */
    ghost var free: seq<nat>

    /** The state as a FrameSpec value. */
    ghost function Abs(): Frames
      reads this, refcounter, zeroed
    {
      Frames(refcounter[..], free, zeroed[..])
    }

    ghost predicate Valid()
      reads this, refcounter, next, zeroed
    {
      refcounter.Length == NPAGES && next.Length == NPAGES && zeroed.Length == NPAGES &&
      refcounter != next &&
      Inv(Abs(), end) &&
      Linked(freelist, next[..], free)
    }

    /**
     * kinit(): the table starts zeroed and the list empty, as C globals do;
     * freerange(end, PHYSTOP) then puts every managed page on the list.
     */
    constructor (kernelEnd: nat)
      requires KERNBASE <= kernelEnd <= PHYSTOP
      ensures Valid() && end == kernelEnd
      ensures Abs() == Boot(kernelEnd)
      ensures fresh(refcounter) && fresh(next) && fresh(zeroed)
    {
      end := kernelEnd;
      refcounter := new int[NPAGES](_ => 0);
      next := new int[NPAGES](_ => 0);
      zeroed := new bool[NPAGES](_ => false);
      freelist := 0;
      free := [];
      new;
      assert Abs() == Blank();
      FrameLemmas.PagesToTop(kernelEnd);
      FreeRange(kernelEnd, PHYSTOP);
    }

    /**
     * freerange(paStart, paEnd): every whole page from PGROUNDUP(paStart)
     * that ends at or before paEnd gets count 1 and is passed to kfree.
     * The caller must not pass a range whose pages kfree would reject
     * (that panics) or that are already on the free list.
     */
    method FreeRange(paStart: nat, paEnd: nat)
      requires Valid()
      requires SeedableRange(Abs(), end, PgRoundUp(paStart) / PGSIZE, PagesIn(paStart, paEnd))
      modifies this`freelist, this`free, refcounter, next, zeroed
      ensures Valid()
      ensures Abs() == Seed(old(Abs()), end, PgRoundUp(paStart) / PGSIZE, PagesIn(paStart, paEnd))
    {
      var p := PgRoundUp(paStart);
      ghost var first, n := p / PGSIZE, PagesIn(paStart, paEnd);
      ghost var s0 := Abs();
      ghost var k := 0;
      FrameLemmas.PageAddress(p);
      while p + PGSIZE <= paEnd
        invariant Valid()
        invariant k <= n && p == (first + k) * PGSIZE
        invariant Abs() == Seed(s0, end, first, k)
        decreases paEnd - p
      {
        FrameLemmas.PagesInCounts(paStart, paEnd, k);
        SeedPage(p, s0, first, n, k);
        p := p + PGSIZE;
        k := k + 1;
      }
      FrameLemmas.PagesInCounts(paStart, paEnd, k);
      assert k == n;
    }

    /**
     * The body of freerange's loop, `refcounter[p / PGSIZE] = 1; kfree(p)`,
     * at the k-th page of the range: kfree returns normally and the state
     * is the next seeded one.
     */
    method SeedPage(p: nat, ghost s0: Frames, ghost first: nat, ghost n: nat, ghost k: nat)
      requires Valid() && Shaped(s0) && SeedableRange(s0, end, first, n)
      requires k < n && p == (first + k) * PGSIZE
      requires Abs() == Seed(s0, end, first, k)
      modifies this`freelist, this`free, refcounter, next, zeroed
      ensures Valid()
      ensures Abs() == Seed(s0, end, first, k + 1)
    {
      FrameLemmas.SeedRound(s0, end, first, n, k, p);
      ghost var s, rc, links := Abs(), refcounter[..], next[..];
      refcounter[p / PGSIZE] := 1;
      assert refcounter[..] == rc[first + k := 1] && next[..] == links;
      FrameLemmas.SetOneKeepsInv(s, end, first + k);
      var outcome := KFree(p);
    }

    /**
     * kfree(pa): panics on a misaligned address, one outside [end, PHYSTOP),
     * or a page whose count is below 1; otherwise decrements the count and,
     * when it reaches 0, zero-fills the page and pushes it on the list.
     * After a panic the state is left as it was.
     */
    method KFree(pa: nat) returns (outcome: Outcome)
      requires Valid()
      modifies this`freelist, this`free, refcounter, next, zeroed
      ensures Valid()
      ensures match FrameSpec.KFree(old(Abs()), end, pa)
        case Ok(t) => outcome == Returned && Abs() == t
        case Fatal(why) => outcome == Panicked(why) && Abs() == old(Abs())
    {
      if pa % PGSIZE != 0 || pa < end || pa >= PHYSTOP {
        return Panicked(BadFree);
      }
      var pageNum := pa / PGSIZE;
      if refcounter[pageNum] < 1 {
        return Panicked(FreeOfFreePage);
      }
      assert pageNum !in free;
      ghost var s, links, rc := Abs(), next[..], refcounter[..];
      refcounter[pageNum] := refcounter[pageNum] - 1;
      var count := refcounter[pageNum];
      assert refcounter[..] == rc[pageNum := count];
      if count > 0 {
        assert next[..] == links && Abs() == s.(refcount := rc[pageNum := count]);
        FrameLemmas.KFreeKeepsInv(s, end, pa);
        return Returned;
      }
      ghost var head := freelist;
      zeroed[pageNum] := true;      // memset(pa, 0, PGSIZE)
      next[pageNum] := freelist;    // r->next = kmem.freelist
      freelist := pa;               // kmem.freelist = r
      free := [pageNum] + free;
      outcome := Returned;
      assert next[..] == links[pageNum := head] && zeroed[..] == s.zeroed[pageNum := true];
      assert Abs() == Frames(rc[pageNum := 0], [pageNum] + s.free, s.zeroed[pageNum := true]);
      LinkedPush(head, links, s.free, pageNum);
      FrameLemmas.KFreeKeepsInv(s, end, pa);
    }

    /**
     * kalloc(): pops the head of the list, sets its count to 1 and
     * zero-fills it, returning its address; returns 0 when the list is
     * empty. The head-count panic cannot fire while Valid() holds.
     */
    method KAlloc() returns (pa: nat)
      requires Valid()
      modifies this`freelist, this`free, refcounter, zeroed
      ensures Valid()
      ensures FrameSpec.KAlloc(old(Abs())) == Ok((pa, Abs()))
    {
      ghost var s, links := Abs(), next[..];
      FrameLemmas.KAllocKeepsInv(s, end);
      var r := freelist;
      if r != 0 {
        var pageNum := r / PGSIZE;
        assert pageNum == free[0];
        LinkedTail(freelist, links, free);
        if refcounter[pageNum] != 0 {
          assert false;
        }
        refcounter[pageNum] := 1;
        freelist := next[pageNum];
        free := free[1..];
        assert next[..] == links;
      }
      if r != 0 {
        zeroed[r / PGSIZE] := true;   // memset((char *)r, 0, PGSIZE)
      }
      pa := r;
      assert Abs() == FrameSpec.KAlloc(s).value.1;
    }

    /**
     * refCountIncrement(address): adds 1 to the count of an in-range page
     * that is in use; otherwise reports failure and changes nothing.
     */
    method RefCountIncrement(address: nat) returns (ok: bool)
      requires Valid()
      modifies refcounter
      ensures Valid()
      ensures (ok, Abs()) == FrameSpec.Increment(old(Abs()), address)
    {
      ghost var s, links, rc := Abs(), next[..], refcounter[..];
      var pageNum := address / PGSIZE;
      if !InRange(address) || refcounter[pageNum] < 1 {
        return false;
      }
      refcounter[pageNum] := refcounter[pageNum] + 1;
      ok := true;
      assert next[..] == links;
      assert refcounter[..] == rc[pageNum := rc[pageNum] + 1];
      assert zeroed[..] == s.zeroed;
      FrameLemmas.IncrementKeepsInv(s, end, address);
    }

    /**
     * refCountDecrement(address): subtracts 1 from the count of an in-range
     * page that is in use, without ever touching the free list; otherwise
     * reports failure and changes nothing.
     */
    method RefCountDecrement(address: nat) returns (ok: bool)
      requires Valid()
      modifies refcounter
      ensures Valid()
      ensures (ok, Abs()) == FrameSpec.Decrement(old(Abs()), address)
    {
      ghost var s, links, rc := Abs(), next[..], refcounter[..];
      var pageNum := address / PGSIZE;
      if !InRange(address) || refcounter[pageNum] < 1 {
        return false;
      }
      refcounter[pageNum] := refcounter[pageNum] - 1;
      ok := true;
      assert next[..] == links;
      assert refcounter[..] == rc[pageNum := rc[pageNum] - 1];
      assert zeroed[..] == s.zeroed;
      FrameLemmas.DecrementKeepsInv(s, end, address);
    }

    /**
     * getRefCount(address): the count of the page the address lies in, or
     * -1 for an address at or above PHYSTOP. Changes nothing.
     */
    method GetRefCount(address: nat) returns (count: int)
      requires Valid()
      ensures count == RefCount(Abs(), address)
      ensures count == -1 <==> address >= PHYSTOP
      ensures count != -1 ==> count >= 0
    {
      var pageNum := address / PGSIZE;
      if !InRange(address) {
        return -1;
      }
      count := refcounter[pageNum];
    }
  }
}
