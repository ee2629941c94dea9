/**
 * What the allocator promises, proved about the operations of FrameSpec:
 * the panic cases of kfree and kalloc, the exact effect of each operation,
 * the invariant they all keep, the conservation of pages that kalloc, kfree
 * and refCountIncrement keep and refCountDecrement breaks, and the state
 * kinit leaves.
 */
module FrameLemmas {
  import opened Layout
  import opened FrameSpec

  // ---------------------------------------------------------------------
  // Counting pages in use

  /** Changing one entry changes the number of pages in use by at most one. */
  lemma {:induction false} LiveUpdate(rc: seq<int>, i: nat, v: int)
    requires i < |rc|
    ensures Live(rc[i := v]) == Live(rc) - (if rc[i] >= 1 then 1 else 0) + (if v >= 1 then 1 else 0)
  {
    if i == 0 {
      assert rc[i := v][1..] == rc[1..];
    } else {
      assert rc[i := v][1..] == rc[1..][i - 1 := v];
      LiveUpdate(rc[1..], i - 1, v);
    }
  }

  /** A table with no positive entry has no page in use. */
  lemma {:induction false} LiveNone(rc: seq<int>)
    requires forall i :: 0 <= i < |rc| ==> rc[i] < 1
    ensures Live(rc) == 0
  {
    if rc != [] {
      LiveNone(rc[1..]);
    }
  }

  /** A page-aligned address names the page it divides to. */
  lemma PageAddress(pa: nat)
    requires pa % PGSIZE == 0
    ensures pa == pa / PGSIZE * PGSIZE
  {
  }

  // ---------------------------------------------------------------------
  // kfree

  /**
   * kfree halts on exactly two conditions: an address that is misaligned or
   * outside [end, PHYSTOP), and a page whose count is already below 1.
   */
  lemma KFreeFatalCases(s: Frames, end: nat, pa: nat)
    requires Shaped(s)
    ensures KFree(s, end, pa) == Fatal(BadFree) <==> !FreeableAddress(end, pa)
    ensures KFree(s, end, pa) == Fatal(FreeOfFreePage) <==>
              FreeableAddress(end, pa) && s.refcount[pa / PGSIZE] < 1
    ensures KFree(s, end, pa) != Fatal(FreeListCorrupt)
  {
  }

  /**
   * A kfree that returns lowers its page's count by exactly one, to a value
   * that is not negative, and changes no other count. While the count stays
   * positive the free list and page contents are untouched; when it reaches
   * 0 the page is zeroed and pushed on the head of the list.
   */
  lemma KFreeEffect(s: Frames, end: nat, pa: nat)
    requires Shaped(s) && KFree(s, end, pa).Ok?
    ensures var t, i := KFree(s, end, pa).value, pa / PGSIZE;
      t.refcount[i] == s.refcount[i] - 1 >= 0 &&
      (forall j :: 0 <= j < NPAGES && j != i ==> t.refcount[j] == s.refcount[j]) &&
      (t.refcount[i] > 0 ==> t.free == s.free && t.zeroed == s.zeroed) &&
      (t.refcount[i] == 0 ==> t.free == [i] + s.free && t.zeroed == s.zeroed[i := true])
  {
  }

  /** kfree keeps the allocator invariant. */
  lemma KFreeKeepsInv(s: Frames, end: nat, pa: nat)
    requires Inv(s, end) && KFree(s, end, pa).Ok?
    ensures Inv(KFree(s, end, pa).value, end)
  {
    var t, i := KFree(s, end, pa).value, pa / PGSIZE;
    PageAddress(pa);
    assert Managed(end, i);
    if t.refcount[i] == 0 {
      assert i !in s.free;
      assert t.free == [i] + s.free;
      forall j, k | 0 <= j < k < |t.free| ensures t.free[j] != t.free[k] {
        if j > 0 { assert t.free[j] == s.free[j - 1]; }
      }
    }
  }

  /** kfree keeps every managed page with count 0 on the free list. */
  lemma KFreeKeepsTight(s: Frames, end: nat, pa: nat)
    requires Inv(s, end) && Tight(s, end) && KFree(s, end, pa).Ok?
    ensures Tight(KFree(s, end, pa).value, end)
  {
    var t, i := KFree(s, end, pa).value, pa / PGSIZE;
    forall j | 0 <= j < NPAGES && Managed(end, j) && t.refcount[j] == 0
      ensures j in t.free
    {
      if j != i { assert s.refcount[j] == 0 && j in s.free; }
      else { assert t.free[0] == i; }
    }
  }

  /** kfree keeps (pages on the free list) + (pages in use) constant. */
  lemma KFreeConserves(s: Frames, end: nat, pa: nat)
    requires Inv(s, end) && KFree(s, end, pa).Ok?
    ensures var t := KFree(s, end, pa).value;
      Live(t.refcount) + |t.free| == Live(s.refcount) + |s.free|
  {
    var t, i := KFree(s, end, pa).value, pa / PGSIZE;
    LiveUpdate(s.refcount, i, s.refcount[i] - 1);
  }

  // ---------------------------------------------------------------------
  // kalloc

  /**
   * kalloc halts on exactly one condition: the head of a nonempty free list
   * has a nonzero count. On an empty list it returns 0 and changes nothing.
   */
  lemma KAllocFatalCases(s: Frames)
    requires Shaped(s)
    ensures KAlloc(s).Fatal? <==> s.free != [] && s.refcount[s.free[0]] != 0
    ensures KAlloc(s).Fatal? ==> KAlloc(s).why == FreeListCorrupt
    ensures s.free == [] ==> KAlloc(s) == Ok((0, s))
  {
  }

  /**
   * Under the invariant kalloc never panics. On an empty list it returns 0
   * and changes nothing. Otherwise it returns the nonzero, page-aligned,
   * managed address of the former head, whose count goes from 0 to 1 and
   * whose page is zero-filled; the list becomes its tail and no other count
   * changes. So 0 is returned exactly when the list is empty.
   */
  lemma KAllocEffect(s: Frames, end: nat)
    requires Inv(s, end)
    ensures KAlloc(s).Ok?
    ensures var (pa, t) := KAlloc(s).value;
      (pa == 0 <==> s.free == []) &&
      (s.free == [] ==> t == s) &&
      (s.free != [] ==>
        var i := s.free[0];
        FreeableAddress(end, pa) && pa / PGSIZE == i &&
        s.refcount[i] == 0 && t.refcount[i] == 1 && t.zeroed == s.zeroed[i := true] &&
        t.free == s.free[1..] &&
        forall j :: 0 <= j < NPAGES && j != i ==> t.refcount[j] == s.refcount[j])
  {
  }

  /** kalloc keeps the allocator invariant. */
  lemma KAllocKeepsInv(s: Frames, end: nat)
    requires Inv(s, end)
    ensures Inv(KAlloc(s).value.1, end)
  {
    if s.free != [] {
      var t, i := KAlloc(s).value.1, s.free[0];
      forall k | 0 <= k < |t.free|
        ensures Managed(end, t.free[k]) && t.refcount[t.free[k]] == 0
      {
        assert t.free[k] == s.free[k + 1];
      }
    }
  }

  /** kalloc keeps every managed page with count 0 on the free list. */
  lemma KAllocKeepsTight(s: Frames, end: nat)
    requires Inv(s, end) && Tight(s, end)
    ensures Tight(KAlloc(s).value.1, end)
  {
    if s.free != [] {
      var t, i := KAlloc(s).value.1, s.free[0];
      forall j | 0 <= j < NPAGES && Managed(end, j) && t.refcount[j] == 0
        ensures j in t.free
      {
        var k :| 0 <= k < |s.free| && s.free[k] == j;
        assert k != 0;
        assert t.free[k - 1] == j;
      }
    }
  }

  /** kalloc keeps (pages on the free list) + (pages in use) constant. */
  lemma KAllocConserves(s: Frames, end: nat)
    requires Inv(s, end)
    ensures var t := KAlloc(s).value.1;
      Live(t.refcount) + |t.free| == Live(s.refcount) + |s.free|
  {
    if s.free != [] {
      LiveUpdate(s.refcount, s.free[0], 1);
    }
  }

  // ---------------------------------------------------------------------
  // refCountIncrement, refCountDecrement, getRefCount

  /**
   * refCountIncrement succeeds exactly for an address below PHYSTOP whose
   * page has count >= 1; it then adds 1 to that one count. It never changes
   * the free list or page contents, and on failure it changes nothing.
   */
  lemma IncrementEffect(s: Frames, address: nat)
    requires Shaped(s)
    ensures var (ok, t), i := Increment(s, address), address / PGSIZE;
      (ok <==> address < PHYSTOP && s.refcount[i] >= 1) &&
      t.free == s.free && t.zeroed == s.zeroed &&
      (!ok ==> t == s) &&
      (ok ==> t.refcount[i] == s.refcount[i] + 1 &&
              forall j :: 0 <= j < NPAGES && j != i ==> t.refcount[j] == s.refcount[j])
  {
  }

  /** refCountIncrement keeps the invariant, tightness and conservation. */
  lemma IncrementKeepsInv(s: Frames, end: nat, address: nat)
    requires Inv(s, end)
    ensures var t := Increment(s, address).1;
      Inv(t, end) &&
      (Tight(s, end) ==> Tight(t, end)) &&
      Live(t.refcount) + |t.free| == Live(s.refcount) + |s.free|
  {
    var (ok, t) := Increment(s, address);
    if ok {
      var i := address / PGSIZE;
      LiveUpdate(s.refcount, i, s.refcount[i] + 1);
      assert Managed(end, i);
    }
  }

  /**
   * refCountDecrement succeeds exactly for an address below PHYSTOP whose
   * page has count >= 1; it then subtracts 1 from that one count, so no count
   * goes negative. It never changes the free list or page contents.
   */
  lemma DecrementEffect(s: Frames, address: nat)
    requires Shaped(s)
    ensures var (ok, t), i := Decrement(s, address), address / PGSIZE;
      (ok <==> address < PHYSTOP && s.refcount[i] >= 1) &&
      t.free == s.free && t.zeroed == s.zeroed &&
      (!ok ==> t == s) &&
      (ok ==> t.refcount[i] == s.refcount[i] - 1 >= 0 &&
              forall j :: 0 <= j < NPAGES && j != i ==> t.refcount[j] == s.refcount[j])
  {
  }

  /** refCountDecrement keeps the allocator invariant. */
  lemma DecrementKeepsInv(s: Frames, end: nat, address: nat)
    requires Inv(s, end)
    ensures Inv(Decrement(s, address).1, end)
  {
    var (ok, t) := Decrement(s, address);
    if ok {
      var i := address / PGSIZE;
      assert i !in s.free;
      assert Managed(end, i);
    }
  }

  /**
   * refCountDecrement on a page with count 1 leaves it at count 0 but off
   * the free list: the page is lost to kalloc, the state is no longer
   * Tight, and (free pages) + (pages in use) drops by one.
   */
  lemma DecrementStrandsPage(s: Frames, end: nat, address: nat)
    requires Inv(s, end) && address < PHYSTOP && s.refcount[address / PGSIZE] == 1
    ensures var t, i := Decrement(s, address).1, address / PGSIZE;
      t.refcount[i] == 0 && Managed(end, i) && i !in t.free && !Tight(t, end) &&
      Live(t.refcount) + |t.free| == Live(s.refcount) + |s.free| - 1
  {
    var t, i := Decrement(s, address).1, address / PGSIZE;
    LiveUpdate(s.refcount, i, 0);
    assert i !in s.free;
  }

  /**
   * getRefCount returns -1 exactly for addresses at or above PHYSTOP, and
   * otherwise the count of the page the address lies in, which is never
   * negative.
   */
  lemma RefCountFacts(s: Frames, end: nat, address: nat)
    requires Inv(s, end)
    ensures RefCount(s, address) == -1 <==> address >= PHYSTOP
    ensures address < PHYSTOP ==> RefCount(s, address) == s.refcount[address / PGSIZE] >= 0
  {
  }

  // ---------------------------------------------------------------------
  // kinit / freerange

  /**
   * freerange's `refcounter[p / PGSIZE] = 1` on a managed page that is not
   * on the free list keeps the invariant.
   */
  lemma SetOneKeepsInv(s: Frames, end: nat, i: nat)
    requires Inv(s, end) && Managed(end, i) && i !in s.free
    ensures Inv(s.(refcount := s.refcount[i := 1]), end)
  {
    var t := s.(refcount := s.refcount[i := 1]);
    forall k | 0 <= k < |t.free| ensures t.refcount[t.free[k]] == 0 {
      assert t.free[k] != i;
    }
  }

  /** freerange(end, PHYSTOP) visits exactly the managed pages. */
  lemma PagesToTop(end: nat)
    requires end <= PHYSTOP
    ensures PagesIn(end, PHYSTOP) == NPAGES - FirstPage(end)
    ensures PgRoundUp(end) + PagesIn(end, PHYSTOP) * PGSIZE == PHYSTOP
  {
    var f := FirstPage(end);
    assert PgRoundUp(end) == f * PGSIZE;
    assert PHYSTOP - PgRoundUp(end) == (NPAGES - f) * PGSIZE;
  }

  /**
   * One more step of freerange: setting the next page's count to 1 and
   * calling kfree on it returns normally, in the next seeded state.
   */
  lemma SeedStep(s: Frames, end: nat, first: nat, k: nat)
    requires Shaped(s) && end <= first * PGSIZE && first + k < NPAGES
    ensures var t := Seed(s, end, first, k);
      KFree(t.(refcount := t.refcount[first + k := 1]), end, (first + k) * PGSIZE)
        == Ok(Seed(s, end, first, k + 1))
  {
  }

  /**
   * freerange's loop test `p + PGSIZE <= pa_end`, with p the k-th page from
   * PGROUNDUP(start), holds for exactly PagesIn(start, stop) pages.
   */
  lemma PagesInCounts(start: nat, stop: nat, k: nat)
    ensures var first := PgRoundUp(start) / PGSIZE;
      (first + k) * PGSIZE + PGSIZE == (first + k + 1) * PGSIZE &&
      ((first + k) * PGSIZE + PGSIZE <= stop <==> k < PagesIn(start, stop))
  {
    var r := PgRoundUp(start);
    assert r == r / PGSIZE * PGSIZE;
  }

  /**
   * One round of freerange's loop at its k-th page p, from a seeded state
   * whose free list missed the range's pages on entry: the page is managed
   * and not yet on the list, and giving it count 1 and passing it to kfree
   * returns normally in the next seeded state.
   */
  lemma SeedRound(s: Frames, end: nat, first: nat, n: nat, k: nat, p: nat)
    requires Shaped(s) && SeedableRange(s, end, first, n)
    requires k < n && p == (first + k) * PGSIZE
    ensures p % PGSIZE == 0 && p / PGSIZE == first + k && Managed(end, first + k)
    ensures var t := Seed(s, end, first, k);
      first + k !in t.free &&
      KFree(t.(refcount := t.refcount[first + k := 1]), end, p) == Ok(Seed(s, end, first, k + 1))
  {
    var t := Seed(s, end, first, k);
    assert first + k !in t.free by {
      SeedShape(s, end, first, k);
      DescendingDistinct(first, k);
    }
    SeedStep(s, end, first, k);
  }

  /** Page index i at or above `first`, with `first` above `end`: kfree accepts its address. */
  lemma PageOf(end: nat, first: nat, i: nat)
    requires end <= first * PGSIZE && first <= i < NPAGES
    ensures FreeableAddress(end, i * PGSIZE) && i * PGSIZE / PGSIZE == i
  {
    assert first * PGSIZE <= i * PGSIZE;
  }

  /**
   * After freerange has visited n pages from `first`, those pages have count
   * 0, are zeroed and sit on the free list in descending order ahead of the
   * old list; nothing else has changed.
   */
  lemma {:induction false} SeedShape(s: Frames, end: nat, first: nat, n: nat)
    requires Shaped(s) && end <= first * PGSIZE && first + n <= NPAGES
    ensures var t := Seed(s, end, first, n);
      t.free == Descending(first, n) + s.free &&
      (forall i :: 0 <= i < NPAGES ==>
         t.refcount[i] == (if first <= i < first + n then 0 else s.refcount[i]) &&
         t.zeroed[i] == (first <= i < first + n || s.zeroed[i]))
    decreases n
  {
    if n > 0 {
      var t, p, d := Seed(s, end, first, n - 1), first + n - 1, Descending(first, n - 1);
      assert Descending(first, n) == [p] + d;
      assert [p] + (d + s.free) == [p] + d + s.free;
      PageOf(end, first, p);
      var u := t.(refcount := t.refcount[p := 1]);
      var r := Frames(u.refcount[p := 0], [p] + t.free, t.zeroed[p := true]);
      assert KFree(u, end, p * PGSIZE) == Ok(r);
      assert Seed(s, end, first, n) == r;
      SeedShape(s, end, first, n - 1);
      forall i | 0 <= i < NPAGES
        ensures r.refcount[i] == (if first <= i < first + n then 0 else s.refcount[i])
        ensures r.zeroed[i] == (first <= i < first + n || s.zeroed[i])
      {
      }
    }
  }

  /** The k-th entry of Descending(first, n) is first + n - 1 - k. */
  lemma {:induction false} DescendingAt(first: nat, n: nat)
    ensures forall k :: 0 <= k < n ==> Descending(first, n)[k] == first + n - 1 - k
  {
    if n > 0 {
      DescendingAt(first, n - 1);
    }
  }

  /** Descending lists each index of its range once. */
  lemma DescendingDistinct(first: nat, n: nat)
    ensures Distinct(Descending(first, n))
    ensures forall i :: i in Descending(first, n) <==> first <= i < first + n
  {
    var d := Descending(first, n);
    DescendingAt(first, n);
    forall i | first <= i < first + n ensures i in d {
      assert d[first + n - 1 - i] == i;
    }
  }

  /**
   * kinit leaves every managed page with count 0, zeroed and on the free
   * list exactly once, every other count 0 and no page in use: the
   * invariant and Tight hold, and (free pages) + (pages in use) equals the
   * number of managed pages.
   */
  lemma BootFacts(end: nat)
    requires KERNBASE <= end <= PHYSTOP
    ensures var s, first := Boot(end), FirstPage(end);
      Inv(s, end) && Tight(s, end) &&
      (forall i :: 0 <= i < NPAGES ==>
         s.refcount[i] == 0 && (i in s.free <==> Managed(end, i)) && (Managed(end, i) ==> s.zeroed[i])) &&
      Live(s.refcount) == 0 && |s.free| == NPAGES - first
  {
    var s, first, n := Boot(end), FirstPage(end), NPAGES - FirstPage(end);
    var d := Descending(first, n);
    SeedShape(Blank(), end, first, n);
    assert s.free == d;
    DescendingAt(first, n);
    DescendingDistinct(first, n);
    forall i | 0 <= i < NPAGES ensures Managed(end, i) <==> first <= i {
      ManagedIff(end, i);
    }
    forall k | 0 <= k < |s.free| ensures Managed(end, s.free[k]) {
      ManagedIff(end, s.free[k]);
    }
    LiveNone(s.refcount);
  }

  /**
   * freerange pushes its pages in ascending order, so the list kinit leaves
   * is descending and the first kalloc returns the highest managed page.
   */
  lemma FirstAllocIsTopPage(end: nat)
    requires KERNBASE <= end <= PHYSTOP && FirstPage(end) < NPAGES
    ensures KAlloc(Boot(end)).Ok? && KAlloc(Boot(end)).value.0 == (NPAGES - 1) * PGSIZE
  {
    var first, n := FirstPage(end), NPAGES - FirstPage(end);
    SeedShape(Blank(), end, first, n);
    DescendingAt(first, n);
  }

  // ---------------------------------------------------------------------
  // Whole runs

  /** No refCountDecrement among the operations. */
  predicate NoDecrement(ops: seq<Op>)
  {
    forall k :: 0 <= k < |ops| ==> !ops[k].Dec?
  }

  /**
   * From any state satisfying the invariant, every run keeps it, and the
   * kalloc panic never fires.
   */
  lemma {:induction false} RunKeepsInv(s: Frames, end: nat, ops: seq<Op>)
    requires Inv(s, end)
    ensures Run(s, end, ops) != Fatal(FreeListCorrupt)
    ensures Run(s, end, ops).Ok? ==> Inv(Run(s, end, ops).value, end)
    decreases |ops|
  {
    if ops != [] {
      match ops[0] {
        case Alloc => KAllocKeepsInv(s, end);
        case Free(pa) => if KFree(s, end, pa).Ok? { KFreeKeepsInv(s, end, pa); }
        case Inc(address) => IncrementKeepsInv(s, end, address);
        case Dec(address) => DecrementKeepsInv(s, end, address);
      }
      if Apply(s, end, ops[0]).Ok? {
        RunKeepsInv(Apply(s, end, ops[0]).value, end, ops[1..]);
      }
    }
  }

  /**
   * A run of kalloc, kfree and refCountIncrement keeps Tight and keeps
   * (free pages) + (pages in use) constant.
   */
  lemma {:induction false} RunConserves(s: Frames, end: nat, ops: seq<Op>)
    requires Inv(s, end) && Tight(s, end) && NoDecrement(ops)
    ensures var r := Run(s, end, ops);
      r.Ok? ==> Tight(r.value, end) &&
                Live(r.value.refcount) + |r.value.free| == Live(s.refcount) + |s.free|
    decreases |ops|
  {
    if ops != [] {
      match ops[0] {
        case Alloc =>
          KAllocKeepsInv(s, end); KAllocKeepsTight(s, end); KAllocConserves(s, end);
        case Free(pa) =>
          if KFree(s, end, pa).Ok? {
            KFreeKeepsInv(s, end, pa); KFreeKeepsTight(s, end, pa); KFreeConserves(s, end, pa);
          }
        case Inc(address) => IncrementKeepsInv(s, end, address);
        case Dec(address) => assert false;
      }
      if Apply(s, end, ops[0]).Ok? {
        assert NoDecrement(ops[1..]) by {
          forall k | 0 <= k < |ops| - 1 ensures !ops[1..][k].Dec? { assert ops[1..][k] == ops[k + 1]; }
        }
        RunConserves(Apply(s, end, ops[0]).value, end, ops[1..]);
      }
    }
  }

  /**
   * Conservation over the system's lifetime: after kinit and any run of
   * kalloc, kfree and refCountIncrement that does not panic, every managed
   * page with count 0 is on the free list, and (free pages) + (pages in
   * use) equals the number of managed pages.
   */
  lemma Lifetime(end: nat, ops: seq<Op>)
    requires KERNBASE <= end <= PHYSTOP && NoDecrement(ops)
    requires Run(Boot(end), end, ops).Ok?
    ensures var t := Run(Boot(end), end, ops).value;
      Inv(t, end) && Tight(t, end) &&
      Live(t.refcount) + |t.free| == NPAGES - FirstPage(end)
  {
    BootFacts(end);
    RunKeepsInv(Boot(end), end, ops);
    RunConserves(Boot(end), end, ops);
  }

  // ---------------------------------------------------------------------
  // Scenarios

  /**
   * Shared ownership: a page that kalloc hands out and refCountIncrement
   * shares survives one kfree with count 1, off the free list; a second
   * kfree returns it to the head of the list.
   */
  lemma SharedPageNeedsTwoFrees(s: Frames, end: nat)
    requires Inv(s, end) && s.free != []
    ensures var (pa, t) := KAlloc(s).value;
      var (ok, u) := Increment(t, pa);
      ok && KFree(u, end, pa).Ok? &&
      var w := KFree(u, end, pa).value;
      RefCount(w, pa) == 1 && pa / PGSIZE !in w.free &&
      KFree(w, end, pa).Ok? && KFree(w, end, pa).value.free == [pa / PGSIZE] + w.free
  {
    KAllocEffect(s, end);
    KAllocKeepsInv(s, end);
    var (pa, t) := KAlloc(s).value;
    PageAddress(pa);
  }

  /** Double free: kalloc, kfree, kfree of the same page panics. */
  lemma DoubleFreePanics(s: Frames, end: nat)
    requires Inv(s, end) && s.free != []
    ensures var (pa, t) := KAlloc(s).value;
      KFree(t, end, pa).Ok? && KFree(KFree(t, end, pa).value, end, pa) == Fatal(FreeOfFreePage)
  {
    KAllocEffect(s, end);
    var (pa, t) := KAlloc(s).value;
    PageAddress(pa);
  }
}
