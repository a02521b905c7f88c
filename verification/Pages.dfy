/** The page layer: a byte per page, and a count of the pages in use that is
    also the index at which the search for a free page starts. */
module PageSpec {

  /** `taken` holds the indices whose map byte is set; `used` is
      `bitmap_item_used`, updated on its own by every call. */
  datatype PageState = PageState(total: nat, taken: set<int>, used: int)

  ghost predicate PageInv(s: PageState) {
    && (forall i :: i in s.taken ==> 0 <= i < s.total)
    && s.used == |s.taken|
  }

  function Fresh(total: nat): PageState {
    PageState(total, {}, 0)
  }

  ghost function Range(lo: int, hi: int): (r: set<int>)
    ensures forall i :: i in r <==> lo <= i < hi
    decreases hi - lo
  {
    if lo < hi then Range(lo, hi - 1) + {hi - 1} else {}
  }

  lemma {:induction false} RangeSize(lo: int, hi: int)
    requires lo <= hi
    ensures |Range(lo, hi)| == hi - lo
    decreases hi - lo
  {
    if lo < hi {
      RangeSize(lo, hi - 1);
    }
  }

  lemma SubsetSize(a: set<int>, b: set<int>)
    requires a <= b
    ensures |a| <= |b|
  {
    assert b == a + (b - a);
  }

  lemma UsedFits(s: PageState)
    requires PageInv(s)
    ensures 0 <= s.used <= s.total
  {
    RangeSize(0, s.total);
    SubsetSize(s.taken, Range(0, s.total));
  }

  /** The first index from `i` on that is not taken, or `total`. */
  function Scan(s: PageState, i: int): (r: int)
    ensures i <= r
    ensures r < s.total ==> r !in s.taken
    ensures r == i || r <= s.total
    ensures forall j :: i <= j < r ==> j in s.taken
    decreases s.total - i
  {
    if i < s.total && i in s.taken then Scan(s, i + 1) else i
  }

  function Next(s: PageState): int {
    Scan(s, s.used)
  }

  predicate HasPage(s: PageState) {
    Next(s) < s.total
  }

  function Take(s: PageState): PageState {
    s.(taken := s.taken + {Next(s)}, used := s.used + 1)
  }

  function Release(s: PageState, i: int): PageState {
    s.(taken := s.taken - {i}, used := s.used - 1)
  }

  lemma TakeKeepsInv(s: PageState)
    requires PageInv(s) && HasPage(s)
    ensures PageInv(Take(s))
    ensures s.used <= Next(s) < s.total && Next(s) !in s.taken
  {
    UsedFits(s);
    assert |Take(s).taken| == |s.taken| + 1;
  }

  /** Giving back a page keeps the count right exactly if the page was taken. */
  lemma ReleaseKeepsInvIff(s: PageState, i: int)
    requires PageInv(s)
    ensures PageInv(Release(s, i)) <==> i in s.taken
  {
    if i in s.taken {
      assert s.taken == Release(s, i).taken + {i};
    } else {
      assert s.taken == Release(s, i).taken;
    }
  }

  /** A page that is given back without being in use, and the end of an empty
      region given back: the count is wrong. */
  lemma ReleasedOutOfOrder(total: nat)
    ensures !PageInv(Release(Take(Fresh(2)), 1))
    ensures !PageInv(Release(Fresh(total), total))
  {
    assert Next(Fresh(2)) == 0;
    TakeKeepsInv(Fresh(2));
    ReleaseKeepsInvIff(Take(Fresh(2)), 1);
    ReleaseKeepsInvIff(Fresh(total), total);
  }

  /** A page is handed out exactly when a free index lies at or above the
      number of pages in use: what is free below that number is not seen. */
  lemma PageFoundIff(s: PageState)
    requires PageInv(s)
    ensures HasPage(s) <==> exists i :: s.used <= i < s.total && i !in s.taken
  {
    UsedFits(s);
    if HasPage(s) {
      assert s.used <= Next(s) < s.total && Next(s) !in s.taken;
    }
  }

  /** One page is free and in range, yet the request is refused: two pages,
      both taken, and the lower one given back. */
  lemma FreePageOverlooked()
    ensures
      var s := Release(Take(Take(Fresh(2))), 0);
      PageInv(s) && 0 !in s.taken && 0 < s.total && !HasPage(s)
  {
    var s1 := Take(Fresh(2));
    assert Next(Fresh(2)) == 0;
    assert s1.taken == {0};
    var s2 := Take(s1);
    assert Next(s1) == 1;
    assert s2.taken == {0, 1};
    var s := Release(s2, 0);
    assert s.taken == {1};
    assert Next(s) == 2;
  }

  /** Half full is never too full: while fewer than half of the pages are in
      use the scan finds one, although it skips the first `used` indices. */
  lemma HalfFull(s: PageState)
    requires PageInv(s)
    requires 2 * s.used < s.total
    ensures HasPage(s)
  {
    if !HasPage(s) {
      RangeSize(s.used, s.total);
      SubsetSize(Range(s.used, s.total), s.taken);
      assert false;
    }
  }

  // ----- Whole runs of calls to the page layer -----

  datatype PageOp = Get | Put(index: int)

  /** What the layer asks of its callers: only a taken page is given back. */
  predicate PageOpOk(s: PageState, op: PageOp) {
    op.Put? ==> op.index in s.taken
  }

  function PageStep(s: PageState, op: PageOp): PageState {
    match op
    case Get => if HasPage(s) then Take(s) else s
    case Put(i) => Release(s, i)
  }

  predicate PageRunOk(s: PageState, ops: seq<PageOp>)
    decreases ops
  {
    ops == [] || (PageOpOk(s, ops[0]) && PageRunOk(PageStep(s, ops[0]), ops[1..]))
  }

  function PageRun(s: PageState, ops: seq<PageOp>): PageState
    decreases ops
  {
    if ops == [] then s else PageRun(PageStep(s, ops[0]), ops[1..])
  }

  lemma {:induction false} RunKeepsInv(s: PageState, ops: seq<PageOp>)
    requires PageInv(s) && PageRunOk(s, ops)
    ensures PageInv(PageRun(s, ops)) && PageRun(s, ops).total == s.total
    decreases ops
  {
    if ops != [] {
      if ops[0].Put? {
        ReleaseKeepsInvIff(s, ops[0].index);
      } else if HasPage(s) {
        TakeKeepsInv(s);
      }
      RunKeepsInv(PageStep(s, ops[0]), ops[1..]);
    }
  }

  lemma {:induction false} StaysTaken(s: PageState, ops: seq<PageOp>, i: int)
    requires i in s.taken && Put(i) !in ops
    ensures i in PageRun(s, ops).taken
    decreases ops
  {
    if ops != [] {
      assert ops[0] in ops;
      assert forall op :: op in ops[1..] ==> op in ops;
      StaysTaken(PageStep(s, ops[0]), ops[1..], i);
    }
  }

  /** No page is handed out twice without a release between: after the page
      `Next(s)` was taken, however many calls follow, as long as none of them
      releases it, a later request never returns it again. */
  lemma NoDoubleHandOut(s: PageState, ops: seq<PageOp>)
    requires PageInv(s) && HasPage(s)
    requires PageRunOk(Take(s), ops) && Put(Next(s)) !in ops
    ensures
      var t := PageRun(Take(s), ops);
      HasPage(t) ==> Next(t) != Next(s) && t.used <= Next(t) < t.total && t.used == |t.taken|
  {
    TakeKeepsInv(s);
    StaysTaken(Take(s), ops, Next(s));
    RunKeepsInv(Take(s), ops);
    var t := PageRun(Take(s), ops);
    if HasPage(t) {
      TakeKeepsInv(t);
    }
  }

  /** Without releases the pages come out consecutively from the base. */
  lemma {:induction false} GetsAreConsecutive(total: nat, n: nat)
    requires n <= total
    ensures
      var s := PageRun(Fresh(total), seq(n, _ => Get));
      && s == PageState(total, Range(0, n), n)
      && (n < total ==> HasPage(s) && Next(s) == n)
      && (n == total ==> !HasPage(s))
  {
    var ops := seq(n, _ => Get);
    if n == 0 {
      assert Range(0, 0) == {};
    } else {
      GetsAreConsecutive(total, n - 1);
      var init := seq(n - 1, _ => Get);
      assert ops == init + [Get];
      RunAppend(Fresh(total), init, Get);
      assert Range(0, n) == Range(0, n - 1) + {n - 1};
    }
  }

  lemma {:induction false} RunAppend(s: PageState, ops: seq<PageOp>, op: PageOp)
    ensures PageRun(s, ops + [op]) == PageStep(PageRun(s, ops), op)
    decreases ops
  {
    if ops == [] {
      assert ops + [op] == [op];
    } else {
      assert (ops + [op])[1..] == ops[1..] + [op];
      RunAppend(PageStep(s, ops[0]), ops[1..], op);
    }
  }
}

/** The page layer itself: the globals of the memory manager and the calls that
    update them in place. */
module PageLayer {
  import opened Machine
  import opened PageSpec

  const ZONE_VALID := 1

  /** One entry of the memory table the BIOS leaves behind. */
  datatype Zone = Zone(baseLow: word, lengthLow: word, kind: word)

  /** The entry the boot code is after: usable memory from one megabyte on. */
  predicate Wanted(z: Zone) {
    z.baseLow == BASE && z.kind == ZONE_VALID
  }

  class PhysicalMemory {
    // g_physics_memory
    var addrStart: word
    var addrEnd: word
    var pagesTotal: nat
    // g_physics_memory_map
    var addrBase: word
    var used: int
    const pageMap: array<uchar>

    constructor (pageMap: array<uchar>)
      ensures this.pageMap == pageMap
      ensures addrStart == addrEnd == addrBase == 0 && pagesTotal == 0 && used == 0
    {
      this.pageMap := pageMap;
      addrStart, addrEnd, addrBase, pagesTotal, used := 0, 0, 0, 0, 0;
    }

    /** Pages whose map byte is set. */
    ghost function Taken(): set<int>
      reads this, pageMap
      requires pagesTotal <= pageMap.Length
    {
      TakenIn(pageMap[..], pagesTotal)
    }

    ghost function State(): PageState
      reads this, pageMap
      requires pagesTotal <= pageMap.Length
    {
      PageState(pagesTotal, Taken(), used)
    }

    /** The managed region starts at one megabyte, holds `pagesTotal` whole
        pages and is at most two gigabytes long, so that the signed index
        arithmetic of the C code stays exact. */
    ghost predicate Valid()
      reads this, pageMap
    {
      && pagesTotal <= pageMap.Length
      && addrStart == addrBase == BASE
      && addrStart + pagesTotal * PAGE_SIZE <= addrEnd
      && pagesTotal <= 0x80000
      && (forall i :: 0 <= i < pagesTotal ==> pageMap[i] in {0, 1})
      && PageInv(State())
    }

    /** Region choice. The table is scanned for the usable zone that starts at
        one megabyte; the managed size is the first such zone's length in whole
        pages, even where the end address wraps around. */
    method MemoryInit(zones: seq<Zone>)
      requires addrStart == 0 && pagesTotal == 0
      modifies this
      ensures addrBase == old(addrBase) && used == old(used)
      ensures addrStart == BASE <==> exists k :: 0 <= k < |zones| && Wanted(zones[k])
      ensures addrStart != BASE ==> pagesTotal == 0
      ensures forall k :: 0 <= k < |zones| && Wanted(zones[k]) && (forall j :: 0 <= j < k ==> !Wanted(zones[j]))
                ==> pagesTotal == zones[k].lengthLow / PAGE_SIZE
                    && addrEnd == (BASE + zones[k].lengthLow) % 0x1_0000_0000
    {
      var i := 0;
      while i < |zones|
        invariant 0 <= i <= |zones|
        invariant addrBase == old(addrBase) && used == old(used) && pagesTotal == 0
        invariant addrStart != BASE && forall j :: 0 <= j < i ==> !Wanted(zones[j])
      {
        var z := zones[i];
        if z.baseLow > 0 && z.kind == ZONE_VALID {
          addrStart := z.baseLow;
          addrEnd := (z.baseLow + z.lengthLow) % 0x1_0000_0000;
          if addrStart == BASE {
            break;
          }
        }
        i := i + 1;
      }
      if addrStart != BASE {
        return;
      }
      assert Wanted(zones[i]);
      pagesTotal := ((addrEnd - addrStart) % 0x1_0000_0000) / PAGE_SIZE;
    }

    /** Clears the page map. The layer is in order afterwards exactly if there is
        a region, and it is at most two gigabytes long and does not wrap around. */
    method MemoryMapInit()
      requires pagesTotal <= pageMap.Length && used == 0
      modifies this`addrBase, pageMap
      ensures addrStart == BASE ==> addrBase == BASE && State() == Fresh(pagesTotal)
      ensures Valid() <==> addrStart == BASE && pagesTotal <= 0x80000 && BASE + pagesTotal * PAGE_SIZE <= addrEnd
      ensures addrStart != BASE ==> addrBase == old(addrBase) && pageMap[..] == old(pageMap[..])
    {
      if addrStart != BASE {
        return;
      }
      addrBase := BASE;
      var i := 0;
      while i < pagesTotal
        invariant 0 <= i <= pagesTotal
        invariant forall j :: 0 <= j < i ==> pageMap[j] == 0
        modifies pageMap
      {
        pageMap[i] := 0;
        i := i + 1;
      }
      assert Taken() == {};
    }

    /** Hands out a page, or answers null. */
    method GetFreePage() returns (ret: word)
      requires Valid()
      modifies this`used, pageMap
      ensures Valid()
      ensures HasPage(old(State())) ==>
                && ret == PageAddr(Next(old(State()))) == 0x100000 + 4096 * Next(old(State()))
                && State() == Take(old(State()))
      ensures !HasPage(old(State())) ==> ret == 0 && State() == old(State())
    {
      ghost var s, was := State(), pageMap[..];
      UsedFits(s);
      var find := false;
      var i := used;
      while i < pagesTotal
        invariant used <= i <= pagesTotal
        invariant forall j :: used <= j < i ==> j in s.taken
        invariant !find
      {
        if pageMap[i] == 0 {
          find := true;
          break;
        }
        i := i + 1;
      }
      if !find {
        return 0;
      }
      assert Next(s) == i by {
        assert i !in s.taken;
      }
      pageMap[i] := 1;
      used := used + 1;
      ret := addrBase + i * PAGE_SIZE;
      assert pageMap[..] == was[i := 1];
      TakenSet(was, pagesTotal, i);
      TakeKeepsInv(s);
    }

    /** Takes a page back; an address outside the region is ignored. The layer
        stays in order exactly if the page was in use: the count is taken down in
        any case, also for the end address, which is let through. */
    method FreePage(p: word)
      requires Valid()
      modifies this`used, pageMap
      ensures !(addrStart <= p <= addrEnd) ==> State() == old(State()) && Valid()
      ensures addrStart <= p <= addrEnd ==> State() == Release(old(State()), SignedIndex(p))
      ensures addrStart <= p <= addrEnd ==> (Valid() <==> SignedIndex(p) in old(State()).taken)
    {
      if p < addrStart || p > addrEnd {
        return;
      }
      ghost var s := State();
      var index := IndexOf(p);
      Unmark(index);
      ReleaseKeepsInvIff(s, index);
    }

    /** `(int) (p - addr_base) >> 12` */
    method IndexOf(p: word) returns (index: int)
      requires addrBase == BASE
      ensures index == SignedIndex(p)
    {
      var distance := Signed((p - addrBase) % 0x1_0000_0000);
      index := distance / PAGE_SIZE;
    }

    /** Clears a byte and takes one off the count. A byte outside the map is none
        of the layer's. */
    method Unmark(index: int)
      requires Valid()
      modifies this`used, pageMap
      ensures State() == Release(old(State()), index)
      ensures forall i :: 0 <= i < pagesTotal ==> pageMap[i] in {0, 1}
    {
      ghost var was := pageMap[..];
      if 0 <= index < pageMap.Length {
        pageMap[index] := 0;
        assert pageMap[..] == was[index := 0];
        TakenCleared(was, pagesTotal, index);
      }
      used := used - 1;
    }
  }

  /** A word as `int`. */
  function Signed(w: word): int {
    if w < 0x8000_0000 then w else w - 0x1_0000_0000
  }

  /** The index that free_page computes: it is negative for an address two
      gigabytes or more behind the base. */
  function SignedIndex(p: word): int {
    Signed((p - BASE) % 0x1_0000_0000) / PAGE_SIZE
  }

  /** For every page of a region in order it is the page's index. */
  lemma SignedIndexOfPage(p: word, total: nat)
    requires total <= 0x80000 && BASE <= p < BASE + total * PAGE_SIZE
    ensures SignedIndex(p) == PageIndex(p) == (p - 0x100000) / 4096
  {
  }

  /** The indices whose byte is set. */
  ghost function TakenIn(m: seq<uchar>, total: nat): set<int>
    requires total <= |m|
  {
    set i | 0 <= i < total && m[i] != 0
  }

  lemma TakenCleared(m: seq<uchar>, total: nat, index: nat)
    requires total <= |m| && index < |m|
    ensures TakenIn(m[index := 0], total) == TakenIn(m, total) - {index}
  {
  }

  lemma TakenSet(m: seq<uchar>, total: nat, index: nat)
    requires total <= |m| && index < total
    ensures TakenIn(m[index := 1], total) == TakenIn(m, total) + {index}
  {
  }

  /** A region of whole zone length is in order exactly below two gigabytes and
      a page. */
  lemma RegionServedIff(length: word)
    ensures
      var total, end := length / PAGE_SIZE, (BASE + length) % 0x1_0000_0000;
      total <= 0x80000 && BASE + total * PAGE_SIZE <= end <==> length < 0x8000_1000
  {
  }
}
