/** Whole runs of kmalloc and kfree_s calls from the start of the system. */
module BucketRuns {
  import opened Machine
  import opened PageSpec
  import opened BucketSpec
  import opened BucketInvariant
  import opened BucketTheorems

  datatype Op = Malloc(len: nat) | Free(obj: int, size: int)

  /** What the code asks of its callers: a request does not take the null pointer
      for a descriptor, or `low`, the word at address 4, is zero; and only live
      objects are freed. */
  ghost predicate OpOk(low: int, h: Heap, op: Op) {
    && Linked(h)
    && match op
       case Malloc(len) => FindsDesc(h, len) || low == 0
       case Free(obj, size) => CanFree(h, obj, size)
  }

  ghost function Step(h: Heap, op: Op): Heap
    requires Linked(h)
  {
    match op
    case Malloc(len) => Kmalloc(h, len).0
    case Free(obj, size) => Kfree(h, obj, size)
  }

  /** Neither call stores to the word at 4, so it is the same in a whole run. */
  ghost predicate RunOk(low: int, h: Heap, ops: seq<Op>)
    decreases ops
  {
    ops == [] || (OpOk(low, h, ops[0]) && RunOk(low, Step(h, ops[0]), ops[1..]))
  }

  ghost function Run(low: int, h: Heap, ops: seq<Op>): Heap
    requires RunOk(low, h, ops)
    decreases ops
  {
    if ops == [] then h else Run(low, Step(h, ops[0]), ops[1..])
  }

  /** A call that loses a descriptor: it got one, but no page to go with it. */
  ghost predicate Drops(h: Heap, op: Op)
    requires Linked(h)
  {
    op.Malloc? && op.len <= PAGE_SIZE && Refused(h, op.len) && FindsDesc(h, op.len)
  }

  /** The number of such calls in a run. */
  ghost function Dropped(low: int, h: Heap, ops: seq<Op>): nat
    requires RunOk(low, h, ops)
    decreases ops
  {
    if ops == [] then 0
    else (if Drops(h, ops[0]) then 1 else 0) + Dropped(low, Step(h, ops[0]), ops[1..])
  }

  lemma EmptyInv(total: nat)
    ensures Inv(Empty(total)) && Busy(Empty(total))
  {
  }

  lemma StepInv(low: int, h: Heap, op: Op)
    requires Inv(h) && Busy(h) && OpOk(low, h, op)
    ensures Inv(Step(h, op)) && Busy(Step(h, op))
    ensures |Step(h, op).lost| == |h.lost| + (if Drops(h, op) then 1 else 0)
  {
    match op
    case Malloc(len) =>
      KmallocInv(h, len);
      MallocLost(h, len);
    case Free(obj, size) =>
      KfreeInv(h, obj, size);
  }

  lemma SizesFit(len: int)
    ensures ClassFor(len, 0) < CLASSES <==> len <= PAGE_SIZE
  {
    assert Size(8) == PAGE_SIZE;
    assert forall c :: 0 <= c < CLASSES ==> Size(c) <= PAGE_SIZE;
  }

  lemma MallocLost(h: Heap, len: nat)
    requires Inv(h)
    ensures |Kmalloc(h, len).0.lost| == |h.lost| + (if Drops(h, Malloc(len)) then 1 else 0)
  {
    var c := ClassFor(len, 0);
    SizesFit(len);
    if c < CLASSES {
      NeedsPageIff(h, c);
    }
    if c < CLASSES && FindsDesc(h, len) && NeedsPage(h, c) && !HasPage(Ready(h).pages) {
      ReadyInv(h);
      assert Holds(Ready(h), InDescs);
      DropDescs(Ready(h));
    }
  }

  /** The total length of the first `k` chains. */
  function ChainTotal(chains: seq<seq<int>>, k: nat): nat
    requires k <= |chains|
  {
    if k == 0 then 0 else ChainTotal(chains, k - 1) + |chains[k - 1]|
  }

  lemma {:induction false} ChainTotalCounts(h: Heap, k: nat)
    requires Inv(h) && k <= CLASSES
    ensures ChainTotal(h.chains, k) == |set d | d in h.info && h.info[d].cls < k|
  {
    assert Holds(h, InChains);
    var below := set d | d in h.info && h.info[d].cls < k;
    if k == 0 {
      assert below == {};
    } else {
      ChainTotalCounts(h, k - 1);
      ElemsSize(h.chains[k - 1]);
      var prev := set d | d in h.info && h.info[d].cls < k - 1;
      forall d
        ensures d in below <==> d in prev || d in h.chains[k - 1]
      {
        if d in h.chains[k - 1] {
          var j :| 0 <= j < |h.chains[k - 1]| && h.chains[k - 1][j] == d;
        }
      }
      assert below == prev + Elems(h.chains[k - 1]);
      assert prev !! Elems(h.chains[k - 1]);
    }
  }

  /** Conservation across both layers, in every state that keeps the invariant:
      the pages in use are the linked descriptors' pages and the descriptor
      pages, and every descriptor carved is linked, spare or lost. */
  lemma Conservation(h: Heap)
    requires Inv(h)
    ensures h.pages.used == ChainTotal(h.chains, CLASSES) + |h.meta|
    ensures h.pages.used == |h.pages.taken|
    ensures ChainTotal(h.chains, CLASSES) + |h.spare| + |h.lost| == 256 * |h.meta|
  {
    assert Holds(h, InDescs) && Holds(h, InPages);
    ChainTotalCounts(h, CLASSES);
    var all := set d | d in h.info && h.info[d].cls < CLASSES;
    assert forall d :: d in h.info ==> h.info[d].cls < CLASSES;
    assert all == h.info.Keys;
  }

  /** Both layers after any run of calls: the invariant holds, no linked page
      is without a live object, and exactly the refused requests of at most
      4096 bytes that got a descriptor have cost it. */
  lemma {:induction false} RunInv(low: int, h: Heap, ops: seq<Op>)
    requires Inv(h) && Busy(h) && RunOk(low, h, ops)
    ensures Inv(Run(low, h, ops)) && Busy(Run(low, h, ops))
    ensures |Run(low, h, ops).lost| == |h.lost| + Dropped(low, h, ops)
    decreases ops
  {
    if ops != [] {
      StepInv(low, h, ops[0]);
      RunInv(low, Step(h, ops[0]), ops[1..]);
    }
  }

  /** The page of a linked descriptor is its free list and its live objects. */
  lemma PageSplits(h: Heap, d: int)
    requires Inv(h) && d in h.info
    ensures h.info[d].refcnt == |Live(h.info[d])|
    ensures Elems(h.info[d].free) !! Live(h.info[d])
    ensures Elems(h.info[d].free) + Live(h.info[d]) == Elems(Slots(h.info[d].page, h.info[d].cls))
  {
    assert Holds(h, InBuckets);
    LiveSize(h.info[d]);
    assert Elems(h.info[d].free) <= Elems(Slots(h.info[d].page, h.info[d].cls));
  }

  /** The allocator from the start of the system, after any run of calls. */
  lemma EveryRun(low: int, total: nat, ops: seq<Op>)
    requires RunOk(low, Empty(total), ops)
    ensures
      var h := Run(low, Empty(total), ops);
      && Inv(h) && Busy(h)
      && h.pages.used == |h.pages.taken| == ChainTotal(h.chains, CLASSES) + |h.meta|
      && ChainTotal(h.chains, CLASSES) + |h.spare| + Dropped(low, Empty(total), ops) == 256 * |h.meta|
      && (forall d :: d in h.info ==>
            && h.info[d].refcnt == |Live(h.info[d])| > 0
            && Elems(h.info[d].free) !! Live(h.info[d])
            && Elems(h.info[d].free) + Live(h.info[d]) == Elems(Slots(h.info[d].page, h.info[d].cls)))
      && forall x, y :: x in Blocks(h.info) && y in Blocks(h.info) && x != y ==>
           x.0 + x.1 <= y.0 || y.0 + y.1 <= x.0
  {
    EmptyInv(total);
    RunInv(low, Empty(total), ops);
    var h := Run(low, Empty(total), ops);
    Conservation(h);
    forall d | d in h.info
      ensures h.info[d].refcnt == |Live(h.info[d])|
      ensures Elems(h.info[d].free) !! Live(h.info[d])
      ensures Elems(h.info[d].free) + Live(h.info[d]) == Elems(Slots(h.info[d].page, h.info[d].cls))
    {
      PageSplits(h, d);
    }
    forall x, y | x in Blocks(h.info) && y in Blocks(h.info) && x != y
      ensures x.0 + x.1 <= y.0 || y.0 + y.1 <= x.0
    {
      BlocksDisjoint(h, x, y);
    }
  }

  /** The first request on a single page: the page goes to descriptors, none is
      left for objects, and a descriptor is lost. */
  lemma FirstRequest()
    ensures
      var h, t := Empty(1), Kmalloc(Empty(1), 16).0;
      && FindsDesc(h, 16) && t.chains == h.chains && t.info == h.info
      && |t.spare| == 255 && |t.lost| == 1 && !HasPage(t.pages)
  {
    var h := Empty(1);
    EmptyInv(1);
    assert ClassFor(16, 0) == 0;
    assert Next(h.pages) == 0;
    var r := Refill(h).pages;
    assert r.taken == {0} && r.used == 1;
    assert !HasPage(r);
    CarveNotEmpty(PageAddr(0));
    MallocLost(h, 16);
  }

  lemma DescriptorLost(low: int)
    ensures RunOk(low, Empty(1), [Malloc(16)])
    ensures |Run(low, Empty(1), [Malloc(16)]).lost| == 1
  {
    FirstRequest();
    var ops := [Malloc(16)];
    assert ops[1..] == [];
  }

  /** Requests without any page cost a descriptor each. */
  lemma {:induction false} Refusals(low: int, h: Heap, n: nat)
    requires h.chains == Empty(1).chains && n <= |h.spare| && !HasPage(h.pages)
    ensures
      var ops := seq(n, _ => Malloc(16));
      && RunOk(low, h, ops)
      && var t := Run(low, h, ops);
      t.chains == h.chains && |t.spare| == |h.spare| - n && t.pages == h.pages
    decreases n
  {
    if n > 0 {
      var ops := seq(n, _ => Malloc(16));
      assert ClassFor(16, 0) == 0;
      assert Linked(h) && Kmalloc(h, 16).0 == Drop(h);
      Refusals(low, Drop(h), n - 1);
      assert ops[1..] == seq(n - 1, _ => Malloc(16));
    }
  }

  /** 256 requests on a single page use up all descriptors: the next one takes
      the null pointer for a descriptor. */
  lemma NullReached(low: int)
    ensures
      var ops := seq(256, _ => Malloc(16));
      && RunOk(low, Empty(1), ops) && Linked(Run(low, Empty(1), ops))
      && !FindsDesc(Run(low, Empty(1), ops), 16)
  {
    var ops := seq(256, _ => Malloc(16));
    FirstRequest();
    assert ClassFor(16, 0) == 0;
    var t := Kmalloc(Empty(1), 16).0;
    Refusals(low, t, 255);
    assert ops[1..] == seq(255, _ => Malloc(16));
  }

  /** A request takes at most two pages, and the region stays as it is. */
  lemma KmallocPages(h: Heap, len: int)
    requires Linked(h)
    ensures
      var t := Kmalloc(h, len).0;
      h.pages.used <= t.pages.used <= h.pages.used + 2 && t.pages.total == h.pages.total
  {
  }

  /** While less than half of the memory is in use, counting one page more for
      descriptors, every request of at most 4096 bytes is served. */
  lemma HalfFullServes(h: Heap, len: nat)
    requires Inv(h) && len <= PAGE_SIZE
    requires 2 * (h.pages.used + 1) < h.pages.total
    ensures FindsDesc(h, len) && !Refused(h, len) && Kmalloc(h, len).1 != 0
  {
    assert Holds(h, InPages);
    HalfFull(h.pages);
    ReadyHasPage(h);
    KmallocAddsBlock(h, len);
  }

  lemma ReadyHasPage(h: Heap)
    requires Inv(h) && HasPage(h.pages) && 2 * (h.pages.used + 1) < h.pages.total
    ensures HasPage(Ready(h).pages)
  {
    ReadyInv(h);
    assert Holds(Ready(h), InPages);
    HalfFull(Ready(h).pages);
  }
}
