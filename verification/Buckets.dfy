/** The bucket allocator on values: what one call of `kmalloc` or `kfree_s` does
    to the nine descriptor chains, the spare descriptors, the free list of each
    page and the page layer below. */
module BucketSpec {
  import opened Machine
  import opened PageSpec

  const CLASSES := 9

  function Size(c: nat): int
    requires c < CLASSES
  {
    match c
    case 0 => 16
    case 1 => 32
    case 2 => 64
    case 3 => 128
    case 4 => 256
    case 5 => 512
    case 6 => 1024
    case 7 => 2048
    case _ => 4096
  }

  function Count(c: nat): nat
    requires c < CLASSES
  {
    PAGE_SIZE / Size(c)
  }

  /** Where object number `j` starts in a page of class `c`. */
  function Offset(c: nat, j: int): int
    requires c < CLASSES
    decreases j
  {
    if j <= 0 then 0 else Offset(c, j - 1) + Size(c)
  }

  /** Object number `j` of a page cut into objects of class `c`. */
  function Slot(page: int, c: nat, j: int): int
    requires c < CLASSES
  {
    page + Offset(c, j)
  }

  function Slots(page: int, c: nat): seq<int>
    requires c < CLASSES
  {
    seq(Count(c), j => Slot(page, c, j))
  }

  /** The 256 descriptors of 16 bytes that a descriptor page holds. */
  function Carve(page: int): seq<int> {
    Slots(page, 0)
  }

  /** A descriptor's meaning: its size class, its page, the free objects in
      list order and the stored count of live objects. */
  datatype Bucket = Bucket(cls: nat, page: int, free: seq<int>, refcnt: int)

  /** `chains[c]` lists the descriptors of class `c` in chain order, `spare` the
      free descriptors in list order. `meta` holds the pages cut into
      descriptors and `lost` the descriptors dropped by a failed request. */
  datatype Heap = Heap(
    chains: seq<seq<int>>,
    info: map<int, Bucket>,
    spare: seq<int>,
    lost: set<int>,
    meta: set<int>,
    pages: PageState
  )

  function Empty(total: nat): Heap {
    Heap(seq(CLASSES, _ => []), map[], [], {}, {}, Fresh(total))
  }

  ghost function Live(b: Bucket): set<int>
    requires b.cls < CLASSES
  {
    Elems(Slots(b.page, b.cls)) - Elems(b.free)
  }

  // ----- Invariant -----

  predicate AllIn(info: map<int, Bucket>, s: seq<int>) {
    forall j :: 0 <= j < |s| ==> s[j] in info
  }

  /** A whole page the page layer has handed out. */
  predicate IsPage(s: PageState, p: int) {
    p % PAGE_SIZE == 0 && BASE <= p && PageIndex(p) in s.taken
  }

  ghost predicate ChainsOk(h: Heap) {
    && |h.chains| == CLASSES
    && (forall c, j :: 0 <= c < CLASSES && 0 <= j < |h.chains[c]| ==>
          h.chains[c][j] in h.info && h.info[h.chains[c][j]].cls == c)
    && (forall d :: d in h.info ==> h.info[d].cls < CLASSES && d in h.chains[h.info[d].cls])
    && (forall c :: 0 <= c < CLASSES ==> NoDup(h.chains[c]))
  }

  ghost predicate DescOk(h: Heap, d: int) {
    d % 16 == 0 && PageOf(d) in h.meta
  }

  ghost predicate DescsOk(h: Heap) {
    && NoDup(h.spare)
    && (forall d :: d in h.info ==> DescOk(h, d) && d !in h.spare && d !in h.lost)
    && (forall d :: d in h.spare ==> DescOk(h, d) && d !in h.lost)
    && (forall d :: d in h.lost ==> DescOk(h, d))
    && |h.info| + |h.spare| + |h.lost| == 256 * |h.meta|
  }

  ghost predicate PagesOk(h: Heap) {
    && PageInv(h.pages)
    && (forall p :: p in h.meta ==> IsPage(h.pages, p))
    && (forall d :: d in h.info ==> IsPage(h.pages, h.info[d].page) && h.info[d].page !in h.meta)
    && (forall d, e :: d in h.info && e in h.info && h.info[d].page == h.info[e].page ==> d == e)
    && h.pages.used == |h.info| + |h.meta|
  }

  ghost predicate BucketOk(b: Bucket)
    requires b.cls < CLASSES
  {
    && NoDup(b.free)
    && (forall a :: a in b.free ==> a in Slots(b.page, b.cls))
    && b.refcnt + |b.free| == Count(b.cls)
  }

  /** The nine chains list descriptors. */
  predicate Linked(h: Heap) {
    && |h.chains| == CLASSES
    && (forall c :: 0 <= c < CLASSES ==> AllIn(h.info, h.chains[c]))
  }

  /** Every descriptor is of one of the nine classes. */
  ghost predicate Shaped(h: Heap) {
    && Linked(h)
    && (forall d :: d in h.info ==> h.info[d].cls < CLASSES)
  }

  /** The clauses of the invariant. */
  datatype Clause = InChains | InDescs | InPages | InBuckets

  ghost predicate Holds(h: Heap, clause: Clause)
    requires Shaped(h)
  {
    match clause
    case InChains => ChainsOk(h)
    case InDescs => DescsOk(h)
    case InPages => PagesOk(h)
    case InBuckets => forall d :: d in h.info ==> BucketOk(h.info[d])
  }

  /** The two-layer invariant: every clause holds. A proof names the clauses that
      it needs. */
  ghost predicate Inv(h: Heap) {
    Shaped(h) && forall clause :: Holds(h, clause)
  }

  lemma Clauses(h: Heap)
    requires Inv(h)
    ensures ChainsOk(h) && DescsOk(h) && PagesOk(h) && forall d :: d in h.info ==> BucketOk(h.info[d])
  {
    assert Holds(h, InChains) && Holds(h, InDescs) && Holds(h, InPages) && Holds(h, InBuckets);
  }

  /** No linked descriptor is empty: between calls a page without live objects
      is always back in the page layer. */
  ghost predicate Busy(h: Heap) {
    forall d :: d in h.info ==> h.info[d].refcnt > 0
  }

  // ----- Arithmetic of slots -----

  lemma InPage(page: int, off: int)
    requires page % PAGE_SIZE == 0 && 0 <= off < PAGE_SIZE
    ensures PageOf(page + off) == page
  {
  }

  lemma {:induction false} OffsetIsProduct(c: nat, j: int)
    requires c < CLASSES && j >= 0
    ensures Offset(c, j) == j * Size(c)
    decreases j
  {
    if j > 0 {
      OffsetIsProduct(c, j - 1);
    }
  }

  lemma ProductFacts(c: nat, j: int)
    requires c < CLASSES && 0 <= j < Count(c)
    ensures 0 <= j * Size(c) && j * Size(c) + Size(c) <= PAGE_SIZE && (j * Size(c)) % 16 == 0
  {
    if c == 0 { } else if c == 1 { } else if c == 2 { } else if c == 3 { } else if c == 4 { }
    else if c == 5 { } else if c == 6 { } else if c == 7 { } else { assert c == 8; }
  }

  /** The nine object sizes, and the objects of a page one behind the other. */
  lemma SizesAre()
    ensures Size(0) == 16 && Size(1) == 32 && Size(2) == 64 && Size(3) == 128 && Size(4) == 256
    ensures Size(5) == 512 && Size(6) == 1024 && Size(7) == 2048 && Size(8) == 4096
  {
  }

  lemma SlotFacts(page: int, c: nat, j: int)
    requires c < CLASSES && 0 <= j < Count(c) && page % PAGE_SIZE == 0
    ensures Slot(page, c, j) % 16 == 0
    ensures PageOf(Slot(page, c, j)) == page
    ensures page <= Slot(page, c, j) && Slot(page, c, j) + Size(c) <= page + PAGE_SIZE
  {
    OffsetIsProduct(c, j);
    ProductFacts(c, j);
    InPage(page, Offset(c, j));
  }

  lemma {:induction false} SlotsApart(page: int, c: nat, i: int, j: int)
    requires c < CLASSES && 0 <= i < j
    ensures Slot(page, c, i) + Size(c) <= Slot(page, c, j)
    decreases j
  {
    if i < j - 1 {
      SlotsApart(page, c, i, j - 1);
    }
  }

  lemma InSlots(page: int, c: nat, a: int) returns (j: int)
    requires c < CLASSES && page % PAGE_SIZE == 0 && a in Slots(page, c)
    ensures 0 <= j < Count(c) && a == Slot(page, c, j)
    ensures a % 16 == 0 && PageOf(a) == page && page <= a && a + Size(c) <= page + PAGE_SIZE
  {
    j :| 0 <= j < Count(c) && Slots(page, c)[j] == a;
    SlotFacts(page, c, j);
  }

  lemma SlotsDistinct(page: int, c: nat)
    requires c < CLASSES
    ensures NoDup(Slots(page, c)) && |Slots(page, c)| == Count(c) >= 1
  {
    forall i, j | 0 <= i < j < Count(c)
      ensures Slots(page, c)[i] != Slots(page, c)[j]
    {
      SlotsApart(page, c, i, j);
    }
  }

  /** A page of class `c` is its objects one behind the other, from its start to
      its end. */
  lemma SlotsAre(page: int, c: nat, j: nat)
    requires c < CLASSES && j < 4096 / Size(c)
    ensures |Slots(page, c)| * Size(c) == 4096 && Slots(page, c)[j] == page + j * Size(c)
  {
    OffsetIsProduct(c, j);
    SlotsFill(page, c);
  }

  lemma SlotsFill(page: int, c: nat)
    requires c < CLASSES
    ensures |Slots(page, c)| == 4096 / Size(c) && |Slots(page, c)| * Size(c) == 4096
  {
    SizesAre();
  }

  /** A descriptor page is 256 descriptors of 16 bytes, one behind the other, which
      come first in the spare list, in this order. */
  lemma RefillIs(h: Heap, j: nat)
    requires j < 256
    ensures
      var s := Refill(h).spare;
      && |s| == 256 + |h.spare| && s[256..] == h.spare
      && s[j] == 0x100000 + 4096 * Next(h.pages) + 16 * j
  {
    var p := PageAddr(Next(h.pages));
    SlotsAre(p, 0, j);
    CarveNotEmpty(p);
  }

  lemma PageAddrFacts(i: int)
    ensures PageAddr(i) % PAGE_SIZE == 0 && PageIndex(PageAddr(i)) == i
    ensures i >= 0 ==> PageAddr(i) >= BASE
  {
  }

  lemma PageIndexInjective(p: int, q: int)
    requires p % PAGE_SIZE == 0 && q % PAGE_SIZE == 0 && PageIndex(p) == PageIndex(q)
    ensures p == q
  {
  }

  // ----- kmalloc -----

  /** The smallest class that holds `len` bytes, searched from `c` on. */
  function ClassFor(len: int, c: nat): (r: nat)
    requires c <= CLASSES
    ensures c <= r <= CLASSES
    ensures r < CLASSES ==> Size(r) >= len
    ensures forall k :: c <= k < r ==> Size(k) < len
    decreases CLASSES - c
  {
    if c == CLASSES || Size(c) >= len then c else ClassFor(len, c + 1)
  }

  /** Position of the first descriptor of a chain that has a free object. */
  function FirstFree(info: map<int, Bucket>, s: seq<int>): (k: nat)
    requires AllIn(info, s)
    ensures k <= |s|
    ensures k < |s| ==> info[s[k]].free != []
    ensures forall j :: 0 <= j < k ==> info[s[j]].free == []
  {
    if s == [] || info[s[0]].free != [] then 0 else 1 + FirstFree(info, s[1..])
  }

  /** `init_bucket_desc` when the page layer has a page. */
  function Refill(h: Heap): Heap {
    var p := PageAddr(Next(h.pages));
    h.(spare := Carve(p) + h.spare, meta := h.meta + {p}, pages := Take(h.pages))
  }

  /** A spare descriptor takes a fresh page, all of whose objects are free. */
  function Open(h: Heap, c: nat): Heap
    requires |h.chains| == CLASSES && c < CLASSES && h.spare != []
  {
    var d := h.spare[0];
    var p := PageAddr(Next(h.pages));
    h.(chains := h.chains[c := [d] + h.chains[c]],
    info := h.info[d := Bucket(c, p, Slots(p, c), 0)],
    spare := h.spare[1..],
    pages := Take(h.pages))
  }

  /** The spare descriptor is taken off its list, but no page comes. */
  function Drop(h: Heap): Heap
    requires h.spare != []
  {
    h.(spare := h.spare[1..], lost := h.lost + {h.spare[0]})
  }

  function Pop(h: Heap, d: int): Heap
    requires d in h.info && h.info[d].free != []
  {
    var b := h.info[d];
    h.(info := h.info[d := b.(free := b.free[1..], refcnt := b.refcnt + 1)])
  }

  /** A request of class `c` finds no free object in a linked page. */
  predicate NeedsPage(h: Heap, c: nat)
    requires Linked(h) && c < CLASSES
  {
    forall j :: 0 <= j < |h.chains[c]| ==> h.info[h.chains[c][j]].free == []
  }

  /** The call does not take the null pointer for a descriptor: it needs none,
      there is a spare one, or a descriptor page can be had. */
  predicate FindsDesc(h: Heap, len: int)
    requires Linked(h)
  {
    var c := ClassFor(len, 0);
    c < CLASSES && NeedsPage(h, c) ==> h.spare != [] || HasPage(h.pages)
  }

  /** The heap from which a page for class `c` is opened. */
  function Ready(h: Heap): Heap {
    if h.spare == [] then Refill(h) else h
  }

  lemma CarveNotEmpty(page: int)
    ensures |Carve(page)| == 256
  {
  }

  /** The part of kmalloc that opens a new page. */
  function FromNewPage(h: Heap, c: nat): (Heap, int)
    requires |h.chains| == CLASSES && c < CLASSES
    requires h.spare != [] || HasPage(h.pages)
  {
    var h1 := Ready(h);
    CarveNotEmpty(PageAddr(Next(h.pages)));
    if !HasPage(h1.pages) then (Drop(h1), 0)
    else
      SlotsDistinct(PageAddr(Next(h1.pages)), c);
      (Pop(Open(h1, c), h1.spare[0]), PageAddr(Next(h1.pages)))
  }

  /** A request that finds no descriptor leaves the heap as it is. */
  function Kmalloc(h: Heap, len: int): (Heap, int)
    requires Linked(h)
  {
    var c := ClassFor(len, 0);
    if c == CLASSES || !FindsDesc(h, len) then (h, 0)
    else if NeedsPage(h, c) then FromNewPage(h, c)
    else
      var d := h.chains[c][FirstFree(h.info, h.chains[c])];
      (Pop(h, d), h.info[d].free[0])
  }

  // ----- kfree_s -----

  /** Position of the first descriptor of a chain that owns `page`. */
  function Owner(info: map<int, Bucket>, s: seq<int>, page: int): (k: nat)
    requires AllIn(info, s)
    ensures k <= |s|
    ensures k < |s| ==> info[s[k]].page == page
    ensures forall j :: 0 <= j < k ==> info[s[j]].page != page
  {
    if s == [] || info[s[0]].page == page then 0 else 1 + Owner(info, s[1..], page)
  }

  /** The class in whose chain the owner of `page` is found, searching from `c`
      on among the classes of at least `size` bytes; `CLASSES` if there is none. */
  function OwnerClass(h: Heap, page: int, size: int, c: nat): (r: nat)
    requires Linked(h) && c <= CLASSES
    ensures c <= r <= CLASSES
    ensures r < CLASSES ==> Size(r) >= size && Owner(h.info, h.chains[r], page) < |h.chains[r]|
    ensures forall k :: c <= k < r && Size(k) >= size ==> Owner(h.info, h.chains[k], page) == |h.chains[k]|
    decreases CLASSES - c
  {
    if c == CLASSES || (Size(c) >= size && Owner(h.info, h.chains[c], page) < |h.chains[c]|) then c
    else OwnerClass(h, page, size, c + 1)
  }

  function Push(b: Bucket, obj: int): Bucket {
    b.(free := [obj] + b.free, refcnt := b.refcnt - 1)
  }

  function RemoveAt(s: seq<int>, k: nat): seq<int>
    requires k < |s|
  {
    s[..k] + s[k + 1..]
  }

  /** Unlinks descriptor number `k` of chain `c` and gives its page back. */
  function Close(h: Heap, c: nat, k: nat): Heap
    requires Linked(h) && c < CLASSES && k < |h.chains[c]|
  {
    var d := h.chains[c][k];
    h.(chains := h.chains[c := RemoveAt(h.chains[c], k)],
    info := h.info - {d},
    spare := [d] + h.spare,
    pages := Release(h.pages, PageIndex(h.info[d].page)))
  }

  function Kfree(h: Heap, obj: int, size: int): Heap
    requires Linked(h)
  {
    var c := OwnerClass(h, PageOf(obj), size, 0);
    if c == CLASSES then h
    else
      var k := Owner(h.info, h.chains[c], PageOf(obj));
      var d := h.chains[c][k];
      if h.info[d].refcnt == 1 then Close(h, c, k)
      else h.(info := h.info[d := Push(h.info[d], obj)])
  }

  /** A valid free: if the search finds a descriptor, the object is live there. */
  ghost predicate CanFree(h: Heap, obj: int, size: int) {
    && Linked(h)
    && var c := OwnerClass(h, PageOf(obj), size, 0);
       (c < CLASSES ==>
          var d := h.chains[c][Owner(h.info, h.chains[c], PageOf(obj))];
          h.info[d].cls < CLASSES && obj in Live(h.info[d]))
  }
}
