/** How a heap lies in memory: descriptors and free objects are words of the same
    array that holds the clients' data. Cell `a` of the memory is the 32-bit
    word at byte address `a`; only cells at multiples of four are used. */
module BucketMemory {
  import opened Machine
  import opened PageSpec
  import opened BucketSpec
  import opened BucketInvariant
  import opened BucketTheorems

  // struct bucket_desc: byte offsets of page, next, freeptr, and of the word
  // that packs refcnt (low half) and bucket_size (high half).
  const PAGE := 0
  const NEXT := 4
  const FREEPTR := 8
  const COUNTS := 12

  function Pack(refcnt: int, size: int): int {
    refcnt + 0x10000 * size
  }

  function Lo(w: int): int {
    w % 0x10000
  }

  function Hi(w: int): int {
    w / 0x10000
  }

  lemma PackFacts(refcnt: int, size: int)
    requires 0 <= refcnt < 0x10000
    ensures Lo(Pack(refcnt, size)) == refcnt && Hi(Pack(refcnt, size)) == size
  {
  }

  /** The link word of node `j` of a list. */
  function LinkOf(m: seq<word>, off: int, s: seq<int>, j: int): int
    requires 0 <= j < |s| && 0 <= s[j] + off < |m|
  {
    m[s[j] + off]
  }

  /** `head` starts a null-terminated list of the nodes `s`, each linked to the
      next by the word `off` bytes into it. */
  ghost predicate Links(m: seq<word>, off: int, head: int, s: seq<int>) {
    && head == Nth(s, 0)
    && (forall j :: 0 <= j < |s| ==> 0 <= s[j] + off < |m|)
    && (forall j {:trigger LinkOf(m, off, s, j)} :: 0 <= j < |s| ==> LinkOf(m, off, s, j) == Nth(s, j + 1))
  }

  lemma ReadLink(m: seq<word>, off: int, head: int, s: seq<int>, k: nat)
    requires Links(m, off, head, s) && k < |s|
    ensures 0 <= s[k] + off < |m| && m[s[k] + off] == Nth(s, k + 1)
  {
    assert LinkOf(m, off, s, k) == Nth(s, k + 1);
  }

  ghost predicate BucketAt(m: seq<word>, d: int, b: Bucket) {
    && 0 <= d && d + 16 <= |m| && b.cls < CLASSES
    && m[d + PAGE] == b.page
    && m[d + FREEPTR] == Nth(b.free, 0)
    && m[d + COUNTS] == Pack(b.refcnt, Size(b.cls))
    && Links(m, 0, Nth(b.free, 0), b.free)
  }

  ghost predicate Chains(m: seq<word>, heads: seq<word>, chains: seq<seq<int>>) {
    && |heads| == |chains| == CLASSES
    && forall c :: 0 <= c < CLASSES ==> Links(m, NEXT, heads[c], chains[c])
  }

  ghost predicate Buckets(m: seq<word>, info: map<int, Bucket>) {
    forall d :: d in info ==> BucketAt(m, d, info[d])
  }

  /** The parts of a heap's representation. */
  datatype Part = TheChains | TheSpare | TheBuckets

  ghost predicate Stored(m: seq<word>, heads: seq<word>, spareHead: int, h: Heap, part: Part) {
    match part
    case TheChains => Chains(m, heads, h.chains)
    case TheSpare => Links(m, NEXT, spareHead, h.spare)
    case TheBuckets => Buckets(m, h.info)
  }

  /** The words `m`, the heads of the chains and the head of the spare list
      represent the heap: every part of it is stored. */
  ghost predicate Rep(m: seq<word>, heads: seq<word>, spareHead: int, h: Heap) {
    && |m| == BASE + h.pages.total * PAGE_SIZE <= 0x1_0000_0000 && |heads| == |h.chains| == CLASSES
    && forall part :: Stored(m, heads, spareHead, h, part)
  }

  lemma Parts(m: seq<word>, heads: seq<word>, spareHead: int, h: Heap)
    requires Rep(m, heads, spareHead, h)
    ensures Chains(m, heads, h.chains) && Links(m, NEXT, spareHead, h.spare) && Buckets(m, h.info)
  {
    assert Stored(m, heads, spareHead, h, TheChains);
    assert Stored(m, heads, spareHead, h, TheSpare);
    assert Stored(m, heads, spareHead, h, TheBuckets);
  }

  // ----- Framing -----

  ghost predicate SameExcept(m: seq<word>, n: seq<word>, lo: int, hi: int) {
    |m| == |n| && forall a :: 0 <= a < |m| && !(lo <= a < hi) ==> n[a] == m[a]
  }

  /** The 16-byte unit around an address. */
  function UnitOf(a: int): int {
    a - a % 16
  }

  lemma InUnitOf(q: int, k: int)
    requires 0 <= k < 16
    ensures (16 * q + k) % 16 == k
  {
  }

  lemma PageRemainder(p: int, x: int)
    requires 0 <= x < PAGE_SIZE
    ensures (PAGE_SIZE * p + x) % PAGE_SIZE == x
  {
  }

  lemma UnitFacts(d: int, k: int)
    requires d % 16 == 0 && 0 <= k < 16
    ensures UnitOf(d + k) == d && PageOf(d + k) == PageOf(d)
  {
    var q, p := d / 16, d / PAGE_SIZE;
    var x := 16 * (q - 256 * p);
    assert d == 16 * q == PAGE_SIZE * p + x && 0 <= x && x + 16 <= PAGE_SIZE;
    InUnitOf(q, k);
    PageRemainder(p, x);
    PageRemainder(p, x + k);
  }

  /** No word of a unit lies in another one. */
  lemma UnitsApart(d: int, e: int, k: int)
    requires d % 16 == 0 && e % 16 == 0 && d != e && 0 <= k < 16
    ensures !(d <= e + k < d + 16)
  {
    UnitFacts(e, k);
    if d <= e + k < d + 16 {
      UnitFacts(d, e + k - d);
    }
  }

  /** No word outside the descriptor pages lies in a descriptor. */
  lemma OffDesc(h: Heap, d: int, a: int)
    requires DescOk(h, d) && PageOf(a) !in h.meta
    ensures !(d <= a < d + 16)
  {
    if d <= a < d + 16 {
      UnitFacts(d, a - d);
    }
  }

  lemma OffPage(page: int, a: int)
    requires page % PAGE_SIZE == 0 && PageOf(a) != page
    ensures !(page <= a < page + PAGE_SIZE)
  {
    if page <= a < page + PAGE_SIZE {
      InPage(page, a - page);
    }
  }

  lemma InUnit(a: int, page: int)
    requires a % 16 == 0 && page % PAGE_SIZE == 0 && page <= a < page + PAGE_SIZE
    ensures a + 16 <= page + PAGE_SIZE
  {
    var q, p := a / 16, page / PAGE_SIZE;
    assert 16 * q < 16 * (256 * p + 256);
  }

  lemma Times4(q: int)
    ensures (4 * q) % 4 == 0
  {
  }

  /** Every word the allocator loads or stores is at a multiple of four: the
      four words of each descriptor and the first word of each object. */
  lemma WordsAligned(h: Heap, d: int)
    requires Inv(h) && (d in h.info || d in h.spare || d in h.lost)
    ensures d % 4 == 0 && (d + NEXT) % 4 == 0 && (d + FREEPTR) % 4 == 0 && (d + COUNTS) % 4 == 0
    ensures d in h.info ==> forall a :: a in Slots(h.info[d].page, h.info[d].cls) ==> a % 4 == 0
  {
    assert Holds(h, InDescs) && Holds(h, InPages);
    assert DescOk(h, d);
    var q := 4 * (d / 16);
    Times4(q);
    Times4(q + 1);
    Times4(q + 2);
    Times4(q + 3);
    if d in h.info {
      forall a | a in Slots(h.info[d].page, h.info[d].cls)
        ensures a % 4 == 0
      {
        var j := InSlots(h.info[d].page, h.info[d].cls, a);
        Times4(4 * (a / 16));
      }
    }
  }

  lemma TakenPage(s: PageState, p: int)
    requires PageInv(s) && IsPage(s, p)
    ensures BASE <= p && p + PAGE_SIZE <= BASE + s.total * PAGE_SIZE
  {
  }

  lemma DescBounds(h: Heap, d: int)
    requires Inv(h) && DescOk(h, d)
    ensures BASE <= d && d + 16 <= BASE + h.pages.total * PAGE_SIZE
  {
    assert Holds(h, InPages);
    TakenPage(h.pages, PageOf(d));
    InUnit(d, PageOf(d));
  }

  lemma FreeFacts(h: Heap, d: int, a: int)
    requires Inv(h) && d in h.info && a in h.info[d].free
    ensures a % 16 == 0 && PageOf(a) == h.info[d].page && PageOf(a) !in h.meta
    ensures BASE <= a && a + 16 <= BASE + h.pages.total * PAGE_SIZE
  {
    assert Holds(h, InPages) && Holds(h, InBuckets);
    var j := InSlots(h.info[d].page, h.info[d].cls, a);
    TakenPage(h.pages, h.info[d].page);
  }

  lemma LinksFrame(m: seq<word>, n: seq<word>, off: int, head: int, s: seq<int>)
    requires Links(m, off, head, s) && |m| == |n|
    requires forall j :: 0 <= j < |s| ==> n[s[j] + off] == m[s[j] + off]
    ensures Links(n, off, head, s)
  {
    forall j | 0 <= j < |s|
      ensures LinkOf(n, off, s, j) == Nth(s, j + 1)
    {
      assert LinkOf(n, off, s, j) == LinkOf(m, off, s, j);
    }
  }

  /** Rewriting one descriptor leaves every list it is not on as it was. */
  lemma OtherLinks(m: seq<word>, n: seq<word>, d: int, head: int, s: seq<int>)
    requires SameExcept(m, n, d, d + 16) && d % 16 == 0 && Links(m, NEXT, head, s)
    requires forall e :: e in s ==> e % 16 == 0
    requires d !in s || n[d + NEXT] == m[d + NEXT]
    ensures Links(n, NEXT, head, s)
  {
    forall j | 0 <= j < |s|
      ensures n[s[j] + NEXT] == m[s[j] + NEXT]
    {
      assert s[j] in s;
      if s[j] != d {
        UnitsApart(d, s[j], NEXT);
      }
    }
    LinksFrame(m, n, NEXT, head, s);
  }

  /** Rewriting one descriptor leaves every other bucket as it was. */
  lemma OtherBucket(m: seq<word>, n: seq<word>, h: Heap, d: int, e: int)
    requires Inv(h) && DescOk(h, d) && e in h.info && e != d
    requires SameExcept(m, n, d, d + 16) && BucketAt(m, e, h.info[e])
    ensures BucketAt(n, e, h.info[e])
  {
    assert Holds(h, InDescs);
    assert d + 16 <= e || e + 16 <= d;
    FreeAwayFromDesc(m, n, h, d, e);
  }

  lemma FreeAwayFromDesc(m: seq<word>, n: seq<word>, h: Heap, d: int, e: int)
    requires Inv(h) && DescOk(h, d) && e in h.info
    requires SameExcept(m, n, d, d + 16)
    requires var f := h.info[e].free; Links(m, 0, Nth(f, 0), f)
    ensures var f := h.info[e].free; Links(n, 0, Nth(f, 0), f)
  {
    var f := h.info[e].free;
    forall j | 0 <= j < |f|
      ensures n[f[j]] == m[f[j]]
    {
      assert f[j] in f;
      FreeFacts(h, e, f[j]);
      OffDesc(h, d, f[j]);
    }
    LinksFrame(m, n, 0, Nth(f, 0), f);
  }

  lemma WordOffPage(h: Heap, page: int, d: int, k: int)
    requires DescOk(h, d) && page % PAGE_SIZE == 0 && page !in h.meta && 0 <= k < 16
    ensures !(page <= d + k < page + PAGE_SIZE)
  {
    UnitFacts(d, k);
    OffPage(page, d + k);
  }

  /** Rewriting a page that holds no descriptor leaves all descriptor lists. */
  lemma LinksOffPage(m: seq<word>, n: seq<word>, h: Heap, page: int, head: int, s: seq<int>)
    requires SameExcept(m, n, page, page + PAGE_SIZE) && page % PAGE_SIZE == 0 && page !in h.meta
    requires Links(m, NEXT, head, s) && forall e :: e in s ==> DescOk(h, e)
    ensures Links(n, NEXT, head, s)
  {
    forall j | 0 <= j < |s|
      ensures n[s[j] + NEXT] == m[s[j] + NEXT]
    {
      assert s[j] in s;
      WordOffPage(h, page, s[j], NEXT);
    }
    LinksFrame(m, n, NEXT, head, s);
  }

  /** Rewriting a page that holds no descriptor leaves the buckets of all
      other pages. */
  lemma BucketOffPage(m: seq<word>, n: seq<word>, h: Heap, page: int, e: int)
    requires Inv(h) && e in h.info && h.info[e].page != page
    requires SameExcept(m, n, page, page + PAGE_SIZE) && page % PAGE_SIZE == 0 && page !in h.meta
    requires BucketAt(m, e, h.info[e])
    ensures BucketAt(n, e, h.info[e])
  {
    assert Holds(h, InDescs);
    WordOffPage(h, page, e, PAGE);
    WordOffPage(h, page, e, FREEPTR);
    WordOffPage(h, page, e, COUNTS);
    var f := h.info[e].free;
    forall j | 0 <= j < |f|
      ensures n[f[j]] == m[f[j]]
    {
      assert f[j] in f;
      FreeFacts(h, e, f[j]);
      OffPage(page, f[j]);
    }
    LinksFrame(m, n, 0, Nth(f, 0), f);
  }

  // ----- One step at a time -----

  lemma PopRep(m: seq<word>, n: seq<word>, heads: seq<word>, spareHead: int, h: Heap, d: int)
    requires Inv(h) && Rep(m, heads, spareHead, h) && d in h.info && h.info[d].free != []
    requires 0 <= d && d + 16 <= |m|
    requires SameExcept(m, n, d, d + 16) && n[d + PAGE] == m[d + PAGE] && n[d + NEXT] == m[d + NEXT]
    requires n[d + FREEPTR] == Nth(h.info[d].free, 1)
    requires n[d + COUNTS] == Pack(h.info[d].refcnt + 1, Size(h.info[d].cls))
    ensures Rep(n, heads, spareHead, Pop(h, d))
  {
    Parts(m, heads, spareHead, h);
    assert Holds(h, InDescs);
    var t := Pop(h, d);
    DescWriteKeepsLists(m, n, heads, spareHead, h, d);
    forall e | e in t.info
      ensures BucketAt(n, e, t.info[e])
    {
      if e != d {
        OtherBucket(m, n, h, d, e);
      } else {
        FreeAwayFromDesc(m, n, h, d, d);
        TailLinks(n, 0, h.info[d].free[0], h.info[d].free);
      }
    }
  }

  lemma DescWriteKeepsLists(m: seq<word>, n: seq<word>, heads: seq<word>, spareHead: int, h: Heap, d: int)
    requires Inv(h) && Chains(m, heads, h.chains) && Links(m, NEXT, spareHead, h.spare) && DescOk(h, d)
    requires 0 <= d && d + 16 <= |m| && SameExcept(m, n, d, d + 16) && n[d + NEXT] == m[d + NEXT]
    ensures Chains(n, heads, h.chains)
    ensures Links(n, NEXT, spareHead, h.spare)
  {
    assert Holds(h, InDescs);
    forall c | 0 <= c < CLASSES
      ensures Links(n, NEXT, heads[c], h.chains[c])
    {
      assert forall e :: e in h.chains[c] ==> DescOk(h, e);
      OtherLinks(m, n, d, heads[c], h.chains[c]);
    }
    OtherLinks(m, n, d, spareHead, h.spare);
  }

  /** Putting an object back: its first word becomes the list link. */
  lemma PushRep(m: seq<word>, n: seq<word>, heads: seq<word>, spareHead: int, h: Heap, d: int, obj: int)
    requires Inv(h) && Rep(m, heads, spareHead, h) && d in h.info && obj in Live(h.info[d])
    requires 0 <= obj < |m| && 0 <= d && d + 16 <= |m|
    requires var mid := m[obj := m[d + FREEPTR]];
             SameExcept(mid, n, d, d + 16) && n[d + PAGE] == mid[d + PAGE] && n[d + NEXT] == mid[d + NEXT]
    requires n[d + FREEPTR] == obj
    requires n[d + COUNTS] == Pack(h.info[d].refcnt - 1, Size(h.info[d].cls))
    ensures Rep(n, heads, spareHead, h.(info := h.info[d := Push(h.info[d], obj)]))
  {
    Parts(m, heads, spareHead, h);
    var mid := m[obj := m[d + FREEPTR]];
    LiveInPage(m, mid, h, d, obj, m[d + FREEPTR]);
    PageWriteKeepsLists(m, mid, heads, spareHead, h, h.info[d].page);
    assert Holds(h, InDescs);
    DescWriteKeepsLists(mid, n, heads, spareHead, h, d);
    PushBuckets(m, mid, n, h, d, obj);
  }

  /** A store to a live object stays in its page, which holds no descriptor. */
  lemma LiveInPage(m: seq<word>, mid: seq<word>, h: Heap, d: int, obj: int, v: word)
    requires Inv(h) && d in h.info && obj in Live(h.info[d]) && 0 <= obj < |m| && mid == m[obj := v]
    ensures
      var page := h.info[d].page;
      SameExcept(m, mid, page, page + PAGE_SIZE) && page % PAGE_SIZE == 0 && page !in h.meta
  {
    assert Holds(h, InPages);
    var j := InSlots(h.info[d].page, h.info[d].cls, obj);
  }

  /** The buckets when an object was put back: `mid` is the memory with its link. */
  lemma PushBuckets(m: seq<word>, mid: seq<word>, n: seq<word>, h: Heap, d: int, obj: int)
    requires Inv(h) && Buckets(m, h.info) && d in h.info && obj in Live(h.info[d])
    requires 0 <= obj < |m| && 0 <= d && d + 16 <= |m| && mid == m[obj := m[d + FREEPTR]]
    requires SameExcept(mid, n, d, d + 16) && n[d + PAGE] == mid[d + PAGE] && n[d + FREEPTR] == obj
    requires n[d + COUNTS] == Pack(h.info[d].refcnt - 1, Size(h.info[d].cls))
    ensures Buckets(n, h.info[d := Push(h.info[d], obj)])
  {
    assert Holds(h, InDescs);
    LiveInPage(m, mid, h, d, obj, m[d + FREEPTR]);
    PushedBucket(m, mid, n, h, d, obj);
    forall e | e in h.info && e != d
      ensures BucketAt(n, e, h.info[e])
    {
      assert Holds(h, InPages);
      BucketOffPage(m, mid, h, h.info[d].page, e);
      OtherBucket(mid, n, h, d, e);
    }
  }

  lemma PushedBucket(m: seq<word>, mid: seq<word>, n: seq<word>, h: Heap, d: int, obj: int)
    requires Inv(h) && d in h.info && obj in Live(h.info[d]) && BucketAt(m, d, h.info[d])
    requires 0 <= obj < |m| && 0 <= d && d + 16 <= |m| && mid == m[obj := m[d + FREEPTR]]
    requires SameExcept(mid, n, d, d + 16) && n[d + PAGE] == mid[d + PAGE] && n[d + FREEPTR] == obj
    requires n[d + COUNTS] == Pack(h.info[d].refcnt - 1, Size(h.info[d].cls))
    ensures BucketAt(n, d, Push(h.info[d], obj))
  {
    PushedFree(m, n, h, d, obj);
    LiveAwayFromDesc(h, d, obj);
  }

  lemma PageWriteKeepsLists(m: seq<word>, n: seq<word>, heads: seq<word>, spareHead: int, h: Heap, page: int)
    requires Inv(h) && Rep(m, heads, spareHead, h)
    requires SameExcept(m, n, page, page + PAGE_SIZE) && page % PAGE_SIZE == 0 && page !in h.meta
    ensures Chains(n, heads, h.chains) && Links(n, NEXT, spareHead, h.spare)
  {
    Parts(m, heads, spareHead, h);
    assert Holds(h, InDescs);
    forall c | 0 <= c < CLASSES
      ensures Links(n, NEXT, heads[c], h.chains[c])
    {
      assert forall e :: e in h.chains[c] ==> DescOk(h, e);
      LinksOffPage(m, n, h, page, heads[c], h.chains[c]);
    }
    LinksOffPage(m, n, h, page, spareHead, h.spare);
  }

  lemma PushedFree(m: seq<word>, n: seq<word>, h: Heap, d: int, obj: int)
    requires Inv(h) && d in h.info && obj in Live(h.info[d]) && BucketAt(m, d, h.info[d])
    requires 0 <= obj < |m|
    requires SameExcept(m[obj := m[d + FREEPTR]], n, d, d + 16)
    ensures Links(n, 0, obj, [obj] + h.info[d].free)
  {
    assert Holds(h, InDescs);
    var mid := m[obj := m[d + FREEPTR]];
    var f := h.info[d].free;
    forall j | 0 <= j < |f|
      ensures mid[f[j]] == m[f[j]]
    {
      assert f[j] in f;
    }
    LinksFrame(m, mid, 0, Nth(f, 0), f);
    FreeAwayFromDesc(mid, n, h, d, d);
    LiveAwayFromDesc(h, d, obj);
    LinksCons(n, 0, obj, f);
  }

  lemma LiveAwayFromDesc(h: Heap, d: int, obj: int)
    requires Inv(h) && d in h.info && obj in Live(h.info[d])
    ensures !(d <= obj < d + 16)
  {
    assert Holds(h, InDescs) && Holds(h, InPages);
    var j := InSlots(h.info[d].page, h.info[d].cls, obj);
    OffDesc(h, d, obj);
  }

  lemma LinksCons(m: seq<word>, off: int, d: int, s: seq<int>)
    requires 0 <= d + off < |m| && Links(m, off, m[d + off], s)
    ensures Links(m, off, d, [d] + s)
  {
    var t := [d] + s;
    assert forall j :: 1 <= j < |t| ==> t[j] == s[j - 1];
    forall j | 0 <= j < |t|
      ensures LinkOf(m, off, t, j) == Nth(t, j + 1)
    {
      if j > 0 {
        ReadLink(m, off, m[d + off], s, j - 1);
      }
    }
  }

  /** Changing the link of one descriptor leaves every bucket as it was. */
  lemma NextWrite(m: seq<word>, h: Heap, d: int, v: word, e: int)
    requires Inv(h) && DescOk(h, d) && e in h.info && BucketAt(m, e, h.info[e])
    requires 0 <= d && d + 16 <= |m|
    ensures BucketAt(m[d + NEXT := v], e, h.info[e])
  {
    var n := m[d + NEXT := v];
    assert SameExcept(m, n, d, d + 16);
    if e != d {
      OtherBucket(m, n, h, d, e);
    } else {
      FreeAwayFromDesc(m, n, h, d, d);
    }
  }

  lemma NextWriteAll(m: seq<word>, h: Heap, d: int, v: word)
    requires Inv(h) && DescOk(h, d) && Buckets(m, h.info) && 0 <= d && d + 16 <= |m|
    ensures Buckets(m[d + NEXT := v], h.info)
  {
    forall e | e in h.info
      ensures BucketAt(m[d + NEXT := v], e, h.info[e])
    {
      NextWrite(m, h, d, v, e);
    }
  }

  /** Taking node `k` out of a list by redirecting its predecessor. */
  lemma UnlinkedLinks(m: seq<word>, head: word, s: seq<int>, k: nat)
    requires NoDup(s) && 0 < k < |s| && Links(m, NEXT, head, s)
    ensures Links(m[s[k - 1] + NEXT := m[s[k] + NEXT]], NEXT, head, RemoveAt(s, k))
  {
    var n := m[s[k - 1] + NEXT := m[s[k] + NEXT]];
    forall i | 0 <= i < |s|
      ensures LinkOf(n, NEXT, s, i) == if i == k - 1 then Nth(s, k + 1) else Nth(s, i + 1)
    {
      ReadLink(m, NEXT, head, s, i);
      ReadLink(m, NEXT, head, s, k);
      assert i != k - 1 ==> s[i] != s[k - 1];
    }
    RemovedLinks(n, head, s, k);
  }

  lemma RemovedLinks(n: seq<word>, head: int, s: seq<int>, k: nat)
    requires 0 < k < |s| && head == s[0]
    requires forall i :: 0 <= i < |s| ==> 0 <= s[i] + NEXT < |n|
    requires forall i {:trigger LinkOf(n, NEXT, s, i)} :: 0 <= i < |s| ==>
               LinkOf(n, NEXT, s, i) == if i == k - 1 then Nth(s, k + 1) else Nth(s, i + 1)
    ensures Links(n, NEXT, head, RemoveAt(s, k))
  {
    var r := RemoveAt(s, k);
    assert forall j :: 0 <= j < |r| ==> r[j] == s[if j < k then j else j + 1];
    forall j | 0 <= j < |r|
      ensures LinkOf(n, NEXT, r, j) == Nth(r, j + 1)
    {
      assert LinkOf(n, NEXT, r, j) == LinkOf(n, NEXT, s, if j < k then j else j + 1);
    }
  }

  lemma CloseFirst(m: seq<word>, heads: seq<word>, h: Heap, c: nat)
    requires Chains(m, heads, h.chains) && c < CLASSES && h.chains[c] != []
    ensures Chains(m, heads[c := m[h.chains[c][0] + NEXT]], h.chains[c := RemoveAt(h.chains[c], 0)])
  {
    TailLinks(m, NEXT, heads[c], h.chains[c]);
    assert RemoveAt(h.chains[c], 0) == h.chains[c][1..];
  }

  lemma CloseLater(m: seq<word>, n: seq<word>, heads: seq<word>, h: Heap, c: nat, k: nat)
    requires Inv(h) && Chains(m, heads, h.chains) && c < CLASSES && 0 < k < |h.chains[c]|
    requires n == m[h.chains[c][k - 1] + NEXT := m[h.chains[c][k] + NEXT]]
    ensures Chains(n, heads, h.chains[c := RemoveAt(h.chains[c], k)])
  {
    assert Holds(h, InChains);
    UnlinkedLinks(m, heads[c], h.chains[c], k);
    forall i | 0 <= i < CLASSES && i != c
      ensures Links(n, NEXT, heads[i], h.chains[i])
    {
      CloseOther(m, n, heads[i], h, c, k - 1, i);
    }
  }

  lemma CloseOther(m: seq<word>, n: seq<word>, head: int, h: Heap, c: nat, k: nat, i: nat)
    requires Inv(h) && c < CLASSES && k < |h.chains[c]| && i < CLASSES && i != c
    requires var d := h.chains[c][k]; SameExcept(m, n, d, d + 16)
    requires Links(m, NEXT, head, h.chains[i])
    ensures Links(n, NEXT, head, h.chains[i])
  {
    assert Holds(h, InChains) && Holds(h, InDescs);
    var d := h.chains[c][k];
    assert DescOk(h, d) && d !in h.chains[i];
    assert forall e :: e in h.chains[i] ==> DescOk(h, e);
    OtherLinks(m, n, d, head, h.chains[i]);
  }

  /** The chains and the spare list once descriptor `k` of chain `c` is
      bypassed: `mid` is the memory with its predecessor's link redirected. */
  ghost predicate Bypassed(m: seq<word>, mid: seq<word>, heads: seq<word>, newHeads: seq<word>, h: Heap, c: nat, k: nat)
    requires |heads| == |h.chains| == CLASSES && c < CLASSES && k < |h.chains[c]|
  {
    var d := h.chains[c][k];
    && 0 <= d && d + 16 <= |m|
    && var next := m[d + NEXT];
    if k == 0 then newHeads == heads[c := next] && mid == m
    else
      var prev := h.chains[c][k - 1];
      newHeads == heads && 0 <= prev && prev + 16 <= |m| && mid == m[prev + NEXT := next]
  }

  lemma BypassedRest(m: seq<word>, mid: seq<word>, heads: seq<word>, newHeads: seq<word>, spareHead: word, h: Heap,
                     c: nat, k: nat)
    requires Inv(h) && Rep(m, heads, spareHead, h) && c < CLASSES && k < |h.chains[c]|
    requires Bypassed(m, mid, heads, newHeads, h, c, k)
    ensures Links(mid, NEXT, spareHead, h.spare) && Buckets(mid, h.info)
  {
    Parts(m, heads, spareHead, h);
    assert Holds(h, InDescs) && Holds(h, InBuckets);
    if k > 0 {
      var prev := h.chains[c][k - 1];
      assert DescOk(h, prev);
      OtherLinks(m, mid, prev, spareHead, h.spare);
      NextWriteAll(m, h, prev, m[h.chains[c][k] + NEXT]);
    }
  }

  lemma CloseRep(m: seq<word>, mid: seq<word>, heads: seq<word>, newHeads: seq<word>, spareHead: word, h: Heap,
                 c: nat, k: nat)
    requires Inv(h) && Rep(m, heads, spareHead, h) && c < CLASSES && k < |h.chains[c]|
    requires Bypassed(m, mid, heads, newHeads, h, c, k)
    ensures
      var d := h.chains[c][k];
      0 <= d && d + 16 <= |mid| && Rep(mid[d + NEXT := spareHead], newHeads, d, Close(h, c, k))
  {
    assert Holds(h, InDescs);
    var d := h.chains[c][k];
    BypassedRest(m, mid, heads, newHeads, spareHead, h, c, k);
    BypassedChains(m, mid, heads, newHeads, spareHead, h, c, k);
    assert BucketAt(mid, d, h.info[d]);
    var n := mid[d + NEXT := spareHead];
    CloseLists(mid, n, newHeads, spareHead, h, c, k);
    ClosedBuckets(mid, n, h, c, k, spareHead);
  }

  lemma BypassedChains(m: seq<word>, mid: seq<word>, heads: seq<word>, newHeads: seq<word>, spareHead: word, h: Heap,
                       c: nat, k: nat)
    requires Inv(h) && Rep(m, heads, spareHead, h) && c < CLASSES && k < |h.chains[c]|
    requires Bypassed(m, mid, heads, newHeads, h, c, k)
    ensures Chains(mid, newHeads, Close(h, c, k).chains)
  {
    assert Stored(m, heads, spareHead, h, TheChains);
    if k == 0 {
      CloseFirst(m, heads, h, c);
    } else {
      CloseLater(m, mid, heads, h, c, k);
    }
  }

  lemma ClosedBuckets(mid: seq<word>, n: seq<word>, h: Heap, c: nat, k: nat, v: word)
    requires Inv(h) && c < CLASSES && k < |h.chains[c]| && Buckets(mid, h.info)
    requires var d := h.chains[c][k]; 0 <= d && d + 16 <= |mid| && n == mid[d + NEXT := v]
    ensures Buckets(n, Close(h, c, k).info)
  {
    assert Holds(h, InDescs);
    NextWriteAll(mid, h, h.chains[c][k], v);
  }

  lemma CloseLists(mid: seq<word>, n: seq<word>, newHeads: seq<word>, spareHead: word, h: Heap, c: nat, k: nat)
    requires Inv(h) && c < CLASSES && k < |h.chains[c]|
    requires Chains(mid, newHeads, Close(h, c, k).chains) && Links(mid, NEXT, spareHead, h.spare)
    requires var d := h.chains[c][k]; 0 <= d && d + 16 <= |mid| && n == mid[d + NEXT := spareHead]
    ensures Chains(n, newHeads, Close(h, c, k).chains)
    ensures Links(n, NEXT, h.chains[c][k], Close(h, c, k).spare)
  {
    assert Holds(h, InDescs);
    var d := h.chains[c][k];
    assert DescOk(h, d);
    forall i | 0 <= i < CLASSES
      ensures Links(n, NEXT, newHeads[i], Close(h, c, k).chains[i])
    {
      ClosedAway(h, c, k, i);
      OtherLinks(mid, n, d, newHeads[i], Close(h, c, k).chains[i]);
    }
    OtherLinks(mid, n, d, spareHead, h.spare);
    LinksCons(n, NEXT, d, h.spare);
  }

  lemma ClosedAway(h: Heap, c: nat, k: nat, i: nat)
    requires Inv(h) && c < CLASSES && k < |h.chains[c]| && i < CLASSES
    ensures
      var s := h.chains[c := RemoveAt(h.chains[c], k)][i];
      h.chains[c][k] !in s && forall e :: e in s ==> e % 16 == 0
  {
    assert Holds(h, InChains) && Holds(h, InDescs);
    RemoveAtFacts(h.chains[c], k);
    assert forall e :: e in h.chains[i] ==> DescOk(h, e);
  }

  // ----- Descriptor pages and new pages -----

  lemma TailLinks(m: seq<word>, off: int, head: int, s: seq<int>)
    requires Links(m, off, head, s) && s != []
    ensures m[s[0] + off] == Nth(s, 1) && Links(m, off, Nth(s, 1), s[1..])
  {
    ReadLink(m, off, head, s, 0);
    var t := s[1..];
    forall j | 0 <= j < |t|
      ensures LinkOf(m, off, t, j) == Nth(t, j + 1)
    {
      ReadLink(m, off, head, s, j + 1);
    }
  }

  lemma DropRep(m: seq<word>, n: seq<word>, heads: seq<word>, spareHead: int, h: Heap)
    requires Inv(h) && Rep(m, heads, spareHead, h) && h.spare != []
    requires var d := h.spare[0]; SameExcept(m, n, d, d + 16)
    ensures Rep(n, heads, Nth(h.spare, 1), Drop(h))
  {
    Parts(m, heads, spareHead, h);
    assert Holds(h, InDescs);
    var d := h.spare[0];
    assert d in h.spare;
    TailLinks(m, NEXT, spareHead, h.spare);
    assert forall e :: e in h.spare[1..] ==> e in h.spare && e != d;
    OtherLinks(m, n, d, Nth(h.spare, 1), h.spare[1..]);
    forall c | 0 <= c < CLASSES
      ensures Links(n, NEXT, heads[c], h.chains[c])
    {
      assert d !in h.chains[c];
      OtherLinks(m, n, d, heads[c], h.chains[c]);
    }
    forall e | e in h.info
      ensures BucketAt(n, e, h.info[e])
    {
      OtherBucket(m, n, h, d, e);
    }
  }

  /** A fresh page is neither a descriptor page nor the page of a bucket. */
  lemma FreshPage(h: Heap)
    requires Inv(h) && HasPage(h.pages)
    ensures
      var p := PageAddr(Next(h.pages));
      && p % PAGE_SIZE == 0 && p !in h.meta
      && forall d :: d in h.info ==> h.info[d].page != p
  {
    assert Holds(h, InPages);
    NewPage(h.pages);
    PageAddrFacts(Next(h.pages));
  }

  /** Rewriting a page that is neither of descriptors nor of a bucket changes
      nothing the heap is made of. */
  lemma OtherPageRep(m: seq<word>, n: seq<word>, heads: seq<word>, spareHead: int, h: Heap, p: int)
    requires Inv(h) && Rep(m, heads, spareHead, h)
    requires p % PAGE_SIZE == 0 && p !in h.meta && forall d :: d in h.info ==> h.info[d].page != p
    requires SameExcept(m, n, p, p + PAGE_SIZE)
    ensures Rep(n, heads, spareHead, h)
  {
    PageWriteKeepsLists(m, n, heads, spareHead, h, p);
    assert Stored(m, heads, spareHead, h, TheBuckets);
    forall e | e in h.info
      ensures BucketAt(n, e, h.info[e])
    {
      BucketOffPage(m, n, h, p, e);
    }
  }

  lemma FreshPageRep(m: seq<word>, n: seq<word>, heads: seq<word>, spareHead: int, h: Heap)
    requires Inv(h) && HasPage(h.pages) && Rep(m, heads, spareHead, h)
    requires var p := PageAddr(Next(h.pages)); SameExcept(m, n, p, p + PAGE_SIZE)
    ensures Rep(n, heads, spareHead, h)
  {
    FreshPage(h);
    OtherPageRep(m, n, heads, spareHead, h, PageAddr(Next(h.pages)));
  }

  /** The page at the null pointer is none of the allocator's. */
  lemma NullPageRep(m: seq<word>, n: seq<word>, heads: seq<word>, spareHead: int, h: Heap)
    requires Inv(h) && Rep(m, heads, spareHead, h) && SameExcept(m, n, 0, PAGE_SIZE)
    ensures Rep(n, heads, spareHead, h)
  {
    assert Holds(h, InPages);
    OtherPageRep(m, n, heads, spareHead, h, 0);
  }

  lemma RefillRep(m: seq<word>, n: seq<word>, heads: seq<word>, spareHead: int, h: Heap)
    requires Inv(h) && HasPage(h.pages) && Rep(m, heads, spareHead, h)
    requires
      var p := PageAddr(Next(h.pages));
      && SameExcept(m, n, p, p + PAGE_SIZE)
      && (forall j :: 0 <= j < 256 ==> 0 <= Carve(p)[j] + NEXT < |n|)
      && (forall j {:trigger LinkOf(n, NEXT, Carve(p), j)} :: 0 <= j < 255 ==>
            LinkOf(n, NEXT, Carve(p), j) == Carve(p)[j + 1])
      && n[Carve(p)[255] + NEXT] == spareHead
    ensures Rep(n, heads, PageAddr(Next(h.pages)), Refill(h))
  {
    Parts(m, heads, spareHead, h);
    var p := PageAddr(Next(h.pages));
    FreshPageRep(m, n, heads, spareHead, h);
    Parts(n, heads, spareHead, h);
    ConcatLinks(n, NEXT, Carve(p), spareHead, h.spare);
  }

  lemma ConcatLinks(m: seq<word>, off: int, cs: seq<int>, head: int, s: seq<int>)
    requires cs != [] && Links(m, off, head, s)
    requires forall j :: 0 <= j < |cs| ==> 0 <= cs[j] + off < |m|
    requires forall j {:trigger LinkOf(m, off, cs, j)} :: 0 <= j < |cs| - 1 ==> LinkOf(m, off, cs, j) == cs[j + 1]
    requires m[cs[|cs| - 1] + off] == head
    ensures Links(m, off, cs[0], cs + s)
  {
    var t := cs + s;
    assert forall j :: |cs| <= j < |t| ==> t[j] == s[j - |cs|];
    forall j | 0 <= j < |t|
      ensures LinkOf(m, off, t, j) == Nth(t, j + 1)
    {
      if j >= |cs| {
        ReadLink(m, off, head, s, j - |cs|);
      } else {
        assert LinkOf(m, off, t, j) == LinkOf(m, off, cs, j);
      }
    }
  }

  lemma OpenRep(m: seq<word>, n: seq<word>, heads: seq<word>, newHeads: seq<word>, spareHead: int, h: Heap, c: nat)
    requires Inv(h) && h.spare != [] && HasPage(h.pages) && c < CLASSES && Rep(m, heads, spareHead, h)
    requires
      var d := h.spare[0];
      var p := PageAddr(Next(h.pages));
      && SameExcept(m, n, d, d + 16) && 0 <= d && d + 16 <= |n|
      && n[d + PAGE] == n[d + FREEPTR] == p && n[d + NEXT] == heads[c]
      && n[d + COUNTS] == Pack(0, Size(c))
      && Links(m, 0, p, Slots(p, c))
      && newHeads == heads[c := d]
    ensures Rep(n, newHeads, Nth(h.spare, 1), Open(h, c))
  {
    var d, rest := h.spare[0], Nth(h.spare, 1);
    DropRep(m, n, heads, spareHead, h);
    assert Stored(n, heads, rest, Drop(h), TheChains);
    assert Stored(n, heads, rest, Drop(h), TheSpare);
    assert Stored(n, heads, rest, Drop(h), TheBuckets);
    LinksCons(n, NEXT, d, h.chains[c]);
    OpenBucketAt(m, n, h, c);
    OpenBuckets(n, h, c);
  }

  /** The other buckets stay, and the new one is there. */
  lemma OpenBuckets(n: seq<word>, h: Heap, c: nat)
    requires Inv(h) && h.spare != [] && c < CLASSES && Buckets(n, h.info)
    requires BucketAt(n, h.spare[0], Open(h, c).info[h.spare[0]])
    ensures Buckets(n, Open(h, c).info)
  {
    assert Holds(h, InDescs);
    var d, t := h.spare[0], Open(h, c);
    assert d in h.spare && d !in h.info;
    forall e | e in t.info
      ensures BucketAt(n, e, t.info[e])
    {
      if e != d {
        assert e in h.info && t.info[e] == h.info[e];
      }
    }
  }

  lemma OpenBucketAt(m: seq<word>, n: seq<word>, h: Heap, c: nat)
    requires Inv(h) && h.spare != [] && HasPage(h.pages) && c < CLASSES
    requires
      var d := h.spare[0];
      var p := PageAddr(Next(h.pages));
      && SameExcept(m, n, d, d + 16) && 0 <= d && d + 16 <= |n|
      && n[d + PAGE] == n[d + FREEPTR] == p
      && n[d + COUNTS] == Pack(0, Size(c))
      && Links(m, 0, p, Slots(p, c))
    ensures BucketAt(n, h.spare[0], Open(h, c).info[h.spare[0]])
  {
    var t := Open(h, c);
    OpenInv(h, c);
    assert Holds(t, InDescs);
    assert DescOk(t, h.spare[0]);
    FreeAwayFromDesc(m, n, t, h.spare[0], h.spare[0]);
  }

  // ----- What the clients own -----

  ghost predicate InBlock(bs: set<(int, int)>, a: int) {
    exists x :: x in bs && x.0 <= a < x.0 + x.1
  }

  /** A live block holds no free object of its own page. */
  lemma BlockNotFree(h: Heap, d: int, j: int, f: int, a: int)
    requires Inv(h) && d in h.info && f in h.info[d].free
    requires 0 <= j < Count(h.info[d].cls) && Slot(h.info[d].page, h.info[d].cls, j) in Live(h.info[d])
    requires
      var x := Slot(h.info[d].page, h.info[d].cls, j);
      x <= a < x + Size(h.info[d].cls)
    ensures f != a
  {
    assert Holds(h, InPages) && Holds(h, InBuckets);
    var b := h.info[d];
    var i := InSlots(b.page, b.cls, f);
    if i < j {
      SlotsApart(b.page, b.cls, i, j);
    } else if j < i {
      SlotsApart(b.page, b.cls, j, i);
    }
  }

  /** The block in which a client's word lies. */
  lemma WordOwner(h: Heap, a: int) returns (d: int, j: int)
    requires Inv(h) && InBlock(Blocks(h.info), a)
    ensures d in h.info && h.info[d].cls < CLASSES && 0 <= j < Count(h.info[d].cls)
    ensures
      var x := Slot(h.info[d].page, h.info[d].cls, j);
      x in Live(h.info[d]) && x <= a < x + Size(h.info[d].cls)
    ensures PageOf(a) == h.info[d].page
  {
    var x :| x in Blocks(h.info) && x.0 <= a < x.0 + x.1;
    d, j := BlockOwner(h, x);
    InPage(h.info[d].page, a - h.info[d].page);
  }

  /** A client's word lies in the page of a bucket, never in a descriptor page. */
  lemma BlockWord(h: Heap, a: int)
    requires Inv(h) && InBlock(Blocks(h.info), a)
    ensures IsPage(h.pages, PageOf(a)) && PageOf(a) !in h.meta
    ensures BASE <= a < BASE + h.pages.total * PAGE_SIZE
  {
    var d, j := WordOwner(h, a);
    assert Holds(h, InPages);
    TakenPage(h.pages, h.info[d].page);
  }

  /** A client's word is never the link word of a free object. */
  lemma BlockNoLink(h: Heap, a: int, e: int, f: int)
    requires Inv(h) && InBlock(Blocks(h.info), a) && e in h.info && f in h.info[e].free
    ensures f != a
  {
    var d, j := WordOwner(h, a);
    if e == d {
      BlockNotFree(h, d, j, f, a);
    } else {
      FreeFacts(h, e, f);
      assert Holds(h, InPages);
      assert h.info[e].page != h.info[d].page;
    }
  }

  /** Clients may write anything into a live block of theirs: no word of it is one
      the allocator depends on. */
  lemma ClientWriteRep(m: seq<word>, n: seq<word>, heads: seq<word>, spareHead: int, h: Heap, x: (int, int))
    requires Inv(h) && Rep(m, heads, spareHead, h) && x in Blocks(h.info)
    requires SameExcept(m, n, x.0, x.0 + x.1)
    ensures Rep(n, heads, spareHead, h)
  {
    Parts(m, heads, spareHead, h);
    assert Holds(h, InPages);
    var d, j := BlockOwner(h, x);
    var p := h.info[d].page;
    assert SameExcept(m, n, p, p + PAGE_SIZE);
    PageWriteKeepsLists(m, n, heads, spareHead, h, p);
    forall e | e in h.info
      ensures BucketAt(n, e, h.info[e])
    {
      ClientWriteBucket(m, n, h, x, p, e);
    }
  }

  lemma ClientWriteBucket(m: seq<word>, n: seq<word>, h: Heap, x: (int, int), p: int, e: int)
    requires Inv(h) && e in h.info && BucketAt(m, e, h.info[e])
    requires x in Blocks(h.info) && SameExcept(m, n, x.0, x.0 + x.1)
    requires p % PAGE_SIZE == 0 && p !in h.meta && p <= x.0 && x.0 + x.1 <= p + PAGE_SIZE
    ensures BucketAt(n, e, h.info[e])
  {
    assert Holds(h, InDescs);
    assert DescOk(h, e);
    WordOffPage(h, p, e, PAGE);
    WordOffPage(h, p, e, FREEPTR);
    WordOffPage(h, p, e, COUNTS);
    var f := h.info[e].free;
    forall j | 0 <= j < |f|
      ensures n[f[j]] == m[f[j]]
    {
      assert f[j] in f;
      if x.0 <= f[j] < x.0 + x.1 {
        assert InBlock(Blocks(h.info), f[j]);
        BlockNoLink(h, f[j], e, f[j]);
      }
    }
    LinksFrame(m, n, 0, Nth(f, 0), f);
  }

  /** The words of the blocks `bs` are the same in both memories. */
  ghost predicate BlocksKept(m: seq<word>, n: seq<word>, bs: set<(int, int)>) {
    |m| == |n| && forall a {:trigger InBlock(bs, a)} :: 0 <= a < |m| && InBlock(bs, a) ==> n[a] == m[a]
  }

  /** The word at address 4 as well: what a null descriptor would have as link. */
  ghost predicate ClientsKept(m: seq<word>, n: seq<word>, bs: set<(int, int)>) {
    BlocksKept(m, n, bs) && (|m| > NEXT ==> n[NEXT] == m[NEXT])
  }

  lemma KeptThrough(m0: seq<word>, m1: seq<word>, m2: seq<word>, more: set<(int, int)>, bs: set<(int, int)>)
    requires BlocksKept(m0, m1, more) && BlocksKept(m1, m2, bs) && bs <= more
    ensures BlocksKept(m0, m2, bs)
  {
    forall a | 0 <= a < |m0| && InBlock(bs, a)
      ensures m2[a] == m0[a]
    {
      assert InBlock(more, a);
    }
  }

  lemma DescWriteKeepsClients(m: seq<word>, n: seq<word>, h: Heap, d: int)
    requires Inv(h) && DescOk(h, d) && SameExcept(m, n, d, d + 16)
    ensures ClientsKept(m, n, Blocks(h.info))
  {
    forall a | 0 <= a < |m| && InBlock(Blocks(h.info), a)
      ensures n[a] == m[a]
    {
      BlockWord(h, a);
      OffDesc(h, d, a);
    }
    DescBounds(h, d);
  }

  lemma NullPageKeepsBlocks(m: seq<word>, n: seq<word>, h: Heap)
    requires Inv(h) && SameExcept(m, n, 0, PAGE_SIZE)
    ensures BlocksKept(m, n, Blocks(h.info))
  {
    forall a | 0 <= a < |m| && InBlock(Blocks(h.info), a)
      ensures n[a] == m[a]
    {
      BlockWord(h, a);
    }
  }

  lemma FreshPageKeepsClients(m: seq<word>, n: seq<word>, h: Heap)
    requires Inv(h) && HasPage(h.pages)
    requires var p := PageAddr(Next(h.pages)); SameExcept(m, n, p, p + PAGE_SIZE)
    ensures ClientsKept(m, n, Blocks(h.info))
  {
    assert Holds(h, InPages);
    var p := PageAddr(Next(h.pages));
    NewPage(h.pages);
    PageAddrFacts(Next(h.pages));
    forall a | 0 <= a < |m| && InBlock(Blocks(h.info), a)
      ensures n[a] == m[a]
    {
      BlockWord(h, a);
      OffPage(p, a);
    }
  }

  /** No word outside the descriptor pages changed, but for the one at `but`. */
  ghost predicate DescsOnly(m: seq<word>, n: seq<word>, meta: set<int>, but: int) {
    |m| == |n| && forall a :: 0 <= a < |m| && a != but && PageOf(a) !in meta ==> n[a] == m[a]
  }

  lemma DescWriteOnly(m: seq<word>, n: seq<word>, h: Heap, d: int)
    requires DescOk(h, d) && SameExcept(m, n, d, d + 16)
    ensures DescsOnly(m, n, h.meta, -1)
  {
    forall a | 0 <= a < |m| && PageOf(a) !in h.meta
      ensures n[a] == m[a]
    {
      OffDesc(h, d, a);
    }
  }

  lemma DescsOnlyThrough(m0: seq<word>, m1: seq<word>, m2: seq<word>, meta: set<int>, but: int)
    requires DescsOnly(m0, m1, meta, but) && DescsOnly(m1, m2, meta, -1)
    ensures DescsOnly(m0, m2, meta, but)
  {
  }

  // ----- Threading a page -----

  /** The first `k` slots of a page are linked, each to the slot behind it. */
  ghost predicate Threaded(m: seq<word>, off: int, page: int, c: nat, k: int)
    requires c < CLASSES
  {
    && 0 <= k <= Count(c)
    && (forall j :: 0 <= j < Count(c) ==> 0 <= Slots(page, c)[j] + off < |m|)
    && (forall j {:trigger LinkOf(m, off, Slots(page, c), j)} :: 0 <= j < k ==>
          LinkOf(m, off, Slots(page, c), j) == Slot(page, c, j + 1))
  }

  lemma ThreadStart(m: seq<word>, off: int, page: int, c: nat)
    requires c < CLASSES && page % PAGE_SIZE == 0 && 0 <= page && page + PAGE_SIZE <= |m| && 0 <= off < 16
    ensures Threaded(m, off, page, c, 0)
  {
    forall j | 0 <= j < Count(c)
      ensures 0 <= Slots(page, c)[j] + off < |m|
    {
      SlotFacts(page, c, j);
      UnitFacts(Slot(page, c, j), off);
      InUnit(Slot(page, c, j), page);
    }
  }

  /** Storing a word in slot `k` keeps what is threaded before it. */
  lemma ThreadStep(m: seq<word>, off: int, page: int, c: nat, k: int, v: word)
    requires c < CLASSES && Threaded(m, off, page, c, k) && k < Count(c)
    ensures
      var a := Slot(page, c, k) + off;
      && 0 <= a < |m|
      && Threaded(m[a := v], off, page, c, k)
      && LinkOf(m[a := v], off, Slots(page, c), k) == v
      && (v == Slot(page, c, k + 1) ==> Threaded(m[a := v], off, page, c, k + 1))
  {
    var s := Slots(page, c);
    assert s[k] == Slot(page, c, k);
    var n := m[s[k] + off := v];
    forall j | 0 <= j < k
      ensures LinkOf(n, off, s, j) == Slot(page, c, j + 1)
    {
      SlotsApart(page, c, j, k);
      assert LinkOf(n, off, s, j) == LinkOf(m, off, s, j);
    }
  }

  /** One store of the threading loops. */
  lemma ThreadStore(m0: seq<word>, m: seq<word>, off: int, page: int, c: nat, k: int, v: word)
    requires c < CLASSES && k < Count(c) && page % PAGE_SIZE == 0 && 0 <= off < 16
    requires SameExcept(m0, m, page, page + PAGE_SIZE) && Threaded(m, off, page, c, k)
    ensures
      var a := Slot(page, c, k) + off;
      && 0 <= a < |m|
      && SameExcept(m0, m[a := v], page, page + PAGE_SIZE)
      && Threaded(m[a := v], off, page, c, k)
      && LinkOf(m[a := v], off, Slots(page, c), k) == v
      && Slot(page, c, k + 1) == Slot(page, c, k) + Size(c) <= page + PAGE_SIZE
      && (v == Slot(page, c, k + 1) ==> Threaded(m[a := v], off, page, c, k + 1))
  {
    SlotFacts(page, c, k);
    SlotNext(page, c, k);
    InUnit(Slot(page, c, k), page);
    ThreadStep(m, off, page, c, k, v);
  }

  lemma ThreadedLinks(m: seq<word>, page: int, c: nat)
    requires c < CLASSES && Threaded(m, 0, page, c, Count(c) - 1)
    requires LinkOf(m, 0, Slots(page, c), Count(c) - 1) == 0
    ensures Links(m, 0, page, Slots(page, c))
  {
    var s := Slots(page, c);
    SlotsDistinct(page, c);
    assert s[0] == page;
    forall j | 0 <= j < |s|
      ensures LinkOf(m, 0, s, j) == Nth(s, j + 1)
    {
      assert j + 1 < |s| ==> s[j + 1] == Slot(page, c, j + 1);
    }
  }

  lemma SlotNext(page: int, c: nat, k: nat)
    requires c < CLASSES
    ensures Slot(page, c, k + 1) == Slot(page, c, k) + Size(c)
  {
  }

  lemma FreshPageBounds(h: Heap)
    requires Inv(h) && HasPage(h.pages)
    ensures
      var p := PageAddr(Next(h.pages));
      && p % PAGE_SIZE == 0 && BASE <= p && p + PAGE_SIZE <= BASE + h.pages.total * PAGE_SIZE
  {
    assert Holds(h, InPages);
    NewPage(h.pages);
    PageAddrFacts(Next(h.pages));
    TakenPage(Take(h.pages), PageAddr(Next(h.pages)));
  }

  /** A descriptor is filled in (`m1`), its page threaded (`m2`), and then the
      descriptor is linked in front of its chain. */
  lemma OpenSteps(m0: seq<word>, m1: seq<word>, m2: seq<word>, heads: seq<word>, spareHead: int, h: Heap, c: nat)
    requires Inv(h) && h.spare != [] && HasPage(h.pages) && c < CLASSES && Rep(m0, heads, spareHead, h)
    requires
      var d := h.spare[0];
      var p := PageAddr(Next(h.pages));
      && 0 <= d && d + 16 <= |m0|
      && SameExcept(m0, m1, d, d + 16) && SameExcept(m1, m2, p, p + PAGE_SIZE)
      && m1[d + PAGE] == m1[d + FREEPTR] == p && m1[d + COUNTS] == Pack(0, Size(c))
      && Links(m2, 0, p, Slots(p, c))
    ensures
      var d := h.spare[0];
      && d < 0x1_0000_0000
      && Rep(m2[d + NEXT := heads[c]], heads[c := d], Nth(h.spare, 1), Open(h, c))
      && ClientsKept(m0, m2[d + NEXT := heads[c]], Blocks(h.info))
  {
    Parts(m0, heads, spareHead, h);
    assert Holds(h, InDescs);
    var d := h.spare[0];
    var p := PageAddr(Next(h.pages));
    var m3 := m2[d + NEXT := heads[c]];
    var mid := seq(|m0|, a requires 0 <= a < |m0| && |m0| == |m3| => if d <= a < d + 16 then m0[a] else m3[a]);
    assert d in h.spare;
    FreshPage(h);
    WordOffPage(h, p, d, PAGE);
    WordOffPage(h, p, d, FREEPTR);
    WordOffPage(h, p, d, COUNTS);
    FreshPageRep(m0, mid, heads, spareHead, h);
    FreshPageKeepsClients(m0, mid, h);
    DescWriteKeepsClients(mid, m3, h, d);
    SlotsOffDesc(m2, mid, h, d, p, c);
    OpenRep(mid, m3, heads, heads[c := d], spareHead, h, c);
  }

  lemma SlotsOffDesc(m: seq<word>, n: seq<word>, h: Heap, d: int, p: int, c: nat)
    requires DescOk(h, d) && p % PAGE_SIZE == 0 && p !in h.meta && c < CLASSES
    requires SameExcept(m, n, d, d + 16) && Links(m, 0, p, Slots(p, c))
    ensures Links(n, 0, p, Slots(p, c))
  {
    var s := Slots(p, c);
    forall j | 0 <= j < |s|
      ensures n[s[j]] == m[s[j]]
    {
      SlotFacts(p, c, j);
      OffDesc(h, d, s[j]);
    }
    LinksFrame(m, n, 0, p, s);
  }

  /** What is left of a null descriptor that was filled in for class `c`, but
      for its page: the words at 0, 8 and 12. */
  ghost predicate NullFilled(m: seq<word>, n: seq<word>, c: nat)
    requires c < CLASSES
  {
    && SameExcept(m, n, 0, 16) && |m| >= 16
    && n[PAGE] == n[FREEPTR] == 0 && n[COUNTS] == Pack(0, Size(c)) && n[NEXT] == m[NEXT]
  }

  /** Taking a null descriptor makes the word at 4 the head of the spare list:
      the words still stand for the same heap, which has no spare descriptor,
      exactly if that word is zero. */
  lemma NullTaken(m: seq<word>, n: seq<word>, heads: seq<word>, spareHead: int, h: Heap, c: nat)
    requires Inv(h) && Rep(m, heads, spareHead, h) && h.spare == []
    requires c < CLASSES && NullFilled(m, n, c)
    ensures Rep(n, heads, m[NEXT], h) <==> m[NEXT] == 0
    ensures ClientsKept(m, n, Blocks(h.info))
  {
    NullPageKeepsBlocks(m, n, h);
    SpareWord(m, heads, spareHead, h);
    if m[NEXT] == 0 {
      NullPageRep(m, n, heads, spareHead, h);
    } else if Rep(n, heads, m[NEXT], h) {
      SpareWord(n, heads, m[NEXT], h);
    }
  }

  // ----- Reading -----

  lemma SizeWord(c: nat)
    requires c < CLASSES
    ensures 16 <= Size(c) <= 4096
  {
  }

  lemma CountBounds(b: Bucket)
    requires b.cls < CLASSES && BucketOk(b)
    ensures 16 <= Size(b.cls) <= 4096 && b.refcnt <= 256
    ensures b.free != [] ==> b.refcnt < 256
  {
  }

  /** The head of the spare list is null exactly if there is no spare. */
  lemma SpareHead(h: Heap)
    requires Inv(h)
    ensures Nth(h.spare, 0) == 0 <==> h.spare == []
    ensures h.spare != [] ==> Nth(h.spare, 0) >= BASE && DescOk(h, h.spare[0])
  {
    assert Holds(h, InDescs);
    if h.spare != [] {
      assert h.spare[0] in h.spare;
      DescBounds(h, h.spare[0]);
    }
  }

  lemma SpareWord(m: seq<word>, heads: seq<word>, spareHead: int, h: Heap)
    requires Rep(m, heads, spareHead, h)
    ensures spareHead == Nth(h.spare, 0)
  {
    assert Stored(m, heads, spareHead, h, TheSpare);
  }

  /** What taking a spare descriptor reads. */
  lemma SpareFacts(m: seq<word>, heads: seq<word>, spareHead: int, h: Heap)
    requires Inv(h) && Rep(m, heads, spareHead, h) && h.spare != []
    ensures
      var d := h.spare[0];
      && d == spareHead && DescOk(h, d) && d % 16 == 0
      && BASE <= d && d + 16 <= |m|
      && m[d + NEXT] == Nth(h.spare, 1)
  {
    Parts(m, heads, spareHead, h);
    SpareHead(h);
    DescBounds(h, h.spare[0]);
    ReadLink(m, NEXT, spareHead, h.spare, 0);
  }

  /** Taking a descriptor reads the spare list's first one, or at the null
      pointer. */
  lemma TakenFacts(m: seq<word>, heads: seq<word>, spareHead: int, h: Heap)
    requires Inv(h) && Rep(m, heads, spareHead, h)
    ensures h.spare == [] ==> spareHead == 0
    ensures 0 <= spareHead && spareHead + 16 <= |m|
    ensures h.spare != [] ==> spareHead == h.spare[0] && DescOk(h, spareHead) && m[spareHead + NEXT] == Nth(h.spare, 1)
  {
    SpareWord(m, heads, spareHead, h);
    if h.spare != [] {
      SpareFacts(m, heads, spareHead, h);
    }
  }

  /** What taking an object reads. */
  lemma PopFacts(m: seq<word>, heads: seq<word>, spareHead: int, h: Heap, d: int)
    requires Inv(h) && Rep(m, heads, spareHead, h) && d in h.info && h.info[d].free != []
    ensures DescOk(h, d) && 0 <= d && d + 16 <= |m|
    ensures
      var b := h.info[d];
      && 0 <= b.refcnt < 256 && 16 <= Size(b.cls) <= 4096
      && m[d + FREEPTR] == b.free[0] && 0 <= b.free[0] < |m| && m[d + COUNTS] == Pack(b.refcnt, Size(b.cls))
      && m[b.free[0]] == Nth(b.free, 1)
  {
    assert Stored(m, heads, spareHead, h, TheBuckets);
    assert Holds(h, InChains) && Holds(h, InDescs) && Holds(h, InBuckets);
    var b := h.info[d];
    DescBounds(h, d);
    LiveSize(b);
    CountBounds(b);
    ReadLink(m, 0, b.free[0], b.free, 0);
  }

  /** What a walk along the chain `s` reads at node number `k`. */
  ghost predicate Readable(m: seq<word>, info: map<int, Bucket>, s: seq<int>, k: int)
    requires 0 <= k < |s|
  {
    var d := s[k];
    && BASE <= d && d + 16 <= |m| && d in info
    && m[d + PAGE] == info[d].page
    && (m[d + FREEPTR] != 0 <==> info[d].free != [])
    && m[d + NEXT] == Nth(s, k + 1)
    && (k + 1 < |s| ==> m[d + NEXT] != 0)
  }

  ghost predicate Walk(m: seq<word>, info: map<int, Bucket>, head: int, s: seq<int>) {
    && head == Nth(s, 0) && (s != [] ==> head != 0)
    && forall k {:trigger Readable(m, info, s, k)} :: 0 <= k < |s| ==> Readable(m, info, s, k)
  }

  lemma CanWalk(m: seq<word>, heads: seq<word>, spareHead: int, h: Heap, c: nat)
    requires Inv(h) && Rep(m, heads, spareHead, h) && c < CLASSES
    ensures Walk(m, h.info, heads[c], h.chains[c]) && AllIn(h.info, h.chains[c])
  {
    Parts(m, heads, spareHead, h);
    assert Holds(h, InDescs);
    var s := h.chains[c];
    if s != [] {
      DescBounds(h, s[0]);
    }
    forall k | 0 <= k < |s|
      ensures Readable(m, h.info, s, k)
    {
      CanRead(m, heads, spareHead, h, c, k);
    }
  }

  lemma CanRead(m: seq<word>, heads: seq<word>, spareHead: int, h: Heap, c: nat, k: nat)
    requires Inv(h) && Rep(m, heads, spareHead, h) && c < CLASSES && k < |h.chains[c]|
    ensures Readable(m, h.info, h.chains[c], k)
  {
    Parts(m, heads, spareHead, h);
    assert Holds(h, InDescs);
    var d := h.chains[c][k];
    DescBounds(h, d);
    ReadLink(m, NEXT, heads[c], h.chains[c], k);
    if k + 1 < |h.chains[c]| {
      DescBounds(h, h.chains[c][k + 1]);
    }
    if h.info[d].free != [] {
      assert h.info[d].free[0] in h.info[d].free;
      FreeFacts(h, d, h.info[d].free[0]);
    }
  }

  /** What giving an object back reads. */
  lemma PushFacts(m: seq<word>, heads: seq<word>, spareHead: int, h: Heap, d: int, obj: int)
    requires Inv(h) && Rep(m, heads, spareHead, h) && d in h.info && obj in Live(h.info[d])
    ensures 0 <= d && d + 16 <= |m|
    ensures m[d + COUNTS] == Pack(h.info[d].refcnt, Size(h.info[d].cls))
    ensures 0 <= obj < |m| && !(d <= obj < d + 16)
    ensures 0 < h.info[d].refcnt <= 256 && 16 <= Size(h.info[d].cls) <= 4096 && DescOk(h, d)
  {
    assert Stored(m, heads, spareHead, h, TheBuckets);
    assert Holds(h, InDescs) && Holds(h, InPages) && Holds(h, InBuckets);
    var b := h.info[d];
    DescBounds(h, d);
    LiveSize(b);
    CountBounds(b);
    LiveAwayFromDesc(h, d, obj);
    var j := InSlots(b.page, b.cls, obj);
    TakenPage(h.pages, b.page);
  }

  /** Only the freed object's own words and one descriptor change. */
  lemma PushKeepsClients(m: seq<word>, n: seq<word>, h: Heap, d: int, obj: int, v: word)
    requires Inv(h) && d in h.info && obj in Live(h.info[d]) && 0 <= obj < |m|
    requires SameExcept(m[obj := v], n, d, d + 16)
    ensures
      var t := h.(info := h.info[d := Push(h.info[d], obj)]);
      ClientsKept(m, n, Blocks(t.info))
  {
    assert Holds(h, InDescs);
    var t := h.(info := h.info[d := Push(h.info[d], obj)]);
    PushInv(h, d, obj);
    DescWriteKeepsClients(m[obj := v], n, t, d);
    LivePage(h, d, obj);
    forall a | 0 <= a < |m| && InBlock(Blocks(t.info), a)
      ensures a != obj
    {
      assert obj in t.info[d].free;
      BlockNoLink(t, a, d, obj);
    }
  }

  lemma PushDescsOnly(m: seq<word>, n: seq<word>, h: Heap, d: int, obj: int, v: word)
    requires DescOk(h, d) && 0 <= obj < |m| && SameExcept(m[obj := v], n, d, d + 16)
    ensures DescsOnly(m, n, h.meta, obj)
  {
    DescWriteOnly(m[obj := v], n, h, d);
  }

  /** What unlinking a descriptor reads and writes. */
  lemma CloseFacts(m: seq<word>, heads: seq<word>, spareHead: int, h: Heap, c: nat, k: nat)
    requires Inv(h) && Rep(m, heads, spareHead, h) && c < CLASSES && k < |h.chains[c]|
    ensures
      var d := h.chains[c][k];
      && BASE <= d && d + 16 <= |m|
      && m[d + PAGE] == h.info[d].page && m[d + NEXT] == Nth(h.chains[c], k + 1)
    ensures k == 0 ==> heads[c] == h.chains[c][0]
    ensures
      k > 0 ==>
        var prev := h.chains[c][k - 1];
        BASE <= prev && prev + 16 <= |m| && m[prev + NEXT] == h.chains[c][k]
  {
    Parts(m, heads, spareHead, h);
    assert Holds(h, InDescs);
    var d := h.chains[c][k];
    DescBounds(h, d);
    ReadLink(m, NEXT, heads[c], h.chains[c], k);
    if k > 0 {
      assert DescOk(h, h.chains[c][k - 1]);
      DescBounds(h, h.chains[c][k - 1]);
      ReadLink(m, NEXT, heads[c], h.chains[c], k - 1);
    }
  }

  lemma CloseKeepsClients(m: seq<word>, mid: seq<word>, h: Heap, c: nat, k: nat, v: word)
    requires Inv(h) && c < CLASSES && k < |h.chains[c]| && h.info[h.chains[c][k]].cls < CLASSES
    requires Live(h.info[h.chains[c][k]]) == {}
    requires k == 0 ==> mid == m
    requires k > 0 ==> SameExcept(m, mid, h.chains[c][k - 1], h.chains[c][k - 1] + 16)
    requires var d := h.chains[c][k]; 0 <= d && d + 16 <= |m| && |mid| == |m|
    ensures ClientsKept(m, mid[h.chains[c][k] + NEXT := v], Blocks(Close(h, c, k).info))
  {
    assert Holds(h, InDescs);
    var d := h.chains[c][k];
    var bs := Blocks(Close(h, c, k).info);
    assert bs <= Blocks(h.info);
    if k > 0 {
      assert DescOk(h, h.chains[c][k - 1]);
      DescWriteKeepsClients(m, mid, h, h.chains[c][k - 1]);
    }
    assert DescOk(h, d);
    DescWriteKeepsClients(mid, mid[d + NEXT := v], h, d);
    KeptThrough(m, mid, mid[d + NEXT := v], Blocks(h.info), Blocks(h.info));
    KeptLess(m, mid[d + NEXT := v], Blocks(h.info), bs);
    DescBounds(h, d);
  }

  lemma KeptLess(m: seq<word>, n: seq<word>, bs: set<(int, int)>, less: set<(int, int)>)
    requires BlocksKept(m, n, bs) && less <= bs
    ensures BlocksKept(m, n, less)
  {
    forall a | 0 <= a < |m| && InBlock(less, a)
      ensures n[a] == m[a]
    {
      assert InBlock(bs, a);
    }
  }

  lemma ReleaseBounds(h: Heap, d: int)
    requires Inv(h) && d in h.info
    ensures PageIndex(h.info[d].page) in h.pages.taken
    ensures BASE <= h.info[d].page < BASE + h.pages.total * PAGE_SIZE
  {
    assert Holds(h, InPages);
    TakenPage(h.pages, h.info[d].page);
  }

  lemma PageOfWord(a: word)
    ensures 0 <= PageOf(a) <= a
  {
  }

  ghost function Pushed(h: Heap, d: int, obj: int): Heap
    requires d in h.info
  {
    h.(info := h.info[d := Push(h.info[d], obj)])
  }

  /** Descriptor `d`, number `k` of chain `c`, owns the live object `obj`. */
  ghost predicate Owns(h: Heap, c: nat, k: nat, d: int, obj: int) {
    && Linked(h) && c < CLASSES && k < |h.chains[c]| && d == h.chains[c][k]
    && d in h.info && h.info[d].cls < CLASSES && obj in Live(h.info[d])
    && 0 < h.info[d].refcnt <= 256
    && (h.info[d].refcnt == 1 ==> Live(Pushed(h, d, obj).info[d]) == {})
  }

  /** kfree_s in two steps: the object goes back, then an empty page. */
  ghost function FreeAt(h: Heap, c: nat, k: nat, d: int, obj: int): Heap
    requires Owns(h, c, k, d, obj)
  {
    var t := Pushed(h, d, obj);
    if h.info[d].refcnt == 1 then Close(t, c, k) else t
  }

  lemma FoundOwns(h: Heap, c: nat, k: nat, d: int, obj: int)
    requires Inv(h) && c < CLASSES && k < |h.chains[c]| && d == h.chains[c][k]
    requires d in h.info && obj in Live(h.info[d])
    ensures Owns(h, c, k, d, obj)
  {
    assert Holds(h, InBuckets);
    var b := h.info[d];
    LiveSize(b);
    CountBounds(b);
    if b.refcnt == 1 {
      LastObject(b, obj);
      PushBlock(b, obj);
    }
  }

  lemma CloseAfterPush(h: Heap, c: nat, k: nat, d: int, obj: int)
    requires Owns(h, c, k, d, obj) && Linked(Pushed(h, d, obj))
    ensures Close(Pushed(h, d, obj), c, k) == Close(h, c, k)
  {
    assert Pushed(h, d, obj).info - {d} == h.info - {d};
  }

  lemma KfreeInSteps(h: Heap, obj: int, size: int, c: nat, k: nat, d: int)
    requires Inv(h) && CanFree(h, obj, size)
    requires c == OwnerClass(h, PageOf(obj), size, 0) < CLASSES
    requires k == Owner(h.info, h.chains[c], PageOf(obj)) && d == h.chains[c][k]
    ensures Owns(h, c, k, d, obj) && FreeAt(h, c, k, d, obj) == Kfree(h, obj, size)
    ensures Busy(h) ==> Busy(Kfree(h, obj, size))
  {
    FoundOwns(h, c, k, d, obj);
    PushInv(h, d, obj);
    CloseAfterPush(h, c, k, d, obj);
    KfreeInv(h, obj, size);
  }

  lemma CloseMoreKept(h: Heap, c: nat, k: nat)
    requires Inv(h) && c < CLASSES && k < |h.chains[c]|
    ensures Linked(h) && Blocks(Close(h, c, k).info) <= Blocks(h.info)
  {
  }

  /** Descriptor `k` of chain `c` is bypassed in `mid`, its page can be given
      back, and storing `spareHead` as its link completes the step. */
  ghost predicate Closing(m: seq<word>, mid: seq<word>, newHeads: seq<word>, spareHead: word, h: Heap, c: nat, k: nat)
    requires Linked(h) && c < CLASSES && k < |h.chains[c]|
  {
    var d := h.chains[c][k];
    var p := h.info[d].page;
    var t := Close(h, c, k);
    && 0 <= d && d + 16 <= |mid|
    && mid[d + PAGE] == p && PageIndex(p) in h.pages.taken
    && BASE <= p < BASE + h.pages.total * PAGE_SIZE
    && Rep(mid[d + NEXT := spareHead], newHeads, d, t)
    && ClientsKept(m, mid[d + NEXT := spareHead], Blocks(t.info))
    && DescsOnly(m, mid[d + NEXT := spareHead], h.meta, -1)
  }

  lemma CloseDescsOnly(m: seq<word>, mid: seq<word>, h: Heap, c: nat, k: nat, v: word)
    requires Inv(h) && c < CLASSES && k < |h.chains[c]|
    requires k == 0 ==> mid == m
    requires k > 0 ==> SameExcept(m, mid, h.chains[c][k - 1], h.chains[c][k - 1] + 16)
    requires var d := h.chains[c][k]; 0 <= d && d + 16 <= |m| && |mid| == |m|
    ensures DescsOnly(m, mid[h.chains[c][k] + NEXT := v], h.meta, -1)
  {
    assert Holds(h, InDescs);
    var d := h.chains[c][k];
    if k > 0 {
      assert DescOk(h, h.chains[c][k - 1]);
      DescWriteOnly(m, mid, h, h.chains[c][k - 1]);
    }
    assert DescOk(h, d);
    DescWriteOnly(mid, mid[d + NEXT := v], h, d);
  }

  lemma CloseStep(m: seq<word>, mid: seq<word>, heads: seq<word>, newHeads: seq<word>, spareHead: word, h: Heap,
                  c: nat, k: nat)
    requires Inv(h) && Rep(m, heads, spareHead, h) && c < CLASSES && k < |h.chains[c]|
    requires Bypassed(m, mid, heads, newHeads, h, c, k)
    requires h.chains[c][k] in h.info && Live(h.info[h.chains[c][k]]) == {}
    ensures Linked(h) && Closing(m, mid, newHeads, spareHead, h, c, k)
  {
    Parts(m, heads, spareHead, h);
    var d := h.chains[c][k];
    CloseFacts(m, heads, spareHead, h, c, k);
    CloseRep(m, mid, heads, newHeads, spareHead, h, c, k);
    CloseKeepsClients(m, mid, h, c, k, spareHead);
    CloseDescsOnly(m, mid, h, c, k, spareHead);
    BypassedRest(m, mid, heads, newHeads, spareHead, h, c, k);
    assert BucketAt(mid, d, h.info[d]);
    ReleaseBounds(h, d);
  }
}
