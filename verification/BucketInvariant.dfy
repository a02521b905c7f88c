/** Every step of the bucket allocator keeps the two-layer invariant. */
module BucketInvariant {
  import opened Machine
  import opened PageSpec
  import opened BucketSpec

  lemma NewPage(s: PageState)
    requires PageInv(s) && HasPage(s)
    ensures
      var p := PageAddr(Next(s));
      && IsPage(Take(s), p) && !IsPage(s, p)
      && PageInv(Take(s))
      && (forall q :: IsPage(s, q) ==> IsPage(Take(s), q))
  {
    TakeKeepsInv(s);
    PageAddrFacts(Next(s));
  }

  lemma CarveFacts(page: int)
    requires page % PAGE_SIZE == 0
    ensures NoDup(Carve(page)) && |Carve(page)| == 256
    ensures forall d :: d in Carve(page) ==> d % 16 == 0 && PageOf(d) == page
  {
    SlotsDistinct(page, 0);
    forall d | d in Carve(page)
      ensures d % 16 == 0 && PageOf(d) == page
    {
      var j := InSlots(page, 0, d);
    }
  }

  lemma NoDupConcat(a: seq<int>, b: seq<int>)
    requires NoDup(a) && NoDup(b) && forall x :: x in a ==> x !in b
    ensures NoDup(a + b)
  {
    forall i, j | 0 <= i < j < |a + b|
      ensures (a + b)[i] != (a + b)[j]
    {
      if i < |a| <= j {
        assert a[i] in a && b[j - |a|] in b;
      }
    }
  }

  lemma AddDescs(h: Heap, t: Heap, page: int, cs: seq<int>)
    requires DescsOk(h) && page !in h.meta && NoDup(cs) && |cs| == 256
    requires forall d :: d in cs ==> d % 16 == 0 && PageOf(d) == page
    requires t.info == h.info && t.lost == h.lost && t.spare == cs + h.spare && t.meta == h.meta + {page}
    ensures DescsOk(t)
  {
    assert |t.meta| == |h.meta| + 1;
    forall d | d in cs
      ensures DescOk(t, d) && !DescOk(h, d)
    {
    }
    forall d | DescOk(h, d)
      ensures DescOk(t, d)
    {
    }
    NoDupConcat(cs, h.spare);
  }

  lemma RefillPages(h: Heap)
    requires PagesOk(h) && HasPage(h.pages)
    ensures PagesOk(Refill(h)) && !IsPage(h.pages, PageAddr(Next(h.pages)))
  {
    NewPage(h.pages);
    assert |Refill(h).meta| == |h.meta| + 1;
  }

  lemma RefillDescs(h: Heap)
    requires DescsOk(h) && PageAddr(Next(h.pages)) !in h.meta
    ensures DescsOk(Refill(h)) && Refill(h).spare != []
  {
    var p := PageAddr(Next(h.pages));
    PageAddrFacts(Next(h.pages));
    CarveFacts(p);
    AddDescs(h, Refill(h), p, Carve(p));
  }

  lemma RefillInv(h: Heap)
    requires Inv(h) && HasPage(h.pages)
    ensures Inv(Refill(h)) && Refill(h).spare != []
    ensures Busy(h) ==> Busy(Refill(h))
  {
    Clauses(h);
    RefillPages(h);
    RefillDescs(h);
    var t := Refill(h);
    assert Shaped(t);
    forall clause: Clause
      ensures Holds(t, clause)
    {
      assert Holds(h, clause);
    }
  }

  lemma DropInv(h: Heap)
    requires Inv(h) && h.spare != []
    ensures Inv(Drop(h))
  {
    var t := Drop(h);
    forall clause: Clause
      ensures Holds(t, clause)
    {
      assert Holds(h, clause);
      if clause == InDescs {
        DropDescs(h);
      }
    }
  }

  lemma DropDescs(h: Heap)
    requires DescsOk(h) && h.spare != []
    ensures DescsOk(Drop(h)) && |Drop(h).lost| == |h.lost| + 1
  {
    var d, t := h.spare[0], Drop(h);
    assert d in h.spare;
    assert DescOk(h, d) && d !in h.lost;
    assert t.lost == h.lost + {d};
    assert forall e :: e in t.spare ==> e in h.spare && e != d;
  }

  lemma OpenChains(h: Heap, c: nat)
    requires Inv(h) && h.spare != [] && c < CLASSES
    ensures ChainsOk(Open(h, c))
  {
    assert Holds(h, InChains) && Holds(h, InDescs);
    var d := h.spare[0];
    var t := Open(h, c);
    assert d in h.spare && d !in h.info;
    assert d !in h.chains[c];
    assert t.chains[c] == [d] + h.chains[c];
    forall e | e in t.info
      ensures t.info[e].cls < CLASSES && e in t.chains[t.info[e].cls]
    {
      if e == d {
        assert t.chains[c][0] == d;
      } else {
        assert e in h.chains[h.info[e].cls];
      }
    }
  }

  lemma OpenDescs(h: Heap, c: nat)
    requires Inv(h) && h.spare != [] && c < CLASSES
    ensures DescsOk(Open(h, c))
  {
    assert Holds(h, InDescs);
    var d := h.spare[0];
    var t := Open(h, c);
    assert d in h.spare && d !in h.info;
    assert |t.info| == |h.info| + 1;
    assert forall e :: e in t.spare ==> e in h.spare && e != d;
  }

  lemma OpenPages(h: Heap, c: nat)
    requires Inv(h) && h.spare != [] && HasPage(h.pages) && c < CLASSES
    ensures PagesOk(Open(h, c))
  {
    assert Holds(h, InDescs) && Holds(h, InPages);
    var d := h.spare[0];
    var t := Open(h, c);
    NewPage(h.pages);
    assert d in h.spare && d !in h.info;
    assert |t.info| == |h.info| + 1;
    assert forall e :: e in t.info ==> e == d || (e in h.info && t.info[e] == h.info[e]);
    assert t.info[d].page == PageAddr(Next(h.pages));
  }

  lemma OpenInv(h: Heap, c: nat)
    requires Inv(h) && h.spare != [] && HasPage(h.pages) && c < CLASSES
    ensures Inv(Open(h, c))
    ensures
      var t := Open(h, c);
      var d := h.spare[0];
      && t.chains[c][0] == d && d in t.info && t.info[d].cls == c && t.info[d].refcnt == 0
      && t.info[d].free != [] && t.info[d].free[0] == t.info[d].page == PageAddr(Next(h.pages))
  {
    assert Holds(h, InBuckets);
    var d := h.spare[0];
    OpenChains(h, c);
    OpenDescs(h, c);
    OpenPages(h, c);
    SlotsDistinct(PageAddr(Next(h.pages)), c);
    assert BucketOk(Open(h, c).info[d]);
  }

  /** A bucket's free list and count may change as long as they fit together. */
  lemma SetBucket(h: Heap, d: int, b: Bucket)
    requires Inv(h) && d in h.info && b.cls == h.info[d].cls && b.page == h.info[d].page && BucketOk(b)
    ensures Inv(h.(info := h.info[d := b]))
  {
    var t := h.(info := h.info[d := b]);
    assert t.info.Keys == h.info.Keys;
    forall clause: Clause
      ensures Holds(t, clause)
    {
      assert Holds(h, clause);
    }
  }

  lemma PopInv(h: Heap, d: int)
    requires Inv(h) && d in h.info && h.info[d].free != []
    ensures Inv(Pop(h, d))
  {
    assert Holds(h, InBuckets);
    var b := h.info[d];
    assert forall a :: a in b.free[1..] ==> a in b.free;
    SetBucket(h, d, b.(free := b.free[1..], refcnt := b.refcnt + 1));
  }

  lemma PushInv(h: Heap, d: int, obj: int)
    requires Inv(h) && d in h.info && obj in Live(h.info[d])
    ensures Inv(h.(info := h.info[d := Push(h.info[d], obj)]))
  {
    assert Holds(h, InBuckets);
    SetBucket(h, d, Push(h.info[d], obj));
  }

  lemma RemoveAtFacts(s: seq<int>, k: nat)
    requires NoDup(s) && k < |s|
    ensures NoDup(RemoveAt(s, k))
    ensures forall d :: d in RemoveAt(s, k) <==> d in s && d != s[k]
  {
    var r := RemoveAt(s, k);
    forall d | d in s && d != s[k]
      ensures d in r
    {
      var j :| 0 <= j < |s| && s[j] == d;
      assert r[if j < k then j else j - 1] == d;
    }
  }

  lemma CloseChains(h: Heap, c: nat, k: nat)
    requires Inv(h) && c < CLASSES && k < |h.chains[c]|
    ensures Linked(Close(h, c, k)) && ChainsOk(Close(h, c, k))
  {
    assert Holds(h, InChains);
    var t := Close(h, c, k);
    RemoveAtFacts(h.chains[c], k);
    forall i, j | 0 <= i < CLASSES && 0 <= j < |t.chains[i]|
      ensures t.chains[i][j] in t.info && t.info[t.chains[i][j]].cls == i
    {
      assert t.chains[i][j] in t.chains[i];
      assert t.chains[i][j] in h.chains[i];
    }
    assert forall i :: 0 <= i < CLASSES ==> AllIn(t.info, t.chains[i]);
  }

  lemma CloseDescs(h: Heap, c: nat, k: nat)
    requires Inv(h) && c < CLASSES && k < |h.chains[c]|
    ensures DescsOk(Close(h, c, k))
  {
    assert Holds(h, InDescs);
    var d := h.chains[c][k];
    var t := Close(h, c, k);
    assert t.info.Keys == h.info.Keys - {d};
    assert |t.info| == |h.info| - 1;
    assert forall e :: e in t.spare <==> e == d || e in h.spare;
  }

  lemma ClosePages(h: Heap, c: nat, k: nat)
    requires Inv(h) && c < CLASSES && k < |h.chains[c]|
    ensures PagesOk(Close(h, c, k))
  {
    assert Holds(h, InPages);
    var d := h.chains[c][k];
    var t := Close(h, c, k);
    var p := h.info[d].page;
    ReleaseKeepsInvIff(h.pages, PageIndex(p));
    assert |t.info| == |h.info| - 1 by {
      assert t.info.Keys == h.info.Keys - {d};
    }
    forall q | IsPage(h.pages, q) && q != p
      ensures IsPage(t.pages, q)
    {
      if PageIndex(q) == PageIndex(p) {
        PageIndexInjective(p, q);
      }
    }
  }

  lemma CloseInv(h: Heap, c: nat, k: nat)
    requires Inv(h) && c < CLASSES && k < |h.chains[c]|
    ensures Inv(Close(h, c, k))
  {
    CloseChains(h, c, k);
    CloseDescs(h, c, k);
    ClosePages(h, c, k);
    assert Holds(h, InBuckets);
  }

  lemma ReadyInv(h: Heap)
    requires Inv(h) && (h.spare != [] || HasPage(h.pages))
    ensures Inv(Ready(h)) && Ready(h).spare != []
    ensures Ready(h).chains == h.chains && Ready(h).info == h.info
  {
    if h.spare == [] {
      RefillInv(h);
    }
  }

  lemma FromNewPageInv(h: Heap, c: nat)
    requires Inv(h) && c < CLASSES && (h.spare != [] || HasPage(h.pages))
    ensures Inv(FromNewPage(h, c).0)
    ensures Busy(h) ==> Busy(FromNewPage(h, c).0)
  {
    ReadyInv(h);
    var h1 := Ready(h);
    if !HasPage(h1.pages) {
      DropInv(h1);
    } else {
      OpenInv(h1, c);
      PopInv(Open(h1, c), h1.spare[0]);
    }
  }

  /** kmalloc keeps the invariant of both layers, and leaves no page empty. */
  lemma KmallocInv(h: Heap, len: int)
    requires Inv(h)
    ensures Inv(Kmalloc(h, len).0)
    ensures Busy(h) ==> Busy(Kmalloc(h, len).0)
  {
    var c := ClassFor(len, 0);
    if c == CLASSES || !FindsDesc(h, len) {
    } else if !NeedsPage(h, c) {
      var d := h.chains[c][FirstFree(h.info, h.chains[c])];
      PopInv(h, d);
    } else {
      FromNewPageInv(h, c);
    }
  }

  lemma LiveSize(b: Bucket)
    requires b.cls < CLASSES && BucketOk(b)
    ensures |Live(b)| == b.refcnt
  {
    SlotsDistinct(b.page, b.cls);
    ElemsSize(Slots(b.page, b.cls));
    ElemsSize(b.free);
    assert Elems(b.free) <= Elems(Slots(b.page, b.cls));
    assert Elems(Slots(b.page, b.cls)) == Live(b) + Elems(b.free);
  }

  /** kfree_s keeps the invariant of both layers, and leaves no page empty. */
  lemma KfreeInv(h: Heap, obj: int, size: int)
    requires Inv(h) && CanFree(h, obj, size)
    ensures Inv(Kfree(h, obj, size))
    ensures Busy(h) ==> Busy(Kfree(h, obj, size))
  {
    var c := OwnerClass(h, PageOf(obj), size, 0);
    if c < CLASSES {
      var k := Owner(h.info, h.chains[c], PageOf(obj));
      var d := h.chains[c][k];
      if h.info[d].refcnt == 1 {
        CloseInv(h, c, k);
      } else {
        PushInv(h, d, obj);
      }
    }
  }
}
