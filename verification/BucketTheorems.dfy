/** What the bucket allocator guarantees: to its clients it is a set of disjoint
    blocks, a free undoes an allocation exactly, descriptors and pages are
    conserved, and a half-empty memory never refuses a request. */
module BucketTheorems {
  import opened Machine
  import opened PageSpec
  import opened BucketSpec
  import opened BucketInvariant

  // ----- Finding the owner of an object -----

  lemma OwnerInChain(h: Heap, d: int, s: seq<int>)
    requires Inv(h) && d in h.info && AllIn(h.info, s) && d in s
    ensures var k := Owner(h.info, s, h.info[d].page); k < |s| && s[k] == d
  {
    assert Holds(h, InPages);
    var k := Owner(h.info, s, h.info[d].page);
    var j :| 0 <= j < |s| && s[j] == d;
    assert k <= j;
  }

  lemma LivePage(h: Heap, d: int, obj: int)
    requires Inv(h) && d in h.info && obj in Live(h.info[d])
    ensures PageOf(obj) == h.info[d].page && obj >= BASE
  {
    assert Holds(h, InPages);
    var j := InSlots(h.info[d].page, h.info[d].cls, obj);
  }

  /** kfree_s finds exactly the owner of a live object if the given size does
      not exceed the object's bucket size, and finds nothing otherwise. */
  lemma FreeFindsOwnerIff(h: Heap, d: int, obj: int, size: int)
    requires Inv(h) && d in h.info && obj in Live(h.info[d])
    ensures
      var c := OwnerClass(h, PageOf(obj), size, 0);
      if size <= Size(h.info[d].cls) then
        c == h.info[d].cls && h.chains[c][Owner(h.info, h.chains[c], PageOf(obj))] == d
      else
        c == CLASSES && Kfree(h, obj, size) == h
    ensures CanFree(h, obj, size)
  {
    assert Holds(h, InChains) && Holds(h, InPages);
    LivePage(h, d, obj);
    var c := OwnerClass(h, PageOf(obj), size, 0);
    OwnerInChain(h, d, h.chains[h.info[d].cls]);
    if c < CLASSES {
      var e := h.chains[c][Owner(h.info, h.chains[c], PageOf(obj))];
      assert e == d;
    }
  }

  // ----- The client's view: a set of blocks -----

  ghost function BlocksOf(b: Bucket): set<(int, int)> {
    if b.cls < CLASSES then set a | a in Live(b) :: (a, Size(b.cls)) else {}
  }

  /** Address and size of every live object. */
  ghost function Blocks(info: map<int, Bucket>): set<(int, int)> {
    set d, x | d in info.Keys && x in BlocksOf(info[d]) :: x
  }

  lemma BlockOwner(h: Heap, x: (int, int)) returns (d: int, j: int)
    requires Inv(h) && x in Blocks(h.info)
    ensures d in h.info && x in BlocksOf(h.info[d])
    ensures x.0 in Live(h.info[d]) && x.1 == Size(h.info[d].cls)
    ensures 0 <= j < Count(h.info[d].cls) && x.0 == Slot(h.info[d].page, h.info[d].cls, j)
    ensures PageOf(x.0) == h.info[d].page && x.0 % 16 == 0
    ensures h.info[d].page <= x.0 && x.0 + x.1 <= h.info[d].page + PAGE_SIZE && h.info[d].page % PAGE_SIZE == 0
  {
    assert Holds(h, InPages);
    d :| d in h.info && x in BlocksOf(h.info[d]);
    j := InSlots(h.info[d].page, h.info[d].cls, x.0);
  }

  lemma PagesApart(p: int, q: int)
    requires p % PAGE_SIZE == 0 && q % PAGE_SIZE == 0 && p < q
    ensures p + PAGE_SIZE <= q
  {
  }

  /** Two different live blocks never share a byte. */
  lemma BlocksDisjoint(h: Heap, x: (int, int), y: (int, int))
    requires Inv(h) && x in Blocks(h.info) && y in Blocks(h.info) && x != y
    ensures x.0 + x.1 <= y.0 || y.0 + y.1 <= x.0
  {
    assert Holds(h, InPages);
    var d, i := BlockOwner(h, x);
    var e, j := BlockOwner(h, y);
    var p, q := h.info[d].page, h.info[e].page;
    if p < q {
      PagesApart(p, q);
    } else if q < p {
      PagesApart(q, p);
    } else if i < j {
      SlotsApart(p, h.info[d].cls, i, j);
    } else if j < i {
      SlotsApart(p, h.info[d].cls, j, i);
    }
  }

  lemma AddBlock(info: map<int, Bucket>, d: int, b: Bucket, x: (int, int))
    requires d in info && BlocksOf(b) == BlocksOf(info[d]) + {x}
    ensures Blocks(info[d := b]) == Blocks(info) + {x}
  {
    var t := info[d := b];
    assert t.Keys == info.Keys;
    forall y | y in Blocks(info) + {x}
      ensures y in Blocks(t)
    {
      if y == x {
        assert x in BlocksOf(t[d]);
      } else {
        var e :| e in info && y in BlocksOf(info[e]);
        assert y in BlocksOf(t[e]);
      }
    }
  }

  lemma AddEmpty(info: map<int, Bucket>, d: int, b: Bucket)
    requires d !in info && BlocksOf(b) == {}
    ensures Blocks(info[d := b]) == Blocks(info)
  {
    var t := info[d := b];
    forall y | y in Blocks(info)
      ensures y in Blocks(t)
    {
      var e :| e in info && y in BlocksOf(info[e]);
      assert e in t && t[e] == info[e];
    }
    assert forall e :: e in t && e != d ==> e in info && t[e] == info[e];
  }

  lemma RemoveBlock(h: Heap, t: map<int, Bucket>, d: int, x: (int, int))
    requires Inv(h) && d in h.info && x in BlocksOf(h.info[d])
    requires t.Keys == h.info.Keys || (t.Keys == h.info.Keys - {d} && BlocksOf(h.info[d]) == {x})
    requires forall e :: e in t && e != d ==> t[e] == h.info[e]
    requires d in t ==> BlocksOf(t[d]) == BlocksOf(h.info[d]) - {x}
    ensures Blocks(t) == Blocks(h.info) - {x}
  {
    assert Holds(h, InPages);
    forall y | y in Blocks(h.info) - {x}
      ensures y in Blocks(t)
    {
      var e :| e in h.info && y in BlocksOf(h.info[e]);
      assert e in t && y in BlocksOf(t[e]);
    }
    if x in Blocks(t) {
      var e :| e in t && x in BlocksOf(t[e]);
      LivePage(h, d, x.0);
      LivePage(h, e, x.0);
      assert false;
    }
  }

  lemma PopBlock(b: Bucket)
    requires b.cls < CLASSES && BucketOk(b) && b.free != []
    ensures
      var t := b.(free := b.free[1..], refcnt := b.refcnt + 1);
      && b.free[0] !in Live(b)
      && Live(t) == Live(b) + {b.free[0]}
      && BlocksOf(t) == BlocksOf(b) + {(b.free[0], Size(b.cls))}
  {
    var t := b.(free := b.free[1..], refcnt := b.refcnt + 1);
    assert b.free[0] in b.free;
    assert Elems(b.free) == Elems(t.free) + {b.free[0]};
    assert b.free[0] !in t.free;
    assert Live(t) == Live(b) + {b.free[0]};
    BlocksOfAdd(b, t, b.free[0]);
  }

  lemma BlocksOfAdd(b: Bucket, t: Bucket, a: int)
    requires b.cls == t.cls < CLASSES && Live(t) == Live(b) + {a}
    ensures BlocksOf(t) == BlocksOf(b) + {(a, Size(b.cls))}
  {
  }

  lemma PushBlock(b: Bucket, obj: int)
    requires b.cls < CLASSES && BucketOk(b) && obj in Live(b)
    ensures Live(Push(b, obj)) == Live(b) - {obj}
    ensures BlocksOf(Push(b, obj)) == BlocksOf(b) - {(obj, Size(b.cls))}
  {
    var t := Push(b, obj);
    assert Elems(t.free) == Elems(b.free) + {obj};
    assert Live(t) == Live(b) - {obj};
    BlocksOfAdd(t, b, obj);
    assert (obj, Size(b.cls)) !in BlocksOf(t);
  }

  /** The count stored in a descriptor is one exactly when `obj` is the page's
      last live object. */
  lemma LastObject(b: Bucket, obj: int)
    requires b.cls < CLASSES && BucketOk(b) && obj in Live(b)
    ensures b.refcnt == 1 <==> Live(b) == {obj}
  {
    LiveSize(b);
    assert |Live(b) - {obj}| == |Live(b)| - 1;
    if b.refcnt == 1 {
      assert Live(b) - {obj} == {};
    }
  }

  // ----- kmalloc and kfree_s seen by a client -----

  lemma PopAddsBlock(h: Heap, d: int)
    requires Inv(h) && d in h.info && h.info[d].free != []
    ensures
      var x := (h.info[d].free[0], Size(h.info[d].cls));
      && Blocks(Pop(h, d).info) == Blocks(h.info) + {x}
      && x.0 >= BASE
      && forall s :: (x.0, s) !in Blocks(h.info)
  {
    assert Holds(h, InChains) && Holds(h, InDescs) && Holds(h, InPages) && Holds(h, InBuckets);
    var b := h.info[d];
    var r := b.free[0];
    PopBlock(b);
    AddBlock(h.info, d, b.(free := b.free[1..], refcnt := b.refcnt + 1), (r, Size(b.cls)));
    PopInv(h, d);
    LivePage(Pop(h, d), d, r);
    forall s | (r, s) in Blocks(h.info)
      ensures false
    {
      var e, j := BlockOwner(h, (r, s));
      assert false;
    }
  }

  /** `c` is the smallest class that holds `len` bytes. */
  predicate SmallestClass(len: int, c: nat) {
    c < CLASSES && Size(c) >= len && forall k :: 0 <= k < c ==> Size(k) < len
  }

  /** No linked page of the class has a free object. */
  predicate FullClass(h: Heap, c: nat) {
    forall d :: d in h.info && h.info[d].cls == c ==> h.info[d].free == []
  }

  lemma ClassForIs(len: int, c: nat)
    requires SmallestClass(len, c)
    ensures ClassFor(len, 0) == c
  {
  }

  lemma NeedsPageIff(h: Heap, c: nat)
    requires Inv(h) && c < CLASSES
    ensures NeedsPage(h, c) <==> FullClass(h, c)
  {
    assert Holds(h, InChains);
    var s := h.chains[c];
    if NeedsPage(h, c) {
      forall d | d in h.info && h.info[d].cls == c
        ensures h.info[d].free == []
      {
        var j :| 0 <= j < |s| && s[j] == d;
        assert h.info[s[j]].free == [];
      }
    }
    if FullClass(h, c) {
      forall j | 0 <= j < |s|
        ensures h.info[s[j]].free == []
      {
        var d := s[j];
        assert d in h.info && h.info[d].cls == c;
      }
    }
  }

  /** A call takes the null pointer for a descriptor exactly if no linked page of
      its class has a free object, there is no spare descriptor, and the page
      layer has no page. */
  lemma FindsDescIff(h: Heap, len: int, c: nat)
    requires Inv(h) && SmallestClass(len, c)
    ensures !FindsDesc(h, len) <==> FullClass(h, c) && h.spare == [] && !HasPage(h.pages)
  {
    ClassForIs(len, c);
    NeedsPageIff(h, c);
  }

  /** A request is refused exactly when it exceeds 4096 bytes, or no linked page of
      its class has a free object and there is no descriptor for a new page, or no
      page is left after a descriptor page was taken if necessary. */
  predicate Refused(h: Heap, len: int) {
    || len > PAGE_SIZE
    || (FullClass(h, ClassFor(len, 0))
        && ((h.spare == [] && !HasPage(h.pages)) || !HasPage(Ready(h).pages)))
  }

  /** A free object of a linked page is used before any new page: the first one of
      the first descriptor that has one, and nothing else changes. */
  lemma KmallocReuses(h: Heap, len: int, c: nat, k: nat)
    requires Inv(h) && SmallestClass(len, c)
    requires k < |h.chains[c]| && h.info[h.chains[c][k]].free != []
    requires forall j :: 0 <= j < k ==> h.info[h.chains[c][j]].free == []
    ensures
      var (t, r) := Kmalloc(h, len);
      var d := h.chains[c][k];
      var b := h.info[d];
      && r == b.free[0] && r != 0
      && t.chains == h.chains && t.spare == h.spare && t.lost == h.lost && t.meta == h.meta && t.pages == h.pages
      && t.info == h.info[d := Bucket(b.cls, b.page, b.free[1..], b.refcnt + 1)]
  {
    ClassForIs(len, c);
    assert !NeedsPage(h, c);
    assert FirstFree(h.info, h.chains[c]) == k;
    var d := h.chains[c][k];
    PopAddsBlock(h, d);
  }

  /** Without a free object the answer is null, or the address of a page that was
      not in use, which now comes first in the chain of its class, under the first
      spare descriptor, and is free but for its first object. */
  lemma KmallocOpens(h: Heap, len: int, c: nat)
    requires Inv(h) && SmallestClass(len, c) && FullClass(h, c)
    ensures
      var (t, r) := Kmalloc(h, len);
      r != 0 ==>
        && r % PAGE_SIZE == 0 && r >= BASE && PageIndex(r) !in h.pages.taken && PageIndex(r) in t.pages.taken
        && t.chains[c] != [] && t.chains == h.chains[c := [t.chains[c][0]] + h.chains[c]]
        && var d := t.chains[c][0];
        && d !in h.info && t.info == h.info[d := Bucket(c, r, Slots(r, c)[1..], 1)]
        && (h.spare != [] ==> [d] + t.spare == h.spare && t.meta == h.meta)
  {
    ClassForIs(len, c);
    NeedsPageIff(h, c);
    if FindsDesc(h, len) && HasPage(Ready(h).pages) {
      var h1 := Ready(h);
      ReadyInv(h);
      FreshIndex(h, h1);
      OpenedPage(h1, c);
    }
  }

  lemma OpenedPage(h: Heap, c: nat)
    requires Inv(h) && h.spare != [] && HasPage(h.pages) && c < CLASSES
    ensures
      var d, r := h.spare[0], PageAddr(Next(h.pages));
      && d !in h.info && d in Open(h, c).info && Open(h, c).info[d].free != []
      && var t := Pop(Open(h, c), d);
      && t.chains == h.chains[c := [d] + h.chains[c]]
      && t.info == h.info[d := Bucket(c, r, Slots(r, c)[1..], 1)]
  {
    assert Holds(h, InDescs);
    assert h.spare[0] in h.spare;
    SlotsDistinct(PageAddr(Next(h.pages)), c);
  }

  /** The page that an open request takes was free before, also when a descriptor
      page was taken first. */
  lemma FreshIndex(h: Heap, h1: Heap)
    requires Inv(h) && Inv(h1) && h1 == Ready(h) && (h.spare != [] || HasPage(h.pages)) && HasPage(h1.pages)
    ensures
      var r := PageAddr(Next(h1.pages));
      && r % PAGE_SIZE == 0 && r >= BASE
      && PageIndex(r) == Next(h1.pages) && PageIndex(r) !in h.pages.taken
  {
    assert Holds(h1, InPages);
    TakeKeepsInv(h1.pages);
    PageAddrFacts(Next(h1.pages));
  }

  /** kmalloc hands out one new block of the smallest sufficient class, or
      answers null and leaves the set of blocks as it was. */
  lemma KmallocAddsBlock(h: Heap, len: int)
    requires Inv(h)
    ensures
      var (t, r) := Kmalloc(h, len);
      && (r == 0 <==> Refused(h, len))
      && (r == 0 ==> Blocks(t.info) == Blocks(h.info))
      && (r != 0 ==>
            && var size := Size(ClassFor(len, 0));
            && len <= size
            && Blocks(t.info) == Blocks(h.info) + {(r, size)}
            && r >= BASE
            && forall s :: (r, s) !in Blocks(h.info))
  {
    assert Holds(h, InChains);
    var c := ClassFor(len, 0);
    if c < CLASSES {
      NeedsPageIff(h, c);
    }
    if c == CLASSES || !FindsDesc(h, len) {
    } else if !NeedsPage(h, c) {
      PopAddsBlock(h, h.chains[c][FirstFree(h.info, h.chains[c])]);
    } else {
      NewPageAddsBlock(h, c);
    }
  }

  lemma NewPageAddsBlock(h: Heap, c: nat)
    requires Inv(h) && c < CLASSES && (h.spare != [] || HasPage(h.pages))
    ensures
      var (t, r) := FromNewPage(h, c);
      && (r == 0 <==> !HasPage(Ready(h).pages))
      && (r == 0 ==> Blocks(t.info) == Blocks(h.info))
      && (r != 0 ==>
            && Blocks(t.info) == Blocks(h.info) + {(r, Size(c))}
            && r >= BASE
            && forall s :: (r, s) !in Blocks(h.info))
  {
    ReadyInv(h);
    if HasPage(Ready(h).pages) {
      OpenPopAddsBlock(Ready(h), c);
    }
  }

  lemma OpenPopAddsBlock(h: Heap, c: nat)
    requires Inv(h) && c < CLASSES && h.spare != [] && HasPage(h.pages)
    ensures
      var o := Open(h, c);
      var r := PageAddr(Next(h.pages));
      && h.spare[0] in o.info && o.info[h.spare[0]].free != []
      && Blocks(Pop(o, h.spare[0]).info) == Blocks(h.info) + {(r, Size(c))}
      && r >= BASE
      && forall s :: (r, s) !in Blocks(h.info)
  {
    OpenInv(h, c);
    OpenAddsNothing(h, c);
    PopAddsBlock(Open(h, c), h.spare[0]);
  }

  lemma OpenAddsNothing(h: Heap, c: nat)
    requires Inv(h) && h.spare != [] && HasPage(h.pages) && c < CLASSES
    ensures Blocks(Open(h, c).info) == Blocks(h.info)
  {
    assert Holds(h, InDescs);
    var p := PageAddr(Next(h.pages));
    assert h.spare[0] in h.spare;
    assert Live(Bucket(c, p, Slots(p, c), 0)) == {};
    AddEmpty(h.info, h.spare[0], Bucket(c, p, Slots(p, c), 0));
  }

  /** kfree_s of a live object acts on its owner, where that is in its chain. */
  lemma KfreeOfOwner(h: Heap, d: int, obj: int, size: int)
    requires Inv(h) && d in h.info && obj in Live(h.info[d]) && size <= Size(h.info[d].cls)
    ensures
      var c := h.info[d].cls;
      var k := Owner(h.info, h.chains[c], PageOf(obj));
      && k < |h.chains[c]| && h.chains[c][k] == d
      && Kfree(h, obj, size) ==
         if Live(h.info[d]) == {obj} then Close(h, c, k) else h.(info := h.info[d := Push(h.info[d], obj)])
  {
    assert Holds(h, InBuckets);
    FreeFindsOwnerIff(h, d, obj, size);
    LastObject(h.info[d], obj);
  }

  /** kfree_s of a live object with a size not above its bucket size removes
      exactly that block; its page goes back to the page layer, and nowhere
      else do the pages change, exactly if it was the last object there. */
  lemma KfreeRemovesBlock(h: Heap, d: int, obj: int, size: int)
    requires Inv(h) && d in h.info && obj in Live(h.info[d]) && size <= Size(h.info[d].cls)
    ensures
      var t := Kfree(h, obj, size);
      && Blocks(t.info) == Blocks(h.info) - {(obj, Size(h.info[d].cls))}
      && t.pages == (if Live(h.info[d]) == {obj} then Release(h.pages, PageIndex(PageOf(obj))) else h.pages)
      && (d in t.info <==> Live(h.info[d]) != {obj})
  {
    assert Holds(h, InBuckets);
    KfreeOfOwner(h, d, obj, size);
    LivePage(h, d, obj);
    var b := h.info[d];
    var t := Kfree(h, obj, size);
    PushBlock(b, obj);
    assert (obj, Size(b.cls)) in BlocksOf(b);
    if Live(b) == {obj} {
      assert BlocksOf(b) == {(obj, Size(b.cls))};
      assert t.info.Keys == h.info.Keys - {d};
    } else {
      assert t.info.Keys == h.info.Keys;
    }
    RemoveBlock(h, t.info, d, (obj, Size(b.cls)));
  }

  // ----- Exact undo -----

  /** A list without one of its values, the others in their order. */
  function Without(s: seq<int>, x: int): seq<int> {
    if s == [] then [] else (if s[0] == x then [] else [s[0]]) + Without(s[1..], x)
  }

  lemma {:induction false} RemoveAtIsWithout(s: seq<int>, k: nat)
    requires NoDup(s) && k < |s|
    ensures RemoveAt(s, k) == Without(s, s[k])
    decreases |s|
  {
    var rest := s[1..];
    if k == 0 {
      assert s[0] !in rest;
      WithoutAbsent(rest, s[0]);
      assert RemoveAt(s, 0) == rest;
    } else {
      RemoveAtIsWithout(rest, k - 1);
      assert RemoveAt(s, k) == [s[0]] + RemoveAt(rest, k - 1);
    }
  }

  lemma {:induction false} WithoutAbsent(s: seq<int>, x: int)
    requires x !in s
    ensures Without(s, x) == s
    decreases |s|
  {
    if s != [] {
      WithoutAbsent(s[1..], x);
      assert s == [s[0]] + s[1..];
    }
  }

  /** kfree_s touches the owner alone: all other descriptors keep their pages,
      free lists, counts and places in the chains. The owner leaves its chain
      for the front of the spare list exactly with its last object. */
  lemma KfreeTouchesOwnerOnly(h: Heap, d: int, obj: int, size: int)
    requires Inv(h) && d in h.info && obj in Live(h.info[d]) && size <= Size(h.info[d].cls)
    ensures
      var t := Kfree(h, obj, size);
      var c := h.info[d].cls;
      var last := Live(h.info[d]) == {obj};
      && t.chains == (if last then h.chains[c := Without(h.chains[c], d)] else h.chains)
      && t.spare == (if last then [d] + h.spare else h.spare)
      && t.info - {d} == h.info - {d}
      && (!last ==> d in t.info && t.info[d].free == [obj] + h.info[d].free && t.info[d].refcnt == h.info[d].refcnt - 1)
      && t.meta == h.meta && t.lost == h.lost
  {
    KfreeOfOwner(h, d, obj, size);
    if Live(h.info[d]) == {obj} {
      var c := h.info[d].cls;
      assert Holds(h, InChains);
      RemoveAtIsWithout(h.chains[c], Owner(h.info, h.chains[c], PageOf(obj)));
    } else {
      OthersStay(h.info, d, Push(h.info[d], obj));
    }
  }

  lemma OthersStay(info: map<int, Bucket>, d: int, b: Bucket)
    ensures info[d := b] - {d} == info - {d}
  {
  }

  /** The state a served request starts from: descriptors are fetched only when
      a new page needs one and none is spare. */
  function Prepared(h: Heap, len: int): Heap
    requires Linked(h)
  {
    var c := ClassFor(len, 0);
    if c < CLASSES && NeedsPage(h, c) && FindsDesc(h, len) then Ready(h) else h
  }

  /** A free right after a served request undoes it: all nine chains, the spare
      list, every free list and count and the page map are as before, whether or
      not a page was opened. Only a descriptor page fetched on the way stays. */
  lemma FreeUndoesMalloc(h: Heap, len: int, size: int)
    requires Inv(h) && Busy(h) && !Refused(h, len)
    requires size <= Size(ClassFor(len, 0))
    ensures var (t, r) := Kmalloc(h, len); CanFree(t, r, size) && Kfree(t, r, size) == Prepared(h, len)
  {
    assert Holds(h, InChains);
    var c := ClassFor(len, 0);
    var (t, r) := Kmalloc(h, len);
    NeedsPageIff(h, c);
    if NeedsPage(h, c) {
      UndoNewPage(h, c, size);
    } else {
      var d := h.chains[c][FirstFree(h.info, h.chains[c])];
      UndoPop(h, d, size);
    }
  }

  lemma UndoNewPage(h: Heap, c: nat, size: int)
    requires Inv(h) && c < CLASSES && (h.spare != [] || HasPage(h.pages))
    requires HasPage(Ready(h).pages) && size <= Size(c)
    ensures var (t, r) := FromNewPage(h, c); CanFree(t, r, size) && Kfree(t, r, size) == Ready(h)
  {
    ReadyInv(h);
    UndoOpenPop(Ready(h), c, size);
  }

  lemma UndoOpenPop(h: Heap, c: nat, size: int)
    requires Inv(h) && c < CLASSES && h.spare != [] && HasPage(h.pages) && size <= Size(c)
    ensures
      var o := Open(h, c);
      && h.spare[0] in o.info && o.info[h.spare[0]].free != []
      && var t := Pop(o, h.spare[0]);
      && CanFree(t, PageAddr(Next(h.pages)), size)
      && Kfree(t, PageAddr(Next(h.pages)), size) == h
  {
    OpenInv(h, c);
    var o := Open(h, c);
    UndoPop(o, h.spare[0], size);
    OwnerOfFirst(o, c);
    CloseUndoesOpen(h, c);
  }

  lemma OwnerOfFirst(h: Heap, c: nat)
    requires Inv(h) && c < CLASSES && h.chains[c] != []
    ensures Owner(h.info, h.chains[c], h.info[h.chains[c][0]].page) == 0
  {
  }

  /** Freeing the object just popped restores the descriptor, or closes it if
      it held no other object. */
  lemma UndoPop(h: Heap, d: int, size: int)
    requires Inv(h) && d in h.info && h.info[d].free != [] && size <= Size(h.info[d].cls)
    ensures
      var t := Pop(h, d);
      var r := h.info[d].free[0];
      var c := h.info[d].cls;
      var k := Owner(h.info, h.chains[c], h.info[d].page);
      && CanFree(t, r, size)
      && k < |h.chains[c]| && h.chains[c][k] == d
      && Kfree(t, r, size) == if h.info[d].refcnt == 0 then Close(h, c, k) else h
  {
    assert Holds(h, InBuckets);
    var t := Pop(h, d);
    var b := h.info[d];
    PopInv(h, d);
    PopBlock(b);
    FreeFindsOwnerIff(t, d, b.free[0], size);
    LivePage(t, d, b.free[0]);
    PopKeepsOwner(h, d);
    PushUndoesPop(h, d);
  }

  lemma PopKeepsOwner(h: Heap, d: int)
    requires Inv(h) && d in h.info && h.info[d].free != []
    ensures
      var c, page := h.info[d].cls, h.info[d].page;
      var k := Owner(h.info, h.chains[c], page);
      && k < |h.chains[c]| && h.chains[c][k] == d
      && Owner(Pop(h, d).info, h.chains[c], page) == k
  {
    var b := h.info[d];
    assert Holds(h, InBuckets) && Holds(h, InChains);
    OwnerInChain(h, d, h.chains[b.cls]);
    SameOwner(h.info, Pop(h, d).info, h.chains[b.cls], b.page);
  }

  /** The search of kfree_s looks at the pages of the descriptors alone. */
  lemma {:induction false} SameOwner(info: map<int, Bucket>, other: map<int, Bucket>, s: seq<int>, page: int)
    requires AllIn(info, s) && AllIn(other, s)
    requires forall d :: d in s ==> other[d].page == info[d].page
    ensures Owner(other, s, page) == Owner(info, s, page)
  {
    if s != [] {
      var d := s[0];
      assert d in s;
      assert other[d].page == info[d].page;
      SameOwner(info, other, s[1..], page);
    }
  }

  lemma PushUndoesPop(h: Heap, d: int)
    requires d in h.info && h.info[d].free != []
    ensures
      var t := Pop(h, d);
      var r := h.info[d].free[0];
      && t.info[d := Push(t.info[d], r)] == h.info
      && t.info - {d} == h.info - {d}
  {
    var b, t := h.info[d], Pop(h, d);
    assert [b.free[0]] + b.free[1..] == b.free;
    assert Push(t.info[d], b.free[0]) == b;
  }

  lemma CloseUndoesOpen(h: Heap, c: nat)
    requires Inv(h) && h.spare != [] && HasPage(h.pages) && c < CLASSES
    ensures Linked(Open(h, c)) && Close(Open(h, c), c, 0) == h
  {
    assert Holds(h, InDescs) && Holds(h, InPages);
    OpenInv(h, c);
    TakeKeepsInv(h.pages);
    PageAddrFacts(Next(h.pages));
    var t := Open(h, c);
    var u := Close(t, c, 0);
    var d := h.spare[0];
    assert d in h.spare && d !in h.info;
    assert RemoveAt(t.chains[c], 0) == h.chains[c];
    assert u.chains == h.chains;
    assert u.info == h.info;
    assert u.spare == h.spare;
    assert u.pages.taken == h.pages.taken;
  }
}
