/** The allocator itself: kmalloc and kfree_s working on memory words, on the
    heads of the nine bucket chains and on the page layer. */
module Malloc {
  import opened Machine
  import opened PageSpec
  import opened PageLayer
  import opened BucketSpec
  import opened BucketInvariant
  import opened BucketTheorems
  import opened BucketMemory

  class Allocator {
    // Physical memory; cell `a` is the 32-bit word at byte address `a`.
    const mem: array<word>
    // bucket_dir[c].chain; the sizes are Size(c), and entry 9 ends the list.
    const chain: array<word>
    // free_bucket_desc
    var freeBucketDesc: word
    const pages: PhysicalMemory

    /** What the words in memory mean. */
    ghost var heap: Heap

    /** The words represent `h`, which satisfies the two-layer invariant. */
    ghost predicate Represents(h: Heap)
      reads this, mem, chain, pages, pages.pageMap
    {
      && mem != chain && mem as object != pages.pageMap && chain as object != pages.pageMap
      && pages.Valid() && pages.State() == h.pages && mem.Length == BASE + h.pages.total * PAGE_SIZE
      && Inv(h)
      && Rep(mem[..], chain[..], freeBucketDesc, h)
    }

    ghost predicate Consistent()
      reads this, mem, chain, pages, pages.pageMap
    {
      Represents(heap)
    }

    ghost predicate Valid()
      reads this, mem, chain, pages, pages.pageMap
    {
      Consistent() && Busy(heap)
    }

    constructor (mem: array<word>, pages: PhysicalMemory)
      requires pages.Valid() && pages.State() == Fresh(pages.pagesTotal)
      requires mem.Length == BASE + pages.pagesTotal * PAGE_SIZE
      requires mem as object != pages.pageMap
      ensures Valid() && heap == Empty(pages.pagesTotal) && fresh(chain)
      ensures this.mem == mem && this.pages == pages
    {
      this.mem := mem;
      this.pages := pages;
      chain := new word[CLASSES](_ => 0);
      freeBucketDesc := 0;
      heap := Empty(pages.pagesTotal);
    }

    method Store(a: int, v: word)
      requires 0 <= a < mem.Length
      modifies mem
      ensures mem[..] == old(mem[..])[a := v]
    {
      mem[a] := v;
    }

    /** Cuts a page into descriptors, each linked to the next, the last one to
        `tail`. */
    method CarvePage(first: int, tail: word)
      requires first % PAGE_SIZE == 0 && 0 <= first && first + PAGE_SIZE <= mem.Length <= 0x1_0000_0000
      modifies mem
      ensures SameExcept(old(mem[..]), mem[..], first, first + PAGE_SIZE)
      ensures Threaded(mem[..], NEXT, first, 0, 255)
      ensures LinkOf(mem[..], NEXT, Carve(first), 255) == tail
    {
      var bdesc := first;
      ThreadStart(mem[..], NEXT, first, 0);
      var i := PAGE_SIZE / 16;
      while i > 1
        invariant 1 <= i <= 256
        invariant bdesc == Slot(first, 0, 256 - i)
        invariant SameExcept(old(mem[..]), mem[..], first, first + PAGE_SIZE)
        invariant Threaded(mem[..], NEXT, first, 0, 256 - i)
      {
        SlotFacts(first, 0, 257 - i);
        ThreadStore(old(mem[..]), mem[..], NEXT, first, 0, 256 - i, bdesc + 16);
        Store(bdesc + NEXT, bdesc + 16);
        bdesc := bdesc + 16;
        i := i - 1;
      }
      ThreadStore(old(mem[..]), mem[..], NEXT, first, 0, 255, tail);
      Store(bdesc + NEXT, tail);
    }

    /** The loop that links all objects of a page but the last one, at which it
        ends. */
    method ThreadSlots(page: int, c: nat) returns (cp: int)
      requires c < CLASSES
      requires page % PAGE_SIZE == 0 && 0 <= page && page + PAGE_SIZE <= mem.Length <= 0x1_0000_0000
      modifies mem
      ensures SameExcept(old(mem[..]), mem[..], page, page + PAGE_SIZE)
      ensures Count(c) > 0 && cp == Slot(page, c, Count(c) - 1)
      ensures Threaded(mem[..], 0, page, c, Count(c) - 1)
    {
      cp := page;
      SlotsDistinct(page, c);
      ThreadStart(mem[..], 0, page, c);
      var i := PAGE_SIZE / Size(c);
      ghost var k := 0;
      while i > 1
        invariant 1 <= i && 0 <= k && i + k == Count(c)
        invariant cp == Slot(page, c, k)
        invariant SameExcept(old(mem[..]), mem[..], page, page + PAGE_SIZE)
        invariant Threaded(mem[..], 0, page, c, k)
        decreases i
      {
        SlotFacts(page, c, k + 1);
        ThreadStore(old(mem[..]), mem[..], 0, page, c, k, cp + Size(c));
        Store(cp, cp + Size(c));
        cp := cp + Size(c);
        i := i - 1;
        k := k + 1;
      }
    }

    /** Links all objects of a page of class `c` into a free list. */
    method ThreadPage(page: int, c: nat)
      requires c < CLASSES
      requires page % PAGE_SIZE == 0 && 0 <= page && page + PAGE_SIZE <= mem.Length <= 0x1_0000_0000
      modifies mem
      ensures SameExcept(old(mem[..]), mem[..], page, page + PAGE_SIZE)
      ensures Links(mem[..], 0, page, Slots(page, c))
    {
      var cp := ThreadSlots(page, c);
      ThreadStore(old(mem[..]), mem[..], 0, page, c, Count(c) - 1, 0);
      Store(cp, 0);
      ThreadedLinks(mem[..], page, c);
    }

    method InitBucketDesc()
      requires Valid()
      modifies this`freeBucketDesc, this`heap, mem, pages`used, pages.pageMap
      ensures Valid()
      ensures heap == if HasPage(old(heap.pages)) then Refill(old(heap)) else old(heap)
      ensures !HasPage(old(heap.pages)) ==> mem[..] == old(mem[..])
      ensures ClientsKept(old(mem[..]), mem[..], Blocks(old(heap).info))
    {
      ghost var h := heap;
      ghost var m0 := mem[..];
      var first := pages.GetFreePage();
      if first == 0 {
        return;
      }
      FreshPageBounds(h);
      CarvePage(first, freeBucketDesc);
      freeBucketDesc := first;
      heap := Refill(h);
      RefillRep(m0, mem[..], chain[..], old(freeBucketDesc), h);
      RefillInv(h);
      FreshPageKeepsClients(m0, mem[..], h);
    }

    /** Fills in a descriptor: refcnt 0, the size, and the page as both page and
        free list. */
    method FillDescriptor(d: int, c: nat, page: word)
      requires 0 <= d && d + 16 <= mem.Length && c < CLASSES
      modifies mem
      ensures SameExcept(old(mem[..]), mem[..], d, d + 16)
      ensures mem[d + PAGE] == mem[d + FREEPTR] == page && mem[d + COUNTS] == Pack(0, Size(c))
      ensures mem[d + NEXT] == old(mem[d + NEXT])
    {
      Store(d + COUNTS, Pack(0, Hi(mem[d + COUNTS])));
      PackFacts(0, Hi(mem[d + COUNTS]));
      SizeWord(c);
      Store(d + COUNTS, Pack(Lo(mem[d + COUNTS]), Size(c)));
      Store(d + FREEPTR, page);
      Store(d + PAGE, page);
    }

    /** Takes a spare descriptor and, if the page layer has one, a page for it;
        answers the linked descriptor, or null when there is no page. */
    method OpenPage(c: nat) returns (bdesc: word)
      requires Consistent() && c < CLASSES && (heap.spare != [] || !HasPage(heap.pages))
      modifies this`freeBucketDesc, this`heap, mem, chain, pages`used, pages.pageMap
      ensures HasPage(old(heap.pages)) ==> Consistent() && heap == Open(old(heap), c) && bdesc == old(heap).spare[0]
      ensures !HasPage(old(heap.pages)) ==> bdesc == 0 && Dropped(old(heap), old(mem[..]), c)
      ensures ClientsKept(old(mem[..]), mem[..], Blocks(old(heap).info))
    {
      bdesc := freeBucketDesc;
      var cp := pages.GetFreePage();
      if cp == 0 {
        DropDescriptor(bdesc, c);
        return 0;
      }
      LinkPage(bdesc, c, cp);
    }

    /** What is left when a descriptor was taken in state `h` and no page came for
        it: a spare descriptor is lost. Without a spare one, the null pointer was
        taken for a descriptor, and the word at address 4 is now the head of the
        spare list. */
    ghost predicate Dropped(h: Heap, m: seq<word>, c: nat)
      requires c < CLASSES
      reads this, mem, chain, pages, pages.pageMap
    {
      if h.spare != [] then Consistent() && heap == Drop(h)
      else
        && heap == h && NullFilled(m, mem[..], c) && freeBucketDesc == m[NEXT]
        && (Consistent() <==> m[NEXT] == 0)
    }

    /** The words written when the page did not come. */
    method DropDescriptor(bdesc: word, c: nat)
      requires Consistent() && bdesc == freeBucketDesc && c < CLASSES
      modifies mem, this`freeBucketDesc, this`heap
      ensures Dropped(old(heap), old(mem[..]), c)
      ensures ClientsKept(old(mem[..]), mem[..], Blocks(old(heap).info))
    {
      ghost var h, head := heap, freeBucketDesc;
      TakenFacts(mem[..], chain[..], head, h);
      freeBucketDesc := mem[bdesc + NEXT];
      FillDescriptor(bdesc, c, 0);
      if h.spare != [] {
        DropRep(old(mem[..]), mem[..], chain[..], head, h);
        DescWriteKeepsClients(old(mem[..]), mem[..], h, bdesc);
        DropInv(h);
        heap := Drop(h);
      } else {
        NullTaken(old(mem[..]), mem[..], chain[..], head, h, c);
      }
    }

    /** The words written when a fresh page is cut up and linked in. */
    method LinkPage(bdesc: word, c: nat, cp: word)
      requires Inv(heap) && Rep(mem[..], chain[..], freeBucketDesc, heap)
      requires heap.spare != [] && bdesc == freeBucketDesc && c < CLASSES
      requires HasPage(heap.pages) && cp == PageAddr(Next(heap.pages))
      requires pages.Valid() && pages.State() == Take(heap.pages)
      modifies mem, chain, this`freeBucketDesc, this`heap
      ensures Consistent()
      ensures heap == Open(old(heap), c) && bdesc == old(heap).spare[0]
      ensures ClientsKept(old(mem[..]), mem[..], Blocks(old(heap).info))
    {
      ghost var h, head := heap, freeBucketDesc;
      SpareFacts(mem[..], chain[..], head, h);
      freeBucketDesc := mem[bdesc + NEXT];
      FreshPageBounds(h);
      FillDescriptor(bdesc, c, cp);
      ghost var m1 := mem[..];
      ThreadPage(cp, c);
      OpenSteps(old(mem[..]), m1, mem[..], chain[..], head, h, c);
      Store(bdesc + NEXT, chain[c]);
      chain[c] := bdesc;
      OpenInv(h, c);
      heap := Open(h, c);
    }

    /** A page for class `c`, after a page of descriptors if none is spare. */
    method NewBucket(c: nat) returns (bdesc: word)
      requires Valid() && c < CLASSES
      modifies this`freeBucketDesc, this`heap, mem, chain, pages`used, pages.pageMap
      ensures
        (old(heap).spare != [] || HasPage(old(heap).pages)) && HasPage(Ready(old(heap)).pages) ==>
          && Consistent() && Ready(old(heap)).spare != []
          && heap == Open(Ready(old(heap)), c) && bdesc == Ready(old(heap)).spare[0] != 0
          && bdesc in heap.info && heap.info[bdesc].free != []
          && heap.info[bdesc].free[0] == PageAddr(Next(Ready(old(heap)).pages))
      ensures
        (old(heap).spare != [] || HasPage(old(heap).pages)) && !HasPage(Ready(old(heap)).pages) ==>
          Consistent() && Ready(old(heap)).spare != [] && heap == Drop(Ready(old(heap))) && bdesc == 0
      ensures
        old(heap).spare == [] && !HasPage(old(heap).pages) ==> bdesc == 0 && Dropped(old(heap), old(mem[..]), c)
      ensures Blocks(heap.info) == Blocks(old(heap).info)
      ensures ClientsKept(old(mem[..]), mem[..], Blocks(old(heap).info))
    {
      ghost var h := heap;
      SpareHead(h);
      SpareWord(mem[..], chain[..], freeBucketDesc, h);
      if freeBucketDesc == 0 {
        InitBucketDesc();
      }
      if h.spare != [] || HasPage(h.pages) {
        ReadyInv(h);
        SpareHead(Ready(h));
      }
      bdesc := OpenPage(c);
      if bdesc != 0 {
        OpenInv(Ready(h), c);
        OpenAddsNothing(Ready(h), c);
      }
    }

    /** Adds `delta` to the 16-bit refcnt of a descriptor. */
    method AddToRefcnt(d: int, delta: int, ghost refcnt: int, ghost size: int)
      requires 0 <= d && d + 16 <= mem.Length
      requires mem[d + COUNTS] == Pack(refcnt, size)
      requires 0 <= refcnt < 0x10000 && 0 <= refcnt + delta < 0x10000 && 0 <= size < 0x10000
      modifies mem
      ensures mem[..] == old(mem[..])[d + COUNTS := Pack(refcnt + delta, size)]
    {
      PackFacts(refcnt, size);
      Store(d + COUNTS, Pack((Lo(mem[d + COUNTS]) + delta) % 0x10000, Hi(mem[d + COUNTS])));
    }

    /** The words of a descriptor when its first free object is taken. */
    method AdvanceFree(d: int, ghost b: Bucket) returns (retval: word)
      requires 0 <= d && d + 16 <= mem.Length
      requires b.cls < CLASSES && 0 <= b.refcnt < 256
      requires mem[d + FREEPTR] < mem.Length && mem[d + COUNTS] == Pack(b.refcnt, Size(b.cls))
      modifies mem
      ensures retval == old(mem[d + FREEPTR])
      ensures SameExcept(old(mem[..]), mem[..], d, d + 16)
      ensures mem[d + PAGE] == old(mem[d + PAGE]) && mem[d + NEXT] == old(mem[d + NEXT])
      ensures mem[d + FREEPTR] == old(mem[mem[d + FREEPTR]])
      ensures mem[d + COUNTS] == Pack(b.refcnt + 1, Size(b.cls))
    {
      SizeWord(b.cls);
      retval := mem[d + FREEPTR];
      Store(d + FREEPTR, mem[retval]);
      AddToRefcnt(d, 1, b.refcnt, Size(b.cls));
    }

    /** Takes the first free object of a linked descriptor. */
    method PopObject(bdesc: word) returns (retval: word)
      requires Consistent() && bdesc in heap.info && heap.info[bdesc].free != []
      modifies this`heap, mem
      ensures Consistent()
      ensures heap == Pop(old(heap), bdesc) && retval == old(heap).info[bdesc].free[0]
      ensures ClientsKept(old(mem[..]), mem[..], Blocks(old(heap).info))
    {
      ghost var h := heap;
      ghost var m0 := mem[..];
      PopFacts(m0, chain[..], freeBucketDesc, h, bdesc);
      retval := AdvanceFree(bdesc, h.info[bdesc]);
      PopInv(h, bdesc);
      PopRep(m0, mem[..], chain[..], freeBucketDesc, h, bdesc);
      DescWriteKeepsClients(m0, mem[..], h, bdesc);
      heap := Pop(h, bdesc);
    }

    /** The first class that holds `len` bytes. */
    method FindClass(len: word) returns (c: nat)
      ensures c <= CLASSES && c == ClassFor(len, 0)
    {
      c := 0;
      while c < CLASSES && Size(c) < len
        invariant c <= CLASSES && ClassFor(len, c) == ClassFor(len, 0)
      {
        c := c + 1;
      }
    }

    /** The first descriptor of a chain that has a free object, or null. */
    method FindFree(c: nat, ghost info: map<int, Bucket>, ghost s: seq<int>) returns (bdesc: word)
      requires c < chain.Length && AllIn(info, s) && Walk(mem[..], info, chain[c], s)
      ensures bdesc == Nth(s, FirstFree(info, s))
      ensures bdesc == 0 <==> FirstFree(info, s) == |s|
    {
      bdesc := chain[c];
      ghost var k := 0;
      while bdesc != 0
        invariant 0 <= k <= |s| && bdesc == Nth(s, k)
        invariant forall j :: 0 <= j < k ==> info[s[j]].free == []
        invariant k < |s| ==> bdesc != 0
        decreases |s| - k
      {
        assert Readable(mem[..], info, s, k);
        if mem[bdesc + FREEPTR] != 0 {
          break;
        }
        bdesc := mem[bdesc + NEXT];
        k := k + 1;
      }
      assert FirstFree(info, s) == k;
    }

    /** A request. If it needs a page and there is neither a spare descriptor
        nor a page for descriptors, the null pointer is taken for a descriptor:
        the words still stand for the same heap afterwards exactly if the word at
        address 4 is zero. */
    method Kmalloc(len: word) returns (retval: word)
      requires Valid()
      modifies this`freeBucketDesc, this`heap, mem, chain, pages`used, pages.pageMap
      ensures (heap, retval as int) == BucketSpec.Kmalloc(old(heap), len)
      ensures Valid() <==> FindsDesc(old(heap), len) || old(mem[NEXT]) == 0
      ensures
        !FindsDesc(old(heap), len) ==>
          freeBucketDesc == old(mem[NEXT]) && NullFilled(old(mem[..]), mem[..], ClassFor(len, 0))
      ensures ClientsKept(old(mem[..]), mem[..], Blocks(old(heap).info))
    {
      var c := FindClass(len);
      if c == CLASSES {
        return 0;
      }
      KmallocInv(heap, len);
      CanWalk(mem[..], chain[..], freeBucketDesc, heap, c);
      var bdesc := FindFree(c, heap.info, heap.chains[c]);
      if bdesc == 0 {
        bdesc := NewBucket(c);
        if bdesc == 0 {
          return 0;
        }
      }
      retval := PopObject(bdesc);
    }

    /** The descriptor that owns `page` in a chain, and the one before it. */
    method FindOwner(c: nat, page: word, ghost info: map<int, Bucket>, ghost s: seq<int>)
      returns (bdesc: word, prev: word)
      requires c < chain.Length && AllIn(info, s) && Walk(mem[..], info, chain[c], s)
      ensures var k := Owner(info, s, page);
              bdesc == Nth(s, k) && prev == (if k == 0 then 0 else s[k - 1])
      ensures bdesc == 0 <==> Owner(info, s, page) == |s|
    {
      prev := 0;
      bdesc := chain[c];
      ghost var k := 0;
      while bdesc != 0
        invariant 0 <= k <= |s| && bdesc == Nth(s, k) && prev == (if k == 0 then 0 else s[k - 1])
        invariant forall j :: 0 <= j < k ==> info[s[j]].page != page
        invariant k < |s| ==> bdesc != 0
        decreases |s| - k
      {
        assert Readable(mem[..], info, s, k);
        if mem[bdesc + PAGE] == page {
          break;
        }
        prev := bdesc;
        bdesc := mem[bdesc + NEXT];
        k := k + 1;
      }
      assert Owner(info, s, page) == k;
    }

    /** The search of kfree_s through all classes of at least `size` bytes. */
    method Search(page: word, size: int) returns (c: nat, bdesc: word, prev: word)
      requires Consistent()
      ensures c == OwnerClass(heap, page, size, 0)
      ensures c < CLASSES ==>
                var s := heap.chains[c];
                var k := Owner(heap.info, s, page);
                bdesc == s[k] && prev == (if k == 0 then 0 else s[k - 1])
    {
      c, bdesc, prev := 0, 0, 0;
      while c < CLASSES
        invariant c <= CLASSES && OwnerClass(heap, page, size, c) == OwnerClass(heap, page, size, 0)
      {
        if Size(c) >= size {
          CanWalk(mem[..], chain[..], freeBucketDesc, heap, c);
          bdesc, prev := FindOwner(c, page, heap.info, heap.chains[c]);
          if bdesc != 0 {
            break;
          }
        }
        c := c + 1;
      }
    }

    /** Puts an object in front of its page's free list. */
    method PushObject(bdesc: word, obj: word)
      requires Consistent() && bdesc in heap.info && obj in Live(heap.info[bdesc])
      modifies this`heap, mem
      ensures Consistent()
      ensures heap == Pushed(old(heap), bdesc, obj)
      ensures 0 <= bdesc && bdesc + 16 <= mem.Length
      ensures mem[bdesc + COUNTS] == Pack(old(heap).info[bdesc].refcnt - 1, Size(old(heap).info[bdesc].cls))
      ensures ClientsKept(old(mem[..]), mem[..], Blocks(heap.info)) && DescsOnly(old(mem[..]), mem[..], heap.meta, obj)
    {
      ghost var h := heap;
      ghost var m0 := mem[..];
      PushFacts(m0, chain[..], freeBucketDesc, h, bdesc, obj);
      LinkObject(bdesc, obj, h.info[bdesc]);
      PushInv(h, bdesc, obj);
      PushRep(m0, mem[..], chain[..], freeBucketDesc, h, bdesc, obj);
      PushDescsOnly(m0, mem[..], h, bdesc, obj, m0[bdesc + FREEPTR]);
      PushKeepsClients(m0, mem[..], h, bdesc, obj, m0[bdesc + FREEPTR]);
      heap := Pushed(h, bdesc, obj);
    }

    /** The words written when an object is put back. */
    method LinkObject(d: int, obj: word, ghost b: Bucket)
      requires 0 <= d && d + 16 <= mem.Length
      requires 0 <= obj < mem.Length && !(d <= obj < d + 16)
      requires b.cls < CLASSES && 0 < b.refcnt <= 256
      requires mem[d + COUNTS] == Pack(b.refcnt, Size(b.cls))
      modifies mem
      ensures SameExcept(old(mem[..])[obj := old(mem[d + FREEPTR])], mem[..], d, d + 16)
      ensures mem[d + PAGE] == old(mem[d + PAGE]) && mem[d + NEXT] == old(mem[d + NEXT])
      ensures mem[d + FREEPTR] == obj
      ensures mem[d + COUNTS] == Pack(b.refcnt - 1, Size(b.cls))
    {
      SizeWord(b.cls);
      Store(obj, mem[d + FREEPTR]);
      Store(d + FREEPTR, obj);
      AddToRefcnt(d, -1, b.refcnt, Size(b.cls));
    }

    /** The words written when descriptor `k` of chain `c` is bypassed. */
    method Unlink(c: nat, bdesc: word, prev: word, ghost h: Heap, ghost k: nat)
      requires mem != chain && Inv(h) && Rep(mem[..], chain[..], freeBucketDesc, h)
      requires c < CLASSES && k < |h.chains[c]| && bdesc == h.chains[c][k]
      requires prev == (if k == 0 then 0 else h.chains[c][k - 1])
      modifies mem, chain
      ensures Bypassed(old(mem[..]), mem[..], old(chain[..]), chain[..], h, c, k)
    {
      CloseFacts(mem[..], chain[..], freeBucketDesc, h, c, k);
      // prev is still accurate: the scan for it in kfree_s never runs.
      if (prev != 0 && mem[prev + NEXT] != bdesc) || (prev == 0 && chain[c] != bdesc) {
        assert false;
      }
      if prev != 0 {
        Store(prev + NEXT, mem[bdesc + NEXT]);
      } else {
        if chain[c] != bdesc {
          assert false;
        }
        chain[c] := mem[bdesc + NEXT];
      }
    }

    /** Bypasses descriptor `k` of chain `c`. */
    method Bypass(c: nat, bdesc: word, prev: word, ghost h: Heap, ghost k: nat)
      requires mem != chain && Inv(h) && Rep(mem[..], chain[..], freeBucketDesc, h)
      requires c < CLASSES && k < |h.chains[c]| && bdesc == h.chains[c][k]
      requires prev == (if k == 0 then 0 else h.chains[c][k - 1])
      requires bdesc in h.info && Live(h.info[bdesc]) == {}
      modifies mem, chain
      ensures Linked(h) && Closing(old(mem[..]), mem[..], chain[..], freeBucketDesc, h, c, k)
    {
      ghost var m0, heads := mem[..], chain[..];
      Unlink(c, bdesc, prev, h, k);
      CloseStep(m0, mem[..], heads, chain[..], freeBucketDesc, h, c, k);
    }

    /** The words and the page map when a bypassed descriptor becomes spare. */
    method Recycle(c: nat, bdesc: word, ghost h: Heap, ghost k: nat, ghost m0: seq<word>)
      requires mem != chain && mem as object != pages.pageMap && chain as object != pages.pageMap
      requires pages.Valid() && pages.State() == h.pages
      requires Linked(h) && c < CLASSES && k < |h.chains[c]| && bdesc == h.chains[c][k]
      requires Closing(m0, mem[..], chain[..], freeBucketDesc, h, c, k)
      modifies this`freeBucketDesc, mem, pages`used, pages.pageMap
      ensures pages.Valid() && pages.State() == Close(h, c, k).pages
      ensures Rep(mem[..], chain[..], freeBucketDesc, Close(h, c, k))
      ensures ClientsKept(m0, mem[..], Blocks(Close(h, c, k).info)) && DescsOnly(m0, mem[..], h.meta, -1)
    {
      ghost var mid, newHeads, head := mem[..], chain[..], freeBucketDesc;
      GiveBack(bdesc, h.pages);
      assert mem[..] == mid[bdesc + NEXT := head] && chain[..] == newHeads;
    }

    /** Returns a bypassed descriptor's page, and makes the descriptor spare. */
    method GiveBack(bdesc: word, ghost s: PageState)
      requires bdesc + 16 <= mem.Length
      requires mem as object != pages.pageMap && pages.Valid() && pages.State() == s
      requires PageIndex(mem[bdesc + PAGE]) in s.taken
      requires BASE <= mem[bdesc + PAGE] < BASE + s.total * PAGE_SIZE
      modifies this`freeBucketDesc, mem, pages`used, pages.pageMap
      ensures pages.Valid()
      ensures pages.State() == Release(s, PageIndex(old(mem[bdesc + PAGE])))
      ensures mem[..] == old(mem[..])[bdesc + NEXT := old(freeBucketDesc)] && freeBucketDesc == bdesc
    {
      SignedIndexOfPage(mem[bdesc + PAGE], s.total);
      pages.FreePage(mem[bdesc + PAGE]);
      Store(bdesc + NEXT, freeBucketDesc);
      freeBucketDesc := bdesc;
    }

    /** Unlinks a descriptor without live objects and gives its page back. */
    method CloseBucket(c: nat, bdesc: word, prev: word, ghost k: nat)
      requires Consistent() && c < CLASSES && k < |heap.chains[c]| && bdesc == heap.chains[c][k]
      requires prev == (if k == 0 then 0 else heap.chains[c][k - 1])
      requires bdesc in heap.info && Live(heap.info[bdesc]) == {}
      modifies this`freeBucketDesc, this`heap, mem, chain, pages`used, pages.pageMap
      ensures Consistent()
      ensures Linked(old(heap)) && heap == Close(old(heap), c, k)
      ensures ClientsKept(old(mem[..]), mem[..], Blocks(heap.info)) && DescsOnly(old(mem[..]), mem[..], heap.meta, -1)
    {
      ghost var m0 := mem[..];
      CloseInv(heap, c, k);
      Bypass(c, bdesc, prev, heap, k);
      Recycle(c, bdesc, heap, k, m0);
      heap := Close(heap, c, k);
    }

    /** Puts a live object back; its page goes with the last one. */
    method FreeObject(c: nat, bdesc: word, prev: word, obj: word, ghost k: nat)
      requires Consistent() && Owns(heap, c, k, bdesc, obj)
      requires prev == (if k == 0 then 0 else heap.chains[c][k - 1])
      modifies this`freeBucketDesc, this`heap, mem, chain, pages`used, pages.pageMap
      ensures Consistent()
      ensures heap == FreeAt(old(heap), c, k, bdesc, obj)
      ensures ClientsKept(old(mem[..]), mem[..], Blocks(heap.info)) && DescsOnly(old(mem[..]), mem[..], heap.meta, obj)
    {
      ghost var b, m0 := heap.info[bdesc], mem[..];
      PushObject(bdesc, obj);
      PackFacts(b.refcnt - 1, Size(b.cls));
      if Lo(mem[bdesc + COUNTS]) == 0 {
        ghost var bs, m1 := Blocks(heap.info), mem[..];
        CloseMoreKept(heap, c, k);
        CloseBucket(c, bdesc, prev, k);
        KeptThrough(m0, m1, mem[..], bs, Blocks(heap.info));
        DescsOnlyThrough(m0, m1, mem[..], heap.meta, obj);
      }
    }

    /** The part of kfree_s after the search. */
    method Found(obj: word, size: int, c: nat, bdesc: word, prev: word)
      requires Valid() && CanFree(heap, obj, size)
      requires c == OwnerClass(heap, PageOf(obj), size, 0) < CLASSES
      requires
        var k := Owner(heap.info, heap.chains[c], PageOf(obj));
        bdesc == heap.chains[c][k] && prev == (if k == 0 then 0 else heap.chains[c][k - 1])
      modifies this`freeBucketDesc, this`heap, mem, chain, pages`used, pages.pageMap
      ensures Valid()
      ensures heap == Kfree(old(heap), obj, size)
      ensures ClientsKept(old(mem[..]), mem[..], Blocks(heap.info)) && DescsOnly(old(mem[..]), mem[..], heap.meta, obj)
    {
      ghost var k := Owner(heap.info, heap.chains[c], PageOf(obj));
      KfreeInSteps(heap, obj, size, c, k, bdesc);
      FreeObject(c, bdesc, prev, obj, k);
    }

    method KfreeS(obj: word, size: int)
      requires Valid() && CanFree(heap, obj, size)
      modifies this`freeBucketDesc, this`heap, mem, chain, pages`used, pages.pageMap
      ensures Valid()
      ensures heap == Kfree(old(heap), obj, size)
      ensures ClientsKept(old(mem[..]), mem[..], Blocks(heap.info)) && DescsOnly(old(mem[..]), mem[..], heap.meta, obj)
    {
      PageOfWord(obj);
      var c, bdesc, prev := Search(PageOf(obj), size);
      if c < CLASSES {
        Found(obj, size, c, bdesc, prev);
      }
    }

    /** A client's own write into a live block of its. */
    method StoreInBlock(a: int, v: word, ghost x: (int, int))
      requires Consistent() && x in Blocks(heap.info) && x.0 <= a < x.0 + x.1
      requires 0 <= a < mem.Length
      modifies mem
      ensures Consistent() && mem[..] == old(mem[..])[a := v]
    {
      Store(a, v);
      ClientWriteRep(old(mem[..]), mem[..], chain[..], freeBucketDesc, heap, x);
    }
  }
}
