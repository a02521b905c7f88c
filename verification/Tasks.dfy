/** The task table and the scheduler at work: tasks live in pages of the
    allocator, and their fields are words of the same memory. */
module Tasks {
  import opened Machine
  import opened BucketSpec
  import opened BucketInvariant
  import opened BucketTheorems
  import opened BucketMemory
  import opened BucketRuns
  import opened TaskSpec
  import opened Malloc

  // task_t: byte offsets of its fields, after the 108 bytes of its tss_t.
  const TSS_ESP0 := 4
  const TSS_CR3 := 28
  const TSS_EIP := 32
  const PID := 108
  const PPID := 112
  const NAME := 116
  const STATE := 148
  const EXIT_CODE := 152
  const SCHEDULING_TIMES := 164
  const ESP0 := 168
  const EBP0 := 172
  const SIZEOF_TASK := 188

  /** What create_task leaves at offset `off` of a new task's page. */
  function Image(p: int, pid: int, ppid: int, name: seq<word>, fun: int, off: int): int {
    if off == TSS_ESP0 || off == ESP0 || off == EBP0 then p + PAGE_SIZE
    else if off == TSS_CR3 then p + SIZEOF_TASK
    else if off == TSS_EIP then fun
    else if off == PID then pid
    else if off == PPID then ppid
    else if off == STATE then READY
    else if NAME <= off < NAME + 4 * |name| && off % 4 == 0 then name[(off - NAME) / 4]
    else 0
  }

  /** The words of a new task's page. */
  ghost predicate Built(m: seq<word>, p: int, pid: int, ppid: int, name: seq<word>, fun: int) {
    && 0 <= p && p + PAGE_SIZE <= |m|
    && forall a :: p <= a < p + PAGE_SIZE && (a - p) % 4 == 0 ==> m[a] == Image(p, pid, ppid, name, fun, a - p)
  }

  /** The part of it that says who the task is. */
  function Identity(pid: int, ppid: int, name: seq<word>, off: int): int {
    if off == PID then pid
    else if off == PPID then ppid
    else if NAME <= off < NAME + 4 * |name| && off % 4 == 0 then name[(off - NAME) / 4]
    else 0
  }

  /** The words of a task that the table relies on. */
  ghost predicate TaskAt(m: seq<word>, p: int, pid: int, state: int) {
    0 <= p && p + PAGE_SIZE <= |m| && m[p + PID] == pid && m[p + STATE] == state
  }

  ghost predicate TasksAt(m: seq<word>, t: Table)
    requires |t.slots| == |t.states| == |t.pids| == NR_TASKS
  {
    forall i {:trigger t.slots[i]} ::
      0 <= i < NR_TASKS && t.slots[i] != 0 ==> TaskAt(m, t.slots[i], t.pids[i], t.states[i])
  }

  /** The pid a new task gets as its parent's: that of the current task. */
  function ParentPid(t: Table): int
    requires |t.slots| == |t.pids| == NR_TASKS && (t.current != 0 ==> t.current in t.slots)
  {
    if t.current == 0 then 0 else t.pids[SlotOf(t.slots, t.current, 0)]
  }

  /** The pid of a task for which slot `i` was found: in a full table, -1. */
  function SlotPid(i: nat): int {
    if i < NR_TASKS then i else 0xFFFF_FFFF
  }

  lemma PidWord(pid: int, i: nat)
    requires pid == if i < NR_TASKS then i else -1
    ensures pid % 0x1_0000_0000 == SlotPid(i)
  {
  }

  /** The word at address 4. */
  ghost predicate LowAt(m: seq<word>, low: int) {
    |m| > NEXT && m[NEXT] == low
  }

  lemma CurrentSlot(m: seq<word>, t: Table)
    requires Sound(t) && TasksAt(m, t) && t.current != 0
    ensures 0 <= t.current && t.current + PAGE_SIZE <= |m| && m[t.current + PID] == ParentPid(t)
  {
    var k :| 0 <= k < NR_TASKS && t.slots[k] == t.current;
    var i := SlotOf(t.slots, t.current, 0);
    assert TaskAt(m, t.slots[i], t.pids[i], t.states[i]);
  }

  /** Where the words of a task's page are. */
  lemma TaskBounds(h: Heap, p: int)
    requires Inv(h) && (p, PAGE_SIZE) in Blocks(h.info)
    ensures BASE <= p && p + PAGE_SIZE <= BASE + h.pages.total * PAGE_SIZE
  {
    var d := WholePage(h, p);
    assert Holds(h, InPages);
    TakenPage(h.pages, p);
  }

  /** A task whose block is kept keeps its words. */
  lemma KeptTask(m: seq<word>, n: seq<word>, bs: set<(int, int)>, p: int, pid: int, state: int)
    requires BlocksKept(m, n, bs) && (p, PAGE_SIZE) in bs && TaskAt(m, p, pid, state)
    ensures TaskAt(n, p, pid, state)
  {
    InTaskBlock(bs, p, PID);
    InTaskBlock(bs, p, STATE);
  }

  lemma InTaskBlock(bs: set<(int, int)>, p: int, k: int)
    requires (p, PAGE_SIZE) in bs && 0 <= k < PAGE_SIZE
    ensures InBlock(bs, p + k)
  {
    var x := (p, PAGE_SIZE);
    assert x in bs && x.0 <= p + k < x.0 + x.1;
  }

  /** When the blocks `bs` are kept, the tasks of a table `u` are in memory if the
      one in slot `e` is, and the others are those of `t` in blocks of `bs`. */
  lemma TasksKept(m: seq<word>, n: seq<word>, t: Table, u: Table, bs: set<(int, int)>, e: int)
    requires |t.slots| == |t.states| == |t.pids| == NR_TASKS && |u.slots| == |u.states| == |u.pids| == NR_TASKS
    requires TasksAt(m, t) && BlocksKept(m, n, bs)
    requires forall i :: 0 <= i < NR_TASKS && i != e && u.slots[i] != 0 ==>
               && u.slots[i] == t.slots[i] && u.pids[i] == t.pids[i] && u.states[i] == t.states[i]
               && (t.slots[i], PAGE_SIZE) in bs
    requires 0 <= e < NR_TASKS && u.slots[e] != 0 ==> TaskAt(n, u.slots[e], u.pids[e], u.states[e])
    ensures TasksAt(n, u)
  {
    forall i | 0 <= i < NR_TASKS && u.slots[i] != 0
      ensures TaskAt(n, u.slots[i], u.pids[i], u.states[i])
    {
      if i != e {
        assert TaskAt(m, t.slots[i], t.pids[i], t.states[i]);
        KeptTask(m, n, bs, t.slots[i], t.pids[i], t.states[i]);
      }
    }
  }

  /** Rewriting one page-sized block, or the page at the null pointer, keeps all
      blocks but that one. */
  lemma PageKept(m: seq<word>, n: seq<word>, h: Heap, p: int, bs: set<(int, int)>)
    requires Inv(h) && bs <= Blocks(h.info) && SameExcept(m, n, p, p + PAGE_SIZE)
    requires p == 0 || ((p, PAGE_SIZE) in Blocks(h.info) && (p, PAGE_SIZE) !in bs)
    ensures BlocksKept(m, n, bs)
  {
    if p == 0 {
      NullPageKeepsBlocks(m, n, h);
      KeptLess(m, n, Blocks(h.info), bs);
    } else {
      OutsideKept(m, n, h, p, bs);
    }
  }

  lemma OutsideKept(m: seq<word>, n: seq<word>, h: Heap, p: int, bs: set<(int, int)>)
    requires Inv(h) && (p, PAGE_SIZE) in Blocks(h.info) && bs <= Blocks(h.info) && (p, PAGE_SIZE) !in bs
    requires SameExcept(m, n, p, p + PAGE_SIZE)
    ensures BlocksKept(m, n, bs)
  {
    forall a | 0 <= a < |m| && InBlock(bs, a)
      ensures n[a] == m[a]
    {
      var x :| x in bs && x.0 <= a < x.0 + x.1;
      BlocksDisjoint(h, x, (p, PAGE_SIZE));
    }
  }

  /** Where a new task goes. */
  lemma NewTaskBounds(t: Table)
    requires Sound(t)
    ensures
      var (h, p) := Kmalloc(t.heap, PAGE_SIZE);
      && Inv(h) && 0 <= p && p + PAGE_SIZE <= BASE + t.heap.pages.total * PAGE_SIZE
      && (p == 0 || ((p, PAGE_SIZE) in Blocks(h.info) && (p, PAGE_SIZE) !in Blocks(t.heap.info)))
      && Blocks(t.heap.info) <= Blocks(h.info)
  {
    KmallocInv(t.heap, PAGE_SIZE);
    NewTaskPage(t);
    KmallocAddsBlock(t.heap, PAGE_SIZE);
    KmallocPages(t.heap, PAGE_SIZE);
    var (h, p) := Kmalloc(t.heap, PAGE_SIZE);
    if p != 0 {
      TaskBounds(h, p);
    }
  }

  lemma BuiltTask(m: seq<word>, p: int, pid: int, ppid: int, name: seq<word>, fun: int)
    requires Built(m, p, pid, ppid, name, fun) && |name| <= 8
    ensures TaskAt(m, p, pid, READY) && m[p + TSS_ESP0] == p + PAGE_SIZE
  {
    assert (p + PID - p) % 4 == 0 && (p + STATE - p) % 4 == 0 && (p + TSS_ESP0 - p) % 4 == 0;
  }

  /** A new task's page, word by word: the stack's top in tss.esp0, esp0 and ebp0, the
      page behind the task in tss.cr3, the entry point in tss.eip, pid, ppid, name
      and state, and zero elsewhere. */
  ghost predicate NewTaskWords(m: seq<word>, p: int, pid: int, ppid: int, name: seq<word>, fun: int) {
    && 0 <= p && p + 4096 <= |m| && |name| <= 8
    && m[p + 4] == m[p + 168] == m[p + 172] == p + 4096
    && m[p + 28] == p + 188 && m[p + 32] == fun
    && m[p + 108] == pid && m[p + 112] == ppid && m[p + 148] == 2
    && (forall j :: 0 <= j < |name| ==> m[p + 116 + 4 * j] == name[j])
    && (forall q :: 0 <= q < 1024 && q !in {1, 7, 8, 27, 28, 37, 42, 43} && !(29 <= q < 29 + |name|) ==>
          m[p + 4 * q] == 0)
  }

  lemma NewTaskWord(m: seq<word>, p: int, pid: int, ppid: int, name: seq<word>, fun: int, q: int)
    requires Built(m, p, pid, ppid, name, fun) && 0 <= q < 1024
    ensures m[p + 4 * q] == Image(p, pid, ppid, name, fun, 4 * q)
  {
    Times4(q);
  }

  lemma NewTaskIs(m: seq<word>, p: int, pid: int, ppid: int, name: seq<word>, fun: int)
    requires Built(m, p, pid, ppid, name, fun) && |name| <= 8
    ensures NewTaskWords(m, p, pid, ppid, name, fun)
  {
    forall q | 0 <= q < 1024
      ensures m[p + 4 * q] == Image(p, pid, ppid, name, fun, 4 * q)
    {
      NewTaskWord(m, p, pid, ppid, name, fun, q);
    }
    assert m[p + 4 * 1] == m[p + 4 * 42] == m[p + 4 * 43] == p + 4096;
    assert m[p + 4 * 7] == p + 188 && m[p + 4 * 8] == fun;
    assert m[p + 4 * 27] == pid && m[p + 4 * 28] == ppid && m[p + 4 * 37] == 2;
    forall j | 0 <= j < |name|
      ensures m[p + 116 + 4 * j] == name[j]
    {
      assert m[p + 4 * (29 + j)] == Image(p, pid, ppid, name, fun, 4 * (29 + j));
      Times4(29 + j);
    }
  }

  /** A new task in its block, or at the null pointer, where it sets the word at
      address 4. */
  lemma CreatedTasks(m0: seq<word>, m1: seq<word>, m2: seq<word>, t: Table, ppid: int, name: seq<word>, fun: int)
    requires Sound(t) && TasksAt(m0, t)
    requires BlocksKept(m0, m1, Blocks(t.heap.info)) && LowAt(m1, t.low)
    requires
      var p := Kmalloc(t.heap, PAGE_SIZE).1;
      && SameExcept(m1, m2, p, p + PAGE_SIZE) && |name| <= 8
      && Built(m2, p, SlotPid(FirstEmpty(t.slots, 0)), ppid, name, fun)
    ensures Sound(CreateTask(t)) && TasksAt(m2, CreateTask(t)) && LowAt(m2, CreateTask(t).low)
    ensures BlocksKept(m0, m2, Blocks(t.heap.info))
  {
    var bs := Blocks(t.heap.info);
    var (h, p) := Kmalloc(t.heap, PAGE_SIZE);
    CreateSound(t);
    NewTaskBounds(t);
    NewTaskPage(t);
    BuiltTask(m2, p, SlotPid(FirstEmpty(t.slots, 0)), ppid, name, fun);
    PageKept(m1, m2, h, p, bs);
    KeptThrough(m0, m1, m2, bs, bs);
    OtherSlots(t);
    TasksKept(m0, m2, t, CreateTask(t), bs, if 0 in t.slots then FirstEmpty(t.slots, 0) else -1);
  }

  /** All slots but the first free one are as before a creation. */
  lemma OtherSlots(t: Table)
    requires Sound(t)
    ensures
      var u, e := CreateTask(t), FirstEmpty(t.slots, 0);
      && |u.slots| == |u.states| == |u.pids| == NR_TASKS && (0 in t.slots <==> e < NR_TASKS)
      && forall i :: 0 <= i < NR_TASKS && i != e && u.slots[i] != 0 ==>
           && u.slots[i] == t.slots[i] && u.pids[i] == t.pids[i] && u.states[i] == t.states[i]
           && (t.slots[i], PAGE_SIZE) in Blocks(t.heap.info)
  {
  }

  /** The words of a dispatch: only the state of a task made current changes. */
  ghost predicate Switched(t: Table, current: int, m: seq<word>, n: seq<word>)
    requires |t.slots| == |t.states| == NR_TASKS
  {
    && |n| == |m|
    && (Pick(t) != 0 ==> 0 <= current + STATE < |n| && n[current + STATE] == RUNNING)
    && forall a :: 0 <= a < |n| ==> n[a] == m[a] || (a == current + STATE && Pick(t) != 0)
  }

  lemma DispatchedTasks(m: seq<word>, t: Table)
    requires Sound(t) && TasksAt(m, t) && Pick(t) != 0
    requires |m| == BASE + t.heap.pages.total * PAGE_SIZE
    ensures
      var p := t.slots[Pick(t)];
      && 0 <= p && p + PAGE_SIZE <= |m|
      && (p, PAGE_SIZE) in Blocks(t.heap.info)
      && TasksAt(m[p + STATE := RUNNING], DispatchTask(t))
      && p >= BASE
  {
    var e := Pick(t);
    var p := t.slots[e];
    var n := m[p + STATE := RUNNING];
    var bs := Blocks(t.heap.info) - {(p, PAGE_SIZE)};
    TaskBounds(t.heap, p);
    assert TaskAt(m, p, t.pids[e], t.states[e]);
    PageKept(m, n, t.heap, p, bs);
    TasksKept(m, n, t, DispatchTask(t), bs, e);
  }

  lemma ExitedTasks(m0: seq<word>, m1: seq<word>, m2: seq<word>, t: Table, task: int)
    requires Sound(t) && SlotOf(t.slots, task, 1) < NR_TASKS && TasksAt(m0, t)
    requires SameExcept(m0, m1, task + EXIT_CODE, task + EXIT_CODE + 1)
    requires BlocksKept(m1, m2, Blocks(ExitTask(t, task).heap.info))
    ensures Sound(ExitTask(t, task)) && TasksAt(m2, ExitTask(t, task))
    ensures BlocksKept(m0, m2, Blocks(ExitTask(t, task).heap.info))
  {
    var u := ExitTask(t, task);
    var bs := Blocks(u.heap.info);
    ExitSound(t, task);
    ExitBlocks(t, task);
    PageKept(m0, m1, t.heap, task, bs);
    KeptThrough(m0, m1, m2, bs, bs);
    TasksKept(m0, m2, t, u, bs, -1);
  }

  /** The blocks left by an exit, of a task or of the null pointer. */
  lemma ExitBlocks(t: Table, task: int)
    requires Sound(t) && SlotOf(t.slots, task, 1) < NR_TASKS
    ensures CanFree(t.heap, task, PAGE_SIZE)
    ensures
      var bs := Blocks(ExitTask(t, task).heap.info);
      && bs <= Blocks(t.heap.info)
      && (task != 0 ==> (task, PAGE_SIZE) in Blocks(t.heap.info) && (task, PAGE_SIZE) !in bs)
  {
    if task == 0 {
      FreeNull(t.heap, PAGE_SIZE);
    } else {
      var e := SlotOf(t.slots, task, 1);
      assert t.slots[1..][e - 1] == task;
      ExitFreesItsPage(t, task);
    }
  }

  /** The exit code is in no descriptor page, and not the word that links a free
      object. */
  lemma ExitWordKept(t: Table, task: int)
    requires Sound(t) && (task == 0 || (task, PAGE_SIZE) in Blocks(t.heap.info))
    ensures PageOf(task + EXIT_CODE) !in t.heap.meta && Kfree(t.heap, task, PAGE_SIZE).meta == t.heap.meta
  {
    if task == 0 {
      assert Holds(t.heap, InPages);
      InPage(0, EXIT_CODE);
    } else {
      InTaskBlock(Blocks(t.heap.info), task, EXIT_CODE);
      BlockWord(t.heap, task + EXIT_CODE);
    }
  }

  /** A call of another client leaves all tasks. */
  lemma OtherTasks(m: seq<word>, n: seq<word>, t: Table, op: Op)
    requires Sound(t) && TaskOpOk(t, Other(op)) && TasksAt(m, t)
    requires
      var bs := if op.Malloc? then Blocks(t.heap.info) else Blocks(Step(t.heap, op).info);
      BlocksKept(m, n, bs)
    ensures Sound(t.(heap := Step(t.heap, op))) && TasksAt(n, t.(heap := Step(t.heap, op)))
  {
    var u := t.(heap := Step(t.heap, op));
    OtherSound(t, op);
    TasksKept(m, n, t, u, if op.Malloc? then Blocks(t.heap.info) else Blocks(u.heap.info), -1);
  }

  /** A client's store in its own object leaves all tasks. */
  lemma StoreKeepsTasks(m: seq<word>, t: Table, a: int, v: word, x: (int, int))
    requires Sound(t) && TasksAt(m, t) && x in Blocks(t.heap.info) && x.0 !in t.slots
    requires 0 <= a < |m| && x.0 <= a < x.0 + x.1
    ensures TasksAt(m[a := v], t) && a >= BASE
  {
    var d, j := BlockOwner(t.heap, x);
    LivePage(t.heap, d, x.0);
    var bs := Blocks(t.heap.info) - {x};
    var n := m[a := v];
    forall b | 0 <= b < |m| && InBlock(bs, b)
      ensures n[b] == m[b]
    {
      var y :| y in bs && y.0 <= b < y.0 + y.1;
      BlocksDisjoint(t.heap, x, y);
    }
    TasksKept(m, n, t, t, bs, -1);
  }

  /** Rewriting a page-sized block, or the page at the null pointer, changes
      nothing that the allocator's words mean. */
  lemma PageWriteRep(m: seq<word>, n: seq<word>, heads: seq<word>, spareHead: int, h: Heap, p: int)
    requires Inv(h) && Rep(m, heads, spareHead, h) && SameExcept(m, n, p, p + PAGE_SIZE)
    requires p == 0 || (p, PAGE_SIZE) in Blocks(h.info)
    ensures Rep(n, heads, spareHead, h)
  {
    if p == 0 {
      NullPageRep(m, n, heads, spareHead, h);
    } else {
      ClientWriteRep(m, n, heads, spareHead, h, (p, PAGE_SIZE));
    }
  }

  class Kernel {
    const alloc: Allocator
    const tasks: array<word>
    var current: word
    // The word in front of the table.
    var front: word

    /** What the table, the tasks' words and the allocator stand for. */
    ghost var table: Table

    ghost predicate Valid()
      reads this, tasks, alloc, alloc.mem, alloc.chain, alloc.pages, alloc.pages.pageMap
    {
      Represents(table)
    }

    ghost predicate Represents(t: Table)
      reads this, tasks, alloc, alloc.mem, alloc.chain, alloc.pages, alloc.pages.pageMap
    {
      Apart() && Holds(t)
    }

    /** The table is no part of the allocator. */
    ghost predicate Apart()
      reads alloc
    {
      tasks != alloc.mem && tasks != alloc.chain && tasks as object != alloc.pages.pageMap
    }

    ghost predicate Holds(t: Table)
      reads this, tasks, alloc, alloc.mem, alloc.chain, alloc.pages, alloc.pages.pageMap
    {
      && alloc.Consistent() && Sound(t) && alloc.heap == t.heap
      && tasks[..] == t.slots && current == t.current && front == t.front
      && TasksAt(alloc.mem[..], t) && LowAt(alloc.mem[..], t.low)
    }

    /** Takes `t` as what the kernel's state stands for. */
    ghost method Record(t: Table)
      requires Apart()
      requires alloc.Consistent() && Sound(t) && alloc.heap == t.heap
      requires tasks[..] == t.slots && current == t.current && front == t.front
      requires TasksAt(alloc.mem[..], t) && LowAt(alloc.mem[..], t.low)
      modifies this`table
      ensures Valid() && table == t
    {
      table := t;
    }

    constructor (alloc: Allocator, front: word)
      requires alloc.Valid() && alloc.heap == Empty(alloc.pages.pagesTotal)
      ensures this.alloc == alloc
      ensures Valid() && table == Boot(alloc.pages.pagesTotal, front, alloc.mem[NEXT])
    {
      this.alloc := alloc;
      tasks := new word[NR_TASKS](_ => 0);
      current := 0;
      this.front := front;
      table := Boot(alloc.pages.pagesTotal, front, alloc.mem[NEXT]);
      new;
      BootSound(alloc.pages.pagesTotal, front, alloc.mem[NEXT]);
    }

    /** The first free slot, or -1. */
    method FindEmptyProcess() returns (ret: int)
      ensures ret == (var r := FirstEmpty(tasks[..], 0); if r < tasks.Length then r else -1)
    {
      var i := 0;
      while i < tasks.Length
        invariant 0 <= i <= tasks.Length && FirstEmpty(tasks[..], i) == FirstEmpty(tasks[..], 0)
      {
        if tasks[i] == 0 {
          return i;
        }
        i := i + 1;
      }
      return -1;
    }

    /** memset of a whole page to zero. */
    method ClearPage(p: int)
      requires 0 <= p && p + PAGE_SIZE <= alloc.mem.Length
      modifies alloc.mem
      ensures SameExcept(old(alloc.mem[..]), alloc.mem[..], p, p + PAGE_SIZE)
      ensures forall a :: p <= a < p + PAGE_SIZE && (a - p) % 4 == 0 ==> alloc.mem[a] == 0
    {
      var k := 0;
      while k < PAGE_SIZE
        invariant 0 <= k <= PAGE_SIZE && k % 4 == 0
        invariant SameExcept(old(alloc.mem[..]), alloc.mem[..], p, p + PAGE_SIZE)
        invariant forall a :: p <= a < p + k && (a - p) % 4 == 0 ==> alloc.mem[a] == 0
      {
        alloc.Store(p + k, 0);
        k := k + 4;
      }
    }

    /** strcpy of the name, four characters to a word. */
    method CopyName(p: int, name: seq<word>)
      requires 0 <= p && p + PAGE_SIZE <= alloc.mem.Length && |name| <= 8
      modifies alloc.mem
      ensures SameExcept(old(alloc.mem[..]), alloc.mem[..], p + NAME, p + NAME + 4 * |name|)
      ensures forall a :: p + NAME <= a < p + NAME + 4 * |name| && (a - p) % 4 == 0 ==>
                alloc.mem[a] == name[(a - p - NAME) / 4]
    {
      var k := 0;
      while k < |name|
        invariant 0 <= k <= |name|
        invariant SameExcept(old(alloc.mem[..]), alloc.mem[..], p + NAME, p + NAME + 4 * |name|)
        invariant forall a :: p + NAME <= a < p + NAME + 4 * k && (a - p) % 4 == 0 ==>
                    alloc.mem[a] == name[(a - p - NAME) / 4]
      {
        alloc.Store(p + NAME + 4 * k, name[k]);
        k := k + 1;
      }
    }

    /** Who the task is, in a cleared page. */
    method FillIdentity(p: int, pid: word, ppid: word, name: seq<word>)
      requires 0 <= p && p + PAGE_SIZE <= alloc.mem.Length && |name| <= 8
      modifies alloc.mem
      ensures SameExcept(old(alloc.mem[..]), alloc.mem[..], p, p + PAGE_SIZE)
      ensures forall a :: p <= a < p + PAGE_SIZE && (a - p) % 4 == 0 ==>
                alloc.mem[a] == Identity(pid, ppid, name, a - p)
    {
      ClearPage(p);
      alloc.Store(p + PID, pid);
      alloc.Store(p + PPID, ppid);
      alloc.Store(p + SCHEDULING_TIMES, 0);
      CopyName(p, name);
    }

    /** The fields of a new task in a cleared page. */
    method FillTask(p: int, pid: word, ppid: word, name: seq<word>, fun: word)
      requires 0 <= p && p + PAGE_SIZE <= alloc.mem.Length && p + PAGE_SIZE < 0x1_0000_0000
      requires |name| <= 8
      modifies alloc.mem
      ensures SameExcept(old(alloc.mem[..]), alloc.mem[..], p, p + PAGE_SIZE)
      ensures Built(alloc.mem[..], p, pid, ppid, name, fun)
    {
      FillIdentity(p, pid, ppid, name);
      alloc.Store(p + TSS_CR3, p + SIZEOF_TASK);
      alloc.Store(p + TSS_EIP, fun);
      alloc.Store(p + ESP0, p + PAGE_SIZE);
      alloc.Store(p + EBP0, alloc.mem[p + ESP0]);
      alloc.Store(p + TSS_ESP0, alloc.mem[p + ESP0]);
      alloc.Store(p + STATE, READY);
    }

    /** Writes a task into its block or, if there is none, to the null pointer. */
    method PlaceTask(p: word, pid: word, ppid: word, name: seq<word>, fun: word)
      requires alloc.Consistent() && (p == 0 || (p as int, PAGE_SIZE) in Blocks(alloc.heap.info))
      requires p + PAGE_SIZE <= alloc.mem.Length && p + PAGE_SIZE < 0x1_0000_0000 && |name| <= 8
      modifies alloc.mem
      ensures alloc.Consistent()
      ensures SameExcept(old(alloc.mem[..]), alloc.mem[..], p, p + PAGE_SIZE)
      ensures Built(alloc.mem[..], p, pid, ppid, name, fun)
    {
      FillTask(p, pid, ppid, name, fun);
      PageWriteRep(old(alloc.mem[..]), alloc.mem[..], alloc.chain[..], alloc.freeBucketDesc, alloc.heap, p);
    }

    /** `task` is what kmalloc(4096) answered in state `t`, when memory was `m0`. */
    ghost predicate Granted(t: Table, task: int, m0: seq<word>)
      reads this, tasks, alloc, alloc.mem, alloc.chain, alloc.pages, alloc.pages.pageMap
    {
      && Apart() && alloc.Consistent() && Sound(t)
      && (alloc.heap, task) == Kmalloc(t.heap, PAGE_SIZE)
      && tasks[..] == t.slots && current == t.current && front == t.front
      && TasksAt(m0, t) && BlocksKept(m0, alloc.mem[..], Blocks(t.heap.info)) && LowAt(alloc.mem[..], t.low)
      && (task == 0 || (task, PAGE_SIZE) in Blocks(alloc.heap.info))
      && 0 <= task && task + PAGE_SIZE <= alloc.mem.Length && task + PAGE_SIZE < 0x1_0000_0000
    }

    /** Fills the new page and enters it into the first free slot. */
    method Install(task: word, ppid: word, name: seq<word>, fun: word, ghost t: Table, ghost m0: seq<word>)
      requires Granted(t, task, m0) && |name| <= 8
      modifies this`table, this`front, tasks, alloc.mem
      ensures Valid() && table == TaskSpec.CreateTask(t) && task + PAGE_SIZE <= alloc.mem.Length
      ensures Built(alloc.mem[..], task, SlotPid(FirstEmpty(t.slots, 0)), ppid, name, fun)
      ensures BlocksKept(m0, alloc.mem[..], Blocks(t.heap.info))
    {
      var pid := FindEmptyProcess();
      Enter(task, pid, ppid, name, fun, t, m0);
    }

    /** Sets a slot or, for -1, the word in front of the table, which leads to the
        table `u`. */
    method Occupy(pid: int, task: word, ghost u: Table)
      requires Apart() && alloc.Consistent() && Sound(u)
      requires TasksAt(alloc.mem[..], u) && LowAt(alloc.mem[..], u.low)
      requires alloc.heap == u.heap && current == u.current && -1 <= pid < tasks.Length
      requires pid == -1 ==> tasks[..] == u.slots && task == u.front
      requires pid >= 0 ==> tasks[..][pid := task] == u.slots && front == u.front
      modifies this`table, this`front, tasks
      ensures Valid() && table == u
    {
      ghost var m := alloc.mem[..];
      if pid >= 0 {
        tasks[pid] := task;
      } else {
        front := task;
      }
      assert alloc.mem[..] == m;
      Record(u);
    }

    /** Fills the new page and enters it into slot `pid`. */
    method Enter(task: word, pid: int, ppid: word, name: seq<word>, fun: word, ghost t: Table, ghost m0: seq<word>)
      requires Granted(t, task, m0) && |name| <= 8
      requires var e := FirstEmpty(t.slots, 0); pid == if e < NR_TASKS then e else -1
      modifies this`table, this`front, tasks, alloc.mem
      ensures Valid() && table == TaskSpec.CreateTask(t) && task + PAGE_SIZE <= alloc.mem.Length
      ensures Built(alloc.mem[..], task, SlotPid(FirstEmpty(t.slots, 0)), ppid, name, fun)
      ensures BlocksKept(m0, alloc.mem[..], Blocks(t.heap.info))
    {
      ghost var m1 := alloc.mem[..];
      PidWord(pid, FirstEmpty(t.slots, 0));
      PlaceTask(task, pid % 0x1_0000_0000, ppid, name, fun);
      CreatedTasks(m0, m1, alloc.mem[..], t, ppid, name, fun);
      Occupy(pid, task, TaskSpec.CreateTask(t));
    }

    /** The pid of the current task, or 0. */
    method CurrentPid() returns (ppid: word)
      requires Valid()
      ensures ppid == ParentPid(table) && (current == 0 ==> ppid == 0)
      ensures current != 0 ==> current + PID < alloc.mem.Length && ppid == alloc.mem[current + PID]
    {
      ppid := 0;
      if current != 0 {
        CurrentSlot(alloc.mem[..], table);
        ppid := alloc.mem[current + PID];
      }
    }

    /** kmalloc(4096). */
    method NewPage() returns (task: word)
      requires Valid() && TaskOpOk(table, Create)
      modifies alloc`freeBucketDesc, alloc`heap, alloc.mem, alloc.chain, alloc.pages`used, alloc.pages.pageMap
      ensures Granted(table, task, old(alloc.mem[..]))
    {
      ghost var slots := tasks[..];
      NewTaskBounds(table);
      task := alloc.Kmalloc(PAGE_SIZE);
      assert tasks[..] == slots;
    }

    method CreateTask(name: seq<word>, fun: word) returns (task: word)
      requires Valid() && TaskOpOk(table, Create) && |name| <= 8
      modifies this`table, this`front, tasks
      modifies alloc`freeBucketDesc, alloc`heap, alloc.mem, alloc.chain, alloc.pages`used, alloc.pages.pageMap
      ensures Valid() && table == TaskSpec.CreateTask(old(table))
      ensures task == Kmalloc(old(table).heap, PAGE_SIZE).1 && task + PAGE_SIZE <= alloc.mem.Length
      ensures
        var ppid := if old(current) == 0 then 0 else ParentPid(old(table));
        && (old(current) != 0 ==> old(current + 108 < alloc.mem.Length) && ppid == old(alloc.mem[current + 108]))
        && NewTaskWords(alloc.mem[..], task, SlotPid(FirstEmpty(old(table).slots, 0)), ppid, name, fun)
      ensures BlocksKept(old(alloc.mem[..]), alloc.mem[..], Blocks(old(table).heap.info))
    {
      ghost var t, m0 := table, alloc.mem[..];
      var ppid := CurrentPid();
      assert current != 0 ==> ppid == m0[current + 108];
      task := NewPage();
      Install(task, ppid, name, fun, t, m0);
      NewTaskIs(alloc.mem[..], task, SlotPid(FirstEmpty(t.slots, 0)), ppid, name, fun);
    }

    /** The task in slot `i`, if it is ready. */
    method ReadyIn(i: nat) returns (next: word)
      requires Valid() && i < NR_TASKS
      ensures next == if IsReady(table, i) then table.slots[i] else 0
    {
      next := tasks[i];
      if next != 0 {
        assert TaskAt(alloc.mem[..], table.slots[i], table.pids[i], table.states[i]);
        if alloc.mem[next + STATE] != READY {
          next := 0;
        }
      }
    }

    /** The first ready task in slots 1 to 63, or null. */
    method FindReadyTask() returns (next: word)
      requires Valid()
      ensures next == if Pick(table) == 0 then 0 else table.slots[Pick(table)]
      ensures next == 0 <==> Pick(table) == 0
    {
      next := 0;
      var i := 1;
      while i < NR_TASKS
        invariant 1 <= i <= NR_TASKS && FirstReady(table, i) == FirstReady(table, 1)
      {
        var task := ReadyIn(i);
        if task != 0 {
          return task;
        }
        i := i + 1;
      }
    }

    /** Marks the task picked for dispatch as running. */
    method Activate(next: word)
      requires Valid() && Pick(table) != 0 && next == table.slots[Pick(table)]
      modifies alloc.mem
      ensures alloc.Consistent() && TasksAt(alloc.mem[..], DispatchTask(table)) && LowAt(alloc.mem[..], table.low)
      ensures next + STATE < alloc.mem.Length && alloc.mem[..] == old(alloc.mem[..])[next + STATE := RUNNING]
    {
      DispatchedTasks(alloc.mem[..], table);
      ghost var x: (int, int) := (next, PAGE_SIZE);
      alloc.StoreInBlock(next + STATE, RUNNING, x);
    }

    method SwitchIdle()
      requires Valid() && Pick(table) == 0
      modifies this`table, this`current
      ensures Valid() && table == DispatchTask(old(table))
      ensures Switched(old(table), current, old(alloc.mem[..]), alloc.mem[..])
    {
      StepSound(table, Dispatch);
      current := tasks[0];
      table := DispatchTask(table);
    }

    method SwitchTask(next: word)
      requires Valid() && Pick(table) != 0 && next == table.slots[Pick(table)]
      modifies this`table, this`current, alloc.mem
      ensures Valid() && table == DispatchTask(old(table))
      ensures Switched(old(table), current, old(alloc.mem[..]), alloc.mem[..])
    {
      StepSound(table, Dispatch);
      Activate(next);
      current := next;
      table := DispatchTask(table);
    }

    /** sched. The task of the lowest ready slot becomes current and running, in its
        own words as well; without a ready task, that of slot 0 becomes current. */
    method Sched()
      requires Valid()
      modifies this`table, this`current, alloc.mem
      ensures Valid() && table == DispatchTask(old(table)) && tasks[..] == old(tasks[..])
      ensures forall k :: 1 <= k < 64 && LowestReady(old(table).slots, old(table).states, k) ==>
                && current == tasks[k] && table.states == old(table).states[k := 1]
                && current + 148 < alloc.mem.Length && alloc.mem[current + 148] == 1
      ensures NoneReady(old(table).slots, old(table).states) ==>
                current == tasks[0] && table.states == old(table).states
      ensures
        var ready := !NoneReady(old(table).slots, old(table).states);
        forall a :: 0 <= a < alloc.mem.Length ==> alloc.mem[a] == old(alloc.mem[a]) || (ready && a == current + 148)
    {
      Dispatched(table);
      PickNone(table);
      Switch();
    }

    /** The two branches of sched. */
    method Switch()
      requires Valid()
      modifies this`table, this`current, alloc.mem
      ensures Valid() && table == DispatchTask(old(table)) && tasks[..] == old(tasks[..])
      ensures Switched(old(table), current, old(alloc.mem[..]), alloc.mem[..])
    {
      var next := FindReadyTask();
      if next == 0 {
        SwitchIdle();
      } else {
        SwitchTask(next);
      }
    }

    /** task_exit. The null pointer is found in the first free slot from 1 on: the
        exit code goes to its page, and there is no current task any more. */
    method TaskExit(code: word, task: word)
      requires Valid()
      modifies this`table, this`current, tasks
      modifies alloc`freeBucketDesc, alloc`heap, alloc.mem, alloc.chain, alloc.pages`used, alloc.pages.pageMap
      ensures Valid() && table == ExitTask(old(table), task)
      ensures ClientsKept(old(alloc.mem[..]), alloc.mem[..], Blocks(table.heap.info))
      ensures (exists i :: 1 <= i < 64 && old(tasks[..])[i] == task) ==>
                task + 152 < alloc.mem.Length && alloc.mem[task + 152] == code
    {
      var i := 1;
      while i < NR_TASKS && tasks[i] != task
        invariant 1 <= i <= NR_TASKS && SlotOf(table.slots, task, i) == SlotOf(table.slots, task, 1)
      {
        i := i + 1;
      }
      if i < NR_TASKS {
        Remove(i, code, task);
      }
    }

    /** Clears slot `i` and gives the task's page back. */
    method Remove(i: int, code: word, task: word)
      requires Valid() && i == SlotOf(table.slots, task, 1) < NR_TASKS
      modifies this`table, this`current, tasks
      modifies alloc`freeBucketDesc, alloc`heap, alloc.mem, alloc.chain, alloc.pages`used, alloc.pages.pageMap
      ensures Valid() && table == ExitTask(old(table), task)
      ensures ClientsKept(old(alloc.mem[..]), alloc.mem[..], Blocks(table.heap.info))
      ensures task + PAGE_SIZE <= alloc.mem.Length && alloc.mem[task + EXIT_CODE] == code
    {
      ghost var t, m0 := table, alloc.mem[..];
      ClearSlot(i, code, task);
      FreeTask(task, t, m0);
    }

    /** The stores of an exit before the page goes. */
    method ClearSlot(i: int, code: word, task: word)
      requires Valid() && i == SlotOf(table.slots, task, 1) < NR_TASKS
      modifies this`current, tasks, alloc.mem
      ensures Leaving(table, task, old(alloc.mem[..])) && alloc.mem[task + EXIT_CODE] == code
    {
      ExitBlocks(table, task);
      StoreExitCode(task, code);
      ClearTable(i);
    }

    /** No slot `i` and no current task any more. */
    method ClearTable(i: int)
      requires Apart() && alloc.Consistent() && 0 <= i < tasks.Length
      modifies this`current, tasks
      ensures Apart() && alloc.Consistent() && alloc.mem[..] == old(alloc.mem[..])
      ensures tasks[..] == old(tasks[..])[i := 0] && current == 0
    {
      ghost var m := alloc.mem[..];
      tasks[i] := 0;
      current := 0;
      assert alloc.mem[..] == m;
    }

    /** The table is cleared of `task`, which was in state `t`, when memory was
        `m0`, and its exit code is stored. */
    ghost predicate Leaving(t: Table, task: int, m0: seq<word>)
      reads this, tasks, alloc, alloc.mem, alloc.chain, alloc.pages, alloc.pages.pageMap
    {
      Apart() && Left(t, task, m0)
    }

    ghost predicate Left(t: Table, task: int, m0: seq<word>)
      reads this, tasks, alloc, alloc.mem, alloc.chain, alloc.pages, alloc.pages.pageMap
    {
      && alloc.Consistent() && alloc.heap == t.heap && Sound(t) && TasksAt(m0, t)
      && SlotOf(t.slots, task, 1) < NR_TASKS && CanFree(t.heap, task, PAGE_SIZE)
      && SameExcept(m0, alloc.mem[..], task + EXIT_CODE, task + EXIT_CODE + 1)
      && (task == 0 || (task, PAGE_SIZE) in Blocks(t.heap.info))
      && 0 <= task && task + PAGE_SIZE <= alloc.mem.Length
      && tasks[..] == t.slots[SlotOf(t.slots, task, 1) := 0] && current == 0 && front == t.front
      && LowAt(alloc.mem[..], t.low)
    }

    /** The last step of an exit: the page goes. */
    method FreeTask(task: word, ghost t: Table, ghost m0: seq<word>)
      requires Leaving(t, task, m0)
      modifies this`table
      modifies alloc`freeBucketDesc, alloc`heap, alloc.mem, alloc.chain, alloc.pages`used, alloc.pages.pageMap
      ensures Valid() && table == ExitTask(t, task)
      ensures ClientsKept(m0, alloc.mem[..], Blocks(table.heap.info))
      ensures task + PAGE_SIZE <= alloc.mem.Length
      ensures alloc.mem[task + EXIT_CODE] == old(alloc.mem[..])[task + EXIT_CODE]
    {
      ExitWordKept(t, task);
      ghost var m1, slots := alloc.mem[..], tasks[..];
      alloc.KfreeS(task, PAGE_SIZE);
      assert tasks[..] == slots;
      ExitedTasks(m0, m1, alloc.mem[..], t, task);
      Record(ExitTask(t, task));
    }

    method StoreExitCode(task: word, code: word)
      requires alloc.Consistent() && (task == 0 || (task as int, PAGE_SIZE) in Blocks(alloc.heap.info))
      modifies alloc.mem
      ensures alloc.Consistent()
      ensures task + PAGE_SIZE <= alloc.mem.Length && alloc.mem[task + EXIT_CODE] == code
      ensures SameExcept(old(alloc.mem[..]), alloc.mem[..], task + EXIT_CODE, task + EXIT_CODE + 1)
    {
      if task != 0 {
        TaskBounds(alloc.heap, task);
      }
      alloc.Store(task + EXIT_CODE, code);
      PageWriteRep(old(alloc.mem[..]), alloc.mem[..], alloc.chain[..], alloc.freeBucketDesc, alloc.heap, task);
    }

    /** kmalloc called by another client. */
    method OtherMalloc(len: word) returns (retval: word)
      requires Valid() && TaskOpOk(table, Other(Op.Malloc(len)))
      modifies this`table
      modifies alloc`freeBucketDesc, alloc`heap, alloc.mem, alloc.chain, alloc.pages`used, alloc.pages.pageMap
      ensures Valid() && table == old(table).(heap := Kmalloc(old(table).heap, len).0)
      ensures retval == Kmalloc(old(table).heap, len).1
      ensures ClientsKept(old(alloc.mem[..]), alloc.mem[..], Blocks(old(table).heap.info))
    {
      ghost var t, m0, slots := table, alloc.mem[..], tasks[..];
      retval := alloc.Kmalloc(len);
      assert tasks[..] == slots;
      OtherTasks(m0, alloc.mem[..], t, Op.Malloc(len));
      Record(t.(heap := Kmalloc(t.heap, len).0));
    }

    /** kfree_s called by another client, of an object that is no task. */
    method OtherFree(obj: word, size: int)
      requires Valid() && CanFree(table.heap, obj, size) && obj !in table.slots
      modifies this`table
      modifies alloc`freeBucketDesc, alloc`heap, alloc.mem, alloc.chain, alloc.pages`used, alloc.pages.pageMap
      ensures Valid() && table == old(table).(heap := Kfree(old(table).heap, obj, size))
      ensures ClientsKept(old(alloc.mem[..]), alloc.mem[..], Blocks(table.heap.info))
    {
      ghost var t, m0, slots := table, alloc.mem[..], tasks[..];
      alloc.KfreeS(obj, size);
      assert tasks[..] == slots;
      OtherTasks(m0, alloc.mem[..], t, Op.Free(obj, size));
      Record(t.(heap := Kfree(t.heap, obj, size)));
    }

    /** A store of another client into an object of its own, which is no task. */
    method OtherStore(a: int, v: word, ghost x: (int, int))
      requires Valid() && x in Blocks(table.heap.info) && x.0 !in table.slots
      requires x.0 <= a < x.0 + x.1 && 0 <= a < alloc.mem.Length
      modifies alloc.mem
      ensures Valid() && alloc.mem[..] == old(alloc.mem[..])[a := v]
    {
      ghost var m0, slots := alloc.mem[..], tasks[..];
      StoreKeepsTasks(m0, table, a, v, x);
      alloc.StoreInBlock(a, v, x);
      assert tasks[..] == slots;
    }
  }
}
