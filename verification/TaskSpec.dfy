/** The task table on values: slots that own whole pages of the allocator, the
    state of each task, and the dispatch step of the scheduler. */
module TaskSpec {
  import opened Machine
  import opened PageSpec
  import opened BucketSpec
  import opened BucketInvariant
  import opened BucketTheorems
  import opened BucketRuns

  const NR_TASKS := 64
  const RUNNING := 1
  const READY := 2

  /** `slots[i]` is the address of the task in slot `i`, or null; `states[i]` and
      `pids[i]` are that task's state and pid. `front` is the word in front of the
      table, which the code takes for slot -1, and `low` the word at address 4. */
  datatype Table = Table(
    heap: Heap,
    slots: seq<int>,
    states: seq<int>,
    pids: seq<int>,
    current: int,
    front: int,
    low: int
  )

  function Boot(total: nat, front: int, low: int): Table {
    var zeros := seq(NR_TASKS, _ => 0);
    Table(Empty(total), zeros, zeros, zeros, 0, front, low)
  }

  /** Every task is a live block of a whole page and has its slot's number as
      pid, no two slots share a task, and `current` is a task of the table or
      null. */
  ghost predicate Sound(t: Table) {
    match t
    case Table(heap, slots, states, pids, current, _, _) =>
      && Inv(heap) && Busy(heap)
      && |slots| == |states| == |pids| == NR_TASKS
      && (forall i :: 0 <= i < NR_TASKS && slots[i] != 0 ==> pids[i] == i)
      && (forall i :: 0 <= i < NR_TASKS && slots[i] != 0 ==> (slots[i], PAGE_SIZE) in Blocks(heap.info))
      && (forall i, j :: 0 <= i < j < NR_TASKS && slots[i] != 0 ==> slots[i] != slots[j])
      && (current != 0 ==> current in slots)
  }

  // ----- find_empty_process and find_ready_task -----

  /** The first free slot from `i` on, or `NR_TASKS`. */
  function FirstEmpty(slots: seq<int>, i: nat): (r: nat)
    requires i <= |slots|
    ensures i <= r <= |slots|
    ensures r < |slots| ==> slots[r] == 0
    ensures forall j :: i <= j < r ==> slots[j] != 0
    decreases |slots| - i
  {
    if i == |slots| || slots[i] == 0 then i else FirstEmpty(slots, i + 1)
  }

  predicate IsReady(t: Table, i: int)
    requires |t.slots| == |t.states| == NR_TASKS && 0 <= i < NR_TASKS
  {
    t.slots[i] != 0 && t.states[i] == READY
  }

  /** The first ready task from slot `i` on, or `NR_TASKS`. */
  function FirstReady(t: Table, i: nat): (r: nat)
    requires |t.slots| == |t.states| == NR_TASKS && i <= NR_TASKS
    ensures i <= r <= NR_TASKS
    ensures r < NR_TASKS ==> IsReady(t, r)
    ensures forall j :: i <= j < r ==> !IsReady(t, j)
    decreases NR_TASKS - i
  {
    if i == NR_TASKS || IsReady(t, i) then i else FirstReady(t, i + 1)
  }

  /** The slot the next dispatch takes: the idle slot 0 if no other is ready. */
  function Pick(t: Table): nat
    requires |t.slots| == |t.states| == NR_TASKS
  {
    var r := FirstReady(t, 1);
    if r == NR_TASKS then 0 else r
  }

  // ----- Steps -----

  /** `Other` is a call of another client of the allocator. */
  datatype TaskOp = Create | Exit(task: int) | Dispatch | Other(op: Op)

  /** The slot in which `task_exit` finds a task, searching from `i` on. */
  function SlotOf(slots: seq<int>, task: int, i: nat): (r: nat)
    requires i <= |slots|
    ensures i <= r <= |slots|
    ensures r < |slots| ==> slots[r] == task
    ensures forall j :: i <= j < r ==> slots[j] != task
    decreases |slots| - i
  {
    if i == |slots| || slots[i] == task then i else SlotOf(slots, task, i + 1)
  }

  /** What the code asks of its callers: a request does not take the null pointer
      for a descriptor, or the word at address 4 is zero; and other clients free
      only their own blocks. */
  ghost predicate TaskOpOk(t: Table, op: TaskOp) {
    match op
    case Create => OpOk(t.low, t.heap, Malloc(PAGE_SIZE))
    case Exit(_) => true
    case Dispatch => true
    case Other(o) => OpOk(t.low, t.heap, o) && (o.Free? ==> o.obj !in t.slots)
  }

  /** What create_task leaves at address 4 when it builds a task at the null
      pointer: the end of that page, as the task's stack. */
  const NULL_STACK := PAGE_SIZE

  /** A refused request is not noticed: a task is built at the null pointer, and
      null is entered into the slot, which so stays free. Nor is a full table:
      the task is entered in front of it. */
  function CreateTask(t: Table): Table
    requires Linked(t.heap) && |t.slots| == |t.states| == |t.pids| == NR_TASKS
  {
    var (h, p) := Kmalloc(t.heap, PAGE_SIZE);
    var u := t.(heap := h, low := if p == 0 then NULL_STACK else t.low);
    var i := FirstEmpty(t.slots, 0);
    if i == NR_TASKS then u.(front := p)
    else u.(slots := t.slots[i := p], states := t.states[i := READY], pids := t.pids[i := i])
  }

  /** With the null pointer, the first free slot is found. */
  function ExitTask(t: Table, task: int): Table
    requires |t.slots| == NR_TASKS && Linked(t.heap)
  {
    var i := SlotOf(t.slots, task, 1);
    if i == NR_TASKS then t
    else t.(heap := Kfree(t.heap, task, PAGE_SIZE), slots := t.slots[i := 0], current := 0)
  }

  function DispatchTask(t: Table): Table
    requires |t.slots| == |t.states| == NR_TASKS
  {
    var i := Pick(t);
    if i == 0 then t.(current := t.slots[0])
    else t.(states := t.states[i := RUNNING], current := t.slots[i])
  }

  ghost function TaskStep(t: Table, op: TaskOp): Table
    requires Sound(t) && TaskOpOk(t, op)
  {
    match op
    case Create => CreateTask(t)
    case Exit(task) => ExitTask(t, task)
    case Dispatch => DispatchTask(t)
    case Other(o) => t.(heap := Step(t.heap, o))
  }

  // ----- One step keeps the table sound -----

  lemma FreeKeepsOthers(h: Heap, obj: int, size: int, x: (int, int))
    requires Inv(h) && CanFree(h, obj, size) && x in Blocks(h.info) && x.0 != obj
    ensures x in Blocks(Kfree(h, obj, size).info)
  {
    Clauses(h);
    var c := OwnerClass(h, PageOf(obj), size, 0);
    if c < CLASSES {
      var d := h.chains[c][Owner(h.info, h.chains[c], PageOf(obj))];
      KfreeRemovesBlock(h, d, obj, size);
    }
  }

  lemma MallocKeepsAll(h: Heap, len: int, x: (int, int))
    requires Inv(h) && x in Blocks(h.info)
    ensures x in Blocks(Kmalloc(h, len).0.info)
  {
    Clauses(h);
    KmallocAddsBlock(h, len);
  }

  /** A page-sized block is the only object of its page, and a page address. */
  lemma WholePage(h: Heap, p: int) returns (d: int)
    requires Inv(h) && (p, PAGE_SIZE) in Blocks(h.info)
    ensures d in h.info && h.info[d].cls == 8 && Live(h.info[d]) == {p} && h.info[d].page == p
    ensures p % PAGE_SIZE == 0 && PageOf(p) == p && BASE <= p
  {
    Clauses(h);
    var j;
    d, j := BlockOwner(h, (p, PAGE_SIZE));
    OnlyClass8(h.info[d].cls);
    forall a | a in Live(h.info[d])
      ensures a == p
    {
      var k := InSlots(h.info[d].page, 8, a);
    }
  }

  lemma OnlyClass8(c: nat)
    requires c < CLASSES && Size(c) == PAGE_SIZE
    ensures c == 8 && Count(8) == 1
  {
  }

  /** task_exit of a task in slots 1 to 63 gives back exactly the task's own
      page; the block is gone and every other block stays. */
  lemma ExitFreesItsPage(t: Table, task: int)
    requires Sound(t) && task != 0 && task in t.slots[1..]
    ensures
      var u := ExitTask(t, task);
      && u.heap.pages == Release(t.heap.pages, PageIndex(task))
      && Blocks(u.heap.info) == Blocks(t.heap.info) - {(task, PAGE_SIZE)}
      && CanFree(t.heap, task, PAGE_SIZE)
      && task !in u.slots
  {
    var k :| 0 <= k < |t.slots| - 1 && t.slots[1..][k] == task;
    var i := SlotOf(t.slots, task, 1);
    assert t.slots[k + 1] == task;
    var d := WholePage(t.heap, task);
    KfreeRemovesBlock(t.heap, d, task, PAGE_SIZE);
    FreeFindsOwnerIff(t.heap, d, task, PAGE_SIZE);
  }

  /** The page of a new task is in no slot yet; without a page nothing changes. */
  lemma NewTaskPage(t: Table)
    requires Sound(t)
    ensures
      var (h, p) := Kmalloc(t.heap, PAGE_SIZE);
      && (p == 0 <==> Refused(t.heap, PAGE_SIZE))
      && (p != 0 ==> p >= BASE && p !in t.slots && (p, PAGE_SIZE) in Blocks(h.info))
      && forall x :: x in Blocks(t.heap.info) ==> x in Blocks(h.info)
  {
    KmallocAddsBlock(t.heap, PAGE_SIZE);
    SizesFit(PAGE_SIZE);
    assert Size(ClassFor(PAGE_SIZE, 0)) >= PAGE_SIZE;
    var p := Kmalloc(t.heap, PAGE_SIZE).1;
    forall k | 0 <= k < NR_TASKS && t.slots[k] != 0
      ensures t.slots[k] != p
    {
      assert (t.slots[k], PAGE_SIZE) in Blocks(t.heap.info);
    }
  }

  lemma HeapSet(t: Table, u: Table)
    requires Sound(t) && Inv(u.heap) && Busy(u.heap)
    requires u.slots == t.slots && u.pids == t.pids && |u.states| == NR_TASKS && u.current == t.current
    requires forall i :: 0 <= i < NR_TASKS && t.slots[i] != 0 ==> (t.slots[i], PAGE_SIZE) in Blocks(u.heap.info)
    ensures Sound(u)
  {
  }

  /** A table stays sound when one slot is set and the other tasks' blocks are
      still there. */
  lemma SlotSet(t: Table, u: Table, e: int, p: int)
    requires Sound(t) && 0 <= e < NR_TASKS && Inv(u.heap) && Busy(u.heap)
    requires u.slots == t.slots[e := p] && u.pids == t.pids[e := e] && |u.states| == NR_TASKS
    requires p != 0 ==> (p, PAGE_SIZE) in Blocks(u.heap.info) && p !in t.slots
    requires forall i :: 0 <= i < NR_TASKS && i != e && t.slots[i] != 0 ==>
               (t.slots[i], PAGE_SIZE) in Blocks(u.heap.info)
    requires u.current != 0 ==> u.current in u.slots
    ensures Sound(u)
  {
    assert forall i :: 0 <= i < NR_TASKS && i != e ==> u.slots[i] == t.slots[i] && u.pids[i] == t.pids[i];
    assert forall i :: 0 <= i < NR_TASKS && i != e && p != 0 ==> t.slots[i] != p;
  }

  lemma CreateSound(t: Table)
    requires Sound(t)
    ensures Sound(CreateTask(t))
  {
    var e, u := FirstEmpty(t.slots, 0), CreateTask(t);
    KmallocInv(t.heap, PAGE_SIZE);
    NewTaskPage(t);
    if e == NR_TASKS {
      HeapSet(t, u);
    } else {
      if t.current != 0 {
        var k :| 0 <= k < NR_TASKS && t.slots[k] == t.current;
        assert u.slots[k] == t.current;
      }
      SlotSet(t, u, e, u.slots[e]);
    }
  }

  /** kfree_s of the null pointer finds no descriptor. */
  lemma FreeNull(h: Heap, size: int)
    requires Inv(h)
    ensures CanFree(h, 0, size) && Kfree(h, 0, size) == h
  {
    assert Holds(h, InPages);
  }

  /** task_exit of the null pointer clears a free slot and the current task. */
  lemma ExitNull(t: Table)
    requires Sound(t)
    ensures ExitTask(t, 0) == if SlotOf(t.slots, 0, 1) < NR_TASKS then t.(current := 0) else t
  {
    FreeNull(t.heap, PAGE_SIZE);
    var i := SlotOf(t.slots, 0, 1);
    assert i < NR_TASKS ==> t.slots[i := 0] == t.slots;
  }

  lemma ExitSound(t: Table, task: int)
    requires Sound(t)
    ensures Sound(ExitTask(t, task))
  {
    var i := SlotOf(t.slots, task, 1);
    if task == 0 {
      ExitNull(t);
    } else if i < NR_TASKS {
      ExitTaskSound(t, task, i);
    }
  }

  lemma ExitTaskSound(t: Table, task: int, i: int)
    requires Sound(t) && task != 0 && i == SlotOf(t.slots, task, 1) < NR_TASKS
    ensures Sound(ExitTask(t, task))
  {
    var u := ExitTask(t, task);
    assert t.slots[1..][i - 1] == task;
    ExitFreesItsPage(t, task);
    KfreeInv(t.heap, task, PAGE_SIZE);
    assert u.pids == t.pids[i := i];
    SlotSet(t, u, i, 0);
  }

  /** create_task makes a task exactly if there is a free slot and the request for
      its page is served. */
  lemma CreatedIff(t: Table)
    requires Sound(t)
    ensures CreateTask(t).slots != t.slots <==> 0 in t.slots && !Refused(t.heap, PAGE_SIZE)
  {
    NewTaskPage(t);
    var e, u := FirstEmpty(t.slots, 0), CreateTask(t);
    if e < NR_TASKS {
      assert u.slots[e] == Kmalloc(t.heap, PAGE_SIZE).1 && t.slots[e] == 0;
      assert u.slots[e] == 0 ==> u.slots == t.slots;
    }
  }

  /** With a full table the page of the new task is in no slot. */
  lemma FullTableLeaks(t: Table)
    requires Sound(t) && 0 !in t.slots && !Refused(t.heap, PAGE_SIZE)
    ensures
      var u := CreateTask(t);
      && u.slots == t.slots && u.front == Kmalloc(t.heap, PAGE_SIZE).1
      && (u.front, PAGE_SIZE) in Blocks(u.heap.info) && u.front !in u.slots
  {
    NewTaskPage(t);
  }

  /** A refused creation makes the next request without a descriptor one that is
      not allowed, whatever was at address 4 before. */
  lemma RefusedCreateArms(t: Table, len: nat)
    requires Sound(t) && Refused(t.heap, PAGE_SIZE)
    ensures
      var u := CreateTask(t);
      && u.low == NULL_STACK && Linked(u.heap)
      && (TaskOpOk(u, Other(Malloc(len))) <==> FindsDesc(u.heap, len))
  {
    NewTaskPage(t);
    CreateSound(t);
  }

  /** The first creation on a single page is refused. */
  lemma RefusedOnOnePage(front: int, low: int)
    ensures
      var t := Boot(1, front, low);
      && Sound(t) && TaskOpOk(t, Create)
      && CreateTask(t).slots == t.slots && CreateTask(t).low == NULL_STACK
  {
    var t := Boot(1, front, low);
    BootSound(1, front, low);
    var r := Refill(t.heap).pages;
    assert Next(t.heap.pages) == 0;
    assert r.taken == {0} && r.used == 1;
    assert !HasPage(r);
    CreatedIff(t);
    NewTaskPage(t);
  }

  lemma OtherSound(t: Table, op: Op)
    requires Sound(t) && TaskOpOk(t, Other(op))
    ensures Sound(t.(heap := Step(t.heap, op)))
  {
    StepInv(t.low, t.heap, op);
    forall i | 0 <= i < NR_TASKS && t.slots[i] != 0
      ensures (t.slots[i], PAGE_SIZE) in Blocks(Step(t.heap, op).info)
    {
      assert t.slots[i] in t.slots;
      match op
      case Malloc(len) => MallocKeepsAll(t.heap, len, (t.slots[i], PAGE_SIZE));
      case Free(obj, size) => FreeKeepsOthers(t.heap, obj, size, (t.slots[i], PAGE_SIZE));
    }
  }

  lemma StepSound(t: Table, op: TaskOp)
    requires Sound(t) && TaskOpOk(t, op)
    ensures Sound(TaskStep(t, op))
  {
    match op
    case Create => CreateSound(t);
    case Exit(task) => ExitSound(t, task);
    case Dispatch =>
      assert t.slots[Pick(t)] in t.slots;
    case Other(o) => OtherSound(t, o);
  }

  /** A task can be created whenever a slot is free and, counting one page more
      for descriptors, less than half of the memory is in use. */
  lemma CreateServed(t: Table)
    requires Sound(t) && 0 in t.slots
    requires 2 * (t.heap.pages.used + 1) < t.heap.pages.total
    ensures TaskOpOk(t, Create) && CreateTask(t).slots != t.slots
  {
    HalfFullServes(t.heap, PAGE_SIZE);
    CreatedIff(t);
  }

  /** The exit of a task just created in slot 1 or above gives everything back:
      the slots, the chains, the spare list and the page map, but for a page of
      descriptors that had to be fetched. */
  lemma ExitUndoesCreate(t: Table)
    requires Sound(t) && !Refused(t.heap, PAGE_SIZE) && 1 <= FirstEmpty(t.slots, 0) < NR_TASKS
    ensures
      var u := CreateTask(t);
      var task := u.slots[FirstEmpty(t.slots, 0)];
      && task != 0 && Linked(u.heap)
      && ExitTask(u, task).slots == t.slots
      && ExitTask(u, task).heap == Prepared(t.heap, PAGE_SIZE)
  {
    var e, u := FirstEmpty(t.slots, 0), CreateTask(t);
    CreateSound(t);
    CreatedPage(t);
    ExitFromSlot(u, u.slots[e], e);
    SetAndReset(t.slots, e, u.slots[e]);
  }

  lemma SetAndReset(s: seq<int>, e: nat, p: int)
    requires e < |s| && s[e] == 0
    ensures s[e := p][e := 0] == s
  {
  }

  /** The page of a new task, given back at once. */
  lemma CreatedPage(t: Table)
    requires Sound(t) && !Refused(t.heap, PAGE_SIZE)
    ensures
      var (h, p) := Kmalloc(t.heap, PAGE_SIZE);
      p != 0 && Linked(h) && Kfree(h, p, PAGE_SIZE) == Prepared(t.heap, PAGE_SIZE)
  {
    KmallocAddsBlock(t.heap, PAGE_SIZE);
    KmallocInv(t.heap, PAGE_SIZE);
    SizesFit(PAGE_SIZE);
    FreeUndoesMalloc(t.heap, PAGE_SIZE, PAGE_SIZE);
  }

  lemma ExitFromSlot(u: Table, task: int, e: nat)
    requires Sound(u) && 1 <= e < NR_TASKS && u.slots[e] == task != 0
    ensures ExitTask(u, task).slots == u.slots[e := 0] && ExitTask(u, task).heap == Kfree(u.heap, task, PAGE_SIZE)
  {
    assert SlotOf(u.slots, task, 1) == e;
  }

  // ----- The steps in other words -----

  /** Slot `k` is the lowest of slots 1 to 63 with a ready task, whose state is 2. */
  predicate LowestReady(slots: seq<int>, states: seq<int>, k: int)
    requires |slots| == |states| == 64
  {
    && 1 <= k < 64 && slots[k] != 0 && states[k] == 2
    && forall j :: 1 <= j < k ==> slots[j] == 0 || states[j] != 2
  }

  predicate NoneReady(slots: seq<int>, states: seq<int>)
    requires |slots| == |states| == 64
  {
    forall j :: 1 <= j < 64 ==> slots[j] == 0 || states[j] != 2
  }

  /** A dispatch makes the task of the lowest ready slot current and running, or the
      one of slot 0 current, and changes nothing else. */
  lemma DispatchIs(t: Table, k: int)
    requires |t.slots| == |t.states| == 64
    ensures
      var u := DispatchTask(t);
      && (LowestReady(t.slots, t.states, k) ==> u == t.(states := t.states[k := 1], current := t.slots[k]))
      && (NoneReady(t.slots, t.states) ==> u == t.(current := t.slots[0]))
  {
    var r := FirstReady(t, 1);
    if LowestReady(t.slots, t.states, k) {
      assert IsReady(t, k);
      assert r == k;
    }
  }

  lemma Dispatched(t: Table)
    requires |t.slots| == |t.states| == 64
    ensures
      var u := DispatchTask(t);
      && (forall k :: 1 <= k < 64 && LowestReady(t.slots, t.states, k) ==>
            u.current == t.slots[k] && u.states == t.states[k := 1])
      && (NoneReady(t.slots, t.states) ==> u.current == t.slots[0] && u.states == t.states)
  {
    forall k
      ensures LowestReady(t.slots, t.states, k) ==> DispatchTask(t).current == t.slots[k]
      ensures LowestReady(t.slots, t.states, k) ==> DispatchTask(t).states == t.states[k := 1]
    {
      DispatchIs(t, k);
    }
    DispatchIs(t, 1);
  }

  lemma PickNone(t: Table)
    requires |t.slots| == |t.states| == 64
    ensures Pick(t) == 0 <==> NoneReady(t.slots, t.states)
  {
    var r := FirstReady(t, 1);
    forall j | 1 <= j < r
      ensures t.slots[j] == 0 || t.states[j] != 2
    {
      assert !IsReady(t, j);
    }
    assert r < 64 ==> t.slots[r] != 0 && t.states[r] == 2;
  }

  /** A creation enters the new page, or null, into the lowest free slot `e`, ready
      and with the slot's number as pid. */
  lemma CreateIs(t: Table, e: int)
    requires Linked(t.heap) && |t.slots| == |t.states| == |t.pids| == 64
    requires 0 <= e < 64 && t.slots[e] == 0 && forall j :: 0 <= j < e ==> t.slots[j] != 0
    ensures
      var (h, p) := Kmalloc(t.heap, 4096);
      CreateTask(t) == Table(h, t.slots[e := p], t.states[e := 2], t.pids[e := e], t.current, t.front,
                             if p == 0 then 4096 else t.low)
  {
    assert FirstEmpty(t.slots, 0) == e;
  }

  /** An exit clears the lowest slot from 1 on in which the pointer stands, frees
      it, and leaves no current task; without such a slot it does nothing. */
  lemma ExitIs(t: Table, task: int, i: int)
    requires Linked(t.heap) && |t.slots| == 64
    ensures
      && (1 <= i < 64 && t.slots[i] == task && (forall j :: 1 <= j < i ==> t.slots[j] != task) ==>
            ExitTask(t, task) == t.(heap := Kfree(t.heap, task, 4096), slots := t.slots[i := 0], current := 0))
      && ((forall j :: 1 <= j < 64 ==> t.slots[j] != task) ==> ExitTask(t, task) == t)
  {
    var r := SlotOf(t.slots, task, 1);
    if 1 <= i < 64 && t.slots[i] == task && (forall j :: 1 <= j < i ==> t.slots[j] != task) {
      assert r == i;
    }
  }

  // ----- Whole runs -----

  ghost predicate TaskRunOk(t: Table, ops: seq<TaskOp>)
    requires Sound(t)
    decreases ops
  {
    ops == [] || (TaskOpOk(t, ops[0]) && (StepSound(t, ops[0]); TaskRunOk(TaskStep(t, ops[0]), ops[1..])))
  }

  ghost function TaskRun(t: Table, ops: seq<TaskOp>): Table
    requires Sound(t) && TaskRunOk(t, ops)
    decreases ops
  {
    if ops == [] then t else (StepSound(t, ops[0]); TaskRun(TaskStep(t, ops[0]), ops[1..]))
  }

  lemma {:induction false} RunSound(t: Table, ops: seq<TaskOp>)
    requires Sound(t) && TaskRunOk(t, ops)
    ensures Sound(TaskRun(t, ops))
    decreases ops
  {
    if ops != [] {
      StepSound(t, ops[0]);
      RunSound(TaskStep(t, ops[0]), ops[1..]);
    }
  }

  lemma BootSound(total: nat, front: int, low: int)
    ensures Sound(Boot(total, front, low))
  {
    EmptyInv(total);
  }

  /** A task's pid is its slot's number, and its page belongs to no other slot, is
      taken in the page layer, and overlaps no other live block. */
  ghost predicate OwnsPage(t: Table, i: int)
    requires |t.slots| == |t.pids| == NR_TASKS && 0 <= i < NR_TASKS
  {
    var p := t.slots[i];
    && t.pids[i] == i
    && (forall j :: 0 <= j < NR_TASKS && j != i ==> t.slots[j] != p)
    && IsPage(t.heap.pages, p)
    && (p, PAGE_SIZE) in Blocks(t.heap.info)
    && (forall x :: x in Blocks(t.heap.info) && x.0 != p ==> x.0 + x.1 <= p || p + PAGE_SIZE <= x.0)
  }

  lemma SlotOwnsPage(t: Table, i: int)
    requires Sound(t) && 0 <= i < NR_TASKS && t.slots[i] != 0
    ensures OwnsPage(t, i)
  {
    var p := t.slots[i];
    var d := WholePage(t.heap, p);
    assert Holds(t.heap, InPages);
    forall x | x in Blocks(t.heap.info) && x.0 != p
      ensures x.0 + x.1 <= p || p + PAGE_SIZE <= x.0
    {
      BlocksDisjoint(t.heap, x, (p, PAGE_SIZE));
    }
  }

  /** From boot on, after any run of creations, exits, dispatches and calls of
      other clients, every occupied slot owns a whole page of its own, and
      `current` is null or the task of some slot. */
  lemma TasksOwnPages(total: nat, front: int, low: int, ops: seq<TaskOp>)
    requires Sound(Boot(total, front, low)) && TaskRunOk(Boot(total, front, low), ops)
    ensures
      var t := TaskRun(Boot(total, front, low), ops);
      && |t.slots| == |t.pids| == NR_TASKS
      && (forall i :: 0 <= i < NR_TASKS && t.slots[i] != 0 ==> OwnsPage(t, i))
      && (t.current != 0 ==> t.current in t.slots)
  {
    RunSound(Boot(total, front, low), ops);
    var t := TaskRun(Boot(total, front, low), ops);
    forall i | 0 <= i < NR_TASKS && t.slots[i] != 0
      ensures OwnsPage(t, i)
    {
      SlotOwnsPage(t, i);
    }
  }

  /** Task_exit of the null pointer while the idle task is current, which stays in
      its slot. */
  lemma NullExitOnBoot(front: int, low: int)
    ensures
      var b := Boot(3, front, low);
      && Sound(b) && TaskOpOk(b, Create)
      && var t := DispatchTask(CreateTask(b));
      && Sound(t) && t.current == t.slots[0] != 0
      && ExitTask(t, 0) == t.(current := 0)
  {
    var b := Boot(3, front, low);
    BootSound(3, front, low);
    assert b.slots[0] == 0;
    CreateServed(b);
    var u := CreateTask(b);
    CreateSound(b);
    assert FirstEmpty(b.slots, 0) == 0 && u.slots[0] != 0;
    assert forall i :: 1 <= i < NR_TASKS ==> u.slots[i] == 0;
    assert Pick(u) == 0;
    StepSound(u, Dispatch);
    var t := DispatchTask(u);
    ExitNull(t);
    assert t.slots[1] == 0;
  }

  /** The slots in use are those below `k`. */
  ghost predicate FilledTo(slots: seq<int>, k: int) {
    |slots| == NR_TASKS && forall i :: 0 <= i < NR_TASKS ==> (slots[i] == 0 <==> i >= k)
  }

  lemma OneMoreSlot(t: Table, k: nat)
    requires Sound(t) && k < NR_TASKS && FilledTo(t.slots, k) && 2 * (t.heap.pages.used + 1) < t.heap.pages.total
    ensures TaskOpOk(t, Create) && FilledTo(CreateTask(t).slots, k + 1)
    ensures CreateTask(t).heap.pages.used <= t.heap.pages.used + 2
    ensures CreateTask(t).heap.pages.total == t.heap.pages.total
  {
    assert t.slots[k] == 0;
    CreateServed(t);
    NewTaskPage(t);
    KmallocPages(t.heap, PAGE_SIZE);
    var e := FirstEmpty(t.slots, 0);
    assert e == k;
  }

  /** Creations fill the table from below while less than half of the memory is in
      use. */
  lemma {:induction false} TableFills(t: Table, n: nat)
    requires Sound(t) && n <= NR_TASKS && FilledTo(t.slots, NR_TASKS - n)
    requires 2 * (t.heap.pages.used + 2 * n + 1) < t.heap.pages.total
    ensures
      var ops := seq(n, _ => Create);
      && TaskRunOk(t, ops)
      && var u := TaskRun(t, ops);
      && Sound(u) && FilledTo(u.slots, NR_TASKS) && 2 * (u.heap.pages.used + 1) < u.heap.pages.total
    decreases n
  {
    if n > 0 {
      var ops, u := seq(n, _ => Create), CreateTask(t);
      OneMoreSlot(t, NR_TASKS - n);
      CreateSound(t);
      TableFills(u, n - 1);
      assert ops[0] == Create && ops[1..] == seq(n - 1, _ => Create);
      FirstCreation(t, u, ops);
    }
  }

  lemma FirstCreation(t: Table, u: Table, ops: seq<TaskOp>)
    requires Sound(t) && ops != [] && ops[0] == Create && TaskOpOk(t, Create)
    requires Sound(u) && u == CreateTask(t) && TaskRunOk(u, ops[1..])
    ensures TaskRunOk(t, ops) && TaskRun(t, ops) == TaskRun(u, ops[1..])
  {
  }

  /** The 65th creation on 300 pages finds the table full: its page is lost. */
  lemma TableOverruns(front: int, low: int)
    ensures
      var t, ops := Boot(300, front, low), seq(NR_TASKS, _ => Create);
      && Sound(t) && TaskRunOk(t, ops) && Sound(TaskRun(t, ops))
      && var u := CreateTask(TaskRun(t, ops));
      u.front != 0 && (u.front, PAGE_SIZE) in Blocks(u.heap.info) && u.front !in u.slots
  {
    var t := Boot(300, front, low);
    BootSound(300, front, low);
    TableFills(t, NR_TASKS);
    var u := TaskRun(t, seq(NR_TASKS, _ => Create));
    HalfFullServes(u.heap, PAGE_SIZE);
    FullTableLeaks(u);
    NewTaskPage(u);
  }

  // ----- Dispatch -----

  /** The number of ready tasks in slots `i` to 63. */
  function ReadyFrom(t: Table, i: nat): nat
    requires |t.slots| == |t.states| == NR_TASKS && i <= NR_TASKS
    decreases NR_TASKS - i
  {
    if i == NR_TASKS then 0 else (if IsReady(t, i) then 1 else 0) + ReadyFrom(t, i + 1)
  }

  /** A dispatch takes the lowest ready slot, and each dispatch of a task other
      than idle leaves one ready task less. */
  lemma {:induction false} DispatchMeasure(t: Table, i: nat)
    requires |t.slots| == |t.states| == NR_TASKS && 1 <= i <= NR_TASKS
    requires forall j :: 1 <= j < i ==> !IsReady(t, j)
    ensures ReadyFrom(DispatchTask(t), i) == if Pick(t) == 0 then ReadyFrom(t, i) else ReadyFrom(t, i) - 1
    ensures Pick(t) == 0 <==> ReadyFrom(t, i) == 0
    decreases NR_TASKS - i
  {
    if i < NR_TASKS {
      if IsReady(t, i) {
        assert Pick(t) == i;
        SameFrom(t, DispatchTask(t), i + 1);
      } else {
        DispatchMeasure(t, i + 1);
      }
    }
  }

  lemma {:induction false} SameFrom(t: Table, u: Table, i: nat)
    requires |t.slots| == |t.states| == |u.slots| == |u.states| == NR_TASKS && i <= NR_TASKS
    requires forall j :: i <= j < NR_TASKS ==> t.slots[j] == u.slots[j] && t.states[j] == u.states[j]
    ensures ReadyFrom(t, i) == ReadyFrom(u, i)
    decreases NR_TASKS - i
  {
    if i < NR_TASKS {
      SameFrom(t, u, i + 1);
    }
  }

  function Dispatches(t: Table, n: nat): (u: Table)
    requires |t.slots| == |t.states| == NR_TASKS
    ensures |u.slots| == |u.states| == NR_TASKS
    decreases n
  {
    if n == 0 then t else Dispatches(DispatchTask(t), n - 1)
  }

  /** Without new tasks, idle is chosen after exactly as many dispatches as there
      are ready tasks in slots 1 to 63, and not before. */
  lemma {:induction false} IdleAfterAllReady(t: Table, n: nat)
    requires |t.slots| == |t.states| == NR_TASKS && n <= ReadyFrom(t, 1)
    ensures Pick(Dispatches(t, n)) == 0 <==> n == ReadyFrom(t, 1)
    decreases n
  {
    DispatchMeasure(t, 1);
    if n > 0 {
      IdleAfterAllReady(DispatchTask(t), n - 1);
    }
  }

  /** A dispatched task is never dispatched again: as long as it has not exited,
      whatever else happens, its slot is not picked. */
  lemma {:induction false} DispatchedOnce(t: Table, ops: seq<TaskOp>, i: nat)
    requires Sound(t) && TaskRunOk(t, ops)
    requires 1 <= i < NR_TASKS && t.slots[i] != 0 && t.states[i] != READY
    requires Exit(t.slots[i]) !in ops
    ensures
      var u := TaskRun(t, ops);
      Sound(u) && u.slots[i] == t.slots[i] && u.states[i] != READY && Pick(u) != i
    decreases ops
  {
    if ops != [] {
      assert ops[0] in ops;
      assert forall op :: op in ops[1..] ==> op in ops;
      StaysDispatched(t, ops[0], i);
      DispatchedOnce(TaskStep(t, ops[0]), ops[1..], i);
    }
  }

  lemma StaysDispatched(t: Table, op: TaskOp, i: nat)
    requires Sound(t) && TaskOpOk(t, op)
    requires 1 <= i < NR_TASKS && t.slots[i] != 0 && t.states[i] != READY && op != Exit(t.slots[i])
    ensures
      var u := TaskStep(t, op);
      Sound(u) && u.slots[i] == t.slots[i] && u.states[i] != READY
  {
    StepSound(t, op);
  }
}
