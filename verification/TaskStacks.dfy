/** Where the stacks of kernel/tasks/tasks.c come from: blocks that the allocator hands out. Task steps,
    uses of the heap and creations are put together into one run. */
module TaskStacks {
  import opened Ints
  import opened TaskSwitch
  import opened TaskRuns
  import opened TaskTheorems
  import opened HeapTable

  const STACK_BYTES: U16 := 4096 + 32

  /** The stack carved from the block in slot `i`. */
  function StackOf(h: Heap, i: int): Block
    requires Live(h, i)
  {
    StackBlock(HEAP_BASE + h.table[i].offset)
  }

  /** The top of a stack is aligned to sixteen bytes, less than sixteen below the end of the block's first 4096. */
  lemma StackInBlock(raw: nat)
    ensures StackTop(raw) * 4 % 16 == 0
    ensures raw + 4080 < StackTop(raw) * 4 <= raw + 4096
    ensures raw <= StackBlock(raw).lo * 4 < raw + 4 && StackBlock(raw).hi == StackTop(raw)
  {
    assert StackTop(raw) == (raw + 4096) / 16 * 4;
  }

  lemma BlocksApart(a: nat, m: nat, b: nat, n: nat)
    requires m >= STACK_BYTES && n >= STACK_BYTES && Separate(a, m, b, n)
    ensures Apart(StackBlock(a), StackBlock(b))
  {
  }

  predicate BigEnough(h: Heap, i: int) {
    Live(h, i) && h.table[i].size >= STACK_BYTES
  }

  /** A block of the size `k_create_task` asks for, allocated within the window, holds a stack apart from
      the stacks in all other live blocks. */
  lemma NewStackApart(h: Heap, i: int)
    requires Sound(h) && Fits(h, STACK_BYTES) && BigEnough(h, i)
    requires FirstAt(h.table, FREE) < |h.table|
    ensures var g := Alloc(h, STACK_BYTES); var k := FirstAt(h.table, FREE);
            && k != i && BigEnough(g, k) && BigEnough(g, i)
            && StackOf(g, i) == StackOf(h, i)
            && StackOf(g, k) == StackBlock(HEAP_BASE + h.top)
            && Apart(StackOf(g, i), StackOf(g, k))
  {
    hide StackBlock, FirstAt;
    AllocSound(h, STACK_BYTES);
    var g, k := Alloc(h, STACK_BYTES), FirstAt(h.table, FREE);
    LiveDisjoint(g, i, k);
    BlocksApart(HEAP_BASE + g.table[i].offset, g.table[i].size, HEAP_BASE + g.table[k].offset, g.table[k].size);
  }

  // ---------- tasks on the heap ----------

  /** A stretch of words outside everything a 16-bit offset and size can reach. */
  predicate OffHeap(b: Block) {
    b.hi <= HEAP_BASE / 4 || b.lo >= (HEAP_BASE + 2 * LAP) / 4
  }

  lemma StackOnHeap(off: U16, b: Block)
    requires OffHeap(b)
    ensures Apart(b, StackBlock(HEAP_BASE + off))
  {
  }

  /** Task `k + 1` has its stack in the live block of slot `slots[k]`; `task_list` and the stack of the
      first task are off the heap. */
  ghost predicate Backed(s: State, h: Heap, slots: seq<nat>) {
    && Layout(s) && Sound(h)
    && |s.blocks| == |slots| + 1
    && OffHeap(TaskList(s.m)) && OffHeap(s.blocks[0])
    && (forall k :: 0 <= k < |slots| ==> BigEnough(h, slots[k]) && s.blocks[k + 1] == StackOf(h, slots[k]))
  }

  /** A creation on a block that `malloc` finds within the window is one that runs allow. */
  lemma CreationEnabled(s: State, h: Heap, slots: seq<nat>, func: Words.Word)
    requires Backed(s, h, slots) && CanSpawn(s, h)
    ensures Enabled(s, CreateTask(func, HEAP_BASE + h.top))
  {
    hide StackBlock, FirstAt, Sound, Fits;
    StackOnHeap(h.top, TaskList(s.m));
    StackOnHeap(h.top, s.blocks[0]);
    forall k | 0 <= k < |s.blocks|
      ensures Apart(s.blocks[k], StackBlock(HEAP_BASE + h.top))
    {
      if k > 0 {
        NewStackApart(h, slots[k - 1]);
        assert s.blocks[(k - 1) + 1] == StackOf(h, slots[k - 1]);
      }
    }
  }

  /** The caller's side of `k_create_task`: room in `task_list`, in memory and in the heap. */
  ghost predicate CanSpawn(s: State, h: Heap)
    requires Layout(s)
  {
    && s.phase[Cur(s)].Free? && s.m.taskCount < MAX_TASKS
    && |h.table| == |h.start|
    && FirstAt(h.table, FREE) < |h.table| && Fits(h, STACK_BYTES)
    && StackTop(HEAP_BASE + h.top) <= |s.m.mem|
  }

  lemma CreationBacked(s: State, h: Heap, slots: seq<nat>, func: Words.Word)
    requires Inv(s) && Backed(s, h, slots) && CanSpawn(s, h)
    requires Enabled(s, CreateTask(func, HEAP_BASE + h.top))
    ensures Backed(Next(s, CreateTask(func, HEAP_BASE + h.top)), Alloc(h, STACK_BYTES),
                   slots + [FirstAt(h.table, FREE)])
  {
    hide StackBlock, FirstAt, Create, Inv, Sound, Fits;
    var create := CreateTask(func, HEAP_BASE + h.top);
    CreationKeeps(s, create);
    AllocSound(h, STACK_BYTES);
    SlotFilled(h);
    var t, g, more := Next(s, create), Alloc(h, STACK_BYTES), slots + [FirstAt(h.table, FREE)];
    forall k | 0 <= k < |more|
      ensures BigEnough(g, more[k]) && t.blocks[k + 1] == StackOf(g, more[k])
    {
      if k < |slots| {
        NewStackApart(h, slots[k]);
        assert t.blocks[k + 1] == s.blocks[k + 1];
      }
    }
  }

  lemma SlotFilled(h: Heap)
    requires Sound(h) && Fits(h, STACK_BYTES) && FirstAt(h.table, FREE) < |h.table|
    ensures var g := Alloc(h, STACK_BYTES); var k := FirstAt(h.table, FREE);
            BigEnough(g, k) && StackOf(g, k) == StackBlock(HEAP_BASE + h.top)
  {
    OffsetsNeverMarker(h, STACK_BYTES);
  }

  lemma CreationKeeps(s: State, create: Action)
    requires Inv(s) && create.CreateTask? && Enabled(s, create)
    ensures var t := Next(s, create);
            Layout(t) && t.blocks == s.blocks + [StackBlock(create.raw)] && TaskList(t.m) == TaskList(s.m)
  {
    CreateLayout(s, create);
  }

  /** Any other step leaves the blocks where they are. */
  lemma StepBacked(s: State, a: Action, h: Heap, slots: seq<nat>)
    requires Inv(s) && Backed(s, h, slots) && Enabled(s, a) && !a.CreateTask? && !Wraps(s, a)
    ensures Backed(Next(s, a), h, slots)
  {
    hide StackBlock, Tick, Sound, BigEnough;
    if a.TimerTick? {
      TickEffect(s, a);
    } else {
      TaskStepHere(s, a);
    }
  }

  /** A heap operation that gets its block within the window and touches no stack. */
  ghost predicate Spares(h: Heap, slots: seq<nat>, op: Op)
    requires |h.table| == |h.start|
  {
    && (Allocates(h, op) ==> Fits(h, op.size))
    && (!op.Malloc? ==> forall k :: 0 <= k < |slots| && Live(h, slots[k]) ==> h.table[slots[k]].offset != op.off)
  }

  lemma HeapStepBacked(s: State, h: Heap, slots: seq<nat>, op: Op)
    requires Backed(s, h, slots) && |h.table| == |h.start| && Spares(h, slots, op)
    ensures Backed(s, Apply(h, op), slots)
  {
    hide StackBlock, Layout, Sound, Fits;
    StepSound(h, op);
    forall k | 0 <= k < |slots|
      ensures BigEnough(Apply(h, op), slots[k]) && s.blocks[k + 1] == StackOf(Apply(h, op), slots[k])
    {
      assert BigEnough(h, slots[k]);
      EntryKept(h, slots[k], op);
    }
  }

  lemma EntryKept(h: Heap, i: int, op: Op)
    requires |h.table| == |h.start| && Live(h, i)
    requires !op.Malloc? ==> h.table[i].offset != op.off
    ensures Live(Apply(h, op), i) && Apply(h, op).table[i] == h.table[i]
  {
    var k := FirstAt(h.table, FREE);
  }

  // ---------- runs of both ----------

  /** The tasks, the heap, and the slots that hold the stacks. */
  datatype Whole = Whole(s: State, h: Heap, slots: seq<nat>)

  /** A step of a task or a tick, a use of the heap by anyone, or a creation by the running task. */
  datatype Event = Step(a: Action) | Use(op: Op) | Spawn(func: Words.Word)

  ghost predicate Safe(w: Whole) {
    Inv(w.s) && Backed(w.s, w.h, w.slots)
  }

  ghost predicate Possible(w: Whole, e: Event)
    requires Safe(w)
  {
    match e
    case Step(a) => !a.CreateTask? && Enabled(w.s, a) && !Wraps(w.s, a)
    case Use(op) => |w.h.table| == |w.h.start| && Spares(w.h, w.slots, op)
    case Spawn(_) => CanSpawn(w.s, w.h)
  }

  /** The task step of an event, if it is one. */
  function Steps(h: Heap, e: Event): seq<Action> {
    match e
    case Step(a) => [a]
    case Use(_) => []
    case Spawn(func) => [CreateTask(func, HEAP_BASE + h.top)]
  }

  lemma EventKeeps(w: Whole, e: Event)
    requires Safe(w) && Possible(w, e)
    ensures |w.h.table| == |w.h.start|
    ensures forall a :: a in Steps(w.h, e) ==> Enabled(w.s, a) && !Wraps(w.s, a)
    ensures Safe(After(w, e))
  {
    hide Inv, Backed, CanSpawn, Spares, Next, Apply, Alloc, Enabled, StackBlock;
    TrackedTable(w);
    match e
    case Step(a) =>
      StepInv(w.s, a);
      StepBacked(w.s, a, w.h, w.slots);
    case Use(op) =>
      HeapStepBacked(w.s, w.h, w.slots, op);
    case Spawn(func) =>
      CreationEnabled(w.s, w.h, w.slots, func);
      CreateInv(w.s, CreateTask(func, HEAP_BASE + w.h.top));
      CreationBacked(w.s, w.h, w.slots, func);
  }

  lemma TrackedTable(w: Whole)
    requires Safe(w)
    ensures Layout(w.s) && |w.h.table| == |w.h.start|
  {
  }

  ghost function After(w: Whole, e: Event): Whole
    requires Safe(w) && Possible(w, e)
  {
    TrackedTable(w);
    match e
    case Step(a) => w.(s := Next(w.s, a))
    case Use(op) => w.(h := Apply(w.h, op))
    case Spawn(func) =>
      CreationEnabled(w.s, w.h, w.slots, func);
      Whole(Next(w.s, CreateTask(func, HEAP_BASE + w.h.top)), Alloc(w.h, STACK_BYTES),
            w.slots + [FirstAt(w.h.table, FREE)])
  }

  /** Every event is possible where the events before it lead. */
  ghost predicate IsJointRun(w: Whole, events: seq<Event>)
    requires Safe(w)
    decreases |events|
  {
    events != [] ==> Possible(w, events[0]) && (EventKeeps(w, events[0]); IsJointRun(After(w, events[0]), events[1..]))
  }

  ghost function JointEnd(w: Whole, events: seq<Event>): (t: Whole)
    requires Safe(w) && IsJointRun(w, events)
    ensures Safe(t)
    decreases |events|
  {
    if events == [] then w else (EventKeeps(w, events[0]); JointEnd(After(w, events[0]), events[1..]))
  }

  /** The task steps of a joint run. */
  ghost function TaskSteps(w: Whole, events: seq<Event>): seq<Action>
    requires Safe(w) && IsJointRun(w, events)
    decreases |events|
  {
    if events == [] then []
    else (EventKeeps(w, events[0]); Steps(w.h, events[0]) + TaskSteps(After(w, events[0]), events[1..]))
  }

  /** With stacks from `malloc` within the window, and no stack freed, the task steps are a run in the
      sense of TaskTheorems, creations included, and the stacks stay on their blocks. */
  lemma {:induction false} JointRun(w: Whole, events: seq<Event>)
    requires Safe(w) && IsJointRun(w, events)
    ensures IsRun(w.s, TaskSteps(w, events))
    ensures End(w.s, TaskSteps(w, events)) == JointEnd(w, events).s
    ensures Safe(JointEnd(w, events))
    decreases |events|
  {
    hide Inv, Backed, CanSpawn, Spares, Next, Apply, Alloc, Enabled, Possible, StackBlock;
    if events != [] {
      var e := events[0];
      EventKeeps(w, e);
      TrackedTable(w);
      var rest := TaskSteps(After(w, e), events[1..]);
      JointRun(After(w, e), events[1..]);
      if e.Use? {
        assert TaskSteps(w, events) == rest;
      } else {
        var a := Steps(w.h, e)[0];
        assert a in Steps(w.h, e);
        assert TaskSteps(w, events) == [a] + rest;
        assert ([a] + rest)[1..] == rest;
      }
    }
  }

  /** The kernel at its start: one task, an empty heap, everything else off the heap. */
  lemma StartSafe(s: State)
    requires Initial(s) && OffHeap(TaskList(s.m)) && OffHeap(s.blocks[0])
    ensures Safe(Whole(s, EMPTY, []))
  {
    EmptySound();
    InitialInv(s);
  }
}
