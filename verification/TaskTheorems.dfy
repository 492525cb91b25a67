/** Properties of whole runs of the tasks: exact resumption, first entry, no lost update of
    `critical`, and round-robin fairness while tasks are being created. */
module TaskTheorems {
  import opened Words
  import opened TaskSwitch
  import opened TaskRuns

  /** The only step excluded from runs: an increment of `critical` at its maximum (see
      `TaskRuns.EnterStoreExact`). */
  predicate Wraps(s: State, a: Action) {
    a.EnterStore? && s.m.critical == WORD_LIMIT - 1
  }

  ghost predicate IsRun(s: State, run: seq<Action>)
    decreases |run|
  {
    run != [] ==>
      && Layout(s) && Enabled(s, run[0]) && !Wraps(s, run[0])
      && IsRun(Next(s, run[0]), run[1..])
  }

  ghost function End(s: State, run: seq<Action>): State
    requires IsRun(s, run)
    decreases |run|
  {
    if run == [] then s else End(Next(s, run[0]), run[1..])
  }

  /** How often the processor is handed to task `k` during the run. */
  ghost function Turns(s: State, run: seq<Action>, k: nat): nat
    requires IsRun(s, run)
    decreases |run|
  {
    if run == [] then 0
    else
      (if IsSwitch(s, run[0]) && NextIndex(s.m) == k then 1 else 0)
      + Turns(Next(s, run[0]), run[1..], k)
  }

  /** How many ticks of the run found `critical` at zero. */
  ghost function OpenTicks(s: State, run: seq<Action>): nat
    requires IsRun(s, run)
    decreases |run|
  {
    if run == [] then 0
    else
      (if run[0].TimerTick? && s.m.critical == 0 then 1 else 0)
      + OpenTicks(Next(s, run[0]), run[1..])
  }

  /** The kernel when it enters `k_main`: one task, outside every critical section. */
  predicate Initial(s: State) {
    && Layout(s)
    && s.m.taskCount == 1 && s.m.currentIndex == 0 && s.m.critical == 0
    && s.phase == [Free] && s.depth == [0]
    && Room(s.blocks[0], s.m.esp)
  }

  lemma InitialInv(s: State)
    requires Initial(s)
    ensures Inv(s)
  {
  }

  lemma {:induction false} RunInv(s: State, run: seq<Action>)
    requires Inv(s) && IsRun(s, run)
    ensures Inv(End(s, run))
    decreases |run|
  {
    if run != [] {
      StepInv(s, run[0]);
      RunInv(Next(s, run[0]), run[1..]);
    }
  }

  /** The timer may fire in any state a run reaches. */
  lemma TickAlwaysPossible(s: State, run: seq<Action>, scratch: Regs)
    requires Initial(s) && IsRun(s, run)
    ensures Layout(End(s, run)) && Enabled(End(s, run), TimerTick(scratch))
  {
    InitialInv(s);
    RunInv(s, run);
    CanAlwaysTick(End(s, run), scratch);
  }

  // ---------- critical sections ----------

  /** No increment or decrement of `critical` is ever lost, whatever ticks fall between a load and
      its store: `critical` is the nesting depth of the running task, every other task is at depth
      0, and a value another task has loaded and not yet stored back is 0. */
  lemma NoLostUpdate(s: State, run: seq<Action>)
    requires Initial(s) && IsRun(s, run)
    ensures var t := End(s, run);
            && Layout(t)
            && t.m.critical == t.depth[Cur(t)]
            && (t.phase[Cur(t)] == IncLoaded || t.phase[Cur(t)] == DecLoaded ==>
                  t.m.regs.eax == t.depth[Cur(t)])
            && (forall k: nat :: Suspended(t, k) ==>
                  && t.depth[k] == 0 && HasFrame(t.m, k)
                  && (t.phase[k] == Free
                      || (t.phase[k] == IncLoaded && Saved(t.m, k).regs.eax == 0)))
  {
    InitialInv(s);
    RunInv(s, run);
    var t := End(s, run);
    forall k: nat | Suspended(t, k)
      ensures t.depth[k] == 0 && HasFrame(t.m, k)
      ensures t.phase[k] == Free || (t.phase[k] == IncLoaded && Saved(t.m, k).regs.eax == 0)
    {
      assert WellSaved(t.m, t.blocks[k], k) && CriticalElsewhere(t, k);
    }
  }

  /** The stores of increments and of decrements in a run. */
  function Raises(run: seq<Action>): nat {
    if run == [] then 0 else (if run[0].EnterStore? then 1 else 0) + Raises(run[1..])
  }

  function Drops(run: seq<Action>): nat {
    if run == [] then 0 else (if run[0].ExitStore? then 1 else 0) + Drops(run[1..])
  }

  /** What one step does to the counter. */
  lemma StepCounts(s: State, a: Action)
    requires Inv(s) && Enabled(s, a) && !Wraps(s, a)
    ensures Next(s, a).m.critical
         == s.m.critical + (if a.EnterStore? then 1 else 0) - (if a.ExitStore? then 1 else 0)
  {
    hide CanTick, Tick, Create, RespectsOthers, HasFrame, WellSaved, CriticalElsewhere;
    if a.TimerTick? {
      TickEffect(s, a);
    } else if a.CreateTask? {
      CreateCounts(s, a);
    }
  }

  lemma CreateCounts(s: State, a: Action)
    requires Layout(s) && a.CreateTask? && Enabled(s, a)
    ensures Next(s, a).m.critical == s.m.critical
  {
  }

  /** Counted on the actions alone: after every run the counter is the number of increments stored less the
      number of decrements stored, by whatever tasks and with whatever ticks in between. */
  lemma CounterExact(s: State, run: seq<Action>)
    requires Initial(s) && IsRun(s, run)
    ensures End(s, run).m.critical == Raises(run) - Drops(run)
  {
    InitialInv(s);
    CounterFrom(s, run);
  }

  lemma {:induction false} CounterFrom(s: State, run: seq<Action>)
    requires Inv(s) && IsRun(s, run)
    ensures End(s, run).m.critical == s.m.critical + Raises(run) - Drops(run)
    decreases |run|
  {
    if run != [] {
      hide Next, Inv, Enabled, Layout;
      StepCounts(s, run[0]);
      StepInv(s, run[0]);
      CounterFrom(Next(s, run[0]), run[1..]);
    }
  }

  /** A task inside a critical section keeps the processor. */
  lemma CriticalKeepsProcessor(s: State, run: seq<Action>, scratch: Regs)
    requires Initial(s) && IsRun(s, run)
    requires var t := End(s, run);
             Layout(t) && t.depth[Cur(t)] > 0 && Enabled(t, TimerTick(scratch))
    ensures var t := End(s, run); var u := Next(t, TimerTick(scratch));
            Cur(u) == Cur(t) && Running(u.m) == Running(t.m) && u.m.critical == t.m.critical
  {
    InitialInv(s);
    RunInv(s, run);
    TickEffect(End(s, run), TimerTick(scratch));
  }

  /** Before every step of the run the running task is inside a critical section. */
  ghost predicate StaysInside(s: State, run: seq<Action>)
    requires IsRun(s, run)
    decreases |run|
  {
    run != [] ==> s.depth[Cur(s)] > 0 && StaysInside(Next(s, run[0]), run[1..])
  }

  /** A critical section is atomic to the other tasks: while it lasts, whatever ticks fall into it, no
      task is given the processor. */
  lemma {:induction false} CriticalStretch(s: State, run: seq<Action>, k: nat)
    requires Inv(s) && IsRun(s, run) && StaysInside(s, run)
    ensures Cur(End(s, run)) == Cur(s) && Turns(s, run, k) == 0
    decreases |run|
  {
    if run != [] {
      NoSwitchInside(s, run[0]);
      hide Next, Inv, Enabled;
      IndexStep(s, run[0]);
      CriticalStretch(Next(s, run[0]), run[1..], k);
    }
  }

  lemma NoSwitchInside(s: State, a: Action)
    requires Inv(s) && s.depth[Cur(s)] > 0
    ensures !IsSwitch(s, a)
  {
  }

  // ---------- the counter at its maximum ----------

  /** `n` calls of `enter_critical`, one inside the other. */
  function Enters(n: nat, eip: Words.Word): seq<Action> {
    if n == 0 then [] else [EnterLoad(eip), EnterStore(eip)] + Enters(n - 1, eip)
  }

  lemma OneEnter(s: State, eip: Words.Word)
    requires Inv(s) && s.phase[Cur(s)].Free? && s.m.critical < WORD_LIMIT - 1
    ensures Enabled(s, EnterLoad(eip))
    ensures var t := Next(s, EnterLoad(eip));
            && Inv(t) && Enabled(t, EnterStore(eip)) && !Wraps(t, EnterStore(eip))
            && var u := Next(t, EnterStore(eip));
               Inv(u) && u.phase[Cur(u)].Free? && u.m.critical == s.m.critical + 1
  {
    var t := Next(s, EnterLoad(eip));
    TaskStepInv(s, EnterLoad(eip));
    TaskStepInv(t, EnterStore(eip));
  }

  lemma {:induction false} NestedEnters(s: State, n: nat, eip: Words.Word)
    requires Inv(s) && s.phase[Cur(s)].Free? && s.m.critical + n <= WORD_LIMIT - 1
    ensures IsRun(s, Enters(n, eip))
    ensures var t := End(s, Enters(n, eip));
            Inv(t) && t.phase[Cur(t)].Free? && t.m.critical == s.m.critical + n
    decreases n
  {
    if n > 0 {
      hide Next, Enabled;
      OneEnter(s, eip);
      var t := Next(s, EnterLoad(eip));
      var u := Next(t, EnterStore(eip));
      var rest := Enters(n - 1, eip);
      NestedEnters(u, n - 1, eip);
      var run := Enters(n, eip);
      assert run[1..] == [EnterStore(eip)] + rest;
      assert run[1..][1..] == rest;
      assert IsRun(t, run[1..]);
    }
  }

  /** `n` calls of `exit_critical` at a positive counter, one after the other. */
  function Exits(n: nat, eip: Words.Word): seq<Action> {
    if n == 0 then [] else [ExitTest(eip), ExitLoad(eip), ExitStore(eip)] + Exits(n - 1, eip)
  }

  lemma OneExit(s: State, eip: Words.Word)
    requires Inv(s) && s.phase[Cur(s)].Free? && s.m.critical > 0
    ensures Enabled(s, ExitTest(eip))
    ensures var t := Next(s, ExitTest(eip));
            && Inv(t) && Enabled(t, ExitLoad(eip))
            && var u := Next(t, ExitLoad(eip));
            && Inv(u) && Enabled(u, ExitStore(eip))
            && var w := Next(u, ExitStore(eip));
               Inv(w) && w.phase[Cur(w)].Free? && w.m.critical == s.m.critical - 1
  {
    var t := Next(s, ExitTest(eip));
    var u := Next(t, ExitLoad(eip));
    TaskStepInv(s, ExitTest(eip));
    TaskStepInv(t, ExitLoad(eip));
    TaskStepInv(u, ExitStore(eip));
  }

  /** Each call at a positive counter takes one off it. */
  lemma {:induction false} RepeatedExits(s: State, n: nat, eip: Words.Word)
    requires Inv(s) && s.phase[Cur(s)].Free? && n <= s.m.critical
    ensures IsRun(s, Exits(n, eip))
    ensures var t := End(s, Exits(n, eip));
            Inv(t) && t.phase[Cur(t)].Free? && t.m.critical == s.m.critical - n
    decreases n
  {
    hide Next, Enabled, IsRun, End, Inv;
    EndsAtOnce(s);
    InvLayout(s);
    if n > 0 {
      OneExit(s, eip);
      var t := Next(s, ExitTest(eip));
      var u := Next(t, ExitLoad(eip));
      var w := Next(u, ExitStore(eip));
      var rest := Exits(n - 1, eip);
      InvLayout(t);
      InvLayout(u);
      RepeatedExits(w, n - 1, eip);
      OneFirst(u, ExitStore(eip), rest);
      OneFirst(t, ExitLoad(eip), [ExitStore(eip)] + rest);
      OneFirst(s, ExitTest(eip), [ExitLoad(eip)] + ([ExitStore(eip)] + rest));
      assert Exits(n, eip) == [ExitTest(eip)] + ([ExitLoad(eip)] + ([ExitStore(eip)] + rest));
    }
  }

  lemma OneFirst(s: State, a: Action, rest: seq<Action>)
    requires Inv(s) && Layout(s) && Enabled(s, a) && !Wraps(s, a) && IsRun(Next(s, a), rest)
    ensures IsRun(s, [a] + rest) && End(s, [a] + rest) == End(Next(s, a), rest)
  {
    hide Next, Enabled, Inv;
    assert ([a] + rest)[1..] == rest;
  }

  lemma EndsAtOnce(s: State)
    ensures IsRun(s, []) && End(s, []) == s
  {
  }

  /** A call at 0 is its test alone. */
  lemma ExitAtZero(s: State, eip: Words.Word)
    requires Inv(s) && s.phase[Cur(s)].Free? && s.m.critical == 0
    ensures IsRun(s, [ExitTest(eip)])
    ensures var t := End(s, [ExitTest(eip)]);
            Inv(t) && t.phase[Cur(t)].Free? && t.m.critical == 0
  {
    TaskStepInv(s, ExitTest(eip));
    assert [ExitTest(eip)][1..] == [];
  }

  /** The step that runs leave out can be reached: so many nested calls that the next one wraps the
      counter to 0 and breaks the invariant. */
  lemma WrapReached(s: State, eip: Words.Word)
    requires Inv(s) && s.phase[Cur(s)].Free?
    ensures var run := Enters(WORD_LIMIT - 1 - s.m.critical, eip);
            && IsRun(s, run)
            && var t := End(s, run);
            && Layout(t) && Enabled(t, EnterLoad(eip))
            && var u := Next(t, EnterLoad(eip));
            && Layout(u) && Enabled(u, EnterStore(eip)) && Wraps(u, EnterStore(eip))
            && Next(u, EnterStore(eip)).m.critical == 0
            && !Inv(Next(u, EnterStore(eip)))
  {
    var n: nat := WORD_LIMIT - 1 - s.m.critical;
    NestedEnters(s, n, eip);
    AtMaximum(End(s, Enters(n, eip)), eip);
  }

  lemma AtMaximum(t: State, eip: Words.Word)
    requires Inv(t) && t.phase[Cur(t)].Free? && t.m.critical == WORD_LIMIT - 1
    ensures Enabled(t, EnterLoad(eip))
    ensures var u := Next(t, EnterLoad(eip));
            && Layout(u) && Enabled(u, EnterStore(eip)) && Wraps(u, EnterStore(eip))
            && Next(u, EnterStore(eip)).m.critical == 0
            && !Inv(Next(u, EnterStore(eip)))
  {
    var u := Next(t, EnterLoad(eip));
    TaskStepInv(t, EnterLoad(eip));
    EnterStoreExact(u, EnterStore(eip));
  }

  // ---------- suspended tasks over a run ----------

  lemma StillSuspendedTransitive(s: State, t: State, u: State, k: nat)
    requires Layout(s) && Suspended(s, k) && HasFrame(s.m, k) && StillSuspended(s, t, k)
    requires StillSuspended(t, u, k)
    ensures StillSuspended(s, u, k)
  {
  }

  /** Until it is next given the processor, a suspended task's stack and saved context do not change. */
  lemma {:induction false} RunKeepsSuspended(s: State, run: seq<Action>, k: nat)
    requires Inv(s) && IsRun(s, run) && Suspended(s, k) && Turns(s, run, k) == 0
    ensures HasFrame(s.m, k) && StillSuspended(s, End(s, run), k)
    decreases |run|
  {
    assert WellSaved(s.m, s.blocks[k], k);
    if run == [] {
    } else {
      var t := Next(s, run[0]);
      StepKeepsSuspended(s, run[0], k);
      StepInv(s, run[0]);
      RunKeepsSuspended(t, run[1..], k);
      StillSuspendedTransitive(s, t, End(s, run), k);
    }
  }

  /** The frames of all suspended tasks lie in pairwise disjoint stack blocks. */
  lemma SuspendedFramesDisjoint(s: State, run: seq<Action>, j: nat, k: nat)
    requires Initial(s) && IsRun(s, run)
    requires Layout(End(s, run)) && Suspended(End(s, run), j) && Suspended(End(s, run), k) && j != k
    ensures var t := End(s, run);
            && HasFrame(t.m, j) && HasFrame(t.m, k)
            && t.blocks[j].lo <= Frame(t.m, j) < Frame(t.m, j) + 11 <= t.blocks[j].hi
            && t.blocks[k].lo <= Frame(t.m, k) < Frame(t.m, k) + 11 <= t.blocks[k].hi
            && Apart(t.blocks[j], t.blocks[k])
  {
    InitialInv(s);
    RunInv(s, run);
    var t := End(s, run);
    assert WellSaved(t.m, t.blocks[j], j) && WellSaved(t.m, t.blocks[k], k);
  }

  /** When the processor comes back to a task suspended since `s`, the task runs from the context
      saved for it in `s`, on the stack it had in `s`. */
  lemma SwitchBack(s: State, run: seq<Action>, back: Action, k: nat)
    requires Inv(s) && IsRun(s, run) && Suspended(s, k) && Turns(s, run, k) == 0
    requires var t := End(s, run);
             && Layout(t) && Enabled(t, back) && IsSwitch(t, back) && NextIndex(t.m) == k
    ensures var u := Next(End(s, run), back);
            && HasFrame(s.m, k)
            && Layout(u) && Cur(u) == k
            && Running(u.m) == Saved(s.m, k)
            && u.blocks[k] == s.blocks[k]
            && |u.m.mem| == |s.m.mem|
            && (forall i :: s.blocks[k].lo <= i < s.blocks[k].hi ==> u.m.mem[i] == s.m.mem[i])
  {
    hide Next, CanTick, Saved, HasFrame, Tick, CriticalElsewhere, CriticalHere, SameStack;
    RunKeepsSuspended(s, run, k);
    RunInv(s, run);
    TickSwap(End(s, run), back);
    BackOnStack(s, End(s, run), back, k);
  }

  /** The tick that comes back to a task has not touched its stack either. */
  lemma BackOnStack(s: State, t: State, back: Action, k: nat)
    requires Layout(s) && Inv(t) && Enabled(t, back) && IsSwitch(t, back) && NextIndex(t.m) == k
    requires Suspended(s, k) && Suspended(t, k) && t.blocks[k] == s.blocks[k] && SameStack(s, t.m.mem, k)
    ensures var u := Next(t, back);
            && Layout(u) && u.blocks[k] == s.blocks[k] && |u.m.mem| == |s.m.mem|
            && forall i :: s.blocks[k].lo <= i < s.blocks[k].hi ==> u.m.mem[i] == s.m.mem[i]
  {
    hide Next, CanTick, WellSaved, CriticalElsewhere, CriticalHere;
    TickEffect(t, back);
    var b, u := s.blocks[k], Next(t, back);
    assert Apart(b, t.blocks[Cur(t)]) && Apart(b, TaskList(t.m));
    forall i | b.lo <= i < b.hi
      ensures u.m.mem[i] == s.m.mem[i]
    {
      assert t.m.mem[b.lo..b.hi][i - b.lo] == s.m.mem[b.lo..b.hi][i - b.lo];
    }
  }

  /** Exact resumption. A task switched out by a tick and next switched in by another one continues
      with the registers, instruction pointer and stack pointer it had, on an unchanged stack. */
  lemma ResumesExactly(s: State, out: Action, run: seq<Action>, back: Action)
    requires Inv(s) && Enabled(s, out) && IsSwitch(s, out)
    requires var s' := Next(s, out);
             && IsRun(s', run) && Turns(s', run, Cur(s)) == 0
             && var t := End(s', run);
             && Layout(t) && Enabled(t, back) && IsSwitch(t, back) && NextIndex(t.m) == Cur(s)
    ensures var u := Next(End(Next(s, out), run), back);
            && Cur(u) == Cur(s)
            && Running(u.m) == Running(s.m)
            && Layout(u)
            && u.blocks[Cur(s)] == s.blocks[Cur(s)]
            && |u.m.mem| == |s.m.mem|
            && (forall i :: s.m.esp <= i < s.blocks[Cur(s)].hi ==> u.m.mem[i] == s.m.mem[i])
  {
    hide Next, CanTick, Saved, WellSaved, CriticalElsewhere;
    assert Apart(s.blocks[Cur(s)], TaskList(s.m));
    TickSwap(s, out);
    TickEffect(s, out);
    TickInv(s, out);
    SwitchBack(Next(s, out), run, back, Cur(s));
  }

  /** First entry. A created task first runs at `task_starter` with all registers zero, a dummy
      return address on top of its stack and its function as the argument above it. */
  lemma FirstEntersStarter(s: State, create: Action, run: seq<Action>, first: Action)
    requires Inv(s) && create.CreateTask? && Enabled(s, create)
    requires var s' := Next(s, create);
             && IsRun(s', run) && Turns(s', run, s.m.taskCount) == 0
             && var t := End(s', run);
             && Layout(t) && Enabled(t, first) && IsSwitch(t, first) && NextIndex(t.m) == s.m.taskCount
    ensures var u := Next(End(Next(s, create), run), first);
            && Cur(u) == s.m.taskCount
            && u.m.eip == s.m.link.taskStarter
            && u.m.regs == ZERO_REGS
            && 0 <= u.m.esp && u.m.esp + 2 <= |u.m.mem|
            && u.m.mem[u.m.esp] == 0
            && u.m.mem[u.m.esp + 1] == create.func
  {
    hide Next, CanTick, Saved, WellSaved, CriticalElsewhere, Create, Write, Inv, Enabled, IsRun, End, Turns;
    InvLayout(s);
    CreateSaves(s, create);
    CreateInv(s, create);
    NewBlock(s, create);
    SwitchBack(Next(s, create), run, first, s.m.taskCount);
  }

  lemma NewBlock(s: State, create: Action)
    requires Inv(s) && create.CreateTask? && Enabled(s, create)
    ensures var t := Next(s, create);
            |t.blocks| == s.m.taskCount + 1 && t.blocks[s.m.taskCount] == StackBlock(create.raw)
            && t.blocks[s.m.taskCount].lo + 1000 <= t.blocks[s.m.taskCount].hi
  {
  }

  /** Two tasks and two ticks: out and back, with the interrupted context intact. */
  lemma TwoTasksAlternate(s: State, a: Regs, b: Regs)
    requires Inv(s) && s.m.taskCount == 2 && s.m.critical == 0
    ensures Enabled(s, TimerTick(a))
    ensures var t := Next(s, TimerTick(a));
            && Layout(t) && Enabled(t, TimerTick(b)) && Cur(t) == 1 - Cur(s)
            && var u := Next(t, TimerTick(b));
               Cur(u) == Cur(s) && Running(u.m) == Running(s.m)
  {
    hide Next, CanTick, Saved, WellSaved, CriticalElsewhere, Tick;
    CanAlwaysTick(s, a);
    TickEffect(s, TimerTick(a));
    TickInv(s, TimerTick(a));
    var t := Next(s, TimerTick(a));
    CanAlwaysTick(t, b);
    ResumesExactly(s, TimerTick(a), [], TimerTick(b));
  }

  /** One task that creates another: the next tick outside critical sections starts it. */
  lemma CreatedTaskStarts(s: State, create: Action, a: Regs)
    requires Inv(s) && s.m.taskCount == 1 && s.m.critical == 0
    requires create.CreateTask? && Enabled(s, create)
    ensures var t := Next(s, create);
            && Layout(t) && Enabled(t, TimerTick(a))
            && var u := Next(t, TimerTick(a));
            && Cur(u) == 1 && u.m.eip == s.m.link.taskStarter
            && 0 <= u.m.esp && u.m.esp + 2 <= |u.m.mem| && u.m.mem[u.m.esp + 1] == create.func
  {
    hide Next, CanTick, Saved, WellSaved, CriticalElsewhere, Tick, Inv;
    AfterCreate(s, create);
    InvLayout(s);
    InvLayout(Next(s, create));
    CanAlwaysTick(Next(s, create), a);
    FirstEntersStarter(s, create, [], TimerTick(a));
  }

  lemma AfterCreate(s: State, create: Action)
    requires Inv(s) && create.CreateTask? && Enabled(s, create)
    ensures var t := Next(s, create);
            && Inv(t) && t.m.critical == s.m.critical
            && t.m.currentIndex == s.m.currentIndex && t.m.taskCount == s.m.taskCount + 1
  {
    CreateInv(s, create);
  }

  lemma CanAlwaysTick(s: State, scratch: Regs)
    requires Inv(s)
    ensures CanTick(s.m, scratch)
  {
    hide CanTick, Tick, Saved, WellSaved;
    if Switches(s.m) {
      TickSwitches(s, scratch);
    } else {
      TickReturns(s, scratch);
    }
  }

  // ---------- fairness ----------

  /** How a step moves the index and the number of tasks. */
  lemma IndexStep(s: State, a: Action)
    requires Inv(s) && Enabled(s, a) && !Wraps(s, a)
    ensures var t := Next(s, a);
            && Inv(t) && Layout(s) && Layout(t)
            && t.m.taskCount == s.m.taskCount + (if a.CreateTask? then 1 else 0)
            && Cur(t) == (if IsSwitch(s, a) then NextIndex(s.m) else Cur(s))
            && NextIndex(s.m) == (if Cur(s) + 1 == s.m.taskCount then 0 else Cur(s) + 1)
  {
    hide Inv, Next, Enabled;
    InvLayout(s);
    StepInv(s, a);
    InvLayout(Next(s, a));
    if a.TimerTick? {
      TickIndex(s, a);
    } else {
      IndexKept(s, a);
    }
    NextIndexIs(s.m);
  }

  lemma TickIndex(s: State, a: Action)
    requires Inv(s) && a.TimerTick? && Enabled(s, a)
    ensures var t := Next(s, a);
            && t.m.taskCount == s.m.taskCount
            && t.m.currentIndex == (if Switches(s.m) then NextIndex(s.m) else s.m.currentIndex)
  {
    hide Next;
    TickEffect(s, a);
  }

  lemma NextIndexIs(m: Machine)
    requires 0 <= m.currentIndex < m.taskCount
    ensures NextIndex(m) == if m.currentIndex + 1 == m.taskCount then 0 else m.currentIndex + 1
  {
  }

  lemma IndexKept(s: State, a: Action)
    requires Layout(s) && Enabled(s, a) && !a.TimerTick?
    ensures var t := Next(s, a);
            && t.m.taskCount == s.m.taskCount + (if a.CreateTask? then 1 else 0)
            && t.m.currentIndex == s.m.currentIndex
  {
  }

  lemma InvLayout(s: State)
    requires Inv(s)
    ensures Layout(s)
  {
  }

  /** Whether task `m` has its turn before task `k`, starting after the turn of task `c`. */
  predicate Before(c: int, m: int, k: int) {
    if c < k then c < m < k else c < m || m < k
  }

  /** Between now and the next turn of task `k`, the tasks that come before it in the rotation run
      exactly once and the others not at all. */
  lemma {:induction false} TurnsUntil(s: State, run: seq<Action>, last: Action, k: nat, m: nat)
    requires Inv(s) && IsRun(s, run) && Turns(s, run, k) == 0
    requires k < s.m.taskCount && m < s.m.taskCount && m != k
    requires var t := End(s, run);
             Layout(t) && Enabled(t, last) && IsSwitch(t, last) && NextIndex(t.m) == k
    ensures Turns(s, run, m) == if Before(Cur(s), m, k) then 1 else 0
    decreases |run|
  {
    hide Next, Inv, Enabled;
    if run == [] {
      IndexStep(s, last);
    } else {
      IndexStep(s, run[0]);
      TurnsUntil(Next(s, run[0]), run[1..], last, k, m);
    }
  }

  /** Round robin. Between two consecutive turns of a task every other task that existed at the
      first turn runs exactly once, even if tasks are created meanwhile. */
  lemma RoundRobin(s: State, run: seq<Action>, last: Action, m: nat)
    requires Inv(s) && IsRun(s, run) && Turns(s, run, Cur(s)) == 0
    requires m < s.m.taskCount && m != Cur(s)
    requires var t := End(s, run);
             Layout(t) && Enabled(t, last) && IsSwitch(t, last) && NextIndex(t.m) == Cur(s)
    ensures Turns(s, run, m) == 1
  {
    TurnsUntil(s, run, last, Cur(s), m);
  }

  /** Bounded wait. A task that is not running gets the processor before as many ticks outside
      critical sections have passed as there are tasks at the end. */
  lemma {:induction false} WaitBound(s: State, run: seq<Action>, m: nat)
    requires Inv(s) && IsRun(s, run) && Suspended(s, m) && Turns(s, run, m) == 0
    ensures var n := End(s, run).m.taskCount;
            && s.m.taskCount <= n
            && OpenTicks(s, run) < (if Cur(s) < m then m - Cur(s) else n - Cur(s) + m)
            && OpenTicks(s, run) < n
    decreases |run|
  {
    if run == [] {
      assert Layout(s);
    } else {
      hide Next, Inv, Enabled;
      IndexStep(s, run[0]);
      WaitBound(Next(s, run[0]), run[1..], m);
    }
  }

  /** After every run, `running_task` points at the entry of `current_index`. */
  lemma RunningTaskMatches(s: State, run: seq<Action>)
    requires Initial(s) && IsRun(s, run)
    ensures var m := End(s, run).m;
            0 <= m.currentIndex < m.taskCount && m.runningTask == s.m.link.taskList + m.currentIndex
  {
    InitialInv(s);
    RunInv(s, run);
    LinkKept(s, run);
  }

  lemma {:induction false} LinkKept(s: State, run: seq<Action>)
    requires Inv(s) && IsRun(s, run)
    ensures End(s, run).m.link == s.m.link
    decreases |run|
  {
    if run != [] {
      StepInv(s, run[0]);
      if run[0].TimerTick? {
        TickEffect(s, run[0]);
      }
      LinkKept(Next(s, run[0]), run[1..]);
    }
  }
}
