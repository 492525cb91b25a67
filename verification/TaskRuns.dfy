/** Every run of the tasks: one instruction of the running task, or one timer tick, at a time.
    The increments and decrements of `critical` are split into their loads and stores. */
module TaskRuns {
  import opened Words
  import opened TaskSwitch

  /** The stack block of a task, in words: `lo` inclusive, `hi` exclusive. */
  datatype Block = Block(lo: nat, hi: nat)

  /** Where a task stands inside `enter_critical` (loaded) or `exit_critical` (tested, loaded). */
  datatype Phase = Free | IncLoaded | DecTested | DecLoaded

  /** The machine, and for each task its stack block, its position in a critical-section call and
      the number of critical sections it has entered and not left. */
  datatype State = State(m: Machine, blocks: seq<Block>, phase: seq<Phase>, depth: seq<nat>)

  datatype Action =
    | Run(regs: Regs, esp: Word, eip: Word, mem: seq<Word>)
    | EnterLoad(eip: Word)
    | EnterStore(eip: Word)
    | ExitTest(eip: Word)
    | ExitLoad(eip: Word)
    | ExitStore(eip: Word)
    | CreateTask(func: Word, raw: nat)
    | TimerTick(scratch: Regs)

  /** Stack room an interrupt and the switch under it need. */
  const TICK_ROOM := 22

  function Cur(s: State): int { s.m.currentIndex }

  predicate Apart(a: Block, b: Block) {
    a.hi <= b.lo || b.hi <= a.lo
  }

  function TaskList(m: Machine): Block {
    Block(m.link.taskList, m.link.taskList + MAX_TASKS)
  }

  function StackBlock(raw: nat): Block {
    Block((raw + 3) / 4, StackTop(raw))
  }

  // ---------- the saved context of a suspended task ----------

  /** The saved stack pointer of task `k`. */
  function Frame(m: Machine, k: nat): Word
    requires m.link.taskList + k < |m.mem|
  {
    m.mem[m.link.taskList + k]
  }

  predicate HasFrame(m: Machine, k: nat) {
    && m.link.taskList + k < |m.mem| <= WORD_LIMIT - 1
    && Frame(m, k) + 11 <= |m.mem|
    && (m.mem[Frame(m, k) + 8] == m.link.schedRet ==> Frame(m, k) + 22 <= |m.mem|)
  }

  /** A task interrupted by a tick has the switch's frame, the call of the switch and the interrupt
      routine's frame on its stack; a task that never ran has the hand-built frame. */
  function Saved(m: Machine, k: nat): Context
    requires HasFrame(m, k)
  {
    var f := Frame(m, k);
    if m.mem[f + 8] == m.link.schedRet
    then Context(PopalRegs(m.mem, f + 12), f + 22, m.mem[f + 21])
    else Context(PopalRegs(m.mem, f), f + 9, m.mem[f + 8])
  }

  /** The frame of task `k` lies in its block and leaves room for the next interrupt. */
  predicate WellSaved(m: Machine, b: Block, k: nat) {
    && HasFrame(m, k)
    && var f := Frame(m, k);
    && b.lo <= f
    && b.hi <= |m.mem|
    && if m.mem[f + 8] == m.link.schedRet
       then f + 22 <= b.hi
       else f + 11 <= b.hi && b.lo + 13 <= f && m.mem[f + 8] == m.link.taskStarter
  }

  // ---------- the invariant ----------

  predicate Layout(s: State) {
    && 1 <= s.m.taskCount <= MAX_TASKS
    && |s.blocks| == |s.phase| == |s.depth| == s.m.taskCount
    && 0 <= s.m.currentIndex < s.m.taskCount
    && s.m.runningTask == s.m.link.taskList + s.m.currentIndex
    && s.m.link.taskList + MAX_TASKS <= |s.m.mem| <= WORD_LIMIT - 1
    && s.m.link.taskStarter != s.m.link.schedRet
    && (forall k :: 0 <= k < |s.blocks| ==>
          s.blocks[k].lo <= s.blocks[k].hi <= |s.m.mem| && Apart(s.blocks[k], TaskList(s.m)))
    && (forall j, k :: 0 <= j < k < |s.blocks| ==> Apart(s.blocks[j], s.blocks[k]))
  }

  /** The running task has room on its own stack for one interrupt. */
  predicate Room(b: Block, esp: int) {
    b.lo + TICK_ROOM <= esp <= b.hi
  }

  /** What `critical` means for the running task. */
  predicate CriticalHere(s: State)
    requires Layout(s)
  {
    && s.m.critical == s.depth[Cur(s)]
    && match s.phase[Cur(s)] {
         case Free => true
         case IncLoaded => s.m.regs.eax == s.m.critical
         case DecTested => s.m.critical > 0
         case DecLoaded => s.m.critical > 0 && s.m.regs.eax == s.m.critical
       }
  }

  /** A task that is not running is outside every critical section; if it was stopped between the
      load and the store of an increment, the value in its saved EAX is 0. */
  predicate CriticalElsewhere(s: State, k: nat)
    requires Layout(s) && k < s.m.taskCount && HasFrame(s.m, k)
  {
    && s.depth[k] == 0
    && (s.phase[k] == Free || s.phase[k] == IncLoaded)
    && (s.phase[k] == IncLoaded ==> Saved(s.m, k).regs.eax == 0)
  }

  predicate Suspended(s: State, k: nat)
    requires Layout(s)
  {
    k < s.m.taskCount && k != Cur(s)
  }

  ghost predicate Inv(s: State) {
    && Layout(s)
    && Room(s.blocks[Cur(s)], s.m.esp)
    && CriticalHere(s)
    && (forall k: nat :: Suspended(s, k) ==>
          WellSaved(s.m, s.blocks[k], k) && CriticalElsewhere(s, k))
  }

  // ---------- the steps ----------

  /** A step may write anywhere but into `task_list` and the stacks of the other tasks. */
  ghost predicate RespectsOthers(s: State, mem: seq<Word>)
    requires Layout(s)
  {
    && |mem| == |s.m.mem|
    && mem[TaskList(s.m).lo..TaskList(s.m).hi] == s.m.mem[TaskList(s.m).lo..TaskList(s.m).hi]
    && forall k: nat, i :: Suspended(s, k) && s.blocks[k].lo <= i < s.blocks[k].hi
         ==> mem[i] == s.m.mem[i]
  }

  ghost predicate Enabled(s: State, a: Action)
    requires Layout(s)
  {
    match a {
      case Run(_, esp, _, mem) =>
        s.phase[Cur(s)].Free? && Room(s.blocks[Cur(s)], esp) && RespectsOthers(s, mem)
      case EnterLoad(_) => s.phase[Cur(s)].Free?
      case EnterStore(_) => s.phase[Cur(s)].IncLoaded?
      case ExitTest(_) => s.phase[Cur(s)].Free?
      case ExitLoad(_) => s.phase[Cur(s)].DecTested?
      case ExitStore(_) => s.phase[Cur(s)].DecLoaded?
      case CreateTask(_, raw) =>
        && s.phase[Cur(s)].Free?
        && s.m.taskCount < MAX_TASKS
        && StackTop(raw) <= |s.m.mem|
        && Apart(StackBlock(raw), TaskList(s.m))
        && forall k :: 0 <= k < |s.blocks| ==> Apart(s.blocks[k], StackBlock(raw))
      case TimerTick(scratch) => CanTick(s.m, scratch)
    }
  }

  /** `critical` is an unsigned 32-bit counter, so its increment wraps. */
  function Incremented(v: Word): Word { (v + 1) % WORD_LIMIT }

  function Decremented(v: Word): Word { (v - 1) % WORD_LIMIT }

  function Next(s: State, a: Action): State
    requires Layout(s) && Enabled(s, a)
  {
    var c := Cur(s);
    match a {
      case Run(regs, esp, eip, mem) =>
        s.(m := s.m.(regs := regs, esp := esp, eip := eip, mem := mem))
      case EnterLoad(eip) =>
        s.(m := s.m.(regs := s.m.regs.(eax := s.m.critical), eip := eip),
           phase := s.phase[c := IncLoaded])
      case EnterStore(eip) =>
        s.(m := s.m.(critical := Incremented(s.m.regs.eax), eip := eip),
           phase := s.phase[c := Free], depth := s.depth[c := s.depth[c] + 1])
      case ExitTest(eip) =>
        s.(m := s.m.(eip := eip),
           phase := s.phase[c := if s.m.critical > 0 then DecTested else Free])
      case ExitLoad(eip) =>
        s.(m := s.m.(regs := s.m.regs.(eax := s.m.critical), eip := eip),
           phase := s.phase[c := DecLoaded])
      case ExitStore(eip) =>
        s.(m := s.m.(critical := Decremented(s.m.regs.eax), eip := eip),
           phase := s.phase[c := Free],
           depth := s.depth[c := if s.depth[c] > 0 then s.depth[c] - 1 else 0])
      case CreateTask(func, raw) =>
        State(Create(s.m, func, raw), s.blocks + [StackBlock(raw)], s.phase + [Free], s.depth + [0])
      case TimerTick(scratch) => s.(m := Tick(s.m, scratch))
    }
  }

  /** The tick moves the processor to another task. */
  predicate IsSwitch(s: State, a: Action)
    requires Layout(s)
  {
    a.TimerTick? && Switches(s.m)
  }

  // ---------- one tick ----------

  /** The twenty-two words a switching tick leaves below the interrupted stack pointer. */
  function TickWords(m: Machine, scratch: Regs): (ws: seq<Word>)
    requires 22 <= m.esp && 0 < m.taskCount
    requires 0 <= m.link.taskList + NextIndex(m) < WORD_LIMIT
    ensures |ws| == 22
  {
    PushalWords(scratch, m.esp - 14) + [m.link.schedRet, m.link.taskList + NextIndex(m)] + IsrWords(m)
  }

  /** Memory when the next task's stack pointer is about to be loaded. */
  function SwitchedOut(m: Machine, scratch: Regs): (mem: seq<Word>)
    requires 22 <= m.esp <= |m.mem| && 0 < m.taskCount && m.runningTask < |m.mem|
    requires 0 <= m.link.taskList + NextIndex(m) < WORD_LIMIT
    ensures |mem| == |m.mem|
  {
    Write(m.mem, m.esp - 22, TickWords(m, scratch))[m.runningTask := m.esp - 22]
  }

  lemma TickSwitchesOut(m: Machine, scratch: Regs)
    requires 22 <= m.esp <= |m.mem| && 0 < m.taskCount && m.runningTask < |m.mem|
    requires 0 <= m.link.taskList + NextIndex(m) < WORD_LIMIT
    ensures var call := CallSwitch(IsrEntry(m), scratch);
            && CanSwitchOut(call)
            && SwitchOut(call) == call.(esp := m.esp - 22, mem := SwitchedOut(m, scratch))
  {
    hide Write, IsrWords, PushalWords;
    var call := CallSwitch(IsrEntry(m), scratch);
    var top := [m.link.schedRet, m.link.taskList + NextIndex(m)];
    WriteBelow(m.mem, m.esp - 12, IsrWords(m), top);
    WriteBelow(m.mem, m.esp - 14, top + IsrWords(m), PushalWords(scratch, m.esp - 14));
    assert PushalWords(scratch, m.esp - 14) + (top + IsrWords(m)) == TickWords(m, scratch);
  }

  lemma TickWordsAt(m: Machine, scratch: Regs)
    requires 22 <= m.esp && 0 < m.taskCount
    requires 0 <= m.link.taskList + NextIndex(m) < WORD_LIMIT
    ensures var ws := TickWords(m, scratch);
            && ws[8] == m.link.schedRet
            && ws[9] == m.link.taskList + NextIndex(m)
            && ws[21] == m.eip
            && PopalRegs(ws, 12) == m.regs
  {
    var ws, isr := TickWords(m, scratch), IsrWords(m);
    assert forall i :: 0 <= i < 12 ==> ws[10 + i] == isr[i];
    var saved := PushalWords(m.regs, m.esp - 2);
    assert forall i :: 0 <= i < 8 ==> isr[2 + i] == saved[i];
    assert PopalRegs(ws, 12) == PopalRegs(isr, 2) == PopalRegs(saved, 0);
  }

  lemma TickWordsIn(m: Machine, scratch: Regs)
    requires 22 <= m.esp <= |m.mem| && 0 < m.taskCount && m.runningTask < |m.mem|
    requires 0 <= m.link.taskList + NextIndex(m) < WORD_LIMIT
    requires m.runningTask < m.esp - 22 || m.esp <= m.runningTask
    ensures var mem := SwitchedOut(m, scratch);
            && mem[m.runningTask] == m.esp - 22
            && forall i :: 0 <= i < 22 ==> mem[m.esp - 22 + i] == TickWords(m, scratch)[i]
  {
    hide Write, TickWords;
  }

  /** The frame written by a switching tick holds the interrupted context. */
  lemma TickSaves(m: Machine, k: nat, scratch: Regs, mem: seq<Word>)
    requires 22 <= m.esp <= |m.mem| && 0 < m.taskCount && m.runningTask < |m.mem|
    requires 0 <= m.link.taskList + NextIndex(m) < WORD_LIMIT
    requires m.runningTask == m.link.taskList + k && |m.mem| <= WORD_LIMIT - 1
    requires m.runningTask < m.esp - 22 || m.esp <= m.runningTask
    requires mem == SwitchedOut(m, scratch)
    ensures var t := m.(mem := mem);
            && HasFrame(t, k) && Frame(t, k) == m.esp - 22
            && mem[m.esp - 14] == m.link.schedRet
            && mem[m.esp - 13] == m.link.taskList + NextIndex(m)
            && Saved(t, k) == Running(m)
  {
    hide Write, TickWords, IsrWords, PushalWords, SwitchedOut;
    var f, ws := m.esp - 22, TickWords(m, scratch);
    TickWordsAt(m, scratch);
    TickWordsIn(m, scratch);
    assert mem[f + 8] == ws[8] && mem[f + 9] == ws[9] && mem[f + 21] == ws[21];
    assert PopalRegs(mem, f + 12) == PopalRegs(ws, 12);
  }

  /** What is saved for a task depends only on its stack block and its `task_list` entry. */
  lemma SavedKept(m: Machine, t: Machine, b: Block, k: nat)
    requires WellSaved(m, b, k) && t.link == m.link && |t.mem| == |m.mem|
    requires t.mem[m.link.taskList + k] == m.mem[m.link.taskList + k]
    requires forall i :: b.lo <= i < b.hi ==> t.mem[i] == m.mem[i]
    ensures WellSaved(t, b, k) && Saved(t, k) == Saved(m, k)
  {
    var f := Frame(m, k);
    assert b.lo <= f + 10 < b.hi;
    if m.mem[f + 8] == m.link.schedRet {
      assert PopalRegs(t.mem, f + 12) == PopalRegs(m.mem, f + 12);
    } else {
      assert PopalRegs(t.mem, f) == PopalRegs(m.mem, f);
    }
  }

  /** After the switch out, the tick ends in the context saved for the next task. */
  lemma TickLoads(m: Machine, scratch: Regs)
    requires 22 <= m.esp <= |m.mem| <= WORD_LIMIT - 1 && m.runningTask < |m.mem|
    requires 0 < m.taskCount && 0 <= m.currentIndex && Switches(m)
    requires m.link.taskList + NextIndex(m) < |m.mem|
    requires var mem := SwitchedOut(m, scratch);
             && mem[m.esp - 13] == m.link.taskList + NextIndex(m)
             && HasFrame(m.(mem := mem), NextIndex(m))
    ensures CanTick(m, scratch)
    ensures var mem := SwitchedOut(m, scratch);
            var t := Tick(m, scratch);
            && t == m.(regs := t.regs, esp := t.esp, eip := t.eip, mem := mem,
                       currentIndex := NextIndex(m), runningTask := m.link.taskList + NextIndex(m))
            && Running(t) == Saved(m.(mem := mem), NextIndex(m))
  {
    hide Write, TickWords, IsrWords, PushalWords, SwitchOut, SwitchedOut;
    TickSwitchesOut(m, scratch);
  }

  /** A tick that switches saves the interrupted context in the old task's block, runs the next
      task from exactly what was saved for it, and touches nothing else. */
  lemma TickSwitches(s: State, scratch: Regs)
    requires Inv(s) && Switches(s.m)
    ensures CanTick(s.m, scratch)
    ensures var t := Tick(s.m, scratch); var n := NextIndex(s.m);
            && Suspended(s, n)
            && t == s.m.(regs := t.regs, esp := t.esp, eip := t.eip, mem := SwitchedOut(s.m, scratch),
                         currentIndex := n, runningTask := s.m.link.taskList + n)
            && WellSaved(t, s.blocks[Cur(s)], Cur(s))
            && Saved(t, Cur(s)) == Running(s.m)
            && Running(t) == Saved(s.m, n)
  {
    hide Write, TickWords, Tick, Saved, CanTick, HasFrame, CriticalHere, CriticalElsewhere, PopalRegs;
    var m, c, n := s.m, Cur(s), NextIndex(s.m);
    assert Apart(s.blocks[c], TaskList(m));
    assert Suspended(s, n) && WellSaved(m, s.blocks[n], n);
    assert Apart(s.blocks[n], TaskList(m)) && Apart(s.blocks[c], s.blocks[n]);
    var mem := SwitchedOut(m, scratch);
    TickSaves(m, c, scratch, mem);
    SavedKept(m, m.(mem := mem), s.blocks[n], n);
    TickLoads(m, scratch);
    SavedKept(m.(mem := mem), Tick(m, scratch), s.blocks[c], c);
  }

  /** A tick that does not switch returns to the interrupted instruction. */
  lemma TickReturns(s: State, scratch: Regs)
    requires Inv(s) && !Switches(s.m)
    ensures CanTick(s.m, scratch)
    ensures var t := Tick(s.m, scratch);
            && t == s.m.(mem := t.mem)
            && |t.mem| == |s.m.mem|
            && (forall i | 0 <= i < |t.mem| && !(s.m.esp - TICK_ROOM <= i < s.m.esp) ::
                  t.mem[i] == s.m.mem[i])
  {
  }

  // ---------- the invariant over steps and runs ----------

  /** The words of memory task `k` relies on while it is suspended: its stack block and its
      `task_list` entry. */
  ghost predicate SameStack(s: State, mem: seq<Word>, k: nat)
    requires Layout(s) && k < s.m.taskCount
  {
    && |mem| == |s.m.mem|
    && mem[s.m.link.taskList + k] == s.m.mem[s.m.link.taskList + k]
    && mem[s.blocks[k].lo..s.blocks[k].hi] == s.m.mem[s.blocks[k].lo..s.blocks[k].hi]
  }

  /** What stays true of a suspended task in any step that does not switch to it. */
  ghost predicate StillSuspended(s: State, t: State, k: nat)
    requires Layout(s) && Suspended(s, k) && HasFrame(s.m, k)
  {
    && Layout(t) && Suspended(t, k)
    && t.m.link == s.m.link
    && t.blocks[k] == s.blocks[k] && t.phase[k] == s.phase[k] && t.depth[k] == s.depth[k]
    && SameStack(s, t.m.mem, k)
    && WellSaved(t.m, t.blocks[k], k)
    && Saved(t.m, k) == Saved(s.m, k)
  }

  lemma SuspendedByMemory(s: State, t: State, k: nat)
    requires Layout(s) && Suspended(s, k) && WellSaved(s.m, s.blocks[k], k)
    requires Layout(t) && Suspended(t, k) && t.m.link == s.m.link
    requires t.blocks[k] == s.blocks[k] && t.phase[k] == s.phase[k] && t.depth[k] == s.depth[k]
    requires SameStack(s, t.m.mem, k)
    ensures StillSuspended(s, t, k)
  {
    var b := s.blocks[k];
    forall i | b.lo <= i < b.hi
      ensures t.m.mem[i] == s.m.mem[i]
    {
      assert t.m.mem[b.lo..b.hi][i - b.lo] == s.m.mem[b.lo..b.hi][i - b.lo];
    }
    SavedKept(s.m, t.m, b, k);
  }

  /** A step of the running task keeps every suspended task. */
  lemma TaskStepKeeps(s: State, a: Action, k: nat)
    requires Inv(s) && Enabled(s, a) && !a.TimerTick? && !a.CreateTask?
    requires Suspended(s, k)
    ensures StillSuspended(s, Next(s, a), k)
  {
    var t := Next(s, a);
    var tl, b := TaskList(s.m), s.blocks[k];
    if a.Run? {
      assert t.m.mem[tl.lo..tl.hi][k] == s.m.mem[tl.lo..tl.hi][k];
      assert t.m.mem[b.lo..b.hi] == s.m.mem[b.lo..b.hi];
    }
    SuspendedByMemory(s, t, k);
  }

  lemma CreateKeeps(s: State, a: Action, k: nat)
    requires Inv(s) && a.CreateTask? && Enabled(s, a) && Suspended(s, k)
    ensures Layout(Next(s, a)) && StillSuspended(s, Next(s, a), k)
  {
    hide Write, Saved, HasFrame, CriticalHere, CriticalElsewhere, SameStack;
    assert WellSaved(s.m, s.blocks[k], k);
    CreateLayout(s, a);
    CreateElsewhere(s, a, k);
    SuspendedByMemory(s, Next(s, a), k);
  }

  /** A creation writes neither the stack nor the entry of another task. */
  lemma CreateElsewhere(s: State, a: Action, k: nat)
    requires Layout(s) && a.CreateTask? && Enabled(s, a) && Suspended(s, k)
    ensures SameStack(s, Next(s, a).m.mem, k)
  {
    hide Write;
    var t, b := Next(s, a), s.blocks[k];
    assert Apart(b, StackBlock(a.raw)) && Apart(b, TaskList(s.m));
    assert t.m.mem[b.lo..b.hi] == s.m.mem[b.lo..b.hi];
  }

  lemma CreateLayout(s: State, a: Action)
    requires Inv(s) && a.CreateTask? && Enabled(s, a)
    ensures Layout(Next(s, a))
  {
  }

  /** The new task is suspended at the entry of `task_starter`. */
  lemma CreateSaves(s: State, a: Action)
    requires Inv(s) && a.CreateTask? && Enabled(s, a)
    ensures var t := Next(s, a); var n := s.m.taskCount;
            && Layout(t) && Suspended(t, n)
            && WellSaved(t.m, t.blocks[n], n)
            && Saved(t.m, n) == Context(ZERO_REGS, StackTop(a.raw) - 2, s.m.link.taskStarter)
            && t.m.mem[StackTop(a.raw) - 2] == 0
            && t.m.mem[StackTop(a.raw) - 1] == a.func
  {
    CreateLayout(s, a);
    hide Write;
    NewFrame(s.m, s.m.taskCount, a.func, a.raw);
  }

  /** The hand-built frame, read back. */
  lemma NewFrame(m: Machine, n: nat, func: Word, raw: nat)
    requires CanCreate(m, raw) && n == m.taskCount && m.link.taskStarter != m.link.schedRet
    requires Apart(StackBlock(raw), TaskList(m))
    ensures var t := Create(m, func, raw); var top := StackTop(raw);
            && t.link == m.link
            && HasFrame(t, n) && Frame(t, n) == top - 11
            && t.mem[top - 3] == m.link.taskStarter
            && t.mem[top - 2] == 0 && t.mem[top - 1] == func
            && Saved(t, n) == Context(ZERO_REGS, top - 2, m.link.taskStarter)
  {
    hide Write;
    var t, f := Create(m, func, raw), StackTop(raw) - 11;
    var ws := [0, 0, 0, 0, 0, 0, 0, 0, m.link.taskStarter, 0, func];
    assert forall i :: 0 <= i < 11 ==> t.mem[f + i] == ws[i];
    assert t.mem[f + 8] == ws[8] && t.mem[f + 9] == ws[9] && t.mem[f + 10] == ws[10];
    assert PopalRegs(t.mem, f) == PopalRegs(ws, 0);
  }

  /** The globals and the memory after a tick: it writes only the running task's stack and
      `task_list` entry. */
  lemma TickEffect(s: State, a: Action)
    requires Inv(s) && a.TimerTick? && Enabled(s, a)
    ensures var t := Next(s, a); var m := s.m;
            && t == s.(m := t.m)
            && t.m.link == m.link && |t.m.mem| == |m.mem|
            && t.m.taskCount == m.taskCount && t.m.critical == m.critical
            && t.m.currentIndex == (if Switches(m) then NextIndex(m) else m.currentIndex)
            && t.m.runningTask == m.link.taskList + t.m.currentIndex
            && Layout(t)
            && (!Switches(m) ==> Running(t.m) == Running(m))
            && (forall i | 0 <= i < |m.mem| && !(m.esp - TICK_ROOM <= i < m.esp) && i != m.runningTask ::
                  t.m.mem[i] == m.mem[i])
  {
    hide Tick, TickWords, CanTick, Write, Saved, HasFrame, WellSaved, IsrWords;
    if Switches(s.m) {
      TickSwitches(s, a.scratch);
    } else {
      TickReturns(s, a.scratch);
    }
  }

  /** A tick keeps every suspended task it does not switch to. */
  lemma TickKeeps(s: State, a: Action, k: nat)
    requires Inv(s) && a.TimerTick? && Enabled(s, a) && Suspended(s, k)
    requires !(Switches(s.m) && NextIndex(s.m) == k)
    ensures StillSuspended(s, Next(s, a), k)
  {
    hide Next, CanTick, Saved;
    TickEffect(s, a);
    var t, b := Next(s, a), s.blocks[k];
    assert Apart(b, TaskList(s.m)) && Apart(b, s.blocks[Cur(s)]) && Apart(s.blocks[Cur(s)], TaskList(s.m));
    assert t.m.mem[b.lo..b.hi] == s.m.mem[b.lo..b.hi];
    SuspendedByMemory(s, t, k);
  }

  /** Any step that does not switch to task `k` leaves it suspended, its whole stack and its saved
      context unchanged. */
  lemma StepKeepsSuspended(s: State, a: Action, k: nat)
    requires Inv(s) && Enabled(s, a) && Suspended(s, k)
    requires !(IsSwitch(s, a) && NextIndex(s.m) == k)
    ensures StillSuspended(s, Next(s, a), k)
  {
    if a.TimerTick? {
      TickKeeps(s, a, k);
    } else if a.CreateTask? {
      CreateKeeps(s, a, k);
    } else {
      TaskStepKeeps(s, a, k);
    }
  }

  lemma TaskStepInv(s: State, a: Action)
    requires Inv(s) && Enabled(s, a) && !a.TimerTick? && !a.CreateTask?
    requires a.EnterStore? ==> s.m.critical < WORD_LIMIT - 1
    ensures Inv(Next(s, a))
  {
    hide Saved, HasFrame, Create, Tick, RespectsOthers, SameStack;
    TaskStepHere(s, a);
    var t := Next(s, a);
    forall k: nat | Suspended(t, k)
      ensures WellSaved(t.m, t.blocks[k], k) && CriticalElsewhere(t, k)
    {
      assert Suspended(s, k);
      TaskStepKeeps(s, a, k);
      Frames(s, t, k);
    }
  }

  /** The running task's part of the invariant after its own step. */
  lemma TaskStepHere(s: State, a: Action)
    requires Inv(s) && Enabled(s, a) && !a.TimerTick? && !a.CreateTask?
    requires a.EnterStore? ==> s.m.critical < WORD_LIMIT - 1
    ensures var t := Next(s, a);
            Layout(t) && Cur(t) == Cur(s) && Room(t.blocks[Cur(t)], t.m.esp) && CriticalHere(t)
  {
  }

  lemma Frames(s: State, t: State, k: nat)
    requires Layout(s) && Layout(t) && Suspended(s, k) && Suspended(t, k)
    requires WellSaved(s.m, s.blocks[k], k) && StillSuspended(s, t, k)
    ensures HasFrame(s.m, k) && HasFrame(t.m, k)
    ensures CriticalElsewhere(s, k) ==> CriticalElsewhere(t, k)
  {
  }

  lemma CreateInv(s: State, a: Action)
    requires Inv(s) && a.CreateTask? && Enabled(s, a)
    ensures Inv(Next(s, a))
  {
    CreateLayout(s, a);
    var t := Next(s, a);
    forall k: nat | Suspended(t, k)
      ensures WellSaved(t.m, t.blocks[k], k) && CriticalElsewhere(t, k)
    {
      if k == s.m.taskCount {
        CreateSaves(s, a);
      } else {
        assert Suspended(s, k);
        CreateKeeps(s, a, k);
      }
    }
  }

  /** The task a tick switches to resumes from its saved context, and the task it leaves is saved. */
  lemma TickSwap(s: State, a: Action)
    requires Inv(s) && a.TimerTick? && Enabled(s, a) && Switches(s.m)
    ensures var t := Next(s, a); var c := Cur(s); var n := NextIndex(s.m);
            && Suspended(s, n) && Cur(t) == n
            && Layout(t) && Suspended(t, c)
            && WellSaved(t.m, s.blocks[c], c)
            && Saved(t.m, c) == Running(s.m)
            && Running(t.m) == Saved(s.m, n)
  {
    TickSwitches(s, a.scratch);
    TickEffect(s, a);
  }

  lemma TickInv(s: State, a: Action)
    requires Inv(s) && a.TimerTick? && Enabled(s, a)
    ensures Inv(Next(s, a))
  {
    hide Next, CanTick, Saved;
    TickEffect(s, a);
    var t := Next(s, a);
    if Switches(s.m) {
      TickSwap(s, a);
      ResumeRoom(s, NextIndex(s.m));
      assert CriticalElsewhere(s, NextIndex(s.m));
    }
    forall k: nat | Suspended(t, k)
      ensures WellSaved(t.m, t.blocks[k], k) && CriticalElsewhere(t, k)
    {
      if k != Cur(s) {
        assert Suspended(s, k);
        TickKeeps(s, a, k);
      }
    }
  }

  /** A saved context leaves room for an interrupt once it is resumed. */
  lemma ResumeRoom(s: State, k: nat)
    requires Inv(s) && Suspended(s, k)
    ensures HasFrame(s.m, k) && Room(s.blocks[k], Saved(s.m, k).esp)
  {
    assert WellSaved(s.m, s.blocks[k], k);
  }

  /** Every step keeps the invariant, the wrap of the counter excepted. */
  lemma StepInv(s: State, a: Action)
    requires Inv(s) && Enabled(s, a)
    requires a.EnterStore? ==> s.m.critical < WORD_LIMIT - 1
    ensures Inv(Next(s, a))
  {
    if a.TimerTick? {
      TickInv(s, a);
    } else if a.CreateTask? {
      CreateInv(s, a);
    } else {
      TaskStepInv(s, a);
    }
  }

  /** Exactly when the store of an increment keeps the invariant: when the counter does not wrap. */
  lemma EnterStoreExact(s: State, a: Action)
    requires Inv(s) && a.EnterStore? && Enabled(s, a)
    ensures Inv(Next(s, a)) <==> s.m.critical != WORD_LIMIT - 1
  {
    if s.m.critical < WORD_LIMIT - 1 {
      TaskStepInv(s, a);
    }
  }
}
