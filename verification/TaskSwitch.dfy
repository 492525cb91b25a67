/** The context switch, the scheduler and task creation of kernel/tasks/tasks.c, with the
    timer interrupt routine around them, over a register file and a word-addressed memory. */
module TaskSwitch {
  import opened Words

  const MAX_TASKS := 6

  /** The general registers other than ESP. */
  datatype Regs = Regs(eax: Word, ecx: Word, edx: Word, ebx: Word, ebp: Word, esi: Word, edi: Word)

  const ZERO_REGS := Regs(0, 0, 0, 0, 0, 0, 0)

  /** Addresses fixed by the linker: `task_list`, the entry of `task_starter`, and the return
      addresses inside `schedule_next_task` and the timer interrupt routine. */
  datatype Link = Link(taskList: Word, taskStarter: Word, schedRet: Word, timerRet: Word)

  /** Registers, memory and the globals of tasks.c. `task_list` lies in memory, one word an entry;
      `runningTask` is a pointer into it. Addresses count words. */
  datatype Machine = Machine(
    link: Link, regs: Regs, esp: Word, eip: Word, mem: seq<Word>,
    currentIndex: int, taskCount: int, critical: Word, runningTask: Word)

  /** What a task must find again when it next runs. */
  datatype Context = Context(regs: Regs, esp: Word, eip: Word)

  function Running(m: Machine): Context {
    Context(m.regs, m.esp, m.eip)
  }

  // ---------- PUSHAD, POPAD ----------

  /** The eight words PUSHAD leaves, lowest address first. */
  function PushalWords(r: Regs, esp: Word): (ws: seq<Word>)
    ensures |ws| == 8
  {
    [r.edi, r.esi, r.ebp, esp, r.ebx, r.edx, r.ecx, r.eax]
  }

  /** The registers POPAD loads from address `a`; the stored ESP is skipped. */
  function PopalRegs(mem: seq<Word>, a: nat): Regs
    requires a + 8 <= |mem|
  {
    Regs(mem[a + 7], mem[a + 6], mem[a + 5], mem[a + 4], mem[a + 2], mem[a + 1], mem[a])
  }

  // ---------- context_switch ----------

  predicate CanSwitchOut(m: Machine) {
    8 <= m.esp && m.esp + 2 <= |m.mem| && m.runningTask < |m.mem|
  }

  /** Saves the registers on the stack and the stack pointer in the running task's entry. */
  function SwitchOut(m: Machine): (r: Machine)
    requires CanSwitchOut(m)
  {
    m.(esp := m.esp - 8,
       mem := Write(m.mem, m.esp - 8, PushalWords(m.regs, m.esp))[m.runningTask := m.esp - 8])
  }

  predicate CanSwitchIn(m: Machine, next: Word) {
    next < |m.mem| && m.mem[next] + 9 <= |m.mem| <= WORD_LIMIT - 1
  }

  /** Makes `next` the running task and restores what its saved stack pointer points at. */
  function SwitchIn(m: Machine, next: Word): (r: Machine)
    requires CanSwitchIn(m, next)
  {
    var f := m.mem[next];
    m.(runningTask := next, regs := PopalRegs(m.mem, f), eip := m.mem[f + 8], esp := f + 9)
  }

  predicate CanSwitch(m: Machine) {
    && CanSwitchOut(m)
    && var out := SwitchOut(m);
    && CanSwitchIn(out, out.mem[out.esp + 9])
  }

  /** The whole of `context_switch`, entered with the return address and the pointer to the next
      task on top of the stack. */
  function Switch(m: Machine): Machine
    requires CanSwitch(m)
  {
    var out := SwitchOut(m);
    SwitchIn(out, out.mem[out.esp + 9])
  }

  // ---------- the timer interrupt ----------

  const IRQ_ID: Word := 0x20

  /** The twelve words between the interrupted stack pointer and the call of the handler: the
      interrupted EIP, the interrupt number, the registers, the handler's argument and its return
      address. Lowest address first. */
  function IsrWords(m: Machine): (ws: seq<Word>)
    requires 12 <= m.esp
    ensures |ws| == 12
  {
    [m.link.timerRet, IRQ_ID] + PushalWords(m.regs, m.esp - 2) + [IRQ_ID, m.eip]
  }

  function IsrEntry(m: Machine): Machine
    requires 12 <= m.esp <= |m.mem|
  {
    m.(mem := Write(m.mem, m.esp - 12, IsrWords(m)), esp := m.esp - 12)
  }

  /** The way back from the handler's return address on top of the stack to the interrupted code. */
  function IsrExit(m: Machine): Machine
    requires m.esp + 12 <= |m.mem| <= WORD_LIMIT - 1
  {
    m.(regs := PopalRegs(m.mem, m.esp + 2), eip := m.mem[m.esp + 11], esp := m.esp + 12)
  }

  function NextIndex(m: Machine): int
    requires m.taskCount > 0
  {
    (m.currentIndex + 1) % m.taskCount
  }

  /** The scheduler switches only outside critical sections and only to another task. */
  predicate Switches(m: Machine)
    requires m.taskCount > 0
  {
    m.critical == 0 && NextIndex(m) != m.currentIndex
  }

  /** The stack and index as `schedule_next_task` leaves them for `context_switch`; `scratch` is
      whatever the compiled handler holds in the registers by then. */
  function CallSwitch(m: Machine, scratch: Regs): Machine
    requires 2 <= m.esp <= |m.mem| && 0 < m.taskCount
    requires 0 <= m.link.taskList + NextIndex(m) < WORD_LIMIT
  {
    m.(regs := scratch, currentIndex := NextIndex(m), esp := m.esp - 2,
       mem := Write(m.mem, m.esp - 2, [m.link.schedRet, m.link.taskList + NextIndex(m)]))
  }

  predicate CanTick(m: Machine, scratch: Regs) {
    && 22 <= m.esp <= |m.mem| <= WORD_LIMIT - 1
    && 0 < m.taskCount
    && 0 <= m.link.taskList + NextIndex(m) < WORD_LIMIT
    && (Switches(m) ==>
      && CanSwitch(CallSwitch(IsrEntry(m), scratch))
      && var r := Switch(CallSwitch(IsrEntry(m), scratch));
      && (r.eip == m.link.schedRet ==> r.esp + 13 <= |m.mem|))
  }

  /** One timer interrupt: entry, scheduler, and the return into whichever task now runs. A task
      that was itself switched out here finds the rest of the handler at `schedRet`; a new task
      finds `task_starter`. */
  function Tick(m: Machine, scratch: Regs): Machine
    requires CanTick(m, scratch)
  {
    var i := IsrEntry(m);
    if !Switches(m) then
      IsrExit(i)
    else
      var r := Switch(CallSwitch(i, scratch));
      if r.eip == m.link.schedRet then IsrExit(r.(esp := r.esp + 1)) else r
  }

  // ---------- k_create_task ----------

  /** The top of a stack carved from the block at byte address `raw`, in words. */
  function StackTop(raw: nat): nat {
    (raw + 4096) / 16 * 16 / 4
  }

  predicate CanCreate(m: Machine, raw: nat) {
    && 0 <= m.taskCount < MAX_TASKS
    && m.link.taskList + MAX_TASKS <= |m.mem| <= WORD_LIMIT - 1
    && StackTop(raw) <= |m.mem|
  }

  /** The hand-built frame: eight zero registers, the entry point, a dummy return address and the
      argument of `task_starter`. */
  function Create(m: Machine, func: Word, raw: nat): Machine
    requires CanCreate(m, raw)
  {
    var top := StackTop(raw);
    m.(mem := Write(m.mem, top - 11, [0, 0, 0, 0, 0, 0, 0, 0, m.link.taskStarter, 0, func])
              [m.link.taskList + m.taskCount := top - 11],
       taskCount := m.taskCount + 1)
  }
}
