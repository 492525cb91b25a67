/** kernel/tasks/tasks.c and the timer interrupt routine, executed instruction by instruction on
    mutable registers and memory, against the functions of TaskSwitch. */
module Kernel {
  import opened Words
  import opened TaskSwitch

  class Cpu {
    const link: Link
    var mem: array<Word>
    var eax: Word
    var ecx: Word
    var edx: Word
    var ebx: Word
    var ebp: Word
    var esi: Word
    var edi: Word
    var esp: Word
    var eip: Word
    var currentIndex: int
    var taskCount: int
    var critical: Word
    var runningTask: Word

    constructor (link: Link, mem: array<Word>, esp: Word, eip: Word)
      ensures this.link == link && this.mem == mem
      ensures M() == Machine(link, ZERO_REGS, esp, eip, mem[..], 0, 1, 0, link.taskList)
    {
      this.link := link;
      this.mem := mem;
      eax, ecx, edx, ebx, ebp, esi, edi := 0, 0, 0, 0, 0, 0, 0;
      this.esp := esp;
      this.eip := eip;
      currentIndex, taskCount, critical, runningTask := 0, 1, 0, link.taskList;
    }

    function R(): Regs
      reads this
    {
      Regs(eax, ecx, edx, ebx, ebp, esi, edi)
    }

    function M(): Machine
      reads this, mem
    {
      Machine(link, R(), esp, eip, mem[..], currentIndex, taskCount, critical, runningTask)
    }

    // ---------- instructions ----------

    method Push(w: Word)
      requires 0 < esp <= mem.Length
      modifies this`esp, mem
      ensures esp == old(esp) - 1 && mem[..] == Write(old(mem[..]), old(esp) - 1, [w])
    {
      esp := esp - 1;
      mem[esp] := w;
    }

    method Pop() returns (w: Word)
      requires esp < mem.Length < WORD_LIMIT
      modifies this`esp
      ensures w == mem[old(esp)] && esp == old(esp) + 1
    {
      w := mem[esp];
      esp := esp + 1;
    }

    method Pushal()
      requires 8 <= esp <= mem.Length
      modifies this`esp, mem
      ensures esp == old(esp) - 8
      ensures mem[..] == Write(old(mem[..]), old(esp) - 8, PushalWords(R(), old(esp)))
      ensures mem[old(esp) - 1] == eax && mem[old(esp) - 2] == ecx && mem[old(esp) - 3] == edx
      ensures mem[old(esp) - 4] == ebx && mem[old(esp) - 5] == old(esp) && mem[old(esp) - 6] == ebp
      ensures mem[old(esp) - 7] == esi && mem[old(esp) - 8] == edi
    {
      hide Write;
      ghost var was := mem[..];
      var top := esp;
      StoreFour(top - 4, ebx, edx, ecx, eax);
      StoreFour(top - 8, edi, esi, ebp, top);
      esp := top - 8;
      WriteBelow(was, top - 4, [ebx, edx, ecx, eax], [edi, esi, ebp, top]);
      assert [edi, esi, ebp, top] + [ebx, edx, ecx, eax] == PushalWords(R(), top);
    }

    /** Four of the stores of PUSHAL, from the highest address down. */
    method StoreFour(a: nat, w0: Word, w1: Word, w2: Word, w3: Word)
      requires a + 4 <= mem.Length
      modifies mem
      ensures mem[..] == Write(old(mem[..]), a, [w0, w1, w2, w3])
    {
      hide Write;
      ghost var was := mem[..];
      mem[a + 3] := w3;
      mem[a + 2] := w2;
      mem[a + 1] := w1;
      mem[a] := w0;
      WriteIs(was, a, [w0, w1, w2, w3], mem[..]);
    }

    method Popal()
      requires esp + 8 <= mem.Length < WORD_LIMIT
      modifies this`eax, this`ecx, this`edx, this`ebx, this`ebp, this`esi, this`edi, this`esp
      ensures esp == old(esp) + 8 && R() == PopalRegs(mem[..], old(esp))
      ensures edi == mem[old(esp)] && esi == mem[old(esp) + 1] && ebp == mem[old(esp) + 2]
      ensures ebx == mem[old(esp) + 4] && edx == mem[old(esp) + 5] && ecx == mem[old(esp) + 6]
      ensures eax == mem[old(esp) + 7]
    {
      edi, esi, ebp := mem[esp], mem[esp + 1], mem[esp + 2];
      ebx, edx, ecx, eax := mem[esp + 4], mem[esp + 5], mem[esp + 6], mem[esp + 7];
      esp := esp + 8;
    }

    method Ret()
      requires esp < mem.Length < WORD_LIMIT
      modifies this`esp, this`eip
      ensures eip == mem[old(esp)] && esp == old(esp) + 1
    {
      eip := Pop();
    }

    // ---------- tasks.c ----------

    /** `context_switch`, entered with its return address and argument on top of the stack. */
    method ContextSwitch()
      requires CanSwitch(M())
      modifies this, mem
      ensures mem == old(mem)
      ensures M() == Switch(old(M()))
    {
      ghost var out := SwitchOut(M());
      SaveRunning();
      hide Write, PushalWords, SwitchOut;
      assert M() == out.(regs := R());
      LoadNext();
    }

    /** PUSHAL, then the stack pointer into the running task's entry. */
    method SaveRunning()
      requires CanSwitchOut(M())
      modifies this`eax, this`esp, mem
      ensures esp == old(esp) - 8
      ensures mem[..] == SwitchOut(old(M())).mem
    {
      hide Write, PushalWords;
      Pushal();
      eax := runningTask;
      mem[eax] := esp;
    }

    /** The next task from the argument, its stack pointer, POPAL and RET. */
    method LoadNext()
      requires esp + 9 < mem.Length && CanSwitchIn(M(), mem[esp + 9])
      modifies this
      ensures mem == old(mem)
      ensures M() == SwitchIn(old(M()), old(mem[esp + 9]))
    {
      hide Write, PushalWords, SwitchOut, PopalRegs;
      eax := mem[esp + 9];
      runningTask := eax;
      esp := mem[eax];
      Resume();
    }

    /** POPAL and RET. */
    method Resume()
      requires esp + 9 <= mem.Length < WORD_LIMIT
      modifies this`eax, this`ecx, this`edx, this`ebx, this`ebp, this`esi, this`edi, this`esp, this`eip
      ensures R() == PopalRegs(mem[..], old(esp)) && eip == mem[old(esp) + 8] && esp == old(esp) + 9
    {
      Popal();
      Ret();
    }

    /** `schedule_next_task`; when it switches, `scratch` is what the compiled code holds in the
        registers at the call. */
    method ScheduleNextTask(scratch: Regs)
      requires 2 <= esp <= mem.Length && 0 < taskCount
      requires 0 <= link.taskList + NextIndex(M()) < WORD_LIMIT
      requires Switches(M()) ==> CanSwitch(CallSwitch(M(), scratch))
      modifies this, mem
      ensures mem == old(mem)
      ensures M() == if Switches(old(M())) then Switch(CallSwitch(old(M()), scratch)) else old(M())
    {
      hide Write, Switch, CanSwitch;
      if critical > 0 {
        return;
      }
      var nextIndex := (currentIndex + 1) % taskCount;
      if nextIndex == currentIndex {
        return;
      }
      currentIndex := nextIndex;
      ghost var call := CallSwitch(old(M()), scratch);
      PassNext(link.taskList + nextIndex, scratch);
      assert M() == call;
      ContextSwitch();
    }

    /** The compiled call of `context_switch`: argument, then return address. */
    method PassNext(next: Word, scratch: Regs)
      requires 2 <= esp <= mem.Length
      modifies this`eax, this`ecx, this`edx, this`ebx, this`ebp, this`esi, this`edi, this`esp, mem
      ensures R() == scratch && esp == old(esp) - 2
      ensures mem[..] == Write(old(mem[..]), old(esp) - 2, [link.schedRet, next])
    {
      hide Write;
      ghost var was := mem[..];
      LoadScratch(scratch);
      Push(next);
      Push(link.schedRet);
      WriteBelow(was, old(esp) - 1, [next], [link.schedRet]);
      assert [link.schedRet] + [next] == [link.schedRet, next];
    }

    method LoadScratch(scratch: Regs)
      modifies this`eax, this`ecx, this`edx, this`ebx, this`ebp, this`esi, this`edi
      ensures R() == scratch
    {
      eax, ecx, edx, ebx := scratch.eax, scratch.ecx, scratch.edx, scratch.ebx;
      ebp, esi, edi := scratch.ebp, scratch.esi, scratch.edi;
    }

    /** The interrupt, its stub, and the PUSHA of the timer interrupt routine. */
    method SaveInterrupted()
      requires 10 <= esp <= mem.Length
      modifies this`esp, mem
      ensures esp == old(esp) - 10
      ensures mem[..] == Write(old(mem[..]), old(esp) - 10,
                               PushalWords(R(), old(esp) - 2) + [IRQ_ID, eip])
    {
      hide Write, PushalWords;
      var top := esp;
      ghost var was := mem[..];
      Push(eip);
      Push(IRQ_ID);
      WriteBelow(was, top - 1, [eip], [IRQ_ID]);
      assert [IRQ_ID] + [eip] == [IRQ_ID, eip];
      Pushal();
      WriteBelow(was, top - 2, [IRQ_ID, eip], PushalWords(R(), top - 2));
    }

    /** The timer interrupt routine up to the first instruction of its handler. */
    method EnterIsr()
      requires 12 <= esp <= mem.Length
      modifies this`eax, this`esp, mem
      ensures esp == old(esp) - 12
      ensures mem[..] == Write(old(mem[..]), old(esp) - 12, IsrWords(old(M())))
    {
      hide Write, PushalWords;
      var top := esp;
      ghost var was, regs := mem[..], R();
      SaveInterrupted();
      ghost var ws := PushalWords(regs, top - 2) + [IRQ_ID, eip];
      ArgumentIsId(was, top, regs, eip);
      eax := mem[esp + 8];
      Push(eax);
      WriteBelow(was, top - 10, ws, [IRQ_ID]);
      Push(link.timerRet);
      WriteBelow(was, top - 11, [IRQ_ID] + ws, [link.timerRet]);
      assert [link.timerRet] + ([IRQ_ID] + ws) == IsrWords(old(M()));
    }

    /** The argument the interrupt routine passes to its handler is the interrupt number. */
    static lemma ArgumentIsId(was: seq<Word>, top: Word, regs: Regs, ip: Word)
      requires 12 <= top <= |was|
      ensures Write(was, top - 10, PushalWords(regs, top - 2) + [IRQ_ID, ip])[top - 2] == IRQ_ID
    {
    }

    /** From the return of the handler back to the interrupted instruction. */
    method LeaveIsr()
      requires esp + 12 <= mem.Length < WORD_LIMIT
      modifies this
      ensures mem == old(mem)
      ensures M() == IsrExit(old(M()))
    {
      Ret();
      esp := esp + 1;
      Popal();
      esp := esp + 1;
      Ret();
    }

    /** One timer interrupt. */
    method TimerIsr(scratch: Regs)
      requires CanTick(M(), scratch)
      modifies this, mem
      ensures mem == old(mem)
      ensures M() == Tick(old(M()), scratch)
    {
      hide Write, Switch, IsrWords, CanSwitch, PopalRegs;
      ghost var m := M();
      EnterIsr();
      assert CallSwitch(M(), scratch) == CallSwitch(IsrEntry(m), scratch);
      var switching := critical == 0 && (currentIndex + 1) % taskCount != currentIndex;
      ScheduleNextTask(scratch);
      if !switching {
        assert IsrExit(M()) == IsrExit(IsrEntry(m));
        LeaveIsr();
      } else if eip == link.schedRet {
        esp := esp + 1;
        LeaveIsr();
      }
    }

    /** `k_create_task`, with the block `malloc` returned at byte address `raw`. */
    method KCreateTask(func: Word, raw: nat)
      requires CanCreate(M(), raw)
      modifies this`taskCount, mem
      ensures M() == Create(old(M()), func, raw)
    {
      hide Write;
      var top := (raw + 4096) / 16 * 16 / 4;
      assert 1000 < top <= mem.Length && link.taskList + taskCount < mem.Length;
      BuildFrame(top, func);
      mem[link.taskList + taskCount] := top - 11;
      taskCount := taskCount + 1;
    }

    /** The words `k_create_task` pushes on the new stack. */
    method BuildFrame(top: nat, func: Word)
      requires 11 <= top <= mem.Length
      modifies mem
      ensures mem[..] == Write(old(mem[..]), top - 11, [0, 0, 0, 0, 0, 0, 0, 0, link.taskStarter, 0, func])
    {
      hide Write;
      ghost var was := mem[..];
      mem[top - 1] := func;
      mem[top - 2] := 0;
      mem[top - 3] := link.taskStarter;
      var stack := top - 3;
      for i := 0 to 8
        invariant stack == top - 3 - i
        invariant forall j :: stack <= j < top - 3 ==> mem[j] == 0
        invariant mem[top - 1] == func && mem[top - 2] == 0 && mem[top - 3] == link.taskStarter
        invariant forall j :: 0 <= j < mem.Length && !(stack <= j < top) ==> mem[j] == was[j]
      {
        stack := stack - 1;
        mem[stack] := 0;
      }
      ghost var ws := [0, 0, 0, 0, 0, 0, 0, 0, link.taskStarter, 0, func];
      assert forall k :: 0 <= k < 11 ==> mem[top - 11 + k] == ws[k];
      WriteIs(was, top - 11, ws, mem[..]);
    }

    /** `enter_critical` run without an interruption; TaskRuns splits the load from the store. */
    method EnterCritical()
      modifies this`eax, this`critical
      ensures critical == (old(critical) + 1) % WORD_LIMIT
    {
      eax := critical;
      critical := (eax + 1) % WORD_LIMIT;
    }

    method ExitCritical()
      modifies this`eax, this`critical
      ensures critical == if old(critical) > 0 then old(critical) - 1 else 0
    {
      if critical > 0 {
        eax := critical;
        critical := (eax - 1) % WORD_LIMIT;
      }
    }
  }
}
