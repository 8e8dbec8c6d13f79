/** sched.c and context_switch.asm, statement by statement, proved against module Scheduler. */
module SchedDevice {
  import opened CTypes
  import opened Memory
  import opened Pages
  import S = Scheduler

  class Cpu {
    const mm: PageAllocator
    const boot: U64             // address of bootstrap_task
    var mem: Mem
    var rbp: U64
    var rbx: U64
    var r12: U64
    var r13: U64
    var r14: U64
    var r15: U64
    var rsp: U64
    var rip: U64
    var currentTask: U64
    var listHead: U64
    var listTail: U64

    ghost predicate Valid()
      reads this, mm
    {
      mm.Valid()
    }

    ghost function Value(): S.Machine
      reads this, mm
    {
      S.Machine(mem, S.Regs(rbp, rbx, r12, r13, r14, r15), rsp, rip, currentTask, listHead, listTail, mm.end, mm.handed)
    }

    constructor (end: U64, boot: U64)
      ensures Valid() && fresh(mm) && this.boot == boot
      ensures Value().head == 0 && Value().current == 0 && Value().pages == 0 && Value().end == end
    {
      mm := new PageAllocator(end);
      this.boot := boot;
      mem := map[];
      rbp, rbx, r12, r13, r14, r15 := 0, 0, 0, 0, 0, 0;
      rsp, rip := 0x90000, 0;
      currentTask, listHead, listTail := 0, 0, 0;
    }

    method Push(v: U64)
      requires Valid()
      modifies this
      ensures Valid() && Value() == S.Push(old(Value()), v)
    {
      rsp := (rsp - 8) % WRAP;
      mem := Store64(mem, rsp, v);
    }

    method Pop() returns (v: U64)
      requires Valid()
      modifies `rsp
      ensures Valid() && v == Load64(mem, old(rsp)) && rsp == S.Above(old(rsp), 1)
    {
      v := Load64(mem, rsp);
      rsp := (rsp + 8) % WRAP;
    }

    method PushRegs()
      requires Valid()
      modifies this
      ensures Valid() && Value() == S.SaveRegs(old(Value()))
    {
      hide Store64, S.Push;
      Push(rbp);
      Push(rbx);
      Push(r12);
      Push(r13);
      Push(r14);
      Push(r15);
      S.PushKeepsRegs();
    }

    method PopRegsAndReturn()
      requires Valid()
      modifies `rbp, `rbx, `r12, `r13, `r14, `r15, `rsp, `rip
      ensures Valid()
      ensures S.Context(S.Regs(rbp, rbx, r12, r13, r14, r15), rsp, rip) == S.Frame(mem, old(rsp))
    {
      hide Load64, S.Above;
      ghost var sp := rsp;
      S.AboveAdds(sp);
      r15 := Pop();
      r14 := Pop();
      assert rsp == S.Above(sp, 2);
      r13 := Pop();
      r12 := Pop();
      assert rsp == S.Above(sp, 4);
      rbx := Pop();
      rbp := Pop();
      assert rsp == S.Above(sp, 6);
      rip := Pop();
    }

    method ContextSwitch(next: U64)
      requires Valid()
      modifies this
      ensures Valid() && Value() == S.Switch(old(Value()), next)
    {
      hide Load64, Store64, S.SaveRegs, S.Frame;
      PushRegs();
      mem := Store64(mem, currentTask, rsp);
      currentTask := next;
      rsp := Load64(mem, next);
      PopRegsAndReturn();
      S.SaveRegsKeeps(old(Value()));
    }

    /** The loop that clears six words below the entry address. */
    method PushZeroRegs(from: U64) returns (sp: U64)
      requires Valid()
      modifies this
      ensures Valid() && sp == (from - 48) % WRAP
      ensures Value() == old(Value()).(mem := S.PushZeros(old(mem), from, 6))
    {
      hide Store64;
      sp := from;
      for i := 0 to 6
        invariant Valid() && sp == (from - 8 * i) % WRAP
        invariant Value() == old(Value()).(mem := S.PushZeros(old(mem), from, i))
      {
        ModAdd(from - 8 * i, -8);
        sp := (sp - 8) % WRAP;
        mem := Store64(mem, sp, 0);
      }
    }

    method CreateTask(entry: U64) returns (t: U64)
      requires Valid()
      modifies this, mm
      ensures Valid() && t == S.NewTask(old(Value())) && Value() == S.Create(old(Value()), entry)
    {
      hide Load64, Store64, S.PushZeros, Page;
      t := mm.Alloc();
      var stack := mm.Alloc();
      var sp: int := (stack as int + 4096) % WRAP;
      sp := (sp - 8) % WRAP;
      mem := Store64(mem, sp, entry);
      sp := PushZeroRegs(sp);
      mem := Store64(mem, t, sp);
      mem := Store64(mem, t + 8, 0);
    }

    method AddTask(t: U64)
      requires Valid()
      modifies this
      ensures Valid() && Value() == S.Add(old(Value()), t)
    {
      if listHead == 0 {
        listHead := t;
        listTail := t;
      } else {
        mem := Store64(mem, listTail + 8, t);
        listTail := t;
      }
    }

    method Yield()
      requires Valid()
      modifies this
      ensures Valid() && Value() == S.Yield(old(Value()))
    {
      hide Load64, S.Switch;
      var next;
      if currentTask == 0 || Load64(mem, currentTask + 8) == 0 {
        next := listHead;
      } else {
        next := Load64(mem, currentTask + 8);
      }
      ContextSwitch(next);
    }

    method Start()
      requires Valid()
      modifies this
      ensures Valid() && Value() == S.Start(old(Value()), boot)
    {
      hide Load64, Store64, S.Switch;
      if listHead == 0 {
        return;
      }
      mem := Store64(mem, boot + 8, listHead);
      mem := Store64(mem, boot, 0);
      currentTask := boot;
      ContextSwitch(listHead);
    }
  }
}
