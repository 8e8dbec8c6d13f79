/**
 The cooperative scheduler as a machine: byte memory, the callee-saved registers and the
 scheduler's variables.  Each function is what one routine of sched.c or context_switch.asm
 does to the machine; module SchedDevice proves the imperative code against them.
 */
module Scheduler {
  import opened CTypes
  import opened Memory
  import opened Pages

  datatype Regs = Regs(rbp: U64, rbx: U64, r12: U64, r13: U64, r14: U64, r15: U64)

  /** What a routine that has just returned sees. */
  datatype Context = Context(regs: Regs, rsp: U64, pc: U64)

  const ZEROS := Regs(0, 0, 0, 0, 0, 0)

  datatype Machine = Machine(
    mem: Mem,
    regs: Regs,
    rsp: U64,
    pc: U64,
    current: U64,  // current_task
    head: U64,     // task_list_head
    tail: U64,     // task_list_tail
    end: U64,      // linker symbol, fixes the first page
    pages: nat)    // pages handed out so far

  function Below(a: U64): U64 {
    (a - 8) % WRAP
  }

  function Above(a: U64, words: nat): U64 {
    (a + 8 * words) % WRAP
  }

  function Push(m: Machine, v: U64): Machine {
    m.(rsp := Below(m.rsp), mem := Store64(m.mem, Below(m.rsp), v))
  }

  function SaveRegs(m: Machine): Machine {
    Push(Push(Push(Push(Push(Push(m, m.regs.rbp), m.regs.rbx), m.regs.r12), m.regs.r13), m.regs.r14), m.regs.r15)
  }

  /** Six pops and a return, starting at `sp`. */
  function Frame(mem: Mem, sp: U64): Context {
    Context(Regs(Load64(mem, Above(sp, 5)), Load64(mem, Above(sp, 4)), Load64(mem, Above(sp, 3)),
                 Load64(mem, Above(sp, 2)), Load64(mem, Above(sp, 1)), Load64(mem, sp)),
            Above(sp, 7), Load64(mem, Above(sp, 6)))
  }

  function Enter(m: Machine, c: Context): Machine {
    m.(regs := c.regs, rsp := c.rsp, pc := c.pc)
  }

  /** context_switch: the old stack pointer is stored before the new one is loaded. */
  function Switch(m: Machine, next: U64): Machine {
    var p := SaveRegs(m);
    var s := p.(mem := Store64(p.mem, m.current, p.rsp), current := next);
    Enter(s, Frame(s.mem, Load64(s.mem, next)))
  }

  /** Zeros pushed below `sp`, as the loop of sched_create_task stores them. */
  function PushZeros(mem: Mem, sp: U64, n: nat): Mem {
    if n == 0 then mem else Store64(PushZeros(mem, sp, n - 1), (sp - 8 * n) % WRAP, 0)
  }

  function NewTask(m: Machine): U64 {
    Page(m.end, m.pages)
  }

  function Create(m: Machine, entry: U64): Machine {
    var t, stack := Page(m.end, m.pages), Page(m.end, m.pages + 1);
    var top := (stack + 4096) % WRAP;
    var sp := Below(top);
    var framed := PushZeros(Store64(m.mem, sp, entry), sp, 6);
    m.(mem := Store64(Store64(framed, t, (sp - 48) % WRAP), t + 8, 0), pages := m.pages + 2)
  }

  function Add(m: Machine, t: U64): Machine {
    if m.head == 0 then m.(head := t, tail := t)
    else m.(mem := Store64(m.mem, m.tail + 8, t), tail := t)
  }

  /** The `next` field of the task at `t`; its `sp` field is at `t` itself. */
  function Link(mem: Mem, t: nat): U64 {
    Load64(mem, t + 8)
  }

  function Next(m: Machine): U64 {
    if m.current == 0 || Link(m.mem, m.current) == 0 then m.head else Link(m.mem, m.current)
  }

  function Yield(m: Machine): Machine {
    Switch(m, Next(m))
  }

  /** bootstrap_task, at `boot`, stands in for the code that starts the scheduler. */
  function Bootstrap(m: Machine, boot: U64): Machine {
    m.(mem := Store64(Store64(m.mem, boot + 8, m.head), boot, 0), current := boot)
  }

  function Start(m: Machine, boot: U64): Machine {
    if m.head == 0 then m else Switch(Bootstrap(m, boot), m.head)
  }

  // ---------------------------------------------------------------- frames

  lemma SameWord(m: Mem, n: Mem, a: nat)
    requires SameBytes(m, n, a, a + 8)
    ensures Load64(m, a) == Load64(n, a)
  {
    LoadDepends(m, n, a, 8);
  }

  lemma SameFrame(m: Mem, n: Mem, sp: U64)
    requires SameBytes(m, n, sp, sp + 56) && sp + 56 <= WRAP
    ensures Frame(m, sp) == Frame(n, sp)
  {
    hide Load64;
    SameWord(m, n, sp);
    SameWord(m, n, sp + 8);
    SameWord(m, n, sp + 16);
    SameWord(m, n, sp + 24);
    SameWord(m, n, sp + 32);
    SameWord(m, n, sp + 40);
    SameWord(m, n, sp + 48);
  }

  lemma PushLemma(m: Machine, v: U64)
    requires 8 <= m.rsp
    ensures var p := Push(m, v);
      && p == m.(mem := p.mem, rsp := m.rsp - 8) && Load64(p.mem, p.rsp) == v
      && (forall a: nat :: a >= m.rsp ==> Load64(p.mem, a) == Load64(m.mem, a))
      && SameOutside(p.mem, m.mem, m.rsp - 8, m.rsp)
  {
    hide Load64, Store64, SameOutside;
    LoadStore64(m.mem, m.rsp - 8, v);
    forall a: nat | a >= m.rsp ensures Load64(Push(m, v).mem, a) == Load64(m.mem, a) {
      LoadStore64Apart(m.mem, m.rsp - 8, v, a);
    }
    StoreOutside(m.mem, m.rsp - 8, v);
  }

  /** The six pushes lay out exactly what six pops and a return read back. */
  lemma SaveRegsFrame(m: Machine)
    requires 48 <= m.rsp <= WRAP - 8
    ensures var p := SaveRegs(m);
      && p == m.(mem := p.mem, rsp := m.rsp - 48)
      && Frame(p.mem, p.rsp) == Context(m.regs, Above(m.rsp, 1), Load64(m.mem, m.rsp))
      && SameOutside(p.mem, m.mem, m.rsp - 48, m.rsp)
  {
    hide Push, Load64, Store64, Frame, SameOutside;
    var p1 := Push(m, m.regs.rbp);
    PushLemma(m, m.regs.rbp);
    var p2 := Push(p1, m.regs.rbx);
    PushLemma(p1, m.regs.rbx);
    var p3 := Push(p2, m.regs.r12);
    PushLemma(p2, m.regs.r12);
    var p4 := Push(p3, m.regs.r13);
    PushLemma(p3, m.regs.r13);
    var p5 := Push(p4, m.regs.r14);
    PushLemma(p4, m.regs.r14);
    var p6 := Push(p5, m.regs.r15);
    PushLemma(p5, m.regs.r15);
    var sp := m.rsp - 48;
    FrameIs(p6.mem, sp, Context(m.regs, Above(m.rsp, 1), Load64(m.mem, m.rsp)));
    OutsideGrows(p3.mem, p2.mem, p1.mem, m.mem, m.rsp - 24, m.rsp);
    OutsideGrows(p6.mem, p5.mem, p4.mem, p3.mem, sp, m.rsp);
    OutsideGrows(p6.mem, p3.mem, m.mem, m.mem, sp, m.rsp);
  }

  /** Seven words in ascending order are the frame of a context. */
  lemma FrameIs(mem: Mem, sp: U64, c: Context)
    requires sp + 56 <= WRAP
    requires Load64(mem, sp) == c.regs.r15 && Load64(mem, sp + 8) == c.regs.r14 && Load64(mem, sp + 16) == c.regs.r13
    requires Load64(mem, sp + 24) == c.regs.r12 && Load64(mem, sp + 32) == c.regs.rbx && Load64(mem, sp + 40) == c.regs.rbp
    requires Load64(mem, sp + 48) == c.pc && Above(sp, 7) == c.rsp
    ensures Frame(mem, sp) == c
  {
    hide Load64;
  }

  lemma OutsideGrows(a: Mem, b: Mem, c: Mem, d: Mem, lo: int, hi: int)
    requires exists l, h :: lo <= l && h <= hi && SameOutside(a, b, l, h)
    requires exists l, h :: lo <= l && h <= hi && SameOutside(b, c, l, h)
    requires c == d || exists l, h :: lo <= l && h <= hi && SameOutside(c, d, l, h)
    ensures SameOutside(a, d, lo, hi)
  {
  }

  /** Where the registers are saved: downwards from the old stack pointer in the order of the pushes. */
  lemma SavedWhere(m: Machine)
    requires 48 <= m.rsp <= WRAP - 8
    ensures var s := SaveRegs(m);
      && s.rsp == m.rsp - 48
      && Load64(s.mem, m.rsp - 8) == m.regs.rbp && Load64(s.mem, m.rsp - 16) == m.regs.rbx
      && Load64(s.mem, m.rsp - 24) == m.regs.r12 && Load64(s.mem, m.rsp - 32) == m.regs.r13
      && Load64(s.mem, m.rsp - 40) == m.regs.r14 && Load64(s.mem, m.rsp - 48) == m.regs.r15
  {
    hide Load64, SaveRegs;
    SaveRegsFrame(m);
  }

  /** Pushing leaves registers and scheduler variables alone. */
  lemma PushKeepsRegs()
    ensures forall n, v :: Push(n, v) == n.(mem := Push(n, v).mem, rsp := Push(n, v).rsp)
  {
  }

  lemma SaveRegsKeeps(m: Machine)
    ensures SaveRegs(m) == m.(mem := SaveRegs(m).mem, rsp := SaveRegs(m).rsp)
  {
    hide Push;
    PushKeepsRegs();
  }

  lemma AboveAdds(sp: U64)
    ensures Above(Above(sp, 1), 1) == Above(sp, 2)
    ensures Above(Above(sp, 2), 1) == Above(sp, 3)
    ensures Above(Above(sp, 3), 1) == Above(sp, 4)
    ensures Above(Above(sp, 4), 1) == Above(sp, 5)
    ensures Above(Above(sp, 5), 1) == Above(sp, 6)
    ensures Above(Above(sp, 6), 1) == Above(sp, 7)
  {
    hide Above;
    AboveNext(sp, 1);
    AboveNext(sp, 2);
    AboveNext(sp, 3);
    AboveNext(sp, 4);
    AboveNext(sp, 5);
    AboveNext(sp, 6);
  }

  lemma AboveNext(sp: U64, k: nat)
    ensures Above(Above(sp, k), 1) == Above(sp, k + 1)
  {
    ModAdd(sp + 8 * k, 8);
  }
}
