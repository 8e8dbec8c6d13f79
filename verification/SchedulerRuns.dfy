/** Every run of the scheduler: tasks are created and added at any moment, compute, and yield. */
module SchedulerRuns {
  import opened CTypes
  import opened Memory
  import opened Pages
  import opened Scheduler

  /** What happened to the tasks: the first context made for one, and each switch out of or into one. */
  datatype Entry = Made(task: U64, ctx: Context) | Out(task: U64, ctx: Context) | In(task: U64, ctx: Context)

  datatype Kernel = Kernel(
    m: Machine,
    boot: U64,           // address of bootstrap_task
    created: set<U64>,   // tasks made by sched_create_task
    queue: seq<U64>,     // tasks added, in order
    log: seq<Entry>)

  datatype Event =
    | Create(entry: U64)
    | Add(t: U64)
    | Start
    | Yield
    | Local(mem: Mem, regs: Regs, rsp: U64, pc: U64)  // the running task computes

  /** The context its caller will see when context_switch returns to it. */
  function Now(m: Machine): Context {
    Context(m.regs, Above(m.rsp, 1), Load64(m.mem, m.rsp))
  }

  function Returned(m: Machine): Context {
    Context(m.regs, m.rsp, m.pc)
  }

  function Switched(k: Kernel, m: Machine, next: U64): Kernel {
    var d := Switch(m, next);
    k.(m := d, log := k.log + [Out(m.current, Now(m)), In(next, Returned(d))])
  }

  function Apply(k: Kernel, e: Event): Kernel {
    match e
    case Create(entry) =>
      var t := NewTask(k.m);
      k.(m := Scheduler.Create(k.m, entry), created := k.created + {t},
         log := k.log + [Made(t, Context(ZEROS, (Page(k.m.end, k.m.pages + 1) + 4096) % WRAP, entry))])
    case Add(t) => k.(m := Scheduler.Add(k.m, t), queue := k.queue + [t])
    case Start => if k.m.head == 0 then k else Switched(k, Bootstrap(k.m, k.boot), k.m.head)
    case Yield => Switched(k, k.m, Next(k.m))
    case Local(mem, regs, rsp, pc) => k.(m := k.m.(mem := mem, regs := regs, rsp := rsp, pc := pc))
  }

  function Run(k: Kernel, es: seq<Event>): Kernel {
    if es == [] then k else Apply(Run(k, es[..|es| - 1]), es[|es| - 1])
  }

  /**
   What the kernel relies on.  A computing task leaves the task structures and the other
   stacks alone; a yielding one has room on its own stack page for the six registers; the
   startup stack is no allocated page; a task is added once; memory is not used up.
   */
  ghost predicate Enabled(k: Kernel, e: Event) {
    match e
    case Create(_) => FirstPage(k.m.end) + 4096 * (k.m.pages + 2) <= WRAP
    case Add(t) => t in k.created && t !in k.queue
    case Start =>
      && k.m.current == 0 && 48 <= k.m.rsp <= WRAP - 8
      && (k.m.rsp <= FirstPage(k.m.end) || FirstPage(k.m.end) + 4096 * k.m.pages <= k.m.rsp - 48)
    case Yield => k.m.current != 0 && k.m.current + 4096 + 48 <= k.m.rsp && k.m.rsp + 8 <= k.m.current + 8192
    case Local(mem, _, _, _) =>
      forall t | t in k.created ::
        SameBytes(mem, k.m.mem, t, t + 16) && (t != k.m.current ==> SameBytes(mem, k.m.mem, t + 4096, t + 8192))
  }

  ghost predicate Lawful(k: Kernel, es: seq<Event>) {
    forall i :: 0 <= i < |es| ==> Enabled(Run(k, es[..i]), es[i])
  }

  /** After mm_init and sched_init; bootstrap_task lies in the kernel image. */
  ghost predicate Initial(k: Kernel) {
    && k.m.current == 0 && k.m.head == 0 && k.m.tail == 0 && k.m.pages == 0
    && k.boot + 16 <= k.m.end <= WRAP - 4096
    && k.created == {} && k.queue == [] && k.log == []
  }

  // ---------------------------------------------------------------- what is promised

  function LastContext(log: seq<Entry>, t: U64): Option<Context> {
    if log == [] then None
    else
      var last := log[|log| - 1];
      if !last.In? && last.task == t then Some(last.ctx) else LastContext(log[..|log| - 1], t)
  }

  /** Every task is resumed in the context of its last switch-out, or the first one made for it. */
  ghost predicate OwnContexts(log: seq<Entry>) {
    forall j :: 0 <= j < |log| && log[j].In? ==> LastContext(log[..j], log[j].task) == Some(log[j].ctx)
  }

  function LinkAfter(queue: seq<U64>, i: nat): U64
    requires i < |queue|
  {
    if i + 1 < |queue| then queue[i + 1] else 0
  }

  ghost predicate Linked(m: Machine, created: set<U64>, queue: seq<U64>) {
    && (forall i :: 0 <= i < |queue| ==> queue[i] in created)
    && (forall i, j :: 0 <= i < j < |queue| ==> queue[i] != queue[j])
    && (forall i :: 0 <= i < |queue| ==> Link(m.mem, queue[i]) == LinkAfter(queue, i))
    && (forall t :: t in created && t !in queue ==> Link(m.mem, t) == 0)
    && (if queue == [] then m.head == 0 else m.head == queue[0] && m.tail == queue[|queue| - 1])
  }

  /** Task structures and stacks are pages of their own. */
  ghost predicate Placed(m: Machine, created: set<U64>) {
    && FirstPage(m.end) + 4096 * m.pages <= WRAP
    && (forall t :: t in created ==> FirstPage(m.end) <= t && t + 8192 <= FirstPage(m.end) + 4096 * m.pages)
    && (forall t, u :: t in created && u in created && t != u ==> Apart(t, 8192, u, 8192))
  }

  /** The frame on a sleeping task's stack is the context it must be resumed in. */
  ghost predicate Asleep(mem: Mem, log: seq<Entry>, t: U64) {
    var sp := Load64(mem, t);
    t + 4096 <= sp && sp + 56 <= t + 8192 && LastContext(log, t) == Some(Frame(mem, sp))
  }

  ghost predicate Inv(k: Kernel) {
    && k.boot + 16 <= FirstPage(k.m.end)
    && Placed(k.m, k.created)
    && Linked(k.m, k.created, k.queue)
    && (k.m.current == 0 || k.m.current in k.queue)
    && (forall t :: t in k.created && t != k.m.current ==> Asleep(k.m.mem, k.log, t))
    && OwnContexts(k.log)
  }

  // ---------------------------------------------------------------- the log

  lemma EmptyLog()
    ensures OwnContexts([])
  {
  }

  lemma LogExtends(log: seq<Entry>, e: Entry)
    requires OwnContexts(log)
    requires e.In? ==> LastContext(log, e.task) == Some(e.ctx)
    ensures OwnContexts(log + [e])
    ensures forall t :: LastContext(log + [e], t) == if !e.In? && e.task == t then Some(e.ctx) else LastContext(log, t)
  {
    var l := log + [e];
    assert l[..|l| - 1] == log;
    forall j | 0 <= j < |l| && l[j].In? ensures LastContext(l[..j], l[j].task) == Some(l[j].ctx) {
      if j < |log| {
        assert l[..j] == log[..j];
      }
    }
  }

  // ---------------------------------------------------------------- what memory changes preserve

  lemma AsleepKept(mem: Mem, mem2: Mem, log: seq<Entry>, log2: seq<Entry>, t: U64)
    requires t + 8192 <= WRAP
    requires Asleep(mem, log, t) && LastContext(log2, t) == LastContext(log, t)
    requires SameBytes(mem2, mem, t, t + 8) && SameBytes(mem2, mem, t + 4096, t + 8192)
    ensures Asleep(mem2, log2, t)
  {
    hide Load64, Frame;
    SameWord(mem2, mem, t);
    SameFrame(mem2, mem, Load64(mem, t));
  }

  lemma LinkKept(mem: Mem, mem2: Mem, t: nat)
    requires SameBytes(mem2, mem, t + 8, t + 16)
    ensures Link(mem2, t) == Link(mem, t)
  {
    SameWord(mem2, mem, t + 8);
  }

  lemma LinkedKept(m: Machine, m2: Machine, created: set<U64>, queue: seq<U64>)
    requires Linked(m, created, queue)
    requires m2.head == m.head && m2.tail == m.tail
    requires forall t :: t in created ==> SameBytes(m2.mem, m.mem, t + 8, t + 16)
    ensures Linked(m2, created, queue)
  {
    hide Link, SameBytes, LinkAfter;
    forall t | t in created ensures Link(m2.mem, t) == Link(m.mem, t) {
      LinkKept(m.mem, m2.mem, t);
    }
    forall i | 0 <= i < |queue| ensures Link(m2.mem, queue[i]) == LinkAfter(queue, i) {
      assert queue[i] in created;
    }
  }

  lemma LocalKeeps(k: Kernel, e: Event)
    requires Inv(k) && Enabled(k, e) && e.Local?
    ensures Inv(Apply(k, e))
  {
    hide Load64, Linked, OwnContexts, Asleep, LastContext;
    var d := Apply(k, e);
    forall t | t in k.created ensures SameBytes(d.m.mem, k.m.mem, t + 8, t + 16) {
    }
    LinkedKept(k.m, d.m, k.created, k.queue);
    forall t | t in d.created && t != d.m.current ensures Asleep(d.m.mem, d.log, t) {
      AsleepKept(k.m.mem, d.m.mem, k.log, d.log, t);
    }
  }

  // ---------------------------------------------------------------- switching

  /** The heart of context_switch: save first, load second.  `next` may be the current task itself. */
  lemma SwitchMemory(m: Machine, next: U64)
    requires 48 <= m.rsp <= WRAP - 8
    ensures var d := Switch(m, next);
      && d == m.(mem := d.mem, regs := d.regs, rsp := d.rsp, pc := d.pc, current := next)
      && Returned(d) == Frame(d.mem, Load64(d.mem, next))
      && (forall b: nat :: Apart(b, 1, m.rsp - 48, 48) && Apart(b, 1, m.current, 8) ==> Load8(d.mem, b) == Load8(m.mem, b))
      && Load64(d.mem, m.current) == m.rsp - 48
      && (Apart(m.current, 8, m.rsp - 48, 56) ==> Frame(d.mem, m.rsp - 48) == Now(m))
  {
    hide Load64, Store64, SaveRegs, Frame;
    SaveRegsFrame(m);
    var p := SaveRegs(m);
    var mem := Store64(p.mem, m.current, p.rsp);
    StoreOutside(p.mem, m.current, p.rsp);
    LoadStore64(p.mem, m.current, p.rsp);
    if Apart(m.current, 8, m.rsp - 48, 56) {
      SameFrame(mem, p.mem, p.rsp);
    }
  }

  /** `m` is about to switch away from a created task on its own stack, or from the bootstrap task. */
  ghost predicate CanSwitch(m: Machine, boot: U64, created: set<U64>) {
    && 48 <= m.rsp <= WRAP - 8
    && boot + 16 <= FirstPage(m.end)
    && (|| (m.current in created && m.current + 4096 + 48 <= m.rsp && m.rsp + 8 <= m.current + 8192)
        || (m.current == boot
            && (m.rsp <= FirstPage(m.end) || FirstPage(m.end) + 4096 * m.pages <= m.rsp - 48)))
  }

  lemma SwitchUntouched(m: Machine, boot: U64, created: set<U64>, next: U64, t: U64)
    requires CanSwitch(m, boot, created) && Placed(m, created) && t in created
    ensures var mem := Switch(m, next).mem;
      && SameBytes(mem, m.mem, t + 8, t + 16)
      && (t != m.current ==> SameBytes(mem, m.mem, t, t + 8) && SameBytes(mem, m.mem, t + 4096, t + 8192))
  {
    hide Load64, Frame, Switch;
    SwitchMemory(m, next);
    if t != m.current && m.current in created {
      assert Apart(t, 8192, m.current, 8192);
    }
  }

  lemma SwitchSleeps(m: Machine, boot: U64, created: set<U64>, log: seq<Entry>, next: U64, t: U64)
    requires CanSwitch(m, boot, created) && Placed(m, created) && t in created
    requires OwnContexts(log)
    requires t != m.current ==> Asleep(m.mem, log, t)
    ensures Asleep(Switch(m, next).mem, log + [Out(m.current, Now(m))], t)
  {
    hide Load64, Frame, Switch, SameBytes, OwnContexts;
    var out := Out(m.current, Now(m));
    LogExtends(log, out);
    if t == m.current {
      SwitchMemory(m, next);
      assert m.current != boot;
    } else {
      SwitchUntouched(m, boot, created, next, t);
      AsleepKept(m.mem, Switch(m, next).mem, log, log + [out], t);
    }
  }

  lemma SwitchKeeps(k: Kernel, m: Machine, next: U64)
    requires CanSwitch(m, k.boot, k.created) && Placed(m, k.created) && Linked(m, k.created, k.queue)
    requires next in k.queue && OwnContexts(k.log)
    requires forall t :: t in k.created && t != m.current ==> Asleep(m.mem, k.log, t)
    ensures Inv(Switched(k, m, next)) && Switched(k, m, next).m.current == next
  {
    hide Load64, Frame, Switch, SameBytes, OwnContexts, Link, LastContext, Now;
    var d := Switch(m, next);
    var mid := k.log + [Out(m.current, Now(m))];
    SwitchMemory(m, next);
    forall t | t in k.created
      ensures SameBytes(d.mem, m.mem, t + 8, t + 16) && Asleep(d.mem, mid, t)
    {
      SwitchUntouched(m, k.boot, k.created, next, t);
      SwitchSleeps(m, k.boot, k.created, k.log, next, t);
    }
    LinkedKept(m, d, k.created, k.queue);
    LogExtends(k.log, Out(m.current, Now(m)));
    assert Asleep(d.mem, mid, next);
    LogExtends(mid, In(next, Returned(d)));
    assert k.log + [Out(m.current, Now(m)), In(next, Returned(d))] == mid + [In(next, Returned(d))];
  }

  lemma NextIsSuccessor(k: Kernel, i: nat)
    requires Inv(k) && i < |k.queue| && k.m.current == k.queue[i]
    ensures Next(k.m) == if i + 1 < |k.queue| then k.queue[i + 1] else k.queue[0]
  {
    hide Load64, Switch, Link, Asleep, OwnContexts;
    assert Link(k.m.mem, k.queue[i]) == LinkAfter(k.queue, i);
  }

  lemma YieldKeeps(k: Kernel)
    requires Inv(k) && Enabled(k, Yield)
    ensures Inv(Apply(k, Yield)) && Apply(k, Yield).m.current == Next(k.m)
  {
    hide Load64, Switch, Link, Asleep, OwnContexts;
    var i :| 0 <= i < |k.queue| && k.queue[i] == k.m.current;
    NextIsSuccessor(k, i);
    SwitchKeeps(k, k.m, Next(k.m));
  }

  /** The events are the calls: starting and yielding do to the machine what sched_start and sched_yield do. */
  lemma EventsAreCalls(k: Kernel)
    ensures Apply(k, Start).m == Scheduler.Start(k.m, k.boot) && Apply(k, Yield).m == Scheduler.Yield(k.m)
    ensures k.m.head == 0 ==> Apply(k, Start) == k
    ensures k.m.current == 0 ==> Next(k.m) == k.m.head
  {
    hide Switch, Bootstrap;
  }

  lemma BootstrapWrites(m: Machine, boot: U64)
    ensures SameOutside(Bootstrap(m, boot).mem, m.mem, boot, boot + 16)
  {
    hide Store64;
    StoreOutside(m.mem, boot + 8, m.head);
    StoreOutside(Store64(m.mem, boot + 8, m.head), boot, 0);
  }

  lemma StartKeeps(k: Kernel)
    requires Inv(k) && Enabled(k, Start)
    ensures Inv(Apply(k, Start)) && (k.m.head != 0 ==> Apply(k, Start).m.current == k.queue[0])
  {
    hide Load64, Store64, Switch, Link, OwnContexts, Asleep, LastContext;
    if k.m.head != 0 {
      var m := Bootstrap(k.m, k.boot);
      BootstrapWrites(k.m, k.boot);
      forall t | t in k.created
        ensures SameBytes(m.mem, k.m.mem, t + 8, t + 16) && Asleep(m.mem, k.log, t)
      {
        AsleepKept(k.m.mem, m.mem, k.log, k.log, t);
      }
      LinkedKept(k.m, m, k.created, k.queue);
      SwitchKeeps(k, m, m.head);
    }
  }

  lemma AddMemory(m: Machine, created: set<U64>, t: U64, u: U64)
    requires Placed(m, created) && m.tail in created && m.head != 0 && u in created
    ensures var mem := Scheduler.Add(m, t).mem;
      && Link(mem, u) == (if u == m.tail then t else Link(m.mem, u))
      && SameBytes(mem, m.mem, u, u + 8) && SameBytes(mem, m.mem, u + 4096, u + 8192)
  {
    hide Load64, Store64;
    StoreOutside(m.mem, m.tail + 8, t);
    if u == m.tail {
      LoadStore64(m.mem, m.tail + 8, t);
    } else {
      assert Apart(u, 8192, m.tail, 8192);
      LinkKept(m.mem, Scheduler.Add(m, t).mem, u);
    }
  }

  lemma AddLinks(m: Machine, m2: Machine, created: set<U64>, queue: seq<U64>, t: U64)
    requires Linked(m, created, queue) && t in created && t !in queue && 0 !in created
    requires m2.tail == t && m2.head == if queue == [] then t else m.head
    requires forall u :: u in created ==>
      Link(m2.mem, u) == if queue != [] && u == m.tail then t else Link(m.mem, u)
    ensures Linked(m2, created, queue + [t])
  {
    hide Link;
    var q := queue + [t];
    forall i | 0 <= i < |q| ensures q[i] in created && Link(m2.mem, q[i]) == LinkAfter(q, i) {
      if i < |queue| {
        assert q[i] == queue[i];
        assert queue[i] == m.tail <==> i == |queue| - 1;
      }
    }
    forall u | u in created && u !in q ensures Link(m2.mem, u) == 0 {
      assert u !in queue;
    }
  }

  lemma AddKeeps(k: Kernel, t: U64)
    requires Inv(k) && Enabled(k, Add(t))
    ensures Inv(Apply(k, Add(t)))
  {
    hide Load64, Store64, OwnContexts, Asleep, LastContext, Link, SameBytes;
    var d := Apply(k, Add(t));
    if k.queue != [] {
      assert k.m.tail in k.created && k.m.head in k.created;
      forall u | u in k.created
        ensures Link(d.m.mem, u) == (if u == k.m.tail then t else Link(k.m.mem, u))
        ensures u != k.m.current ==> Asleep(d.m.mem, k.log, u)
      {
        AddMemory(k.m, k.created, t, u);
        if u != k.m.current {
          AsleepKept(k.m.mem, d.m.mem, k.log, k.log, u);
        }
      }
    }
    AddLinks(k.m, d.m, k.created, k.queue, t);
  }

  lemma {:induction false} ZerosPushed(mem: Mem, sp: U64, n: nat)
    requires 8 * n <= sp
    ensures SameOutside(PushZeros(mem, sp, n), mem, sp - 8 * n, sp)
    ensures forall i :: 1 <= i <= n ==> Load64(PushZeros(mem, sp, n), sp - 8 * i) == 0
  {
    hide Load64, Store64;
    if n > 0 {
      ZerosPushed(mem, sp, n - 1);
      var z := PushZeros(mem, sp, n - 1);
      StoreOutside(z, sp - 8 * n, 0);
      LoadStore64(z, sp - 8 * n, 0);
      forall i | 1 <= i < n ensures Load64(PushZeros(mem, sp, n), sp - 8 * i) == 0 {
        LoadStore64Apart(z, sp - 8 * n, 0, sp - 8 * i);
      }
    }
  }

  lemma ZeroFrame(mem: Mem, sp: U64, entry: U64)
    requires sp <= WRAP - 56 && Load64(mem, sp + 48) == entry
    requires Load64(mem, sp) == Load64(mem, sp + 8) == Load64(mem, sp + 16) == 0
    requires Load64(mem, sp + 24) == Load64(mem, sp + 32) == Load64(mem, sp + 40) == 0
    ensures Frame(mem, sp) == Context(ZEROS, Above(sp, 7), entry)
  {
    hide Load64;
    assert Above(sp, 1) == sp + 8 && Above(sp, 2) == sp + 16 && Above(sp, 3) == sp + 24;
    assert Above(sp, 4) == sp + 32 && Above(sp, 5) == sp + 40 && Above(sp, 6) == sp + 48;
  }

  lemma BuiltFrame(mem: Mem, sp: U64, entry: U64)
    requires 48 <= sp <= WRAP - 8
    ensures var z := PushZeros(Store64(mem, sp, entry), sp, 6);
      && Frame(z, sp - 48) == Context(ZEROS, Above(sp, 1), entry)
      && SameOutside(z, mem, sp - 48, sp + 8)
  {
    hide Load64, Store64, PushZeros, Frame;
    var a := Store64(mem, sp, entry);
    StoreOutside(mem, sp, entry);
    LoadStore64(mem, sp, entry);
    ZerosPushed(a, sp, 6);
    var z := PushZeros(a, sp, 6);
    SameWord(z, a, sp);
    assert Load64(z, sp - 8 * 1) == Load64(z, sp - 8 * 2) == Load64(z, sp - 8 * 3) == 0;
    assert Load64(z, sp - 8 * 4) == Load64(z, sp - 8 * 5) == Load64(z, sp - 8 * 6) == 0;
    ZeroFrame(z, sp - 48, entry);
  }

  lemma TaskPages(m: Machine)
    requires FirstPage(m.end) + 4096 * (m.pages + 2) <= WRAP
    ensures NewTask(m) == FirstPage(m.end) + 4096 * m.pages && Page(m.end, m.pages + 1) == NewTask(m) + 4096
  {
    hide FirstPage;
  }

  /** The stack sched_create_task builds is one context_switch can resume, at the entry point with zeroed registers. */
  lemma CreateMemory(m: Machine, entry: U64)
    requires FirstPage(m.end) + 4096 * (m.pages + 2) <= WRAP
    ensures var t := NewTask(m); var mem := Scheduler.Create(m, entry).mem;
      && Scheduler.Create(m, entry) == m.(mem := mem, pages := m.pages + 2)
      && t == FirstPage(m.end) + 4096 * m.pages && Page(m.end, m.pages + 1) == t + 4096
      && t + 8192 <= WRAP && Load64(mem, t) == t + 8136 && Link(mem, t) == 0
      && Frame(mem, t + 8136) == Context(ZEROS, (t + 8192) % WRAP, entry)
      && SameOutside(mem, m.mem, t, t + 8192)
  {
    hide Load64, Store64, PushZeros, Frame, FirstPage, Page;
    var t := NewTask(m);
    TaskPages(m);
    var sp := t + 8184;
    var z := PushZeros(Store64(m.mem, sp, entry), sp, 6);
    BuiltFrame(m.mem, sp, entry);
    var y := Store64(z, t, sp - 48);
    StoreOutside(z, t, sp - 48);
    LoadStore64(z, t, sp - 48);
    var x := Store64(y, t + 8, 0);
    StoreOutside(y, t + 8, 0);
    LoadStore64(y, t + 8, 0);
    SameWord(x, y, t);
    SameFrame(x, z, sp - 48);
  }

  lemma CreatePlaced(k: Kernel, entry: U64)
    requires Inv(k) && Enabled(k, Create(entry))
    ensures Placed(Apply(k, Create(entry)).m, Apply(k, Create(entry)).created)
    ensures NewTask(k.m) !in k.created
    ensures forall u :: u in k.created ==> Apart(u, 8192, NewTask(k.m), 8192)
  {
    hide Scheduler.Create, Linked, OwnContexts, Asleep, Load64, Link, Frame, LastContext, SameOutside;
    CreateMemory(k.m, entry);
  }

  lemma CreateLinked(k: Kernel, entry: U64)
    requires Inv(k) && Enabled(k, Create(entry))
    ensures Linked(Apply(k, Create(entry)).m, Apply(k, Create(entry)).created, k.queue)
  {
    hide Scheduler.Create, Placed, OwnContexts, Asleep, Load64, Link, Frame, LastContext, Page, FirstPage;
    var d := Apply(k, Create(entry));
    CreateMemory(k.m, entry);
    CreatePlaced(k, entry);
    forall u | u in k.created ensures Link(d.m.mem, u) == Link(k.m.mem, u) {
      LinkKept(k.m.mem, d.m.mem, u);
    }
  }

  lemma CreateSleeps(k: Kernel, entry: U64, u: U64)
    requires Inv(k) && Enabled(k, Create(entry)) && (u == NewTask(k.m) || (u in k.created && u != k.m.current))
    ensures OwnContexts(Apply(k, Create(entry)).log)
    ensures Asleep(Apply(k, Create(entry)).m.mem, Apply(k, Create(entry)).log, u)
  {
    hide Scheduler.Create, Linked, OwnContexts, Load64, Link, Frame, LastContext, Page, FirstPage;
    var d := Apply(k, Create(entry));
    CreateMemory(k.m, entry);
    CreatePlaced(k, entry);
    var made := d.log[|k.log|];
    assert d.log == k.log + [made];
    LogExtends(k.log, made);
    if u != NewTask(k.m) {
      AsleepKept(k.m.mem, d.m.mem, k.log, d.log, u);
    }
  }

  lemma CreateKeeps(k: Kernel, entry: U64)
    requires Inv(k) && Enabled(k, Create(entry))
    ensures Inv(Apply(k, Create(entry)))
  {
    hide Scheduler.Create, Linked, Placed, OwnContexts, Asleep, Page;
    var d := Apply(k, Create(entry));
    CreateMemory(k.m, entry);
    CreatePlaced(k, entry);
    CreateLinked(k, entry);
    CreateSleeps(k, entry, NewTask(k.m));
    forall u | u in d.created && u != d.m.current ensures Asleep(d.m.mem, d.log, u) {
      CreateSleeps(k, entry, u);
    }
  }

  lemma ApplyKeeps(k: Kernel, e: Event)
    requires Inv(k) && Enabled(k, e)
    ensures Inv(Apply(k, e))
  {
    hide Inv, Apply, Enabled;
    match e
    case Create(entry) => CreateKeeps(k, entry);
    case Add(t) => AddKeeps(k, t);
    case Start => StartKeeps(k);
    case Yield => YieldKeeps(k);
    case Local(_, _, _, _) => LocalKeeps(k, e);
  }

  // ---------------------------------------------------------------- every run

  lemma {:induction false} RunKeeps(k: Kernel, es: seq<Event>)
    requires Inv(k) && Lawful(k, es)
    ensures Inv(Run(k, es))
  {
    hide Inv, Apply, Enabled;
    if es != [] {
      var before := es[..|es| - 1];
      assert forall i :: 0 <= i < |before| ==> before[..i] == es[..i];
      RunKeeps(k, before);
      ApplyKeeps(Run(k, before), es[|es| - 1]);
    }
  }

  /** Only queued tasks have been resumed. */
  ghost predicate ResumesQueued(k: Kernel) {
    forall e :: e in k.log && e.In? ==> e.task in k.queue
  }

  lemma ApplyResumesQueued(k: Kernel, e: Event)
    requires Inv(k) && Enabled(k, e) && ResumesQueued(k)
    ensures ResumesQueued(Apply(k, e))
  {
    hide Switch, Load64, Link, Asleep, OwnContexts, Frame, Now, NewTask;
    match e
    case Yield =>
      var i :| 0 <= i < |k.queue| && k.queue[i] == k.m.current;
      NextIsSuccessor(k, i);
    case Start =>
    case Create(_) =>
    case Add(_) =>
    case Local(_, _, _, _) =>
  }

  lemma {:induction false} RunResumesQueued(k: Kernel, es: seq<Event>)
    requires Inv(k) && ResumesQueued(k) && Lawful(k, es)
    ensures ResumesQueued(Run(k, es))
  {
    hide Inv, Apply, Enabled, ResumesQueued;
    if es != [] {
      var before := es[..|es| - 1];
      assert forall i :: 0 <= i < |before| ==> before[..i] == es[..i];
      RunResumesQueued(k, before);
      RunKeeps(k, before);
      ApplyResumesQueued(Run(k, before), es[|es| - 1]);
    }
  }

  lemma BootKeeps(k: Kernel, es: seq<Event>)
    ensures Run(k, es).boot == k.boot
  {
    hide Switch, Scheduler.Create, Scheduler.Add;
  }

  /**
   Over every run from boot: each task is resumed in exactly the context of its own last
   switch-out (or at its entry point with zeroed registers), the bootstrap task never is, and
   the queue is an acyclic list of the added tasks in order of addition.
   */
  lemma EveryRunIsSound(k: Kernel, es: seq<Event>)
    requires Initial(k) && Lawful(k, es)
    ensures var d := Run(k, es);
      && Inv(d)
      && OwnContexts(d.log)
      && Linked(d.m, d.created, d.queue)
      && (d.m.current == 0 || d.m.current in d.queue)
      && (forall e :: e in d.log && e.In? ==> e.task in d.queue && e.task != k.boot)
  {
    hide Load64, Asleep, LastContext, OwnContexts;
    assert OwnContexts(k.log) by { EmptyLog(); }
    assert Inv(k);
    RunKeeps(k, es);
    RunResumesQueued(k, es);
    BootKeeps(k, es);
  }
}
