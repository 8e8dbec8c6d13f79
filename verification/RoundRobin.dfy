/** Fairness: between two turns of a task every other task in the cycle has exactly one. */
module RoundRobin {
  import opened CTypes
  import opened Scheduler
  import opened SchedulerRuns

  /** The tasks switched into by the yields of a run, in order. */
  function Turns(k: Kernel, es: seq<Event>): seq<U64> {
    if es == [] then []
    else Turns(k, es[..|es| - 1]) + (if es[|es| - 1].Yield? then [Run(k, es).m.current] else [])
  }

  function Resumed(log: seq<Entry>): seq<U64> {
    if log == [] then []
    else Resumed(log[..|log| - 1]) + (if log[|log| - 1].In? then [log[|log| - 1].task] else [])
  }

  lemma {:induction false} LawfulPrefix(k: Kernel, es: seq<Event>, n: nat)
    requires Lawful(k, es) && n <= |es|
    ensures Lawful(k, es[..n])
  {
    hide Enabled, Run;
    assert forall i :: 0 <= i < n ==> es[..n][..i] == es[..i];
  }

  /** One event, seen from the queue: it grows at its end, and only a yield passes the turn on. */
  lemma StepTurn(k: Kernel, i: nat, e: Event)
    requires Inv(k) && Enabled(k, e) && i < |k.queue| && k.m.current == k.queue[i]
    ensures var d := Apply(k, e);
      && Inv(d) && k.queue <= d.queue && i < |d.queue| && d.m.current != 0
      && (e.Yield? ==> d.queue == k.queue && d.m.current == k.queue[if i + 1 < |k.queue| then i + 1 else 0])
      && (!e.Yield? ==> d.m.current == k.queue[i])
  {
    QueueNonzero(k);
    ApplyKeeps(k, e);
    if e.Yield? {
      YieldKeeps(k);
      NextIsSuccessor(k, i);
    } else {
      hide Inv, Switch, NewTask;
      assert Enabled(k, e) && k.m.current != 0;
    }
  }

  lemma QueueNonzero(k: Kernel)
    requires Inv(k)
    ensures forall i :: 0 <= i < |k.queue| ==> k.queue[i] != 0
    ensures forall i, j :: 0 <= i < j < |k.queue| ==> k.queue[i] != k.queue[j]
  {
    hide Asleep, OwnContexts, Link;
  }

  lemma StepLogged(k: Kernel, e: Event)
    requires Enabled(k, e) && k.m.current != 0
    ensures Resumed(Apply(k, e).log) == Resumed(k.log) + (if e.Yield? then [Next(k.m)] else [])
  {
    hide Switch, NewTask, Next, Frame, Scheduler.Create, Scheduler.Add;
    var d := Apply(k, e);
    if e.Yield? {
      var mid := d.log[..|k.log| + 1];
      assert mid[..|k.log|] == k.log;
      assert d.log[..|d.log| - 1] == mid;
    } else if e.Create? {
      assert d.log[..|d.log| - 1] == k.log;
    }
  }

  /** The turns are what the log records as resumed. */
  lemma {:induction false} TurnsAreLogged(k: Kernel, i: nat, es: seq<Event>)
    requires Inv(k) && Lawful(k, es) && i < |k.queue| && k.m.current == k.queue[i]
    ensures Resumed(Run(k, es).log) == Resumed(k.log) + Turns(k, es)
    ensures Run(k, es).m.current in Run(k, es).queue
  {
    hide Inv, Enabled, Resumed, Apply, Next, Switch, NewTask;
    if es != [] {
      var b, e := es[..|es| - 1], es[|es| - 1];
      assert es[..|es| - 1] == b;
      LawfulPrefix(k, es, |es| - 1);
      TurnsAreLogged(k, i, b);
      RunKeeps(k, b);
      var m := Run(k, b);
      QueueNonzero(m);
      var j :| 0 <= j < |m.queue| && m.queue[j] == m.m.current;
      StepTurn(m, j, e);
      StepLogged(m, e);
      NextIsSuccessor(m, j);
    }
  }

  // ---------------------------------------------------------------- one cycle

  /** On the way to the tail: the turns so far are the tasks after i. */
  ghost predicate Outbound(q: seq<U64>, i: nat, turns: seq<U64>, current: U64) {
    i + |turns| < |q| && turns == q[i + 1..i + 1 + |turns|] && current == q[i + |turns|]
  }

  /** Round the tail when the queue was p: then come the tasks from the head. */
  ghost predicate Inbound(p: seq<U64>, q: seq<U64>, i: nat, turns: seq<U64>, current: U64) {
    && i < |p| && p <= q
    && |p| - i - 1 < |turns| <= |p| - 1
    && turns == p[i + 1..] + q[..|turns| - (|p| - i - 1)]
    && current == q[|turns| - (|p| - i - 1) - 1]
  }

  function TurnsAfter(turns: seq<U64>, e: Event, d: Kernel): seq<U64> {
    turns + (if e.Yield? then [d.m.current] else [])
  }

  /** On the way to the tail the turn passes to the successor, comes round, or (i == 0) comes back. */
  lemma OutboundStep(m: Kernel, i: nat, turns: seq<U64>, e: Event)
    requires Inv(m) && Enabled(m, e) && Outbound(m.queue, i, turns, m.m.current)
    ensures var d := Apply(m, e);
      && Inv(d) && m.queue <= d.queue
      && (|| Outbound(d.queue, i, TurnsAfter(turns, e, d), d.m.current)
          || (e.Yield? && turns == m.queue[i + 1..] && d.m.current == m.queue[0]
              && (i == 0 || Inbound(m.queue, d.queue, i, TurnsAfter(turns, e, d), d.m.current))))
  {
    hide Inv, Enabled, Apply;
    StepTurn(m, i + |turns|, e);
    var d := Apply(m, e);
    if e.Yield? {
      if i + |turns| + 1 == |m.queue| {
        assert m.queue[..1] == [m.queue[0]];
      }
    } else {
      assert TurnsAfter(turns, e, d) == turns;
    }
  }

  lemma InboundStep(m: Kernel, p: seq<U64>, i: nat, turns: seq<U64>, e: Event)
    requires Inv(m) && Enabled(m, e) && Inbound(p, m.queue, i, turns, m.m.current)
    ensures var d := Apply(m, e);
      && Inv(d) && m.queue <= d.queue
      && (|| Inbound(p, d.queue, i, TurnsAfter(turns, e, d), d.m.current)
          || (e.Yield? && d.m.current == m.queue[i] && turns == p[i + 1..] + m.queue[..i]))
  {
    hide Inv, Enabled, Apply;
    var c := |turns| - (|p| - i - 1);
    StepTurn(m, c - 1, e);
    var d := Apply(m, e);
    assert m.queue[..c] == d.queue[..c];
    if e.Yield? {
      assert m.queue[..c] + [m.queue[c]] == m.queue[..c + 1];
    } else {
      assert TurnsAfter(turns, e, d) == turns;
    }
  }

  lemma OutboundFirst(k: Kernel, i: nat)
    requires i < |k.queue| && k.m.current == k.queue[i]
    ensures Outbound(k.queue, i, [], k.m.current)
  {
  }

  /** Where a run stands that began in the turn of task i and has not come back to it. */
  lemma {:induction false} Position(k: Kernel, i: nat, es: seq<Event>) returns (w: nat)
    requires Inv(k) && Lawful(k, es) && i < |k.queue| && k.m.current == k.queue[i]
    requires k.queue[i] !in Turns(k, es)
    ensures Inv(Run(k, es)) && k.queue <= Run(k, es).queue && w <= |es|
    ensures var d := Run(k, es);
      if w == |es| then Outbound(d.queue, i, Turns(k, es), d.m.current)
      else
        && es[w].Yield? && i < |Run(k, es[..w]).queue| && Turns(k, es[..w]) == Run(k, es[..w]).queue[i + 1..]
        && Inbound(Run(k, es[..w]).queue, d.queue, i, Turns(k, es), d.m.current)
  {
    hide Inv, Enabled, Apply, Outbound, Inbound, Lawful;
    if es == [] {
      w := 0;
      OutboundFirst(k, i);
    } else {
      var b, e := es[..|es| - 1], es[|es| - 1];
      LawfulPrefix(k, es, |es| - 1);
      var v := Position(k, i, b);
      var m := Run(k, b);
      LastEnabled(k, es);
      assert Turns(k, es) == TurnsAfter(Turns(k, b), e, Apply(m, e));
      if v == |b| {
        OutboundStep(m, i, Turns(k, b), e);
        w := if Outbound(Run(k, es).queue, i, Turns(k, es), Run(k, es).m.current) then |es| else |b|;
      } else {
        w := v;
        assert es[..w] == b[..w];
        InboundStep(m, Run(k, b[..w]).queue, i, Turns(k, b), e);
      }
    }
  }

  lemma LastEnabled(k: Kernel, es: seq<Event>)
    requires Lawful(k, es) && es != []
    ensures Enabled(Run(k, es[..|es| - 1]), es[|es| - 1])
  {
  }

  /**
   From one turn of task i to its next: with q the queue at the moment the cycle wraps past
   the tail, the turns are the tasks after i in list order, then those from the head up to i.
   */
  lemma EveryOtherTaskRunsOnce(k: Kernel, i: nat, es: seq<Event>) returns (w: nat)
    requires Inv(k) && Lawful(k, es) && i < |k.queue| && k.m.current == k.queue[i]
    requires es != [] && es[|es| - 1].Yield?
    requires k.queue[i] !in Turns(k, es[..|es| - 1])
    requires Run(k, es).m.current == k.queue[i]
    ensures w < |es| && es[w].Yield?
    ensures var q := Run(k, es[..w]).queue;
      && i < |q| && q <= Run(k, es).queue
      && (forall a, b :: 0 <= a < b < |q| ==> q[a] != q[b])
      && Turns(k, es[..w]) == q[i + 1..]
      && Turns(k, es) == q[i + 1..] + q[..i + 1]
  {
    hide Inv, Enabled, Apply, Lawful;
    var b, e := es[..|es| - 1], es[|es| - 1];
    LawfulPrefix(k, es, |es| - 1);
    w := Position(k, i, b);
    var m, d := Run(k, b), Run(k, es);
    LastEnabled(k, es);
    ApplyKeeps(m, e);
    QueueNonzero(d);
    assert Turns(k, es) == TurnsAfter(Turns(k, b), e, d);
    if w == |b| {
      OutboundStep(m, i, Turns(k, b), e);
      assert es[..w] == b;
      QueueNonzero(m);
      assert m.queue[..1] == [m.queue[0]];
    } else {
      var p := Run(k, es[..w]);
      assert es[..w] == b[..w];
      InboundStep(m, p.queue, i, Turns(k, b), e);
      assert m.queue[..i] + [m.queue[i]] == m.queue[..i + 1] == p.queue[..i + 1];
      LawfulPrefix(k, es, w);
      RunKeeps(k, es[..w]);
      QueueNonzero(p);
    }
  }
}
