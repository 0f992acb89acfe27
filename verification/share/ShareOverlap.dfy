/** When a restart is right after calls that overlap. */
module ShareOverlap {
  import opened Wrappers
  import opened ShareTypes
  import opened ShareSpec
  import opened ShareTheorems
  import opened ShareInterleaving

  // ---- the exact condition ----

  /** The map that the state file stands for after a step, when it stood for `m` before. */
  ghost function PersistedStep(c: Config, th: Thread, ok: bool, m: ShareMap): ShareMap {
    if th.pc == WriteState && ok then th.shares
    else if th.pc == RestoreState && ok then Load(c, th.saved.state)
    else m
  }

  /** The map of the call that wrote or restored the state file last; `m` as long as none has. */
  ghost function LastPersisted(c: Config, sys: System, events: seq<Event>, m: ShareMap): ShareMap
    decreases |events|
  {
    if events == [] then m
    else
      var e := events[0];
      var next := if e.thread in sys.threads then PersistedStep(c, sys.threads[e.thread], e.ok, m) else m;
      LastPersisted(c, Next(c, sys, e), events[1..], next)
  }

  /** Names are keys, in memory and in every snapshot and saved share. */
  ghost predicate Keyed(sys: System) {
    && WellKeyed(sys.world.mem)
    && forall t :: t in sys.threads ==> ThreadKeyed(sys.threads[t])
  }

  ghost predicate ThreadKeyed(th: Thread) {
    && WellKeyed(th.shares)
    && (th.prev.Some? ==> th.prev.value.name == Target(th.op))
  }

  lemma StepKeyed(c: Config, w: World, th: Thread, ok: bool)
    requires WellKeyed(w.mem) && ThreadKeyed(th)
    ensures WellKeyed(Step(c, w, th, ok).0.mem) && ThreadKeyed(Step(c, w, th, ok).1)
  {
    StepWellKeyed(c, w, th, ok);
    StepLocals(c, w, th, ok);
  }

  /** A step changes the local map and the saved share only where it sets them. */
  lemma StepLocals(c: Config, w: World, th: Thread, ok: bool)
    ensures var th' := Step(c, w, th, ok).1;
            && th'.op == th.op
            && th'.shares == (if th.pc == Snapshot then w.mem else th.shares)
            && (th.pc == Begin && Refused(w.mem, th.op).None? && !th.op.Create? ==>
                  th'.prev == Some(w.mem[Target(th.op)]))
            && (th.pc != Begin || Refused(w.mem, th.op).Some? || th.op.Create? ==> th'.prev == th.prev)
  {
  }

  lemma StepPersisted(c: Config, w: World, th: Thread, ok: bool)
    requires c.codec.Lawful() && ThreadKeyed(th)
    ensures Load(c, Step(c, w, th, ok).0.disk.state) == PersistedStep(c, th, ok, Load(c, w.disk.state))
  {
    if th.pc == WriteState && ok { LoadRendered(c, th.shares); }
  }

  lemma {:induction false} StateFileIsLastPersisted(c: Config, sys: System, events: seq<Event>)
    requires c.codec.Lawful() && Keyed(sys)
    ensures Keyed(Execute(c, sys, events))
    ensures Load(c, Execute(c, sys, events).world.disk.state) ==
            LastPersisted(c, sys, events, Load(c, sys.world.disk.state))
    decreases |events|
  {
    if events == [] {
    } else {
      var e := events[0];
      if e.thread in sys.threads {
        StepKeyed(c, sys.world, sys.threads[e.thread], e.ok);
        StepPersisted(c, sys.world, sys.threads[e.thread], e.ok);
      }
      StateFileIsLastPersisted(c, Next(c, sys, e), events[1..]);
    }
  }

  /** Whatever overlaps and whatever fails, a restart restores memory exactly when memory ends as the call that
      wrote or restored the state file last had it. */
  lemma RestartAfterOverlapIff(c: Config, sys: System, events: seq<Event>)
    requires c.codec.Lawful() && InSync(c, sys.world)
    requires forall t :: t in sys.threads ==> sys.threads[t] == Call(sys.threads[t].op)
    ensures InSync(c, Execute(c, sys, events).world) <==>
            Execute(c, sys, events).world.mem == LastPersisted(c, sys, events, sys.world.mem)
  {
    StateFileIsLastPersisted(c, sys, events);
  }

  // ---- a condition that callers can enforce ----

  /** From the change of memory until the state file holds the snapshot that includes it. */
  predicate InSection(th: Thread) { 2 <= th.pc.Rank() <= 6 }

  ghost predicate Exclusive(sys: System) {
    forall t, u :: (t in sys.threads && u in sys.threads && InSection(sys.threads[t]) && InSection(sys.threads[u]))
                   ==> t == u
  }

  /** No two calls are in that section at the same time, all through the run. */
  ghost predicate ExclusiveRun(c: Config, sys: System, events: seq<Event>)
    decreases |events|
  {
    Exclusive(sys) && (events != [] ==> ExclusiveRun(c, Next(c, sys, events[0]), events[1..]))
  }

  ghost predicate Idle(sys: System) { forall t :: t in sys.threads ==> !InSection(sys.threads[t]) }

  /** No call is on an error path, a snapshot taken in the section is memory, and outside the section the state
      file stands for memory. */
  ghost predicate Tidy(sys: System, m: ShareMap) {
    && (forall t :: t in sys.threads ==>
          && (sys.threads[t].pc.Rank() <= 10 || sys.threads[t].pc.Finished?)
          && (3 <= sys.threads[t].pc.Rank() <= 6 ==> sys.threads[t].shares == sys.world.mem))
    && (Idle(sys) ==> m == sys.world.mem)
  }

  /** A successful step outside the section changes memory only by entering the section. */
  lemma StepMemory(c: Config, w: World, th: Thread)
    requires th.pc.Rank() <= 10 || th.pc.Finished?
    ensures var (w', th') := Step(c, w, th, true);
            && (th'.pc.Rank() <= 10 || th'.pc.Finished?)
            && (w'.mem != w.mem ==> InSection(th'))
            && (3 <= th'.pc.Rank() <= 6 ==>
                  w'.mem == w.mem && th'.shares == if th.pc == Snapshot then w.mem else th.shares)
            && (InSection(th') && th'.pc.Rank() >= 3 ==> InSection(th))
            && (InSection(th) && !InSection(th') ==> th.pc == WriteState && w'.mem == w.mem)
  {
  }

  lemma NextTidy(c: Config, sys: System, e: Event, m: ShareMap)
    requires Exclusive(sys) && Tidy(sys, m) && e.ok && e.thread in sys.threads
    requires Exclusive(Next(c, sys, e))
    ensures Tidy(Next(c, sys, e), PersistedStep(c, sys.threads[e.thread], true, m))
  {
    var th, sys' := sys.threads[e.thread], Next(c, sys, e);
    StepMemory(c, sys.world, th);
    var th' := sys'.threads[e.thread];
    forall t | t in sys'.threads && 3 <= sys'.threads[t].pc.Rank() <= 6
      ensures sys'.threads[t].shares == sys'.world.mem
    {
      if t != e.thread {
        assert sys'.threads[t] == sys.threads[t] && InSection(sys'.threads[t]);
        assert !InSection(th');
      }
    }
    if Idle(sys') {
      assert !InSection(th');
      if InSection(th) {
        assert th.shares == sys.world.mem;
      } else {
        forall t | t in sys.threads ensures !InSection(sys.threads[t]) {
          if t != e.thread { assert sys'.threads[t] == sys.threads[t]; }
        }
      }
    }
  }

  lemma {:induction false} ExclusiveRunTidy(c: Config, sys: System, events: seq<Event>, m: ShareMap)
    requires ExclusiveRun(c, sys, events) && Tidy(sys, m)
    requires forall e :: e in events ==> e.ok
    ensures Tidy(Execute(c, sys, events), LastPersisted(c, sys, events, m))
    decreases |events|
  {
    if events == [] {
    } else {
      var e := events[0];
      assert e in events;
      assert forall x :: x in events[1..] ==> x in events;
      if e.thread in sys.threads {
        NextTidy(c, sys, e, m);
        ExclusiveRunTidy(c, Next(c, sys, e), events[1..], PersistedStep(c, sys.threads[e.thread], true, m));
      } else {
        ExclusiveRunTidy(c, sys, events[1..], m);
      }
    }
  }

  /** Calls that succeed may overlap, as long as only one at a time is between changing memory and writing the
      state file: whenever none is, a restart restores memory. */
  lemma ExclusiveSectionsRestartSafe(c: Config, sys: System, events: seq<Event>)
    requires c.codec.Lawful() && InSync(c, sys.world)
    requires forall t :: t in sys.threads ==> sys.threads[t] == Call(sys.threads[t].op)
    requires forall e :: e in events ==> e.ok
    requires ExclusiveRun(c, sys, events) && Idle(Execute(c, sys, events))
    ensures InSync(c, Execute(c, sys, events).world)
  {
    ExclusiveRunTidy(c, sys, events, sys.world.mem);
    RestartAfterOverlapIff(c, sys, events);
  }
}
