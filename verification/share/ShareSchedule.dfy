/** Which schedules of successful calls a restart survives. */
module ShareSchedule {
  import opened Wrappers
  import opened ShareTypes
  import opened ShareSpec
  import opened ShareTheorems
  import opened ShareInterleaving
  import opened ShareOverlap

  /** What a schedule says about memory: the calls since whose snapshot no step has changed it, and whether none has
      since the snapshot of the call that wrote the state file last (since the start, when none has written it). */
  datatype Track = Track(current: set<nat>, file: bool)

  ghost predicate Changes(c: Config, sys: System, e: Event) { Next(c, sys, e).world.mem != sys.world.mem }

  ghost function TrackStep(c: Config, sys: System, e: Event, k: Track): Track
    requires e.thread in sys.threads
  {
    var pc := sys.threads[e.thread].pc;
    Track(if Changes(c, sys, e) then {} else if pc == Snapshot then k.current + {e.thread} else k.current,
          if pc == WriteState then e.thread in k.current else k.file && !Changes(c, sys, e))
  }

  ghost predicate UnchangedSinceSnapshot(c: Config, sys: System, events: seq<Event>, k: Track)
    decreases |events|
  {
    if events == [] then k.file
    else
      var e := events[0];
      var next := if e.thread in sys.threads then TrackStep(c, sys, e, k) else k;
      UnchangedSinceSnapshot(c, Next(c, sys, e), events[1..], next)
  }

  /** No two calls are about the same share. */
  ghost predicate DistinctTargets(sys: System) {
    forall t, u :: (t in sys.threads && u in sys.threads && Target(sys.threads[t].op) == Target(sys.threads[u].op))
                   ==> t == u
  }

  // ---- memory never returns to an earlier value ----

  function At(m: ShareMap, name: string): Option<Share> { if name in m then Some(m[name]) else None }

  /** No call is going to change the share of that name any more. */
  ghost predicate Settled(sys: System, name: string) {
    forall t :: t in sys.threads && Target(sys.threads[t].op) == name ==> sys.threads[t].pc.Rank() >= 2
  }

  /** A map that memory held once: it still does, or it differs for good. */
  ghost predicate NowOrNever(sys: System, m: ShareMap) {
    m == sys.world.mem || exists name :: Settled(sys, name) && At(m, name) != At(sys.world.mem, name)
  }

  /** No call is on an error path. */
  predicate Fine(th: Thread) { th.pc.Rank() <= 10 || th.pc.Finished? }

  /** A successful step changes memory once per call, and only the call's own share. */
  lemma StepChanges(c: Config, w: World, th: Thread)
    requires Fine(th)
    ensures var (w', th') := Step(c, w, th, true);
            && Fine(th') && th'.op == th.op && th'.pc.Rank() >= th.pc.Rank()
            && (w'.mem != w.mem ==> th.pc.Rank() <= 1 && th'.pc.Rank() == 2)
            && (w'.mem != w.mem ==> At(w'.mem, Target(th.op)) != At(w.mem, Target(th.op)))
            && forall name :: name != Target(th.op) ==> At(w'.mem, name) == At(w.mem, name)
  {
    var (w', th') := Step(c, w, th, true);
    if w'.mem != w.mem {
      assert w'.mem == Intended(w.mem, th.op);
      IntendedChanges(w.mem, th.op);
    }
  }

  lemma IntendedChanges(m: ShareMap, op: Op)
    ensures Intended(m, op) != m ==> At(Intended(m, op), Target(op)) != At(m, Target(op))
    ensures forall name :: name != Target(op) ==> At(Intended(m, op), name) == At(m, name)
  {
    if At(Intended(m, op), Target(op)) == At(m, Target(op)) {
      assert Intended(m, op).Keys == m.Keys;
      assert Intended(m, op) == m;
    }
  }

  lemma StaysNowOrNever(c: Config, sys: System, e: Event, m: ShareMap)
    requires e.ok && e.thread in sys.threads && Fine(sys.threads[e.thread])
    requires DistinctTargets(sys) && NowOrNever(sys, m)
    ensures NowOrNever(Next(c, sys, e), m)
    ensures m == Next(c, sys, e).world.mem <==> m == sys.world.mem && !Changes(c, sys, e)
  {
    var sys' := Next(c, sys, e);
    var name := Target(sys.threads[e.thread].op);
    StepChanges(c, sys.world, sys.threads[e.thread]);
    if m != sys.world.mem {
      var other :| Settled(sys, other) && At(m, other) != At(sys.world.mem, other);
      assert Settled(sys', other);
      if Changes(c, sys, e) { assert other != name; }
      assert At(sys'.world.mem, other) == At(sys.world.mem, other);
    } else if Changes(c, sys, e) {
      assert Settled(sys', name);
      assert At(m, name) != At(sys'.world.mem, name);
    }
  }

  // ---- the theorem ----

  /** The track is right about the state file, which stands for `m`, and about the snapshots still to be written. */
  ghost predicate Right(sys: System, k: Track, m: ShareMap) {
    && NowOrNever(sys, m) && (k.file <==> m == sys.world.mem)
    && forall t :: t in sys.threads && 3 <= sys.threads[t].pc.Rank() <= 6 ==>
         NowOrNever(sys, sys.threads[t].shares) && (t in k.current <==> sys.threads[t].shares == sys.world.mem)
  }

  ghost predicate AllFine(sys: System) { forall t :: t in sys.threads ==> Fine(sys.threads[t]) }

  lemma SnapshotKept(c: Config, w: World, th: Thread)
    requires Fine(th)
    ensures var (w', th') := Step(c, w, th, true);
            3 <= th'.pc.Rank() <= 6 ==>
              w'.mem == w.mem
              && if th.pc == Snapshot then th'.shares == w.mem
                 else 3 <= th.pc.Rank() <= 6 && th'.shares == th.shares
  {
  }

  lemma StepRight(c: Config, sys: System, e: Event, k: Track, m: ShareMap)
    requires DistinctTargets(sys) && AllFine(sys) && Right(sys, k, m)
    requires e.ok && e.thread in sys.threads
    ensures DistinctTargets(Next(c, sys, e)) && AllFine(Next(c, sys, e))
    ensures Right(Next(c, sys, e), TrackStep(c, sys, e, k), PersistedStep(c, sys.threads[e.thread], true, m))
  {
    var sys', th := Next(c, sys, e), sys.threads[e.thread];
    var k', m' := TrackStep(c, sys, e, k), PersistedStep(c, th, true, m);
    StepChanges(c, sys.world, th);
    SnapshotKept(c, sys.world, th);
    if th.pc == WriteState {
      StaysNowOrNever(c, sys, e, th.shares);
    } else {
      StaysNowOrNever(c, sys, e, m);
    }
    forall t | t in sys'.threads && 3 <= sys'.threads[t].pc.Rank() <= 6
      ensures NowOrNever(sys', sys'.threads[t].shares)
      ensures t in k'.current <==> sys'.threads[t].shares == sys'.world.mem
    {
      if t == e.thread && th.pc == Snapshot {
      } else {
        StaysNowOrNever(c, sys, e, sys.threads[t].shares);
      }
    }
  }

  lemma {:induction false} ScheduleRight(c: Config, sys: System, events: seq<Event>, k: Track, m: ShareMap)
    requires DistinctTargets(sys) && AllFine(sys) && Right(sys, k, m)
    requires forall e :: e in events ==> e.ok
    ensures UnchangedSinceSnapshot(c, sys, events, k) <==>
            Execute(c, sys, events).world.mem == LastPersisted(c, sys, events, m)
    decreases |events|
  {
    if events == [] {
    } else {
      var e := events[0];
      assert e in events && forall x :: x in events[1..] ==> x in events;
      if e.thread in sys.threads {
        StepRight(c, sys, e, k, m);
        ScheduleRight(c, Next(c, sys, e), events[1..], TrackStep(c, sys, e, k),
                      PersistedStep(c, sys.threads[e.thread], true, m));
      } else {
        ScheduleRight(c, sys, events[1..], k, m);
      }
    }
  }

  /** Successful calls about different shares, overlapping in any way: a restart restores memory exactly when no step
      changes memory after the snapshot of the call that writes the state file last. */
  lemma RestartAfterScheduleIff(c: Config, sys: System, events: seq<Event>)
    requires c.codec.Lawful() && InSync(c, sys.world)
    requires forall t :: t in sys.threads ==> sys.threads[t] == Call(sys.threads[t].op)
    requires DistinctTargets(sys) && forall e :: e in events ==> e.ok
    ensures InSync(c, Execute(c, sys, events).world) <==>
            UnchangedSinceSnapshot(c, sys, events, Track({}, true))
  {
    ScheduleRight(c, sys, events, Track({}, true), sys.world.mem);
    RestartAfterOverlapIff(c, sys, events);
  }
}
