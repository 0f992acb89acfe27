/** Concurrent share operations. The manager holds no lock across mutation, reload and rollback, so calls
    interleave: a step is one critical section on the map, one file access, one command or one restore. */
module ShareInterleaving {
  import opened Wrappers
  import opened ShareTypes
  import opened ShareSpec
  import opened ShareTheorems

  datatype PC =
    | Begin | Mutate | Snapshot
    | ReadState | ReadSamba | ReadNfs
    | WriteState | WriteSamba | WriteNfs
    | RunSmbcontrol | RunExportfs
    | RestoreState | RestoreSamba | RestoreNfs
    | Rollback
    | Finished(answer: Reply)
  {
    /** Every step moves a call forward. */
    function Rank(): nat {
      match this
      case Begin => 0 case Mutate => 1 case Snapshot => 2
      case ReadState => 3 case ReadSamba => 4 case ReadNfs => 5
      case WriteState => 6 case WriteSamba => 7 case WriteNfs => 8
      case RunSmbcontrol => 9 case RunExportfs => 10
      case RestoreState => 11 case RestoreSamba => 12 case RestoreNfs => 13
      case Rollback => 14
      case Finished(_) => 15
    }
  }

  /** One call and its local variables. */
  datatype Thread = Thread(pc: PC, op: Op, prev: Option<Share>, shares: ShareMap, saved: Disk)

  function Call(op: Op): Thread { Thread(Begin, op, None, map[], Disk(None, None, None)) }

  datatype System = System(world: World, threads: map<nat, Thread>)

  function Target(op: Op): string { if op.Delete? then op.name else op.share.name }

  // ---- one step ----

  /** Validation and the first critical section on the map. */
  ghost function BeginStep(w: World, th: Thread): (World, Thread) {
    var refused := Refused(w.mem, th.op);
    if refused.Some? then (w, th.(pc := Finished(Failed(refused.value))))
    else if th.op.Create? then (w.(mem := Intended(w.mem, th.op)), th.(pc := Snapshot))
    else (w, th.(pc := Mutate, prev := Some(w.mem[Target(th.op)])))
  }

  /** Update and Delete find the share again, which may be gone by now. */
  ghost function MutateStep(w: World, th: Thread): (World, Thread) {
    if Target(th.op) !in w.mem then (w, th.(pc := Finished(Failed(NotFound))))
    else (w.(mem := Intended(w.mem, th.op)), th.(pc := Snapshot))
  }

  ghost function WriteStep(c: Config, w: World, th: Thread, ok: bool): (World, Thread)
    requires th.pc in {WriteState, WriteSamba, WriteNfs}
  {
    var r := Rendered(c, th.shares);
    if !ok then (w, th.(pc := Rollback))
    else match th.pc
      case WriteState => (w.(disk := w.disk.(state := r.state)), th.(pc := WriteSamba))
      case WriteSamba => (w.(disk := w.disk.(samba := r.samba)), th.(pc := WriteNfs))
      case WriteNfs => (w.(disk := w.disk.(nfs := r.nfs)), th.(pc := RunSmbcontrol))
  }

  ghost function CommandStep(c: Config, w: World, th: Thread, ok: bool): (World, Thread)
    requires th.pc in {RunSmbcontrol, RunExportfs}
  {
    if th.pc == RunSmbcontrol then
      if !Signalled(c, th.saved, th.shares, Samba) then (w, th.(pc := RunExportfs))
      else if ok then (w.(smbd := w.disk.samba), th.(pc := RunExportfs))
      else (w, th.(pc := RestoreState))
    else
      if !Signalled(c, th.saved, th.shares, Nfs) then (w, th.(pc := Finished(Nil)))
      else if ok then (w.(nfsd := w.disk.nfs), th.(pc := Finished(Nil)))
      else (w, th.(pc := RestoreState))
  }

  /** A failed restore is only logged. */
  ghost function RestoreStep(w: World, th: Thread, ok: bool): (World, Thread)
    requires th.pc in {RestoreState, RestoreSamba, RestoreNfs}
  {
    match th.pc
    case RestoreState => (if ok then w.(disk := w.disk.(state := th.saved.state)) else w, th.(pc := RestoreSamba))
    case RestoreSamba => (if ok then w.(disk := w.disk.(samba := th.saved.samba)) else w, th.(pc := RestoreNfs))
    case RestoreNfs => (if ok then w.(disk := w.disk.(nfs := th.saved.nfs)) else w, th.(pc := Rollback))
  }

  /** The manager's rollback of memory; it may itself find the map changed and give up. */
  ghost function RolledBack(m: ShareMap, th: Thread): ShareMap {
    match th.op
    case Create(s) => m - {s.name}
    case Update(s) => if th.prev.Some? && th.prev.value.name in m then m[th.prev.value.name := th.prev.value] else m
    case Delete(_) => if th.prev.Some? && th.prev.value.name !in m then m[th.prev.value.name := th.prev.value] else m
  }

  ghost function Step(c: Config, w: World, th: Thread, ok: bool): (World, Thread)
    ensures th.pc.Rank() < 15 ==> Step(c, w, th, ok).1.pc.Rank() > th.pc.Rank()
  {
    match th.pc
    case Begin => BeginStep(w, th)
    case Mutate => MutateStep(w, th)
    case Snapshot => (w, th.(pc := ReadState, shares := w.mem))
    case ReadState => (w, th.(pc := ReadSamba, saved := th.saved.(state := w.disk.state)))
    case ReadSamba => (w, th.(pc := ReadNfs, saved := th.saved.(samba := w.disk.samba)))
    case ReadNfs => (w, th.(pc := WriteState, saved := th.saved.(nfs := w.disk.nfs)))
    case WriteState => WriteStep(c, w, th, ok)
    case WriteSamba => WriteStep(c, w, th, ok)
    case WriteNfs => WriteStep(c, w, th, ok)
    case RunSmbcontrol => CommandStep(c, w, th, ok)
    case RunExportfs => CommandStep(c, w, th, ok)
    case RestoreState => RestoreStep(w, th, ok)
    case RestoreSamba => RestoreStep(w, th, ok)
    case RestoreNfs => RestoreStep(w, th, ok)
    case Rollback => (w.(mem := RolledBack(w.mem, th)), th.(pc := Finished(Failed(Internal))))
    case Finished(_) => (w, th)
  }

  /** Thread `thread` makes its next step; `ok` is what the operating system answers it. */
  datatype Event = Event(thread: nat, ok: bool)

  ghost function Next(c: Config, sys: System, e: Event): System {
    if e.thread !in sys.threads then sys
    else
      var (w, th) := Step(c, sys.world, sys.threads[e.thread], e.ok);
      System(w, sys.threads[e.thread := th])
  }

  ghost function Execute(c: Config, sys: System, events: seq<Event>): System
    decreases |events|
  {
    if events == [] then sys else Execute(c, Next(c, sys, events[0]), events[1..])
  }

  /** Every memory map that occurs in a run. */
  ghost function Memories(c: Config, sys: System, events: seq<Event>): set<ShareMap>
    decreases |events|
  {
    {sys.world.mem} + if events == [] then {} else Memories(c, Next(c, sys, events[0]), events[1..])
  }

  // ---- safety of every interleaving ----

  /** The content of a file is what it was at the start or the rendering of one of the maps. */
  ghost predicate StateKnown(c: Config, maps: set<ShareMap>, start: Disk, x: Option<string>) {
    x == start.state || exists m :: m in maps && x == Rendered(c, m).state
  }

  ghost predicate SambaKnown(c: Config, maps: set<ShareMap>, start: Disk, x: Option<string>) {
    x == start.samba || exists m :: m in maps && x == Rendered(c, m).samba
  }

  ghost predicate NfsKnown(c: Config, maps: set<ShareMap>, start: Disk, x: Option<string>) {
    x == start.nfs || exists m :: m in maps && x == Rendered(c, m).nfs
  }

  ghost predicate WorldKnown(c: Config, maps: set<ShareMap>, start: World, w: World) {
    && w.mem in maps
    && (forall m :: m in maps ==> WellKeyed(m))
    && StateKnown(c, maps, start.disk, w.disk.state)
    && SambaKnown(c, maps, start.disk, w.disk.samba)
    && NfsKnown(c, maps, start.disk, w.disk.nfs)
    && (w.smbd == start.smbd || SambaKnown(c, maps, start.disk, w.smbd))
    && (w.nfsd == start.nfsd || NfsKnown(c, maps, start.disk, w.nfsd))
  }

  ghost predicate ThreadKnown(c: Config, maps: set<ShareMap>, start: World, th: Thread) {
    var rank := th.pc.Rank();
    && (rank > 2 && rank < 15 ==> th.shares in maps)
    && (rank > 3 && rank < 15 ==> StateKnown(c, maps, start.disk, th.saved.state))
    && (rank > 4 && rank < 15 ==> SambaKnown(c, maps, start.disk, th.saved.samba))
    && (rank > 5 && rank < 15 ==> NfsKnown(c, maps, start.disk, th.saved.nfs))
    && (th.prev.Some? ==> th.prev.value.name == Target(th.op))
  }

  ghost predicate Known(c: Config, maps: set<ShareMap>, start: World, sys: System) {
    && WorldKnown(c, maps, start, sys.world)
    && forall t :: t in sys.threads ==> ThreadKnown(c, maps, start, sys.threads[t])
  }

  lemma StepWellKeyed(c: Config, w: World, th: Thread, ok: bool)
    requires WellKeyed(w.mem) && (th.prev.Some? ==> th.prev.value.name == Target(th.op))
    ensures WellKeyed(Step(c, w, th, ok).0.mem)
  {
    if th.pc == Begin || th.pc == Mutate {
      assert WellKeyed(Intended(w.mem, th.op));
    } else if th.pc == Rollback {
      assert WellKeyed(RolledBack(w.mem, th));
    } else {
      assert Step(c, w, th, ok).0.mem == w.mem;
    }
  }

  /** What is known stays known as more maps occur. */
  lemma KnownGrows(c: Config, maps: set<ShareMap>, m: ShareMap, start: World, w: World, th: Thread)
    requires WellKeyed(m)
    ensures WorldKnown(c, maps, start, w) ==> WorldKnown(c, maps + {m}, start, w)
    ensures ThreadKnown(c, maps, start, th) ==> ThreadKnown(c, maps + {m}, start, th)
  {
  }

  lemma MemoryStepKnown(c: Config, maps: set<ShareMap>, start: World, w: World, th: Thread, ok: bool)
    requires WorldKnown(c, maps, start, w) && ThreadKnown(c, maps, start, th)
    requires th.pc in {Begin, Mutate, Snapshot, Rollback} && Step(c, w, th, ok).0.mem in maps
    ensures WorldKnown(c, maps, start, Step(c, w, th, ok).0)
    ensures ThreadKnown(c, maps, start, Step(c, w, th, ok).1)
  {
    MemoryPut(c, maps, start, w, Step(c, w, th, ok).0.mem);
    match th.pc
    case Begin => BeginStepKnown(c, maps, start, w, th);
    case Mutate => MutateStepKnown(c, maps, start, w, th);
    case Snapshot =>
    case Rollback =>
  }

  lemma MemoryPut(c: Config, maps: set<ShareMap>, start: World, w: World, m: ShareMap)
    requires WorldKnown(c, maps, start, w) && m in maps
    ensures WorldKnown(c, maps, start, w.(mem := m))
  {
  }

  lemma BeginStepKnown(c: Config, maps: set<ShareMap>, start: World, w: World, th: Thread)
    requires th.pc == Begin && WellKeyed(w.mem) && ThreadKnown(c, maps, start, th)
    ensures BeginStep(w, th).0 == w.(mem := BeginStep(w, th).0.mem)
    ensures ThreadKnown(c, maps, start, BeginStep(w, th).1)
  {
  }

  lemma MutateStepKnown(c: Config, maps: set<ShareMap>, start: World, w: World, th: Thread)
    requires th.pc == Mutate && ThreadKnown(c, maps, start, th)
    ensures MutateStep(w, th).0 == w.(mem := MutateStep(w, th).0.mem)
    ensures ThreadKnown(c, maps, start, MutateStep(w, th).1)
  {
  }

  /** A thread that has read one more file. */
  lemma ReadStepKnown(c: Config, maps: set<ShareMap>, start: World, th: Thread, disk: Disk)
    requires ThreadKnown(c, maps, start, th)
    ensures th.pc == ReadState && StateKnown(c, maps, start.disk, disk.state) ==>
              ThreadKnown(c, maps, start, th.(pc := ReadSamba, saved := th.saved.(state := disk.state)))
    ensures th.pc == ReadSamba && SambaKnown(c, maps, start.disk, disk.samba) ==>
              ThreadKnown(c, maps, start, th.(pc := ReadNfs, saved := th.saved.(samba := disk.samba)))
    ensures th.pc == ReadNfs && NfsKnown(c, maps, start.disk, disk.nfs) ==>
              ThreadKnown(c, maps, start, th.(pc := WriteState, saved := th.saved.(nfs := disk.nfs)))
  {
  }

  lemma RenderedKnown(c: Config, maps: set<ShareMap>, start: Disk, m: ShareMap)
    requires m in maps
    ensures StateKnown(c, maps, start, Rendered(c, m).state)
    ensures SambaKnown(c, maps, start, Rendered(c, m).samba)
    ensures NfsKnown(c, maps, start, Rendered(c, m).nfs)
  {
  }

  /** Putting a known content into a file. */
  lemma PutKnown(c: Config, maps: set<ShareMap>, start: World, w: World, disk: Disk)
    requires WorldKnown(c, maps, start, w)
    ensures StateKnown(c, maps, start.disk, disk.state) ==>
              WorldKnown(c, maps, start, w.(disk := w.disk.(state := disk.state)))
    ensures SambaKnown(c, maps, start.disk, disk.samba) ==>
              WorldKnown(c, maps, start, w.(disk := w.disk.(samba := disk.samba)))
    ensures NfsKnown(c, maps, start.disk, disk.nfs) ==>
              WorldKnown(c, maps, start, w.(disk := w.disk.(nfs := disk.nfs)))
  {
  }

  /** Past the reads, moving on keeps what is known of the local variables. */
  lemma MovedOn(c: Config, maps: set<ShareMap>, start: World, th: Thread, pc: PC)
    requires ThreadKnown(c, maps, start, th) && 6 <= th.pc.Rank() < pc.Rank()
    ensures ThreadKnown(c, maps, start, th.(pc := pc))
  {
  }

  lemma CommandStepKnown(c: Config, maps: set<ShareMap>, start: World, w: World, th: Thread, ok: bool)
    requires WorldKnown(c, maps, start, w) && ThreadKnown(c, maps, start, th)
    requires th.pc in {RunSmbcontrol, RunExportfs}
    ensures WorldKnown(c, maps, start, CommandStep(c, w, th, ok).0)
  {
  }

  lemma LateStepKnown(c: Config, maps: set<ShareMap>, start: World, w: World, th: Thread, ok: bool)
    requires WorldKnown(c, maps, start, w) && ThreadKnown(c, maps, start, th)
    requires 6 <= th.pc.Rank() < 14
    ensures WorldKnown(c, maps, start, Step(c, w, th, ok).0)
  {
    if th.pc.Rank() < 9 {
      RenderedKnown(c, maps, start.disk, th.shares);
      PutKnown(c, maps, start, w, Rendered(c, th.shares));
    } else if th.pc.Rank() < 11 {
      CommandStepKnown(c, maps, start, w, th, ok);
    } else {
      PutKnown(c, maps, start, w, th.saved);
    }
  }

  lemma LateThreadKnown(c: Config, maps: set<ShareMap>, start: World, w: World, th: Thread, ok: bool)
    requires ThreadKnown(c, maps, start, th)
    requires 6 <= th.pc.Rank() < 14
    ensures ThreadKnown(c, maps, start, Step(c, w, th, ok).1)
  {
    var th' := Step(c, w, th, ok).1;
    assert th' == th.(pc := th'.pc);
    MovedOn(c, maps, start, th, th'.pc);
  }

  lemma StepKnown(c: Config, maps: set<ShareMap>, start: World, w: World, th: Thread, ok: bool)
    requires WorldKnown(c, maps, start, w) && ThreadKnown(c, maps, start, th)
    requires Step(c, w, th, ok).0.mem in maps
    ensures WorldKnown(c, maps, start, Step(c, w, th, ok).0)
    ensures ThreadKnown(c, maps, start, Step(c, w, th, ok).1)
  {
    var rank := th.pc.Rank();
    if rank < 3 || rank == 14 {
      MemoryStepKnown(c, maps, start, w, th, ok);
    } else if rank < 6 {
      ReadStepKnown(c, maps, start, th, w.disk);
    } else if rank < 14 {
      LateStepKnown(c, maps, start, w, th, ok);
      LateThreadKnown(c, maps, start, w, th, ok);
    }
  }

  lemma NextKnown(c: Config, maps: set<ShareMap>, start: World, sys: System, e: Event)
    requires Known(c, maps, start, sys)
    ensures Known(c, maps + {Next(c, sys, e).world.mem}, start, Next(c, sys, e))
  {
    var sys' := Next(c, sys, e);
    var m := sys'.world.mem;
    if e.thread in sys.threads {
      var th := sys.threads[e.thread];
      StepWellKeyed(c, sys.world, th, e.ok);
      KnownGrows(c, maps, m, start, sys.world, th);
      StepKnown(c, maps + {m}, start, sys.world, th, e.ok);
      forall t | t in sys.threads ensures ThreadKnown(c, maps + {m}, start, sys'.threads[t]) {
        KnownGrows(c, maps, m, start, sys.world, sys.threads[t]);
      }
    } else {
      assert maps + {m} == maps;
    }
  }

  lemma {:induction false} ExecuteKnown(c: Config, maps: set<ShareMap>, start: World, sys: System, events: seq<Event>)
    requires Known(c, maps, start, sys)
    ensures Known(c, maps + Memories(c, sys, events), start, Execute(c, sys, events))
    decreases |events|
  {
    if events == [] {
      assert maps + Memories(c, sys, events) == maps;
    } else {
      var sys' := Next(c, sys, events[0]);
      NextKnown(c, maps, start, sys, events[0]);
      ExecuteKnown(c, maps + {sys'.world.mem}, start, sys', events[1..]);
      assert sys'.world.mem in Memories(c, sys', events[1..]);
      assert maps + {sys'.world.mem} + Memories(c, sys', events[1..]) == maps + Memories(c, sys, events);
    }
  }

  /** Any number of concurrent calls, interleaved in any way and with any failures: each file always holds its
      initial content or the rendering of a map that memory really held, each service has loaded such a text
      or nothing new, and every key of memory is the name of its share. */
  lemma EveryInterleavingSafe(c: Config, sys: System, events: seq<Event>)
    requires WellKeyed(sys.world.mem)
    requires forall t :: t in sys.threads ==> sys.threads[t] == Call(sys.threads[t].op)
    ensures WellKeyed(Execute(c, sys, events).world.mem)
    ensures WorldKnown(c, Memories(c, sys, events), sys.world, Execute(c, sys, events).world)
  {
    ExecuteKnown(c, {sys.world.mem}, sys.world, sys, events);
    assert {sys.world.mem} + Memories(c, sys, events) == Memories(c, sys, events);
  }

  // ---- a call that runs alone ----

  /** What the operating system answers at each step of a call, given one outcome for the whole call. */
  function AnswerAt(pc: PC, o: Outcome): bool {
    match pc
    case WriteState => o.state.Done?
    case WriteSamba => o.samba.Done?
    case WriteNfs => o.nfs.Done?
    case RunSmbcontrol => o.smbcontrol
    case RunExportfs => o.exportfs
    case _ => true
  }

  ghost function Alone(c: Config, w: World, th: Thread, o: Outcome): (World, Thread)
    decreases 15 - th.pc.Rank()
  {
    if th.pc.Finished? then (w, th)
    else
      var (w', th') := Step(c, w, th, AnswerAt(th.pc, o));
      Alone(c, w', th', o)
  }

  ghost function AloneEvents(c: Config, w: World, th: Thread, t: nat, o: Outcome): seq<Event>
    decreases 15 - th.pc.Rank()
  {
    if th.pc.Finished? then []
    else
      var (w', th') := Step(c, w, th, AnswerAt(th.pc, o));
      [Event(t, AnswerAt(th.pc, o))] + AloneEvents(c, w', th', t, o)
  }

  lemma {:induction false} AloneIsARun(c: Config, sys: System, t: nat, o: Outcome)
    requires t in sys.threads
    ensures var (w, th) := Alone(c, sys.world, sys.threads[t], o);
            Execute(c, sys, AloneEvents(c, sys.world, sys.threads[t], t, o)) == System(w, sys.threads[t := th])
    decreases 15 - sys.threads[t].pc.Rank()
  {
    var th := sys.threads[t];
    if th.pc.Finished? {
      assert sys.threads[t := th] == sys.threads;
    } else {
      var sys' := Next(c, sys, Event(t, AnswerAt(th.pc, o)));
      AloneIsARun(c, sys', t, o);
      var rest := AloneEvents(c, sys'.world, sys'.threads[t], t, o);
      assert ([Event(t, AnswerAt(th.pc, o))] + rest)[1..] == rest;
      var end := Alone(c, sys'.world, sys'.threads[t], o).1;
      assert sys'.threads[t := end] == sys.threads[t := end];
    }
  }

  /** A failed write leaves its file as it was. */
  predicate Untouched(o: Outcome, disk: Disk) {
    && (o.state.Torn? ==> o.state.left == disk.state)
    && (o.samba.Torn? ==> o.samba.left == disk.samba)
    && (o.nfs.Torn? ==> o.nfs.left == disk.nfs)
  }

  lemma AloneReads(c: Config, w: World, th: Thread, o: Outcome)
    requires th.pc == ReadState
    ensures Alone(c, w, th, o) == Alone(c, w, th.(pc := WriteState, saved := w.disk), o)
  {
    var th1 := th.(pc := ReadSamba, saved := th.saved.(state := w.disk.state));
    var th2 := th1.(pc := ReadNfs, saved := th1.saved.(samba := w.disk.samba));
    assert Alone(c, w, th, o) == Alone(c, w, th1, o);
    assert Alone(c, w, th1, o) == Alone(c, w, th2, o);
  }

  lemma AloneWriteState(c: Config, w: World, th: Thread, o: Outcome)
    requires th.pc == WriteState
    ensures Alone(c, w, th, o) ==
            if o.state.Done? then
              Alone(c, w.(disk := w.disk.(state := Rendered(c, th.shares).state)), th.(pc := WriteSamba), o)
            else Alone(c, w, th.(pc := Rollback), o)
  {
  }

  lemma AloneWriteSamba(c: Config, w: World, th: Thread, o: Outcome)
    requires th.pc == WriteSamba
    ensures Alone(c, w, th, o) ==
            if o.samba.Done? then
              Alone(c, w.(disk := w.disk.(samba := Rendered(c, th.shares).samba)), th.(pc := WriteNfs), o)
            else Alone(c, w, th.(pc := Rollback), o)
  {
  }

  lemma AloneWriteNfs(c: Config, w: World, th: Thread, o: Outcome)
    requires th.pc == WriteNfs
    ensures Alone(c, w, th, o) ==
            if o.nfs.Done? then
              Alone(c, w.(disk := w.disk.(nfs := Rendered(c, th.shares).nfs)), th.(pc := RunSmbcontrol), o)
            else Alone(c, w, th.(pc := Rollback), o)
  {
  }

  lemma AloneWrites(c: Config, w: World, th: Thread, o: Outcome)
    requires th.pc == WriteState && Untouched(o, w.disk)
    ensures Alone(c, w, th, o) ==
            if o.WritesSucceed() then Alone(c, w.(disk := Rendered(c, th.shares)), th.(pc := RunSmbcontrol), o)
            else Alone(c, w.(disk := Damaged(c, w.disk, th.shares, o)), th.(pc := Rollback), o)
  {
    var r := Rendered(c, th.shares);
    var w1 := w.(disk := w.disk.(state := r.state));
    var w2 := w1.(disk := w1.disk.(samba := r.samba));
    AloneWriteState(c, w, th, o);
    if o.state.Done? {
      AloneWriteSamba(c, w1, th.(pc := WriteSamba), o);
      if o.samba.Done? {
        AloneWriteNfs(c, w2, th.(pc := WriteNfs), o);
        assert w2.disk.(nfs := r.nfs) == r;
      }
    }
  }

  lemma AloneRestores(c: Config, w: World, th: Thread, o: Outcome)
    requires th.pc == RestoreState
    ensures Alone(c, w, th, o) == Alone(c, w.(disk := th.saved), th.(pc := Rollback), o)
  {
    var w1 := w.(disk := w.disk.(state := th.saved.state));
    var w2 := w1.(disk := w1.disk.(samba := th.saved.samba));
    assert Alone(c, w, th, o) == Alone(c, w1, th.(pc := RestoreSamba), o);
    assert Alone(c, w1, th.(pc := RestoreSamba), o) == Alone(c, w2, th.(pc := RestoreNfs), o);
  }

  /** Reading, writing and signalling without interference: the file part of the transaction, for whatever map
      the call had taken its snapshot of. */
  lemma AloneReload(c: Config, w: World, th: Thread, o: Outcome)
    requires th.pc == ReadState && Untouched(o, w.disk)
    ensures Alone(c, w, th, o) ==
            var w' := Transact(c, w, th.shares, o).(mem := w.mem);
            if Commits(c, w.disk, th.shares, o) then (w', th.(pc := Finished(Nil), saved := w.disk))
            else Alone(c, w', th.(pc := Rollback, saved := w.disk), o)
  {
    AloneReads(c, w, th, o);
    var th1 := th.(pc := WriteState, saved := w.disk);
    AloneWrites(c, w, th1, o);
    if o.WritesSucceed() {
      AloneCommands(c, w, th1.(pc := RunSmbcontrol), o);
    }
  }

  lemma AloneCommands(c: Config, w: World, th: Thread, o: Outcome)
    requires th.pc == RunSmbcontrol && th.saved == w.disk && o.WritesSucceed()
    ensures Alone(c, w.(disk := Rendered(c, th.shares)), th, o) ==
            var w' := Transact(c, w, th.shares, o).(mem := w.mem);
            if Commits(c, w.disk, th.shares, o) then (w', th.(pc := Finished(Nil)))
            else Alone(c, w', th.(pc := Rollback), o)
  {
    var w1 := w.(disk := Rendered(c, th.shares));
    var restoring := th.(pc := RestoreState);
    if Signalled(c, w.disk, th.shares, Samba) && !o.smbcontrol {
      assert Alone(c, w1, th, o) == Alone(c, w1, restoring, o);
      AloneRestores(c, w1, restoring, o);
    } else {
      var w2 := w1.(smbd := Smbd(c, w, th.shares));
      var exporting := th.(pc := RunExportfs);
      assert Alone(c, w1, th, o) == Alone(c, w2, exporting, o);
      if Signalled(c, w.disk, th.shares, Nfs) && !o.exportfs {
        assert Alone(c, w2, exporting, o) == Alone(c, w2, restoring, o);
        AloneRestores(c, w2, restoring, o);
      } else {
        var w3 := w2.(nfsd := Nfsd(c, w, th.shares));
        assert Alone(c, w2, exporting, o) == Alone(c, w3, th.(pc := Finished(Nil)), o);
      }
    }
  }

  lemma AloneFromSnapshot(c: Config, w: World, th: Thread, next: ShareMap, o: Outcome)
    requires th.pc == Snapshot && Untouched(o, w.disk)
    requires RolledBack(next, th) == w.mem
    ensures Alone(c, w.(mem := next), th, o).0 == Transact(c, w, next, o)
    ensures Alone(c, w.(mem := next), th, o).1.pc ==
            Finished(if Commits(c, w.disk, next, o) then Nil else Failed(Internal))
  {
    var w1 := w.(mem := next);
    var reading := th.(pc := ReadState, shares := next);
    assert Alone(c, w1, th, o) == Alone(c, w1, reading, o);
    AloneReload(c, w1, reading, o);
    TransactIgnoresMemory(c, w, next, o);
    if !Commits(c, w.disk, next, o) {
      var back := reading.(pc := Rollback, saved := w.disk);
      var w2 := Transact(c, w1, next, o).(mem := next);
      assert Alone(c, w2, back, o) == Alone(c, w2.(mem := w.mem), back.(pc := Finished(Failed(Internal))), o);
    }
  }

  /** The thread of an accepted call once it has changed memory. */
  ghost function Accepted(w: World, op: Op): Thread
    requires Refused(w.mem, op).None?
  {
    Call(op).(pc := Snapshot, prev := if op.Create? then None else Some(w.mem[Target(op)]))
  }

  lemma AloneCreate(c: Config, w: World, op: Op, o: Outcome)
    requires op.Create? && Refused(w.mem, op).None?
    ensures Alone(c, w, Call(op), o) == Alone(c, w.(mem := Intended(w.mem, op)), Accepted(w, op), o)
  {
  }

  lemma AloneFound(c: Config, w: World, op: Op, o: Outcome)
    requires !op.Create? && Refused(w.mem, op).None?
    ensures Alone(c, w, Call(op), o) == Alone(c, w.(mem := Intended(w.mem, op)), Accepted(w, op), o)
  {
    var th := Call(op).(pc := Mutate, prev := Some(w.mem[Target(op)]));
    assert Alone(c, w, Call(op), o) == Alone(c, w, th, o);
  }

  lemma AcceptedRollsBack(w: World, op: Op)
    requires WellKeyed(w.mem) && Refused(w.mem, op).None?
    ensures RolledBack(Intended(w.mem, op), Accepted(w, op)) == w.mem
  {
  }

  /** A call that is not interfered with does what the sequential specification says. */
  lemma AloneRefinesApply(c: Config, w: World, op: Op, o: Outcome)
    requires WellKeyed(w.mem) && Untouched(o, w.disk)
    ensures Alone(c, w, Call(op), o).0 == Apply(c, w, op, o)
    ensures Alone(c, w, Call(op), o).1.pc == Finished(Answer(c, w, op, o))
  {
    if Refused(w.mem, op).Some? {
      assert BeginStep(w, Call(op)) == (w, Call(op).(pc := Finished(Failed(Refused(w.mem, op).value))));
    } else {
      if op.Create? { AloneCreate(c, w, op, o); } else { AloneFound(c, w, op, o); }
      AcceptedRollsBack(w, op);
      AloneFromSnapshot(c, w, Accepted(w, op), Intended(w.mem, op), o);
    }
  }

  lemma TransactIgnoresMemory(c: Config, w: World, next: ShareMap, o: Outcome)
    ensures var w1 := w.(mem := next);
            var r := Transact(c, w1, next, o).(mem := next);
            Transact(c, w, next, o) == if Commits(c, w.disk, next, o) then r else r.(mem := w.mem)
  {
  }

  // ---- calls that do not overlap ----

  lemma {:induction false} ExecuteConcat(c: Config, sys: System, a: seq<Event>, b: seq<Event>)
    ensures Execute(c, sys, a + b) == Execute(c, Execute(c, sys, a), b)
    decreases |a|
  {
    if a == [] {
      assert a + b == b;
    } else {
      ExecuteConcat(c, Next(c, sys, a[0]), a[1..], b);
      assert (a + b)[1..] == a[1..] + b;
    }
  }

  /** The events of letting some calls run one after the other, each from beginning to end. */
  ghost function InTurn(c: Config, sys: System, order: seq<(nat, Outcome)>): seq<Event>
    requires forall i :: 0 <= i < |order| ==> order[i].0 in sys.threads
    decreases |order|
  {
    if order == [] then []
    else
      var (t, o) := order[0];
      var (w, th) := Alone(c, sys.world, sys.threads[t], o);
      AloneEvents(c, sys.world, sys.threads[t], t, o) + InTurn(c, System(w, sys.threads[t := th]), order[1..])
  }

  function Requests(sys: System, order: seq<(nat, Outcome)>): seq<(Op, Outcome)>
    requires forall i :: 0 <= i < |order| ==> order[i].0 in sys.threads
  {
    seq(|order|, i requires 0 <= i < |order| => (sys.threads[order[i].0].op, order[i].1))
  }

  /** Calls that do not overlap do what a sequential run does, in whatever order they run; so a restart after
      them restores memory. */
  lemma {:induction false} CallsInTurnAreSequential(c: Config, sys: System, order: seq<(nat, Outcome)>)
    requires c.codec.Lawful() && InSync(c, sys.world)
    requires forall i :: 0 <= i < |order| ==>
               && order[i].0 in sys.threads && order[i].1.WritesSucceed()
               && sys.threads[order[i].0] == Call(sys.threads[order[i].0].op)
    requires forall i, j :: 0 <= i < j < |order| ==> order[i].0 != order[j].0
    ensures Execute(c, sys, InTurn(c, sys, order)).world == Run(c, sys.world, Requests(sys, order))
    ensures InSync(c, Execute(c, sys, InTurn(c, sys, order)).world)
    decreases |order|
  {
    if order == [] {
    } else {
      var (t, o) := order[0];
      var op := sys.threads[t].op;
      var (w, th) := Alone(c, sys.world, sys.threads[t], o);
      var sys' := System(w, sys.threads[t := th]);
      AloneRefinesApply(c, sys.world, op, o);
      AloneIsARun(c, sys, t, o);
      CommitOrAbort(c, sys.world, op, o);
      CallsInTurnAreSequential(c, sys', order[1..]);
      ExecuteConcat(c, sys, AloneEvents(c, sys.world, sys.threads[t], t, o), InTurn(c, sys', order[1..]));
      assert Requests(sys, order)[0] == (op, o);
      assert Requests(sys, order)[1..] == Requests(sys', order[1..]);
    }
  }

  // ---- what interleaving does break ----

  /** Two concurrent creates, no failure anywhere: both callers are told of success, memory holds both shares,
      and a restart forgets the second. */
  lemma ConcurrentCreatesLoseOne(c: Config, w: World, a: Share, b: Share) returns (events: seq<Event>)
    requires c.codec.Lawful() && InSync(c, w)
    requires ValidShare(a) && ValidShare(b) && a.name != b.name && a.name !in w.mem && b.name !in w.mem
    ensures var end := Execute(c, System(w, map[0 := Call(Create(a)), 1 := Call(Create(b))]), events);
            && 0 in end.threads && end.threads[0].pc == Finished(Nil)
            && 1 in end.threads && end.threads[1].pc == Finished(Nil)
            && end.world.mem == w.mem[a.name := a][b.name := b]
            && Load(c, end.world.disk.state) == w.mem[a.name := a]
  {
    var fine := Outcome(Done, Done, Done, true, true);
    var start := System(w, map[0 := Call(Create(a)), 1 := Call(Create(b))]);
    var m1 := w.mem[a.name := a];
    var m2 := m1[b.name := b];
    // the first call inserts its share and takes its snapshot
    var first := [Event(0, true), Event(0, true)];
    var w1 := w.(mem := m1);
    var waiting := Call(Create(a)).(pc := ReadState, shares := m1);
    var s1 := System(w1, map[0 := waiting, 1 := Call(Create(b))]);
    assert Execute(c, start, first) == s1 by { TwoSteps(c, w, a, b); }
    // the second call runs from beginning to end
    AloneRefinesApply(c, w1, Create(b), fine);
    AloneIsARun(c, s1, 1, fine);
    var second := AloneEvents(c, w1, Call(Create(b)), 1, fine);
    var s2 := Execute(c, s1, second);
    // the first call goes on with its stale snapshot
    AloneReload(c, s2.world, waiting, fine);
    AloneIsARun(c, s2, 0, fine);
    var third := AloneEvents(c, s2.world, waiting, 0, fine);
    ExecuteConcat(c, start, first, second);
    ExecuteConcat(c, start, first + second, third);
    LoadRendered(c, m1);
    events := first + second + third;
  }

  lemma TwoSteps(c: Config, w: World, a: Share, b: Share)
    requires ValidShare(a) && a.name !in w.mem
    ensures Execute(c, System(w, map[0 := Call(Create(a)), 1 := Call(Create(b))]), [Event(0, true), Event(0, true)]) ==
            System(w.(mem := w.mem[a.name := a]),
                   map[0 := Call(Create(a)).(pc := ReadState, shares := w.mem[a.name := a]), 1 := Call(Create(b))])
  {
    var s0 := System(w, map[0 := Call(Create(a)), 1 := Call(Create(b))]);
    var e := Event(0, true);
    var w1 := w.(mem := w.mem[a.name := a]);
    var s1 := System(w1, map[0 := Call(Create(a)).(pc := Snapshot), 1 := Call(Create(b))]);
    var s2 := System(w1, map[0 := Call(Create(a)).(pc := ReadState, shares := w1.mem), 1 := Call(Create(b))]);
    assert Next(c, s0, e) == s1;
    assert Next(c, s1, e) == s2;
    assert [e, e][1..] == [e] && [e][1..] == [];
  }
}
