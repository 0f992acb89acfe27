/** What follows from the transaction specification for restarts and for the two services. */
module ShareTheorems {
  import opened Wrappers
  import opened ShareTypes
  import opened ShareSpec
  import opened SambaPrinter
  import opened ExportsPrinter

  // ---- restarts ----

  /** A restart at this point would bring back the memory as it is. */
  ghost predicate InSync(c: Config, w: World) {
    WellKeyed(w.mem) && Load(c, w.disk.state) == w.mem
  }

  lemma StartUpInSync(c: Config, disk: Disk, smbd: Option<string>, nfsd: Option<string>)
    ensures InSync(c, StartUp(c, disk, smbd, nfsd))
  {
    if disk.state.Some? && c.codec.decode(disk.state.value).Some? {
      FromListKeyed(c.codec.decode(disk.state.value).value);
    }
  }

  lemma LoadRendered(c: Config, m: ShareMap)
    requires c.codec.Lawful() && WellKeyed(m)
    ensures Load(c, Rendered(c, m).state) == m
  {
    FromSorted(m);
  }

  /** Whatever the commands do, an operation ends with the new state everywhere or with the old state
      everywhere, and Nil is returned in the first case only. */
  lemma CommitOrAbort(c: Config, w: World, op: Op, o: Outcome)
    requires c.codec.Lawful() && InSync(c, w) && o.WritesSucceed()
    ensures var w', answer := Apply(c, w, op, o), Answer(c, w, op, o);
            && InSync(c, w')
            && (answer.Nil? ==> w'.mem == Intended(w.mem, op) && w'.disk == Rendered(c, w'.mem))
            && (!answer.Nil? ==> w'.mem == w.mem && w'.disk == w.disk)
  {
    if Refused(w.mem, op).None? {
      TransactAtomic(c, w, Intended(w.mem, op), o);
    }
  }

  lemma TransactAtomic(c: Config, w: World, next: ShareMap, o: Outcome)
    requires c.codec.Lawful() && InSync(c, w) && WellKeyed(next) && o.WritesSucceed()
    ensures var w' := Transact(c, w, next, o);
            && InSync(c, w')
            && if Commits(c, w.disk, next, o) then w'.mem == next && w'.disk == Rendered(c, next)
               else w'.mem == w.mem && w'.disk == w.disk
  {
    LoadRendered(c, next);
  }

  lemma {:induction false} EveryRunInSync(c: Config, w: World, requests: seq<(Op, Outcome)>)
    requires c.codec.Lawful() && InSync(c, w)
    requires forall r :: r in requests ==> r.1.WritesSucceed()
    ensures InSync(c, Run(c, w, requests))
    decreases |requests|
  {
    if requests == [] {
    } else {
      CommitOrAbort(c, w, requests[0].0, requests[0].1);
      EveryRunInSync(c, Apply(c, w, requests[0].0, requests[0].1), requests[1..]);
    }
  }

  /** With failing writes the promise is lost exactly when the state file was replaced before a later write
      failed (unless the operation changes nothing), or was itself left holding other shares. */
  lemma RestartAfterFailedWrite(c: Config, w: World, op: Op, o: Outcome)
    requires c.codec.Lawful() && InSync(c, w)
    requires Refused(w.mem, op).None? && !o.WritesSucceed()
    ensures Apply(c, w, op, o).mem == w.mem
    ensures InSync(c, Apply(c, w, op, o)) <==>
            if o.state.Torn? then Load(c, o.state.left) == w.mem else Intended(w.mem, op) == w.mem
  {
    LoadRendered(c, Intended(w.mem, op));
  }

  /** A concrete loss: a rejected create that a restart brings to life. */
  lemma RestartRevivesRejectedShare(c: Config, w: World, s: Share, left: Option<string>)
    requires c.codec.Lawful() && InSync(c, w)
    requires ValidShare(s) && s.name !in w.mem
    ensures var o := Outcome(Done, Torn(left), Done, true, true);
            && Answer(c, w, Create(s), o) == Failed(Internal)
            && Apply(c, w, Create(s), o).mem == w.mem
            && Load(c, Apply(c, w, Create(s), o).disk.state) == w.mem[s.name := s]
  {
    LoadRendered(c, w.mem[s.name := s]);
  }

  // ---- services ----

  /** smbd serves what memory asks for: the snippet rendered from it, or nothing at all if it has never been
      signalled and memory has no Samba share. */
  ghost predicate SmbFresh(c: Config, w: World) {
    || w.smbd == Rendered(c, w.mem).samba
    || (w.smbd.None? && !HasKind(Sorted(w.mem), Samba))
  }

  ghost predicate NfsFresh(c: Config, w: World) {
    || w.nfsd == Rendered(c, w.mem).nfs
    || (w.nfsd.None? && !HasKind(Sorted(w.mem), Nfs))
  }

  lemma {:induction false} NoSambaText(confPath: string, shares: seq<Share>)
    requires !HasKind(shares, Samba)
    ensures SambaBlocks(shares) == []
    ensures SambaText(confPath, shares) == SambaText(confPath, [])
  {
    if shares == [] {
    } else {
      assert shares[0] in shares;
      assert forall s :: s in shares[1..] ==> s in shares;
      NoSambaText(confPath, shares[1..]);
    }
  }

  lemma {:induction false} NoNfsText(shares: seq<Share>)
    requires !HasKind(shares, Nfs)
    ensures ExportLines(shares) == []
    ensures ExportsText(shares) == ExportsText([])
  {
    if shares == [] {
    } else {
      assert shares[0] in shares;
      assert forall s :: s in shares[1..] ==> s in shares;
      NoNfsText(shares[1..]);
    }
  }

  /** A kind of share that is in memory is in the state file, so its service had shares before. */
  lemma KindOnDisk(c: Config, w: World, kind: ShareType)
    requires c.codec.Lawful() && InSync(c, w) && HasKind(Sorted(w.mem), kind)
    ensures HadKind(c, w.disk.state, kind)
  {
    var s :| s in Sorted(w.mem) && s.kind == kind;
    FromListKeyed(c.codec.decode(w.disk.state.value).value);
  }

  /** A service that is not signalled has no share before and after, and one rendering fits both. */
  lemma NotSignalled(c: Config, w: World, next: ShareMap, kind: ShareType)
    requires c.codec.Lawful() && InSync(c, w) && !Signalled(c, w.disk, next, kind)
    ensures !HasKind(Sorted(next), kind) && !HasKind(Sorted(w.mem), kind)
    ensures kind == Samba ==> Rendered(c, next).samba == Rendered(c, w.mem).samba
    ensures kind == Nfs ==> Rendered(c, next).nfs == Rendered(c, w.mem).nfs
  {
    if HasKind(Sorted(w.mem), kind) { KindOnDisk(c, w, kind); }
    if kind == Samba {
      NoSambaText(c.confPath, Sorted(next));
      NoSambaText(c.confPath, Sorted(w.mem));
    }
    if kind == Nfs {
      NoNfsText(Sorted(next));
      NoNfsText(Sorted(w.mem));
    }
  }

  /** A reload that loaded a changed Samba snippet and then failed at exportfs. */
  ghost predicate HalfReload(c: Config, w: World, op: Op, o: Outcome) {
    && Refused(w.mem, op).None?
    && o.WritesSucceed()
    && var next := Intended(w.mem, op);
       && Signalled(c, w.disk, next, Samba) && o.smbcontrol
       && Signalled(c, w.disk, next, Nfs) && !o.exportfs
       && Rendered(c, next).samba != Rendered(c, w.mem).samba
  }

  /** An operation during which smbd loads a newly written snippet. */
  ghost predicate LoadsSamba(c: Config, w: World, op: Op, o: Outcome) {
    && Refused(w.mem, op).None?
    && o.WritesSucceed()
    && Signalled(c, w.disk, Intended(w.mem, op), Samba) && o.smbcontrol
  }

  /** Fresh or stale before, smbd is fresh after a load exactly if the load was not a half reload, and as fresh as
      before otherwise. */
  lemma SmbFreshAfter(c: Config, w: World, op: Op, o: Outcome)
    requires c.codec.Lawful() && InSync(c, w)
    ensures SmbFresh(c, Apply(c, w, op, o)) <==>
            if LoadsSamba(c, w, op, o) then !HalfReload(c, w, op, o) else SmbFresh(c, w)
  {
    if Refused(w.mem, op).None? {
      var next := Intended(w.mem, op);
      if !Signalled(c, w.disk, next, Samba) {
        UnsignalledFresh(c, w, next, o);
      } else if !o.WritesSucceed() || !o.smbcontrol {
        UnloadedFresh(c, w, next, o);
      } else {
        LoadedFresh(c, w, next, o);
      }
    }
  }

  lemma UnsignalledFresh(c: Config, w: World, next: ShareMap, o: Outcome)
    requires c.codec.Lawful() && InSync(c, w) && !Signalled(c, w.disk, next, Samba)
    ensures SmbFresh(c, Transact(c, w, next, o)) <==> SmbFresh(c, w)
  {
    NotSignalled(c, w, next, Samba);
  }

  lemma UnloadedFresh(c: Config, w: World, next: ShareMap, o: Outcome)
    requires Signalled(c, w.disk, next, Samba) && (!o.WritesSucceed() || !o.smbcontrol)
    ensures SmbFresh(c, Transact(c, w, next, o)) <==> SmbFresh(c, w)
  {
    assert !Commits(c, w.disk, next, o);
  }

  lemma LoadedFresh(c: Config, w: World, next: ShareMap, o: Outcome)
    requires c.codec.Lawful() && InSync(c, w) && Signalled(c, w.disk, next, Samba)
    requires o.WritesSucceed() && o.smbcontrol
    ensures SmbFresh(c, Transact(c, w, next, o)) <==>
            !(Signalled(c, w.disk, next, Nfs) && !o.exportfs) || Rendered(c, next).samba == Rendered(c, w.mem).samba
  {
    if Commits(c, w.disk, next, o) {
      assert Transact(c, w, next, o).smbd == Rendered(c, next).samba;
    } else {
      assert Transact(c, w, next, o) == w.(smbd := Rendered(c, next).samba);
    }
  }

  lemma NfsAfter(c: Config, w: World, next: ShareMap, o: Outcome)
    requires c.codec.Lawful() && InSync(c, w) && NfsFresh(c, w)
    ensures NfsFresh(c, Transact(c, w, next, o))
  {
    if !Signalled(c, w.disk, next, Nfs) { NotSignalled(c, w, next, Nfs); }
  }

  /** smbd goes stale in that case and in no other; nfsd never does. */
  lemma StaleExactlyAfterHalfReload(c: Config, w: World, op: Op, o: Outcome)
    requires c.codec.Lawful() && InSync(c, w) && SmbFresh(c, w) && NfsFresh(c, w)
    ensures SmbFresh(c, Apply(c, w, op, o)) <==> !HalfReload(c, w, op, o)
    ensures NfsFresh(c, Apply(c, w, op, o))
  {
    if Refused(w.mem, op).None? {
      NfsAfter(c, w, Intended(w.mem, op), o);
    }
    SmbFreshAfter(c, w, op, o);
  }

  ghost predicate NoHalfReload(c: Config, w: World, requests: seq<(Op, Outcome)>)
    decreases |requests|
  {
    requests != [] ==>
      && !HalfReload(c, w, requests[0].0, requests[0].1)
      && NoHalfReload(c, Apply(c, w, requests[0].0, requests[0].1), requests[1..])
  }

  lemma {:induction false} EveryRunFresh(c: Config, w: World, requests: seq<(Op, Outcome)>)
    requires c.codec.Lawful() && InSync(c, w) && SmbFresh(c, w) && NfsFresh(c, w)
    requires forall r :: r in requests ==> r.1.WritesSucceed()
    requires NoHalfReload(c, w, requests)
    ensures SmbFresh(c, Run(c, w, requests)) && NfsFresh(c, Run(c, w, requests))
    decreases |requests|
  {
    if requests == [] {
    } else {
      var (op, o) := requests[0];
      CommitOrAbort(c, w, op, o);
      StaleExactlyAfterHalfReload(c, w, op, o);
      EveryRunFresh(c, Apply(c, w, op, o), requests[1..]);
    }
  }

  // ---- how long staleness lasts ----

  /** A successful operation heals smbd exactly if it signals it; otherwise smbd stays as it was. */
  lemma SuccessHealsIffSignalled(c: Config, w: World, op: Op, o: Outcome)
    requires c.codec.Lawful() && InSync(c, w) && Answer(c, w, op, o) == Nil
    ensures SmbFresh(c, Apply(c, w, op, o)) <==>
            Signalled(c, w.disk, Intended(w.mem, op), Samba) || SmbFresh(c, w)
  {
    SmbFreshAfter(c, w, op, o);
  }

  /** The world before the i-th operation of a run. */
  ghost function Before(c: Config, w: World, requests: seq<(Op, Outcome)>, i: nat): World
    requires i <= |requests|
  {
    Run(c, w, requests[..i])
  }

  ghost predicate LoadsAt(c: Config, w: World, requests: seq<(Op, Outcome)>, i: nat)
    requires i < |requests|
  {
    LoadsSamba(c, Before(c, w, requests, i), requests[i].0, requests[i].1)
  }

  ghost predicate HalfAt(c: Config, w: World, requests: seq<(Op, Outcome)>, i: nat)
    requires i < |requests|
  {
    HalfReload(c, Before(c, w, requests, i), requests[i].0, requests[i].1)
  }

  lemma {:induction false} RunSnoc(c: Config, w: World, requests: seq<(Op, Outcome)>, r: (Op, Outcome))
    ensures Run(c, w, requests + [r]) == Apply(c, Run(c, w, requests), r.0, r.1)
    decreases |requests|
  {
    if requests == [] {
      assert ([] + [r])[1..] == [];
    } else {
      RunSnoc(c, Apply(c, w, requests[0].0, requests[0].1), requests[1..], r);
      assert (requests + [r])[1..] == requests[1..] + [r];
    }
  }

  /** The last number below n with the property; n when there is none. */
  ghost function Last(p: nat -> bool, n: nat): (i: nat)
    ensures i <= n
    ensures i < n ==> p(i)
    ensures forall j :: (if i < n then i + 1 else 0) <= j < n ==> !p(j)
  {
    if n == 0 then 0
    else if p(n - 1) then n - 1
    else
      var i := Last(p, n - 1);
      if i < n - 1 then i else n
  }

  /** A step either sets a flag or keeps it. */
  ghost predicate Steps(sets: nat -> bool, value: nat -> bool, flag: nat -> bool, i: nat) {
    flag(i + 1) == if sets(i) then value(i) else flag(i)
  }

  /** If each step either sets a flag or keeps it, the last step that sets it decides. */
  lemma {:induction false} LastDecides(sets: nat -> bool, value: nat -> bool, flag: nat -> bool, n: nat)
    requires forall i :: 0 <= i < n ==> Steps(sets, value, flag, i)
    ensures var i := Last(sets, n);
            flag(n) == if i < n then value(i) else flag(0)
  {
    if n == 0 {
    } else {
      LastDecides(sets, value, flag, n - 1);
      assert Steps(sets, value, flag, n - 1);
    }
  }

  ghost function Loads(c: Config, w: World, requests: seq<(Op, Outcome)>): nat -> bool {
    (i: nat) => i < |requests| && LoadsAt(c, w, requests, i)
  }

  ghost function Whole(c: Config, w: World, requests: seq<(Op, Outcome)>): nat -> bool {
    (i: nat) => i < |requests| && !HalfAt(c, w, requests, i)
  }

  ghost function FreshBefore(c: Config, w: World, requests: seq<(Op, Outcome)>): nat -> bool {
    (i: nat) => i <= |requests| && SmbFresh(c, Before(c, w, requests, i))
  }

  /** The last load of a Samba snippet in a run; its length when there is none. */
  ghost function LastLoad(c: Config, w: World, requests: seq<(Op, Outcome)>): nat {
    Last(Loads(c, w, requests), |requests|)
  }

  lemma BeforeNext(c: Config, w: World, requests: seq<(Op, Outcome)>, n: nat)
    requires n < |requests|
    ensures Before(c, w, requests, n + 1) == Apply(c, Before(c, w, requests, n), requests[n].0, requests[n].1)
  {
    assert requests[..n + 1] == requests[..n] + [requests[n]];
    RunSnoc(c, w, requests[..n], requests[n]);
  }

  lemma {:induction false} InSyncUpTo(c: Config, w: World, requests: seq<(Op, Outcome)>, n: nat)
    requires c.codec.Lawful() && InSync(c, w) && n <= |requests|
    requires forall r :: r in requests ==> r.1.WritesSucceed()
    ensures InSync(c, Before(c, w, requests, n))
  {
    if n == 0 {
      assert requests[..0] == [];
    } else {
      InSyncUpTo(c, w, requests, n - 1);
      BeforeNext(c, w, requests, n - 1);
      assert requests[n - 1] in requests;
      CommitOrAbort(c, Before(c, w, requests, n - 1), requests[n - 1].0, requests[n - 1].1);
    }
  }

  lemma FreshStep(c: Config, w: World, requests: seq<(Op, Outcome)>, i: nat)
    requires c.codec.Lawful() && InSync(c, w) && i < |requests|
    requires forall r :: r in requests ==> r.1.WritesSucceed()
    ensures Steps(Loads(c, w, requests), Whole(c, w, requests), FreshBefore(c, w, requests), i)
  {
    InSyncUpTo(c, w, requests, i);
    BeforeNext(c, w, requests, i);
    assert requests[i] in requests;
    SmbFreshAfter(c, Before(c, w, requests, i), requests[i].0, requests[i].1);
  }

  lemma FreshAtLast(c: Config, w: World, requests: seq<(Op, Outcome)>)
    requires c.codec.Lawful() && InSync(c, w)
    requires forall r :: r in requests ==> r.1.WritesSucceed()
    ensures var i := LastLoad(c, w, requests);
            FreshBefore(c, w, requests)(|requests|) ==
            if i < |requests| then Whole(c, w, requests)(i) else FreshBefore(c, w, requests)(0)
  {
    forall i | 0 <= i < |requests|
      ensures Steps(Loads(c, w, requests), Whole(c, w, requests), FreshBefore(c, w, requests), i)
    {
      FreshStep(c, w, requests, i);
    }
    LastDecides(Loads(c, w, requests), Whole(c, w, requests), FreshBefore(c, w, requests), |requests|);
  }

  /** Over any run, half reloads included: smbd is fresh at the end exactly if the last load of a Samba snippet
      was not a half reload, or, when there was no load, if it was fresh at the start. */
  lemma SmbFreshAtEndIff(c: Config, w: World, requests: seq<(Op, Outcome)>)
    requires c.codec.Lawful() && InSync(c, w)
    requires forall r :: r in requests ==> r.1.WritesSucceed()
    ensures SmbFresh(c, Run(c, w, requests)) <==>
            var i := LastLoad(c, w, requests);
            if i < |requests| then !HalfAt(c, w, requests, i) else SmbFresh(c, w)
  {
    FreshAtLast(c, w, requests);
    assert requests[..|requests|] == requests && requests[..0] == [];
  }

  /** nfsd is fresh after every run. */
  lemma {:induction false} NfsFreshAtEnd(c: Config, w: World, requests: seq<(Op, Outcome)>)
    requires c.codec.Lawful() && InSync(c, w) && NfsFresh(c, w)
    requires forall r :: r in requests ==> r.1.WritesSucceed()
    ensures NfsFresh(c, Run(c, w, requests))
    decreases |requests|
  {
    if requests == [] {
    } else {
      var (op, o) := requests[0];
      assert requests[0] in requests;
      CommitOrAbort(c, w, op, o);
      if Refused(w.mem, op).None? { NfsAfter(c, w, Intended(w.mem, op), o); }
      NfsFreshAtEnd(c, Apply(c, w, op, o), requests[1..]);
    }
  }

  /** In the terms of the services: what they serve is what is enabled in memory. */
  lemma FreshMeansServed(c: Config, w: World)
    requires '\n' !in c.confPath
    requires forall k :: k in w.mem ==> SambaPrintable(w.mem[k]) && NfsPrintable(w.mem[k])
    ensures SmbFresh(c, w) ==>
              (if w.smbd.Some? then ReadSamba(w.smbd.value) else []) == ActiveSamba(Sorted(w.mem))
    ensures NfsFresh(c, w) ==>
              (if w.nfsd.Some? then ReadExports(w.nfsd.value) else []) == ActiveExports(Sorted(w.mem))
  {
    SambaParsesBack(c.confPath, Sorted(w.mem));
    ExportsParseBack(Sorted(w.mem));
    if !HasKind(Sorted(w.mem), Samba) { NoneActive(Sorted(w.mem), Samba); }
    if !HasKind(Sorted(w.mem), Nfs) { NoneActive(Sorted(w.mem), Nfs); }
  }

  lemma {:induction false} NoneActive(shares: seq<Share>, kind: ShareType)
    requires !HasKind(shares, kind)
    ensures kind == Samba ==> ActiveSamba(shares) == []
    ensures kind == Nfs ==> ActiveExports(shares) == []
  {
    if shares == [] {
    } else {
      assert shares[0] in shares;
      assert forall s :: s in shares[1..] ==> s in shares;
      NoneActive(shares[1..], kind);
    }
  }

  /** Turning the only share from NFS to Samba with a failing exportfs changes nothing but what smbd serves. */
  lemma HalfReloadOfOne(c: Config, a: Share)
    requires c.codec.Lawful() && ValidShare(a) && a.kind == Nfs
    ensures var start := World(map[a.name := a], Rendered(c, map[a.name := a]), None,
                               Rendered(c, map[a.name := a]).nfs);
            var fine := Outcome(Done, Done, Done, true, true);
            var asSamba := a.(kind := Samba);
            && InSync(c, start) && SmbFresh(c, start) && NfsFresh(c, start)
            && Answer(c, start, Update(asSamba), fine.(exportfs := false)) == Failed(Internal)
            && Apply(c, start, Update(asSamba), fine.(exportfs := false)) ==
               start.(smbd := Some(SambaText(c.confPath, [asSamba])))
  {
    var m0 := map[a.name := a];
    var asSamba := a.(kind := Samba);
    var m1 := map[a.name := asSamba];
    SingleSorted(a);
    SingleSorted(asSamba);
    LoadRendered(c, m0);
    assert m0[a.name := asSamba] == m1;
    assert a in Sorted(m0) && asSamba in Sorted(m1);
    assert c.codec.encode([a]) != "";
    assert !HasKind(Sorted(m0), Samba);
  }

  /** A stale smbd is not healed by a later success: creating another NFS share after that, without any failure,
      leaves smbd serving the rejected share. */
  lemma StaleShareOutlivesSuccess(c: Config, a: Share, b: Share)
    requires c.codec.Lawful()
    requires ValidShare(a) && a.kind == Nfs && ValidShare(b) && b.kind == Nfs && a.name != b.name
    ensures var start := World(map[a.name := a], Rendered(c, map[a.name := a]), None,
                               Rendered(c, map[a.name := a]).nfs);
            var fine := Outcome(Done, Done, Done, true, true);
            var asSamba := a.(kind := Samba);
            var halted := Apply(c, start, Update(asSamba), fine.(exportfs := false));
            var later := Apply(c, halted, Create(b), fine);
            && Answer(c, halted, Create(b), fine) == Nil
            && later.mem == map[a.name := a, b.name := b]
            && later.smbd == Some(SambaText(c.confPath, [asSamba]))
  {
    var m0, m2 := map[a.name := a], map[a.name := a, b.name := b];
    HalfReloadOfOne(c, a);
    SingleSorted(a);
    assert m0[b.name := b] == m2;
    assert c.codec.encode([a]) != "";
    forall s | s in Sorted(m2) ensures s.kind == Nfs { }
    assert !HasKind(Sorted(m2), Samba) && !HasKind(Sorted(m0), Samba);
  }

  lemma SingleSorted(s: Share)
    ensures Sorted(map[s.name := s]) == [s]
  {
    var m := map[s.name := s];
    assert m[s.name] in Sorted(m);
    SortedIsUnique(m, [s]);
  }
}
