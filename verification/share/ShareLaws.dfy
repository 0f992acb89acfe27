/** What the share transaction does, operation by operation, in terms of names, shares and files. */
module ShareLaws {
  import opened Wrappers
  import opened Text
  import opened ShareTypes
  import opened ShareSpec
  import opened ShareTheorems
  import opened ShareInterleaving
  import SambaPrinter
  import ExportsPrinter

  // ---- which services are concerned ----

  /** A share of that kind will be in memory, or is in the state file. */
  ghost predicate Touches(c: Config, w: World, after: ShareMap, kind: ShareType) {
    || (exists k :: k in after && after[k].kind == kind)
    || (&& w.disk.state.Some? && c.codec.decode(w.disk.state.value).Some?
        && exists s :: s in c.codec.decode(w.disk.state.value).value && s.kind == kind)
  }

  lemma SignalledIff(c: Config, w: World, after: ShareMap, kind: ShareType)
    requires c.codec.Lawful()
    ensures Signalled(c, w.disk, after, kind) <==> Touches(c, w, after, kind)
  {
    if k :| k in after && after[k].kind == kind { assert after[k] in Sorted(after); }
  }

  /** Every write and every command that is needed succeeds. */
  ghost predicate Succeeds(c: Config, w: World, after: ShareMap, o: Outcome) {
    && o.state.Done? && o.samba.Done? && o.nfs.Done?
    && (Touches(c, w, after, Samba) ==> o.smbcontrol)
    && (Touches(c, w, after, Nfs) ==> o.exportfs)
  }

  // ---- what an accepted change does ----

  /** The text that each file gets. */
  ghost function StateText(c: Config, m: ShareMap): string { c.codec.encode(Sorted(m)) }
  ghost function SambaFile(c: Config, m: ShareMap): string { SambaPrinter.SambaText(c.confPath, Sorted(m)) }
  ghost function NfsFile(m: ShareMap): string { ExportsPrinter.ExportsText(Sorted(m)) }

  /** A written file, or what its failed write leaves. */
  function Written(o: Write, text: string): Option<string> { if o.Done? then Some(text) else o.left }

  /** Memory follows success alone. */
  ghost predicate MemoryMeans(c: Config, w: World, after: ShareMap, o: Outcome, w': World) {
    w'.mem == if Succeeds(c, w, after, o) then after else w.mem
  }

  /** The files are written in turn until a write fails, and put back when a command fails. */
  ghost predicate FilesMean(c: Config, w: World, after: ShareMap, o: Outcome, w': World) {
    if o.state.Done? && o.samba.Done? && o.nfs.Done? && !Succeeds(c, w, after, o) then w'.disk == w.disk
    else
      && w'.disk.state == Written(o.state, StateText(c, after))
      && w'.disk.samba == (if o.state.Done? then Written(o.samba, SambaFile(c, after)) else w.disk.samba)
      && w'.disk.nfs == if o.state.Done? && o.samba.Done? then Written(o.nfs, NfsFile(after)) else w.disk.nfs
  }

  /** smbd loads the new snippet when it is concerned and its command succeeds; nfsd comes after smbd. */
  ghost predicate ServicesMean(c: Config, w: World, after: ShareMap, o: Outcome, w': World) {
    var written := o.state.Done? && o.samba.Done? && o.nfs.Done?;
    && w'.smbd == (if written && Touches(c, w, after, Samba) && o.smbcontrol then Some(SambaFile(c, after)) else w.smbd)
    && w'.nfsd == if written && Touches(c, w, after, Nfs) && o.exportfs
                     && (Touches(c, w, after, Samba) ==> o.smbcontrol)
                  then Some(NfsFile(after)) else w.nfsd
  }

  lemma CommitsIff(c: Config, w: World, after: ShareMap, o: Outcome)
    requires c.codec.Lawful()
    ensures Commits(c, w.disk, after, o) <==> Succeeds(c, w, after, o)
  {
    SignalledIff(c, w, after, Samba);
    SignalledIff(c, w, after, Nfs);
  }

  lemma TransactMeans(c: Config, w: World, after: ShareMap, o: Outcome)
    requires c.codec.Lawful()
    ensures var w' := Transact(c, w, after, o);
            MemoryMeans(c, w, after, o, w') && FilesMean(c, w, after, o, w') && ServicesMean(c, w, after, o, w')
  {
    CommitsIff(c, w, after, o);
    SignalledIff(c, w, after, Samba);
    SignalledIff(c, w, after, Nfs);
  }

  // ---- the three operations ----

  /** Names and paths that are not blank, no slash in the name, one of the two kinds. */
  predicate Sound(s: Share) {
    !Blank(s.name) && '/' !in s.name && !Blank(s.path) && (s.kind == Samba || s.kind == Nfs)
  }

  lemma SoundIff(s: Share)
    ensures ValidShare(s) <==> Sound(s)
  {
    BlankIff(s.name);
    BlankIff(s.path);
  }

  /** The reply and the new world of an operation that is turned down with `refusal`, or else asks for `after`. */
  ghost predicate Means(c: Config, w: World, refusal: Option<ErrorCode>, after: ShareMap, o: Outcome, r: Reply,
                        w': World) {
    if refusal.Some? then r == Failed(refusal.value) && w' == w
    else
      && r == (if Succeeds(c, w, after, o) then Nil else Failed(Internal))
      && MemoryMeans(c, w, after, o, w') && FilesMean(c, w, after, o, w') && ServicesMean(c, w, after, o, w')
  }

  lemma CreateMeans(c: Config, w: World, s: Share, o: Outcome)
    requires c.codec.Lawful()
    ensures Means(c, w, if !Sound(s) then Some(InvalidInput) else if s.name in w.mem then Some(Conflict) else None,
                  w.mem[s.name := s], o, Answer(c, w, Create(s), o), Apply(c, w, Create(s), o))
  {
    SoundIff(s);
    CommitsIff(c, w, w.mem[s.name := s], o);
    TransactMeans(c, w, w.mem[s.name := s], o);
  }

  lemma UpdateMeans(c: Config, w: World, s: Share, o: Outcome)
    requires c.codec.Lawful()
    ensures Means(c, w, if !Sound(s) then Some(InvalidInput) else if s.name !in w.mem then Some(NotFound) else None,
                  w.mem[s.name := s], o, Answer(c, w, Update(s), o), Apply(c, w, Update(s), o))
  {
    SoundIff(s);
    CommitsIff(c, w, w.mem[s.name := s], o);
    TransactMeans(c, w, w.mem[s.name := s], o);
  }

  lemma DeleteMeans(c: Config, w: World, name: string, o: Outcome)
    requires c.codec.Lawful()
    ensures Means(c, w, if name == "" then Some(InvalidInput) else if name !in w.mem then Some(NotFound) else None,
                  w.mem - {name}, o, Answer(c, w, Delete(name), o), Apply(c, w, Delete(name), o))
  {
    CommitsIff(c, w, w.mem - {name}, o);
    TransactMeans(c, w, w.mem - {name}, o);
  }

  /** Every name but one has what it had. */
  ghost predicate SameElsewhere(before: ShareMap, after: ShareMap, name: string) {
    forall other :: other != name ==>
      (other in after <==> other in before) && (other in after ==> after[other] == before[other])
  }

  /** A created or updated share is found under its name, now and after a restart, and nothing else has changed. */
  lemma CreateSurvives(c: Config, w: World, s: Share, o: Outcome)
    requires c.codec.Lawful() && InSync(c, w) && Answer(c, w, Create(s), o) == Nil
    ensures var w' := Apply(c, w, Create(s), o);
            && Load(c, w'.disk.state) == w'.mem
            && s.name !in w.mem && s.name in w'.mem && w'.mem[s.name] == s
            && SameElsewhere(w.mem, w'.mem, s.name)
  {
    CreateMeans(c, w, s, o);
    RestartFinds(c, w.mem[s.name := s]);
  }

  lemma UpdateSurvives(c: Config, w: World, s: Share, o: Outcome)
    requires c.codec.Lawful() && InSync(c, w) && Answer(c, w, Update(s), o) == Nil
    ensures var w' := Apply(c, w, Update(s), o);
            && Load(c, w'.disk.state) == w'.mem
            && s.name in w.mem && s.name in w'.mem && w'.mem[s.name] == s
            && SameElsewhere(w.mem, w'.mem, s.name)
  {
    UpdateMeans(c, w, s, o);
    RestartFinds(c, w.mem[s.name := s]);
  }

  /** A deleted share is not found, now and after a restart, and nothing else has changed. */
  lemma DeleteSurvives(c: Config, w: World, name: string, o: Outcome)
    requires c.codec.Lawful() && InSync(c, w) && Answer(c, w, Delete(name), o) == Nil
    ensures var w' := Apply(c, w, Delete(name), o);
            && Load(c, w'.disk.state) == w'.mem
            && name in w.mem && name !in w'.mem
            && SameElsewhere(w.mem, w'.mem, name)
  {
    DeleteMeans(c, w, name, o);
    RestartFinds(c, w.mem - {name});
  }

  lemma RestartFinds(c: Config, m: ShareMap)
    requires c.codec.Lawful() && WellKeyed(m)
    ensures Load(c, Some(StateText(c, m))) == m
  {
    LoadRendered(c, m);
  }

  // ---- starting, auditing, rolling back ----

  /** A start takes the last share of each name from the state file, and nothing else. */
  lemma LoadMeans(c: Config, text: string, xs: seq<Share>, i: nat)
    requires c.codec.decode(text) == Some(xs)
    ensures forall k :: k in Load(c, Some(text)) ==> exists j :: 0 <= j < |xs| && xs[j].name == k
    ensures i < |xs| && (forall j :: i < j < |xs| ==> xs[j].name != xs[i].name) ==>
              xs[i].name in Load(c, Some(text)) && Load(c, Some(text))[xs[i].name] == xs[i]
  {
    forall k | k in Load(c, Some(text)) ensures exists j :: 0 <= j < |xs| && xs[j].name == k {
      var j := NameListed(xs, k);
    }
    if i < |xs| && (forall j :: i < j < |xs| ==> xs[j].name != xs[i].name) { LastWins(xs, i); }
  }

  lemma {:induction false} NameListed(xs: seq<Share>, k: string) returns (j: nat)
    requires k in FromList(xs)
    ensures j < |xs| && xs[j].name == k
  {
    var n := |xs| - 1;
    if xs[n].name == k {
      j := n;
    } else {
      j := NameListed(xs[..n], k);
    }
  }

  lemma {:induction false} LastWins(xs: seq<Share>, i: nat)
    requires i < |xs| && forall j :: i < j < |xs| ==> xs[j].name != xs[i].name
    ensures xs[i].name in FromList(xs) && FromList(xs)[xs[i].name] == xs[i]
    decreases |xs|
  {
    var n := |xs| - 1;
    if i == n {
    } else {
      assert xs[n].name != xs[i].name;
      LastWins(xs[..n], i);
    }
  }

  /** Without a readable list a start has no shares. */
  lemma NothingToLoad(c: Config, state: Option<string>)
    ensures state.None? || c.codec.decode(state.value).None? ==> Load(c, state) == map[]
  {
  }

  /** One event per operation, with the outcome of its answer; none for a missing target or an empty name. */
  lemma AuditMeans(source: string, m: ShareMap, op: Op, r: Reply)
    ensures Audited(source, m, op, r) ==
            var code := if r == Nil then None else Some(r.code);
            match op
            case Create(s) => [AuditEvent(source, "share.create", s.name, r == Nil, code)]
            case Update(s) =>
              if Sound(s) && s.name !in m then [] else [AuditEvent(source, "share.update", s.name, r == Nil, code)]
            case Delete(name) =>
              if name == "" || name !in m then [] else [AuditEvent(source, "share.delete", name, r == Nil, code)]
  {
    if !op.Delete? { SoundIff(op.share); }
  }

  /** The rollback of a call whose memory others may have changed meanwhile: the created share goes, an updated one
      gets its previous value if it is still there, a deleted one comes back if its name is free. */
  lemma RollbackMeans(m: ShareMap, th: Thread)
    requires th.prev.Some? ==> th.prev.value.name == Target(th.op)
    requires !th.op.Create? ==> th.prev.Some?
    ensures RolledBack(m, th) ==
            match th.op
            case Create(s) => m - {s.name}
            case Update(s) => if s.name in m then m[s.name := th.prev.value] else m
            case Delete(name) => if name in m then m else m[name := th.prev.value]
  {
  }

  /** An update or a deletion whose share has gone since it was looked up is NotFound and changes nothing. */
  lemma GoneIsNotFound(c: Config, w: World, th: Thread, ok: bool)
    requires th.pc == Mutate
    ensures Target(th.op) !in w.mem ==> Step(c, w, th, ok) == (w, th.(pc := Finished(Failed(NotFound))))
    ensures Target(th.op) in w.mem && th.op.Delete? ==> Step(c, w, th, ok).0 == w.(mem := w.mem - {th.op.name})
    ensures Target(th.op) in w.mem && th.op.Update? ==>
              Step(c, w, th, ok).0 == w.(mem := w.mem[th.op.share.name := th.op.share])
  {
  }
}
