/** internal/service/share: the file backend and the manager, step by step. */
module ShareService {
  import opened Wrappers
  import opened ShareTypes
  import opened ShareSpec
  import SambaPrinter
  import ExportsPrinter

  datatype Target = StateFile | SambaConf | NfsExports

  /** The operating system: three files, and two services with the configuration that each has loaded. */
  class Host {
    var disk: Disk
    var smbd: Option<string>
    var nfsd: Option<string>

    constructor (disk: Disk, smbd: Option<string>, nfsd: Option<string>)
      ensures this.disk == disk && this.smbd == smbd && this.nfsd == nfsd
    {
      this.disk, this.smbd, this.nfsd := disk, smbd, nfsd;
    }

    static function Get(d: Disk, t: Target): Option<string> {
      match t case StateFile => d.state case SambaConf => d.samba case NfsExports => d.nfs
    }

    static function Put(d: Disk, t: Target, content: Option<string>): Disk {
      match t
      case StateFile => d.(state := content)
      case SambaConf => d.(samba := content)
      case NfsExports => d.(nfs := content)
    }

    /** os.ReadFile; None for an absent file. */
    method ReadFile(t: Target) returns (content: Option<string>)
      ensures content == Get(disk, t)
    {
      content := Get(disk, t);
    }

    /** os.WriteFile. */
    method WriteFile(t: Target, text: string, result: Write) returns (ok: bool)
      modifies this`disk
      ensures ok == result.Done?
      ensures disk == Put(old(disk), t, if result.Done? then Some(text) else result.left)
    {
      disk := Put(disk, t, if result.Done? then Some(text) else result.left);
      return result.Done?;
    }

    /** restoreFile: a nil snapshot stands for an absent file. */
    method RestoreFile(t: Target, content: Option<string>)
      modifies this`disk
      ensures disk == Put(old(disk), t, content)
    {
      match content {
        case Some(text) =>
          var ok := WriteFile(t, text, Done);
        case None =>
          disk := Put(disk, t, None);
      }
    }

    /** smbcontrol all reload-config. */
    method ReloadSamba(ok: bool)
      modifies this`smbd
      ensures smbd == if ok then disk.samba else old(smbd)
    {
      if ok {
        smbd := disk.samba;
      }
    }

    /** exportfs -ra. */
    method ReloadNfs(ok: bool)
      modifies this`nfsd
      ensures nfsd == if ok then disk.nfs else old(nfsd)
    {
      if ok {
        nfsd := disk.nfs;
      }
    }
  }

  class FileBackend {
    var shares: ShareMap
    const host: Host
    const cfg: Config

    ghost function View(): World
      reads this, host
    {
      World(shares, host.disk, host.smbd, host.nfsd)
    }

    /** newFileBackendWithConfig: the map is filled from the state file. */
    constructor (host: Host, cfg: Config)
      ensures this.host == host && this.cfg == cfg
      ensures View() == StartUp(cfg, host.disk, host.smbd, host.nfsd)
    {
      this.host, this.cfg, this.shares := host, cfg, map[];
      new;
      var data := host.ReadFile(StateFile);
      if data.Some? {
        var parsed := cfg.codec.decode(data.value);
        if parsed.Some? {
          var list := parsed.value;
          for i := 0 to |list|
            invariant this.shares == FromList(list[..i])
          {
            this.shares := this.shares[list[i].name := list[i]];
            assert list[..i + 1][..i] == list[..i];
          }
          assert list[..|list|] == list;
        }
      }
    }

    method Get(name: string) returns (r: Result<Share>)
      ensures r == if name in shares then Ok(shares[name]) else Err(NotFound)
    {
      if name !in shares {
        return Err(NotFound);
      }
      return Ok(shares[name]);
    }

    method Create(s: Share) returns (r: Reply)
      modifies this`shares
      ensures r == if s.name in old(shares) then Failed(Conflict) else Nil
      ensures shares == if r.Nil? then old(shares)[s.name := s] else old(shares)
    {
      if s.name in shares {
        return Failed(Conflict);
      }
      shares := shares[s.name := s];
      return Nil;
    }

    method Update(s: Share) returns (r: Reply)
      modifies this`shares
      ensures r == if s.name in old(shares) then Nil else Failed(NotFound)
      ensures shares == if r.Nil? then old(shares)[s.name := s] else old(shares)
    {
      if s.name !in shares {
        return Failed(NotFound);
      }
      shares := shares[s.name := s];
      return Nil;
    }

    method Delete(name: string) returns (r: Reply)
      modifies this`shares
      ensures r == if name in old(shares) then Nil else Failed(NotFound)
      ensures shares == if r.Nil? then old(shares) - {name} else old(shares)
    {
      if name !in shares {
        return Failed(NotFound);
      }
      shares := shares - {name};
      return Nil;
    }

    /** Ranging over a map visits its values in some order; sorting makes the result independent of it. */
    method Listing() returns (sorted: seq<Share>)
      requires WellKeyed(shares)
      ensures sorted == Sorted(shares)
    {
      var listing: seq<Share> := [];
      var rest := shares.Keys;
      while rest != {}
        invariant rest <= shares.Keys
        invariant Enumerates(listing, shares - rest)
        decreases |rest|
      {
        var name :| name in rest;
        ghost var before := listing;
        listing := listing + [shares[name]];
        rest := rest - {name};
        ListedOneMore(shares, before, name, rest);
      }
      assert shares - rest == shares;
      sorted := SortByName(listing);
      SortedDeterministic(shares, listing, sorted);
    }

    /** The kinds of share in a list. */
    method Kinds(list: seq<Share>) returns (hasSamba: bool, hasNfs: bool)
      ensures hasSamba <==> HasKind(list, Samba)
      ensures hasNfs <==> HasKind(list, Nfs)
    {
      hasSamba, hasNfs := false, false;
      for i := 0 to |list|
        invariant hasSamba <==> HasKind(list[..i], Samba)
        invariant hasNfs <==> HasKind(list[..i], Nfs)
      {
        assert list[..i + 1] == list[..i] + [list[i]];
        match list[i].kind {
          case Samba => hasSamba := true; assert list[i] in list[..i + 1];
          case Nfs => hasNfs := true; assert list[i] in list[..i + 1];
          case Other(_) =>
        }
      }
      assert list[..|list|] == list;
    }

    method DiskHasShareTypes(data: Option<string>) returns (hasSamba: bool, hasNfs: bool)
      ensures hasSamba <==> HadKind(cfg, data, Samba)
      ensures hasNfs <==> HadKind(cfg, data, Nfs)
    {
      if data.None? || data.value == "" {
        return false, false;
      }
      var parsed := cfg.codec.decode(data.value);
      if parsed.None? {
        return false, false;
      }
      hasSamba, hasNfs := Kinds(parsed.value);
    }

    method RestoreDisk(oldState: Option<string>, oldSambaConf: Option<string>, oldNFSExports: Option<string>)
      modifies host`disk
      ensures host.disk == Disk(oldState, oldSambaConf, oldNFSExports)
    {
      host.RestoreFile(StateFile, oldState);
      host.RestoreFile(SambaConf, oldSambaConf);
      host.RestoreFile(NfsExports, oldNFSExports);
    }

    /** Refines the file and service part of the transaction; memory is the caller's. */
    method Reload(o: Outcome) returns (r: Reply)
      requires WellKeyed(shares)
      modifies host
      ensures r == if Commits(cfg, old(host.disk), shares, o) then Nil else Failed(Internal)
      ensures View() == Transact(cfg, old(View()), shares, o)
    {
      var sorted := Listing();

      var oldState := host.ReadFile(StateFile);
      var oldSambaConf := host.ReadFile(SambaConf);
      var oldNFSExports := host.ReadFile(NfsExports);
      var hadSamba, hadNFS := DiskHasShareTypes(oldState);

      var ok := WriteFiles(sorted, o);
      if !ok {
        return Failed(Internal);
      }
      var hasSamba, hasNFS := Kinds(sorted);
      r := SignalServices(hasSamba || hadSamba, hasNFS || hadNFS, oldState, oldSambaConf, oldNFSExports, o);
    }

    /** The three writes of a reload; the first one that fails is the last. */
    method WriteFiles(sorted: seq<Share>, o: Outcome) returns (ok: bool)
      requires sorted == Sorted(shares)
      modifies host`disk
      ensures ok == o.WritesSucceed()
      ensures host.disk == if ok then Rendered(cfg, shares) else Damaged(cfg, old(host.disk), shares, o)
    {
      ok := host.WriteFile(StateFile, cfg.codec.encode(sorted), o.state);
      if !ok {
        return false;
      }
      var sambaText := SambaPrinter.WriteSambaConf(cfg.confPath, sorted);
      ok := host.WriteFile(SambaConf, sambaText, o.samba);
      if !ok {
        return false;
      }
      var exportsText := ExportsPrinter.WriteNFSExports(sorted);
      ok := host.WriteFile(NfsExports, exportsText, o.nfs);
      if !ok {
        return false;
      }
      return true;
    }

    /** The commands of a reload, and the restore of the three files when one fails. */
    method SignalServices(samba: bool, nfs: bool, oldState: Option<string>, oldSambaConf: Option<string>,
                          oldNFSExports: Option<string>, o: Outcome)
      returns (r: Reply)
      modifies host
      ensures r == if (samba ==> o.smbcontrol) && (nfs ==> o.exportfs) then Nil else Failed(Internal)
      ensures host.disk == if r.Nil? then old(host.disk) else Disk(oldState, oldSambaConf, oldNFSExports)
      ensures host.smbd == if samba && o.smbcontrol then old(host.disk).samba else old(host.smbd)
      ensures host.nfsd == if nfs && r.Nil? then old(host.disk).nfs else old(host.nfsd)
    {
      if samba {
        host.ReloadSamba(o.smbcontrol);
        if !o.smbcontrol {
          RestoreDisk(oldState, oldSambaConf, oldNFSExports);
          return Failed(Internal);
        }
      }
      if nfs {
        host.ReloadNfs(o.exportfs);
        if !o.exportfs {
          RestoreDisk(oldState, oldSambaConf, oldNFSExports);
          return Failed(Internal);
        }
      }
      return Nil;
    }
  }

  lemma ListedOneMore(m: ShareMap, before: seq<Share>, name: string, rest: set<string>)
    requires WellKeyed(m) && name in m && name !in rest && rest <= m.Keys
    requires Enumerates(before, m - (rest + {name}))
    ensures Enumerates(before + [m[name]], m - rest)
  {
    var after := before + [m[name]];
    forall k | k in m - rest ensures k in Names(after) {
      if k == name {
        assert Names(after)[|before|] == name;
      } else {
        assert k in Names(before);
        var i :| 0 <= i < |before| && Names(before)[i] == k;
        assert Names(after)[i] == k;
      }
    }
  }

  lemma InsertUndone(m: ShareMap, s: Share)
    requires s.name !in m
    ensures m[s.name := s] - {s.name} == m
  {
  }

  lemma ReplaceUndone(m: ShareMap, s: Share)
    requires s.name in m
    ensures m[s.name := s][s.name := m[s.name]] == m
  {
  }

  lemma RemoveUndone(m: ShareMap, name: string)
    requires name in m
    ensures (m - {name})[name := m[name]] == m
  {
  }

  class Manager {
    const backend: FileBackend
    var log: seq<AuditEvent>

    constructor (backend: FileBackend)
      ensures this.backend == backend && log == []
    {
      this.backend, this.log := backend, [];
    }

    method LogAudit(source: string, action: string, target: string, success: bool, code: Option<ErrorCode>)
      modifies this`log
      ensures log == old(log) + [AuditEvent(source, action, target, success, code)]
    {
      log := log + [AuditEvent(source, action, target, success, code)];
    }

    method Create(s: Share, source: string, o: Outcome) returns (r: Reply)
      requires WellKeyed(backend.shares)
      modifies this, backend, backend.host
      ensures WellKeyed(backend.shares)
      ensures backend.View() == Apply(backend.cfg, old(backend.View()), Op.Create(s), o)
      ensures r == Answer(backend.cfg, old(backend.View()), Op.Create(s), o)
      ensures backend.shares == if r.Nil? then old(backend.shares)[s.name := s] else old(backend.shares)
      ensures log == old(log) + Audited(source, old(backend.shares), Op.Create(s), r)
    {
      if !ValidShare(s) {
        LogAudit(source, "share.create", s.name, false, Some(InvalidInput));
        return Failed(InvalidInput);
      }
      r := backend.Create(s);
      if r.Failed? {
        LogAudit(source, "share.create", s.name, false, Some(r.code));
        return r;
      }
      r := ReloadCreated(s, source, o, old(backend.shares));
    }

    /** The reload of a create, and the removal of the share when it fails. */
    method ReloadCreated(s: Share, source: string, o: Outcome, ghost before: ShareMap) returns (r: Reply)
      requires s.name !in before && backend.shares == before[s.name := s] && WellKeyed(backend.shares)
      modifies this, backend, backend.host
      ensures backend.View() == Transact(backend.cfg, old(backend.View()).(mem := before), before[s.name := s], o)
      ensures var commits := Commits(backend.cfg, old(backend.host.disk), before[s.name := s], o);
              r == if commits then Nil else Failed(Internal)
      ensures log == old(log) + [AuditEvent(source, "share.create", s.name, r.Nil?,
                                            if r.Nil? then None else Some(Internal))]
    {
      r := backend.Reload(o);
      if r.Failed? {
        var rollback := backend.Delete(s.name);
        InsertUndone(before, s);
        LogAudit(source, "share.create", s.name, false, Some(Internal));
        return Failed(Internal);
      }
      LogAudit(source, "share.create", s.name, true, None);
      return Nil;
    }

    method Update(s: Share, source: string, o: Outcome) returns (r: Reply)
      requires WellKeyed(backend.shares)
      modifies this, backend, backend.host
      ensures WellKeyed(backend.shares)
      ensures backend.View() == Apply(backend.cfg, old(backend.View()), Op.Update(s), o)
      ensures r == Answer(backend.cfg, old(backend.View()), Op.Update(s), o)
      ensures backend.shares == if r.Nil? then old(backend.shares)[s.name := s] else old(backend.shares)
      ensures log == old(log) + Audited(source, old(backend.shares), Op.Update(s), r)
    {
      if !ValidShare(s) {
        LogAudit(source, "share.update", s.name, false, Some(InvalidInput));
        return Failed(InvalidInput);
      }
      var prev := backend.Get(s.name);
      if prev.Err? {
        return Failed(prev.code);
      }
      assert Refused(backend.shares, Op.Update(s)).None?;
      r := backend.Update(s);
      assert r.Nil?; // nothing runs in between here; ShareInterleaving has the other case
      r := backend.Reload(o);
      if r.Failed? {
        var rollback := backend.Update(prev.value);
        ReplaceUndone(old(backend.shares), s);
        LogAudit(source, "share.update", s.name, false, Some(Internal));
        return Failed(Internal);
      }
      LogAudit(source, "share.update", s.name, true, None);
      return Nil;
    }

    method Delete(name: string, source: string, o: Outcome) returns (r: Reply)
      requires WellKeyed(backend.shares)
      modifies this, backend, backend.host
      ensures WellKeyed(backend.shares)
      ensures backend.View() == Apply(backend.cfg, old(backend.View()), Op.Delete(name), o)
      ensures r == Answer(backend.cfg, old(backend.View()), Op.Delete(name), o)
      ensures backend.shares == if r.Nil? then old(backend.shares) - {name} else old(backend.shares)
      ensures log == old(log) + Audited(source, old(backend.shares), Op.Delete(name), r)
    {
      if name == "" {
        return Failed(InvalidInput);
      }
      var prev := backend.Get(name);
      if prev.Err? {
        return Failed(prev.code);
      }
      r := backend.Delete(name);
      assert r.Nil?; // nothing runs in between here; ShareInterleaving has the other case
      r := backend.Reload(o);
      if r.Failed? {
        var rollback := backend.Create(prev.value);
        RemoveUndone(old(backend.shares), name);
        LogAudit(source, "share.delete", name, false, Some(Internal));
        return Failed(Internal);
      }
      LogAudit(source, "share.delete", name, true, None);
      return Nil;
    }
  }
}
