/** MountService: mounting and unmounting against the kernel's table, and persisting (internal/service/disk/mount.go). */
module MountService {
  import opened Wrappers
  import opened Text
  import opened FileSystems
  import opened FstabText
  import opened MountOptions
  import opened FstabPersister
  import opened MountTable

  /** What the kernel does with a mount command that names a source and a mountpoint: it refuses, or it records a
      mount with fields of its choice. */
  datatype Kernel = Refuses | Mounts(device: string, fsType: string, options: string)

  /** What any other mount command does: some flags print a text and succeed, others mount something else. */
  datatype Odd = Odd(ok: bool, table: seq<Mount>)

  function AnswerTo(kernel: (Command, Files) -> Kernel, args: seq<string>, files: Files): Option<Kernel> {
    match Understood(args)
    case None => None
    case Some(c) => Some(kernel(c, files))
  }

  /** The step of mountCIFS that fails. */
  datatype Step = Nothing | Creating | Securing | WritingLogin | WritingDomain | Closing

  /** The temporary credentials file of a CIFS mount, and what a torn write leaves in it. */
  datatype LiveTemp = LiveTemp(name: string, torn: string, failing: Step) {
    predicate Fails(opts: Opts) { failing != Nothing && (failing == WritingDomain ==> opts.domain != "") }
  }

  datatype Outcome = Outcome(reply: Reply, table: seq<Mount>)

  /** What running the mount command leads to: the mount that the kernel makes of the request's own meaning, with the
      credentials in place that it refers to. A command with an operand that is read as a flag may do anything. */
  function Live(opts: Opts, kernel: (Command, Files) -> Kernel, odd: Odd, live: LiveTemp, files: Files,
                table: seq<Mount>): Outcome {
    match EntrySource(opts)
    case Err(code) => Outcome(Failed(code), table)
    case Ok(source) =>
      if IsCifs(opts) && live.Fails(opts) then Outcome(Failed(Internal), table)
      else if Flagged(opts) then Outcome(if odd.ok then Nil else Failed(Internal), odd.table)
      else
        var present := if IsCifs(opts) then files[live.name := CredText(opts.username, opts.password, opts.domain)]
                       else files;
        match kernel(Wanted(opts, source, live.name), present)
        case Refuses => Outcome(Failed(Internal), table)
        case Mounts(device, fsType, options) =>
          Outcome(Nil, table + [MountTable.Mount(device, opts.mountPoint, fsType, options)])
  }

  /** A request that no step of the program stops: the kernel answers what is wanted, a refusal is an error, and a grant
      adds one mount with the kernel's fields at the requested mountpoint. */
  lemma GrantedOrRefused(opts: Opts, kernel: (Command, Files) -> Kernel, odd: Odd, live: LiveTemp, files: Files,
                         table: seq<Mount>)
    requires EntrySource(opts).Ok? && !(IsCifs(opts) && live.Fails(opts)) && !Flagged(opts)
    ensures var text := CredText(opts.username, opts.password, opts.domain);
            var present := if EqualFold(opts.fsType, "cifs") then files[live.name := text] else files;
            Live(opts, kernel, odd, live, files, table) ==
            match kernel(Wanted(opts, EntrySource(opts).value, live.name), present)
            case Refuses => Outcome(Failed(Internal), table)
            case Mounts(device, fsType, options) =>
              Outcome(Nil, table + [MountTable.Mount(device, opts.mountPoint, fsType, options)])
  {
  }

  /** Whatever the kernel and the mount program do, success means that the mountpoint is mounted, exactly when no
      operand is read as a flag. */
  lemma NilMountsIff(opts: Opts, live: LiveTemp, files: Files, table: seq<Mount>)
    requires EntrySource(opts).Ok? && !(IsCifs(opts) && live.Fails(opts)) && !Mounted(table, opts.mountPoint)
    ensures (forall kernel, odd :: var o := Live(opts, kernel, odd, live, files, table);
                                   o.reply.Nil? ==> Mounted(o.table, opts.mountPoint)) <==>
            !Flagged(opts)
  {
    if Flagged(opts) {
      var o := Live(opts, (c, f) => Refuses, Odd(true, table), live, files, table);
      assert o == Outcome(Nil, table);
    } else {
      forall kernel, odd
        ensures var o := Live(opts, kernel, odd, live, files, table);
                o.reply.Nil? ==> Mounted(o.table, opts.mountPoint)
      {
        var o := Live(opts, kernel, odd, live, files, table);
        if o.reply.Nil? { assert o.table[|table|] in o.table; }
      }
    }
  }

  /** The source --version: mount prints its version and succeeds, nothing is mounted, and an entry is persisted. */
  lemma VersionMountsNothing(cfg: Config, kernel: (Command, Files) -> Kernel, live: LiveTemp, files: Files,
                             table: seq<Mount>, temp: Temp)
    requires temp.fault.NoFault?
    ensures var opts := Opts("--version", "/mnt", "ext4", false, "", "", "", "", true);
            && Acceptable(opts) && Flagged(opts)
            && Live(opts, kernel, Odd(true, table), live, files, table) == Outcome(Nil, table)
            && Persists(cfg, opts, true, temp, temp)
  {
    var source := "--version";
    assert source[0] == '-';
    assert |"ext4"| == 4 && "ext4"[0] == 'e' && "cifs"[0] == 'c';
  }

  // ---- the table ----

  /** No simple mountpoint occurs twice. */
  ghost predicate Distinct(table: seq<Mount>) {
    forall i, j :: 0 <= i < j < |table| && Simple(table[i].mountPoint) ==> table[i].mountPoint != table[j].mountPoint
  }

  lemma MountKeepsDistinct(table: seq<Mount>, m: Mount)
    requires RecordableTable(table) && Distinct(table) && !Listed(table, m.mountPoint)
    ensures Distinct(table + [m])
  {
    if Simple(m.mountPoint) && Mounted(table, m.mountPoint) { MountedIsListed(table, m.mountPoint); }
    assert forall x :: x in table && Simple(x.mountPoint) ==> x.mountPoint != m.mountPoint;
  }

  /** An understood mount command for a mountpoint that is not listed keeps that. */
  lemma LiveDistinct(opts: Opts, kernel: (Command, Files) -> Kernel, odd: Odd, live: LiveTemp, files: Files,
                     table: seq<Mount>)
    requires !Flagged(opts) && RecordableTable(table) && Distinct(table) && !Listed(table, opts.mountPoint)
    ensures Distinct(Live(opts, kernel, odd, live, files, table).table)
  {
    var after := Live(opts, kernel, odd, live, files, table).table;
    if after != table {
      MountKeepsDistinct(table, after[|table|]);
      assert after == table + [after[|table|]];
    }
  }

  /** umount takes away the latest mount. */
  function Without(table: seq<Mount>, mountPoint: string): seq<Mount> {
    if table == [] then []
    else
      var n := |table| - 1;
      if table[n].mountPoint == mountPoint then table[..n] else Without(table[..n], mountPoint) + [table[n]]
  }

  /** One mount goes, the latest one, and the others keep their order. */
  lemma {:induction false} WithoutOne(table: seq<Mount>, mountPoint: string) returns (i: nat)
    requires Mounted(table, mountPoint)
    ensures i < |table| && table[i].mountPoint == mountPoint
    ensures forall j :: i < j < |table| ==> table[j].mountPoint != mountPoint
    ensures Without(table, mountPoint) == table[..i] + table[i + 1..]
  {
    var n := |table| - 1;
    if table[n].mountPoint == mountPoint {
      i := n;
    } else {
      assert table == table[..n] + [table[n]];
      i := WithoutOne(table[..n], mountPoint);
      assert table[..n][..i] == table[..i];
      assert table[..n][i + 1..] + [table[n]] == table[i + 1..];
    }
  }

  /** Unmounting right after mounting gives the table from before, also where a mountpoint is in use already. */
  lemma UmountUndoesMount(table: seq<Mount>, m: Mount)
    ensures Without(table + [m], m.mountPoint) == table
  {
    assert (table + [m])[..|table|] == table;
  }

  lemma Removed(table: seq<Mount>, i: nat)
    requires RecordableTable(table) && i < |table|
    ensures var rest := table[..i] + table[i + 1..];
            && RecordableTable(rest)
            && (Distinct(table) ==> Distinct(rest))
            && (Distinct(table) && Simple(table[i].mountPoint) ==> !Mounted(rest, table[i].mountPoint))
  {
    var rest := table[..i] + table[i + 1..];
    forall k | 0 <= k < |rest| ensures rest[k] in table && rest[k] == table[if k < i then k else k + 1] {
    }
  }

  lemma RemovedOthers(table: seq<Mount>, i: nat, other: string)
    requires i < |table| && table[i].mountPoint != other
    ensures Mounted(table[..i] + table[i + 1..], other) <==> Mounted(table, other)
  {
    assert table == table[..i] + [table[i]] + table[i + 1..];
  }

  /** The search of Mount and Umount. */
  method Contains(mounts: seq<Mount>, mountPoint: string) returns (found: bool)
    ensures found == Mounted(mounts, mountPoint)
  {
    for i := 0 to |mounts|
      invariant !Mounted(mounts[..i], mountPoint)
    {
      assert mounts[..i + 1] == mounts[..i] + [mounts[i]];
      if mounts[i].mountPoint == mountPoint {
        return true;
      }
    }
    assert mounts[..|mounts|] == mounts;
    return false;
  }

  class Service {
    const fs: FileSystem
    const cfg: Config
    var table: seq<Mount>
    var log: seq<AuditEvent>

    ghost predicate Valid()
      reads this
    {
      cfg.WellFormed() && RecordableTable(table)
    }

    constructor (fs: FileSystem, cfg: Config, table: seq<Mount>)
      requires cfg.WellFormed() && RecordableTable(table)
      ensures this.fs == fs && this.cfg == cfg && this.table == table && log == [] && Valid()
    {
      this.fs, this.cfg, this.table, this.log := fs, cfg, table, [];
    }

    method LogAudit(source: string, action: string, target: string, success: bool, code: Option<ErrorCode>)
      modifies this`log
      ensures log == old(log) + [AuditEvent(source, action, target, success, code)]
    {
      log := log + [AuditEvent(source, action, target, success, code)];
    }

    /** listLocked and the search for a mountpoint in the text of the table, if that can be read. */
    method IsMounted(mountPoint: string, readable: bool) returns (r: Result<bool>)
      requires Valid()
      ensures r.Ok? <==> readable && Fits(table)
      ensures if r.Ok? then r.value <==> Listed(table, mountPoint) else r.code == Internal
    {
      if !readable {
        return Err(Internal);
      }
      ParseInvertsPrint(table);
      ListedSeen(table, mountPoint);
      var mounts := ParseMounts(ProcMounts(table));
      if mounts.Err? {
        return Err(mounts.code);
      }
      var found := Contains(mounts.value, mountPoint);
      return Ok(found);
    }

    /** The temporary file of a CIFS mount holds the complete credentials while the command runs, and is gone
        afterwards. */
    method MountCIFS(opts: Opts, kernel: (Command, Files) -> Kernel, live: LiveTemp)
      returns (answer: Result<Option<Kernel>>)
      requires IsCifs(opts) && live.name !in fs.files && Part("credentials=" + live.name)
      modifies fs
      ensures answer == match EntrySource(opts)
                        case Err(code) => Err(code)
                        case Ok(source) =>
                          if live.Fails(opts) then Err(Internal)
                          else if Flagged(opts) then Ok(None)
                          else
                            var text := CredText(opts.username, opts.password, opts.domain);
                            Ok(Some(kernel(Wanted(opts, source, live.name), old(fs.files)[live.name := text])))
      ensures fs.files == old(fs.files) && OnlyReplaces(fs, live.name, old(fs.files), old(fs.files))
    {
      ghost var before := fs.files;
      var source := NormalizeCIFSSource(opts.source);
      if source.Err? {
        return Err(source.code);
      }
      if live.failing == Creating {
        return Err(Internal);
      }
      var r := WriteLogin(opts, live);
      if r.Nil? {
        NormalizedShape(opts.source);
        var args := CifsArgs(opts, source.value, live.name);
        answer := Ok(AnswerTo(kernel, args, fs.files));
      } else {
        answer := Err(Internal);
      }
      fs.Remove(live.name);
      assert fs.files == before;
      assert fs.files - {live.name} == before;
    }

    /** Creating, securing, writing and closing the temporary file. */
    method WriteLogin(opts: Opts, live: LiveTemp) returns (r: Reply)
      requires live.name !in fs.files && live.failing != Creating
      modifies fs
      ensures r == if live.Fails(opts) then Failed(Internal) else Nil
      ensures live.name in fs.files && fs.files - {live.name} == old(fs.files)
      ensures r.Nil? ==>
                fs.files == old(fs.files)[live.name := CredText(opts.username, opts.password, opts.domain)]
      ensures OnlyReplaces(fs, live.name, old(fs.files), old(fs.files))
    {
      ghost var before, start := fs.files, fs.crashes;
      PutAside(fs.files, before, live.name, "");
      fs.Create(live.name);
      if live.failing == Securing {
        return Failed(Internal);
      }
      ghost var created := fs.crashes;
      var login := "username=" + opts.username + "\npassword=" + opts.password + "\n";
      assert login + "" == login;
      PutTemp(fs, live.name, login, live.torn, live.failing != WritingLogin, before);
      AddedInTurn(start, created, fs.crashes, live.name, before, before);
      if live.failing == WritingLogin {
        return Failed(Internal);
      }
      if opts.domain != "" {
        ghost var written := fs.crashes;
        var full := login + ("domain=" + opts.domain + "\n");
        PutTemp(fs, live.name, full, live.torn, live.failing != WritingDomain, before);
        AddedInTurn(start, written, fs.crashes, live.name, before, before);
        if live.failing == WritingDomain {
          return Failed(Internal);
        }
      }
      return if live.failing == Closing then Failed(Internal) else Nil;
    }

    /** mountCIFS or mountGeneric: the table becomes what the command makes of the request. */
    method RunMount(opts: Opts, kernel: (Command, Files) -> Kernel, odd: Odd, live: LiveTemp) returns (r: Reply)
      requires Valid()
      requires live.name !in fs.files && Part("credentials=" + live.name)
      requires RecordableTable(Live(opts, kernel, odd, live, fs.files, table).table)
      modifies this`table, fs
      ensures Valid()
      ensures Live(opts, kernel, odd, live, old(fs.files), old(table)) == Outcome(r, table)
      ensures fs.files == old(fs.files) && OnlyReplaces(fs, live.name, old(fs.files), old(fs.files))
    {
      var answer: Option<Kernel>;
      if EqualFold(opts.fsType, "cifs") {
        var cifs := MountCIFS(opts, kernel, live);
        if cifs.Err? {
          return Failed(cifs.code);
        }
        NormalizedShape(opts.source);
        answer := cifs.value;
      } else {
        var args := GenericArgs(opts);
        answer := AnswerTo(kernel, args, fs.files);
      }
      match answer {
        case None =>
          table := odd.table;
          return if odd.ok then Nil else Failed(Internal);
        case Some(Refuses) =>
          return Failed(Internal);
        case Some(Mounts(device, fsType, options)) =>
          table := table + [MountTable.Mount(device, opts.mountPoint, fsType, options)];
          return Nil;
      }
    }

    /** Conflict is the answer exactly when the mountpoint is listed. Otherwise the table becomes what the command
        makes of the request, and after a success a persistent mount is recorded in the fstab. */
    method Mount(opts: Opts, source: string, readableTable: bool, kernel: (Command, Files) -> Kernel, odd: Odd,
                 live: LiveTemp, readable: bool, temp1: Temp, temp2: Temp)
      returns (r: Reply)
      requires Valid()
      requires live.name !in fs.files && Part("credentials=" + live.name)
      requires RecordableTable(Live(opts, kernel, odd, live, fs.files, table).table)
      requires cfg.FreshName(temp1.name, fs.files) && temp1.fault != AtFinalChmod
      requires cfg.FreshName(temp2.name, fs.files) && temp2.fault != AtFinalChmod
      modifies this, fs
      ensures Valid()
      ensures var m := Live(opts, kernel, odd, live, old(fs.files), old(table));
              var listable := readableTable && Fits(old(table));
              var tried := Acceptable(opts) && listable && !Listed(old(table), opts.mountPoint);
              && table == (if tried then m.table else old(table))
              && r == if !Acceptable(opts) then Failed(InvalidInput)
                      else if !listable then Failed(Internal)
                      else if Listed(old(table), opts.mountPoint) then Failed(Conflict)
                      else if m.reply.Failed? then m.reply
                      else if opts.persistent && !Persists(cfg, opts, readable, temp1, temp2) then Failed(Internal)
                      else Nil
      ensures Distinct(old(table)) && !Flagged(opts) ==> Distinct(table)
      ensures Get(fs.files, cfg.fstabPath) != Get(old(fs.files), cfg.fstabPath) ==> r.Nil? && opts.persistent
      ensures r.Nil? && opts.persistent ==>
                Entry(cfg, opts).Ok? && fs.files == WithEntry(cfg, old(fs.files), opts, Entry(cfg, opts).value)
      ensures !opts.persistent ==> fs.files == old(fs.files)
      ensures |old(fs.crashes)| <= |fs.crashes| && fs.crashes[..|old(fs.crashes)|] == old(fs.crashes)
      ensures forall k :: |old(fs.crashes)| <= k < |fs.crashes| ==>
                || fs.crashes[k] - {live.name} == old(fs.files)
                || (opts.persistent && Stage(cfg, fs.crashes[k], {temp1.name, temp2.name}, old(fs.files), opts))
      ensures log == old(log) +
                     if !Acceptable(opts) then
                       [AuditEvent(source, "disk.mount", opts.mountPoint, false, Some(InvalidInput))]
                     else if !(readableTable && Fits(old(table))) then []
                     else if Listed(old(table), opts.mountPoint) then
                       [AuditEvent(source, "disk.mount", opts.mountPoint, false, Some(Conflict))]
                     else if Live(opts, kernel, odd, live, old(fs.files), old(table)).reply.Failed? then
                       [AuditEvent(source, "disk.mount", opts.mountPoint, false, Some(Internal))]
                     else if opts.persistent && !Persists(cfg, opts, readable, temp1, temp2) then
                       [AuditEvent(source, "disk.mount.persist", opts.mountPoint, false, Some(Internal))]
                     else [AuditEvent(source, "disk.mount", opts.mountPoint, true, None)]
    {
      if !Acceptable(opts) {
        LogAudit(source, "disk.mount", opts.mountPoint, false, Some(InvalidInput));
        return Failed(InvalidInput);
      }
      var found := IsMounted(opts.mountPoint, readableTable);
      if found.Err? {
        return Failed(found.code);
      }
      if found.value {
        LogAudit(source, "disk.mount", opts.mountPoint, false, Some(Conflict));
        return Failed(Conflict);
      }
      if Distinct(table) && !Flagged(opts) { LiveDistinct(opts, kernel, odd, live, fs.files, table); }
      r := MountAndPersist(opts, source, kernel, odd, live, readable, temp1, temp2);
    }

    /** The part of Mount after the checks. */
    method MountAndPersist(opts: Opts, source: string, kernel: (Command, Files) -> Kernel, odd: Odd, live: LiveTemp,
                           readable: bool, temp1: Temp, temp2: Temp)
      returns (r: Reply)
      requires Valid()
      requires live.name !in fs.files && Part("credentials=" + live.name)
      requires RecordableTable(Live(opts, kernel, odd, live, fs.files, table).table)
      requires cfg.FreshName(temp1.name, fs.files) && temp1.fault != AtFinalChmod
      requires cfg.FreshName(temp2.name, fs.files) && temp2.fault != AtFinalChmod
      modifies this, fs
      ensures Valid()
      ensures var m := Live(opts, kernel, odd, live, old(fs.files), old(table));
              && table == m.table
              && r == if m.reply.Failed? then m.reply
                      else if opts.persistent && !Persists(cfg, opts, readable, temp1, temp2) then Failed(Internal)
                      else Nil
      ensures Get(fs.files, cfg.fstabPath) != Get(old(fs.files), cfg.fstabPath) ==> r.Nil? && opts.persistent
      ensures r.Nil? && opts.persistent ==>
                Entry(cfg, opts).Ok? && fs.files == WithEntry(cfg, old(fs.files), opts, Entry(cfg, opts).value)
      ensures !opts.persistent ==> fs.files == old(fs.files)
      ensures |old(fs.crashes)| <= |fs.crashes| && fs.crashes[..|old(fs.crashes)|] == old(fs.crashes)
      ensures forall k :: |old(fs.crashes)| <= k < |fs.crashes| ==>
                || fs.crashes[k] - {live.name} == old(fs.files)
                || (opts.persistent && Stage(cfg, fs.crashes[k], {temp1.name, temp2.name}, old(fs.files), opts))
      ensures log == old(log) +
                     if Live(opts, kernel, odd, live, old(fs.files), old(table)).reply.Failed? then
                       [AuditEvent(source, "disk.mount", opts.mountPoint, false, Some(Internal))]
                     else if opts.persistent && !Persists(cfg, opts, readable, temp1, temp2) then
                       [AuditEvent(source, "disk.mount.persist", opts.mountPoint, false, Some(Internal))]
                     else [AuditEvent(source, "disk.mount", opts.mountPoint, true, None)]
    {
      ghost var start := fs.crashes;
      r := RunMount(opts, kernel, odd, live);
      if r.Failed? {
        LogAudit(source, "disk.mount", opts.mountPoint, false, Some(Internal));
        return r;
      }
      ghost var middle := fs.crashes;
      if opts.persistent {
        r := PersistMount(opts, readable, temp1, temp2);
        assert fs.crashes[..|start|] == fs.crashes[..|middle|][..|start|];
        assert forall k :: |start| <= k < |middle| ==> fs.crashes[k] == fs.crashes[..|middle|][k];
        if r.Failed? {
          LogAudit(source, "disk.mount.persist", opts.mountPoint, false, Some(Internal));
          return Failed(Internal);
        }
      }
      LogAudit(source, "disk.mount", opts.mountPoint, true, None);
      return Nil;
    }

    /** Persist, as far as a mount sees it. */
    method PersistMount(opts: Opts, readable: bool, temp1: Temp, temp2: Temp) returns (r: Reply)
      requires Valid()
      requires cfg.FreshName(temp1.name, fs.files) && temp1.fault != AtFinalChmod
      requires cfg.FreshName(temp2.name, fs.files) && temp2.fault != AtFinalChmod
      modifies fs
      ensures r.Nil? <==> Persists(cfg, opts, readable, temp1, temp2)
      ensures r.Nil? ==> fs.files == WithEntry(cfg, old(fs.files), opts, Entry(cfg, opts).value)
      ensures r.Failed? ==> Get(fs.files, cfg.fstabPath) == Get(old(fs.files), cfg.fstabPath)
      ensures |old(fs.crashes)| <= |fs.crashes| && fs.crashes[..|old(fs.crashes)|] == old(fs.crashes)
      ensures forall k :: |old(fs.crashes)| <= k < |fs.crashes| ==>
                Stage(cfg, fs.crashes[k], {temp1.name, temp2.name}, old(fs.files), opts)
    {
      CredPathIsNotFstab(cfg, opts.mountPoint);
      r := Persist(fs, cfg, opts, readable, temp1, temp2);
    }

    /** NotFound is the answer exactly when the mountpoint is not listed; success takes away one mount of it. */
    method Umount(mountPoint: string, source: string, readableTable: bool, ok: bool) returns (r: Reply)
      requires Valid()
      modifies this
      ensures Valid()
      ensures r == if !(readableTable && Fits(old(table))) then Failed(Internal)
                   else if !Listed(old(table), mountPoint) then Failed(NotFound)
                   else if ok && Mounted(old(table), mountPoint) then Nil else Failed(Internal)
      ensures table == if r.Nil? then Without(old(table), mountPoint) else old(table)
      ensures Distinct(old(table)) ==> Distinct(table) && (r.Nil? && Simple(mountPoint) ==> !Mounted(table, mountPoint))
      ensures forall other :: other != mountPoint ==> (Mounted(table, other) <==> Mounted(old(table), other))
      ensures log == old(log) + if !(readableTable && Fits(old(table))) then []
                                else [AuditEvent(source, "disk.umount", mountPoint, r.Nil?,
                                                 if r.Nil? then None else Some(r.code))]
    {
      var found := IsMounted(mountPoint, readableTable);
      if found.Err? {
        return Failed(found.code);
      }
      if !found.value {
        LogAudit(source, "disk.umount", mountPoint, false, Some(NotFound));
        return Failed(NotFound);
      }
      if !ok || !Mounted(table, mountPoint) {
        LogAudit(source, "disk.umount", mountPoint, false, Some(Internal));
        return Failed(Internal);
      }
      ghost var i := WithoutOne(table, mountPoint);
      Removed(table, i);
      forall other | other != mountPoint
        ensures Mounted(Without(table, mountPoint), other) <==> Mounted(table, other)
      {
        RemovedOthers(table, i, other);
      }
      table := Without(table, mountPoint);
      LogAudit(source, "disk.umount", mountPoint, true, None);
      return Nil;
    }
  }
}
