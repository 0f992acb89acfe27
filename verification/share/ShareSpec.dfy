/** What a share operation promises: an all-or-nothing change of memory and of three files, followed by
    the reload of up to two services. */
module ShareSpec {
  import opened Wrappers
  import opened ShareTypes
  import SambaPrinter
  import ExportsPrinter
  import Text

  datatype Config = Config(codec: Codec<Share>, confPath: string)

  /** The state file, the Samba snippet and the exports file; None is an absent file. */
  datatype Disk = Disk(state: Option<string>, samba: Option<string>, nfs: Option<string>)

  /** Memory, files, and the configuration texts that smbd and nfsd loaded last. */
  datatype World = World(mem: ShareMap, disk: Disk, smbd: Option<string>, nfsd: Option<string>)

  /** os.WriteFile: a failed write leaves whatever it leaves. */
  datatype Write = Done | Torn(left: Option<string>)

  /** What the operating system answers during one reload. */
  datatype Outcome = Outcome(state: Write, samba: Write, nfs: Write, smbcontrol: bool, exportfs: bool) {
    predicate WritesSucceed() { state.Done? && samba.Done? && nfs.Done? }
  }

  datatype Op = Create(share: Share) | Update(share: Share) | Delete(name: string)

  predicate ValidShare(s: Share) {
    && Text.TrimSpace(s.name) != ""
    && '/' !in s.name
    && Text.TrimSpace(s.path) != ""
    && !s.kind.Other?
  }

  // ---- files ----

  function Load(c: Config, state: Option<string>): ShareMap {
    if state.Some? && c.codec.decode(state.value).Some? then FromList(c.codec.decode(state.value).value) else map[]
  }

  ghost function Rendered(c: Config, m: ShareMap): Disk {
    Disk(Some(c.codec.encode(Sorted(m))),
         Some(SambaPrinter.SambaText(c.confPath, Sorted(m))),
         Some(ExportsPrinter.ExportsText(Sorted(m))))
  }

  ghost predicate HadKind(c: Config, state: Option<string>, kind: ShareType) {
    && state.Some? && state.value != ""
    && c.codec.decode(state.value).Some?
    && HasKind(c.codec.decode(state.value).value, kind)
  }

  /** A service is signalled when it has shares now or had them on disk before. */
  ghost predicate Signalled(c: Config, disk: Disk, next: ShareMap, kind: ShareType) {
    HasKind(Sorted(next), kind) || HadKind(c, disk.state, kind)
  }

  // ---- the transaction ----

  ghost predicate Commits(c: Config, disk: Disk, next: ShareMap, o: Outcome) {
    && o.WritesSucceed()
    && (Signalled(c, disk, next, Samba) ==> o.smbcontrol)
    && (Signalled(c, disk, next, Nfs) ==> o.exportfs)
  }

  /** smbd loads the new snippet when it is signalled and the command succeeds. */
  ghost function Smbd(c: Config, w: World, next: ShareMap): Option<string> {
    if Signalled(c, w.disk, next, Samba) then Rendered(c, next).samba else w.smbd
  }

  ghost function Nfsd(c: Config, w: World, next: ShareMap): Option<string> {
    if Signalled(c, w.disk, next, Nfs) then Rendered(c, next).nfs else w.nfsd
  }

  /** What a failed write leaves: the files written before it are not restored. */
  ghost function Damaged(c: Config, disk: Disk, next: ShareMap, o: Outcome): Disk
    requires !o.WritesSucceed()
  {
    if o.state.Torn? then disk.(state := o.state.left)
    else if o.samba.Torn? then disk.(state := Rendered(c, next).state, samba := o.samba.left)
    else Rendered(c, next).(nfs := o.nfs.left)
  }

  /** Replacing the memory of `w` by `next`, all or nothing as far as the commands go. */
  ghost function Transact(c: Config, w: World, next: ShareMap, o: Outcome): World {
    if Commits(c, w.disk, next, o) then World(next, Rendered(c, next), Smbd(c, w, next), Nfsd(c, w, next))
    else if !o.WritesSucceed() then w.(disk := Damaged(c, w.disk, next, o))
    else if Signalled(c, w.disk, next, Samba) && !o.smbcontrol then w
    else w.(smbd := Smbd(c, w, next))
  }

  /** The reason for which an operation is turned down before it changes anything. */
  function Refused(m: ShareMap, op: Op): Option<ErrorCode> {
    match op
    case Create(s) =>
      if !ValidShare(s) then Some(InvalidInput) else if s.name in m then Some(Conflict) else None
    case Update(s) =>
      if !ValidShare(s) then Some(InvalidInput) else if s.name !in m then Some(NotFound) else None
    case Delete(name) =>
      if name == "" then Some(InvalidInput) else if name !in m then Some(NotFound) else None
  }

  /** The memory that an accepted operation asks for. */
  function Intended(m: ShareMap, op: Op): ShareMap {
    match op
    case Create(s) => m[s.name := s]
    case Update(s) => m[s.name := s]
    case Delete(name) => m - {name}
  }

  ghost function Apply(c: Config, w: World, op: Op, o: Outcome): World {
    if Refused(w.mem, op).Some? then w else Transact(c, w, Intended(w.mem, op), o)
  }

  ghost function Answer(c: Config, w: World, op: Op, o: Outcome): Reply {
    var refused := Refused(w.mem, op);
    if refused.Some? then Failed(refused.value)
    else if Commits(c, w.disk, Intended(w.mem, op), o) then Nil
    else Failed(Internal)
  }

  /** The audit events of an operation: a missing target of Update and Delete, and an empty name, leave none. */
  ghost function Audited(source: string, m: ShareMap, op: Op, answer: Reply): seq<AuditEvent> {
    var (action, target) := match op
                            case Create(s) => ("share.create", s.name)
                            case Update(s) => ("share.update", s.name)
                            case Delete(name) => ("share.delete", name);
    if Refused(m, op) == Some(NotFound) || (op.Delete? && op.name == "") then []
    else if answer.Nil? then [AuditEvent(source, action, target, true, None)]
    else [AuditEvent(source, action, target, false, Some(answer.code))]
  }

  // ---- whole runs ----

  /** A process start: memory is whatever the state file holds. */
  function StartUp(c: Config, disk: Disk, smbd: Option<string>, nfsd: Option<string>): World {
    World(Load(c, disk.state), disk, smbd, nfsd)
  }

  ghost function Run(c: Config, w: World, requests: seq<(Op, Outcome)>): World
    decreases |requests|
  {
    if requests == [] then w
    else Run(c, Apply(c, w, requests[0].0, requests[0].1), requests[1..])
  }
}
