/** fstabPersister: a credentials file and an fstab entry, each replaced atomically. */
module FstabPersister {
  import opened Wrappers
  import opened Text
  import opened FileSystems
  import opened FstabText
  import opened MountOptions

  /** `credName` gives the hexadecimal SHA-256 of a mountpoint with the extension ".cred". */
  datatype Config = Config(fstabPath: string, credsDir: string, credName: string -> string) {
    function CredPath(mountPoint: string): string { credsDir + "/" + credName(mountPoint) }

    /** A path in the credentials directory. */
    predicate Managed(path: string) { HasPrefix(path, credsDir + "/") }

    ghost predicate WellFormed() {
      && NoSpace(credsDir) && ',' !in credsDir
      && (forall m :: NoSpace(credName(m)) && ',' !in credName(m))
      && !Managed(fstabPath)
    }

    /** os.CreateTemp picks a name that no file, target or credentials path has. */
    ghost predicate FreshName(tmp: string, files: Files) {
      tmp !in files && tmp != fstabPath && forall m :: tmp != CredPath(m)
    }
  }

  predicate Generated(opts: Opts) { IsCifs(opts) && WantsCredentials(opts) }

  function CredText(username: string, password: string, domain: string): string {
    "username=" + username + "\npassword=" + password + "\n"
    + if domain != "" then "domain=" + domain + "\n" else ""
  }

  function EntryParts(cfg: Config, opts: Opts): seq<string> {
    (if Generated(opts) then ["credentials=" + cfg.CredPath(opts.mountPoint)] else [])
    + WithReadOnly(OptionParts(opts.options), opts.readOnly)
  }

  function Entry(cfg: Config, opts: Opts): Result<string> {
    match EntrySource(opts)
    case Err(code) => Err(code)
    case Ok(source) =>
      if Generated(opts) && cfg.credsDir == "" then Err(Internal)
      else Ok(EntryLine(source, opts.mountPoint, EntryType(opts), OptionField(EntryParts(cfg, opts))))
  }

  // ---- the stages of a persist ----

  function WithCredentials(cfg: Config, files: Files, opts: Opts): Files {
    if Generated(opts) then
      files[cfg.CredPath(opts.mountPoint) := CredText(opts.username, opts.password, opts.domain)]
    else files
  }

  function NewFstab(content: Option<string>, mountPoint: string, entry: string): string {
    RenderLines(Replace(ReadLines(content), mountPoint, entry))
  }

  function WithEntry(cfg: Config, files: Files, opts: Opts, entry: string): Files {
    WithCredentials(cfg, files, opts)[cfg.fstabPath := NewFstab(Get(files, cfg.fstabPath), opts.mountPoint, entry)]
  }

  /** A state that a crash may leave: untouched, with new credentials, or complete; temporary files aside. */
  ghost predicate Stage(cfg: Config, s: Files, temps: set<string>, before: Files, opts: Opts) {
    || s - temps == before
    || (Entry(cfg, opts).Ok? && s - temps == WithCredentials(cfg, before, opts))
    || (Entry(cfg, opts).Ok? && s - temps == WithEntry(cfg, before, opts, Entry(cfg, opts).value))
  }

  datatype Temp = Temp(name: string, torn: string, fault: Fault)

  method WriteCIFSCredentials(fs: FileSystem, cfg: Config, opts: Opts, temp: Temp) returns (r: Result<string>)
    requires cfg.FreshName(temp.name, fs.files) && temp.fault != AtFinalChmod
    requires Generated(opts)
    modifies fs
    ensures r == if cfg.credsDir != "" && temp.fault.NoFault? then Ok(cfg.CredPath(opts.mountPoint)) else Err(Internal)
    ensures fs.files == if r.Ok? then WithCredentials(cfg, old(fs.files), opts) else old(fs.files)
    ensures if cfg.credsDir == "" then unchanged(fs)
            else OnlyReplaces(fs, temp.name, old(fs.files), WithCredentials(cfg, old(fs.files), opts))
  {
    if cfg.credsDir == "" {
      return Err(Internal);
    }
    var content := "username=" + opts.username + "\npassword=" + opts.password + "\n";
    if opts.domain != "" {
      content := content + ("domain=" + opts.domain + "\n");
    } else {
      content := content + "";
    }
    var credPath := cfg.CredPath(opts.mountPoint);
    var w := AtomicWriteFile(fs, credPath, content, temp.name, temp.torn, temp.fault);
    return if w.Nil? then Ok(credPath) else Err(Internal);
  }

  method BuildOptions(fs: FileSystem, cfg: Config, opts: Opts, temp: Temp) returns (r: Result<string>)
    requires cfg.FreshName(temp.name, fs.files) && temp.fault != AtFinalChmod
    modifies fs
    ensures r.Ok? <==> (Generated(opts) ==> cfg.credsDir != "" && temp.fault.NoFault?)
    ensures r.Ok? ==> r.value == OptionField(EntryParts(cfg, opts))
    ensures r.Err? ==> r.code == Internal
    ensures fs.files == if r.Ok? then WithCredentials(cfg, old(fs.files), opts) else old(fs.files)
    ensures if Generated(opts) && cfg.credsDir != ""
            then OnlyReplaces(fs, temp.name, old(fs.files), WithCredentials(cfg, old(fs.files), opts))
            else unchanged(fs)
  {
    var parts := SplitMountOptions(opts.options);
    var found := HasExactOption(parts, "ro");
    if opts.readOnly && !found {
      parts := parts + ["ro"];
    }
    if Generated(opts) {
      var credPath := WriteCIFSCredentials(fs, cfg, opts, temp);
      if credPath.Err? {
        return Err(credPath.code);
      }
      parts := ["credentials=" + credPath.value] + parts;
    }
    assert parts == EntryParts(cfg, opts);
    if |parts| == 0 {
      return Ok("defaults");
    }
    return Ok(Join(parts, ","));
  }

  /** Reading the fstab, replacing the line and writing the file. */
  method RewriteFstab(fs: FileSystem, fstabPath: string, mountPoint: string, entry: string, readable: bool, temp: Temp)
    returns (r: Reply)
    requires temp.name !in fs.files && temp.name != fstabPath && temp.fault != AtFinalChmod
    modifies fs
    ensures r == if readable && temp.fault.NoFault? then Nil else Failed(Internal)
    ensures var after := old(fs.files)[fstabPath := NewFstab(Get(old(fs.files), fstabPath), mountPoint, entry)];
            && fs.files == (if r.Nil? then after else old(fs.files))
            && OnlyReplaces(fs, temp.name, old(fs.files), after)
  {
    if !readable {
      return Failed(Internal);
    }
    var read := ReadLines(Get(fs.files, fstabPath));
    var lines := ReplaceFirst(read, mountPoint, entry);
    var content := Join(lines, "\n");
    if content != "" && !HasSuffix(content, "\n") {
      content := content + "\n";
    }
    r := AtomicWriteFile(fs, fstabPath, content, temp.name, temp.torn, temp.fault);
  }

  /** Every step of a persist succeeds. */
  predicate Persists(cfg: Config, opts: Opts, readable: bool, temp1: Temp, temp2: Temp) {
    && Entry(cfg, opts).Ok? && readable
    && (Generated(opts) ==> temp1.fault.NoFault?) && temp2.fault.NoFault?
  }

  /** Every crash on the way leaves the fstab wholly old or wholly new, and the credentials file of a new entry
      in place before the entry. */
  method Persist(fs: FileSystem, cfg: Config, opts: Opts, readable: bool, temp1: Temp, temp2: Temp)
    returns (r: Reply)
    requires cfg.WellFormed()
    requires cfg.FreshName(temp1.name, fs.files) && temp1.fault != AtFinalChmod
    requires cfg.FreshName(temp2.name, fs.files) && temp2.fault != AtFinalChmod
    modifies fs
    ensures r.Nil? <==> Persists(cfg, opts, readable, temp1, temp2)
    ensures r.Nil? <==>
              && Entry(cfg, opts).Ok? && readable && temp2.fault.NoFault?
              && ((EqualFold(opts.fsType, "cifs") && (opts.username != "" || opts.password != "" || opts.domain != ""))
                  ==> temp1.fault.NoFault?)
    ensures r.Nil? ==> fs.files == WithEntry(cfg, old(fs.files), opts, Entry(cfg, opts).value)
    ensures r.Failed? ==> fs.files == old(fs.files)
                          || (Entry(cfg, opts).Ok? && fs.files == WithCredentials(cfg, old(fs.files), opts))
    ensures |old(fs.crashes)| <= |fs.crashes| && fs.crashes[..|old(fs.crashes)|] == old(fs.crashes)
    ensures forall k :: |old(fs.crashes)| <= k < |fs.crashes| ==>
              Stage(cfg, fs.crashes[k], {temp1.name, temp2.name}, old(fs.files), opts)
  {
    ghost var before, start := fs.files, fs.crashes;
    var source := EntrySource(opts);
    if source.Err? {
      return Failed(source.code);
    }
    var mountOpts := BuildOptions(fs, cfg, opts, temp1);
    ghost var middle := fs.crashes;
    FirstStages(cfg, |start|, middle, temp1.name, temp2.name, before, opts);
    if mountOpts.Err? {
      return Failed(Internal);
    }
    var entry := EntryLine(source.value, opts.mountPoint, EntryType(opts), mountOpts.value);
    CredPathIsNotFstab(cfg, opts.mountPoint);
    r := RewriteFstab(fs, cfg.fstabPath, opts.mountPoint, entry, readable, temp2);
    SecondStages(cfg, |start|, middle, fs.crashes, temp1.name, temp2.name, before, opts, entry);
  }

  lemma SecondStages(cfg: Config, n: nat, middle: seq<Files>, crashes: seq<Files>, t1: string, t2: string,
                     before: Files, opts: Opts, entry: string)
    requires n <= |middle| <= |crashes| && crashes[..|middle|] == middle && Entry(cfg, opts) == Ok(entry)
    requires cfg.FreshName(t1, before)
    requires forall k :: n <= k < |middle| ==> Stage(cfg, middle[k], {t1, t2}, before, opts)
    requires forall k :: |middle| <= k < |crashes| ==>
               Either(crashes[k], t2, WithCredentials(cfg, before, opts), WithEntry(cfg, before, opts, entry))
    ensures crashes[..n] == middle[..n]
    ensures forall k :: n <= k < |crashes| ==> Stage(cfg, crashes[k], {t1, t2}, before, opts)
  {
    assert crashes[..n] == crashes[..|middle|][..n];
    forall k | n <= k < |crashes| ensures Stage(cfg, crashes[k], {t1, t2}, before, opts) {
      if k < |middle| {
        assert crashes[k] == middle[k];
      } else {
        StageOfSecond(cfg, crashes[k], t1, t2, before, opts, entry);
      }
    }
  }

  lemma FirstStages(cfg: Config, n: nat, crashes: seq<Files>, t1: string, t2: string, before: Files, opts: Opts)
    requires n <= |crashes| && EntrySource(opts).Ok?
    requires n < |crashes| ==> Entry(cfg, opts).Ok?
    requires cfg.FreshName(t2, before)
    requires forall k :: n <= k < |crashes| ==> Either(crashes[k], t1, before, WithCredentials(cfg, before, opts))
    ensures forall k :: n <= k < |crashes| ==> Stage(cfg, crashes[k], {t1, t2}, before, opts)
  {
    forall k | n <= k < |crashes| ensures Stage(cfg, crashes[k], {t1, t2}, before, opts) {
      StageOfEither(cfg, crashes[k], t1, t2, before, opts);
    }
  }

  lemma CredPathIsNotFstab(cfg: Config, mountPoint: string)
    requires cfg.WellFormed()
    ensures cfg.CredPath(mountPoint) != cfg.fstabPath && cfg.Managed(cfg.CredPath(mountPoint))
  {
    assert cfg.credsDir + "/" <= cfg.CredPath(mountPoint);
  }

  lemma MinusBoth(s: Files, a: string, b: string)
    ensures s - {a, b} == (s - {a}) - {b}
    ensures s - {a, b} == (s - {b}) - {a}
  {
  }

  lemma MinusAbsent(s: Files, a: string)
    requires a !in s
    ensures s - {a} == s
  {
  }

  lemma StageOfEither(cfg: Config, s: Files, t1: string, t2: string, before: Files, opts: Opts)
    requires Entry(cfg, opts).Ok? && t2 !in before && t2 != cfg.CredPath(opts.mountPoint)
    requires Either(s, t1, before, WithCredentials(cfg, before, opts))
    ensures Stage(cfg, s, {t1, t2}, before, opts)
  {
    MinusBoth(s, t1, t2);
    MinusAbsent(before, t2);
    MinusAbsent(WithCredentials(cfg, before, opts), t2);
  }

  lemma StageOfSecond(cfg: Config, s: Files, t1: string, t2: string, before: Files, opts: Opts, entry: string)
    requires Entry(cfg, opts) == Ok(entry)
    requires cfg.FreshName(t1, before)
    requires Either(s, t2, WithCredentials(cfg, before, opts), WithEntry(cfg, before, opts, entry))
    ensures Stage(cfg, s, {t1, t2}, before, opts)
  {
    var a, b := WithCredentials(cfg, before, opts), WithEntry(cfg, before, opts, entry);
    MinusBoth(s, t1, t2);
    MinusAbsent(a, t1);
    MinusAbsent(b, t1);
  }

  // ---- what the rewritten file means ----

  /** What a persist is asked for: the program has checked the request. */
  predicate Checked(opts: Opts) { opts.persistent && Acceptable(opts) }

  /** Neither the type nor an option has a line break, which the program does not check. */
  ghost predicate OneLine(opts: Opts) {
    '\n' !in opts.fsType && forall p :: p in OptionParts(opts.options) ==> '\n' !in p
  }

  /** The entry of a request is an active line of its mountpoint. */
  predicate Found(cfg: Config, opts: Opts)
    requires EntrySource(opts).Ok?
  {
    FoundAgain(EntrySource(opts).value, opts.mountPoint, EntryType(opts), OptionField(EntryParts(cfg, opts)))
  }

  lemma PathPlain(cfg: Config, mountPoint: string)
    requires cfg.WellFormed()
    ensures var path := "credentials=" + cfg.CredPath(mountPoint);
            NoSpace(path) && path != "" && ',' !in path
  {
    var name, c := cfg.credName(mountPoint), "credentials=";
    assert NoSpace(c) && ',' !in c && NoSpace("/") && ',' !in "/";
    assert c + cfg.CredPath(mountPoint) == c + cfg.credsDir + "/" + name;
  }

  lemma EntryPartsWellFormed(cfg: Config, opts: Opts)
    requires cfg.WellFormed()
    ensures forall p :: p in EntryParts(cfg, opts) ==> Part(p)
    ensures Part(HeadPart(EntryParts(cfg, opts)))
    ensures Generated(opts) ==> NoSpace(HeadPart(EntryParts(cfg, opts)))
  {
    PartsWellFormed(opts.options);
    PartWords();
    PathPlain(cfg, opts.mountPoint);
    var rest := WithReadOnly(OptionParts(opts.options), opts.readOnly);
    assert forall p :: p in rest ==> Part(p);
    if EntryParts(cfg, opts) != [] {
      assert HeadPart(EntryParts(cfg, opts)) in EntryParts(cfg, opts);
    }
  }

  /** The options of the entry have a line break exactly when those of the request do. */
  lemma FieldOneLine(cfg: Config, opts: Opts)
    requires cfg.WellFormed()
    ensures '\n' in OptionField(EntryParts(cfg, opts)) <==> exists p :: p in OptionParts(opts.options) && '\n' in p
  {
    var parts := EntryParts(cfg, opts);
    PathPlain(cfg, opts.mountPoint);
    assert IsSpace('\n') && '\n' !in "credentials=" + cfg.CredPath(opts.mountPoint);
    assert '\n' !in "ro" && '\n' !in "defaults" && '\n' !in ",";
    if p :| p in OptionParts(opts.options) && '\n' in p {
      assert p in parts;
      JoinHas(parts, ",", p, '\n');
    } else {
      JoinLacks(parts, ",", '\n');
    }
  }

  /** The entry of a checked request has a line break exactly when its type or options do. */
  lemma EntryBroken(cfg: Config, opts: Opts)
    requires cfg.WellFormed() && Checked(opts) && Entry(cfg, opts).Ok?
    ensures var source := EntrySource(opts).value;
            '\n' !in source && '\n' !in opts.mountPoint
    ensures '\n' !in Entry(cfg, opts).value <==> OneLine(opts)
  {
    var source, field := EntrySource(opts).value, OptionField(EntryParts(cfg, opts));
    if IsCifs(opts) { NormalizedLacks(opts.source, '\n'); }
    FieldOneLine(cfg, opts);
    assert '\n' !in "auto";
    EntryBreaks(source, opts.mountPoint, EntryType(opts), field);
  }

  lemma EntryBreaks(source: string, mountPoint: string, fsType: string, field: string)
    ensures '\n' !in EntryLine(source, mountPoint, fsType, field) <==>
            '\n' !in source && '\n' !in mountPoint && '\n' !in fsType && '\n' !in field
  {
    var tail := "\t0\t0";
    assert '\n' !in tail && '\n' !in "\t";
    assert EntryTail(fsType, field) == fsType + "\t" + field + tail;
  }

  /** The entry on its own: it has a table line, one if it has no line break, and more if it has one after a
      mountpoint that is a word. */
  lemma EntryTable(cfg: Config, opts: Opts)
    requires cfg.WellFormed() && Checked(opts) && Entry(cfg, opts).Ok?
    ensures var entry := Entry(cfg, opts).value;
            && TableLines(entry) != []
            && (OneLine(opts) ==> TableLines(entry) == [TrimSpace(entry)])
            && (!OneLine(opts) && White.Token(opts.mountPoint) ==> |TableLines(entry)| > 1 && '\n' in TrimSpace(entry))
  {
    var source, field := EntrySource(opts).value, OptionField(EntryParts(cfg, opts));
    var entry := Entry(cfg, opts).value;
    EntryBroken(cfg, opts);
    EntryLast(source, opts.mountPoint, EntryType(opts), field);
    SomeTableLine(entry);
    if OneLine(opts) {
      OneTableLine(entry);
      NotBlank(entry, |entry| - 1);
    } else if White.Token(opts.mountPoint) {
      BrokenEntry(source, opts.mountPoint, EntryType(opts), field);
    }
  }

  lemma EntryLast(source: string, mountPoint: string, fsType: string, field: string)
    ensures var entry := EntryLine(source, mountPoint, fsType, field);
            entry != "" && entry[|entry| - 1] == '0' && !IsSpace('0')
  {
    var tail := "\t0\t0";
    assert tail[|tail| - 1] == '0';
    assert EntryTail(fsType, field) == fsType + "\t" + field + tail;
  }

  lemma BrokenEntry(source: string, mountPoint: string, fsType: string, field: string)
    requires '\n' !in source && '\n' !in mountPoint && White.Token(mountPoint)
    requires '\n' in EntryLine(source, mountPoint, fsType, field)
    ensures var entry := EntryLine(source, mountPoint, fsType, field);
            |TableLines(entry)| > 1 && '\n' in TrimSpace(entry)
  {
    var entry := EntryLine(source, mountPoint, fsType, field);
    EntryLast(source, mountPoint, fsType, field);
    EntryGrouped(source, mountPoint, fsType, field);
    var i := |source| + 1;
    assert entry[i] == mountPoint[0];
    var a, b := FirstAt(entry, '\n');
    assert entry[|a|] == '\n';
    BreakAfter(source, mountPoint, fsType, field, |a|);
    assert a[i] == entry[i];
    TrimKeeps(entry, i, |a|, |entry| - 1);
    NotBlank(a, i);
    assert b[|b| - 1] == entry[|entry| - 1];
    SomeTableLine(b);
    TableLinesBroken(a, b);
  }

  lemma BreakAfter(source: string, mountPoint: string, fsType: string, field: string, n: nat)
    requires '\n' !in source && '\n' !in mountPoint && mountPoint != ""
    requires var entry := EntryLine(source, mountPoint, fsType, field);
             n < |entry| - 1 && entry[n] == '\n'
    ensures n > |source| + 1
  {
    var entry := EntryLine(source, mountPoint, fsType, field);
    EntryGrouped(source, mountPoint, fsType, field);
    assert forall k :: 0 <= k < |source| ==> entry[k] == source[k];
    assert entry[|source|] == '\t' && entry[|source| + 1] == mountPoint[0];
  }

  lemma SourceColumn(opts: Opts)
    requires White.Token(opts.source) && EntrySource(opts).Ok?
    ensures White.Token(EntrySource(opts).value)
  {
    if IsCifs(opts) {
      NormalizedIdempotent(opts.source);
      NormalizedShape(opts.source);
    }
  }

  lemma AutoIsPlain()
    ensures NoSpace("auto")
  {
  }

  lemma TableAfter(cfg: Config, files: Files, opts: Opts)
    requires Entry(cfg, opts).Ok?
    ensures View(Get(WithEntry(cfg, files, opts, Entry(cfg, opts).value), cfg.fstabPath)) ==
            Splice(View(Get(files, cfg.fstabPath)), opts.mountPoint, TableLines(Entry(cfg, opts).value))
  {
    PersistRefinesSplice(Get(files, cfg.fstabPath), opts.mountPoint, Entry(cfg, opts).value);
  }

  lemma TableLinesFree(text: string)
    ensures forall line :: line in TableLines(text) ==> '\n' !in line
  {
    ViewOfText(text);
    ViewFree(Some(text));
  }

  /** After a persist the lines of the entry stand for one row of the fstab, or come last. That gives the table in which
      the mountpoint has the new entry and every other mountpoint what it had, exactly when the entry is one line,
      active under its mountpoint. */
  lemma PersistUpdatesTable(cfg: Config, files: Files, opts: Opts)
    requires cfg.WellFormed() && Checked(opts) && Entry(cfg, opts).Ok?
    ensures var entry := Entry(cfg, opts).value;
            var before := View(Get(files, cfg.fstabPath));
            var after := View(Get(WithEntry(cfg, files, opts, entry), cfg.fstabPath));
            && after == Splice(before, opts.mountPoint, TableLines(entry))
            && (Updates(before, after, opts.mountPoint, TrimSpace(entry)) <==> OneLine(opts) && Found(cfg, opts))
  {
    var entry := Entry(cfg, opts).value;
    TableAfter(cfg, files, opts);
    EntryKey(cfg, opts);
    EntryTable(cfg, opts);
    ViewFree(Get(files, cfg.fstabPath));
    TableLinesFree(entry);
    EntryAlone(cfg, opts);
    SpliceUpdatesIff(View(Get(files, cfg.fstabPath)), opts.mountPoint, TableLines(entry), TrimSpace(entry));
  }

  /** The entry has one active line of its mountpoint exactly when it has no line break and is found again. */
  lemma EntryAlone(cfg: Config, opts: Opts)
    requires cfg.WellFormed() && Checked(opts) && Entry(cfg, opts).Ok?
    ensures var lines := TableLines(Entry(cfg, opts).value);
            && lines != []
            && (|lines| == 1 && Key(lines[0]) == Some(opts.mountPoint) <==> OneLine(opts) && Found(cfg, opts))
            && (lines == [TrimSpace(Entry(cfg, opts).value)] && Found(cfg, opts) <==> OneLine(opts) && Found(cfg, opts))
  {
    EntryKey(cfg, opts);
    EntryTable(cfg, opts);
    KeyToken(TableLines(Entry(cfg, opts).value)[0]);
  }

  /** The entry as the table shows it. */
  lemma EntryKey(cfg: Config, opts: Opts)
    requires cfg.WellFormed() && Entry(cfg, opts).Ok?
    ensures Key(TrimSpace(Entry(cfg, opts).value)) == Some(opts.mountPoint) <==> Found(cfg, opts)
    ensures Found(cfg, opts) ==> White.Token(opts.mountPoint)
  {
    KeyTrimmed(Entry(cfg, opts).value);
    EntryKeyed(EntrySource(opts).value, opts.mountPoint, EntryType(opts), OptionField(EntryParts(cfg, opts)));
  }

  /** Persisting the same mount twice gives the table that persisting it once gives, under the same condition. */
  lemma PersistTwice(cfg: Config, files: Files, opts: Opts)
    requires cfg.WellFormed() && Checked(opts) && Entry(cfg, opts).Ok?
    ensures var once := WithEntry(cfg, files, opts, Entry(cfg, opts).value);
            var twice := WithEntry(cfg, once, opts, Entry(cfg, opts).value);
            View(Get(twice, cfg.fstabPath)) == View(Get(once, cfg.fstabPath)) <==> OneLine(opts) && Found(cfg, opts)
  {
    var entry := Entry(cfg, opts).value;
    var once := WithEntry(cfg, files, opts, entry);
    TableAfter(cfg, files, opts);
    TableAfter(cfg, once, opts);
    EntryAlone(cfg, opts);
    SpliceTwice(View(Get(files, cfg.fstabPath)), opts.mountPoint, TableLines(entry));
  }

  lemma KeyToken(line: string)
    ensures Key(line).Some? ==> White.Token(Key(line).value)
  {
  }

  /** A line break in the options of an accepted request ends the entry there and begins another line of the table,
      of whatever mountpoint the rest names. */
  lemma LineBreakAddsLine(cfg: Config, opts: Opts, before: string, after: string)
    requires Checked(opts) && !IsCifs(opts) && !opts.readOnly && White.Token(opts.mountPoint)
    requires opts.fsType != "" && '\n' !in opts.fsType
    requires opts.options == before + ['\n'] + after && Part(opts.options) && '\n' !in before && '\n' !in after
    ensures Entry(cfg, opts).Ok? && !OneLine(opts)
    ensures TableLines(Entry(cfg, opts).value) ==
            [TrimSpace(opts.source + "\t" + opts.mountPoint + "\t" + opts.fsType + "\t" + before),
             TrimSpace(after + "\t0\t0")]
  {
    OneWord(opts.options);
    assert opts.options in OptionParts(opts.options) && opts.options[|before|] == '\n';
    assert EntryParts(cfg, opts) == [opts.options];
    BrokenLines(opts.source, opts.mountPoint, opts.fsType, before, after);
  }

  lemma BrokenLines(source: string, mountPoint: string, fsType: string, before: string, after: string)
    requires '\n' !in source && '\n' !in mountPoint && '\n' !in fsType && '\n' !in before && '\n' !in after
    requires White.Token(mountPoint)
    ensures TableLines(EntryLine(source, mountPoint, fsType, before + ['\n'] + after)) ==
            [TrimSpace(source + "\t" + mountPoint + "\t" + fsType + "\t" + before), TrimSpace(after + "\t0\t0")]
  {
    var a, b := source + "\t" + mountPoint + "\t" + fsType + "\t" + before, after + "\t0\t0";
    var entry := EntryLine(source, mountPoint, fsType, before + ['\n'] + after);
    assert entry == a + ['\n'] + b by { BrokenParts(source, mountPoint, fsType, before, after); }
    var tail := "\t0\t0";
    assert '\n' !in tail && '\n' !in "\t" && tail[|tail| - 1] == '0' && !IsSpace('0');
    TableLinesBroken(a, b);
    OneTableLine(b);
    assert a[|source| + 1] == mountPoint[0];
    NotBlank(a, |source| + 1);
    NotBlank(b, |b| - 1);
  }

  lemma BrokenParts(source: string, mountPoint: string, fsType: string, before: string, after: string)
    ensures EntryLine(source, mountPoint, fsType, before + ['\n'] + after) ==
            (source + "\t" + mountPoint + "\t" + fsType + "\t" + before) + ['\n'] + (after + "\t0\t0")
  {
  }

  /** Otherwise, for an entry of one line, each persist adds one more line, once there is no other line of the
      mountpoint. */
  lemma EntriesPileUp(cfg: Config, files: Files, opts: Opts)
    requires cfg.WellFormed() && Checked(opts) && OneLine(opts) && Entry(cfg, opts).Ok? && !Found(cfg, opts)
    requires Lookup(View(Get(files, cfg.fstabPath)), opts.mountPoint).None?
    ensures var entry := Entry(cfg, opts).value;
            var after := View(Get(WithEntry(cfg, files, opts, entry), cfg.fstabPath));
            && after == View(Get(files, cfg.fstabPath)) + [TrimSpace(entry)]
            && Lookup(after, opts.mountPoint).None?
  {
    var entry := Entry(cfg, opts).value;
    var before := View(Get(files, cfg.fstabPath));
    PersistRefinesSplice(Get(files, cfg.fstabPath), opts.mountPoint, entry);
    EntryKey(cfg, opts);
    EntryTable(cfg, opts);
    SpliceOne(before, opts.mountPoint, TrimSpace(entry));
    ReplaceAppends(before, opts.mountPoint, TrimSpace(entry));
    LookupAppended(before, opts.mountPoint, TrimSpace(entry));
  }

  /** That happens to a request whose source reads as a comment, unless it is a CIFS share. */
  lemma CommentSourcePilesUp(cfg: Config, files: Files, opts: Opts)
    requires cfg.WellFormed() && OneLine(opts) && opts.persistent
    requires !IsCifs(opts) && opts.source != "" && opts.source[0] == '#'
    requires !ContainsWhitespace(opts.source) && !ContainsWhitespace(opts.mountPoint)
    requires Lookup(View(Get(files, cfg.fstabPath)), opts.mountPoint).None?
    ensures Checked(opts) && Entry(cfg, opts).Ok?
    ensures var entry := Entry(cfg, opts).value;
            var once := WithEntry(cfg, files, opts, entry);
            var twice := WithEntry(cfg, once, opts, entry);
            && View(Get(once, cfg.fstabPath)) == View(Get(files, cfg.fstabPath)) + [TrimSpace(entry)]
            && View(Get(twice, cfg.fstabPath)) ==
               View(Get(files, cfg.fstabPath)) + [TrimSpace(entry)] + [TrimSpace(entry)]
  {
    FirstField(opts.source);
    assert !Found(cfg, opts);
    EntriesPileUp(cfg, files, opts);
    EntriesPileUp(cfg, WithEntry(cfg, files, opts, Entry(cfg, opts).value), opts);
  }

  lemma {:induction false} LookupAppended(lines: seq<string>, mountPoint: string, entry: string)
    requires Lookup(lines, mountPoint).None? && Key(entry) != Some(mountPoint)
    ensures Lookup(lines + [entry], mountPoint).None?
  {
    if lines == [] {
      assert ([] + [entry])[1..] == [];
    } else {
      LookupAppended(lines[1..], mountPoint, entry);
      assert (lines + [entry])[1..] == lines[1..] + [entry];
    }
  }

  // ---- credentials survive every crash ----

  ghost predicate Complete(content: string) { exists u, p, d :: content == CredText(u, p, d) }

  /** Every line of the fstab that refers to a generated credentials file refers to a complete one. */
  ghost predicate Safe(cfg: Config, files: Files) {
    forall line :: line in View(Get(files, cfg.fstabPath)) ==> LineSafe(cfg, files, line)
  }

  ghost predicate LineSafe(cfg: Config, files: Files, line: string) {
    var c := CredentialsOf(line);
    c.Some? && cfg.Managed(c.value) ==> c.value in files && Complete(files[c.value])
  }

  /** The columns of the request are one word each, and its options do not point at generated files. */
  ghost predicate Persistable(cfg: Config, opts: Opts) {
    && White.Token(opts.source) && White.Token(opts.mountPoint) && NoSpace(opts.fsType) && OneLine(opts)
    && forall p :: p in OptionParts(opts.options) ==> !HasPrefix(p, "credentials=" + cfg.credsDir + "/")
  }

  /** No line of the request's entry refers to a generated credentials file but a complete one. */
  ghost predicate Credible(cfg: Config, files: Files, opts: Opts) {
    Entry(cfg, opts).Ok? ==>
      forall line :: line in TableLines(Entry(cfg, opts).value) ==>
        LineSafe(cfg, WithCredentials(cfg, files, opts), line)
  }

  /** Such an entry refers to its own credentials file, or to none that is generated. */
  lemma EntrySafe(cfg: Config, files: Files, opts: Opts)
    requires cfg.WellFormed() && Checked(opts) && Persistable(cfg, opts) && Entry(cfg, opts).Ok?
    ensures Generated(opts) ==> CredentialsOf(Entry(cfg, opts).value) == Some(cfg.CredPath(opts.mountPoint))
    ensures Credible(cfg, files, opts)
  {
    var source, parts := EntrySource(opts).value, EntryParts(cfg, opts);
    SourceColumn(opts);
    EntryPartsWellFormed(cfg, opts);
    AutoIsPlain();
    EntryCredentials(source, opts.mountPoint, EntryType(opts), parts);
    CredentialsTrimmed(Entry(cfg, opts).value);
    EntryTable(cfg, opts);
    var c := CredentialsOf(Entry(cfg, opts).value);
    var path := cfg.CredPath(opts.mountPoint);
    if Generated(opts) {
      assert HeadPart(parts) == "credentials=" + path;
      assert HeadPart(parts)[|"credentials="|..] == path;
      assert Complete(CredText(opts.username, opts.password, opts.domain));
    } else if c.Some? && cfg.Managed(c.value) {
      ManagedOption(cfg, opts, c.value);
      assert false;
    }
  }

  /** Options of the request do not name a file in the credentials directory. */
  lemma ManagedOption(cfg: Config, opts: Opts, path: string)
    requires Persistable(cfg, opts) && !Generated(opts)
    requires cfg.Managed(path)
    ensures !("credentials=" + path <= HeadPart(EntryParts(cfg, opts)))
  {
    var head := HeadPart(EntryParts(cfg, opts));
    var given := OptionParts(opts.options);
    var prefix := "credentials=" + cfg.credsDir + "/";
    assert "credentials=" + (cfg.credsDir + "/") == prefix;
    PrefixTransfers("credentials=", cfg.credsDir + "/", path);
    if given != [] {
      assert head == given[0] && given[0] in given;
    } else {
      assert prefix[0] == 'c' && "defaults"[0] == 'd' && "ro"[0] == 'r';
    }
  }

  lemma PrefixTransfers(a: string, b: string, c: string)
    requires b <= c
    ensures a + b <= a + c
  {
  }

  /** New credentials break no line. */
  lemma CredentialsStageSafe(cfg: Config, files: Files, opts: Opts)
    requires cfg.WellFormed() && Safe(cfg, files)
    ensures Safe(cfg, WithCredentials(cfg, files, opts))
  {
    var s := WithCredentials(cfg, files, opts);
    CredPathIsNotFstab(cfg, opts.mountPoint);
    assert Complete(CredText(opts.username, opts.password, opts.domain));
    forall line | line in View(Get(files, cfg.fstabPath)) ensures LineSafe(cfg, s, line) {
      assert LineSafe(cfg, files, line);
    }
  }

  /** Safety does not depend on the fstab's own content as a file that lines refer to. */
  lemma SameCredentials(cfg: Config, files: Files, content: string, line: string)
    requires cfg.WellFormed()
    ensures LineSafe(cfg, files[cfg.fstabPath := content], line) <==> LineSafe(cfg, files, line)
  {
  }

  /** The completed persist is safe exactly when the entry is. */
  lemma EntryStageSafe(cfg: Config, files: Files, opts: Opts)
    requires cfg.WellFormed() && Entry(cfg, opts).Ok? && Safe(cfg, files)
    ensures Safe(cfg, WithEntry(cfg, files, opts, Entry(cfg, opts).value)) <==> Credible(cfg, files, opts)
  {
    var entry := Entry(cfg, opts).value;
    var s1, s2 := WithCredentials(cfg, files, opts), WithEntry(cfg, files, opts, entry);
    var before, after := View(Get(files, cfg.fstabPath)), View(Get(s2, cfg.fstabPath));
    CredPathIsNotFstab(cfg, opts.mountPoint);
    CredentialsStageSafe(cfg, files, opts);
    PersistRefinesSplice(Get(files, cfg.fstabPath), opts.mountPoint, entry);
    SpliceMembers(before, opts.mountPoint, TableLines(entry));
    forall line | line in after
      ensures line in TableLines(entry) || LineSafe(cfg, s2, line)
      ensures LineSafe(cfg, s2, line) <==> LineSafe(cfg, s1, line)
    {
      SameCredentials(cfg, s1, NewFstab(Get(files, cfg.fstabPath), opts.mountPoint, entry), line);
    }
  }

  /** The fstab is wholly old, or wholly new with the credentials file of the new entry in place. */
  ghost predicate OldOrNew(cfg: Config, before: Files, s: Files, opts: Opts) {
    || Get(s, cfg.fstabPath) == Get(before, cfg.fstabPath)
    || (&& Entry(cfg, opts).Ok?
        && Get(s, cfg.fstabPath) ==
           Some(NewFstab(Get(before, cfg.fstabPath), opts.mountPoint, Entry(cfg, opts).value))
        && (Generated(opts) ==>
              Get(s, cfg.CredPath(opts.mountPoint)) == Some(CredText(opts.username, opts.password, opts.domain))))
  }

  /** Whatever state a crash during a persist leaves behind, no entry refers to a missing or torn generated
      credentials file; restarting from that state, the same holds again. */
  lemma EveryCrashSafe(cfg: Config, before: Files, opts: Opts, temps: set<string>, s: Files)
    requires cfg.WellFormed() && Credible(cfg, before, opts) && Safe(cfg, before)
    requires cfg.fstabPath !in temps && cfg.CredPath(opts.mountPoint) !in temps
    requires Stage(cfg, s, temps, before, opts)
    ensures Safe(cfg, s) && OldOrNew(cfg, before, s, opts)
  {
    CredentialsStageSafe(cfg, before, opts);
    if Entry(cfg, opts).Ok? { EntryStageSafe(cfg, before, opts); }
    var base := s - temps;
    CredPathIsNotFstab(cfg, opts.mountPoint);
    assert Safe(cfg, base);
    assert Get(s, cfg.fstabPath) == Get(base, cfg.fstabPath);
    assert Get(s, cfg.CredPath(opts.mountPoint)) == Get(base, cfg.CredPath(opts.mountPoint));
    forall line | line in View(Get(s, cfg.fstabPath)) ensures LineSafe(cfg, s, line) {
      assert LineSafe(cfg, base, line);
    }
  }

  /** One persist, completed or cut short by a crash. */
  datatype Attempt = Attempt(opts: Opts, temps: set<string>)

  ghost predicate Leads(cfg: Config, before: Files, a: Attempt, after: Files) {
    && Credible(cfg, before, a.opts)
    && cfg.fstabPath !in a.temps && cfg.CredPath(a.opts.mountPoint) !in a.temps
    && Stage(cfg, after, a.temps, before, a.opts)
  }

  /** Any sequence of persists, each of which may be cut short at any point: every state on the way is safe, and
      every step leaves the fstab old or new. */
  lemma {:induction false} EveryRunOfCrashesSafe(cfg: Config, states: seq<Files>, attempts: seq<Attempt>, n: nat)
    requires cfg.WellFormed() && |states| == |attempts| + 1 && n <= |attempts|
    requires forall i :: 0 <= i < |attempts| ==> Leads(cfg, states[i], attempts[i], states[i + 1])
    requires Safe(cfg, states[0])
    ensures Safe(cfg, states[n])
    ensures n > 0 ==> OldOrNew(cfg, states[n - 1], states[n], attempts[n - 1].opts)
  {
    if n == 0 {
    } else {
      var i := n - 1;
      EveryRunOfCrashesSafe(cfg, states, attempts, i);
      assert Leads(cfg, states[i], attempts[i], states[i + 1]);
      EveryCrashSafe(cfg, states[i], attempts[i].opts, attempts[i].temps, states[i + 1]);
    }
  }
}
