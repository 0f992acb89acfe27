/** Mount sources, option lists and fstab entries (internal/service/disk/mount.go). */
module MountOptions {
  import opened Wrappers
  import opened Text
  import opened Seqs
  import opened FstabText

  datatype Opts = Opts(source: string, mountPoint: string, fsType: string, readOnly: bool, options: string,
                       username: string, password: string, domain: string, persistent: bool)

  // ---- CIFS sources ----

  /** strings.ReplaceAll(s, "\\", "/"). */
  function ForwardSlashes(s: string): string {
    seq(|s|, i requires 0 <= i < |s| => if s[i] == '\\' then '/' else s[i])
  }

  function NormalizeCIFSSource(source: string): Result<string> {
    var trimmed := TrimSpace(source);
    if trimmed == "" then Err(InvalidInput)
    else
      var segments := Slash.Fields(ForwardSlashes(trimmed));
      if |segments| < 2 then Err(InvalidInput)
      else Ok("//" + segments[0] + "/" + Join(segments[1..], "/"))
  }

  /** The segments of a source over both kinds of slash. */
  function Segments(source: string): seq<string> { EitherSlash.Fields(TrimSpace(source)) }

  lemma {:induction false} RunForward(s: string)
    ensures Slash.Run(ForwardSlashes(s)) == EitherSlash.Run(s)
    ensures ForwardSlashes(s)[..EitherSlash.Run(s)] == s[..EitherSlash.Run(s)]
  {
    if s == "" || EitherSlash.At(s[0]) {
    } else {
      RunForward(s[1..]);
      assert ForwardSlashes(s)[1..] == ForwardSlashes(s[1..]);
    }
  }

  lemma {:induction false} FieldsForward(s: string)
    ensures Slash.Fields(ForwardSlashes(s)) == EitherSlash.Fields(s)
    decreases |s|
  {
    if s == "" {
    } else {
      var f := ForwardSlashes(s);
      if EitherSlash.At(s[0]) {
        FieldsForward(s[1..]);
        assert f[1..] == ForwardSlashes(s[1..]);
      } else {
        var n := EitherSlash.Run(s);
        RunForward(s);
        FieldsForward(s[n..]);
        assert f[n..] == ForwardSlashes(s[n..]);
      }
    }
  }

  /** The result is "//" and the segments, and it exists when there are two. */
  lemma NormalizedShape(source: string)
    ensures NormalizeCIFSSource(source) ==
            if |Segments(source)| < 2 then Err(InvalidInput) else Ok("//" + Join(Segments(source), "/"))
    ensures forall i :: 0 <= i < |Segments(source)| ==> EitherSlash.Token(Segments(source)[i])
  {
    FieldsForward(TrimSpace(source));
    var segs := Segments(source);
    if |segs| >= 2 {
      assert "//" + Join(segs, "/") == "//" + segs[0] + "/" + Join(segs[1..], "/");
    }
  }

  lemma SlashFieldsOfJoin(segs: seq<string>)
    requires forall i :: 0 <= i < |segs| ==> EitherSlash.Token(segs[i])
    ensures EitherSlash.Fields("//" + Join(segs, "/")) == segs
  {
    EitherSlash.FieldsJoin(segs, '/');
    EitherSlash.FieldsSkip('/', Join(segs, "/"));
    EitherSlash.FieldsSkip('/', "/" + Join(segs, "/"));
    assert "//" + Join(segs, "/") == "/" + ("/" + Join(segs, "/"));
  }

  /** Two sources normalise alike exactly when they have the same segments. */
  lemma NormalizedEqualIff(a: string, b: string)
    requires NormalizeCIFSSource(a).Ok? && NormalizeCIFSSource(b).Ok?
    ensures NormalizeCIFSSource(a) == NormalizeCIFSSource(b) <==> Segments(a) == Segments(b)
  {
    NormalizedShape(a);
    NormalizedShape(b);
    SlashFieldsOfJoin(Segments(a));
    SlashFieldsOfJoin(Segments(b));
  }

  lemma {:induction false} FieldsNotLonger(s: string)
    ensures |Join(EitherSlash.Fields(s), "/")| <= |s|
    decreases |s|
  {
    if s == "" {
    } else {
      if EitherSlash.At(s[0]) {
        FieldsNotLonger(s[1..]);
      } else {
        var n := EitherSlash.Run(s);
        if n < |s| {
          FieldsNotLonger(s[n + 1..]);
          assert s[n..][0] == s[n] && s[n..][1..] == s[n + 1..];
          var rest := EitherSlash.Fields(s[n..]);
          assert rest == EitherSlash.Fields(s[n + 1..]);
          assert ([s[..n]] + rest)[1..] == rest;
        }
      }
    }
  }

  /** Normalising a normalised source changes nothing, unless its last segment ends in white space. */
  lemma NormalizedFixedIff(source: string)
    requires NormalizeCIFSSource(source).Ok?
    ensures var n := NormalizeCIFSSource(source).value;
            |n| > 0 && (NormalizeCIFSSource(n) == Ok(n) <==> !IsSpace(n[|n| - 1]))
  {
    NormalizedShape(source);
    var segs := Segments(source);
    var n := "//" + Join(segs, "/");
    NormalizedShape(n);
    if IsSpace(n[|n| - 1]) {
      var t := TrimSpace(n);
      TrimmedSlashes(n);
      var rest := t[2..];
      assert t == "/" + ("/" + rest);
      EitherSlash.FieldsSkip('/', "/" + rest);
      EitherSlash.FieldsSkip('/', rest);
      FieldsNotLonger(rest);
    } else {
      TrimSpaceFixed(n);
      SlashFieldsOfJoin(segs);
    }
  }

  lemma TrimmedSlashes(n: string)
    requires "//" <= n && IsSpace(n[|n| - 1])
    ensures "//" <= TrimSpace(n) && |TrimSpace(n)| < |n|
  {
    TrimRightPrefix(n);
    var r := TrimRight(n);
    assert !IsSpace(n[0]) && !IsSpace(n[1]);
    assert r == n[..|r|];
    assert n[..2] == "//";
    assert r[..2] == n[..2];
  }

  /** On sources without white space normalising is idempotent. */
  lemma NormalizedIdempotent(source: string)
    requires NoSpace(source) && NormalizeCIFSSource(source).Ok?
    ensures NormalizeCIFSSource(NormalizeCIFSSource(source).value) == NormalizeCIFSSource(source)
    ensures NoSpace(NormalizeCIFSSource(source).value)
  {
    NormalizedShape(source);
    NormalizedFixedIff(source);
    SegmentsNoSpace(TrimSpace(source));
    TrimSpaceTrimmed(source);
    JoinNoSpace(Segments(source));
  }

  lemma {:induction false} SegmentsNoSpace(s: string)
    ensures NoSpace(s) ==> forall i :: 0 <= i < |EitherSlash.Fields(s)| ==> NoSpace(EitherSlash.Fields(s)[i])
    decreases |s|
  {
    if s == "" {
    } else {
      if EitherSlash.At(s[0]) {
        SegmentsNoSpace(s[1..]);
      } else {
        SegmentsNoSpace(s[EitherSlash.Run(s)..]);
      }
    }
  }

  lemma {:induction false} JoinNoSpace(segs: seq<string>)
    requires forall i :: 0 <= i < |segs| ==> NoSpace(segs[i])
    ensures NoSpace(Join(segs, "/"))
  {
    if |segs| <= 1 {
    } else {
      JoinNoSpace(segs[1..]);
    }
  }

  lemma {:induction false} SegmentsLack(s: string, c: char)
    requires c !in s
    ensures forall t :: t in EitherSlash.Fields(s) ==> c !in t
    decreases |s|
  {
    if s == "" {
    } else if EitherSlash.At(s[0]) {
      SegmentsLack(s[1..], c);
    } else {
      SegmentsLack(s[EitherSlash.Run(s)..], c);
    }
  }

  lemma {:induction false} JoinLacks(parts: seq<string>, sep: string, c: char)
    requires c !in sep && forall p :: p in parts ==> c !in p
    ensures c !in Join(parts, sep)
  {
    if parts == [] {
    } else {
      assert parts[0] in parts;
      JoinLacks(parts[1..], sep, c);
    }
  }

  lemma {:induction false} JoinHas(parts: seq<string>, sep: string, p: string, c: char)
    requires p in parts && c in p
    ensures c in Join(parts, sep)
  {
    if parts[0] == p {
    } else {
      JoinHas(parts[1..], sep, p, c);
    }
  }

  /** Normalising adds no character but slashes. */
  lemma NormalizedLacks(source: string, c: char)
    requires c !in source && c != '/' && NormalizeCIFSSource(source).Ok?
    ensures c !in NormalizeCIFSSource(source).value
  {
    NormalizedShape(source);
    TrimSpaceTrimmed(source);
    SegmentsLack(TrimSpace(source), c);
    JoinLacks(Segments(source), "/", c);
  }

  // ---- option lists ----

  function OptionParts(options: string): seq<string> { FlatMap(Visible, Split(options, ',')) }

  lemma BlankParts(options: string)
    requires TrimSpace(options) == ""
    ensures OptionParts(options) == []
  {
    TrimRightPrefix(options);
    if TrimRight(options) != "" {
      TrimLeftSuffix(TrimRight(options));
      AllSpace(TrimRight(options));
    }
    assert forall i :: 0 <= i < |options| ==> IsSpace(options[i]);
    SplitNone(options, ',');
    FlatMapOne(Visible, options);
  }

  method SplitMountOptions(options: string) returns (parts: seq<string>)
    ensures parts == OptionParts(options)
  {
    if TrimSpace(options) == "" {
      BlankParts(options);
      return [];
    }
    var raw := Split(options, ',');
    parts := [];
    for i := 0 to |raw|
      invariant parts == FlatMap(Visible, raw[..i])
    {
      FlatMapSnoc(Visible, raw, i);
      var part := TrimSpace(raw[i]);
      if part == "" {
        continue;
      }
      parts := parts + [part];
    }
    assert raw[..|raw|] == raw;
  }

  /** Each part is trimmed, non-empty and free of commas. */
  ghost predicate Part(p: string) { p != "" && Trimmed(p) && ',' !in p }

  lemma PartsWellFormed(options: string)
    ensures forall p :: p in OptionParts(options) ==> Part(p)
    ensures forall p, c :: p in OptionParts(options) && c in p ==> c in options
  {
    SplitPieces(options, ',');
    forall p | p in OptionParts(options) ensures Part(p) && forall c :: c in p ==> c in options {
      var raw := FlatMapMember(Visible, Split(options, ','), p);
      TrimSpaceTrimmed(raw);
    }
  }

  lemma {:induction false} VisibleParts(parts: seq<string>)
    requires forall p :: p in parts ==> Part(p)
    ensures FlatMap(Visible, parts) == parts
  {
    if parts == [] {
    } else {
      assert parts[0] in parts;
      TrimSpaceFixed(parts[0]);
      VisibleParts(parts[1..]);
    }
  }

  /** Splitting the joined parts again gives the same parts. */
  lemma PartsOfJoin(parts: seq<string>)
    requires forall p :: p in parts ==> Part(p)
    ensures OptionParts(Join(parts, ",")) == parts
  {
    if parts == [] {
      BlankParts("");
    } else {
      assert forall i :: 0 <= i < |parts| ==> parts[i] in parts;
      SplitJoin(parts, ',');
      VisibleParts(parts);
    }
  }

  /** Joining the parts of an option string and splitting again loses nothing. */
  lemma ResplitParts(options: string)
    ensures OptionParts(Join(OptionParts(options), ",")) == OptionParts(options)
  {
    PartsWellFormed(options);
    PartsOfJoin(OptionParts(options));
  }

  predicate HasExact(parts: seq<string>, want: string) { exists p :: p in parts && EqualFold(p, want) }

  method HasExactOption(parts: seq<string>, want: string) returns (found: bool)
    ensures found == HasExact(parts, want)
  {
    for i := 0 to |parts|
      invariant !HasExact(parts[..i], want)
    {
      assert parts[..i + 1] == parts[..i] + [parts[i]];
      if EqualFold(parts[i], want) {
        return true;
      }
    }
    assert parts[..|parts|] == parts;
    return false;
  }

  function WithReadOnly(parts: seq<string>, readOnly: bool): seq<string> {
    if readOnly && !HasExact(parts, "ro") then parts + ["ro"] else parts
  }

  /** The options field of an entry. */
  function OptionField(parts: seq<string>): string { if parts == [] then "defaults" else Join(parts, ",") }

  /** The value that mountGeneric passes with -o; empty means that -o is not passed. */
  function LiveOptions(opts: Opts): string {
    if !opts.readOnly then opts.options else if opts.options != "" then opts.options + ",ro" else "ro"
  }

  /** The options that a list stands for, in lower case; "defaults" alone stands for none. */
  ghost function Denoted(field: string): set<string> {
    var parts := OptionParts(field);
    if parts == ["defaults"] then {} else set p | p in parts :: ToLower(p)
  }

  lemma OnlyRoFoldsToRo(p: string)
    ensures EqualFold(p, "ro") <==> ToLower(p) == "ro"
  {
    if EqualFold(p, "ro") {
      assert ToLower(p) == "ro";
    }
    if ToLower(p) == "ro" {
      assert ToLower(p)[0] == 'r' && ToLower(p)[1] == 'o';
    }
  }

  lemma OneWord(word: string)
    requires Part(word)
    ensures OptionParts(word) == [word]
  {
    SplitNone(word, ',');
    FlatMapOne(Visible, word);
    TrimSpaceFixed(word);
  }

  lemma LivePartsReadOnly(options: string)
    ensures OptionParts(options + ",ro") == OptionParts(options) + ["ro"]
  {
    PartWords();
    OneWord("ro");
    PartsAppend(options, "ro");
    assert options + "," + "ro" == options + ",ro";
  }

  lemma WordParts()
    ensures OptionParts("ro") == ["ro"] && OptionParts("defaults") == ["defaults"]
  {
    PartWords();
    OneWord("ro");
    OneWord("defaults");
  }

  lemma PartWords()
    ensures Part("ro") && Part("defaults")
  {
  }

  /** For the other file systems, the live mount and the persisted entry ask for the same options. */
  lemma LiveAndPersistedAgree(opts: Opts)
    ensures Denoted(LiveOptions(opts)) ==
            Denoted(OptionField(WithReadOnly(OptionParts(opts.options), opts.readOnly)))
  {
    var parts := OptionParts(opts.options);
    PartsWellFormed(opts.options);
    PartWords();
    LiveParts(opts);
    FieldParts(WithReadOnly(parts, opts.readOnly));
    ReadOnlyDenoted(parts);
  }

  /** The options that mountGeneric passes. */
  lemma LiveParts(opts: Opts)
    ensures OptionParts(LiveOptions(opts)) == OptionParts(opts.options) + if opts.readOnly then ["ro"] else []
  {
    LivePartsReadOnly(opts.options);
    WordParts();
    BlankParts("");
  }

  lemma FieldParts(parts: seq<string>)
    requires forall p :: p in parts ==> Part(p)
    ensures OptionParts(OptionField(parts)) == if parts == [] then ["defaults"] else parts
  {
    WordParts();
    PartsOfJoin(parts);
  }

  /** Adding ro to a list that has it in some spelling adds no option. */
  lemma ReadOnlyDenoted(parts: seq<string>)
    ensures (set p | p in parts + ["ro"] :: ToLower(p)) == (set p | p in WithReadOnly(parts, true) :: ToLower(p))
    ensures parts + ["ro"] != ["defaults"] && WithReadOnly(parts, true) != ["defaults"]
  {
    OnlyRoFoldsToRo("ro");
    assert (parts + ["ro"])[|parts|] == "ro";
    assert !HasExact(["defaults"], "ro");
    if HasExact(parts, "ro") {
      var q :| q in parts && EqualFold(q, "ro");
      OnlyRoFoldsToRo(q);
      assert ToLower("ro") == "ro";
    }
  }

  // ---- the command line of mount(8) ----

  /** What a command line asks for: a type, the options of every -o in order, and the operands. */
  datatype Command = Command(fsType: Option<string>, parts: seq<string>, operands: seq<string>)

  predicate Flag(arg: string) { |arg| >= 2 && arg[0] == '-' }

  /** An operand of the command for a request would be read as a flag. A normalised CIFS source never is one. */
  predicate Flagged(opts: Opts) { Flag(opts.mountPoint) || (!IsCifs(opts) && Flag(opts.source)) }

  /** -t and -o take the next argument; None when it is missing or for any other flag. */
  function ReadCommand(args: seq<string>): Option<Command> {
    if args == [] then Some(Command(None, [], []))
    else if args[0] == "-t" || args[0] == "-o" then
      if |args| == 1 then None
      else
        match ReadCommand(args[2..])
        case None => None
        case Some(c) =>
          if args[0] == "-t" then Some(c.(fsType := if c.fsType.None? then Some(args[1]) else c.fsType))
          else Some(c.(parts := OptionParts(args[1]) + c.parts))
    else if Flag(args[0]) then None
    else
      match ReadCommand(args[1..])
      case None => None
      case Some(c) => Some(c.(operands := [args[0]] + c.operands))
  }

  /** The command line names one source and one mountpoint. */
  function Understood(args: seq<string>): Option<Command> {
    match ReadCommand(args)
    case None => None
    case Some(c) => if |c.operands| == 2 then Some(c) else None
  }

  /** What a request means. `credentials` is the file that a CIFS mount refers to. */
  function Wanted(opts: Opts, source: string, credentials: string): Command {
    var ro := if opts.readOnly then ["ro"] else [];
    if IsCifs(opts) then
      Command(Some("cifs"), ["credentials=" + credentials] + ro + OptionParts(opts.options), [source, opts.mountPoint])
    else
      Command(if opts.fsType == "" || EqualFold(opts.fsType, "auto") then None else Some(opts.fsType),
              OptionParts(opts.options) + ro, [source, opts.mountPoint])
  }

  lemma ReadOne(arg: string)
    ensures ReadCommand([arg]) == if Flag(arg) then None else Some(Command(None, [], [arg]))
  {
    assert [arg][1..] == [] && [arg] + [] == [arg];
    assert Flag("-t") && Flag("-o");
  }

  lemma ReadOperands(source: string, mountPoint: string)
    ensures var c := ReadCommand([source, mountPoint]);
            if Flag(source) || Flag(mountPoint) then c.Some? ==> |c.value.operands| != 2
            else c == Some(Command(None, [], [source, mountPoint]))
  {
    var args := [source, mountPoint];
    assert args[1..] == [mountPoint] && args[2..] == [];
    ReadOne(mountPoint);
    assert [source] + [mountPoint] == args;
    assert Flag("-t") && Flag("-o");
  }

  lemma ReadFlag(flag: string, value: string, rest: seq<string>)
    requires flag == "-t" || flag == "-o"
    ensures ReadCommand([flag, value] + rest) ==
            match ReadCommand(rest)
            case None => None
            case Some(c) =>
              if flag == "-t" then Some(c.(fsType := if c.fsType.None? then Some(value) else c.fsType))
              else Some(c.(parts := OptionParts(value) + c.parts))
  {
    var args := [flag, value] + rest;
    assert args[0] == flag && args[1] == value && args[2..] == rest;
  }

  lemma ReadOptions(value: string, source: string, mountPoint: string)
    ensures var c := ReadCommand((if value == "" then [] else ["-o", value]) + [source, mountPoint]);
            if Flag(source) || Flag(mountPoint) then c.Some? ==> |c.value.operands| != 2
            else c == Some(Command(None, OptionParts(value), [source, mountPoint]))
  {
    ReadOperands(source, mountPoint);
    if value == "" {
      BlankParts("");
      assert [] + [source, mountPoint] == [source, mountPoint];
    } else {
      ReadFlag("-o", value, [source, mountPoint]);
      assert OptionParts(value) + [] == OptionParts(value);
    }
  }

  lemma ReadArgs(fsType: Option<string>, value: string, source: string, mountPoint: string)
    ensures Understood((match fsType case None => [] case Some(t) => ["-t", t])
                       + ((if value == "" then [] else ["-o", value]) + [source, mountPoint])) ==
            if Flag(source) || Flag(mountPoint) then None
            else Some(Command(fsType, OptionParts(value), [source, mountPoint]))
  {
    ReadOptions(value, source, mountPoint);
    var back := (if value == "" then [] else ["-o", value]) + [source, mountPoint];
    if fsType.None? {
      assert [] + back == back;
    } else {
      ReadFlag("-t", fsType.value, back);
    }
  }

  /** mountGeneric's arguments: mount understands what the request means, unless an operand reads as a flag. */
  method GenericArgs(opts: Opts) returns (args: seq<string>)
    requires !IsCifs(opts)
    ensures Understood(args) == if Flagged(opts) then None else Some(Wanted(opts, opts.source, ""))
  {
    args := [];
    if opts.fsType != "" && !EqualFold(opts.fsType, "auto") {
      args := args + ["-t", opts.fsType];
    }
    var mountOpts := opts.options;
    if opts.readOnly {
      if mountOpts != "" {
        mountOpts := mountOpts + ",ro";
      } else {
        mountOpts := "ro";
      }
    }
    ghost var front := args;
    if mountOpts != "" {
      args := args + ["-o", mountOpts];
    }
    args := args + [opts.source, opts.mountPoint];
    assert args == front + ((if mountOpts == "" then [] else ["-o", mountOpts]) + [opts.source, opts.mountPoint]);
    LiveParts(opts);
    ReadArgs(Wanted(opts, opts.source, "").fsType, mountOpts, opts.source, opts.mountPoint);
  }

  method CifsOptions(opts: Opts, credentials: string) returns (mountOpts: string)
    requires IsCifs(opts) && Part("credentials=" + credentials)
    ensures mountOpts != "" && OptionParts(mountOpts) == Wanted(opts, "", credentials).parts
  {
    mountOpts := "credentials=" + credentials;
    OneWord(mountOpts);
    if opts.readOnly {
      LivePartsReadOnly(mountOpts);
      mountOpts := mountOpts + ",ro";
    }
    BlankParts("");
    if opts.options != "" {
      PartsAppend(mountOpts, opts.options);
      mountOpts := mountOpts + "," + opts.options;
    }
  }

  /** mountCIFS's arguments, with the credentials file first among the options. */
  method CifsArgs(opts: Opts, source: string, credentials: string) returns (args: seq<string>)
    requires IsCifs(opts) && "//" <= source && Part("credentials=" + credentials)
    ensures Understood(args) == if Flagged(opts) then None else Some(Wanted(opts, source, credentials))
  {
    var mountOpts := CifsOptions(opts, credentials);
    args := ["-t", "cifs", "-o", mountOpts, source, opts.mountPoint];
    assert args == ["-t", "cifs"] + (["-o", mountOpts] + [source, opts.mountPoint]);
    ReadArgs(Some("cifs"), mountOpts, source, opts.mountPoint);
    assert source[0] == '/';
  }

  lemma PartsAppend(a: string, b: string)
    ensures OptionParts(a + "," + b) == OptionParts(a) + OptionParts(b)
  {
    SplitConcat(a, ',', b);
    assert a + [','] + b == a + "," + b;
    FlatMapConcat(Visible, Split(a, ','), Split(b, ','));
  }

  // ---- what a persistent mount accepts ----

  predicate ContainsWhitespace(s: string) { exists c :: c in s && c in {' ', '\t', '\n', '\r'} }

  predicate HasAnyPrefix(parts: seq<string>, prefix: string) { exists p :: p in parts && HasPrefix(ToLower(p), prefix) }

  predicate WantsCredentials(opts: Opts) { opts.username != "" || opts.password != "" || opts.domain != "" }

  predicate IsCifs(opts: Opts) { EqualFold(opts.fsType, "cifs") }

  /** validatePersistentMountOptions returns nil. */
  predicate Acceptable(opts: Opts) {
    opts.persistent ==>
      && !ContainsWhitespace(opts.source) && !ContainsWhitespace(opts.mountPoint)
      && (IsCifs(opts) ==>
            var parts := OptionParts(opts.options);
            && !HasAnyPrefix(parts, "username=") && !HasAnyPrefix(parts, "password=") && !HasAnyPrefix(parts, "domain=")
            && !(HasAnyPrefix(parts, "credentials=") && WantsCredentials(opts)))
  }

  // ---- the fstab entry ----

  function EntrySource(opts: Opts): Result<string> {
    if IsCifs(opts) then NormalizeCIFSSource(opts.source) else Ok(opts.source)
  }

  function EntryType(opts: Opts): string { if opts.fsType == "" then "auto" else opts.fsType }

  function EntryTail(fsType: string, mountOpts: string): string { fsType + "\t" + mountOpts + "\t0\t0" }

  function EntryLine(source: string, mountPoint: string, fsType: string, mountOpts: string): string {
    source + "\t" + mountPoint + "\t" + EntryTail(fsType, mountOpts)
  }

  lemma TabFields(field: string, rest: string)
    ensures White.Fields(field + "\t" + rest) == White.Fields(field) + White.Fields(rest)
  {
    White.FieldsAcross(field, '\t', rest);
    assert field + ['\t'] + rest == field + "\t" + rest;
  }

  /** The fields of an entry are the fields of its columns. */
  lemma EntryFields(source: string, mountPoint: string, fsType: string, mountOpts: string)
    ensures White.Fields(EntryLine(source, mountPoint, fsType, mountOpts)) ==
            White.Fields(source)
            + (White.Fields(mountPoint) + (White.Fields(fsType) + White.Fields(mountOpts + "\t0\t0")))
  {
    var tail := EntryTail(fsType, mountOpts);
    EntryGrouped(source, mountPoint, fsType, mountOpts);
    TabFields(fsType, mountOpts + "\t0\t0");
    TabFields(mountPoint, tail);
    TabFields(source, mountPoint + "\t" + tail);
  }

  lemma TailFields(mountOpts: string)
    ensures White.Fields(mountOpts + "\t0\t0") == White.Fields(mountOpts) + ["0", "0"]
  {
    TabFields(mountOpts, "0\t0");
    TabFields("0", "0");
    White.FieldsOne("0");
    assert mountOpts + "\t0\t0" == mountOpts + "\t" + "0\t0";
    assert "0\t0" == "0" + "\t" + "0";
  }

  lemma EntryGrouped(source: string, mountPoint: string, fsType: string, mountOpts: string)
    ensures EntryTail(fsType, mountOpts) == fsType + "\t" + (mountOpts + "\t0\t0")
    ensures EntryLine(source, mountPoint, fsType, mountOpts) ==
            source + "\t" + (mountPoint + "\t" + EntryTail(fsType, mountOpts))
  {
    assert mountOpts + "\t0\t0" == mountOpts + ("\t0\t0");
  }

  /** Whether trimming leaves a comment depends on the first non-blank character only. */
  lemma {:induction false} TrimmedHead(line: string)
    requires White.Fields(line) != []
    ensures TrimSpace(line) != "" && TrimSpace(line)[0] == White.Fields(line)[0][0]
  {
    FieldsTrim(line);
    TrimSpaceTrimmed(line);
    assert TrimSpace(line) != "";
  }

  /** The columns in which a mountpoint is looked for: the source is one word and no comment, or else what follows
      its first word happens to be the mountpoint. */
  predicate FoundAgain(source: string, mountPoint: string, fsType: string, mountOpts: string) {
    var words := White.Fields(source);
    && White.Token(mountPoint)
    && if words == [] then
         mountPoint[0] != '#' && mountPoint == (White.Fields(fsType) + White.Fields(mountOpts) + ["0"])[0]
       else words[0][0] != '#' && (|words| == 1 || words[1] == mountPoint)
  }

  lemma KeyOfFields(line: string)
    requires |White.Fields(line)| >= 2
    ensures var fields := White.Fields(line);
            Key(line) == if fields[0][0] == '#' then None else Some(fields[1])
  {
    TrimmedHead(line);
    FieldsTrim(line);
  }

  /** The first two words of three columns, the middle one of which is, or is not, a single word. */
  lemma FirstTwo(words: seq<string>, middle: seq<string>, rest: seq<string>, mountPoint: string)
    requires forall i :: 0 <= i < |words| ==> White.Token(words[i])
    requires |rest| >= 2 && White.Token(rest[0]) && White.Token(rest[1])
    requires White.Token(mountPoint) ==> middle == [mountPoint]
    requires forall i :: 0 <= i < |middle| ==> White.Token(middle[i])
    ensures var fields := words + (middle + rest);
            && |fields| >= 2 && White.Token(fields[0])
            && (fields[0][0] != '#' && fields[1] == mountPoint <==>
                && White.Token(mountPoint)
                && if words == [] then mountPoint[0] != '#' && mountPoint == rest[0]
                   else words[0][0] != '#' && (|words| == 1 || words[1] == mountPoint))
  {
    var fields := words + (middle + rest);
    assert White.Token(fields[0]) && White.Token(fields[1]);
    if White.Token(mountPoint) {
      if words == [] { assert fields[0] == mountPoint && fields[1] == rest[0]; }
      if |words| == 1 { assert fields[1] == mountPoint; }
    }
  }

  /** Exactly when an entry is an active line of its own mountpoint, whatever its columns contain. */
  lemma EntryKeyed(source: string, mountPoint: string, fsType: string, mountOpts: string)
    ensures Key(EntryLine(source, mountPoint, fsType, mountOpts)) == Some(mountPoint) <==>
            FoundAgain(source, mountPoint, fsType, mountOpts)
  {
    var line := EntryLine(source, mountPoint, fsType, mountOpts);
    EntryFields(source, mountPoint, fsType, mountOpts);
    TailFields(mountOpts);
    var words, middle := White.Fields(source), White.Fields(mountPoint);
    var front := White.Fields(fsType) + White.Fields(mountOpts);
    if White.Token(mountPoint) { White.FieldsOne(mountPoint); }
    RestColumns(White.Fields(fsType), White.Fields(mountOpts));
    FirstTwo(words, middle, front + ["0", "0"], mountPoint);
    KeyOfFields(line);
  }

  lemma RestColumns(a: seq<string>, b: seq<string>)
    requires forall i :: 0 <= i < |a| ==> White.Token(a[i])
    requires forall i :: 0 <= i < |b| ==> White.Token(b[i])
    ensures a + (b + ["0", "0"]) == a + b + ["0", "0"]
    ensures var rest := a + b + ["0", "0"];
            White.Token(rest[0]) && White.Token(rest[1]) && rest[0] == (a + b + ["0"])[0]
  {
    var rest := a + b + ["0", "0"];
    forall i | 0 <= i < |rest| ensures White.Token(rest[i]) {
      if |a| <= i < |a| + |b| { assert rest[i] == b[i - |a|]; }
    }
  }

  /** On columns without white space: exactly when there are a source, which is not a comment, and a mountpoint. */
  lemma EntryKeyedPlain(source: string, mountPoint: string, fsType: string, mountOpts: string)
    requires NoSpace(source) && NoSpace(mountPoint) && NoSpace(fsType)
    requires fsType != "" && (source == "" ==> fsType != mountPoint)
    ensures FoundAgain(source, mountPoint, fsType, mountOpts) <==>
            source != "" && source[0] != '#' && mountPoint != ""
  {
    White.FieldsOne(fsType);
    if source != "" { White.FieldsOne(source); }
  }

  // ---- the credentials that an entry refers to ----

  /** The path of a credentials= option at the head of the options field. */
  function CredentialsOf(line: string): Option<string> {
    var fields := White.Fields(TrimSpace(line));
    if |fields| < 4 then None
    else
      var first := Split(fields[3], ',')[0];
      if HasPrefix(first, "credentials=") then Some(first[|"credentials="|..]) else None
  }

  lemma CredentialsTrimmed(line: string)
    ensures CredentialsOf(TrimSpace(line)) == CredentialsOf(line)
  {
    TrimSpaceTrimmed(line);
    TrimSpaceFixed(TrimSpace(line));
  }

  lemma FirstField(s: string)
    requires s != "" && !IsSpace(s[0])
    ensures White.Fields(s) != [] && White.Fields(s)[0] == s[..White.Run(s)] && White.Run(s) > 0
  {
  }

  /** The head of the options field, as far as it has no comma. */
  lemma HeadOption(head: string, rest: string)
    requires head != "" && ',' !in head && !IsSpace(head[0])
    requires rest != "" && (rest[0] == ',' || rest[0] == '\t')
    ensures White.Fields(head + rest) != []
    ensures Split(White.Fields(head + rest)[0], ',')[0] <= head
    ensures NoSpace(head) ==> Split(White.Fields(head + rest)[0], ',')[0] == head
  {
    var s := head + rest;
    FirstField(s);
    var n := White.Run(s);
    var first := Split(s[..n], ',')[0];
    SplitHead(s[..n]);
    assert s[|head|] == rest[0];
    assert forall k :: 0 <= k < |head| ==> s[k] == head[k];
    assert forall k :: 0 <= k < |first| ==> first[k] == s[k] && first[k] != ',' && !IsSpace(first[k]);
    assert |first| <= |head|;
    assert first == s[..|first|] == head[..|first|];
    if NoSpace(head) {
      assert |head| <= n;
      assert forall k :: 0 <= k < n ==> s[..n][k] == s[k];
    }
  }

  /** The first piece of a split is the text before the first separator. */
  lemma SplitHead(s: string)
    ensures Split(s, ',')[0] <= s && ',' !in Split(s, ',')[0]
    ensures |Split(s, ',')[0]| < |s| ==> s[|Split(s, ',')[0]|] == ','
  {
    SplitPieces(s, ',');
    SplitHeadPrefix(s);
  }

  lemma {:induction false} SplitHeadPrefix(s: string)
    ensures Split(s, ',')[0] <= s
    ensures |Split(s, ',')| == 1 ==> Split(s, ',')[0] == s
  {
    if s == "" {
    } else {
      SplitHeadPrefix(s[1..]);
    }
  }

  function HeadPart(parts: seq<string>): string { if parts == [] then "defaults" else parts[0] }

  function AfterHead(parts: seq<string>): string {
    (if |parts| <= 1 then "" else "," + Join(parts[1..], ",")) + "\t0\t0"
  }

  lemma OptionFieldHead(parts: seq<string>)
    ensures OptionField(parts) + "\t0\t0" == HeadPart(parts) + AfterHead(parts)
    ensures AfterHead(parts) != "" && (AfterHead(parts)[0] == ',' || AfterHead(parts)[0] == '\t')
  {
    if |parts| > 1 {
      assert Join(parts, ",") == parts[0] + ("," + Join(parts[1..], ","));
    } else {
      assert "" + "\t0\t0" == "\t0\t0";
    }
  }

  /** The first option of an entry, as CredentialsOf sees it. */
  lemma EntryHead(source: string, mountPoint: string, fsType: string, parts: seq<string>)
    requires White.Token(source) && White.Token(mountPoint) && White.Token(fsType)
    requires Part(HeadPart(parts))
    ensures var fields := White.Fields(EntryLine(source, mountPoint, fsType, OptionField(parts)));
            && |fields| >= 4 && Split(fields[3], ',')[0] <= HeadPart(parts)
            && (NoSpace(HeadPart(parts)) ==> Split(fields[3], ',')[0] == HeadPart(parts))
  {
    EntryFields(source, mountPoint, fsType, OptionField(parts));
    OptionFieldHead(parts);
    HeadOption(HeadPart(parts), AfterHead(parts));
  }

  /** An entry refers to the credentials file that heads its options, or to what its first option says. */
  lemma EntryCredentials(source: string, mountPoint: string, fsType: string, parts: seq<string>)
    requires White.Token(source) && White.Token(mountPoint) && White.Token(fsType)
    requires Part(HeadPart(parts))
    ensures var c := CredentialsOf(EntryLine(source, mountPoint, fsType, OptionField(parts)));
            && (c.Some? ==> "credentials=" + c.value <= HeadPart(parts))
            && (NoSpace(HeadPart(parts)) && "credentials=" <= HeadPart(parts) ==>
                  c == Some(HeadPart(parts)[|"credentials="|..]))
  {
    var line := EntryLine(source, mountPoint, fsType, OptionField(parts));
    EntryHead(source, mountPoint, fsType, parts);
    FieldsTrim(line);
    var first := Split(White.Fields(line)[3], ',')[0];
    if HasPrefix(first, "credentials=") {
      assert first == "credentials=" + first[|"credentials="|..];
    }
  }
}
