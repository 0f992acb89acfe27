/** What a mount request comes to, field by field: on the command line, in the fstab and in the credentials file. */
module MountLaws {
  import opened Wrappers
  import opened Text
  import opened Seqs
  import opened FileSystems
  import opened FstabText
  import opened MountOptions
  import opened FstabPersister
  import opened MountTable

  // ---- options ----

  /** An option list without commas is one option, or none when it is blank. With PartsAppend this says what any
      list is. */
  lemma SinglePart(a: string)
    requires ',' !in a
    ensures OptionParts(a) == if Blank(a) then [] else [TrimSpace(a)]
  {
    SplitNone(a, ',');
    FlatMapOne(Visible, a);
    BlankIff(a);
  }

  /** The lower-cased name in front of the first equals sign. */
  function OptionName(p: string): Option<string> {
    if '=' in p then Some(ToLower(Split(p, '=')[0])) else None
  }

  lemma NameIff(p: string, key: string)
    requires '=' !in key
    ensures HasPrefix(ToLower(p), key + "=") <==> OptionName(p) == Some(key)
  {
    if '=' in p {
      var a, b := FirstAt(p, '=');
      SplitFirst(a, '=', b);
      assert Split(p, '=')[0] == a;
      LowerConcat(a, ['='] + b);
      assert p == a + (['='] + b);
      assert ToLower(['='] + b)[0] == '=';
      LowerKeeps(a);
      NamePrefix(ToLower(a), ToLower(['='] + b), key);
    } else {
      LowerKeeps(p);
      PrefixHas(ToLower(p), key);
    }
  }

  lemma PrefixHas(s: string, key: string)
    ensures HasPrefix(s, key + "=") ==> '=' in s
  {
    if HasPrefix(s, key + "=") { assert s[|key|] == (key + "=")[|key|] == '='; }
  }

  lemma LowerConcat(a: string, b: string)
    ensures ToLower(a + b) == ToLower(a) + ToLower(b)
  {
  }

  lemma LowerKeeps(a: string)
    ensures '=' in ToLower(a) ==> '=' in a
  {
    if '=' in ToLower(a) {
      var i :| 0 <= i < |a| && ToLower(a)[i] == '=';
      assert a[i] == '=';
    }
  }

  lemma NamePrefix(name: string, rest: string, key: string)
    requires '=' !in name && '=' !in key && rest != "" && rest[0] == '='
    ensures key + "=" <= name + rest <==> name == key
  {
    var s, p := name + rest, key + "=";
    if p <= s {
      assert s == key + ['='] + s[|p|..] && s == name + ['='] + rest[1..];
      SplitFirst(key, '=', s[|p|..]);
      SplitFirst(name, '=', rest[1..]);
    }
    if name == key { assert s == p + rest[1..]; }
  }

  /** Exactly which requests may be persisted: no white space of the four kinds in source and mountpoint; for CIFS no
      user, password or domain among the options, in any letter case, and no credentials next to given ones. */
  lemma AcceptableIff(opts: Opts)
    ensures Acceptable(opts) <==>
            (opts.persistent ==>
               && (forall c :: c in opts.source + opts.mountPoint ==> c != ' ' && c != '\t' && c != '\n' && c != '\r')
               && (EqualFold(opts.fsType, "cifs") ==>
                     forall p :: p in OptionParts(opts.options) ==>
                       && OptionName(p) !in {Some("username"), Some("password"), Some("domain")}
                       && (OptionName(p) == Some("credentials") ==>
                             opts.username == "" && opts.password == "" && opts.domain == "")))
  {
    NoWhitespace(opts.source, opts.mountPoint);
    forall p | p in OptionParts(opts.options)
      ensures HasPrefix(ToLower(p), "username=") <==> OptionName(p) == Some("username")
      ensures HasPrefix(ToLower(p), "password=") <==> OptionName(p) == Some("password")
      ensures HasPrefix(ToLower(p), "domain=") <==> OptionName(p) == Some("domain")
      ensures HasPrefix(ToLower(p), "credentials=") <==> OptionName(p) == Some("credentials")
    {
      ForbiddenNames(p);
    }
  }

  lemma NoWhitespace(a: string, b: string)
    ensures !ContainsWhitespace(a) && !ContainsWhitespace(b) <==>
            forall c :: c in a + b ==> c != ' ' && c != '\t' && c != '\n' && c != '\r'
  {
    assert forall c :: c in a + b <==> c in a || c in b;
  }

  lemma ForbiddenNames(p: string)
    ensures HasPrefix(ToLower(p), "username=") <==> OptionName(p) == Some("username")
    ensures HasPrefix(ToLower(p), "password=") <==> OptionName(p) == Some("password")
    ensures HasPrefix(ToLower(p), "domain=") <==> OptionName(p) == Some("domain")
    ensures HasPrefix(ToLower(p), "credentials=") <==> OptionName(p) == Some("credentials")
  {
    NameIff(p, "username");
    NameIff(p, "password");
    NameIff(p, "domain");
    NameIff(p, "credentials");
    assert "username" + "=" == "username=" && "password" + "=" == "password=";
    assert "domain" + "=" == "domain=" && "credentials" + "=" == "credentials=";
  }

  /** Either slash, any number of them in front: the server and the path below it, over forward slashes. */
  lemma SlashesNormalize(segments: seq<string>, slash: char)
    requires slash == '/' || slash == '\\'
    requires |segments| >= 2
    requires forall i :: 0 <= i < |segments| ==> EitherSlash.Token(segments[i]) && NoSpace(segments[i])
    ensures NormalizeCIFSSource([slash, slash] + Join(segments, [slash])) == Ok("//" + Join(segments, "/"))
  {
    var source := [slash, slash] + Join(segments, [slash]);
    JoinedNoSpace(segments, slash);
    TrimSpaceFixed(source);
    SlashedFields(segments, slash);
    NormalizedShape(source);
  }

  lemma SlashedFields(segments: seq<string>, slash: char)
    requires slash == '/' || slash == '\\'
    requires forall i :: 0 <= i < |segments| ==> EitherSlash.Token(segments[i])
    ensures EitherSlash.Fields([slash, slash] + Join(segments, [slash])) == segments
  {
    var rest := Join(segments, [slash]);
    EitherSlash.FieldsJoin(segments, slash);
    EitherSlash.FieldsSkip(slash, rest);
    EitherSlash.FieldsSkip(slash, [slash] + rest);
    assert [slash, slash] + rest == [slash] + ([slash] + rest);
  }

  lemma {:induction false} JoinedNoSpace(segments: seq<string>, slash: char)
    requires !IsSpace(slash) && forall i :: 0 <= i < |segments| ==> NoSpace(segments[i])
    ensures NoSpace(Join(segments, [slash]))
  {
    if |segments| <= 1 {
    } else {
      JoinedNoSpace(segments[1..], slash);
    }
  }

  // ---- the live mount ----

  /** What the command line asks for: the type unless it is left to the kernel, every requested option, ro when it is
      read-only, the credentials file of a CIFS mount, and the two operands. */
  lemma WantedMeans(opts: Opts, source: string, credentials: string)
    ensures var c, asked := Wanted(opts, source, credentials), OptionParts(opts.options);
            && c.operands == [source, opts.mountPoint]
            && (c.fsType == if EqualFold(opts.fsType, "cifs") then Some("cifs")
                            else if opts.fsType == "" || EqualFold(opts.fsType, "auto") then None
                            else Some(opts.fsType))
            && (forall p :: p in c.parts <==>
                  || p in asked || (p == "ro" && opts.readOnly)
                  || (p == "credentials=" + credentials && EqualFold(opts.fsType, "cifs")))
            && |c.parts| == |asked| + (if opts.readOnly then 1 else 0)
                            + (if EqualFold(opts.fsType, "cifs") then 1 else 0)
  {
  }

  // ---- the entry ----

  /** The six fields of an entry: source, mountpoint, type, options and two zeros. The options are the credentials file
      that is generated, the requested options, and ro when the mount is read-only and they do not say so already. */
  ghost predicate Reads(cfg: Config, opts: Opts, fields: seq<string>) {
    && |fields| == 6
    && fields[0] == (if EqualFold(opts.fsType, "cifs") then "//" + Join(Segments(opts.source), "/") else opts.source)
    && fields[1] == opts.mountPoint
    && fields[2] == (if opts.fsType == "" then "auto" else opts.fsType)
    && fields[4] == "0" && fields[5] == "0"
    && ReadsOptions(cfg, opts, fields[3])
  }

  ghost predicate ReadsOptions(cfg: Config, opts: Opts, field: string) {
    var asked := OptionParts(opts.options);
    var given := EqualFold(opts.fsType, "cifs") && (opts.username != "" || opts.password != "" || opts.domain != "");
    var front := if given then ["credentials=" + cfg.credsDir + "/" + cfg.credName(opts.mountPoint)] else [];
    var back := if opts.readOnly && !(exists p :: p in asked && ToLower(p) == "ro") then ["ro"] else [];
    if front + asked + back == [] then field == "defaults" else OptionParts(field) == front + asked + back
  }

  /** Which requests have an entry, and the error of the others. */
  lemma EntryIff(cfg: Config, opts: Opts)
    ensures Entry(cfg, opts).Ok? || Entry(cfg, opts) ==
              if EqualFold(opts.fsType, "cifs") && |Segments(opts.source)| < 2 then Err(InvalidInput) else Err(Internal)
    ensures Entry(cfg, opts).Err? <==>
            EqualFold(opts.fsType, "cifs")
            && (|Segments(opts.source)| < 2
                || (cfg.credsDir == "" && (opts.username != "" || opts.password != "" || opts.domain != "")))
  {
    if IsCifs(opts) { NormalizedShape(opts.source); }
  }

  /** Every column of the request is one word. */
  ghost predicate Worded(opts: Opts) {
    && White.Token(opts.source) && White.Token(opts.mountPoint) && NoSpace(opts.fsType)
    && forall p :: p in OptionParts(opts.options) ==> NoSpace(p)
  }

  /** The options of the entry, in terms of the request. */
  lemma PartsMean(cfg: Config, opts: Opts)
    ensures var asked := OptionParts(opts.options);
            var named := opts.username != "" || opts.password != "" || opts.domain != "";
            var given := EqualFold(opts.fsType, "cifs") && named;
            var front := if given then ["credentials=" + cfg.credsDir + "/" + cfg.credName(opts.mountPoint)] else [];
            var back := if opts.readOnly && !(exists p :: p in asked && ToLower(p) == "ro") then ["ro"] else [];
            EntryParts(cfg, opts) == front + asked + back
  {
    var asked := OptionParts(opts.options);
    RoIff(asked);
    assert "credentials=" + cfg.credsDir + "/" + cfg.credName(opts.mountPoint) ==
           "credentials=" + cfg.CredPath(opts.mountPoint);
    Regroup(if Generated(opts) then ["credentials=" + cfg.CredPath(opts.mountPoint)] else [], asked,
            if opts.readOnly && !HasExact(asked, "ro") then ["ro"] else []);
    assert asked + [] == asked;
  }

  lemma FieldReads(cfg: Config, opts: Opts)
    requires cfg.WellFormed()
    ensures ReadsOptions(cfg, opts, OptionField(EntryParts(cfg, opts)))
  {
    PartsMean(cfg, opts);
    EntryPartsWellFormed(cfg, opts);
    FieldParts(EntryParts(cfg, opts));
  }

  lemma FieldWord(cfg: Config, opts: Opts)
    requires cfg.WellFormed() && Worded(opts)
    ensures White.Token(OptionField(EntryParts(cfg, opts)))
  {
    var parts := EntryParts(cfg, opts);
    PathPlain(cfg, opts.mountPoint);
    PartsWellFormed(opts.options);
    assert NoSpace("ro") && NoSpace("defaults");
    assert forall p :: p in parts ==> NoSpace(p) && p != "";
    WordsJoined(parts);
  }

  lemma RoIff(parts: seq<string>)
    ensures HasExact(parts, "ro") <==> exists p :: p in parts && ToLower(p) == "ro"
  {
    forall p | p in parts ensures EqualFold(p, "ro") <==> ToLower(p) == "ro" {
      OnlyRoFoldsToRo(p);
    }
  }

  lemma {:induction false} WordsJoined(parts: seq<string>)
    requires forall p :: p in parts ==> NoSpace(p) && p != ""
    ensures NoSpace(Join(parts, ",")) && (parts != [] ==> Join(parts, ",") != "")
  {
    if parts == [] {
    } else {
      assert parts[0] in parts;
      WordsJoined(parts[1..]);
    }
  }

  lemma EntryReads(cfg: Config, opts: Opts)
    requires cfg.WellFormed() && Worded(opts) && Entry(cfg, opts).Ok?
    ensures Reads(cfg, opts, White.Fields(Entry(cfg, opts).value))
  {
    var source, field := EntrySource(opts).value, OptionField(EntryParts(cfg, opts));
    FieldReads(cfg, opts);
    SourceMeans(opts);
    EntryWords(cfg, opts);
    ColumnsRead(cfg, opts, source, field);
  }

  lemma ColumnsRead(cfg: Config, opts: Opts, source: string, field: string)
    requires source == if EqualFold(opts.fsType, "cifs") then "//" + Join(Segments(opts.source), "/") else opts.source
    requires ReadsOptions(cfg, opts, field)
    ensures Reads(cfg, opts, [source, opts.mountPoint, EntryType(opts), field, "0", "0"])
  {
  }

  lemma EntryWords(cfg: Config, opts: Opts)
    requires cfg.WellFormed() && Worded(opts) && Entry(cfg, opts).Ok?
    ensures White.Fields(Entry(cfg, opts).value) ==
            [EntrySource(opts).value, opts.mountPoint, EntryType(opts), OptionField(EntryParts(cfg, opts)), "0", "0"]
  {
    FieldWord(cfg, opts);
    SourceColumn(opts);
    AutoIsPlain();
    SixFields(EntrySource(opts).value, opts.mountPoint, EntryType(opts), OptionField(EntryParts(cfg, opts)));
  }

  lemma SourceMeans(opts: Opts)
    requires EntrySource(opts).Ok?
    ensures EntrySource(opts).value ==
            if EqualFold(opts.fsType, "cifs") then "//" + Join(Segments(opts.source), "/") else opts.source
  {
    if IsCifs(opts) { NormalizedShape(opts.source); }
  }

  lemma SixFields(source: string, mountPoint: string, fsType: string, field: string)
    requires White.Token(source) && White.Token(mountPoint) && White.Token(fsType) && White.Token(field)
    ensures White.Fields(EntryLine(source, mountPoint, fsType, field)) == [source, mountPoint, fsType, field, "0", "0"]
  {
    EntryFields(source, mountPoint, fsType, field);
    TailFields(field);
    White.FieldsOne(source);
    White.FieldsOne(mountPoint);
    White.FieldsOne(fsType);
    White.FieldsOne(field);
  }

  /** After a persist the fstab has such a line for the mountpoint. */
  lemma PersistedReads(cfg: Config, files: Files, opts: Opts)
    requires cfg.WellFormed() && Checked(opts) && Worded(opts) && Entry(cfg, opts).Ok? && opts.source[0] != '#'
    ensures var after := WithEntry(cfg, files, opts, Entry(cfg, opts).value);
            var line := Lookup(View(Get(after, cfg.fstabPath)), opts.mountPoint);
            line.Some? && Reads(cfg, opts, White.Fields(line.value))
  {
    var entry := Entry(cfg, opts).value;
    EntryReads(cfg, opts);
    FieldsTrim(entry);
    WordedFound(cfg, opts);
    PersistUpdatesTable(cfg, files, opts);
  }

  /** A persist changes no file but the fstab and the credentials file of the mountpoint. */
  lemma PersistTouches(cfg: Config, files: Files, opts: Opts, path: string)
    requires Entry(cfg, opts).Ok?
    requires path != cfg.fstabPath && path != cfg.credsDir + "/" + cfg.credName(opts.mountPoint)
    ensures Get(WithEntry(cfg, files, opts, Entry(cfg, opts).value), path) == Get(files, path)
  {
  }

  lemma WordedFound(cfg: Config, opts: Opts)
    requires cfg.WellFormed() && Worded(opts) && Entry(cfg, opts).Ok? && opts.source[0] != '#'
    ensures OneLine(opts) && Found(cfg, opts)
  {
    assert IsSpace('\n');
    SourceColumn(opts);
    var source := EntrySource(opts).value;
    White.FieldsOne(source);
    if IsCifs(opts) { NormalizedShape(opts.source); }
  }

  /** For the other file systems, the entry asks for the same options as the live mount, up to letter case. */
  lemma EntryAgreesWithLive(cfg: Config, opts: Opts)
    requires cfg.WellFormed() && Worded(opts) && !EqualFold(opts.fsType, "cifs")
    ensures Entry(cfg, opts).Ok?
    ensures var fields := White.Fields(Entry(cfg, opts).value);
            && |fields| == 6
            && Denoted(fields[3]) == Denoted(LiveOptions(opts))
            && OptionParts(LiveOptions(opts)) == Wanted(opts, opts.source, "").parts
  {
    LiveAndPersistedAgree(opts);
    LiveParts(opts);
    FieldWord(cfg, opts);
    AutoIsPlain();
    SixFields(opts.source, opts.mountPoint, EntryType(opts), OptionField(EntryParts(cfg, opts)));
    var parts := WithReadOnly(OptionParts(opts.options), opts.readOnly);
    assert [] + parts == parts;
  }

  // ---- the credentials file ----

  /** The value of a key in a file of key=value lines, as mount.cifs reads it. */
  function CredentialValue(lines: seq<string>, key: string): Option<string> {
    if lines == [] then None
    else if HasPrefix(lines[0], key + "=") then Some(lines[0][|key| + 1..])
    else CredentialValue(lines[1..], key)
  }

  lemma ValueFirst(key: string, value: string, rest: seq<string>)
    ensures CredentialValue([key + "=" + value] + rest, key) == Some(value)
  {
    var line := key + "=" + value;
    assert line == (key + "=") + value;
    assert line[|key| + 1..] == value;
  }

  lemma ValueLater(line: string, rest: seq<string>, key: string)
    requires key != "" && line != "" && line[0] != key[0]
    ensures CredentialValue([line] + rest, key) == CredentialValue(rest, key)
  {
    assert ([line] + rest)[1..] == rest;
    assert (key + "=")[0] == key[0];
  }

  function CredentialLines(username: string, password: string, domain: string): seq<string> {
    ["username=" + username, "password=" + password] + if domain == "" then [] else ["domain=" + domain]
  }

  lemma CredentialText(username: string, password: string, domain: string)
    ensures CredText(username, password, domain) == Unlines(CredentialLines(username, password, domain))
  {
    var login := ["username=" + username, "password=" + password];
    LoginText(username, password);
    if domain == "" {
      assert login + [] == login;
      assert Unlines(login) + "" == Unlines(login);
    } else {
      DomainText(Unlines(login), "domain=" + domain);
      UnlinesSnoc(login, "domain=" + domain);
    }
  }

  lemma DomainText(front: string, line: string)
    ensures front + (line + "\n") == front + line + "\n"
  {
  }

  lemma LoginText(username: string, password: string)
    ensures Unlines(["username=" + username, "password=" + password]) ==
            "username=" + username + "\npassword=" + password + "\n"
  {
    TwoLines("username=" + username, "password=" + password);
    assert "\n" + "password=" == "\npassword=";
    GluedLine("username=" + username, "password=", "\npassword=", password);
  }

  lemma TwoLines(u: string, p: string)
    ensures Unlines([u, p]) == u + "\n" + p + "\n"
  {
    UnlinesSnoc([], u);
    UnlinesSnoc([u], p);
    assert [] + [u] == [u] && [u] + [p] == [u, p];
    assert Unlines([]) + u == u;
  }

  lemma GluedLine(front: string, key: string, joined: string, value: string)
    requires joined == "\n" + key
    ensures front + joined + value + "\n" == front + "\n" + (key + value) + "\n"
  {
    assert front + joined + value == front + "\n" + (key + value);
  }

  /** The credentials file holds the user, the password and the domain, if there is one. */
  lemma CredentialsRead(username: string, password: string, domain: string)
    requires '\n' !in username && '\n' !in password && '\n' !in domain
    ensures var lines := Split(CredText(username, password, domain), '\n');
            && CredentialValue(lines, "username") == Some(username)
            && CredentialValue(lines, "password") == Some(password)
            && CredentialValue(lines, "domain") == if domain == "" then None else Some(domain)
  {
    var lines := CredentialLines(username, password, domain);
    CredentialText(username, password, domain);
    CredentialsOneLine(username, password, domain);
    SplitUnlines(lines);
    var u, p := "username=" + username, "password=" + password;
    var last := (if domain == "" then [] else ["domain=" + domain]) + [""];
    assert lines + [""] == [u] + ([p] + last);
    ValueLines(username, password, domain, last);
  }

  lemma CredentialsOneLine(username: string, password: string, domain: string)
    requires '\n' !in username && '\n' !in password && '\n' !in domain
    ensures forall i :: 0 <= i < |CredentialLines(username, password, domain)| ==>
              '\n' !in CredentialLines(username, password, domain)[i]
  {
    assert '\n' !in "username=" && '\n' !in "password=" && '\n' !in "domain=";
  }

  lemma ValueLines(username: string, password: string, domain: string, last: seq<string>)
    requires last == (if domain == "" then [] else ["domain=" + domain]) + [""]
    ensures var lines := ["username=" + username] + (["password=" + password] + last);
            && CredentialValue(lines, "username") == Some(username)
            && CredentialValue(lines, "password") == Some(password)
            && CredentialValue(lines, "domain") == if domain == "" then None else Some(domain)
  {
    var u, p := "username=" + username, "password=" + password;
    assert "username" + "=" == "username=" && "password" + "=" == "password=" && "domain" + "=" == "domain=";
    ValueFirst("username", username, [p] + last);
    ValueLater(u, [p] + last, "password");
    ValueFirst("password", password, last);
    ValueLater(u, [p] + last, "domain");
    ValueLater(p, last, "domain");
    DomainLast(domain, last);
  }

  lemma DomainLast(domain: string, last: seq<string>)
    requires last == (if domain == "" then [] else ["domain=" + domain]) + [""]
    ensures CredentialValue(last, "domain") == if domain == "" then None else Some(domain)
  {
    if domain == "" {
      assert last == [""] && last[1..] == [];
    } else {
      assert "domain" + "=" == "domain=";
      ValueFirst("domain", domain, [""]);
    }
  }

  /** After a persist that generates credentials, the file that the entry refers to holds those of the request. */
  lemma PersistedCredentials(cfg: Config, files: Files, opts: Opts)
    requires cfg.WellFormed() && Entry(cfg, opts).Ok? && EqualFold(opts.fsType, "cifs")
    requires opts.username != "" || opts.password != "" || opts.domain != ""
    requires '\n' !in opts.username && '\n' !in opts.password && '\n' !in opts.domain
    ensures var after := WithEntry(cfg, files, opts, Entry(cfg, opts).value);
            var text := Get(after, cfg.credsDir + "/" + cfg.credName(opts.mountPoint));
            && text.Some?
            && CredentialValue(Split(text.value, '\n'), "username") == Some(opts.username)
            && CredentialValue(Split(text.value, '\n'), "password") == Some(opts.password)
            && CredentialValue(Split(text.value, '\n'), "domain") == if opts.domain == "" then None else Some(opts.domain)
  {
    CredPathIsNotFstab(cfg, opts.mountPoint);
    CredentialsRead(opts.username, opts.password, opts.domain);
  }

  // ---- lines of the two tables ----

  /** Which lines of the fstab are active, and for which mountpoint. */
  lemma KeyIff(line: string, mountPoint: string)
    ensures Key(line) == Some(mountPoint) <==>
            var fields := White.Fields(line);
            |fields| >= 2 && fields[0][0] != '#' && fields[1] == mountPoint
  {
    if |White.Fields(line)| >= 2 {
      KeyOfFields(line);
    } else {
      FieldsTrim(line);
    }
  }

  /** Which lines of the mount table count, and as what. */
  lemma MountLineIff(line: string)
    ensures ParsedLine(line) ==
            var fields := White.Fields(line);
            if |fields| >= 4 && fields[0][0] != '#' then
              [MountTable.Mount(fields[0], fields[1], fields[2], fields[3])]
            else []
  {
    FieldsTrim(line);
    if White.Fields(line) != [] { TrimmedHead(line); }
  }

  /** Rewriting a file of lines keeps every other line as it is, byte for byte, exactly unless the new last line is
      blank: then one line end is lost. */
  lemma RewriteExactIff(lines: seq<string>, mountPoint: string, entry: string)
    requires entry != "" && '\n' !in entry
    requires forall i :: 0 <= i < |lines| ==> '\n' !in lines[i] && '\r' !in lines[i]
    ensures var rewritten := Replace(lines, mountPoint, entry);
            NewFstab(Some(Unlines(lines)), mountPoint, entry) == Unlines(rewritten) <==> rewritten[|rewritten| - 1] != ""
  {
    ReadExact(lines);
    var after := Replace(lines, mountPoint, entry);
    ReplaceOneLine(lines, mountPoint, entry);
    RenderExactIff(after);
  }

  lemma ReadExact(lines: seq<string>)
    requires forall i :: 0 <= i < |lines| ==> '\n' !in lines[i] && '\r' !in lines[i]
    ensures ReadLines(Some(Unlines(lines))) == lines
  {
    UnlinesNoReturn(lines);
    NothingDropped(Unlines(lines));
    SplitUnlines(lines);
    assert (lines + [""])[..|lines|] == lines;
  }

  lemma {:induction false} UnlinesNoReturn(lines: seq<string>)
    requires forall i :: 0 <= i < |lines| ==> '\r' !in lines[i]
    ensures '\r' !in Unlines(lines)
  {
    if lines == [] {
    } else {
      UnlinesNoReturn(lines[..|lines| - 1]);
    }
  }

  lemma {:induction false} NothingDropped(s: string)
    requires '\r' !in s
    ensures DropCarriageReturns(s) == s
  {
    if |s| < 2 {
    } else {
      NothingDropped(s[1..]);
      assert s == [s[0]] + s[1..];
    }
  }

  lemma {:induction false} ReplaceOneLine(lines: seq<string>, mountPoint: string, entry: string)
    requires '\n' !in entry && forall i :: 0 <= i < |lines| ==> '\n' !in lines[i]
    ensures var after := Replace(lines, mountPoint, entry);
            after != [] && forall i :: 0 <= i < |after| ==> '\n' !in after[i]
  {
    if lines == [] {
    } else {
      ReplaceOneLine(lines[1..], mountPoint, entry);
    }
  }

  lemma {:induction false} UnlinesIsJoin(lines: seq<string>)
    requires lines != []
    ensures Unlines(lines) == Join(lines, "\n") + "\n"
  {
    if |lines| == 1 {
      assert lines == [] + [lines[0]];
      UnlinesSnoc([], lines[0]);
    } else {
      UnlinesIsJoin(lines[1..]);
      UnlinesCons(lines[0], lines[1..]);
      assert lines == [lines[0]] + lines[1..];
    }
  }

  lemma {:induction false} JoinEnds(lines: seq<string>)
    requires lines != [] && forall i :: 0 <= i < |lines| ==> '\n' !in lines[i]
    ensures var text, last := Join(lines, "\n"), lines[|lines| - 1];
            text == "" || HasSuffix(text, "\n") <==> last == ""
  {
    if |lines| == 1 {
      SuffixLast(lines[0]);
    } else {
      JoinEnds(lines[1..]);
      var front, rest := lines[0] + "\n", Join(lines[1..], "\n");
      var text := Join(lines, "\n");
      assert text == front + rest && |text| > 0;
      assert text[|text| - 1] == if rest == "" then '\n' else rest[|rest| - 1];
      SuffixLast(text);
      SuffixLast(rest);
    }
  }

  lemma SuffixLast(s: string)
    ensures HasSuffix(s, "\n") <==> s != "" && s[|s| - 1] == '\n'
  {
    if s != "" { assert s[|s| - 1..] == [s[|s| - 1]]; }
  }

  lemma RenderExactIff(lines: seq<string>)
    requires lines != [] && forall i :: 0 <= i < |lines| ==> '\n' !in lines[i]
    ensures RenderLines(lines) == Unlines(lines) <==> lines[|lines| - 1] != ""
  {
    UnlinesIsJoin(lines);
    JoinEnds(lines);
  }
}
