/** The Samba snippet that a reload generates, and a reader for its format. */
module SambaPrinter {
  import opened Wrappers
  import opened Text
  import opened Seqs
  import opened ShareTypes
  import opened PrinterText

  datatype Setting = Setting(key: string, value: string)
  datatype Section = Section(name: string, settings: seq<Setting>)

  function YesNo(b: bool): string { if b then "yes" else "no" }

  function Optional(key: string, value: string): seq<Setting> {
    if value == "" then [] else [Setting(key, value)]
  }

  function Settings(s: Share): seq<Setting> {
    [Setting("path", s.path)] + Optional("comment", s.comment) + [Setting("read only", YesNo(s.readOnly))]
    + Optional("valid users", s.validUsers) + Optional("write list", s.writeList)
    + Optional("create mask", s.createMask) + Optional("directory mask", s.directoryMask)
    + [Setting("browsable", "yes")]
  }

  function SettingLine(x: Setting): string { "    " + x.key + " = " + x.value }

  function SettingLines(xs: seq<Setting>): seq<string> {
    seq(|xs|, i requires 0 <= i < |xs| => SettingLine(xs[i]))
  }

  function DisabledLines(s: Share): seq<string> {
    ["# [" + s.name + "] (disabled)",
     "#    path = " + s.path,
     "#    comment = " + s.comment,
     "#    read only = " + YesNo(s.readOnly),
     ""]
  }

  function SambaBlock(s: Share): seq<string> {
    if s.kind != Samba then []
    else if !s.enabled then DisabledLines(s)
    else ["[" + s.name + "]"] + SettingLines(Settings(s)) + [""]
  }

  function SambaBlocks(shares: seq<Share>): seq<string> { FlatMap(SambaBlock, shares) }

  function SambaHeader(confPath: string): seq<string> {
    [Banner(),
     "# To activate: add  include = " + confPath + "  to /etc/samba/smb.conf",
     ""]
  }

  function SambaText(confPath: string, shares: seq<Share>): string {
    Unlines(SambaHeader(confPath) + SambaBlocks(shares))
  }

  method PutSetting(buf: string, ghost head: seq<string>, ghost settings: seq<Setting>, key: string, value: string)
    returns (r: string, ghost rs: seq<Setting>)
    requires buf == Unlines(head + SettingLines(settings))
    ensures rs == settings + [Setting(key, value)]
    ensures r == Unlines(head + SettingLines(rs))
  {
    rs := settings + [Setting(key, value)];
    ghost var lines := head + SettingLines(settings);
    r, lines := PutLine(buf, lines, "    " + key + " = " + value);
    assert SettingLines(rs) == SettingLines(settings) + [SettingLine(Setting(key, value))];
    assert lines == head + SettingLines(rs);
  }

  method PutOptional(buf: string, ghost head: seq<string>, ghost settings: seq<Setting>, key: string, value: string)
    returns (r: string, ghost rs: seq<Setting>)
    requires buf == Unlines(head + SettingLines(settings))
    ensures rs == settings + Optional(key, value)
    ensures r == Unlines(head + SettingLines(rs))
  {
    r, rs := buf, settings;
    if value != "" {
      r, rs := PutSetting(buf, head, settings, key, value);
    }
  }

  method WriteEnabled(buf: string, s: Share, readOnly: string, ghost done: seq<string>) returns (r: string)
    requires buf == Unlines(done) && readOnly == YesNo(s.readOnly)
    requires s.kind == Samba && s.enabled
    ensures r == Unlines(done + SambaBlock(s))
  {
    ghost var head: seq<string>;
    ghost var settings: seq<Setting> := [];
    r, head := PutLine(buf, done, "[" + s.name + "]");
    assert head + SettingLines(settings) == head;
    r, settings := PutSetting(r, head, settings, "path", s.path);
    r, settings := PutOptional(r, head, settings, "comment", s.comment);
    r, settings := PutSetting(r, head, settings, "read only", readOnly);
    r, settings := PutOptional(r, head, settings, "valid users", s.validUsers);
    r, settings := PutOptional(r, head, settings, "write list", s.writeList);
    r, settings := PutOptional(r, head, settings, "create mask", s.createMask);
    r, settings := PutOptional(r, head, settings, "directory mask", s.directoryMask);
    r, settings := PutSetting(r, head, settings, "browsable", "yes");
    assert [] + [Setting("path", s.path)] == [Setting("path", s.path)];
    ghost var lines := head + SettingLines(settings);
    r, lines := PutLine(r, lines, "");
    EnabledBlock(done, s);
  }

  lemma EnabledBlock(done: seq<string>, s: Share)
    requires s.kind == Samba && s.enabled
    ensures (done + ["[" + s.name + "]"]) + SettingLines(Settings(s)) + [""] == done + SambaBlock(s)
  {
  }

  method WriteDisabled(buf: string, s: Share, readOnly: string, ghost done: seq<string>) returns (r: string)
    requires buf == Unlines(done) && readOnly == YesNo(s.readOnly)
    ensures r == Unlines(done + DisabledLines(s))
  {
    ghost var lines := done;
    r, lines := PutLine(buf, lines, "# [" + s.name + "] (disabled)");
    r, lines := PutLine(r, lines, "#    path = " + s.path);
    r, lines := PutLine(r, lines, "#    comment = " + s.comment);
    r, lines := PutLine(r, lines, "#    read only = " + readOnly);
    r, lines := PutLine(r, lines, "");
    assert lines == done + DisabledLines(s);
  }

  method WriteSambaHeader(confPath: string) returns (r: string)
    ensures r == Unlines(SambaHeader(confPath))
  {
    ghost var lines: seq<string> := [];
    r, lines := PutLine("", lines, Banner());
    r, lines := PutLine(r, lines, "# To activate: add  include = " + confPath + "  to /etc/samba/smb.conf");
    r, lines := PutLine(r, lines, "");
    assert lines == SambaHeader(confPath);
  }

  method WriteShare(buf: string, s: Share, ghost done: seq<string>) returns (r: string)
    requires buf == Unlines(done)
    ensures r == Unlines(done + SambaBlock(s))
  {
    if s.kind != Samba {
      assert done + [] == done;
      return buf;
    }
    var readOnly := "no";
    if s.readOnly {
      readOnly := "yes";
    }
    if !s.enabled {
      r := WriteDisabled(buf, s, readOnly, done);
    } else {
      r := WriteEnabled(buf, s, readOnly, done);
    }
  }

  method WriteSambaConf(confPath: string, shares: seq<Share>) returns (text: string)
    ensures text == SambaText(confPath, shares)
  {
    text := WriteSambaHeader(confPath);
    ghost var header := SambaHeader(confPath);
    assert header + SambaBlocks(shares[..0]) == header;
    for i := 0 to |shares|
      invariant text == Unlines(header + SambaBlocks(shares[..i]))
    {
      text := WriteShare(text, shares[i], header + SambaBlocks(shares[..i]));
      FlatMapSnoc(SambaBlock, shares, i);
      Regroup(header, SambaBlocks(shares[..i]), SambaBlock(shares[i]));
    }
    assert shares[..|shares|] == shares;
  }

  // ---- reading an INI file ----

  function IniStep(acc: seq<Section>, line: string): seq<Section> { IniTrimmed(acc, TrimSpace(line)) }

  function IniTrimmed(acc: seq<Section>, t: string): seq<Section> {
    if t == "" || t[0] == '#' || t[0] == ';' then acc
    else if t[0] == '[' && t[|t| - 1] == ']' && |t| >= 2 then acc + [Section(t[1..|t| - 1], [])]
    else
      var parts := Split(t, '=');
      if |parts| < 2 || acc == [] then acc
      else AddSettings(acc, [Setting(TrimSpace(parts[0]), TrimSpace(t[|parts[0]| + 1..]))])
  }

  /** Settings belong to the section that was opened last. */
  function AddSettings(acc: seq<Section>, xs: seq<Setting>): seq<Section>
    requires acc != []
  {
    var last := acc[|acc| - 1];
    acc[|acc| - 1 := last.(settings := last.settings + xs)]
  }

  function Lookup(settings: seq<Setting>, key: string): string {
    if settings == [] then "" else if settings[0].key == key then settings[0].value else Lookup(settings[1..], key)
  }

  /** The share that a section of a Samba configuration declares. */
  function DeclaredShare(x: Section): Share {
    var get := (key: string) => Lookup(x.settings, key);
    Share(x.name, Samba, get("path"), get("comment"), get("read only") == "yes", true,
          get("valid users"), get("write list"), get("create mask"), get("directory mask"), "")
  }

  function DeclaredShares(xs: seq<Section>): seq<Share> {
    seq(|xs|, i requires 0 <= i < |xs| => DeclaredShare(xs[i]))
  }

  /** What a Samba server sees in a configuration text. */
  function ReadSamba(text: string): seq<Share> { DeclaredShares(Fold(IniStep, [], Split(text, '\n'))) }

  function ActiveShare(s: Share): seq<Share> { if s.kind == Samba && s.enabled then [s.(hosts := "")] else [] }

  /** The enabled Samba shares in order, without the field that Samba ignores. */
  function ActiveSamba(shares: seq<Share>): seq<Share> { FlatMap(ActiveShare, shares) }

  /** Values survive an INI reader, which trims them. */
  predicate TrimmedFields(s: Share) {
    && Trimmed(s.path) && Trimmed(s.comment) && Trimmed(s.validUsers)
    && Trimmed(s.writeList) && Trimmed(s.createMask) && Trimmed(s.directoryMask)
  }

  ghost predicate SambaPrintable(s: Share) { s.kind == Samba ==> OneLine(s) && TrimmedFields(s) }

  function SectionOf(s: Share): seq<Section> {
    if s.kind == Samba && s.enabled then [Section(s.name, Settings(s))] else []
  }

  function Sections(shares: seq<Share>): seq<Section> { FlatMap(SectionOf, shares) }

  /** A line that starts with # declares nothing, whatever follows on it. */
  lemma CommentLine(acc: seq<Section>, line: string)
    requires line == "" || line[0] == '#'
    ensures IniStep(acc, line) == acc
  {
    if line != "" {
      TrimRightCons('#', line[1..]);
      assert line == ['#'] + line[1..];
    }
  }

  lemma {:induction false} CommentLines(acc: seq<Section>, lines: seq<string>)
    requires forall i :: 0 <= i < |lines| ==> lines[i] == "" || lines[i][0] == '#'
    ensures Fold(IniStep, acc, lines) == acc
  {
    if lines == [] {
    } else {
      CommentLine(acc, lines[0]);
      CommentLines(acc, lines[1..]);
    }
  }

  lemma SectionLine(acc: seq<Section>, name: string)
    ensures IniStep(acc, "[" + name + "]") == acc + [Section(name, [])]
  {
    var line := "[" + name + "]";
    TrimSpaceFixed(line);
    assert line[1..|line| - 1] == name;
  }

  /** The keys in use: plain words without '='. */
  ghost predicate PlainKey(key: string) {
    key != "" && Trimmed(key) && '=' !in key && key[0] !in "#;["
  }

  lemma SettingTrimmed(x: Setting)
    requires PlainKey(x.key) && Trimmed(x.value)
    ensures TrimSpace(SettingLine(x)) == x.key + " =" + (if x.value == "" then "" else " " + x.value)
  {
    var t := x.key + " =" + (if x.value == "" then "" else " " + x.value);
    assert Trimmed(t);
    TrimSpacePadded("    ", t);
    if x.value == "" {
      TrimSpaceBefore("    " + t, ' ');
      assert SettingLine(x) == "    " + t + [' '];
    } else {
      assert SettingLine(x) == "    " + t;
    }
  }

  lemma SettingRead(acc: seq<Section>, x: Setting)
    requires acc != [] && PlainKey(x.key) && Trimmed(x.value)
    ensures IniStep(acc, SettingLine(x)) == AddSettings(acc, [x])
  {
    var after := if x.value == "" then "" else [' '] + x.value;
    SettingTrimmed(x);
    assert x.key + " =" + after == x.key + [' '] + ['='] + after;
    PairRead(acc, x, x.key + [' '], after);
    TrimSpaceBefore(x.key, ' ');
    TrimSpaceFixed(x.key);
    TrimSpacePadded(if x.value == "" then "" else [' '], x.value);
  }

  lemma PairRead(acc: seq<Section>, x: Setting, before: string, after: string)
    requires acc != [] && PlainKey(x.key) && x.key <= before && '=' !in before
    ensures IniTrimmed(acc, before + ['='] + after) == AddSettings(acc, [Setting(TrimSpace(before), TrimSpace(after))])
  {
    var t := before + ['='] + after;
    SplitFirst(before, '=', after);
    assert t[|before| + 1..] == after;
    assert t[0] == x.key[0];
  }

  lemma AddInTurn(acc: seq<Section>, x: Setting, xs: seq<Setting>)
    requires acc != []
    ensures AddSettings(AddSettings(acc, [x]), xs) == AddSettings(acc, [x] + xs)
  {
    var settings := acc[|acc| - 1].settings;
    assert settings + [x] + xs == settings + ([x] + xs);
  }

  lemma {:induction false} SettingsRead(acc: seq<Section>, xs: seq<Setting>)
    requires acc != []
    requires AllPrintable(xs)
    ensures Fold(IniStep, acc, SettingLines(xs)) == AddSettings(acc, xs)
    decreases |xs|
  {
    if xs == [] {
      assert acc[|acc| - 1].settings + xs == acc[|acc| - 1].settings;
    } else {
      var lines := SettingLines(xs);
      assert lines[0] == SettingLine(xs[0]);
      SettingRead(acc, xs[0]);
      assert lines[1..] == SettingLines(xs[1..]);
      var next := AddSettings(acc, [xs[0]]);
      SettingsRead(next, xs[1..]);
      AddInTurn(acc, xs[0], xs[1..]);
      assert xs == [xs[0]] + xs[1..];
    }
  }

  ghost predicate LineKey(key: string) { PlainKey(key) && '\n' !in key }

  /** Each setting stays on its line and survives trimming. */
  ghost predicate AllPrintable(xs: seq<Setting>) {
    forall i :: 0 <= i < |xs| ==> LineKey(xs[i].key) && Trimmed(xs[i].value) && '\n' !in xs[i].value
  }

  lemma AllPrintableConcat(a: seq<Setting>, b: seq<Setting>)
    requires AllPrintable(a) && AllPrintable(b)
    ensures AllPrintable(a + b)
  {
  }

  lemma PathKey()
    ensures LineKey("path")
  {
  }

  lemma CommentKey()
    ensures LineKey("comment")
  {
  }

  lemma ReadOnlyKey()
    ensures LineKey("read only")
  {
  }

  lemma ValidUsersKey()
    ensures LineKey("valid users")
  {
  }

  lemma WriteListKey()
    ensures LineKey("write list")
  {
  }

  lemma CreateMaskKey()
    ensures LineKey("create mask")
  {
  }

  lemma DirectoryMaskKey()
    ensures LineKey("directory mask")
  {
  }

  lemma BrowsableKey()
    ensures LineKey("browsable")
  {
  }

  lemma OnePrintable(key: string, value: string)
    requires LineKey(key) && Trimmed(value) && '\n' !in value
    ensures AllPrintable([Setting(key, value)]) && AllPrintable(Optional(key, value))
  {
  }

  lemma FrontPrintable(s: Share)
    requires s.kind == Samba && SambaPrintable(s)
    ensures AllPrintable([Setting("path", s.path)] + Optional("comment", s.comment)
                         + [Setting("read only", YesNo(s.readOnly))])
  {
    PathKey();
    CommentKey();
    ReadOnlyKey();
    OnePrintable("path", s.path);
    OnePrintable("comment", s.comment);
    OnePrintable("read only", YesNo(s.readOnly));
    AllPrintableConcat([Setting("path", s.path)], Optional("comment", s.comment));
  }

  lemma UsersPrintable(s: Share)
    requires s.kind == Samba && SambaPrintable(s)
    ensures AllPrintable(Optional("valid users", s.validUsers)) && AllPrintable(Optional("write list", s.writeList))
  {
    ValidUsersKey();
    WriteListKey();
    OnePrintable("valid users", s.validUsers);
    OnePrintable("write list", s.writeList);
  }

  lemma MasksPrintable(s: Share)
    requires s.kind == Samba && SambaPrintable(s)
    ensures AllPrintable(Optional("create mask", s.createMask))
    ensures AllPrintable(Optional("directory mask", s.directoryMask)) && AllPrintable([Setting("browsable", "yes")])
  {
    CreateMaskKey();
    DirectoryMaskKey();
    BrowsableKey();
    OnePrintable("create mask", s.createMask);
    OnePrintable("directory mask", s.directoryMask);
    OnePrintable("browsable", "yes");
  }

  lemma SettingsPrintable(s: Share)
    requires s.kind == Samba && SambaPrintable(s)
    ensures AllPrintable(Settings(s))
  {
    FrontPrintable(s);
    UsersPrintable(s);
    MasksPrintable(s);
    var front := [Setting("path", s.path)] + Optional("comment", s.comment) + [Setting("read only", YesNo(s.readOnly))];
    var d, e := Optional("valid users", s.validUsers), Optional("write list", s.writeList);
    var f, g := Optional("create mask", s.createMask), Optional("directory mask", s.directoryMask);
    AllPrintableConcat(front, d);
    AllPrintableConcat(front + d, e);
    AllPrintableConcat(front + d + e, f);
    AllPrintableConcat(front + d + e + f, g);
    AllPrintableConcat(front + d + e + f + g, [Setting("browsable", "yes")]);
  }

  lemma BlockRead(acc: seq<Section>, s: Share)
    requires SambaPrintable(s)
    ensures Fold(IniStep, acc, SambaBlock(s)) == acc + SectionOf(s)
  {
    if s.kind == Samba {
      if s.enabled {
        EnabledBlockRead(acc, s);
      } else {
        CommentLines(acc, DisabledLines(s));
      }
    }
  }

  lemma EnabledBlockRead(acc: seq<Section>, s: Share)
    requires s.kind == Samba && s.enabled && SambaPrintable(s)
    ensures Fold(IniStep, acc, SambaBlock(s)) == acc + [Section(s.name, Settings(s))]
  {
    var head, body := ["[" + s.name + "]"], SettingLines(Settings(s));
    FoldConcat(IniStep, acc, head + body, [""]);
    FoldConcat(IniStep, acc, head, body);
    FoldOne(IniStep, acc, head[0]);
    SectionLine(acc, s.name);
    SettingsPrintable(s);
    SettingsRead(acc + [Section(s.name, [])], Settings(s));
    assert [] + Settings(s) == Settings(s);
    CommentLines(acc + [Section(s.name, Settings(s))], [""]);
  }

  lemma BlocksRead(shares: seq<Share>)
    requires forall s :: s in shares ==> SambaPrintable(s)
    ensures Fold(IniStep, [], SambaBlocks(shares)) == Sections(shares)
  {
    forall acc, s | s in shares ensures Fold(IniStep, acc, SambaBlock(s)) == acc + SectionOf(s) {
      BlockRead(acc, s);
    }
    FoldFlatMap(IniStep, SambaBlock, SectionOf, [], shares);
  }

  lemma BlocksOneLine(shares: seq<Share>)
    requires forall s :: s in shares ==> SambaPrintable(s)
    ensures forall line :: line in SambaBlocks(shares) ==> '\n' !in line
  {
    forall line | line in SambaBlocks(shares) ensures '\n' !in line {
      var s := FlatMapMember(SambaBlock, shares, line);
      BlockOneLine(s);
    }
  }

  lemma BlockOneLine(s: Share)
    requires SambaPrintable(s)
    ensures forall line :: line in SambaBlock(s) ==> '\n' !in line
  {
    if s.kind != Samba {
    } else if s.enabled {
      SettingsPrintable(s);
      SettingsOneLine(Settings(s));
    } else {
      DisabledOneLine(s);
    }
  }

  lemma SettingsOneLine(xs: seq<Setting>)
    requires AllPrintable(xs)
    ensures forall line :: line in SettingLines(xs) ==> '\n' !in line
  {
    forall i | 0 <= i < |xs| ensures '\n' !in SettingLine(xs[i]) {
      assert '\n' !in "    " && '\n' !in " = ";
    }
  }

  lemma DisabledOneLine(s: Share)
    requires s.kind == Samba && SambaPrintable(s)
    ensures forall line :: line in DisabledLines(s) ==> '\n' !in line
  {
  }

  lemma DeclaredSettings(s: Share)
    requires s.kind == Samba && s.enabled
    ensures DeclaredShare(Section(s.name, Settings(s))) == s.(hosts := "")
  {
    forall key: string ensures Lookup(Settings(s), key) == SettingOf(s, key) {
      SettingLookup(s, key);
    }
  }

  /** The value of a key; the empty text for keys that are not printed. */
  function SettingOf(s: Share, key: string): string {
    if key == "path" then s.path
    else if key == "comment" then s.comment
    else if key == "read only" then YesNo(s.readOnly)
    else if key == "valid users" then s.validUsers
    else if key == "write list" then s.writeList
    else if key == "create mask" then s.createMask
    else if key == "directory mask" then s.directoryMask
    else if key == "browsable" then "yes" else ""
  }

  lemma FirstFound(key: string, value: string, rest: seq<Setting>, wanted: string)
    ensures Lookup([Setting(key, value)] + rest, wanted) == if wanted == key then value else Lookup(rest, wanted)
    ensures Lookup(Optional(key, value) + rest, wanted) ==
            if wanted == key && value != "" then value else Lookup(rest, wanted)
  {
    assert ([Setting(key, value)] + rest)[1..] == rest;
    assert [] + rest == rest;
  }

  /** The settings from the masks on, from the users on, and all of them. */
  function MaskSettings(s: Share): seq<Setting> {
    Optional("create mask", s.createMask)
    + (Optional("directory mask", s.directoryMask) + [Setting("browsable", "yes")])
  }

  function UserSettings(s: Share): seq<Setting> {
    Optional("valid users", s.validUsers) + (Optional("write list", s.writeList) + MaskSettings(s))
  }

  lemma SettingsNested(s: Share)
    ensures Settings(s) ==
            [Setting("path", s.path)] + (Optional("comment", s.comment)
            + ([Setting("read only", YesNo(s.readOnly))] + UserSettings(s)))
  {
    var a := [Setting("path", s.path)];
    var b, c := Optional("comment", s.comment), [Setting("read only", YesNo(s.readOnly))];
    var d, e := Optional("valid users", s.validUsers), Optional("write list", s.writeList);
    var f, g := Optional("create mask", s.createMask), Optional("directory mask", s.directoryMask);
    var h := [Setting("browsable", "yes")];
    Regroup(a + b + c + d + e + f, g, h);
    Regroup(a + b + c + d + e, f, g + h);
    Regroup(a + b + c + d, e, f + (g + h));
    Regroup(a + b + c, d, e + (f + (g + h)));
    Regroup(a + b, c, d + (e + (f + (g + h))));
    Regroup(a, b, c + (d + (e + (f + (g + h)))));
  }

  lemma MaskLookup(s: Share, key: string)
    ensures Lookup(MaskSettings(s), key) ==
            if key == "create mask" then s.createMask
            else if key == "directory mask" then s.directoryMask
            else if key == "browsable" then "yes" else ""
  {
    var h := [Setting("browsable", "yes")];
    FirstFound("browsable", "yes", [], key);
    assert h + [] == h;
    FirstFound("directory mask", s.directoryMask, h, key);
    FirstFound("create mask", s.createMask, Optional("directory mask", s.directoryMask) + h, key);
  }

  lemma UserLookup(s: Share, key: string)
    ensures Lookup(UserSettings(s), key) ==
            if key == "valid users" then s.validUsers
            else if key == "write list" then s.writeList
            else Lookup(MaskSettings(s), key)
  {
    MaskLookup(s, key);
    FirstFound("write list", s.writeList, MaskSettings(s), key);
    FirstFound("valid users", s.validUsers, Optional("write list", s.writeList) + MaskSettings(s), key);
  }

  lemma SettingLookup(s: Share, key: string)
    ensures Lookup(Settings(s), key) == SettingOf(s, key)
  {
    var c := [Setting("read only", YesNo(s.readOnly))];
    SettingsNested(s);
    MaskLookup(s, key);
    UserLookup(s, key);
    FirstFound("read only", YesNo(s.readOnly), UserSettings(s), key);
    FirstFound("comment", s.comment, c + UserSettings(s), key);
    FirstFound("path", s.path, Optional("comment", s.comment) + (c + UserSettings(s)), key);
  }

  lemma {:induction false} DeclaredSections(shares: seq<Share>)
    ensures DeclaredShares(Sections(shares)) == ActiveSamba(shares)
  {
    if shares == [] {
    } else {
      var s, rest := shares[0], Sections(shares[1..]);
      DeclaredSections(shares[1..]);
      DeclaredConcat(SectionOf(s), rest);
      if s.kind == Samba && s.enabled {
        DeclaredSettings(s);
      }
      assert DeclaredShares(SectionOf(s)) == ActiveShare(s);
    }
  }

  lemma DeclaredConcat(a: seq<Section>, b: seq<Section>)
    ensures DeclaredShares(a + b) == DeclaredShares(a) + DeclaredShares(b)
  {
  }

  lemma HeaderOneLine(confPath: string)
    requires '\n' !in confPath
    ensures forall line :: line in SambaHeader(confPath) ==> '\n' !in line && (line == "" || line[0] == '#')
  {
    var first, second := Banner(), SambaHeader(confPath)[1];
    var a, b := "# To activate: add  include = ", "  to /etc/samba/smb.conf";
    BannerIsComment();
    assert '\n' !in a && '\n' !in b && a[0] == '#';
    assert second == a + confPath + b;
    assert SambaHeader(confPath) == [first, second, ""];
  }

  /** The Samba snippet parses back to exactly the enabled Samba shares, in order. */
  lemma SambaParsesBack(confPath: string, shares: seq<Share>)
    requires '\n' !in confPath
    requires forall s :: s in shares ==> SambaPrintable(s)
    ensures ReadSamba(SambaText(confPath, shares)) == ActiveSamba(shares)
  {
    LinesOneLine(confPath, shares);
    SplitUnlines(SambaHeader(confPath) + SambaBlocks(shares));
    LinesRead(SambaHeader(confPath), SambaBlocks(shares), Sections(shares));
    DeclaredSections(shares);
  }

  lemma LinesOneLine(confPath: string, shares: seq<Share>)
    requires '\n' !in confPath
    requires forall s :: s in shares ==> SambaPrintable(s)
    ensures forall line :: line in SambaHeader(confPath) + SambaBlocks(shares) ==> '\n' !in line
    ensures forall line :: line in SambaHeader(confPath) ==> line == "" || line[0] == '#'
    ensures Fold(IniStep, [], SambaBlocks(shares)) == Sections(shares)
  {
    BlocksOneLine(shares);
    HeaderOneLine(confPath);
    BlocksRead(shares);
  }

  lemma LinesRead(header: seq<string>, blocks: seq<string>, sections: seq<Section>)
    requires forall line :: line in header ==> line == "" || line[0] == '#'
    requires Fold(IniStep, [], blocks) == sections
    ensures Fold(IniStep, [], header + blocks + [""]) == sections
  {
    FoldConcat(IniStep, [], header + blocks, [""]);
    FoldConcat(IniStep, [], header, blocks);
    CommentLines([], header);
    CommentLines(sections, [""]);
  }

  // ---- what is shared ----

  /** The whole file, for one share: only an enabled Samba share is declared, and it can be browsed. */
  lemma OneShare(confPath: string, s: Share)
    requires '\n' !in confPath && SambaPrintable(s)
    ensures ReadSamba(SambaText(confPath, [s])) == if s.kind == Samba && s.enabled then [s.(hosts := "")] else []
    ensures s.kind == Samba && s.enabled ==>
              var sections := Fold(IniStep, [], Split(SambaText(confPath, [s]), '\n'));
              |sections| == 1 && sections[0].name == s.name && Lookup(sections[0].settings, "browsable") == "yes"
  {
    SambaParsesBack(confPath, [s]);
    FlatMapOne(ActiveShare, s);
    LinesOneLine(confPath, [s]);
    SplitUnlines(SambaHeader(confPath) + SambaBlocks([s]));
    LinesRead(SambaHeader(confPath), SambaBlocks([s]), Sections([s]));
    FlatMapOne(SectionOf, s);
    SettingLookup(s, "browsable");
  }

  /** And for several: what each of them declares, in order. */
  lemma SharesInTurn(confPath: string, a: seq<Share>, b: seq<Share>)
    requires '\n' !in confPath && forall s :: s in a + b ==> SambaPrintable(s)
    ensures ReadSamba(SambaText(confPath, a + b)) ==
            ReadSamba(SambaText(confPath, a)) + ReadSamba(SambaText(confPath, b))
  {
    assert forall s :: s in a || s in b ==> s in a + b;
    SambaParsesBack(confPath, a);
    SambaParsesBack(confPath, b);
    SambaParsesBack(confPath, a + b);
    FlatMapConcat(ActiveShare, a, b);
  }

  /** The name in a line such as "# [name] (disabled)". */
  function DisabledName(line: string): Option<string> {
    var front, back := "# [", "] (disabled)";
    if HasPrefix(line, front) && HasSuffix(line, back) && |line| >= |front| + |back|
    then Some(line[|front|..|line| - |back|])
    else None
  }

  /** The block of a disabled share keeps its name, and its settings behind the comment signs. */
  lemma DisabledKept(s: Share)
    requires s.kind == Samba && !s.enabled && SambaPrintable(s)
    ensures var lines := SambaBlock(s);
            && |lines| == 5 && DisabledName(lines[0]) == Some(s.name) && lines[4] == ""
            && (forall i :: 0 < i < 4 ==> lines[i] != "" && lines[i][0] == '#')
            && Fold(IniStep, [Section(s.name, [])], [lines[1][1..], lines[2][1..], lines[3][1..]]) ==
               [Section(s.name, [Setting("path", s.path), Setting("comment", s.comment),
                                 Setting("read only", if s.readOnly then "yes" else "no")])]
  {
    DisabledNamed(s.name);
    FrontPrintable(s);
    var xs := [Setting("path", s.path), Setting("comment", s.comment), Setting("read only", YesNo(s.readOnly))];
    PathKey();
    CommentKey();
    ReadOnlyKey();
    SettingsRead([Section(s.name, [])], xs);
    assert [] + xs == xs;
    DisabledSettings(s);
    var lines := DisabledLines(s);
    assert SettingLines(xs) == [lines[1][1..], lines[2][1..], lines[3][1..]];
  }

  lemma DisabledSettings(s: Share)
    ensures var lines := DisabledLines(s);
            && (forall i :: 0 < i < 4 ==> lines[i] != "" && lines[i][0] == '#')
            && lines[1][1..] == SettingLine(Setting("path", s.path))
            && lines[2][1..] == SettingLine(Setting("comment", s.comment))
            && lines[3][1..] == SettingLine(Setting("read only", YesNo(s.readOnly)))
  {
    CommentedLine("path", s.path, "#    path = ");
    CommentedLine("comment", s.comment, "#    comment = ");
    CommentedLine("read only", YesNo(s.readOnly), "#    read only = ");
  }

  lemma DisabledNamed(name: string)
    ensures DisabledName("# [" + name + "] (disabled)") == Some(name)
  {
    var front, back := "# [", "] (disabled)";
    var line := front + name + back;
    assert line[..|front|] == front;
    assert line[|line| - |back|..] == back;
  }

  lemma CommentedLine(key: string, value: string, front: string)
    requires front == "#    " + key + " = "
    ensures front + value != "" && (front + value)[0] == '#'
    ensures (front + value)[1..] == SettingLine(Setting(key, value))
  {
    assert "#    "[1..] == "    ";
    assert front[1..] == "    " + key + " = ";
    assert (front + value)[1..] == front[1..] + value;
  }
}
