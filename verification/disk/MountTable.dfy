/** The kernel's mount table as text, and its parser (internal/service/disk/mount.go). */
module MountTable {
  import opened Wrappers
  import opened Text
  import opened Seqs

  datatype Mount = Mount(device: string, mountPoint: string, fsType: string, options: string)

  function ParsedLine(text: string): seq<Mount> {
    var line := TrimSpace(text);
    if line == "" || HasPrefix(line, "#") then []
    else
      var fields := White.Fields(line);
      if |fields| < 4 then [] else [Mount(fields[0], fields[1], fields[2], fields[3])]
  }

  /** The scanner's buffer, 1 MiB. */
  const MAX_LINE: nat := 0x10_0000

  function Parsed(text: string): Result<seq<Mount>> {
    var scanned := Scan(text, MAX_LINE);
    if scanned.tooLong then Err(Internal) else Ok(FlatMap(ParsedLine, scanned.lines))
  }

  method ParseMounts(text: string) returns (r: Result<seq<Mount>>)
    ensures r == Parsed(text)
  {
    var scanned := Scan(text, MAX_LINE);
    var lines := scanned.lines;
    var mounts: seq<Mount> := [];
    for i := 0 to |lines|
      invariant mounts == FlatMap(ParsedLine, lines[..i])
    {
      FlatMapSnoc(ParsedLine, lines, i);
      var line := TrimSpace(lines[i]);
      if line == "" || HasPrefix(line, "#") {
        continue;
      }
      var fields := White.Fields(line);
      if |fields| < 4 {
        continue;
      }
      mounts := mounts + [Mount(fields[0], fields[1], fields[2], fields[3])];
    }
    assert lines[..|lines|] == lines;
    return if scanned.tooLong then Err(Internal) else Ok(mounts);
  }

  // ---- /proc/mounts ----

  /** The characters that the kernel prints as a backslash and three octal digits. */
  predicate Special(c: char) { c == ' ' || c == '\t' || c == '\n' || c == '\\' || c == '#' }

  function EscapeChar(c: char): string {
    if c == ' ' then "\\040"
    else if c == '\t' then "\\011"
    else if c == '\n' then "\\012"
    else if c == '\\' then "\\134"
    else if c == '#' then "\\043"
    else [c]
  }

  function Escape(s: string): string { FlatMap(EscapeChar, s) }

  predicate Plain(s: string) { forall i :: 0 <= i < |s| ==> !Special(s[i]) }

  lemma {:induction false} EscapeClean(s: string)
    ensures forall c :: c in Escape(s) ==> c == '\\' || !Special(c)
    ensures '\\' !in Escape(s) ==> Plain(s)
    ensures |Escape(s)| >= |s| && (|Escape(s)| == |s| ==> Plain(s))
  {
    if s == "" {
    } else {
      EscapeClean(s[1..]);
    }
  }

  lemma {:induction false} EscapePlain(s: string)
    requires Plain(s)
    ensures Escape(s) == s
  {
    if s == "" {
    } else {
      EscapePlain(s[1..]);
    }
  }

  /** Escaping changes exactly the texts with a special character. */
  lemma EscapeFixedIff(s: string)
    ensures Escape(s) == s <==> Plain(s)
  {
    if Plain(s) { EscapePlain(s); } else { EscapeClean(s); }
  }

  function MountFields(m: Mount): seq<string> {
    [Escape(m.device), Escape(m.mountPoint), Escape(m.fsType), m.options, "0", "0"]
  }

  function MountLine(m: Mount): seq<string> { [Join(MountFields(m), " ")] }

  function ProcMounts(table: seq<Mount>): string { Unlines(FlatMap(MountLine, table)) }

  /** The fields that the kernel fills in have no white space but what it escapes. The mountpoint is arbitrary. */
  ghost predicate Recordable(m: Mount) {
    White.Token(Escape(m.device)) && White.Token(Escape(m.fsType)) && White.Token(m.options)
  }

  /** The words of a printed mount. */
  function Words(m: Mount): (words: seq<string>)
    ensures |words| >= 5
  {
    [Escape(m.device)] + White.Fields(Escape(m.mountPoint)) + [Escape(m.fsType), m.options, "0", "0"]
  }

  /** What the parser makes of a mount. */
  function Seen(m: Mount): Mount {
    var words := Words(m);
    Mount(words[0], words[1], words[2], words[3])
  }

  /** A mountpoint is one word of the printed line. */
  predicate Ordinary(m: Mount) { White.Token(Escape(m.mountPoint)) }

  lemma SeenOrdinary(m: Mount)
    requires Ordinary(m)
    ensures Seen(m) == Mount(Escape(m.device), Escape(m.mountPoint), Escape(m.fsType), m.options)
  {
    White.FieldsOne(Escape(m.mountPoint));
  }

  lemma JoinSix(a: string, b: string, c: string, d: string, e: string, f: string)
    ensures Join([a, b, c, d, e, f], " ") == a + [' '] + (b + [' '] + Join([c, d, e, f], " "))
  {
    assert [a, b, c, d, e, f][1..] == [b, c, d, e, f];
    assert [b, c, d, e, f][1..] == [c, d, e, f];
  }

  lemma LineWords(m: Mount)
    requires Recordable(m)
    ensures White.Fields(Join(MountFields(m), " ")) == Words(m)
  {
    var tail := [Escape(m.fsType), m.options, "0", "0"];
    JoinSix(Escape(m.device), Escape(m.mountPoint), Escape(m.fsType), m.options, "0", "0");
    White.FieldsJoin(tail, ' ');
    White.FieldsAcross(Escape(m.mountPoint), ' ', Join(tail, " "));
    White.FieldsAcross(Escape(m.device), ' ', Escape(m.mountPoint) + [' '] + Join(tail, " "));
    White.FieldsOne(Escape(m.device));
    Regroup([Escape(m.device)], White.Fields(Escape(m.mountPoint)), tail);
  }

  lemma LineParses(m: Mount)
    requires Recordable(m)
    ensures ParsedLine(Join(MountFields(m), " ")) == [Seen(m)]
  {
    var line := Join(MountFields(m), " ");
    LineWords(m);
    FieldsTrim(line);
    LineStarts(m);
    EscapeClean(m.device);
    assert Escape(m.device)[0] in Escape(m.device);
  }

  lemma LineStarts(m: Mount)
    requires Recordable(m)
    ensures var line := TrimSpace(Join(MountFields(m), " "));
            line != "" && line[0] == Escape(m.device)[0]
  {
    var rest := Join(MountFields(m)[1..], " ");
    var line := Join(MountFields(m), " ");
    assert line == Escape(m.device) + " " + rest;
    EndsInZero(m);
    TrimSpaceFixed(line);
  }

  lemma EndsInZero(m: Mount)
    ensures var line := Join(MountFields(m), " ");
            line != "" && line[|line| - 1] == '0'
  {
    var fs := MountFields(m);
    JoinSix(fs[0], fs[1], fs[2], fs[3], "0", "0");
    JoinFour(fs[2], fs[3]);
  }

  lemma JoinFour(a: string, b: string)
    ensures Join([a, b, "0", "0"], " ") == a + " " + (b + " " + "0 0")
  {
    assert [a, b, "0", "0"][1..] == [b, "0", "0"];
    assert [b, "0", "0"][1..] == ["0", "0"] && ["0", "0"][1..] == ["0"];
    assert Join(["0", "0"], " ") == "0" + " " + "0" == "0 0";
    assert Join([b, "0", "0"], " ") == b + " " + "0 0";
  }

  lemma LineFree(m: Mount)
    requires Recordable(m)
    ensures '\n' !in Join(MountFields(m), " ")
  {
    var fs := MountFields(m);
    JoinSix(fs[0], fs[1], fs[2], fs[3], "0", "0");
    JoinFour(fs[2], fs[3]);
    EscapeClean(m.device);
    EscapeClean(m.mountPoint);
    EscapeClean(m.fsType);
    assert IsSpace('\n') && '\n' !in m.options;
    assert '\n' !in "0 0" && '\n' !in " ";
  }

  /** Every line of the table fits the scanner's buffer. */
  ghost predicate Fits(table: seq<Mount>) { forall m :: m in table ==> ByteLen(Join(MountFields(m), " ")) < MAX_LINE }

  lemma PrintedLines(table: seq<Mount>)
    requires forall m :: m in table ==> Recordable(m)
    ensures Scan(ProcMounts(table), MAX_LINE) == Fitting(FlatMap(MountLine, table), MAX_LINE)
  {
    var lines := FlatMap(MountLine, table);
    forall line | line in lines
      ensures '\n' !in line && line != "" && line[|line| - 1] != '\r'
    {
      var m := FlatMapMember(MountLine, table, line);
      LineFree(m);
      EndsInZero(m);
    }
    ScanUnlines(lines, MAX_LINE);
  }

  lemma {:induction false} LinesOf(table: seq<Mount>)
    ensures forall m :: m in table ==> Join(MountFields(m), " ") in FlatMap(MountLine, table)
  {
    if table == [] {
    } else {
      LinesOf(table[1..]);
      assert FlatMap(MountLine, table) == [Join(MountFields(table[0]), " ")] + FlatMap(MountLine, table[1..]);
    }
  }

  /** The scanner stops early exactly when a line of the table does not fit. */
  lemma FitsIff(table: seq<Mount>)
    ensures Fitting(FlatMap(MountLine, table), MAX_LINE).tooLong <==> !Fits(table)
  {
    var lines := FlatMap(MountLine, table);
    FittingAll(lines, MAX_LINE);
    LinesOf(table);
    if line :| line in lines && ByteLen(line) >= MAX_LINE {
      var m := FlatMapMember(MountLine, table, line);
      assert ByteLen(Join(MountFields(m), " ")) >= MAX_LINE;
    }
  }

  function SeenOne(m: Mount): seq<Mount> { [Seen(m)] }

  /** Parsing the printed table gives one mount per mount, with escaped fields, or an error when a line is too long. */
  lemma ParseInvertsPrint(table: seq<Mount>)
    requires forall m :: m in table ==> Recordable(m)
    ensures Parsed(ProcMounts(table)) == if Fits(table) then Ok(FlatMap(SeenOne, table)) else Err(Internal)
  {
    PrintedLines(table);
    FitsIff(table);
    FittingAll(FlatMap(MountLine, table), MAX_LINE);
    forall m | m in table ensures FlatMap(ParsedLine, MountLine(m)) == SeenOne(m) {
      LineParses(m);
      FlatMapOne(ParsedLine, Join(MountFields(m), " "));
    }
    FlatMapFlatMap(ParsedLine, MountLine, SeenOne, table);
  }

  // ---- searching the table ----

  /** One word without special characters. */
  predicate Simple(mountPoint: string) { Plain(mountPoint) && White.Token(mountPoint) }

  ghost predicate RecordableTable(table: seq<Mount>) { forall m :: m in table ==> Recordable(m) }

  predicate Mounted(table: seq<Mount>, mountPoint: string) { exists m :: m in table && m.mountPoint == mountPoint }

  /** What the search for a mountpoint in the parsed table finds. */
  ghost predicate Listed(table: seq<Mount>, mountPoint: string) {
    exists m :: m in table && Seen(m).mountPoint == mountPoint
  }

  lemma {:induction false} ListedSeen(table: seq<Mount>, mountPoint: string)
    ensures Mounted(FlatMap(SeenOne, table), mountPoint) <==> Listed(table, mountPoint)
  {
    if table == [] {
    } else {
      var seen, rest := FlatMap(SeenOne, table), FlatMap(SeenOne, table[1..]);
      ListedSeen(table[1..], mountPoint);
      assert seen == [Seen(table[0])] + rest;
      assert forall x :: x in seen <==> x == Seen(table[0]) || x in rest;
      assert forall m :: m in table <==> m == table[0] || m in table[1..];
    }
  }

  /** Whatever is listed is one word. */
  lemma SeenToken(m: Mount)
    requires Recordable(m)
    ensures White.Token(Seen(m).mountPoint)
    ensures White.Token(m.mountPoint) ==> Seen(m).mountPoint == Escape(m.mountPoint)
  {
    if White.Token(m.mountPoint) {
      EscapeToken(m.mountPoint);
      SeenOrdinary(m);
    }
    assert Words(m)[1] == if White.Fields(Escape(m.mountPoint)) == [] then Escape(m.fsType)
                          else White.Fields(Escape(m.mountPoint))[0];
  }

  /** The parser shows a mountpoint as it is exactly when it is simple. */
  lemma SeenIff(m: Mount)
    requires Recordable(m)
    ensures Seen(m).mountPoint == m.mountPoint <==> Simple(m.mountPoint)
  {
    SeenToken(m);
    EscapeFixedIff(m.mountPoint);
  }

  /** A simple mountpoint is found when it is mounted. */
  lemma MountedIsListed(table: seq<Mount>, mountPoint: string)
    requires RecordableTable(table) && Simple(mountPoint) && Mounted(table, mountPoint)
    ensures Listed(table, mountPoint)
  {
    var m :| m in table && m.mountPoint == mountPoint;
    SeenIff(m);
  }

  /** The search is right about every mountpoint exactly when every mountpoint in the table is simple. */
  lemma ListedIff(table: seq<Mount>)
    requires RecordableTable(table)
    ensures (forall q :: Listed(table, q) <==> Mounted(table, q)) <==> (forall m :: m in table ==> Simple(m.mountPoint))
  {
    if forall m :: m in table ==> Simple(m.mountPoint) {
      forall m | m in table ensures Seen(m).mountPoint == m.mountPoint {
        SeenIff(m);
      }
    } else {
      var q := Mistaken(table);
      assert Listed(table, q) != Mounted(table, q);
    }
  }

  /** A mountpoint about which the search is wrong: one that is no single word, or the escape of the longest one
      with a special character. */
  lemma Mistaken(table: seq<Mount>) returns (q: string)
    requires RecordableTable(table) && exists m :: m in table && !Simple(m.mountPoint)
    ensures Listed(table, q) != Mounted(table, q)
  {
    if m :| m in table && !White.Token(m.mountPoint) {
      q := m.mountPoint;
      forall x | x in table ensures Seen(x).mountPoint != q {
        SeenToken(x);
      }
    } else {
      var m := LongestSpecial(table);
      q := Escape(m.mountPoint);
      SeenToken(m);
      EscapeClean(m.mountPoint);
      assert Listed(table, q);
      assert '\\' in q;
      var i :| 0 <= i < |q| && q[i] == '\\';
      assert Special(q[i]) && !Plain(q);
    }
  }

  lemma {:induction false} LongestSpecial(table: seq<Mount>) returns (m: Mount)
    requires exists x :: x in table && !Plain(x.mountPoint)
    ensures m in table && !Plain(m.mountPoint)
    ensures forall x :: x in table && !Plain(x.mountPoint) ==> |x.mountPoint| <= |m.mountPoint|
  {
    if exists x :: x in table[1..] && !Plain(x.mountPoint) {
      m := LongestSpecial(table[1..]);
      if !Plain(table[0].mountPoint) && |table[0].mountPoint| > |m.mountPoint| {
        m := table[0];
      }
    } else {
      m := table[0];
    }
    assert forall x :: x in table <==> x == table[0] || x in table[1..];
  }

  lemma {:induction false} EscapeToken(s: string)
    requires White.Free(s)
    ensures White.Free(Escape(s)) && (s != "" ==> Escape(s) != "")
  {
    if s == "" {
    } else {
      EscapeToken(s[1..]);
    }
  }

  /** A mount whose mountpoint is not simple is in a table and not found. */
  lemma NeverListed(mountPoint: string) returns (table: seq<Mount>)
    requires !Simple(mountPoint)
    ensures RecordableTable(table) && Mounted(table, mountPoint) && !Listed(table, mountPoint)
  {
    var m := SomeMount(mountPoint);
    SeenIff(m);
    table := [m];
    assert m in table && forall x :: x in table ==> x == m;
  }

  /** The front of a mountpoint with other white space is found, though nothing is mounted there. */
  lemma FalselyListed(front: string, c: char, back: string) returns (table: seq<Mount>)
    requires Simple(front) && IsSpace(c) && !Special(c)
    ensures RecordableTable(table) && Mounted(table, front + [c] + back)
    ensures Listed(table, front) && !Mounted(table, front)
  {
    var m := SomeMount(front + [c] + back);
    FrontShown(front, c, back);
    ShownFirst(m);
    table := [m];
    assert m in table && forall x :: x in table ==> x == m;
    assert |front + [c] + back| > |front|;
  }

  lemma ShownFirst(m: Mount)
    requires White.Fields(Escape(m.mountPoint)) != []
    ensures Seen(m).mountPoint == White.Fields(Escape(m.mountPoint))[0]
  {
  }

  lemma FrontShown(front: string, c: char, back: string)
    requires Simple(front) && IsSpace(c) && !Special(c)
    ensures var words := White.Fields(Escape(front + [c] + back));
            words != [] && words[0] == front
  {
    FlatMapConcat(EscapeChar, front, [c] + back);
    EscapePlain(front);
    assert front + [c] + back == front + ([c] + back);
    assert ([c] + back)[1..] == back;
    White.FieldsToken(front, [c] + Escape(back));
  }

  lemma SomeMount(mountPoint: string) returns (m: Mount)
    ensures Recordable(m) && m.mountPoint == mountPoint
  {
    EscapePlain("d");
    EscapePlain("t");
    m := Mount("d", mountPoint, "t", "o");
  }
}
