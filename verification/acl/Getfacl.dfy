/** parseGetfaclOutput of internal/service/acl, and the lines that the CLI prints for its entries. */
module Getfacl {
  import opened Wrappers
  import opened Text
  import opened Seqs

  datatype Permission = Permission(kind: string, qualifier: string, perms: string)

  predicate StandardKind(kind: string) { kind in {"user", "group", "mask", "other"} }

  /** The text before the first blank, tab or comment sign. */
  function BeforeComment(s: string): string {
    if s == "" || s[0] in {' ', '\t', '#'} then "" else [s[0]] + BeforeComment(s[1..])
  }

  /** strings.SplitN(line, ":", 3), when it has three pieces. */
  function Columns(line: string): Option<(string, string, string)> {
    var parts := Split(line, ':');
    if |parts| < 3 then None else Some((parts[0], parts[1], Join(parts[2..], ":")))
  }

  /** A line without its "default:" prefix. */
  function WithoutDefault(line: string): string {
    if HasPrefix(line, "default:") then TrimSpace(line[|"default:"|..]) else line
  }

  function ParsedEntry(text: string): seq<Permission> {
    var trimmed := TrimSpace(text);
    if trimmed == "" || HasPrefix(trimmed, "#") then []
    else
      match Columns(WithoutDefault(trimmed))
      case None => []
      case Some((a, b, c)) =>
        var kind, perms := TrimSpace(a), TrimSpace(BeforeComment(TrimSpace(c)));
        if StandardKind(kind) && ByteLen(perms) == 3 then [Permission(kind, TrimSpace(b), perms)] else []
  }

  /** The scanner's default buffer. */
  const MAX_LINE: nat := 0x1_0000

  /** A line that does not fit ends the loop without an error. */
  method ParseGetfaclOutput(out: string) returns (entries: seq<Permission>)
    ensures entries == FlatMap(ParsedEntry, Scan(out, MAX_LINE).lines)
  {
    var lines := Scan(out, MAX_LINE).lines;
    entries := [];
    for i := 0 to |lines|
      invariant entries == FlatMap(ParsedEntry, lines[..i])
    {
      FlatMapSnoc(ParsedEntry, lines, i);
      var line := TrimSpace(lines[i]);
      if line == "" || HasPrefix(line, "#") {
        continue;
      }
      line := WithoutDefault(line);
      var columns := Columns(line);
      if columns.None? {
        continue;
      }
      var (a, b, c) := columns.value;
      var kind, qualifier := TrimSpace(a), TrimSpace(b);
      var perms := TrimSpace(BeforeComment(TrimSpace(c)));
      if !StandardKind(kind) {
        continue;
      }
      if ByteLen(perms) != 3 {
        continue;
      }
      entries := entries + [Permission(kind, qualifier, perms)];
    }
    assert lines[..|lines|] == lines;
  }

  // ---- what the CLI prints ----

  function PrintedEntry(p: Permission): seq<string> {
    [if p.qualifier != "" then "  " + p.kind + ":" + p.qualifier + ":" + p.perms else "  " + p.kind + "::" + p.perms]
  }

  function Printed(entries: seq<Permission>): string { Unlines(FlatMap(PrintedEntry, entries)) }

  /** Fields that stay within their columns. */
  ghost predicate Plain(p: Permission) {
    && (p.kind == "user" || p.kind == "group" || p.kind == "mask" || p.kind == "other")
    && Trimmed(p.qualifier) && ':' !in p.qualifier && '\n' !in p.qualifier
    && ByteLen(p.perms) == 3 && NoSpace(p.perms) && '#' !in p.perms
  }

  lemma {:induction false} BeforeCommentAll(s: string)
    requires NoSpace(s) && '#' !in s
    ensures BeforeComment(s) == s
  {
    if s == "" {
    } else {
      BeforeCommentAll(s[1..]);
    }
  }

  lemma KindsPlain(kind: string)
    requires StandardKind(kind)
    ensures kind != "" && Trimmed(kind) && ':' !in kind && '\n' !in kind && kind[0] != '#'
    ensures !HasPrefix(kind, "d")
  {
  }

  /** The printed line without its indentation. */
  function Core(p: Permission): string { p.kind + ":" + p.qualifier + ":" + p.perms }

  lemma CoreSplit(p: Permission)
    requires ':' !in p.kind && ':' !in p.qualifier
    ensures Split(Core(p), ':') == [p.kind] + ([p.qualifier] + Split(p.perms, ':'))
  {
    var tail := p.qualifier + [':'] + p.perms;
    SplitFirst(p.kind, ':', tail);
    SplitFirst(p.qualifier, ':', p.perms);
    assert Core(p) == p.kind + [':'] + tail;
  }

  lemma CoreColumns(p: Permission)
    requires ':' !in p.kind && ':' !in p.qualifier
    ensures Columns(Core(p)) == Some((p.kind, p.qualifier, p.perms))
  {
    var rest := Split(p.perms, ':');
    CoreSplit(p);
    assert ([p.kind] + ([p.qualifier] + rest))[2..] == rest;
    JoinSplit(p.perms, ':');
  }

  lemma {:induction false} JoinSplit(s: string, c: char)
    ensures Join(Split(s, c), [c]) == s
  {
    if s == "" {
    } else {
      JoinSplit(s[1..], c);
      var rest := Split(s[1..], c);
      assert s == [s[0]] + s[1..];
      if s[0] == c {
        assert ([""] + rest)[1..] == rest;
      } else {
        var r := WithFirst(s[0], c, rest);
        assert r[1..] == rest[1..];
        if |rest| > 1 {
          assert [s[0]] + rest[0] + [c] + Join(rest[1..], [c]) == [s[0]] + (rest[0] + [c] + Join(rest[1..], [c]));
        }
      }
    }
  }

  lemma CoreShape(p: Permission)
    requires Plain(p)
    ensures PrintedEntry(p) == ["  " + Core(p)]
    ensures TrimSpace("  " + Core(p)) == Core(p)
    ensures Core(p) != "" && Core(p)[0] == p.kind[0] && '\n' !in Core(p)
    ensures Core(p)[|Core(p)| - 1] != '\r'
  {
    KindsPlain(p.kind);
    var last := p.perms[|p.perms| - 1];
    assert !IsSpace(last);
    assert Core(p)[|Core(p)| - 1] == last;
    assert Trimmed(Core(p));
    TrimSpacePadded("  ", Core(p));
    assert IsSpace('\n') && IsSpace('\r');
    if p.qualifier == "" {
      assert p.kind + ":" + "" + ":" + p.perms == p.kind + "::" + p.perms;
      assert "  " + p.kind + "::" + p.perms == "  " + (p.kind + "::" + p.perms);
    } else {
      assert "  " + p.kind + ":" + p.qualifier + ":" + p.perms == "  " + Core(p);
    }
  }

  /** A line that trims to columns of an entry is that entry. */
  lemma ParsesAs(text: string, p: Permission, core: string, perms: string)
    requires Plain(p) && TrimSpace(text) == core && core != "" && core[0] == p.kind[0]
    requires Columns(core) == Some((p.kind, p.qualifier, perms))
    requires TrimSpace(BeforeComment(TrimSpace(perms))) == p.perms
    ensures ParsedEntry(text) == [p]
  {
    KindsPlain(p.kind);
    assert !HasPrefix(core, "default:") by { assert "default:"[0] == 'd'; }
    TrimSpaceFixed(p.kind);
    TrimSpaceFixed(p.qualifier);
  }

  lemma EntryParses(p: Permission)
    requires Plain(p)
    ensures ParsedEntry("  " + Core(p)) == [p]
  {
    KindsPlain(p.kind);
    CoreShape(p);
    CoreColumns(p);
    TrimSpaceFixed(p.perms);
    BeforeCommentAll(p.perms);
    ParsesAs("  " + Core(p), p, Core(p), p.perms);
  }

  /** The entries before the first one whose line does not fit. */
  function Kept(entries: seq<Permission>): (kept: seq<Permission>)
    ensures forall p :: p in kept ==> p in entries
  {
    if entries == [] || ByteLen("  " + Core(entries[0])) >= MAX_LINE then []
    else [entries[0]] + Kept(entries[1..])
  }

  lemma {:induction false} KeptFits(entries: seq<Permission>)
    requires forall p :: p in entries ==> Plain(p)
    ensures Fitting(FlatMap(PrintedEntry, entries), MAX_LINE).lines == FlatMap(PrintedEntry, Kept(entries))
  {
    if entries == [] {
    } else {
      var lines, rest := FlatMap(PrintedEntry, entries), entries[1..];
      KeptFits(rest);
      CoreShape(entries[0]);
      assert lines == ["  " + Core(entries[0])] + FlatMap(PrintedEntry, rest);
      assert lines[1..] == FlatMap(PrintedEntry, rest);
      assert ([entries[0]] + Kept(rest))[1..] == Kept(rest);
    }
  }

  /** Parsing the printed entries gives the entries, up to one whose line does not fit. */
  lemma ParseInvertsPrint(entries: seq<Permission>)
    requires forall p :: p in entries ==> Plain(p)
    ensures FlatMap(ParsedEntry, Scan(Printed(entries), MAX_LINE).lines) == Kept(entries)
  {
    PrintedLines(entries);
    KeptFits(entries);
    ScanUnlines(FlatMap(PrintedEntry, entries), MAX_LINE);
    var single := (p: Permission) => [p];
    forall p | p in Kept(entries) ensures FlatMap(ParsedEntry, PrintedEntry(p)) == single(p) {
      CoreShape(p);
      EntryParses(p);
      FlatMapOne(ParsedEntry, "  " + Core(p));
    }
    FlatMapFlatMap(ParsedEntry, PrintedEntry, single, Kept(entries));
    FlatMapSingle(single, Kept(entries));
  }

  lemma PrintedLines(entries: seq<Permission>)
    requires forall p :: p in entries ==> Plain(p)
    ensures forall line :: line in FlatMap(PrintedEntry, entries) ==>
              '\n' !in line && line != "" && line[|line| - 1] != '\r'
  {
    forall line | line in FlatMap(PrintedEntry, entries)
      ensures '\n' !in line && line != "" && line[|line| - 1] != '\r'
    {
      var p := FlatMapMember(PrintedEntry, entries, line);
      CoreShape(p);
      assert '\n' !in "  ";
    }
  }

  /** Blank lines and comments are no entries. */
  lemma CommentsSkipped(text: string)
    ensures Blank(text) || HasPrefix(TrimSpace(text), "#") ==> ParsedEntry(text) == []
  {
    BlankIff(text);
  }

  /** Only the four kinds are entries. */
  lemma OtherKinds(text: string)
    ensures forall p :: p in ParsedEntry(text) ==>
              p.kind == "user" || p.kind == "group" || p.kind == "mask" || p.kind == "other"
    ensures forall p :: p in ParsedEntry(text) ==> ByteLen(p.perms) == 3
    ensures |ParsedEntry(text)| <= 1
  {
  }

  /** An inline comment after the permissions is ignored. */
  lemma InlineComment(p: Permission, comment: string)
    requires Plain(p) && !Blank(comment)
    ensures ParsedEntry(Core(p) + "\t#" + comment) == [p]
  {
    var tail := TrimRight(comment);
    var q := p.(perms := p.perms + "\t#" + tail);
    KindsPlain(p.kind);
    CommentTrimmed(p, comment);
    BlankRight(comment);
    CoreColumns(q);
    TrimSpaceFixed(q.perms);
    PermsBefore(p.perms, tail);
    ParsesAs(Core(p) + "\t#" + comment, p, Core(q), q.perms);
  }

  lemma CommentTrimmed(p: Permission, comment: string)
    requires Plain(p) && !Blank(comment)
    ensures var q := p.(perms := p.perms + "\t#" + TrimRight(comment));
            && TrimSpace(Core(p) + "\t#" + comment) == Core(q) && Core(q) != ""
  {
    var tail := TrimRight(comment);
    PermsEnd(p);
    TrimRightAfter(Core(p) + "\t#", comment);
    CommentedCore(p, tail);
    BlankRight(comment);
    TrimLeftKept(Core(p), "\t#" + tail);
    assert Core(p) + ("\t#" + tail) == Core(p) + "\t#" + tail;
  }

  lemma CommentedCore(p: Permission, tail: string)
    ensures Core(p.(perms := p.perms + "\t#" + tail)) == Core(p) + "\t#" + tail
  {
    var front := p.kind + ":" + p.qualifier + ":";
    assert front + (p.perms + "\t#" + tail) == front + p.perms + "\t#" + tail;
  }

  lemma TrimLeftKept(front: string, rest: string)
    requires front != "" && !IsSpace(front[0])
    ensures TrimLeft(front + rest) == front + rest
  {
  }

  lemma {:induction false} TrimRightAfter(front: string, s: string)
    requires !Blank(s)
    ensures TrimRight(front + s) == front + TrimRight(s)
  {
    var n := |s| - 1;
    if IsSpace(s[n]) {
      assert s == s[..n] + [s[n]];
      TrimRightAfter(front, s[..n]);
      assert (front + s)[..|front| + n] == front + s[..n];
    }
  }

  lemma BlankRight(s: string)
    requires !Blank(s)
    ensures TrimRight(s) != "" && !IsSpace(TrimRight(s)[|TrimRight(s)| - 1])
  {
    TrimRightPrefix(s);
  }

  lemma PermsBefore(perms: string, comment: string)
    requires NoSpace(perms) && '#' !in perms && perms != ""
    ensures BeforeComment(perms + "\t#" + comment) == perms && TrimSpace(perms) == perms
  {
    BeforeTab(perms, "#" + comment);
    assert perms + "\t#" + comment == perms + ['\t'] + ("#" + comment);
    TrimSpaceFixed(perms);
  }

  lemma {:induction false} BeforeTab(s: string, rest: string)
    requires NoSpace(s) && '#' !in s
    ensures BeforeComment(s + ['\t'] + rest) == s
  {
    if s == "" {
    } else {
      BeforeTab(s[1..], rest);
      assert (s + ['\t'] + rest)[1..] == s[1..] + ['\t'] + rest;
      assert s == [s[0]] + s[1..];
    }
  }

  /** The prefix of a default entry makes no difference. */
  lemma DefaultPrefix(p: Permission)
    requires Plain(p)
    ensures ParsedEntry("default:" + Core(p)) == ParsedEntry("  " + Core(p)) == [p]
  {
    var line := "default:" + Core(p);
    EntryParses(p);
    PermsEnd(p);
    KindsPlain(p.kind);
    CoreColumns(p);
    assert line[|"default:"|..] == Core(p);
    assert line[0] == 'd' && line[|line| - 1] == Core(p)[|Core(p)| - 1];
    TrimSpaceFixed(line);
    TrimSpaceFixed(Core(p));
    DefaultDropped(line, p);
  }

  lemma DefaultDropped(line: string, p: Permission)
    requires Plain(p) && TrimSpace(line) == line && line == "default:" + Core(p)
    requires WithoutDefault(line) == Core(p) && Columns(Core(p)) == Some((p.kind, p.qualifier, p.perms))
    ensures ParsedEntry(line) == [p]
  {
    KindsPlain(p.kind);
    assert line[0] == "default:"[0] == 'd';
    TrimSpaceFixed(p.kind);
    TrimSpaceFixed(p.qualifier);
    TrimSpaceFixed(p.perms);
    BeforeCommentAll(p.perms);
  }

  lemma PermsEnd(p: Permission)
    requires Plain(p)
    ensures Core(p) != "" && Trimmed(Core(p)) && !IsSpace(Core(p)[|Core(p)| - 1])
  {
    KindsPlain(p.kind);
    assert Core(p)[|Core(p)| - 1] == p.perms[|p.perms| - 1];
  }
}
