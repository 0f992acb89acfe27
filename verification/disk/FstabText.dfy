/** /etc/fstab as text and as a table from mountpoints to lines (internal/service/disk/mount.go). */
module FstabText {
  import opened Wrappers
  import opened Text
  import opened Seqs

  /** fstabPersister.readLines on the content of the file. */
  function ReadLines(content: Option<string>): seq<string> {
    match content
    case None => []
    case Some(data) => DropFinalBlank(Split(DropCarriageReturns(data), '\n'))
  }

  /** The text that Persist writes for its lines. */
  function RenderLines(lines: seq<string>): string {
    var content := Join(lines, "\n");
    if content != "" && !HasSuffix(content, "\n") then content + "\n" else content
  }

  /** The mountpoint of an active line: neither blank nor a comment, with at least two fields. */
  function Key(line: string): Option<string> {
    var trimmed := TrimSpace(line);
    if trimmed == "" || HasPrefix(trimmed, "#") then None
    else
      var fields := White.Fields(trimmed);
      if |fields| < 2 then None else Some(fields[1])
  }

  /** The first active line of a mountpoint. */
  function Lookup(lines: seq<string>, mountPoint: string): Option<string> {
    if lines == [] then None
    else if Key(lines[0]) == Some(mountPoint) then Some(lines[0])
    else Lookup(lines[1..], mountPoint)
  }

  /** The first active line of the mountpoint is overwritten, or the entry is appended. */
  function Replace(lines: seq<string>, mountPoint: string, entry: string): seq<string> {
    if lines == [] then [entry]
    else if Key(lines[0]) == Some(mountPoint) then [entry] + lines[1..]
    else [lines[0]] + Replace(lines[1..], mountPoint, entry)
  }

  lemma ReplaceSkips(lines: seq<string>, i: nat, mountPoint: string, entry: string)
    requires i < |lines| && Key(lines[i]) != Some(mountPoint)
    ensures lines[..i] + Replace(lines[i..], mountPoint, entry) ==
            lines[..i + 1] + Replace(lines[i + 1..], mountPoint, entry)
  {
    assert lines[i..][0] == lines[i] && lines[i..][1..] == lines[i + 1..];
  }

  lemma ReplaceHits(lines: seq<string>, i: nat, mountPoint: string, entry: string)
    requires i < |lines| && Key(lines[i]) == Some(mountPoint)
    ensures lines[..i] + Replace(lines[i..], mountPoint, entry) == lines[i := entry]
  {
    assert lines[i..][0] == lines[i] && lines[i..][1..] == lines[i + 1..];
  }

  /** The loop of Persist. */
  method ReplaceFirst(read: seq<string>, mountPoint: string, entry: string) returns (lines: seq<string>)
    ensures lines == Replace(read, mountPoint, entry)
  {
    lines := read;
    var replaced := false;
    for i := 0 to |read|
      invariant lines == read && !replaced
      invariant Replace(read, mountPoint, entry) == read[..i] + Replace(read[i..], mountPoint, entry)
    {
      var trimmed := TrimSpace(lines[i]);
      if trimmed == "" || HasPrefix(trimmed, "#") {
        ReplaceSkips(read, i, mountPoint, entry);
        continue;
      }
      var fields := White.Fields(trimmed);
      if |fields| < 2 {
        ReplaceSkips(read, i, mountPoint, entry);
        continue;
      }
      if fields[1] == mountPoint {
        ReplaceHits(read, i, mountPoint, entry);
        lines := lines[i := entry];
        replaced := true;
        break;
      }
      ReplaceSkips(read, i, mountPoint, entry);
    }
    if !replaced {
      assert read[..|read|] == read && read[|read|..] == [];
      lines := lines + [entry];
    }
  }

  // ---- the table view of a file ----

  function Visible(line: string): seq<string> { if TrimSpace(line) == "" then [] else [TrimSpace(line)] }

  /** The non-blank lines, trimmed. */
  function NonBlank(lines: seq<string>): seq<string> { FlatMap(Visible, lines) }

  function View(content: Option<string>): seq<string> { NonBlank(ReadLines(content)) }

  lemma KeyTrimmed(line: string)
    ensures Key(TrimSpace(line)) == Key(line)
  {
    TrimSpaceTrimmed(line);
    TrimSpaceFixed(TrimSpace(line));
  }

  /** Two lists of lines that differ only in white space at line ends. */
  ghost predicate SameLines(a: seq<string>, b: seq<string>) {
    |a| == |b| && forall i :: 0 <= i < |a| ==> TrimRight(a[i]) == TrimRight(b[i])
  }

  lemma {:induction false} NonBlankSame(a: seq<string>, b: seq<string>)
    requires SameLines(a, b)
    ensures NonBlank(a) == NonBlank(b)
  {
    if a == [] {
    } else {
      NonBlankSame(a[1..], b[1..]);
    }
  }

  lemma SameWithFirst(d: char, a: seq<string>, b: seq<string>)
    requires |a| >= 1 && SameLines(a, b)
    ensures SameLines(WithFirst(d, '\n', a), WithFirst(d, '\n', b))
  {
    TrimRightCons(d, a[0]);
    TrimRightCons(d, b[0]);
    var x, y := WithFirst(d, '\n', a), WithFirst(d, '\n', b);
    if d == '\n' {
      assert x == [""] + a && y == [""] + b;
    } else {
      assert x == [[d] + a[0]] + a[1..] && y == [[d] + b[0]] + b[1..];
    }
  }

  lemma {:induction false} DroppedReturns(s: string)
    ensures SameLines(Split(DropCarriageReturns(s), '\n'), Split(s, '\n'))
    decreases |s|
  {
    if |s| < 2 {
    } else {
      if s[0] == '\r' && s[1] == '\n' {
        DroppedReturn(s[2..]);
        assert s == "\r\n" + s[2..];
      } else {
        DroppedReturns(s[1..]);
        var dropped := DropCarriageReturns(s[1..]);
        assert ([s[0]] + dropped)[1..] == dropped;
        SameWithFirst(s[0], Split(dropped, '\n'), Split(s[1..], '\n'));
      }
    }
  }

  lemma {:induction false} DroppedReturn(rest: string)
    ensures SameLines(Split("\n" + DropCarriageReturns(rest), '\n'), Split("\r\n" + rest, '\n'))
    decreases |rest| + 1
  {
    DroppedReturns(rest);
    var dropped := DropCarriageReturns(rest);
    SplitFirst("", '\n', dropped);
    assert "\n" + dropped == "" + ['\n'] + dropped;
    SplitFirst("\r", '\n', rest);
    assert "\r\n" + rest == "\r" + ['\n'] + rest;
    TrimRightCons('\r', "");
    assert ['\r'] + "" == "\r";
  }

  lemma NonBlankSnoc(lines: seq<string>)
    ensures NonBlank(lines + [""]) == NonBlank(lines)
  {
    FlatMapConcat(Visible, lines, [""]);
    FlatMapOne(Visible, "");
  }

  lemma NonBlankDropFinal(lines: seq<string>)
    ensures NonBlank(DropFinalBlank(lines)) == NonBlank(lines)
  {
    if lines != [] && lines[|lines| - 1] == "" {
      assert lines == lines[..|lines| - 1] + [""];
      NonBlankSnoc(lines[..|lines| - 1]);
    }
  }

  /** Reading a text back shows its lines, whatever its line ends. */
  lemma ViewOfText(data: string)
    ensures View(Some(data)) == NonBlank(Split(data, '\n'))
  {
    DroppedReturns(data);
    NonBlankSame(Split(DropCarriageReturns(data), '\n'), Split(data, '\n'));
    NonBlankDropFinal(Split(DropCarriageReturns(data), '\n'));
  }

  /** The table lines of a text that may have several. */
  function TableLines(text: string): seq<string> { NonBlank(Split(text, '\n')) }

  function AtNewlines(text: string): seq<string> { Split(text, '\n') }

  lemma {:induction false} SplitJoined(parts: seq<string>)
    requires parts != []
    ensures Split(Join(parts, "\n"), '\n') == FlatMap(AtNewlines, parts)
  {
    if |parts| == 1 {
      FlatMapOne(AtNewlines, parts[0]);
      assert parts == [parts[0]];
    } else {
      SplitJoined(parts[1..]);
      SplitConcat(parts[0], '\n', Join(parts[1..], "\n"));
      assert parts[0] + ['\n'] + Join(parts[1..], "\n") == Join(parts, "\n");
    }
  }

  /** Writing lines and reading them back shows the table lines of each, in order. */
  lemma ViewRendered(lines: seq<string>)
    ensures View(Some(RenderLines(lines))) == FlatMap(TableLines, lines)
  {
    var content := Join(lines, "\n");
    ViewOfText(RenderLines(lines));
    if lines == [] {
      FlatMapOne(Visible, "");
      assert Split("", '\n') == [""];
    } else {
      SplitJoined(lines);
      FlatMapFlatMap(Visible, AtNewlines, TableLines, lines);
      if RenderLines(lines) != content {
        SplitConcat(content, '\n', "");
        assert content + ['\n'] + "" == content + "\n";
        NonBlankSnoc(Split(content, '\n'));
      }
    }
  }

  lemma ReadLinesFree(content: Option<string>)
    ensures forall i :: 0 <= i < |ReadLines(content)| ==> '\n' !in ReadLines(content)[i]
  {
    if content.Some? { SplitPieces(DropCarriageReturns(content.value), '\n'); }
  }

  lemma OneTableLine(line: string)
    requires '\n' !in line
    ensures TableLines(line) == Visible(line)
  {
    SplitNone(line, '\n');
    FlatMapOne(Visible, line);
  }

  /** A text that does not end in white space has a table line. */
  lemma {:induction false} SomeTableLine(text: string)
    requires text != "" && !IsSpace(text[|text| - 1])
    ensures TableLines(text) != []
    decreases |text|
  {
    if '\n' !in text {
      OneTableLine(text);
      NotBlank(text, |text| - 1);
    } else {
      var a, b := FirstAt(text, '\n');
      assert IsSpace('\n');
      assert b != "" && b[|b| - 1] == text[|text| - 1];
      SomeTableLine(b);
      TableLinesBroken(a, b);
    }
  }

  lemma TableLinesBroken(a: string, b: string)
    requires '\n' !in a
    ensures TableLines(a + ['\n'] + b) == Visible(a) + TableLines(b)
  {
    SplitFirst(a, '\n', b);
    FlatMapConcat(Visible, [a], Split(b, '\n'));
    FlatMapOne(Visible, a);
  }

  /** The first active line of the mountpoint gives way to some lines, or they are appended. */
  function Splice(lines: seq<string>, mountPoint: string, added: seq<string>): seq<string> {
    if lines == [] then added
    else if Key(lines[0]) == Some(mountPoint) then added + lines[1..]
    else [lines[0]] + Splice(lines[1..], mountPoint, added)
  }

  lemma {:induction false} SpliceOne(lines: seq<string>, mountPoint: string, entry: string)
    ensures Splice(lines, mountPoint, [entry]) == Replace(lines, mountPoint, entry)
  {
    if lines == [] {
    } else {
      SpliceOne(lines[1..], mountPoint, entry);
    }
  }

  lemma {:induction false} SpliceSkips(skipped: seq<string>, lines: seq<string>, mountPoint: string, added: seq<string>)
    requires |skipped| <= 1 && (skipped != [] ==> Key(skipped[0]) != Some(mountPoint))
    ensures Splice(skipped + lines, mountPoint, added) == skipped + Splice(lines, mountPoint, added)
  {
    if skipped == [] {
      assert skipped + lines == lines;
    } else {
      assert (skipped + lines)[1..] == lines && skipped == [skipped[0]];
    }
  }

  lemma {:induction false} TableReplace(lines: seq<string>, mountPoint: string, entry: string)
    requires forall i :: 0 <= i < |lines| ==> '\n' !in lines[i]
    ensures FlatMap(TableLines, Replace(lines, mountPoint, entry)) ==
            Splice(NonBlank(lines), mountPoint, TableLines(entry))
  {
    if lines == [] {
      FlatMapOne(TableLines, entry);
    } else {
      var line, rest := lines[0], lines[1..];
      KeyTrimmed(line);
      if Key(line) == Some(mountPoint) {
        TableOfFree(rest);
        assert ([entry] + rest)[1..] == rest;
        assert NonBlank(lines) == [TrimSpace(line)] + NonBlank(rest);
      } else {
        TableReplace(rest, mountPoint, entry);
        OneTableLine(line);
        assert ([line] + Replace(rest, mountPoint, entry))[1..] == Replace(rest, mountPoint, entry);
        SpliceSkips(Visible(line), NonBlank(rest), mountPoint, TableLines(entry));
      }
    }
  }

  lemma {:induction false} TableOfFree(lines: seq<string>)
    requires forall i :: 0 <= i < |lines| ==> '\n' !in lines[i]
    ensures FlatMap(TableLines, lines) == NonBlank(lines)
  {
    if lines == [] {
    } else {
      OneTableLine(lines[0]);
      TableOfFree(lines[1..]);
    }
  }

  /** Rewriting the file with an entry replaces one line of its table by the lines of the entry, or appends them. */
  lemma PersistRefinesSplice(content: Option<string>, mountPoint: string, entry: string)
    ensures View(Some(RenderLines(Replace(ReadLines(content), mountPoint, entry)))) ==
            Splice(View(content), mountPoint, TableLines(entry))
  {
    ReadLinesFree(content);
    ViewRendered(Replace(ReadLines(content), mountPoint, entry));
    TableReplace(ReadLines(content), mountPoint, entry);
  }

  /** No line of a table has a line break. */
  lemma ViewFree(content: Option<string>)
    ensures forall line :: line in View(content) ==> '\n' !in line
  {
    ReadLinesFree(content);
    forall line | line in View(content) ensures '\n' !in line {
      var raw := FlatMapMember(Visible, ReadLines(content), line);
      TrimSpaceTrimmed(raw);
    }
  }

  lemma {:induction false} SpliceLength(lines: seq<string>, mountPoint: string, added: seq<string>)
    ensures |Splice(lines, mountPoint, added)| ==
            |lines| + |added| - if Lookup(lines, mountPoint).Some? then 1 else 0
  {
    if lines == [] {
    } else if Key(lines[0]) != Some(mountPoint) {
      SpliceLength(lines[1..], mountPoint, added);
    }
  }

  // ---- what replacing a line means for the table ----

  /** The table is updated at one mountpoint and nowhere else. */
  lemma {:induction false} ReplaceUpdatesTable(lines: seq<string>, mountPoint: string, entry: string, other: string)
    requires Key(entry) == Some(mountPoint)
    ensures Lookup(Replace(lines, mountPoint, entry), other) ==
            if other == mountPoint then Some(entry) else Lookup(lines, other)
  {
    if lines == [] {
      assert [entry][1..] == [];
    } else if Key(lines[0]) == Some(mountPoint) {
      assert ([entry] + lines[1..])[1..] == lines[1..];
    } else {
      var tail := Replace(lines[1..], mountPoint, entry);
      ReplaceUpdatesTable(lines[1..], mountPoint, entry, other);
      assert ([lines[0]] + tail)[1..] == tail;
    }
  }

  /** One line changes at most, and only an active line of that mountpoint. */
  lemma {:induction false} ReplaceAppends(lines: seq<string>, mountPoint: string, entry: string)
    requires Lookup(lines, mountPoint).None?
    ensures Replace(lines, mountPoint, entry) == lines + [entry]
  {
    if lines == [] {
    } else {
      ReplaceAppends(lines[1..], mountPoint, entry);
      assert [lines[0]] + (lines[1..] + [entry]) == lines + [entry];
    }
  }

  lemma {:induction false} ReplaceOverwrites(lines: seq<string>, mountPoint: string, entry: string) returns (i: nat)
    requires Lookup(lines, mountPoint).Some?
    ensures i < |lines| && Key(lines[i]) == Some(mountPoint)
    ensures Replace(lines, mountPoint, entry) == lines[i := entry]
  {
    if Key(lines[0]) == Some(mountPoint) {
      i := 0;
    } else {
      i := ReplaceOverwrites(lines[1..], mountPoint, entry);
      assert [lines[0]] + lines[1..][i := entry] == lines[i + 1 := entry];
      i := i + 1;
    }
  }

  /** Replacing twice is replacing once exactly when the entry is active and of its own mountpoint. */
  lemma {:induction false} ReplaceTwice(lines: seq<string>, mountPoint: string, entry: string)
    ensures Replace(Replace(lines, mountPoint, entry), mountPoint, entry) == Replace(lines, mountPoint, entry) <==>
            Key(entry) == Some(mountPoint)
  {
    if lines == [] {
      assert [entry][1..] == [];
    } else if Key(lines[0]) == Some(mountPoint) {
      assert ([entry] + lines[1..])[1..] == lines[1..];
      if Key(entry) != Some(mountPoint) { ReplaceChanges(lines[1..], mountPoint, entry); }
    } else {
      var tail := Replace(lines[1..], mountPoint, entry);
      ReplaceTwice(lines[1..], mountPoint, entry);
      assert ([lines[0]] + tail)[1..] == tail;
    }
  }

  lemma {:induction false} ReplaceChanges(lines: seq<string>, mountPoint: string, entry: string)
    requires Key(entry) != Some(mountPoint)
    ensures Replace(lines, mountPoint, entry) != lines
  {
    if lines == [] {
    } else if Key(lines[0]) == Some(mountPoint) {
      assert ([entry] + lines[1..])[0] == entry;
    } else {
      ReplaceChanges(lines[1..], mountPoint, entry);
      assert lines == [lines[0]] + lines[1..];
      assert Replace(lines, mountPoint, entry)[1..] == Replace(lines[1..], mountPoint, entry);
    }
  }

  /** What is found under a mountpoint is an active line of it. */
  lemma {:induction false} LookupKeyed(lines: seq<string>, mountPoint: string)
    ensures var found := Lookup(lines, mountPoint);
            found.Some? ==> Key(found.value) == Some(mountPoint)
  {
    if lines == [] {
    } else if Key(lines[0]) != Some(mountPoint) {
      LookupKeyed(lines[1..], mountPoint);
    }
  }

  /** Splicing twice is splicing once exactly when there is one new line, active and of its own mountpoint. */
  lemma SpliceTwice(lines: seq<string>, mountPoint: string, added: seq<string>)
    requires added != []
    ensures Splice(Splice(lines, mountPoint, added), mountPoint, added) == Splice(lines, mountPoint, added) <==>
            |added| == 1 && Key(added[0]) == Some(mountPoint)
  {
    if |added| == 1 {
      assert added == [added[0]];
      SpliceOne(lines, mountPoint, added[0]);
      SpliceOne(Splice(lines, mountPoint, added), mountPoint, added[0]);
      ReplaceTwice(lines, mountPoint, added[0]);
    } else {
      SpliceLength(Splice(lines, mountPoint, added), mountPoint, added);
    }
  }

  lemma {:induction false} SpliceMembers(lines: seq<string>, mountPoint: string, added: seq<string>)
    ensures forall line :: line in Splice(lines, mountPoint, added) ==> line in added || line in lines
    ensures forall line :: line in added ==> line in Splice(lines, mountPoint, added)
  {
    if lines == [] {
    } else {
      SpliceMembers(lines[1..], mountPoint, added);
    }
  }

  lemma {:induction false} LookupMember(lines: seq<string>, mountPoint: string)
    ensures var found := Lookup(lines, mountPoint);
            found.Some? ==> found.value in lines
  {
    if lines == [] {
    } else if Key(lines[0]) != Some(mountPoint) {
      LookupMember(lines[1..], mountPoint);
    }
  }

  /** The table is updated at the mountpoint and nowhere else. */
  ghost predicate Updates(before: seq<string>, after: seq<string>, mountPoint: string, line: string) {
    forall other :: Lookup(after, other) == if other == mountPoint then Some(line) else Lookup(before, other)
  }

  /** Lines that are spliced in update the table exactly when there is one, active under its mountpoint. */
  lemma SpliceUpdatesIff(before: seq<string>, mountPoint: string, added: seq<string>, line: string)
    requires forall x :: x in before || x in added ==> '\n' !in x
    requires added == [line] || '\n' in line || Key(line) != Some(mountPoint)
    ensures Updates(before, Splice(before, mountPoint, added), mountPoint, line) <==>
            added == [line] && Key(line) == Some(mountPoint)
  {
    var after := Splice(before, mountPoint, added);
    if added == [line] && Key(line) == Some(mountPoint) {
      SpliceOne(before, mountPoint, line);
      forall other
        ensures Lookup(after, other) == if other == mountPoint then Some(line) else Lookup(before, other)
      {
        ReplaceUpdatesTable(before, mountPoint, line, other);
      }
    } else {
      LookupKeyed(after, mountPoint);
      LookupMember(after, mountPoint);
      SpliceMembers(before, mountPoint, added);
    }
  }
}
