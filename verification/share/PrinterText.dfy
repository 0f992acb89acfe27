/** What the two printers share: a buffer filled line by line. */
module PrinterText {
  import opened Text
  import opened ShareTypes

  /** Applies to the printed lines: every field of the share stays on its line. */
  predicate OneLine(s: Share) {
    && '\n' !in s.name && '\n' !in s.path && '\n' !in s.comment
    && '\n' !in s.validUsers && '\n' !in s.writeList && '\n' !in s.createMask && '\n' !in s.directoryMask
    && '\n' !in s.hosts
  }

  function Banner(): string { "# Generated by mingyue " + "\U{2013} do not edit manually." }

  lemma BannerIsComment()
    ensures Banner() != "" && Banner()[0] == '#' && '\n' !in Banner()
  {
    var a, b := "# Generated by mingyue ", "\U{2013} do not edit manually.";
    assert a[0] == '#' && '\n' !in a && '\n' !in b;
    assert Banner() == a + b;
  }

  /** buf.WriteString of one line. */
  method PutLine(buf: string, ghost lines: seq<string>, line: string) returns (r: string, ghost rl: seq<string>)
    requires buf == Unlines(lines)
    ensures rl == lines + [line] && r == Unlines(rl)
  {
    r, rl := buf + line + "\n", lines + [line];
    UnlinesSnoc(lines, line);
  }
}
