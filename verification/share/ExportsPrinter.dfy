/** The exports(5) snippet that a reload generates, and a reader for its format. */
module ExportsPrinter {
  import opened Wrappers
  import opened Text
  import opened Seqs
  import opened ShareTypes
  import opened PrinterText

  function ExportOptions(s: Share): string { (if s.readOnly then "ro," else "rw,") + "sync,no_subtree_check" }

  function ExportHosts(s: Share): seq<string> { White.Fields(if s.hosts == "" then "*" else s.hosts) }

  function HostPart(host: string, opts: string): string { host + "(" + opts + ")" }

  function HostParts(hosts: seq<string>, opts: string): seq<string> {
    seq(|hosts|, i requires 0 <= i < |hosts| => HostPart(hosts[i], opts))
  }

  function CommentPart(comment: string): string { if comment == "" then "" else " # " + comment }

  function ExportLine(s: Share): string {
    s.path + " " + Join(HostParts(ExportHosts(s), ExportOptions(s)), " ") + CommentPart(s.comment)
  }

  /** Disabled shares are omitted. */
  function ExportBlock(s: Share): seq<string> { if s.kind == Nfs && s.enabled then [ExportLine(s)] else [] }

  function ExportLines(shares: seq<Share>): seq<string> { FlatMap(ExportBlock, shares) }

  function ExportsHeader(): seq<string> { [Banner(), ""] }

  function ExportsText(shares: seq<Share>): string { Unlines(ExportsHeader() + ExportLines(shares)) }

  method WriteExport(buf: string, s: Share, ghost done: seq<string>) returns (r: string)
    requires buf == Unlines(done)
    ensures r == Unlines(done + ExportBlock(s))
  {
    if s.kind != Nfs || !s.enabled {
      assert done + [] == done;
      return buf;
    }
    var opts := "sync,no_subtree_check";
    if s.readOnly {
      opts := "ro," + opts;
    } else {
      opts := "rw," + opts;
    }
    var comment := "";
    if s.comment != "" {
      comment := " # " + s.comment;
    }
    var hosts := s.hosts;
    if hosts == "" {
      hosts := "*";
    }
    var hostParts := WrapHosts(White.Fields(hosts), opts);
    ghost var lines;
    r, lines := PutLine(buf, done, s.path + " " + Join(hostParts, " ") + comment);
  }

  method WriteNFSExports(shares: seq<Share>) returns (text: string)
    ensures text == ExportsText(shares)
  {
    ghost var lines: seq<string>;
    text, lines := PutLine("", [], Banner());
    text, lines := PutLine(text, lines, "");
    assert lines == ExportsHeader() + ExportLines(shares[..0]);
    for i := 0 to |shares|
      invariant text == Unlines(ExportsHeader() + ExportLines(shares[..i]))
    {
      text := WriteExport(text, shares[i], ExportsHeader() + ExportLines(shares[..i]));
      FlatMapSnoc(ExportBlock, shares, i);
      Regroup(ExportsHeader(), ExportLines(shares[..i]), ExportBlock(shares[i]));
    }
    assert shares[..|shares|] == shares;
  }

  method WrapHosts(hostEntries: seq<string>, opts: string) returns (hostParts: seq<string>)
    ensures hostParts == HostParts(hostEntries, opts)
  {
    hostParts := [];
    for i := 0 to |hostEntries|
      invariant hostParts == HostParts(hostEntries[..i], opts)
    {
      hostParts := hostParts + [hostEntries[i] + "(" + opts + ")"];
    }
    assert hostEntries[..|hostEntries|] == hostEntries;
  }

  // ---- reading an exports file, as exports(5) describes it ----

  datatype Client = Client(host: string, options: seq<string>)
  datatype Export = Export(path: string, clients: seq<Client>, comment: string)

  /** host(options). */
  function ReadClient(token: string): Client {
    var i := LastIndex(token, '(');
    if i + 1 < |token| then Client(token[..i], Split(token[i + 1..|token| - 1], ',')) else Client(token, [])
  }

  function ReadClients(tokens: seq<string>): seq<Client> {
    seq(|tokens|, i requires 0 <= i < |tokens| => ReadClient(tokens[i]))
  }

  function Rest(line: string, n: nat): string { if n <= |line| then line[n..] else "" }

  /** A # starts a comment that runs to the end of the line; blank lines export nothing. */
  function ReadExportLine(line: string): Option<Export> {
    var body := Split(line, '#')[0];
    var tokens := White.Fields(body);
    if tokens == [] then None
    else
      Some(Export(tokens[0], ReadClients(tokens[1..]), Rest(line, |body| + 2)))
  }

  function Exported(line: string): seq<Export> {
    match ReadExportLine(line)
    case None => []
    case Some(e) => [e]
  }

  function ReadExports(text: string): seq<Export> { FlatMap(Exported, Split(text, '\n')) }

  /** The same access for each host. */
  function Clients(hosts: seq<string>, readOnly: bool): seq<Client> {
    seq(|hosts|, i requires 0 <= i < |hosts| =>
      Client(hosts[i], [if readOnly then "ro" else "rw", "sync", "no_subtree_check"]))
  }

  /** The words of the hosts field, or everyone when it is empty. */
  function ExportOf(s: Share): Export {
    Export(s.path, Clients(if s.hosts == "" then ["*"] else White.Fields(s.hosts), s.readOnly), s.comment)
  }

  function ActiveExport(s: Share): seq<Export> { if s.kind == Nfs && s.enabled then [ExportOf(s)] else [] }

  /** What the enabled NFS shares export, in order. */
  function ActiveExports(shares: seq<Share>): seq<Export> { FlatMap(ActiveExport, shares) }

  ghost predicate NfsPrintable(s: Share) {
    s.kind == Nfs ==>
      && OneLine(s)
      && White.Token(s.path) && '#' !in s.path && '#' !in s.hosts
  }

  ghost predicate PlainWord(w: string) { ',' !in w && '(' !in w && '#' !in w && NoSpace(w) }

  lemma OptionWords()
    ensures PlainWord("ro") && PlainWord("rw") && PlainWord("sync") && PlainWord("no_subtree_check")
  {
  }

  lemma OptionsJoined(s: Share)
    ensures ExportOptions(s) == Join([if s.readOnly then "ro" else "rw", "sync", "no_subtree_check"], ",")
  {
    var access, a, b := if s.readOnly then "ro" else "rw", "sync", "no_subtree_check";
    assert [access, a, b][1..] == [a, b] && [a, b][1..] == [b];
    assert Join([b], ",") == b;
    assert Join([a, b], ",") == a + "," + b;
    assert Join([access, a, b], ",") == access + "," + (a + "," + b);
    assert a + "," + b == "sync,no_subtree_check";
    assert access + "," == if s.readOnly then "ro," else "rw,";
  }

  lemma OptionsSplit(s: Share)
    ensures Split(ExportOptions(s), ',') == [if s.readOnly then "ro" else "rw", "sync", "no_subtree_check"]
    ensures '(' !in ExportOptions(s) && '#' !in ExportOptions(s)
    ensures NoSpace(ExportOptions(s))
  {
    OptionWords();
    OptionsJoined(s);
    PlainJoin([if s.readOnly then "ro" else "rw", "sync", "no_subtree_check"]);
  }

  lemma {:induction false} PlainJoin(words: seq<string>)
    requires |words| >= 1 && forall i :: 0 <= i < |words| ==> PlainWord(words[i])
    ensures Split(Join(words, ","), ',') == words
    ensures '(' !in Join(words, ",") && '#' !in Join(words, ",") && NoSpace(Join(words, ","))
  {
    SplitJoin(words, ',');
    if |words| <= 1 {
    } else {
      PlainJoin(words[1..]);
    }
  }

  lemma ClientRead(host: string, opts: string)
    requires '(' !in opts
    ensures ReadClient(HostPart(host, opts)) == Client(host, Split(opts, ','))
  {
    var token, rest := HostPart(host, opts), opts + ")";
    assert token == host + ['('] + rest;
    LastIndexAt(host, '(', rest);
    assert token[..|host|] == host;
    assert token[|host| + 1..|token| - 1] == opts;
  }

  lemma ClientToken(host: string, opts: string)
    requires White.Token(host) && '#' !in host
    requires '#' !in opts && NoSpace(opts)
    ensures White.Token(HostPart(host, opts)) && '#' !in HostPart(host, opts)
  {
  }

  lemma PartsRead(s: Share)
    requires '#' !in s.hosts
    ensures ReadClients(HostParts(ExportHosts(s), ExportOptions(s))) == ExportOf(s).clients
    ensures forall p :: p in HostParts(ExportHosts(s), ExportOptions(s)) ==> White.Token(p) && '#' !in p
  {
    var hosts, opts := ExportHosts(s), ExportOptions(s);
    var parts := HostParts(hosts, opts);
    OptionsSplit(s);
    HostsTokens(s);
    White.FieldsOne("*");
    forall i | 0 <= i < |hosts|
      ensures White.Token(parts[i]) && '#' !in parts[i]
      ensures ReadClient(parts[i]) == ExportOf(s).clients[i]
    {
      assert hosts[i] in hosts;
      ClientRead(hosts[i], opts);
      ClientToken(hosts[i], opts);
    }
  }

  /** The line printed for an enabled share reads back as its path, clients, options and comment. */
  lemma ExportLineRead(s: Share)
    requires s.kind == Nfs && NfsPrintable(s)
    ensures ReadExportLine(ExportLine(s)) == Some(ExportOf(s))
  {
    var parts := HostParts(ExportHosts(s), ExportOptions(s));
    PartsRead(s);
    BodyFields(s.path, parts);
    JoinFree(parts, '#');
    LineFields(s.path + " " + Join(parts, " "), s.comment);
  }

  lemma LineFields(core: string, comment: string)
    requires '#' !in core
    ensures var line := core + CommentPart(comment);
            var body := Split(line, '#')[0];
            White.Fields(body) == White.Fields(core) && Rest(line, |body| + 2) == comment
  {
    if comment == "" {
      assert core + "" == core;
      SplitNone(core, '#');
    } else {
      CommentedLine(core, core + [' '], comment);
      White.FieldsTail(core, ' ');
    }
  }

  lemma CommentedLine(core: string, body: string, comment: string)
    requires '#' !in core && body == core + [' ']
    ensures Split(core + (" # " + comment), '#')[0] == body
    ensures Rest(core + (" # " + comment), |body| + 2) == comment
  {
    var rest := [' '] + comment;
    SplitFirst(body, '#', rest);
    assert core + (" # " + comment) == body + ['#'] + rest;
  }

  lemma HostsTokens(s: Share)
    requires '#' !in s.hosts
    ensures forall h :: h in ExportHosts(s) ==> White.Token(h) && '#' !in h
  {
    FieldsFrom(if s.hosts == "" then "*" else s.hosts, '#');
  }

  lemma {:induction false} FieldsFrom(s: string, c: char)
    requires c !in s
    ensures forall f :: f in White.Fields(s) ==> White.Token(f) && c !in f
    decreases |s|
  {
    if s == "" {
    } else {
      if White.At(s[0]) {
        FieldsFrom(s[1..], c);
      } else {
        FieldsFrom(s[White.Run(s)..], c);
      }
    }
  }

  lemma BodyFields(path: string, parts: seq<string>)
    requires White.Token(path) && forall i :: 0 <= i < |parts| ==> White.Token(parts[i])
    ensures White.Fields(path + " " + Join(parts, " ")) == [path] + parts
  {
    var rest := Join(parts, " ");
    assert path + " " + rest == path + (" " + rest);
    White.FieldsToken(path, " " + rest);
    White.FieldsSkip(' ', rest);
    White.FieldsJoin(parts, ' ');
  }

  lemma {:induction false} JoinFree(parts: seq<string>, c: char)
    requires c != ' ' && forall i :: 0 <= i < |parts| ==> c !in parts[i]
    ensures c !in Join(parts, " ")
  {
    if |parts| <= 1 {
    } else {
      JoinFree(parts[1..], c);
    }
  }

  lemma ExportLinesRead(shares: seq<Share>)
    requires forall s :: s in shares ==> NfsPrintable(s)
    ensures FlatMap(Exported, ExportLines(shares)) == ActiveExports(shares)
  {
    forall s | s in shares ensures FlatMap(Exported, ExportBlock(s)) == ActiveExport(s) {
      BlockExported(s);
    }
    FlatMapFlatMap(Exported, ExportBlock, ActiveExport, shares);
  }

  lemma BlockExported(s: Share)
    requires NfsPrintable(s)
    ensures FlatMap(Exported, ExportBlock(s)) == ActiveExport(s)
  {
    if s.kind == Nfs && s.enabled {
      FlatMapOne(Exported, ExportLine(s));
      ExportLineRead(s);
    }
  }

  lemma ExportLinesOneLine(shares: seq<Share>)
    requires forall s :: s in shares ==> NfsPrintable(s)
    ensures forall line :: line in ExportLines(shares) ==> '\n' !in line
  {
    forall line | line in ExportLines(shares) ensures '\n' !in line {
      var s := FlatMapMember(ExportBlock, shares, line);
      ExportLineOneLine(s);
    }
  }

  lemma ExportLineOneLine(s: Share)
    requires s.kind == Nfs && NfsPrintable(s)
    ensures '\n' !in ExportLine(s)
  {
    OptionsSplit(s);
    PartsRead(s);
    var parts := HostParts(ExportHosts(s), ExportOptions(s));
    forall p | p in parts ensures '\n' !in p {
      NoNewline(p);
    }
    JoinFree(parts, '\n');
    NoNewline(s.path);
  }

  lemma NoNewline(t: string)
    requires White.Free(t)
    ensures '\n' !in t
  {
  }

  /** The exports file parses back to exactly the enabled NFS shares, in order. */
  lemma ExportsParseBack(shares: seq<Share>)
    requires forall s :: s in shares ==> NfsPrintable(s)
    ensures ReadExports(ExportsText(shares)) == ActiveExports(shares)
  {
    var lines := ExportLines(shares);
    ExportLinesRead(shares);
    ExportLinesOneLine(shares);
    HeaderReads();
    SplitUnlines(ExportsHeader() + lines);
    FlatMapConcat(Exported, ExportsHeader() + lines, [""]);
    FlatMapConcat(Exported, ExportsHeader(), lines);
    FlatMapOne(Exported, "");
  }

  lemma HeaderReads()
    ensures FlatMap(Exported, ExportsHeader()) == []
    ensures '\n' !in Banner()
  {
    BannerIsComment();
    SplitFirst("", '#', Banner()[1..]);
    assert Banner() == "" + ['#'] + Banner()[1..];
    FlatMapConcat(Exported, [Banner()], [""]);
    FlatMapOne(Exported, Banner());
    FlatMapOne(Exported, "");
  }

  // ---- what is exported to whom ----

  lemma {:induction false} JoinHasNo(words: seq<string>, c: char)
    requires c != ' ' && forall i :: 0 <= i < |words| ==> c !in words[i]
    ensures c !in Join(words, " ")
    ensures words != [] && (forall i :: 0 <= i < |words| ==> words[i] != "") ==> Join(words, " ") != ""
  {
    if |words| <= 1 {
    } else {
      JoinHasNo(words[1..], c);
    }
  }

  /** The printed line gives access to exactly the listed hosts, in order. */
  lemma HostsRead(s: Share, hosts: seq<string>)
    requires s.kind == Nfs && White.Token(s.path) && '#' !in s.path && OneLine(s)
    requires hosts != [] && forall i :: 0 <= i < |hosts| ==> White.Token(hosts[i]) && '#' !in hosts[i]
    requires s.hosts == Join(hosts, " ")
    ensures ReadExportLine(ExportLine(s)) == Some(Export(s.path, Clients(hosts, s.readOnly), s.comment))
  {
    JoinHasNo(hosts, '#');
    White.FieldsJoin(hosts, ' ');
    ExportLineRead(s);
  }

  /** Without hosts the line gives access to everyone. */
  lemma EveryoneRead(s: Share)
    requires s.kind == Nfs && White.Token(s.path) && '#' !in s.path && OneLine(s) && s.hosts == ""
    ensures ReadExportLine(ExportLine(s)) == Some(Export(s.path, Clients(["*"], s.readOnly), s.comment))
  {
    ExportLineRead(s);
  }

  /** The whole file, for one share: only an enabled NFS share is exported. */
  lemma OneExport(s: Share)
    requires NfsPrintable(s)
    ensures ReadExports(ExportsText([s])) ==
            if s.kind == Nfs && s.enabled then
              [Export(s.path, Clients(if s.hosts == "" then ["*"] else White.Fields(s.hosts), s.readOnly), s.comment)]
            else []
  {
    ExportsParseBack([s]);
    FlatMapOne(ActiveExport, s);
  }

  /** And for several: what each of them exports, in order. */
  lemma ExportsInTurn(a: seq<Share>, b: seq<Share>)
    requires forall s :: s in a + b ==> NfsPrintable(s)
    ensures ReadExports(ExportsText(a + b)) == ReadExports(ExportsText(a)) + ReadExports(ExportsText(b))
  {
    assert forall s :: s in a || s in b ==> s in a + b;
    ExportsParseBack(a);
    ExportsParseBack(b);
    ExportsParseBack(a + b);
    FlatMapConcat(ActiveExport, a, b);
  }
}
