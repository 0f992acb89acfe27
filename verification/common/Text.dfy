/** The string operations of Go's `strings` package that the agent relies on, with the laws
    its parsers and printers need. A string is a sequence of Unicode scalar values. */
module Text {

  /** unicode.IsSpace. */
  predicate IsSpace(c: char) {
    || c == ' ' || '\t' <= c <= '\r'
    || c == '\U{0085}' || c == '\U{00A0}' || c == '\U{1680}'
    || '\U{2000}' <= c <= '\U{200A}'
    || c == '\U{2028}' || c == '\U{2029}' || c == '\U{202F}' || c == '\U{205F}' || c == '\U{3000}'
  }

  predicate NoSpace(s: string) { forall i :: 0 <= i < |s| ==> !IsSpace(s[i]) }

  predicate HasPrefix(s: string, p: string) { p <= s }

  predicate HasSuffix(s: string, p: string) { |p| <= |s| && s[|s| - |p|..] == p }

  // ---- trimming ----

  function TrimLeft(s: string): string {
    if s != "" && IsSpace(s[0]) then TrimLeft(s[1..]) else s
  }

  function TrimRight(s: string): string {
    if s != "" && IsSpace(s[|s| - 1]) then TrimRight(s[..|s| - 1]) else s
  }

  function TrimSpace(s: string): string { TrimLeft(TrimRight(s)) }

  /** No white space at either end. */
  predicate Trimmed(s: string) { s == "" || (!IsSpace(s[0]) && !IsSpace(s[|s| - 1])) }

  lemma {:induction false} TrimRightCons(c: char, s: string)
    ensures TrimRight([c] + s) ==
            if TrimRight(s) == "" && IsSpace(c) then "" else [c] + TrimRight(s)
  {
    if s != "" && IsSpace(s[|s| - 1]) {
      TrimRightCons(c, s[..|s| - 1]);
      assert ([c] + s)[..|s|] == [c] + s[..|s| - 1];
    } else if s == "" {
      assert [c] + s == [c] && [c][..0] == "";
    }
  }

  lemma {:induction false} TrimRightPrefix(s: string)
    ensures TrimRight(s) <= s
    ensures TrimRight(s) != "" ==> !IsSpace(TrimRight(s)[|TrimRight(s)| - 1])
    ensures forall i :: |TrimRight(s)| <= i < |s| ==> IsSpace(s[i])
  {
    if s == "" || !IsSpace(s[|s| - 1]) {
    } else {
      TrimRightPrefix(s[..|s| - 1]);
    }
  }

  lemma {:induction false} TrimLeftSuffix(s: string)
    ensures |TrimLeft(s)| <= |s| && TrimLeft(s) == s[|s| - |TrimLeft(s)|..]
    ensures TrimLeft(s) != "" ==> !IsSpace(TrimLeft(s)[0])
  {
    if s == "" || !IsSpace(s[0]) {
    } else {
      TrimLeftSuffix(s[1..]);
    }
  }

  lemma TrimSpaceTrimmed(s: string)
    ensures Trimmed(TrimSpace(s))
    ensures |TrimSpace(s)| <= |s|
    ensures forall c :: c in TrimSpace(s) ==> c in s
  {
    TrimRightPrefix(s);
    TrimLeftSuffix(TrimRight(s));
  }

  lemma TrimSpaceFixed(s: string)
    requires Trimmed(s)
    ensures TrimSpace(s) == s
  {
  }

  lemma {:induction false} AllSpace(s: string)
    requires TrimLeft(s) == ""
    ensures forall i :: 0 <= i < |s| ==> IsSpace(s[i])
  {
    if s == "" {
    } else {
      AllSpace(s[1..]);
    }
  }

  /** A text with a character that is no white space is not blank. */
  lemma NotBlank(s: string, i: nat)
    requires i < |s| && !IsSpace(s[i])
    ensures TrimSpace(s) != ""
  {
    TrimRightPrefix(s);
    if TrimSpace(s) == "" { AllSpace(TrimRight(s)); }
  }

  /** Blank texts are those that trimming empties. */
  predicate Blank(s: string) { forall i :: 0 <= i < |s| ==> IsSpace(s[i]) }

  lemma BlankIff(s: string)
    ensures TrimSpace(s) == "" <==> Blank(s)
  {
    if i :| 0 <= i < |s| && !IsSpace(s[i]) {
      NotBlank(s, i);
    } else if TrimSpace(s) != "" {
      TrimSpaceTrimmed(s);
      assert TrimSpace(s)[0] in s;
    }
  }

  /** Trimming keeps what stands between two such characters. */
  lemma TrimKeeps(s: string, i: nat, j: nat, k: nat)
    requires i < j < k < |s| && !IsSpace(s[i]) && !IsSpace(s[k])
    ensures s[j] in TrimSpace(s)
  {
    TrimRightPrefix(s);
    var r := TrimRight(s);
    assert r[i] == s[i] && r[j] == s[j];
    TrimLeftKeeps(r, i, j);
  }

  lemma {:induction false} TrimLeftKeeps(s: string, i: nat, j: nat)
    requires i < j < |s| && !IsSpace(s[i])
    ensures s[j] in TrimLeft(s)
  {
    if !IsSpace(s[0]) {
    } else {
      TrimLeftKeeps(s[1..], i - 1, j - 1);
    }
  }

  /** The text before and after the first occurrence of a character. */
  lemma {:induction false} FirstAt(s: string, c: char) returns (a: string, b: string)
    requires c in s
    ensures s == a + [c] + b && c !in a
  {
    if s[0] == c {
      a, b := "", s[1..];
    } else {
      a, b := FirstAt(s[1..], c);
      a := [s[0]] + a;
    }
  }

  /** Padding a trimmed text with white space on the left is undone by trimming. */
  lemma {:induction false} TrimSpacePadded(pad: string, s: string)
    requires Trimmed(s)
    requires forall i :: 0 <= i < |pad| ==> IsSpace(pad[i])
    ensures TrimSpace(pad + s) == s
  {
    if pad == "" {
      assert pad + s == s;
    } else {
      TrimSpacePadded(pad[1..], s);
      var rest := pad[1..] + s;
      assert pad + s == [pad[0]] + rest;
      TrimRightCons(pad[0], rest);
      TrimLeftCons(pad[0], TrimRight(rest));
    }
  }

  lemma TrimLeftCons(c: char, s: string)
    requires IsSpace(c)
    ensures TrimLeft([c] + s) == TrimLeft(s)
  {
    assert ([c] + s)[1..] == s;
  }

  lemma TrimSpaceBefore(s: string, c: char)
    requires IsSpace(c)
    ensures TrimSpace(s + [c]) == TrimSpace(s)
  {
    assert (s + [c])[..|s|] == s;
  }

  // ---- splitting at every occurrence of one character ----

  function Split(s: string, c: char): (parts: seq<string>)
    ensures |parts| >= 1
    ensures |parts| > 1 ==> |parts[0]| < |s| && s[|parts[0]|] == c
  {
    if s == "" then [""] else WithFirst(s[0], c, Split(s[1..], c))
  }

  /** The pieces of a text that is one character longer at its start. */
  function WithFirst(d: char, c: char, parts: seq<string>): (r: seq<string>)
    requires |parts| >= 1
    ensures |r| >= |parts|
  {
    if d == c then [""] + parts else [[d] + parts[0]] + parts[1..]
  }

  function Join(parts: seq<string>, sep: string): string {
    if parts == [] then "" else if |parts| == 1 then parts[0] else parts[0] + sep + Join(parts[1..], sep)
  }

  lemma {:induction false} SplitPieces(s: string, c: char)
    ensures forall i :: 0 <= i < |Split(s, c)| ==> c !in Split(s, c)[i]
    ensures forall i, d :: 0 <= i < |Split(s, c)| && d in Split(s, c)[i] ==> d in s
  {
    if s == "" {
    } else {
      SplitPieces(s[1..], c);
      assert s == [s[0]] + s[1..];
    }
  }

  lemma {:induction false} SplitNone(s: string, c: char)
    requires c !in s
    ensures Split(s, c) == [s]
  {
    if s == "" {
    } else {
      SplitNone(s[1..], c);
      assert s == [s[0]] + s[1..];
    }
  }

  lemma {:induction false} SplitFirst(a: string, c: char, b: string)
    requires c !in a
    ensures Split(a + [c] + b, c) == [a] + Split(b, c)
  {
    var s := a + [c] + b;
    if a == "" {
      assert s[1..] == b;
    } else {
      SplitFirst(a[1..], c, b);
      assert s[1..] == a[1..] + [c] + b;
      assert a == [a[0]] + a[1..];
    }
  }

  lemma {:induction false} SplitConcat(a: string, c: char, b: string)
    ensures Split(a + [c] + b, c) == Split(a, c) + Split(b, c)
  {
    var s := a + [c] + b;
    if a == "" {
      assert s[1..] == b;
    } else {
      SplitConcat(a[1..], c, b);
      assert s[1..] == a[1..] + [c] + b;
      ExtendFirst(a[0], c, Split(a[1..], c), Split(b, c));
    }
  }

  lemma ExtendFirst(d: char, c: char, xs: seq<string>, ys: seq<string>)
    requires |xs| >= 1
    ensures WithFirst(d, c, xs + ys) == WithFirst(d, c, xs) + ys
  {
  }

  lemma {:induction false} SplitJoin(parts: seq<string>, c: char)
    requires |parts| >= 1
    requires forall i :: 0 <= i < |parts| ==> c !in parts[i]
    ensures Split(Join(parts, [c]), c) == parts
  {
    if |parts| == 1 {
      SplitNone(parts[0], c);
    } else {
      SplitFirst(parts[0], c, Join(parts[1..], [c]));
      SplitJoin(parts[1..], c);
    }
  }

  /** The pieces of a text that ends in a separator, without the empty one after it. */
  function DropFinalBlank(parts: seq<string>): seq<string> {
    if parts != [] && parts[|parts| - 1] == "" then parts[..|parts| - 1] else parts
  }

  /** The text made of the given lines, each ended by a newline. */
  function Unlines(lines: seq<string>): string {
    if lines == [] then "" else Unlines(lines[..|lines| - 1]) + lines[|lines| - 1] + "\n"
  }

  lemma UnlinesSnoc(lines: seq<string>, line: string)
    ensures Unlines(lines + [line]) == Unlines(lines) + line + "\n"
  {
    assert (lines + [line])[..|lines|] == lines;
  }

  lemma {:induction false} UnlinesCons(line: string, lines: seq<string>)
    ensures Unlines([line] + lines) == line + "\n" + Unlines(lines)
  {
    if lines == [] {
      UnlinesSnoc([], line);
      assert [line] + lines == [] + [line];
    } else {
      var init, last := lines[..|lines| - 1], lines[|lines| - 1];
      UnlinesCons(line, init);
      UnlinesSnoc([line] + init, last);
      assert [line] + lines == ([line] + init) + [last];
      assert line + "\n" + Unlines(lines) == (line + "\n" + Unlines(init)) + last + "\n";
    }
  }

  lemma {:induction false} SplitUnlines(lines: seq<string>)
    requires forall i :: 0 <= i < |lines| ==> '\n' !in lines[i]
    ensures Split(Unlines(lines), '\n') == lines + [""]
  {
    if lines == [] {
    } else {
      SplitUnlines(lines[1..]);
      assert lines == [lines[0]] + lines[1..];
      UnlinesCons(lines[0], lines[1..]);
      SplitFirst(lines[0], '\n', Unlines(lines[1..]));
    }
  }

  /** len of a Go string: its UTF-8 encoding. */
  function ByteLen(s: string): nat {
    if s == "" then 0
    else (if s[0] as int < 0x80 then 1 else if s[0] as int < 0x800 then 2 else if s[0] as int < 0x10000 then 3 else 4)
         + ByteLen(s[1..])
  }

  /** What a bufio.Scanner gives: lines, and whether it stopped at one that does not fit its buffer. */
  datatype Scanned = Scanned(lines: seq<string>, tooLong: bool)

  /** The lines before the first one that leaves no room for its line end in a buffer of `max` bytes. */
  function Fitting(lines: seq<string>, max: nat): Scanned {
    if lines == [] then Scanned([], false)
    else if ByteLen(lines[0]) >= max then Scanned([], true)
    else
      var rest := Fitting(lines[1..], max);
      Scanned([lines[0]] + rest.lines, rest.tooLong)
  }

  /** bufio.Scanner: lines without their line end; no line after a final newline. */
  function Scan(text: string, max: nat): Scanned {
    var fitting := Fitting(DropFinalBlank(Split(text, '\n')), max);
    fitting.(lines := WithoutReturns(fitting.lines))
  }

  function WithoutReturns(lines: seq<string>): seq<string> {
    seq(|lines|, i requires 0 <= i < |lines| => WithoutReturn(lines[i]))
  }

  function WithoutReturn(line: string): string {
    if line != "" && line[|line| - 1] == '\r' then line[..|line| - 1] else line
  }

  lemma {:induction false} FittingAll(lines: seq<string>, max: nat)
    ensures Fitting(lines, max).tooLong <==> exists line :: line in lines && ByteLen(line) >= max
    ensures !Fitting(lines, max).tooLong ==> Fitting(lines, max).lines == lines
    ensures forall line :: line in Fitting(lines, max).lines ==> line in lines
  {
    if lines == [] {
    } else {
      if ByteLen(lines[0]) >= max { assert lines[0] in lines; }
      FittingAll(lines[1..], max);
      assert forall line :: line in lines <==> line == lines[0] || line in lines[1..];
      assert lines == [lines[0]] + lines[1..];
    }
  }

  /** Scanning lines that were printed gives them back as far as they fit. */
  lemma ScanUnlines(lines: seq<string>, max: nat)
    requires forall line :: line in lines ==> '\n' !in line && line != "" && line[|line| - 1] != '\r'
    ensures Scan(Unlines(lines), max) == Fitting(lines, max)
  {
    SplitUnlines(lines);
    assert (lines + [""])[..|lines|] == lines;
    FittingAll(lines, max);
    NoReturns(Fitting(lines, max).lines);
  }

  lemma NoReturns(lines: seq<string>)
    requires forall line :: line in lines ==> line != "" && line[|line| - 1] != '\r'
    ensures WithoutReturns(lines) == lines
  {
  }

  /** strings.LastIndexByte, with |s| when the character is absent. */
  function LastIndex(s: string, c: char): (i: nat)
    ensures c !in s ==> i == |s|
    ensures c in s ==> i < |s| && s[i] == c
  {
    if s == "" then 0
    else if s[|s| - 1] == c then |s| - 1
    else
      assert s == s[..|s| - 1] + [s[|s| - 1]];
      var i := LastIndex(s[..|s| - 1], c);
      if i == |s| - 1 then |s| else i
  }

  lemma {:induction false} LastIndexAt(a: string, c: char, b: string)
    requires c !in b
    ensures LastIndex(a + [c] + b, c) == |a|
  {
    if b == "" {
      assert a + [c] + b == a + [c];
    } else {
      var init, last := b[..|b| - 1], b[|b| - 1];
      LastIndexAt(a, c, init);
      var s := a + [c] + init;
      assert a + [c] + b == s + [last] by { assert b == init + [last]; }
      assert (s + [last])[..|s|] == s;
    }
  }

  /** strings.ReplaceAll(s, "\r\n", "\n"). */
  function DropCarriageReturns(s: string): string {
    if |s| < 2 then s
    else if s[0] == '\r' && s[1] == '\n' then "\n" + DropCarriageReturns(s[2..])
    else [s[0]] + DropCarriageReturns(s[1..])
  }

  // ---- splitting around runs of separators ----

  lemma AppendGrouped(a: string, b: string, c: string, d: string)
    ensures (a + b) + c + d == a + (b + c + d)
  {
  }

  datatype Separator = White | Slash | EitherSlash {
    predicate At(c: char) {
      match this
      case White => IsSpace(c)
      case Slash => c == '/'
      case EitherSlash => c == '/' || c == '\\'
    }

    /** A field of FieldsFunc: non-empty and free of separators. */
    predicate Token(s: string) { s != "" && Free(s) }

    predicate Free(s: string) { forall i :: 0 <= i < |s| ==> !At(s[i]) }

    /** Length of the longest separator-free prefix. */
    function Run(s: string): (n: nat)
      ensures n <= |s| && Free(s[..n])
      ensures n < |s| ==> At(s[n])
    {
      if s == "" || At(s[0]) then 0
      else
        var n := 1 + Run(s[1..]);
        assert s[..n] == [s[0]] + s[1..][..n - 1];
        n
    }

    /** strings.Fields for White, strings.FieldsFunc for the slashes. */
    function Fields(s: string): (fields: seq<string>)
      ensures forall i :: 0 <= i < |fields| ==> Token(fields[i])
      decreases |s|
    {
      if s == "" then []
      else if At(s[0]) then Fields(s[1..])
      else
        var n := Run(s);
        [s[..n]] + Fields(s[n..])
    }

    lemma {:induction false} RunOf(t: string, rest: string)
      requires Free(t) && (rest == "" || At(rest[0]))
      ensures Run(t + rest) == |t|
    {
      if t == "" {
        assert t + rest == rest;
      } else {
        RunOf(t[1..], rest);
        assert (t + rest)[1..] == t[1..] + rest;
      }
    }

    lemma FieldsToken(t: string, rest: string)
      requires Token(t) && (rest == "" || At(rest[0]))
      ensures Fields(t + rest) == [t] + Fields(rest)
    {
      RunOf(t, rest);
      assert (t + rest)[..|t|] == t && (t + rest)[|t|..] == rest;
      assert (t + rest)[0] == t[0];
    }

    lemma FieldsOne(t: string)
      requires Token(t)
      ensures Fields(t) == [t]
    {
      FieldsToken(t, "");
      assert t + "" == t;
    }

    lemma FieldsSkip(c: char, s: string)
      requires At(c)
      ensures Fields([c] + s) == Fields(s)
    {
      assert ([c] + s)[1..] == s;
    }

    lemma {:induction false} FieldsJoin(ts: seq<string>, c: char)
      requires At(c)
      requires forall i :: 0 <= i < |ts| ==> Token(ts[i])
      ensures Fields(Join(ts, [c])) == ts
    {
      if |ts| == 1 {
        FieldsOne(ts[0]);
      } else if |ts| > 1 {
        var rest := Join(ts[1..], [c]);
        FieldsJoin(ts[1..], c);
        FieldsToken(ts[0], [c] + rest);
        FieldsSkip(c, rest);
        assert ts[0] + [c] + rest == ts[0] + ([c] + rest);
      }
    }

    /** A separator divides the fields before it from those after it. */
    lemma {:induction false} FieldsAcross(a: string, c: char, b: string)
      requires At(c)
      ensures Fields(a + [c] + b) == Fields(a) + Fields(b)
      decreases |a|
    {
      var s := a + [c] + b;
      if a == "" {
        FieldsSkip(c, b);
      } else if At(a[0]) {
        FieldsAcross(a[1..], c, b);
        assert s[1..] == a[1..] + [c] + b;
      } else {
        var n := Run(a);
        var rest := a[n..];
        FieldsAcross(rest, c, b);
        assert a == a[..n] + rest;
        AppendGrouped(a[..n], rest, [c], b);
        FieldsToken(a[..n], rest + [c] + b);
        FieldsToken(a[..n], rest);
      }
    }

    /** A separator at the end of the text adds no field. */
    lemma {:induction false} FieldsTail(s: string, c: char)
      requires At(c)
      ensures Fields(s + [c]) == Fields(s)
      decreases |s|
    {
      if s == "" {
        assert s + [c] == [c] && [c][1..] == "";
      } else if At(s[0]) {
        FieldsTail(s[1..], c);
        assert (s + [c])[1..] == s[1..] + [c];
      } else {
        var n := Run(s);
        var rest := s[n..];
        FieldsTail(rest, c);
        FieldsToken(s[..n], rest + [c]);
        FieldsToken(s[..n], rest);
        assert s == s[..n] + rest;
        assert s + [c] == s[..n] + (rest + [c]);
      }
    }
  }

  lemma {:induction false} FieldsTrimRight(s: string)
    ensures White.Fields(TrimRight(s)) == White.Fields(s)
  {
    if s == "" || !IsSpace(s[|s| - 1]) {
    } else {
      FieldsTrimRight(s[..|s| - 1]);
      White.FieldsTail(s[..|s| - 1], s[|s| - 1]);
      assert s == s[..|s| - 1] + [s[|s| - 1]];
    }
  }

  lemma {:induction false} FieldsTrimLeft(s: string)
    ensures White.Fields(TrimLeft(s)) == White.Fields(s)
  {
    if s == "" || !IsSpace(s[0]) {
    } else {
      FieldsTrimLeft(s[1..]);
    }
  }

  lemma FieldsTrim(s: string)
    ensures White.Fields(TrimSpace(s)) == White.Fields(s)
  {
    FieldsTrimRight(s);
    FieldsTrimLeft(TrimRight(s));
  }

  // ---- letter case, exact wherever the result is compared with ASCII text ----

  /** unicode.ToLower on the characters that it maps to ASCII; other characters are kept. */
  function LowerChar(c: char): char {
    if 'A' <= c <= 'Z' then (c as int + 32) as char
    else if c == '\U{0130}' then 'i'
    else if c == '\U{212A}' then 'k'
    else c
  }

  function ToLower(s: string): string { seq(|s|, i requires 0 <= i < |s| => LowerChar(s[i])) }

  /** The ASCII representative of a character under simple case folding. */
  function FoldChar(c: char): char {
    if 'A' <= c <= 'Z' then (c as int + 32) as char
    else if c == '\U{017F}' then 's'
    else if c == '\U{212A}' then 'k'
    else c
  }

  /** On ASCII text both maps change upper-case letters to lower case, and nothing else. */
  lemma AsciiCase(c: char)
    requires c < '\U{0080}'
    ensures LowerChar(c) == FoldChar(c)
    ensures LowerChar(c) as int == if 'A' <= c <= 'Z' then c as int - 'A' as int + 'a' as int else c as int
  {
  }

  /** strings.EqualFold(s, word) for a lower-case ASCII word. */
  predicate EqualFold(s: string, word: string) {
    |s| == |word| && forall i :: 0 <= i < |s| ==> FoldChar(s[i]) == word[i]
  }
}

/** Applying a list-valued function to each element in turn. */
module Seqs {
  function FlatMap<A, B>(f: A -> seq<B>, xs: seq<A>): seq<B> {
    if xs == [] then [] else f(xs[0]) + FlatMap(f, xs[1..])
  }

  lemma Regroup<B>(header: seq<B>, xs: seq<B>, ys: seq<B>)
    ensures header + xs + ys == header + (xs + ys)
  {
  }

  lemma {:induction false} FlatMapConcat<A, B>(f: A -> seq<B>, a: seq<A>, b: seq<A>)
    ensures FlatMap(f, a + b) == FlatMap(f, a) + FlatMap(f, b)
  {
    if a == [] {
      assert a + b == b;
    } else {
      FlatMapConcat(f, a[1..], b);
      assert (a + b)[1..] == a[1..] + b;
      Regroup(f(a[0]), FlatMap(f, a[1..]), FlatMap(f, b));
    }
  }

  lemma FlatMapOne<A, B>(f: A -> seq<B>, x: A)
    ensures FlatMap(f, [x]) == f(x)
  {
    assert [x][1..] == [];
  }

  lemma FlatMapSnoc<A, B>(f: A -> seq<B>, xs: seq<A>, i: nat)
    requires i < |xs|
    ensures FlatMap(f, xs[..i + 1]) == FlatMap(f, xs[..i]) + f(xs[i])
  {
    FlatMapConcat(f, xs[..i], [xs[i]]);
    FlatMapOne(f, xs[i]);
    assert xs[..i + 1] == xs[..i] + [xs[i]];
  }

  lemma {:induction false} FlatMapMember<A, B>(f: A -> seq<B>, xs: seq<A>, y: B) returns (x: A)
    requires y in FlatMap(f, xs)
    ensures x in xs && y in f(x)
  {
    if y in f(xs[0]) {
      x := xs[0];
    } else {
      x := FlatMapMember(f, xs[1..], y);
    }
  }

  function Fold<A, B>(f: (A, B) -> A, acc: A, xs: seq<B>): A
    decreases |xs|
  {
    if xs == [] then acc else Fold(f, f(acc, xs[0]), xs[1..])
  }

  lemma {:induction false} FoldConcat<A, B>(f: (A, B) -> A, acc: A, a: seq<B>, b: seq<B>)
    ensures Fold(f, acc, a + b) == Fold(f, Fold(f, acc, a), b)
    decreases |a|
  {
    if a == [] {
      assert a + b == b;
    } else {
      FoldConcat(f, f(acc, a[0]), a[1..], b);
      assert (a + b)[1..] == a[1..] + b;
    }
  }

  lemma FoldOne<A, B>(f: (A, B) -> A, acc: A, x: B)
    ensures Fold(f, acc, [x]) == f(acc, x)
  {
    assert [x][1..] == [];
  }

  /** If reading the pieces printed for each element appends that element's records, reading all the
      pieces appends all the records in order. */
  lemma {:induction false} FoldFlatMap<A(!new), B, C(!new)>(f: (seq<C>, B) -> seq<C>, pieces: A -> seq<B>, record: A -> seq<C>,
                                                     acc: seq<C>, xs: seq<A>)
    requires forall s, x :: x in xs ==> Fold(f, s, pieces(x)) == s + record(x)
    ensures Fold(f, acc, FlatMap(pieces, xs)) == acc + FlatMap(record, xs)
    decreases |xs|
  {
    if xs == [] {
    } else {
      FoldConcat(f, acc, pieces(xs[0]), FlatMap(pieces, xs[1..]));
      FoldFlatMap(f, pieces, record, acc + record(xs[0]), xs[1..]);
      Regroup(acc, record(xs[0]), FlatMap(record, xs[1..]));
    }
  }

  lemma {:induction false} FlatMapFlatMap<A(!new), B, C>(read: B -> seq<C>, pieces: A -> seq<B>, record: A -> seq<C>, xs: seq<A>)
    requires forall x :: x in xs ==> FlatMap(read, pieces(x)) == record(x)
    ensures FlatMap(read, FlatMap(pieces, xs)) == FlatMap(record, xs)
  {
    if xs == [] {
    } else {
      FlatMapConcat(read, pieces(xs[0]), FlatMap(pieces, xs[1..]));
      FlatMapFlatMap(read, pieces, record, xs[1..]);
    }
  }

  lemma {:induction false} FlatMapSingle<A(!new)>(single: A -> seq<A>, xs: seq<A>)
    requires forall x :: single(x) == [x]
    ensures FlatMap(single, xs) == xs
  {
    if xs == [] {
    } else {
      FlatMapSingle(single, xs[1..]);
    }
  }
}
