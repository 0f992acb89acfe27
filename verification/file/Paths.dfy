/** Slash-separated paths as Go's path/filepath treats them on Unix. */
module Paths {
  import opened Text

  /** A component of a cleaned absolute path. */
  predicate Component(n: string) { n != "" && '/' !in n && n != "." && n != ".." }

  predicate Components(cs: seq<string>) { forall i :: 0 <= i < |cs| ==> Component(cs[i]) }

  /** The text of an absolute path. */
  function Absolute(cs: seq<string>): string { "/" + Join(cs, "/") }

  predicate IsAbs(path: string) { HasPrefix(path, "/") }

  /** Elements are dropped, popped or kept from left to right. */
  function CleanStep(rooted: bool, acc: seq<string>, e: string): seq<string> {
    if e == "" || e == "." then acc
    else if e != ".." then acc + [e]
    else if acc != [] && acc[|acc| - 1] != ".." then acc[..|acc| - 1]
    else if rooted then acc
    else acc + [".."]
  }

  function CleanAll(rooted: bool, acc: seq<string>, elems: seq<string>): seq<string>
    decreases |elems|
  {
    if elems == [] then acc else CleanAll(rooted, CleanStep(rooted, acc, elems[0]), elems[1..])
  }

  /** filepath.Clean. */
  function Clean(path: string): string {
    var cs := CleanAll(IsAbs(path), [], Split(path, '/'));
    if IsAbs(path) then Absolute(cs) else if cs == [] then "." else Join(cs, "/")
  }

  /** filepath.Join of two elements, the first of which is not empty. */
  function JoinPath(a: string, b: string): string
    requires a != ""
  {
    if b == "" then Clean(a) else Clean(a + "/" + b)
  }

  /** filepath.Dir. */
  function Dir(path: string): string {
    var i := LastIndex(path, '/');
    Clean(if i < |path| then path[..i + 1] else "")
  }

  /** The components of an absolute path, cleaned. */
  function Parts(path: string): seq<string> { CleanAll(true, [], Split(path, '/')) }

  lemma {:induction false} CleanAllComponents(acc: seq<string>, elems: seq<string>)
    requires Components(acc) && forall i :: 0 <= i < |elems| ==> '/' !in elems[i]
    ensures Components(CleanAll(true, acc, elems))
    decreases |elems|
  {
    if elems == [] {
    } else {
      CleanAllComponents(CleanStep(true, acc, elems[0]), elems[1..]);
    }
  }

  /** Cleaning an absolute path gives an absolute path made of proper components. */
  lemma CleanIsAbsolute(path: string)
    requires IsAbs(path)
    ensures Clean(path) == Absolute(Parts(path)) && Components(Parts(path))
  {
    SplitPieces(path, '/');
    CleanAllComponents([], Split(path, '/'));
  }

  lemma {:induction false} CleanAllKeeps(acc: seq<string>, cs: seq<string>)
    requires Components(cs)
    ensures CleanAll(true, acc, cs) == acc + cs
    decreases |cs|
  {
    if cs == [] {
    } else {
      CleanAllKeeps(acc + [cs[0]], cs[1..]);
      assert acc + [cs[0]] + cs[1..] == acc + cs;
    }
  }

  lemma {:induction false} CleanAllConcat(acc: seq<string>, a: seq<string>, b: seq<string>)
    ensures CleanAll(true, acc, a + b) == CleanAll(true, CleanAll(true, acc, a), b)
    decreases |a|
  {
    if a == [] {
      assert a + b == b;
    } else {
      CleanAllConcat(CleanStep(true, acc, a[0]), a[1..], b);
      assert (a + b)[1..] == a[1..] + b;
    }
  }

  lemma SplitAbsolute(cs: seq<string>)
    requires Components(cs)
    ensures Split(Absolute(cs), '/') == [""] + (if cs == [] then [""] else cs)
  {
    SplitFirst("", '/', Join(cs, "/"));
    assert Absolute(cs) == "" + ['/'] + Join(cs, "/");
    if cs != [] {
      SplitJoin(cs, '/');
    }
  }

  /** The text of an absolute path determines its components. */
  lemma PartsOfAbsolute(cs: seq<string>)
    requires Components(cs)
    ensures Parts(Absolute(cs)) == cs && Clean(Absolute(cs)) == Absolute(cs)
  {
    SplitAbsolute(cs);
    CleanAllKeeps([], cs);
    CleanAllConcat([], [""], if cs == [] then [""] else cs);
  }

  lemma CleanIdempotent(path: string)
    requires IsAbs(path)
    ensures Clean(Clean(path)) == Clean(path)
  {
    CleanIsAbsolute(path);
    PartsOfAbsolute(Parts(path));
  }

  lemma {:induction false} JoinSnoc(cs: seq<string>, c: string)
    requires cs != []
    ensures Join(cs + [c], "/") == Join(cs, "/") + "/" + c
  {
    if |cs| == 1 {
      assert cs + [c] == [cs[0], c];
      assert [cs[0], c][1..] == [c];
    } else {
      JoinSnoc(cs[1..], c);
      assert (cs + [c])[1..] == cs[1..] + [c];
      assert cs[0] + "/" + (Join(cs[1..], "/") + "/" + c) == cs[0] + "/" + Join(cs[1..], "/") + "/" + c;
    }
  }

  /** Dir of a cleaned absolute path drops the last component; the root is its own parent. */
  lemma DirOfAbsolute(cs: seq<string>)
    requires Components(cs)
    ensures cs == [] ==> Dir(Absolute(cs)) == Absolute(cs)
    ensures cs != [] ==> Dir(Absolute(cs)) == Absolute(cs[..|cs| - 1]) && Dir(Absolute(cs)) != Absolute(cs)
  {
    if cs == [] {
      DirAt("", "");
      assert Absolute([]) == "" + ['/'] + "";
      CleanWithSlash([]);
    } else {
      var init, last := cs[..|cs| - 1], cs[|cs| - 1];
      var front := if init == [] then "" else Absolute(init);
      LastComponent(init, last, front);
      assert cs == init + [last];
      DirAt(front, last);
      CleanWithSlash(init);
      PartsOfAbsolute(cs);
      PartsOfAbsolute(init);
    }
  }

  lemma LastComponent(init: seq<string>, last: string, front: string)
    requires front == if init == [] then "" else Absolute(init)
    ensures Absolute(init + [last]) == front + ['/'] + last
    ensures front + "/" == if init == [] then "/" else Absolute(init) + "/"
  {
    if init == [] {
      assert [] + [last] == [last];
    } else {
      JoinSnoc(init, last);
    }
  }

  lemma DirAt(front: string, last: string)
    requires '/' !in last
    ensures Dir(front + ['/'] + last) == Clean(front + "/")
  {
    LastIndexAt(front, '/', last);
    assert (front + ['/'] + last)[..|front| + 1] == front + "/";
  }

  lemma CleanWithSlash(cs: seq<string>)
    requires Components(cs)
    ensures Clean(if cs == [] then "/" else Absolute(cs) + "/") == Absolute(cs)
  {
    PartsOfAbsolute(cs);
    if cs == [] {
      assert Absolute([]) == "/";
    } else {
      SplitConcat(Absolute(cs), '/', "");
      assert Absolute(cs) + ['/'] + "" == Absolute(cs) + "/";
      CleanAllConcat([], Split(Absolute(cs), '/'), [""]);
    }
  }

  // ---- staying under a root ----

  /** The string test of safePath. */
  predicate InRoot(root: string, path: string) {
    root == "/" || HasPrefix(path, root + "/") || path == root
  }

  lemma {:induction false} JoinConcat(a: seq<string>, b: seq<string>)
    requires a != [] && b != []
    ensures Join(a + b, "/") == Join(a, "/") + "/" + Join(b, "/")
  {
    if |a| == 1 {
      assert (a + b)[1..] == b;
    } else {
      JoinConcat(a[1..], b);
      assert (a + b)[1..] == a[1..] + b;
      assert a[0] + "/" + (Join(a[1..], "/") + "/" + Join(b, "/")) == a[0] + "/" + Join(a[1..], "/") + "/" + Join(b, "/");
    }
  }

  /** On cleaned absolute paths the string test decides whether the root's components are a prefix. */
  lemma InRootIffPrefix(rs: seq<string>, cs: seq<string>)
    requires Components(rs) && Components(cs)
    ensures InRoot(Absolute(rs), Absolute(cs)) <==> rs <= cs
  {
    var root, path := Absolute(rs), Absolute(cs);
    PartsOfAbsolute(rs);
    PartsOfAbsolute(cs);
    PartsOfAbsolute([]);
    assert root == "/" <==> rs == [] by { assert Absolute([]) == "/"; }
    if rs != [] && rs <= cs && rs != cs {
      var rest := cs[|rs|..];
      assert cs == rs + rest;
      JoinConcat(rs, rest);
      assert path == root + "/" + Join(rest, "/");
    }
    if rs != [] && HasPrefix(path, root + "/") {
      var tail := path[|root| + 1..];
      assert path == root + ['/'] + tail;
      SplitConcat(root, '/', tail);
      SplitAbsolute(rs);
      SplitAbsolute(cs);
      assert Split(path, '/') == [""] + rs + Split(tail, '/');
      PrefixOfPieces(rs, cs, Split(tail, '/'));
    }
  }

  lemma PrefixOfPieces(rs: seq<string>, cs: seq<string>, tail: seq<string>)
    requires rs != [] && |tail| >= 1 && Components(rs)
    requires [""] + (if cs == [] then [""] else cs) == [""] + rs + tail
    ensures rs <= cs
  {
    var xs := if cs == [] then [""] else cs;
    assert xs == ([""] + xs)[1..] == ([""] + rs + tail)[1..] == rs + tail;
  }

  // ---- what cleaning does ----

  /** Names without a slash: what stands between the slashes of a path. */
  predicate Elements(es: seq<string>) { forall i :: 0 <= i < |es| ==> '/' !in es[i] }

  lemma PartsOfElements(es: seq<string>)
    requires Elements(es)
    ensures Parts(Absolute(es)) == CleanAll(true, [], es) && Clean(Absolute(es)) == Absolute(Parts(Absolute(es)))
  {
    assert Absolute(es) == "" + ['/'] + Join(es, "/");
    SplitFirst("", '/', Join(es, "/"));
    CleanIsAbsolute(Absolute(es));
    if es != [] {
      SplitJoin(es, '/');
      CleanAllConcat([], [""], es);
    } else {
      CleanAllConcat([], [""], [""]);
    }
  }

  /** Two paths that differ in some elements only, which step alike from wherever they start. */
  lemma StepAlike(a: seq<string>, x: seq<string>, y: seq<string>, b: seq<string>)
    requires Elements(a) && Elements(x) && Elements(y) && Elements(b)
    requires forall acc :: Components(acc) ==> CleanAll(true, acc, x) == CleanAll(true, acc, y)
    ensures Clean(Absolute(a + x + b)) == Clean(Absolute(a + y + b))
  {
    var acc := CleanAll(true, [], a);
    CleanAllComponents([], a);
    CleanAllConcat([], a + x, b);
    CleanAllConcat([], a, x);
    CleanAllConcat([], a + y, b);
    CleanAllConcat([], a, y);
    PartsOfElements(a + x + b);
    PartsOfElements(a + y + b);
  }

  /** An empty element and "." mean nothing. */
  lemma DotMeansNothing(a: seq<string>, e: string, b: seq<string>)
    requires Elements(a) && Elements(b) && (e == "" || e == ".")
    ensures Clean(Absolute(a + [e] + b)) == Clean(Absolute(a + b))
  {
    StepAlike(a, [e], [], b);
    assert a + [] + b == a + b;
  }

  /** A name followed by ".." means nothing. */
  lemma UpUndoesName(a: seq<string>, name: string, b: seq<string>)
    requires Elements(a) && Elements(b) && Component(name)
    ensures Clean(Absolute(a + [name, ".."] + b)) == Clean(Absolute(a + b))
  {
    forall acc | Components(acc) ensures CleanAll(true, acc, [name, ".."]) == CleanAll(true, acc, []) {
      assert [name, ".."][1..] == [".."] && [".."][1..] == [];
      assert CleanStep(true, CleanStep(true, acc, name), "..") == acc;
    }
    StepAlike(a, [name, ".."], [], b);
    assert a + [] + b == a + b;
  }

  /** ".." at the file system's root means nothing. */
  lemma UpFromRoot(b: seq<string>)
    requires Elements(b)
    ensures Clean(Absolute([".."] + b)) == Clean(Absolute(b))
  {
    CleanAllConcat([], [".."], b);
    assert CleanAll(true, [], [".."]) == [] by { assert [".."][1..] == []; }
    PartsOfElements([".."] + b);
    PartsOfElements(b);
  }
}
