/** internal/service/file: path confinement and the five operations that change the file system. */
module FileManager {
  import opened Wrappers
  import opened Text
  import opened Paths
  import opened Tree

  /** The cleaned absolute path that a request denotes. */
  function Requested(root: string, path: string): string
    requires root != ""
  {
    Clean(if IsAbs(path) then path else JoinPath(root, path))
  }

  /** A relative path is looked up below the root: element by element from there. */
  lemma RequestedBelow(rs: seq<string>, es: seq<string>)
    requires Components(rs) && Elements(es) && es != [] && es[0] != ""
    ensures Requested(Absolute(rs), Join(es, "/")) == Clean(Absolute(rs + es))
  {
    var path := Join(es, "/");
    RelativeStart(es);
    JoinedBelow(rs, es);
    assert Elements(rs + es);
    PartsOfElements(rs + es);
    CleanIdempotent(Absolute(rs + es));
  }

  lemma RelativeStart(es: seq<string>)
    requires Elements(es) && es != [] && es[0] != ""
    ensures Join(es, "/") != "" && !IsAbs(Join(es, "/"))
  {
    assert Join(es, "/")[0] == es[0][0] && es[0][0] in es[0];
  }

  lemma JoinedBelow(rs: seq<string>, es: seq<string>)
    requires Components(rs) && Elements(es) && es != []
    ensures Clean(Absolute(rs) + "/" + Join(es, "/")) == Clean(Absolute(rs + es))
  {
    if rs == [] {
      assert [] + es == es;
      JoinedAtTop(es);
    } else {
      JoinedDeeper(rs, es);
    }
  }

  lemma JoinedAtTop(es: seq<string>)
    requires Elements(es) && es != []
    ensures Clean(Absolute([]) + "/" + Join(es, "/")) == Clean(Absolute(es))
  {
    SlashInFront(es);
    DotMeansNothing([], "", es);
    assert [] + [""] + es == [""] + es && [] + es == es;
  }

  lemma SlashInFront(es: seq<string>)
    requires es != []
    ensures Absolute([]) + "/" + Join(es, "/") == Absolute([""] + es)
  {
    var e := Join(es, "/");
    assert ([""] + es)[1..] == es;
    assert Join([""] + es, "/") == "" + "/" + e;
    assert "" + "/" + e == "/" + e;
    assert Join([], "/") == "" && "/" + "" == "/";
    assert "/" + "/" + e == "/" + ("/" + e);
  }

  lemma JoinedDeeper(rs: seq<string>, es: seq<string>)
    requires rs != [] && es != []
    ensures Absolute(rs) + "/" + Join(es, "/") == Absolute(rs + es)
  {
    JoinConcat(rs, es);
    var r, e := Join(rs, "/"), Join(es, "/");
    assert "/" + r + "/" + e == "/" + (r + "/" + e);
  }

  /** What a relative path denotes, and when it is accepted. */
  lemma RelativePath(rs: seq<string>, t: Nodes, links: nat, ps: seq<string>)
    requires Components(rs) && Components(ps) && ps != []
    ensures SafePathResult(rs, t, links, Join(ps, "/")) ==
            if Accepts(rs, t, links, rs + ps) then Ok(Absolute(rs + ps)) else Err(Forbidden)
  {
    RequestedBelow(rs, ps);
    PartsOfAbsolute(rs + ps);
  }

  /** The empty path and "." denote the root. */
  lemma EmptyPath(rs: seq<string>, t: Nodes, links: nat)
    requires Components(rs)
    ensures SafePathResult(rs, t, links, "") == if Accepts(rs, t, links, rs) then Ok(Absolute(rs)) else Err(Forbidden)
    ensures SafePathResult(rs, t, links, ".") == SafePathResult(rs, t, links, "")
  {
    PartsOfAbsolute(rs);
    RequestedBelow(rs, ["."]);
    DotMeansNothing(rs, ".", []);
    assert rs + ["."] + [] == rs + ["."] && rs + [] == rs;
  }

  /** An absolute path denotes itself. */
  lemma AbsolutePath(rs: seq<string>, t: Nodes, links: nat, cs: seq<string>)
    requires Components(rs) && Components(cs)
    ensures SafePathResult(rs, t, links, Absolute(cs)) ==
            if Accepts(rs, t, links, cs) then Ok(Absolute(cs)) else Err(Forbidden)
  {
    PartsOfAbsolute(cs);
  }

  /** A name followed by ".." makes no difference in a relative path. */
  lemma RelativeUp(rs: seq<string>, t: Nodes, links: nat, a: seq<string>, name: string, b: seq<string>)
    requires Components(rs) && Components(a) && Component(name) && Components(b) && a + b != []
    ensures SafePathResult(rs, t, links, Join(a + [name, ".."] + b, "/")) ==
            SafePathResult(rs, t, links, Join(a + b, "/"))
  {
    RequestedUp(rs, a, name, b);
  }

  lemma RequestedUp(rs: seq<string>, a: seq<string>, name: string, b: seq<string>)
    requires Components(rs) && Components(a) && Component(name) && Components(b) && a + b != []
    ensures Requested(Absolute(rs), Join(a + [name, ".."] + b, "/")) == Requested(Absolute(rs), Join(a + b, "/"))
  {
    UpElements(a, name, b);
    RequestedBelow(rs, a + [name, ".."] + b);
    RequestedBelow(rs, a + b);
    UpUndoesName(rs + a, name, b);
    Reassociated(rs, a, [name, ".."], b);
  }

  lemma UpElements(a: seq<string>, name: string, b: seq<string>)
    requires Components(a) && Component(name) && Components(b) && a + b != []
    ensures var es := a + [name, ".."] + b;
            Elements(es) && es != [] && es[0] != ""
    ensures Elements(a + b) && (a + b)[0] != ""
  {
    var es := a + [name, ".."] + b;
    assert es[0] == (a + [name])[0];
  }

  lemma Reassociated(rs: seq<string>, a: seq<string>, x: seq<string>, b: seq<string>)
    ensures rs + (a + x + b) == rs + a + x + b && rs + (a + b) == rs + a + b
  {
  }

  /** Climbing above the root is Forbidden. */
  lemma ClimbingOut(rs: seq<string>, t: Nodes, links: nat)
    requires Components(rs) && rs != []
    ensures SafePathResult(rs, t, links, "..") == Err(Forbidden)
  {
    ParentRequested(rs[..|rs| - 1], rs[|rs| - 1]);
    assert rs == rs[..|rs| - 1] + [rs[|rs| - 1]];
    PartsOfAbsolute(rs[..|rs| - 1]);
  }

  lemma ParentRequested(init: seq<string>, last: string)
    requires Components(init) && Component(last)
    ensures Requested(Absolute(init + [last]), "..") == Absolute(init)
  {
    RequestedBelow(init + [last], [".."]);
    UpUndoesName(init, last, []);
    UpShape(init, last);
    PartsOfAbsolute(init);
  }

  lemma UpShape(init: seq<string>, last: string)
    ensures init + [last] + [".."] == init + [last, ".."] + []
    ensures init + [] == init
  {
  }

  lemma RequestedIsAbsolute(rs: seq<string>, path: string)
    requires Components(rs)
    ensures Components(Parts(Requested(Absolute(rs), path)))
    ensures Requested(Absolute(rs), path) == Absolute(Parts(Requested(Absolute(rs), path)))
  {
    var root := Absolute(rs);
    var abs := if IsAbs(path) then path else JoinPath(root, path);
    PartsOfAbsolute(rs);
    if !IsAbs(path) && path != "" {
      assert IsAbs(root + "/" + path);
      CleanIsAbsolute(root + "/" + path);
    }
    CleanIsAbsolute(abs);
    PartsOfAbsolute(Parts(abs));
  }

  function SafePathResult(rs: seq<string>, t: Nodes, links: nat, path: string): Result<string> {
    var cs := Parts(Requested(Absolute(rs), path));
    if Accepts(rs, t, links, cs) then Ok(Absolute(cs)) else Err(Forbidden)
  }

  /** A path that was accepted is accepted again as it is. */
  lemma SafePathIdempotent(rs: seq<string>, t: Nodes, links: nat, path: string)
    requires Components(rs)
    requires SafePathResult(rs, t, links, path).Ok?
    ensures SafePathResult(rs, t, links, SafePathResult(rs, t, links, path).value) ==
            SafePathResult(rs, t, links, path)
  {
    RequestedIsAbsolute(rs, path);
    PartsOfAbsolute(Parts(Requested(Absolute(rs), path)));
  }

  /** What an accepted path is made of. */
  lemma AcceptedParts(rs: seq<string>, t: Nodes, links: nat, path: string)
    requires Components(rs) && SafePathResult(rs, t, links, path).Ok?
    ensures var cs := Parts(SafePathResult(rs, t, links, path).value);
            Components(cs) && Accepts(rs, t, links, cs)
  {
    RequestedIsAbsolute(rs, path);
    PartsOfAbsolute(Parts(Requested(Absolute(rs), path)));
  }

  /** An accepted path is under the root in text. On disk, making directories never leaves the root, writing does
      not as long as no link on the path dangles, and a call on the directory entry does not as long as the entry is
      no link. */
  lemma AcceptedIsConfined(rs: seq<string>, t: Nodes, links: nat, path: string)
    requires Components(rs) && ProperTree(t) && SafePathResult(rs, t, links, path).Ok?
    ensures var cs := Parts(SafePathResult(rs, t, links, path).value);
            && rs <= cs
            && (forall p :: p in Tree.MkdirAll(t, cs, links).tree && p !in t ==> rs <= p)
            && (NoDanglingLink(t, cs, links) ==> Under(rs, Written(t, cs, links)))
            && (EntryAt(t, cs, links).Some? && !IsLink(t, EntryAt(t, cs, links).value) ==>
                  Under(rs, EntryAt(t, cs, links)))
  {
    AcceptedParts(rs, t, links, path);
    var cs := Parts(SafePathResult(rs, t, links, path).value);
    MkdirConfined(t, rs, cs, links);
    if NoDanglingLink(t, cs, links) { PhysicallyConfined(t, rs, cs, links); }
    if EntryAt(t, cs, links).Some? && !IsLink(t, EntryAt(t, cs, links).value) {
      PlainEntryConfined(t, rs, cs, links);
    }
  }

  lemma Evaluated(t: Nodes, cs: seq<string>, links: nat)
    requires ProperTree(t) && Components(cs)
    ensures EvalSymlinks(t, links, Absolute(cs)).Some? <==> Resolve(t, cs, links).Exists?
    ensures Resolve(t, cs, links).Exists? ==>
              var at := Resolve(t, cs, links).at;
              Components(at) && EvalSymlinks(t, links, Absolute(cs)) == Some(Absolute(at))
    ensures cs == [] ==> Resolve(t, cs, links).Exists?
  {
    PartsOfAbsolute(cs);
    FollowComponents(t, [], cs, links);
  }

  /** No ancestor with more than k components resolves. */
  ghost predicate NoneLonger(t: Nodes, cs: seq<string>, k: nat, links: nat) {
    forall j :: k < j <= |cs| ==> !Resolve(t, cs[..j], links).Exists?
  }

  /** One step up, when the current path does not resolve. */
  lemma StepUp(t: Nodes, cs: seq<string>, k: nat, links: nat)
    requires k <= |cs| && Components(cs) && NoneLonger(t, cs, k, links)
    requires EvalSymlinks(t, links, Absolute(cs[..k])).None?
    requires ProperTree(t)
    ensures k > 0 && NoneLonger(t, cs, k - 1, links)
    ensures Dir(Absolute(cs[..k])) == Absolute(cs[..k - 1]) != Absolute(cs[..k])
  {
    Evaluated(t, cs[..k], links);
    DirOfAbsolute(cs[..k]);
    assert cs[..k][..k - 1] == cs[..k - 1];
  }

  lemma AncestorAt(t: Nodes, cs: seq<string>, k: nat, links: nat)
    requires k <= |cs| && Resolve(t, cs[..k], links).Exists?
    requires NoneLonger(t, cs, k, links)
    ensures Ancestor(t, cs, links) == Resolve(t, cs[..k], links).at
  {
    assert Nearest(t, cs, links) == k;
  }

  datatype Call =
    | MkdirAll(path: string)
    | Remove(path: string)
    | RemoveAll(path: string)
    | Rename(src: string, dst: string)
    | CopyFile(src: string, dst: string)
    | WriteFile(path: string, data: string)
  {
    function Paths(): set<string> { if Rename? || CopyFile? then {src, dst} else {path} }

    /** The places at which the call changes the tree or a file's content, or reads a file that it copies. It may
        also fail and change nothing. */
    function Touched(t: Nodes, links: nat): set<seq<string>> {
      match this
      case MkdirAll(path) => Tree.MkdirAll(t, Parts(path), links).tree.Keys - t.Keys
      case WriteFile(path, _) => PlaceSet(Written(t, Parts(path), links))
      case CopyFile(src, dst) =>
        var from := Resolve(t, Parts(src), links);
        if from.Exists? then {from.at} + PlaceSet(Written(t, Parts(dst), links)) else {}
      case Remove(path) => PlaceSet(Present(t, Parts(path), links))
      case RemoveAll(path) => PlaceSet(Present(t, Parts(path), links))
      case Rename(src, dst) =>
        if Present(t, Parts(src), links).Some? && EntryAt(t, Parts(dst), links).Some? then
          PlaceSet(EntryAt(t, Parts(src), links)) + PlaceSet(EntryAt(t, Parts(dst), links))
        else {}
    }

    /** Something on a path takes the call outside: the written file, or the entry, is outside the root. */
    predicate Detoured(rs: seq<string>, t: Nodes, links: nat) {
      match this
      case MkdirAll(_) => false
      case WriteFile(path, _) => CreatesOutside(t, rs, Parts(path), links)
      case CopyFile(src, dst) => Resolve(t, Parts(src), links).Exists? && CreatesOutside(t, rs, Parts(dst), links)
      case Remove(path) => Present(t, Parts(path), links).Some? && EntryOutside(t, rs, Parts(path), links)
      case RemoveAll(path) => Present(t, Parts(path), links).Some? && EntryOutside(t, rs, Parts(path), links)
      case Rename(src, dst) =>
        && Present(t, Parts(src), links).Some? && EntryAt(t, Parts(dst), links).Some?
        && (EntryOutside(t, rs, Parts(src), links) || EntryOutside(t, rs, Parts(dst), links))
    }
  }

  function PlaceSet(place: Option<seq<string>>): set<seq<string>> { if place.Some? then {place.value} else {} }

  /** The entry of a path, when there is one. */
  function Present(t: Nodes, cs: seq<string>, links: nat): Option<seq<string>> {
    var entry := EntryAt(t, cs, links);
    if entry.Some? && entry.value in t then entry else None
  }

  ghost predicate AllUnder(rs: seq<string>, places: set<seq<string>>) { forall p :: p in places ==> rs <= p }

  lemma PlaceUnder(rs: seq<string>, place: Option<seq<string>>)
    ensures AllUnder(rs, PlaceSet(place)) <==> Under(rs, place)
  {
    if place.Some? { assert place.value in PlaceSet(place); }
  }

  lemma BothUnder(rs: seq<string>, a: set<seq<string>>, b: set<seq<string>>)
    ensures AllUnder(rs, a + b) <==> AllUnder(rs, a) && AllUnder(rs, b)
  {
    assert forall p :: p in a || p in b <==> p in a + b;
  }

  /** A call with accepted paths takes effect under the root only, exactly when it is not detoured. */
  lemma CallConfinedIff(rs: seq<string>, t: Nodes, links: nat, c: Call)
    requires ProperTree(t)
    requires forall p :: p in c.Paths() ==> Components(Parts(p)) && Accepts(rs, t, links, Parts(p))
    ensures AllUnder(rs, c.Touched(t, links)) <==> !c.Detoured(rs, t, links)
  {
    match c
    case MkdirAll(path) =>
      MkdirConfined(t, rs, Parts(path), links);
    case WriteFile(path, _) =>
      WrittenConfinedIff(t, rs, Parts(path), links);
      PlaceUnder(rs, Written(t, Parts(path), links));
    case CopyFile(src, dst) =>
      CopyConfinedIff(rs, t, links, src, dst);
    case Remove(path) =>
      PresentConfinedIff(t, rs, Parts(path), links);
    case RemoveAll(path) =>
      PresentConfinedIff(t, rs, Parts(path), links);
    case Rename(src, dst) =>
      RenameConfinedIff(rs, t, links, src, dst);
  }

  lemma CopyConfinedIff(rs: seq<string>, t: Nodes, links: nat, src: string, dst: string)
    requires ProperTree(t) && Components(Parts(dst))
    requires Accepts(rs, t, links, Parts(src)) && Accepts(rs, t, links, Parts(dst))
    ensures var c := Call.CopyFile(src, dst);
            AllUnder(rs, c.Touched(t, links)) <==> !c.Detoured(rs, t, links)
  {
    var from, to := Resolve(t, Parts(src), links), Written(t, Parts(dst), links);
    if from.Exists? {
      ReadConfined(t, rs, Parts(src), links);
      WrittenConfinedIff(t, rs, Parts(dst), links);
      PlaceUnder(rs, to);
      BothUnder(rs, {from.at}, PlaceSet(to));
    }
  }

  lemma RenameConfinedIff(rs: seq<string>, t: Nodes, links: nat, src: string, dst: string)
    requires ProperTree(t) && Components(Parts(src)) && Components(Parts(dst))
    requires Accepts(rs, t, links, Parts(src)) && Accepts(rs, t, links, Parts(dst))
    ensures var c := Call.Rename(src, dst);
            AllUnder(rs, c.Touched(t, links)) <==> !c.Detoured(rs, t, links)
  {
    var from, to := EntryAt(t, Parts(src), links), EntryAt(t, Parts(dst), links);
    EntryConfinedIff(t, rs, Parts(src), links);
    EntryConfinedIff(t, rs, Parts(dst), links);
    PlaceUnder(rs, from);
    PlaceUnder(rs, to);
    BothUnder(rs, PlaceSet(from), PlaceSet(to));
  }

  lemma PresentConfinedIff(t: Nodes, rs: seq<string>, cs: seq<string>, links: nat)
    requires ProperTree(t) && Components(cs) && Accepts(rs, t, links, cs)
    ensures AllUnder(rs, PlaceSet(Present(t, cs, links))) <==>
            !(Present(t, cs, links).Some? && EntryOutside(t, rs, cs, links))
  {
    EntryConfinedIff(t, rs, cs, links);
    PlaceUnder(rs, Present(t, cs, links));
  }

  /** A file that is read through an accepted path is under the root. */
  lemma ReadConfined(t: Nodes, rs: seq<string>, cs: seq<string>, links: nat)
    requires Accepts(rs, t, links, cs)
    ensures var w := Resolve(t, cs, links);
            w.Exists? ==> rs <= w.at
  {
    assert cs[..|cs|] == cs;
  }

  /** The file system's answer to a call, and the tree afterwards. */
  datatype Effect = Effect(error: Option<bool>, tree: Nodes) {
    predicate Ok() { error.None? }

    predicate IsNotExist() { error == Some(true) }
  }

  /** What a rejected, failed or successful operation answers; only some operations tell missing files apart. */
  function ReplyTo(accepted: bool, e: Effect, tellsMissing: bool): Reply {
    if !accepted then Failed(Forbidden)
    else if e.Ok() then Nil
    else if tellsMissing && e.IsNotExist() then Failed(NotFound)
    else Failed(Internal)
  }

  /** A transfer goes from its source to its destination when both are accepted. */
  lemma TransferMeans(rs: seq<string>, t: Nodes, links: nat, src: string, dst: string, copy: bool)
    ensures Transferring(copy, src, dst) == if copy then Call.CopyFile(src, dst) else Call.Rename(src, dst)
    ensures BothEnds(src, dst) == src + "\U{2192}" + dst
    ensures var from, to := SafePathResult(rs, t, links, src), SafePathResult(rs, t, links, dst);
            && (SafeEndsResult(rs, t, links, src, dst).Ok? <==> from.Ok? && to.Ok?)
            && (from.Ok? && to.Ok? ==> SafeEndsResult(rs, t, links, src, dst).value == (from.value, to.value))
            && (from.Err? || to.Err? ==> SafeEndsResult(rs, t, links, src, dst).code == Forbidden)
  {
  }

  /** The codes apart. */
  lemma ReplyMeans(accepted: bool, e: Effect, tellsMissing: bool)
    ensures var r := ReplyTo(accepted, e, tellsMissing);
            && (r == Failed(Forbidden) <==> !accepted)
            && (r == Nil <==> accepted && e.error.None?)
            && (r == Failed(NotFound) <==> accepted && e.error == Some(true) && tellsMissing)
            && (r == Failed(Internal) <==> accepted && e.error.Some? && !(e.error == Some(true) && tellsMissing))
  {
  }

  function EventOf(source: string, action: string, target: string, r: Reply): AuditEvent {
    AuditEvent(source, action, target, r.Nil?, if r.Nil? then None else Some(r.code))
  }

  /** Both ends of a transfer, when both are accepted. */
  function SafeEndsResult(rs: seq<string>, t: Nodes, links: nat, src: string, dst: string): Result<(string, string)> {
    var from, to := SafePathResult(rs, t, links, src), SafePathResult(rs, t, links, dst);
    if from.Ok? && to.Ok? then Ok((from.value, to.value)) else Err(Forbidden)
  }

  function Transferring(copy: bool, src: string, dst: string): Call {
    if copy then Call.CopyFile(src, dst) else Call.Rename(src, dst)
  }

  /** How a transfer is named in the audit log. */
  function BothEnds(src: string, dst: string): string { src + "\U{2192}" + dst }

  /** An event tells of success without a code, or of failure with the code of the reply. */
  lemma EventMeans(source: string, action: string, target: string, code: ErrorCode)
    ensures EventOf(source, action, target, Nil) == AuditEvent(source, action, target, true, None)
    ensures EventOf(source, action, target, Failed(code)) == AuditEvent(source, action, target, false, Some(code))
  {
  }

  class Manager {
    const root: string
    ghost const rs: seq<string>
    const links: nat
    var tree: Nodes
    var calls: seq<Call>
    var log: seq<AuditEvent>

    /** Every path ever given to a mutating call lies under the root. */
    ghost predicate Valid()
      reads this
    {
      && Components(rs) && root == Absolute(rs)
      && ProperTree(tree)
      && forall c, p :: c in calls && p in c.Paths() ==> InRoot(root, p)
    }

    constructor (path: string, tree: Nodes, links: nat)
      requires path == "" || IsAbs(path)
      requires ProperTree(tree)
      ensures Valid() && this.tree == tree && this.links == links && calls == [] && log == []
      ensures root == Clean(if path == "" then "/" else path)
    {
      var given := if path == "" then "/" else path;
      CleanIsAbsolute(given);
      this.root, this.rs := Clean(given), Parts(given);
      this.tree, this.links, this.calls, this.log := tree, links, [], [];
    }

    /** safePath, on strings. */
    method SafePath(path: string) returns (r: Result<string>)
      requires Valid()
      ensures r == SafePathResult(rs, tree, links, path)
      ensures r.Ok? ==> InRoot(root, r.value)
    {
      var abs := path;
      if !IsAbs(path) {
        abs := JoinPath(root, path);
      }
      abs := Clean(abs);
      RequestedIsAbsolute(rs, path);
      ghost var cs := Parts(abs);
      InRootIffPrefix(rs, cs);
      var inside := Inside(abs);
      if !inside {
        return Err(Forbidden);
      }
      inside := AncestorInRoot(abs, cs);
      return if inside then Ok(abs) else Err(Forbidden);
    }

    /** The boundary check on a text. */
    method Inside(path: string) returns (inside: bool)
      ensures inside == InRoot(root, path)
    {
      if root != "/" && !HasPrefix(path, root + "/") && path != root {
        return false;
      }
      return true;
    }

    /** The loop of safePath: up from the path to the nearest ancestor that resolves. */
    method AncestorInRoot(abs: string, ghost cs: seq<string>) returns (inside: bool)
      requires Valid() && Components(cs) && abs == Absolute(cs)
      ensures inside <==> rs <= Ancestor(tree, cs, links)
    {
      var check := abs;
      ghost var k := |cs|;
      assert cs[..|cs|] == cs;
      while true
        invariant 0 <= k <= |cs| && check == Absolute(cs[..k])
        invariant NoneLonger(tree, cs, k, links)
        decreases k
      {
        var resolved := EvalSymlinks(tree, links, check);
        if resolved.Some? {
          Evaluated(tree, cs[..k], links);
          AncestorAt(tree, cs, k, links);
          InRootIffPrefix(rs, Ancestor(tree, cs, links));
          inside := Inside(resolved.value);
          return;
        }
        var parent := Dir(check);
        StepUp(tree, cs, k, links);
        if parent == check {
          return true;
        }
        check, k := parent, k - 1;
      }
    }

    method LogAudit(event: AuditEvent)
      modifies this`log
      ensures log == old(log) + [event]
    {
      log := log + [event];
    }

    method CallFS(c: Call, e: Effect)
      requires Valid() && ProperTree(e.tree) && forall p :: p in c.Paths() ==> InRoot(root, p)
      modifies this`calls, this`tree
      ensures Valid() && calls == old(calls) + [c] && tree == e.tree
    {
      calls, tree := calls + [c], e.tree;
    }

    method CallTransfer(copy: bool, src: string, dst: string, e: Effect)
      requires Valid() && ProperTree(e.tree) && InRoot(root, src) && InRoot(root, dst)
      modifies this`calls, this`tree
      ensures Valid() && calls == old(calls) + [Transferring(copy, src, dst)] && tree == e.tree
    {
      CallFS(Transferring(copy, src, dst), e);
    }

    /** The tail of Move, Copy and Remove: the audit event and the answer for a call's effect. */
    method Conclude(action: string, target: string, source: string, e: Effect) returns (r: Reply)
      modifies this`log
      ensures r == ReplyTo(true, e, true) && log == old(log) + [EventOf(source, action, target, r)]
    {
      if !e.Ok() {
        if e.IsNotExist() {
          LogAudit(AuditEvent(source, action, target, false, Some(NotFound)));
          return Failed(NotFound);
        }
        LogAudit(AuditEvent(source, action, target, false, Some(Internal)));
        return Failed(Internal);
      }
      LogAudit(AuditEvent(source, action, target, true, None));
      return Nil;
    }

    method Mkdir(path: string, source: string, e: Effect) returns (r: Reply)
      requires Valid() && ProperTree(e.tree)
      modifies this
      ensures Valid()
      ensures var abs := SafePathResult(rs, old(tree), links, path);
              && r == ReplyTo(abs.Ok?, e, false)
              && calls == old(calls) + (if abs.Ok? then [Call.MkdirAll(abs.value)] else [])
              && tree == (if abs.Ok? then e.tree else old(tree))
      ensures log == old(log) + [EventOf(source, "file.mkdir", path, r)]
    {
      var abs := SafePath(path);
      if abs.Err? {
        LogAudit(AuditEvent(source, "file.mkdir", path, false, Some(Forbidden)));
        return Failed(abs.code);
      }
      CallFS(Call.MkdirAll(abs.value), e);
      if !e.Ok() {
        LogAudit(AuditEvent(source, "file.mkdir", path, false, Some(Internal)));
        return Failed(Internal);
      }
      LogAudit(AuditEvent(source, "file.mkdir", path, true, None));
      return Nil;
    }

    method Remove(path: string, recursive: bool, source: string, e: Effect) returns (r: Reply)
      requires Valid() && ProperTree(e.tree)
      modifies this
      ensures Valid()
      ensures var abs := SafePathResult(rs, old(tree), links, path);
              && r == ReplyTo(abs.Ok?, e, true)
              && calls == old(calls) + (if abs.Err? then [] else if recursive then [Call.RemoveAll(abs.value)]
                                        else [Call.Remove(abs.value)])
              && tree == (if abs.Ok? then e.tree else old(tree))
      ensures log == old(log) + [EventOf(source, "file.remove", path, r)]
    {
      var abs := SafePath(path);
      if abs.Err? {
        LogAudit(AuditEvent(source, "file.remove", path, false, Some(Forbidden)));
        return Failed(abs.code);
      }
      if recursive {
        CallFS(Call.RemoveAll(abs.value), e);
      } else {
        CallFS(Call.Remove(abs.value), e);
      }
      r := Conclude("file.remove", path, source, e);
    }

    method SafeEnds(src: string, dst: string) returns (r: Result<(string, string)>)
      requires Valid()
      ensures r == SafeEndsResult(rs, tree, links, src, dst)
      ensures r.Ok? ==> InRoot(root, r.value.0) && InRoot(root, r.value.1)
    {
      var absSrc := SafePath(src);
      if absSrc.Err? {
        return Err(absSrc.code);
      }
      var absDst := SafePath(dst);
      if absDst.Err? {
        return Err(absDst.code);
      }
      return Ok((absSrc.value, absDst.value));
    }

    /** Move and Copy check both ends before they touch anything. */
    method Transfer(src: string, dst: string, copy: bool, source: string, e: Effect) returns (r: Reply)
      requires Valid() && ProperTree(e.tree)
      modifies this
      ensures Valid()
      ensures var ends := SafeEndsResult(rs, old(tree), links, src, dst);
              && r == ReplyTo(ends.Ok?, e, true)
              && calls == old(calls) + (if ends.Err? then [] else [Transferring(copy, ends.value.0, ends.value.1)])
              && tree == (if ends.Ok? then e.tree else old(tree))
      ensures log == old(log) + [EventOf(source, if copy then "file.copy" else "file.move",
                                         BothEnds(src, dst), r)]
    {
      var action := if copy then "file.copy" else "file.move";
      var target := BothEnds(src, dst);
      var ends := SafeEnds(src, dst);
      if ends.Err? {
        LogAudit(AuditEvent(source, action, target, false, Some(Forbidden)));
        return Failed(ends.code);
      }
      CallTransfer(copy, ends.value.0, ends.value.1, e);
      r := Conclude(action, target, source, e);
    }

    method Write(path: string, data: string, source: string, e: Effect) returns (r: Reply)
      requires Valid() && ProperTree(e.tree)
      modifies this
      ensures Valid()
      ensures var abs := SafePathResult(rs, old(tree), links, path);
              && r == ReplyTo(abs.Ok?, e, false)
              && calls == old(calls) + (if abs.Ok? then [Call.WriteFile(abs.value, data)] else [])
              && tree == (if abs.Ok? then e.tree else old(tree))
      ensures log == old(log) + [EventOf(source, "file.write", path, r)]
    {
      var abs := SafePath(path);
      if abs.Err? {
        LogAudit(AuditEvent(source, "file.write", path, false, Some(Forbidden)));
        return Failed(abs.code);
      }
      CallFS(Call.WriteFile(abs.value, data), e);
      if !e.Ok() {
        LogAudit(AuditEvent(source, "file.write", path, false, Some(Internal)));
        return Failed(Internal);
      }
      LogAudit(AuditEvent(source, "file.write", path, true, None));
      return Nil;
    }
  }
}
