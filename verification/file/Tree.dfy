/** A file system with symbolic links, and the resolution of paths in it. */
module Tree {
  import opened Wrappers
  import opened Paths

  /** A link holds the elements of its target, which may be "", "." or "..". */
  datatype Node = Folder | Regular | Link(absolute: bool, target: seq<string>)

  /** The root directory, [], always exists. */
  type Nodes = map<seq<string>, Node>

  /** Where following a path ends: at something that exists, at the first missing name with the names still to
      come, or in an error (a file used as a directory, or too many links). */
  datatype Walk = Exists(at: seq<string>, links: nat) | Absent(at: seq<string>, rest: seq<string>) | Broken

  function Parent(at: seq<string>): seq<string> { if at == [] then [] else at[..|at| - 1] }

  /** Following `todo` from the directory `at`, with at most `links` symbolic links on the way. */
  function Follow(t: Nodes, at: seq<string>, todo: seq<string>, links: nat): (w: Walk)
    ensures w.Absent? ==> w.rest != []
    decreases links, |todo|
  {
    if todo == [] then Exists(at, links)
    else if at in t && at != [] && t[at].Regular? then Broken
    else if todo[0] == "" || todo[0] == "." then Follow(t, at, todo[1..], links)
    else if todo[0] == ".." then Follow(t, Parent(at), todo[1..], links)
    else
      var next := at + [todo[0]];
      if next !in t then Absent(at, todo)
      else if t[next].Link? then
        if links == 0 then Broken
        else Follow(t, if t[next].absolute then [] else at, t[next].target + todo[1..], links - 1)
      else Follow(t, next, todo[1..], links)
  }

  function Resolve(t: Nodes, cs: seq<string>, links: nat): Walk { Follow(t, [], cs, links) }

  /** filepath.EvalSymlinks on an absolute path. */
  function EvalSymlinks(t: Nodes, links: nat, path: string): Option<string> {
    match Resolve(t, Parts(path), links)
    case Exists(at, _) => Some(Absolute(at))
    case _ => None
  }

  // ---- the system calls ----

  predicate IsFolder(t: Nodes, p: seq<string>) { p == [] || (p in t && t[p].Folder?) }

  /** open(2) with O_CREAT, for writing: a file that the path resolves to, or one missing name in an existing
      directory. A link at the end is followed, also when it dangles. */
  function Written(t: Nodes, cs: seq<string>, links: nat): Option<seq<string>> {
    match Resolve(t, cs, links)
    case Exists(at, _) => if IsFolder(t, at) then None else Some(at)
    case Absent(at, rest) => if |rest| == 1 then Some(at + rest) else None
    case Broken => None
  }

  /** Where a call takes effect that acts on a directory entry: the last name, looked up in what the rest of the
      path resolves to. A link under that name is not followed. */
  function EntryAt(t: Nodes, cs: seq<string>, links: nat): Option<seq<string>> {
    if cs == [] then Some([])
    else
      match Resolve(t, cs[..|cs| - 1], links)
      case Exists(at, _) => Some(at + [cs[|cs| - 1]])
      case _ => None
  }

  datatype Made = Made(tree: Nodes, ok: bool)

  /** mkdir(2): a free name in an existing directory. A link under that name is not followed. */
  function Mkdir(t: Nodes, cs: seq<string>, links: nat): Made {
    match EntryAt(t, cs, links)
    case None => Made(t, false)
    case Some(entry) =>
      if entry == [] || entry in t || !IsFolder(t, Parent(entry)) then Made(t, false)
      else Made(t[entry := Folder], true)
  }

  /** os.MkdirAll: nothing to do for a directory, an error for a file, else the parent first. */
  function MkdirAll(t: Nodes, cs: seq<string>, links: nat): Made {
    var w := Resolve(t, cs, links);
    if w.Exists? then Made(t, IsFolder(t, w.at)) else MadeIn(MkdirAll(t, cs[..|cs| - 1], links), cs, links)
  }

  /** The last directory, after its parent. If mkdir fails, a directory may be there all the same. */
  function MadeIn(up: Made, cs: seq<string>, links: nat): Made {
    if !up.ok then up
    else
      var m := Mkdir(up.tree, cs, links);
      var entry := EntryAt(up.tree, cs, links);
      if m.ok then m else Made(up.tree, entry.Some? && IsFolder(up.tree, entry.value))
  }

  /** A call that takes effect, takes effect under the root. */
  predicate Under(rs: seq<string>, place: Option<seq<string>>) { place.Some? ==> rs <= place.value }

  /** Every symbolic link met on the path leads to something. */
  ghost predicate NoDanglingLink(t: Nodes, cs: seq<string>, links: nat) {
    forall k :: 0 <= k < |cs| && Resolve(t, cs[..k], links).Exists?
                && IsLink(t, Resolve(t, cs[..k], links).at + [cs[k]])
                ==> Resolve(t, cs[..k + 1], links).Exists?
  }

  predicate IsLink(t: Nodes, p: seq<string>) { p in t && t[p].Link? }

  /** Names in the tree are proper components, and only directories have entries. */
  ghost predicate ProperTree(t: Nodes) {
    forall p :: p in t ==>
      && Components(p)
      && (|p| > 1 ==> Parent(p) in t && t[Parent(p)].Folder?)
      && (t[p].Link? ==> forall i :: 0 <= i < |t[p].target| ==> '/' !in t[p].target[i])
  }

  /** Following more names after a walk. */
  function Onward(t: Nodes, w: Walk, rest: seq<string>): Walk {
    match w
    case Exists(at, links) => Follow(t, at, rest, links)
    case Absent(at, before) => Absent(at, before + rest)
    case Broken => Broken
  }

  lemma {:induction false} FollowConcat(t: Nodes, at: seq<string>, a: seq<string>, b: seq<string>, links: nat)
    ensures Follow(t, at, a + b, links) == Onward(t, Follow(t, at, a, links), b)
    decreases links, |a|
  {
    if a == [] {
      assert a + b == b;
    } else if !(at in t && at != [] && t[at].Regular?) {
      assert (a + b)[1..] == a[1..] + b;
      if a[0] == "" || a[0] == "." {
        FollowConcat(t, at, a[1..], b, links);
      } else if a[0] == ".." {
        FollowConcat(t, Parent(at), a[1..], b, links);
      } else {
        var next := at + [a[0]];
        if next in t {
          if !t[next].Link? {
            FollowConcat(t, next, a[1..], b, links);
          } else if links > 0 {
            var target := t[next].target;
            FollowConcat(t, if t[next].absolute then [] else at, target + a[1..], b, links - 1);
            assert target + a[1..] + b == target + (a[1..] + b);
          }
        }
      }
    }
  }

  lemma {:induction false} FollowComponents(t: Nodes, at: seq<string>, todo: seq<string>, links: nat)
    requires ProperTree(t) && Components(at) && forall i :: 0 <= i < |todo| ==> '/' !in todo[i]
    ensures Follow(t, at, todo, links).Exists? ==> Components(Follow(t, at, todo, links).at)
    decreases links, |todo|
  {
    if todo == [] {
    } else if !(at in t && at != [] && t[at].Regular?) {
      if todo[0] == "" || todo[0] == "." {
        FollowComponents(t, at, todo[1..], links);
      } else if todo[0] == ".." {
        FollowComponents(t, Parent(at), todo[1..], links);
      } else {
        var next := at + [todo[0]];
        if next in t {
          if !t[next].Link? {
            FollowComponents(t, next, todo[1..], links);
          } else if links > 0 {
            FollowComponents(t, if t[next].absolute then [] else at, t[next].target + todo[1..], links - 1);
          }
        }
      }
    }
  }

  // ---- the nearest existing ancestor ----

  /** How many leading components the nearest existing ancestor has. */
  function Nearest(t: Nodes, cs: seq<string>, links: nat): (k: nat)
    ensures k <= |cs| && Resolve(t, cs[..k], links).Exists?
    ensures forall j :: k < j <= |cs| ==> !Resolve(t, cs[..j], links).Exists?
  {
    if Resolve(t, cs, links).Exists? then
      assert cs[..|cs|] == cs;
      |cs|
    else
      var k := Nearest(t, cs[..|cs| - 1], links);
      assert forall j :: 0 <= j < |cs| ==> cs[..|cs| - 1][..j] == cs[..j];
      assert cs[..|cs|] == cs;
      k
  }

  /** Where the nearest existing ancestor physically is. */
  function Ancestor(t: Nodes, cs: seq<string>, links: nat): seq<string> {
    Resolve(t, cs[..Nearest(t, cs, links)], links).at
  }

  /** A path that resolves is its own nearest ancestor. */
  lemma NearestWhole(t: Nodes, cs: seq<string>, links: nat)
    requires Resolve(t, cs, links).Exists?
    ensures Nearest(t, cs, links) == |cs| && Ancestor(t, cs, links) == Resolve(t, cs, links).at
  {
    assert cs[..|cs|] == cs;
  }

  /** Climbing from a path below an existing root stops at the root at the latest. */
  lemma NeverAboveRoot(t: Nodes, rs: seq<string>, cs: seq<string>, links: nat)
    requires rs <= cs && Resolve(t, rs, links).Exists?
    ensures Nearest(t, cs, links) >= |rs|
  {
    assert cs[..|rs|] == rs;
  }

  /** What safePath decides, in terms of components: the root is a prefix of the requested path, and of the
      place that its nearest existing ancestor resolves to. */
  predicate Accepts(rs: seq<string>, t: Nodes, links: nat, cs: seq<string>) {
    rs <= cs && rs <= Ancestor(t, cs, links)
  }

  // ---- where calls take effect ----

  /** Where the target of a link leads, from the directory that holds the link. */
  function LinkTarget(t: Nodes, at: seq<string>, link: Node, links: nat): Walk
    requires link.Link?
  {
    if links == 0 then Broken
    else Follow(t, if link.absolute then [] else at, link.target, links - 1)
  }

  /** One step into an existing directory or onto a link. */
  lemma OneStep(t: Nodes, at: seq<string>, name: string, rest: seq<string>, links: nat)
    requires Component(name) && !(at in t && at != [] && t[at].Regular?)
    ensures var next := at + [name];
            Follow(t, at, [name] + rest, links) ==
            if next !in t then Absent(at, [name] + rest)
            else if !t[next].Link? then Follow(t, next, rest, links)
            else if links == 0 then Broken
            else Follow(t, if t[next].absolute then [] else at, t[next].target + rest, links - 1)
  {
    assert ([name] + rest)[0] == name && ([name] + rest)[1..] == rest;
  }

  /** Where the component after the nearest existing ancestor is. */
  function Next(t: Nodes, cs: seq<string>, links: nat): seq<string>
    requires Nearest(t, cs, links) < |cs|
  {
    Ancestor(t, cs, links) + [cs[Nearest(t, cs, links)]]
  }

  /** Where the link under that component leads. */
  function NextTarget(t: Nodes, cs: seq<string>, links: nat): Walk
    requires Nearest(t, cs, links) < |cs| && IsLink(t, Next(t, cs, links))
  {
    var r := Resolve(t, cs[..Nearest(t, cs, links)], links);
    LinkTarget(t, r.at, t[Next(t, cs, links)], r.links)
  }

  /** Stepping onto a link is going where it leads and on from there. */
  lemma AtLink(t: Nodes, at: seq<string>, name: string, rest: seq<string>, links: nat)
    requires Component(name) && IsFolder(t, at) && IsLink(t, at + [name])
    ensures Follow(t, at, [name] + rest, links) == Onward(t, LinkTarget(t, at, t[at + [name]], links), rest)
  {
    var link := t[at + [name]];
    OneStep(t, at, name, rest, links);
    if links > 0 { FollowConcat(t, if link.absolute then [] else at, link.target, rest, links - 1); }
  }

  /** The directory of an entry that is in the tree. */
  lemma EntryFolder(t: Nodes, at: seq<string>, name: string)
    requires ProperTree(t) && at + [name] in t
    ensures IsFolder(t, at)
  {
    assert Parent(at + [name]) == at;
  }

  /** If that component is a link, it leads to nothing, and the path goes on from there. */
  lemma PastLink(t: Nodes, cs: seq<string>, links: nat)
    requires ProperTree(t) && Components(cs)
    requires Nearest(t, cs, links) < |cs| && IsLink(t, Next(t, cs, links))
    ensures !NextTarget(t, cs, links).Exists?
    ensures Resolve(t, cs, links) == Onward(t, NextTarget(t, cs, links), cs[Nearest(t, cs, links) + 1..])
  {
    var k := Nearest(t, cs, links);
    var r := Resolve(t, cs[..k], links);
    FromAncestor(t, cs, links);
    EntryFolder(t, r.at, cs[k]);
    AtLink(t, r.at, cs[k], cs[k + 1..], r.links);
    AtLink(t, r.at, cs[k], [], r.links);
  }

  /** A name that is no link: below a file it is an error, else it is missing or resolves. */
  lemma AtName(t: Nodes, at: seq<string>, name: string, rest: seq<string>, links: nat)
    requires Component(name) && !IsLink(t, at + [name])
    requires IsFolder(t, at) || (at in t && t[at].Regular?)
    ensures Follow(t, at, [name] + rest, links) ==
            if !IsFolder(t, at) then Broken
            else if at + [name] !in t then Absent(at, [name] + rest)
            else Follow(t, at + [name], rest, links)
  {
    assert ([name] + rest)[0] == name && ([name] + rest)[1..] == rest;
  }

  /** If that component is no link, it is missing from a directory, or the ancestor is a file. */
  lemma PastMissing(t: Nodes, cs: seq<string>, links: nat)
    requires ProperTree(t) && Components(cs)
    requires Nearest(t, cs, links) < |cs| && !IsLink(t, Next(t, cs, links))
    ensures var k, at := Nearest(t, cs, links), Ancestor(t, cs, links);
            && Resolve(t, cs, links) == (if IsFolder(t, at) then Absent(at, cs[k..]) else Broken)
            && (IsFolder(t, at) ==> Next(t, cs, links) !in t)
  {
    var k := Nearest(t, cs, links);
    var r := Resolve(t, cs[..k], links);
    FromAncestor(t, cs, links);
    FollowEnds(t, [], cs[..k], links);
    AtName(t, r.at, cs[k], cs[k + 1..], r.links);
    AtName(t, r.at, cs[k], [], r.links);
  }

  /** A path that resolves, resolves to a directory or a file. */
  lemma {:induction false} FollowEnds(t: Nodes, at: seq<string>, todo: seq<string>, links: nat)
    requires ProperTree(t) && (at == [] || (at in t && !t[at].Link?))
    ensures var w := Follow(t, at, todo, links);
            && (w.Exists? ==> w.at == [] || (w.at in t && !t[w.at].Link?))
            && (w.Absent? ==> IsFolder(t, w.at))
    decreases links, |todo|
  {
    if todo == [] || (at in t && at != [] && t[at].Regular?) {
    } else if todo[0] == "" || todo[0] == "." {
      FollowEnds(t, at, todo[1..], links);
    } else if todo[0] == ".." {
      ParentFolder(t, at);
      FollowEnds(t, Parent(at), todo[1..], links);
    } else {
      var next := at + [todo[0]];
      if next in t {
        if !t[next].Link? {
          FollowEnds(t, next, todo[1..], links);
        } else if links > 0 {
          FollowEnds(t, if t[next].absolute then [] else at, t[next].target + todo[1..], links - 1);
        }
      }
    }
  }

  lemma ParentFolder(t: Nodes, at: seq<string>)
    requires ProperTree(t) && (at == [] || at in t)
    ensures IsFolder(t, Parent(at))
  {
  }

  /** Resolution goes on from the nearest existing ancestor, and the next component does not resolve. */
  lemma FromAncestor(t: Nodes, cs: seq<string>, links: nat)
    requires Nearest(t, cs, links) < |cs|
    ensures var k := Nearest(t, cs, links);
            var r := Resolve(t, cs[..k], links);
            && Resolve(t, cs, links) == Follow(t, r.at, [cs[k]] + cs[k + 1..], r.links)
            && !Follow(t, r.at, [cs[k]] + [], r.links).Exists?
            && [cs[k]] + cs[k + 1..] == cs[k..]
  {
    var k := Nearest(t, cs, links);
    assert cs[..k] + ([cs[k]] + cs[k + 1..]) == cs && cs[..k] + ([cs[k]] + []) == cs[..k + 1];
    FollowConcat(t, [], cs[..k], [cs[k]] + cs[k + 1..], links);
    FollowConcat(t, [], cs[..k], [cs[k]] + [], links);
  }

  /** The call writes through a dangling link to a place outside the root: the last component is a link, and only
      the last name of the place it leads to is missing. */
  predicate CreatesOutside(t: Nodes, rs: seq<string>, cs: seq<string>, links: nat) {
    && Nearest(t, cs, links) + 1 == |cs|
    && IsLink(t, Next(t, cs, links))
    && var w := NextTarget(t, cs, links);
       w.Absent? && |w.rest| == 1 && !(rs <= w.at + w.rest)
  }

  /** Writing to a path whose nearest existing ancestor resolves to a place under the root takes effect under the
      root exactly unless it creates a file through such a link. */
  lemma WrittenConfinedIff(t: Nodes, rs: seq<string>, cs: seq<string>, links: nat)
    requires ProperTree(t) && Components(cs) && rs <= Ancestor(t, cs, links)
    ensures Under(rs, Written(t, cs, links)) <==> !CreatesOutside(t, rs, cs, links)
  {
    var k := Nearest(t, cs, links);
    if k == |cs| {
      assert cs[..|cs|] == cs;
    } else if IsLink(t, Next(t, cs, links)) {
      PastLink(t, cs, links);
      var w := NextTarget(t, cs, links);
      if w.Absent? && k + 1 == |cs| { assert w.rest + cs[k + 1..] == w.rest; }
    } else {
      PastMissing(t, cs, links);
    }
  }

  /** In particular it does when no link on the path dangles. */
  lemma PhysicallyConfined(t: Nodes, rs: seq<string>, cs: seq<string>, links: nat)
    requires ProperTree(t) && Components(cs) && NoDanglingLink(t, cs, links)
    requires rs <= Ancestor(t, cs, links)
    ensures Under(rs, Written(t, cs, links))
  {
    var k := Nearest(t, cs, links);
    if k < |cs| {
      assert Resolve(t, cs[..k], links).Exists? && !Resolve(t, cs[..k + 1], links).Exists?;
    }
    WrittenConfinedIff(t, rs, cs, links);
  }

  // ---- making directories ----

  /** `t'` is `t` with some new directories. */
  ghost predicate Grown(t: Nodes, t': Nodes) {
    && (forall p :: p in t ==> p in t' && t'[p] == t[p])
    && (forall p :: p in t' && p !in t ==> t'[p].Folder?)
  }

  /** The new ones lie below `base` and have no more than `depth` components. */
  ghost predicate Below(t: Nodes, t': Nodes, base: seq<string>, depth: nat) {
    forall p :: p in t' && p !in t ==> base <= p && |p| <= depth
  }

  /** New directories do not change what resolves already. */
  lemma {:induction false} FollowGrown(t: Nodes, t': Nodes, at: seq<string>, todo: seq<string>, links: nat)
    requires Grown(t, t') && Follow(t, at, todo, links).Exists?
    ensures Follow(t', at, todo, links) == Follow(t, at, todo, links)
    decreases links, |todo|
  {
    if todo == [] {
    } else if todo[0] == "" || todo[0] == "." {
      FollowGrown(t, t', at, todo[1..], links);
    } else if todo[0] == ".." {
      FollowGrown(t, t', Parent(at), todo[1..], links);
    } else {
      var next := at + [todo[0]];
      if !t[next].Link? {
        FollowGrown(t, t', next, todo[1..], links);
      } else {
        FollowGrown(t, t', if t[next].absolute then [] else at, t[next].target + todo[1..], links - 1);
      }
    }
  }

  /** Nothing lies below a missing name. */
  lemma {:induction false} NothingBelow(t: Nodes, p: seq<string>, q: seq<string>)
    requires ProperTree(t) && p != [] && p !in t && p <= q
    ensures q !in t
    decreases |q|
  {
    if |q| == |p| {
      assert q == p;
    } else {
      NothingBelow(t, p, Parent(q));
    }
  }

  /** From `base` on there are new directories along `tail`, and the path resolves to the last of them. */
  ghost predicate Advanced(t: Nodes, cs: seq<string>, links: nat, m: Made, base: seq<string>, tail: seq<string>,
                           left: nat) {
    && m.ok && Grown(t, m.tree) && Below(t, m.tree, base, |base + tail|)
    && Resolve(m.tree, cs, links) == Exists(base + tail, left)
    && IsFolder(m.tree, base + tail)
  }

  /** MkdirAll makes the components after the nearest ancestor, or nothing happens. */
  ghost predicate Progress(t: Nodes, cs: seq<string>, links: nat, m: Made) {
    var k := Nearest(t, cs, links);
    var r := Resolve(t, cs[..k], links);
    if k < |cs| && IsFolder(t, r.at) && Next(t, cs, links) !in t then
      Advanced(t, cs, links, m, r.at, cs[k..], r.links)
    else m.tree == t && (k < |cs| ==> !m.ok)
  }

  /** One more directory at the end of what resolves already. */
  lemma OneMore(m: Nodes, cs: seq<string>, links: nat, at: seq<string>, left: nat)
    requires cs != [] && Component(cs[|cs| - 1])
    requires Resolve(m, cs[..|cs| - 1], links) == Exists(at, left) && IsFolder(m, at)
    requires at + [cs[|cs| - 1]] !in m
    ensures var p := at + [cs[|cs| - 1]];
            && Mkdir(m, cs, links) == Made(m[p := Folder], true)
            && Resolve(m[p := Folder], cs, links) == Exists(p, left)
  {
    var n := |cs| - 1;
    var p := at + [cs[n]];
    assert Parent(p) == at;
    OneMoreResolves(m, m[p := Folder], cs, links, at, left);
  }

  lemma OneMoreResolves(m: Nodes, m': Nodes, cs: seq<string>, links: nat, at: seq<string>, left: nat)
    requires cs != [] && Component(cs[|cs| - 1])
    requires Resolve(m, cs[..|cs| - 1], links) == Exists(at, left) && Grown(m, m') && IsFolder(m', at)
    requires var p := at + [cs[|cs| - 1]];
             p in m' && m'[p].Folder?
    ensures Resolve(m', cs, links) == Exists(at + [cs[|cs| - 1]], left)
  {
    var n := |cs| - 1;
    assert cs == cs[..n] + ([cs[n]] + []);
    FollowGrown(m, m', [], cs[..n], links);
    FollowConcat(m', [], cs[..n], [cs[n]] + [], links);
    OneStep(m', at, cs[n], [], left);
  }

  lemma {:induction false} MkdirAllProgress(t: Nodes, cs: seq<string>, links: nat)
    requires ProperTree(t) && Components(cs)
    ensures Progress(t, cs, links, MkdirAll(t, cs, links))
  {
    assert cs[..|cs|] == cs;
    if Resolve(t, cs, links).Exists? {
    } else {
      MkdirAllProgress(t, cs[..|cs| - 1], links);
      if Nearest(t, cs, links) + 1 == |cs| {
        FirstMade(t, cs, links);
      } else {
        NextMade(t, cs, links, MkdirAll(t, cs[..|cs| - 1], links));
      }
    }
  }

  /** Above the nearest ancestor a path and its parent have the same next component. */
  lemma SameNext(t: Nodes, cs: seq<string>, links: nat)
    requires Nearest(t, cs, links) + 1 < |cs|
    ensures Nearest(t, cs[..|cs| - 1], links) == Nearest(t, cs, links)
    ensures var k := Nearest(t, cs, links);
            cs[..|cs| - 1][..k] == cs[..k]
    ensures Next(t, cs[..|cs| - 1], links) == Next(t, cs, links)
  {
    var k := Nearest(t, cs, links);
    assert cs[..|cs|] == cs;
    assert Nearest(t, cs[..|cs| - 1], links) == k;
    FrontParts(cs, k);
  }

  lemma FrontParts(cs: seq<string>, k: nat)
    requires k + 1 < |cs|
    ensures var front := cs[..|cs| - 1];
            front[..k] == cs[..k] && front[k] == cs[k] && front[k..] + [cs[|cs| - 1]] == cs[k..]
  {
  }

  lemma MadeInPlace(t: Nodes, cs: seq<string>, links: nat)
    requires cs != [] && Resolve(t, cs[..|cs| - 1], links).Exists?
    requires IsFolder(t, Resolve(t, cs[..|cs| - 1], links).at)
    ensures var p, m := Resolve(t, cs[..|cs| - 1], links).at + [cs[|cs| - 1]], MadeIn(Made(t, true), cs, links);
            if p in t then m == Made(t, t[p].Folder?) else m == Mkdir(t, cs, links) && m.ok
  {
    var at := Resolve(t, cs[..|cs| - 1], links).at;
    assert Parent(at + [cs[|cs| - 1]]) == at;
  }

  lemma FirstMade(t: Nodes, cs: seq<string>, links: nat)
    requires ProperTree(t) && Components(cs) && Nearest(t, cs, links) + 1 == |cs|
    ensures Progress(t, cs, links, MkdirAll(t, cs, links))
  {
    var n := |cs| - 1;
    var r := Resolve(t, cs[..n], links);
    assert cs[..|cs|] == cs && cs[n..] == [cs[n]];
    assert MkdirAll(t, cs[..n], links) == Made(t, IsFolder(t, r.at));
    if IsFolder(t, r.at) {
      MadeInPlace(t, cs, links);
      if !IsLink(t, Next(t, cs, links)) {
        PastMissing(t, cs, links);
        OneMore(t, cs, links, r.at, r.links);
      }
    }
  }

  /** Nothing is at the end of a path whose next component is missing. */
  lemma FreshEnd(t: Nodes, cs: seq<string>, links: nat)
    requires ProperTree(t) && Nearest(t, cs, links) < |cs| && Next(t, cs, links) !in t
    ensures Ancestor(t, cs, links) + cs[Nearest(t, cs, links)..] !in t
  {
    var end := Ancestor(t, cs, links) + cs[Nearest(t, cs, links)..];
    assert Next(t, cs, links) <= end;
    NothingBelow(t, Next(t, cs, links), end);
  }

  lemma NextMade(t: Nodes, cs: seq<string>, links: nat, up: Made)
    requires ProperTree(t) && Components(cs) && Nearest(t, cs, links) + 1 < |cs|
    requires Progress(t, cs[..|cs| - 1], links, up)
    ensures Progress(t, cs, links, MadeIn(up, cs, links))
  {
    var n, k := |cs| - 1, Nearest(t, cs, links);
    var r := Resolve(t, cs[..k], links);
    SameNext(t, cs, links);
    FrontParts(cs, k);
    if IsFolder(t, r.at) && Next(t, cs, links) !in t {
      FreshEnd(t, cs, links);
      Deeper(t, up, cs, links, r.at, cs[..n][k..], r.links);
    }
  }

  /** One more new directory below those that are there. */
  lemma Deeper(t: Nodes, up: Made, cs: seq<string>, links: nat, base: seq<string>, tail: seq<string>, left: nat)
    requires cs != [] && Component(cs[|cs| - 1])
    requires Advanced(t, cs[..|cs| - 1], links, up, base, tail, left)
    requires base + (tail + [cs[|cs| - 1]]) !in t
    ensures Advanced(t, cs, links, MadeIn(up, cs, links), base, tail + [cs[|cs| - 1]], left)
  {
    var name := cs[|cs| - 1];
    assert base + tail + [name] == base + (tail + [name]);
    OneMore(up.tree, cs, links, base + tail, left);
  }

  /** Making directories along an accepted path makes them under the root and changes nothing else, whatever links
      are on the path. */
  lemma MkdirConfined(t: Nodes, rs: seq<string>, cs: seq<string>, links: nat)
    requires ProperTree(t) && Components(cs) && rs <= Ancestor(t, cs, links)
    ensures var after := MkdirAll(t, cs, links).tree;
            && (forall p :: p in t ==> p in after && after[p] == t[p])
            && (forall p :: p in after && p !in t ==> rs <= p && after[p].Folder?)
  {
    MkdirAllProgress(t, cs, links);
  }

  // ---- directory entries ----

  /** Every directory on the way to something that exists resolves to itself. */
  lemma {:induction false} PlainPath(t: Nodes, p: seq<string>, links: nat)
    requires ProperTree(t) && (p == [] || (p in t && !t[p].Link?))
    ensures Resolve(t, p, links) == Exists(p, links)
    decreases |p|
  {
    if p == [] {
    } else {
      var n := |p| - 1;
      assert p[..n] == Parent(p) && p == p[..n] + ([p[n]] + []);
      ParentFolder(t, p);
      PlainPath(t, p[..n], links);
      FollowConcat(t, [], p[..n], [p[n]] + [], links);
      OneStep(t, p[..n], p[n], [], links);
      assert p[..n] + [p[n]] == p;
      assert Components(p) && IsFolder(t, p[..n]);
    }
  }

  lemma {:induction false} PrefixExists(t: Nodes, p: seq<string>, q: seq<string>)
    requires ProperTree(t) && p <= q && (q == [] || q in t)
    ensures p == [] || p in t
    ensures p != q ==> IsFolder(t, p)
    decreases |q|
  {
    if p == q || q == [] {
    } else {
      ParentFolder(t, q);
      assert Parent(q) == [] || Parent(q) in t;
      PrefixExists(t, p, Parent(q));
    }
  }

  /** The root of an accepted path is not reached through links. */
  lemma RootIsPlain(t: Nodes, rs: seq<string>, cs: seq<string>, links: nat)
    requires ProperTree(t) && rs <= Ancestor(t, cs, links)
    ensures Resolve(t, rs, links) == Exists(rs, links) && EntryAt(t, rs, links) == Some(rs)
  {
    var a := Ancestor(t, cs, links);
    FollowEnds(t, [], cs[..Nearest(t, cs, links)], links);
    PrefixExists(t, rs, a);
    PlainPath(t, rs, links);
    if rs != [] {
      var n := |rs| - 1;
      assert rs[..n] == Parent(rs);
      ParentFolder(t, rs);
      PlainPath(t, Parent(rs), links);
      assert rs[..n] + [rs[n]] == rs;
    }
  }

  /** The entry of an accepted path lies outside the root: it is not the root itself, and the directory that holds
      it, as the path names it, would not be accepted. */
  predicate EntryOutside(t: Nodes, rs: seq<string>, cs: seq<string>, links: nat) {
    var entry := EntryAt(t, cs, links);
    cs != [] && entry.Some? && entry.value != rs && !Accepts(rs, t, links, cs[..|cs| - 1])
  }

  /** Calls on a directory entry take effect under the root exactly unless that is so. */
  lemma EntryConfinedIff(t: Nodes, rs: seq<string>, cs: seq<string>, links: nat)
    requires ProperTree(t) && Components(cs) && Accepts(rs, t, links, cs)
    ensures Under(rs, EntryAt(t, cs, links)) <==> !EntryOutside(t, rs, cs, links)
  {
    if cs == rs {
      RootIsPlain(t, rs, cs, links);
    } else if EntryAt(t, cs, links).Some? {
      NearestWhole(t, cs[..|cs| - 1], links);
      PrefixOfSnoc(rs, cs[..|cs| - 1], cs[|cs| - 1]);
      PrefixOfSnoc(rs, Ancestor(t, cs[..|cs| - 1], links), cs[|cs| - 1]);
      assert cs == cs[..|cs| - 1] + [cs[|cs| - 1]];
    }
  }

  lemma PrefixOfSnoc(p: seq<string>, s: seq<string>, x: string)
    ensures p <= s + [x] <==> p <= s || p == s + [x]
  {
    if p <= s + [x] && |p| <= |s| { assert (s + [x])[..|p|] == s[..|p|]; }
    if p <= s + [x] && |p| == |s| + 1 { assert (s + [x])[..|p|] == s + [x]; }
  }

  /** An entry that is no link is under the root. */
  lemma PlainEntryConfined(t: Nodes, rs: seq<string>, cs: seq<string>, links: nat)
    requires ProperTree(t) && Components(cs) && rs <= Ancestor(t, cs, links)
    requires EntryAt(t, cs, links).Some? && !IsLink(t, EntryAt(t, cs, links).value)
    ensures rs <= EntryAt(t, cs, links).value
  {
    if cs != [] {
      var parent := cs[..|cs| - 1];
      assert parent[..|parent|] == parent;
      if Nearest(t, cs, links) < |cs| {
        assert Nearest(t, cs, links) == |cs| - 1;
      } else {
        PlainEntry(t, cs, links);
      }
    }
  }

  /** An entry that resolves and is no link resolves to itself. */
  lemma PlainEntry(t: Nodes, cs: seq<string>, links: nat)
    requires cs != [] && Component(cs[|cs| - 1]) && Nearest(t, cs, links) == |cs|
    requires EntryAt(t, cs, links).Some? && !IsLink(t, EntryAt(t, cs, links).value)
    ensures Ancestor(t, cs, links) == EntryAt(t, cs, links).value
  {
    var n := |cs| - 1;
    var r := Resolve(t, cs[..n], links);
    assert cs[..n] + ([cs[n]] + []) == cs == cs[..|cs|];
    FollowConcat(t, [], cs[..n], [cs[n]] + [], links);
    if !(r.at in t && r.at != [] && t[r.at].Regular?) {
      OneStep(t, r.at, cs[n], [], r.links);
    }
  }

  // ---- witnesses ----

  function EscapeTree(): Nodes {
    map[["srv"] := Folder, ["etc"] := Folder, ["srv", "new"] := Link(true, ["etc", "passwd"])]
  }

  lemma EscapeWalkRoot()
    ensures Resolve(EscapeTree(), ["srv"], 40) == Exists(["srv"], 40)
  {
    OneStep(EscapeTree(), [], "srv", [], 40);
    assert ["srv"] + [] == ["srv"] && [] + ["srv"] == ["srv"];
  }

  lemma EscapeWalkLink()
    ensures Resolve(EscapeTree(), ["srv", "new"], 40) == Absent(["etc"], ["passwd"])
  {
    var t := EscapeTree();
    OneStep(t, [], "srv", ["new"], 40);
    OneStep(t, ["srv"], "new", [], 40);
    OneStep(t, [], "etc", ["passwd"], 39);
    OneStep(t, ["etc"], "passwd", [], 39);
    assert [] + ["srv"] == ["srv"] && [] + ["etc"] == ["etc"];
    assert ["srv"] + ["new"] == ["srv", "new"] && ["new"] + [] == ["new"];
    assert ["etc"] + ["passwd"] == ["etc", "passwd"] == ["etc", "passwd"] + [] && ["passwd"] + [] == ["passwd"];
  }

  lemma EscapeProper()
    ensures ProperTree(EscapeTree())
  {
    assert Parent(["srv", "new"]) == ["srv"];
    assert Component("srv") && Component("etc") && Component("new") && '/' !in "passwd";
  }

  lemma EscapeAncestor()
    ensures Ancestor(EscapeTree(), ["srv", "new"], 40) == ["srv"]
  {
    var cs := ["srv", "new"];
    EscapeWalkRoot();
    EscapeWalkLink();
    assert cs[..1] == ["srv"] && cs[..2] == cs;
    assert Nearest(EscapeTree(), cs, 40) == 1;
  }

  /** A dangling link that leads outside does occur on accepted paths. */
  lemma DanglingLinkEscapes()
    ensures var t, rs, cs := EscapeTree(), ["srv"], ["srv", "new"];
            && ProperTree(t) && Resolve(t, rs, 40) == Exists(rs, 40)
            && rs <= cs && rs <= Ancestor(t, cs, 40)
            && Written(t, cs, 40) == Some(["etc", "passwd"])
            && CreatesOutside(t, rs, cs, 40)
            && MkdirAll(t, cs, 40).tree == t
  {
    var t, rs, cs := EscapeTree(), ["srv"], ["srv", "new"];
    EscapeWalkRoot();
    EscapeWalkLink();
    EscapeAncestor();
    EscapeProper();
    assert ["etc"] + ["passwd"] == ["etc", "passwd"];
    WrittenConfinedIff(t, rs, cs, 40);
    assert cs[..1] == ["srv"];
  }

  function DetourTree(): Nodes {
    map[["srv"] := Folder, ["out"] := Folder,
        ["srv", "a"] := Link(true, ["out"]), ["out", "b"] := Link(true, ["srv"])]
  }

  lemma DetourProper()
    ensures ProperTree(DetourTree())
  {
    assert Parent(["srv", "a"]) == ["srv"] && Parent(["out", "b"]) == ["out"];
    assert Component("srv") && Component("out") && Component("a") && Component("b");
  }

  lemma DetourWalkParent()
    ensures Resolve(DetourTree(), ["srv", "a"], 40) == Exists(["out"], 39)
  {
    var t := DetourTree();
    OneStep(t, [], "srv", ["a"], 40);
    OneStep(t, ["srv"], "a", [], 40);
    OneStep(t, [], "out", [], 39);
    assert [] + ["srv"] == ["srv"] && ["srv"] + ["a"] == ["srv", "a"] && ["a"] + [] == ["a"];
    assert [] + ["out"] == ["out"] == ["out"] + [];
  }

  lemma DetourWalkEntry()
    ensures Resolve(DetourTree(), ["srv", "a", "b"], 40) == Exists(["srv"], 38)
  {
    var t := DetourTree();
    DetourWalkParent();
    FollowConcat(t, [], ["srv", "a"], ["b"], 40);
    assert ["srv", "a"] + ["b"] == ["srv", "a", "b"];
    OneStep(t, ["out"], "b", [], 39);
    OneStep(t, [], "srv", [], 38);
    assert ["out"] + ["b"] == ["out", "b"] && ["b"] + [] == ["b"];
    assert [] + ["srv"] == ["srv"] == ["srv"] + [];
  }

  /** A link outside the root does get removed or renamed through an accepted path without dangling links. */
  lemma EntryOutsideRoot()
    ensures var t, rs, cs := DetourTree(), ["srv"], ["srv", "a", "b"];
            && ProperTree(t) && rs <= cs && rs <= Ancestor(t, cs, 40)
            && EntryAt(t, cs, 40) == Some(["out", "b"]) && ["out", "b"] in t
            && EntryOutside(t, rs, cs, 40)
  {
    var t, cs := DetourTree(), ["srv", "a", "b"];
    DetourProper();
    DetourWalkParent();
    DetourWalkEntry();
    assert cs[..2] == ["srv", "a"] && cs[..3] == cs;
    assert ["out"] + ["b"] == ["out", "b"];
    EntryConfinedIff(t, ["srv"], cs, 40);
  }
}
