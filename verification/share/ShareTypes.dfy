/** internal/domain/share.go, and the order in which shares are rendered. */
module ShareTypes {
  import opened Order

  /** `Other` stands for any type string that is neither "smb" nor "nfs". */
  datatype ShareType = Samba | Nfs | Other(text: string)

  datatype Share = Share(name: string, kind: ShareType, path: string, comment: string,
                         readOnly: bool, enabled: bool,
                         validUsers: string, writeList: string, createMask: string, directoryMask: string,
                         hosts: string)

  type ShareMap = map<string, Share>

  ghost predicate WellKeyed(m: ShareMap) { forall k :: k in m ==> m[k].name == k }

  ghost predicate HasKind(shares: seq<Share>, kind: ShareType) { exists s :: s in shares && s.kind == kind }

  function Names(shares: seq<Share>): seq<string> { seq(|shares|, i requires 0 <= i < |shares| => shares[i].name) }

  /** `xs` enumerates the values of `m`, one per key, in some order. */
  ghost predicate Enumerates(xs: seq<Share>, m: ShareMap) {
    && (forall i :: 0 <= i < |xs| ==> xs[i].name in m && m[xs[i].name] == xs[i])
    && (forall k :: k in m ==> k in Names(xs))
    && (forall i, j :: 0 <= i < j < |xs| ==> xs[i].name != xs[j].name)
  }

  /** The values of `m` by ascending key. */
  ghost function Sorted(m: ShareMap): (xs: seq<Share>)
    ensures forall s :: s in xs <==> exists k :: k in m && m[k] == s
  {
    var ks := SortedNames(m.Keys);
    var xs := seq(|ks|, i requires 0 <= i < |ks| => assert ks[i] in ks; m[ks[i]]);
    assert forall k :: k in m ==> exists i :: 0 <= i < |ks| && ks[i] == k && xs[i] == m[k];
    assert forall i :: 0 <= i < |xs| ==> ks[i] in ks && xs[i] == m[ks[i]];
    xs
  }

  /** The order that sort.Slice establishes for `less(i, j) = Name[i] < Name[j]`. */
  ghost predicate SortedByName(xs: seq<Share>) {
    forall i, j :: 0 <= i < j < |xs| ==> !Less(xs[j].name, xs[i].name)
  }

  /** sort.Slice by name: whatever permutation it returns, the result is the same sequence. */
  lemma SortedDeterministic(m: ShareMap, listing: seq<Share>, sorted: seq<Share>)
    requires WellKeyed(m) && Enumerates(listing, m)
    requires multiset(sorted) == multiset(listing)
    requires SortedByName(sorted)
    ensures sorted == Sorted(m)
  {
    SortedIsAscending(m, listing, sorted);
    SortedIsUnique(m, sorted);
  }

  /** A sort by name, standing for sort.Slice. */
  function SortByName(xs: seq<Share>): (r: seq<Share>)
    ensures multiset(r) == multiset(xs)
    ensures SortedByName(r)
  {
    if xs == [] then []
    else
      assert xs == [xs[0]] + xs[1..];
      InsertByName(xs[0], SortByName(xs[1..]))
  }

  function InsertByName(s: Share, xs: seq<Share>): (r: seq<Share>)
    requires SortedByName(xs)
    ensures multiset(r) == multiset(xs) + multiset{s}
    ensures SortedByName(r)
  {
    if xs == [] then [s]
    else
      assert xs == [xs[0]] + xs[1..];
      if !Less(xs[0].name, s.name) then
        BelowAll(s, xs);
        [s] + xs
      else
        var r := InsertByName(s, xs[1..]);
        LessAntisymmetric(xs[0].name, s.name);
        BelowInserted(xs, s, r);
        [xs[0]] + r
  }

  lemma BelowAll(s: Share, xs: seq<Share>)
    requires xs != [] && !Less(xs[0].name, s.name)
    requires SortedByName(xs)
    ensures forall j :: 0 <= j < |xs| ==> !Less(xs[j].name, s.name)
  {
    forall j | 0 < j < |xs| ensures !Less(xs[j].name, s.name) {
      LessTotal(xs[0].name, s.name);
      LessTotal(xs[j].name, xs[0].name);
      if Less(xs[j].name, s.name) {
        if Less(s.name, xs[0].name) {
          LessTransitive(xs[j].name, s.name, xs[0].name);
        }
      }
    }
  }

  lemma BelowInserted(xs: seq<Share>, s: Share, r: seq<Share>)
    requires xs != [] && SortedByName(xs) && SortedByName(r) && !Less(s.name, xs[0].name)
    requires multiset(r) == multiset(xs[1..]) + multiset{s}
    ensures SortedByName([xs[0]] + r)
  {
    forall k | 0 <= k < |r| ensures !Less(r[k].name, xs[0].name) {
      assert r[k] in multiset(r);
      if r[k] != s {
        assert r[k] in xs[1..];
      }
    }
  }

  lemma SortedIsAscending(m: ShareMap, listing: seq<Share>, sorted: seq<Share>)
    requires WellKeyed(m) && Enumerates(listing, m)
    requires multiset(sorted) == multiset(listing)
    requires SortedByName(sorted)
    ensures Ascending(Names(sorted))
    ensures forall s :: s in sorted <==> s in listing
  {
    forall s ensures s in sorted <==> s in listing {
      assert s in sorted <==> s in multiset(sorted);
      assert s in listing <==> s in multiset(listing);
    }
    forall i, j | 0 <= i < j < |sorted| ensures Less(sorted[i].name, sorted[j].name) {
      LessTotal(sorted[i].name, sorted[j].name);
      if sorted[i].name == sorted[j].name {
        EqualNamesEqualShares(m, listing, sorted, i, j);
        SingleOccurrence(listing, sorted[i]);
        TwoOccurrences(sorted, i, j);
      }
    }
  }

  lemma EqualNamesEqualShares(m: ShareMap, listing: seq<Share>, sorted: seq<Share>, i: nat, j: nat)
    requires Enumerates(listing, m)
    requires forall s :: s in sorted <==> s in listing
    requires i < j < |sorted| && sorted[i].name == sorted[j].name
    ensures sorted[i] == sorted[j] && sorted[i] in listing
  {
    assert sorted[i] in listing && sorted[j] in listing;
  }

  lemma {:induction false} SingleOccurrence(xs: seq<Share>, s: Share)
    requires forall i, j :: 0 <= i < j < |xs| ==> xs[i].name != xs[j].name
    ensures multiset(xs)[s] <= 1
  {
    if xs == [] {
    } else {
      SingleOccurrence(xs[1..], s);
      assert xs == [xs[0]] + xs[1..];
      if xs[0] == s {
        assert s !in xs[1..];
        assert s !in multiset(xs[1..]);
      }
    }
  }

  lemma TwoOccurrences(xs: seq<Share>, i: nat, j: nat)
    requires i < j < |xs| && xs[i] == xs[j]
    ensures multiset(xs)[xs[i]] >= 2
  {
    assert xs == xs[..j] + xs[j..];
    assert xs[..j][i] in xs[..j] && xs[j..][0] in xs[j..];
    assert xs[i] in multiset(xs[..j]) && xs[i] in multiset(xs[j..]);
  }

  lemma SortedIsUnique(m: ShareMap, xs: seq<Share>)
    requires WellKeyed(m)
    requires Ascending(Names(xs))
    requires forall s :: s in xs <==> exists k :: k in m && m[k] == s
    ensures xs == Sorted(m)
  {
    var ks := SortedNames(m.Keys);
    forall n ensures n in Names(xs) <==> n in ks {
      if n in ks {
        assert m[n] in xs;
        var i :| 0 <= i < |xs| && xs[i] == m[n];
        assert Names(xs)[i] == n;
      }
      if n in Names(xs) {
        var i :| 0 <= i < |xs| && Names(xs)[i] == n;
        assert xs[i] in xs;
      }
    }
    AscendingUnique(Names(xs), ks);
    forall i | 0 <= i < |xs| ensures xs[i] == Sorted(m)[i] {
      assert xs[i] in xs && Names(xs)[i] == ks[i];
    }
  }

  /** Reading a list back into a map: a later entry replaces an earlier one of the same name. */
  function FromList(shares: seq<Share>): ShareMap {
    if shares == [] then map[]
    else FromList(shares[..|shares| - 1])[shares[|shares| - 1].name := shares[|shares| - 1]]
  }

  lemma {:induction false} FromListKeyed(shares: seq<Share>)
    ensures WellKeyed(FromList(shares))
    ensures forall k :: k in FromList(shares) ==> FromList(shares)[k] in shares
  {
    if shares == [] {
    } else {
      var init := shares[..|shares| - 1];
      FromListKeyed(init);
      assert shares == init + [shares[|shares| - 1]];
    }
  }

  lemma {:induction false} FromListDistinct(xs: seq<Share>)
    requires forall i, j :: 0 <= i < j < |xs| ==> xs[i].name != xs[j].name
    ensures FromList(xs).Keys == set s | s in xs :: s.name
    ensures forall s :: s in xs ==> s.name in FromList(xs) && FromList(xs)[s.name] == s
  {
    if xs == [] {
    } else {
      FromListDistinct(xs[..|xs| - 1]);
      assert xs == xs[..|xs| - 1] + [xs[|xs| - 1]];
    }
  }

  /** Reading back what was rendered restores the map. */
  lemma FromSorted(m: ShareMap)
    requires WellKeyed(m)
    ensures FromList(Sorted(m)) == m
  {
    var xs := Sorted(m);
    var ks := SortedNames(m.Keys);
    forall i, j | 0 <= i < j < |xs| ensures xs[i].name != xs[j].name {
      assert ks[i] in ks && ks[j] in ks;
      LessIrreflexive(ks[i]);
      assert Less(ks[i], ks[j]);
    }
    FromListDistinct(xs);
    assert FromList(xs).Keys == m.Keys by {
      forall k ensures k in m <==> k in FromList(xs) {
        if k in m { assert m[k] in xs; }
      }
    }
    forall k | k in m ensures FromList(xs)[k] == m[k] {
      assert m[k] in xs;
    }
  }
}
