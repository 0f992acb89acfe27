/** Go's `<` on strings: comparing scalar values in turn orders texts as their UTF-8 bytes do. */
module Order {

  predicate Less(a: string, b: string) {
    b != "" && (a == "" || a[0] < b[0] || (a[0] == b[0] && Less(a[1..], b[1..])))
  }

  lemma {:induction false} LessTransitive(a: string, b: string, c: string)
    requires Less(a, b) && Less(b, c)
    ensures Less(a, c)
  {
    if a == "" {
    } else if a[0] == b[0] == c[0] {
      LessTransitive(a[1..], b[1..], c[1..]);
    }
  }

  /** One text is less than another exactly when it is a proper prefix, or has the smaller character at the first place
      where they differ. */
  lemma {:induction false} LessIff(a: string, b: string)
    ensures Less(a, b) <==>
            || (a <= b && a != b)
            || exists i :: 0 <= i < |a| && i < |b| && a[..i] == b[..i] && a[i] < b[i]
  {
    if a == "" || b == "" {
    } else if a[0] != b[0] {
      assert a[..0] == b[..0];
      if i :| 0 <= i < |a| && i < |b| && a[..i] == b[..i] && a[i] < b[i] {
        if i > 0 { assert a[..i][0] == b[..i][0]; }
      }
    } else {
      LessIff(a[1..], b[1..]);
      assert a == [a[0]] + a[1..] && b == [b[0]] + b[1..];
      DiffersShift(a, b);
    }
  }

  /** The first difference of two texts with the same first character is that of the rests. */
  lemma DiffersShift(a: string, b: string)
    requires a != "" && b != "" && a[0] == b[0]
    ensures (exists i :: 0 <= i < |a| && i < |b| && a[..i] == b[..i] && a[i] < b[i]) <==>
            (exists i :: 0 <= i < |a| - 1 && i < |b| - 1 && a[1..][..i] == b[1..][..i] && a[1..][i] < b[1..][i])
  {
    if i :| 0 <= i < |a| && i < |b| && a[..i] == b[..i] && a[i] < b[i] {
      assert a[1..][..i - 1] == a[..i][1..] && b[1..][..i - 1] == b[..i][1..];
      assert a[1..][i - 1] < b[1..][i - 1];
    }
    if i :| 0 <= i < |a| - 1 && i < |b| - 1 && a[1..][..i] == b[1..][..i] && a[1..][i] < b[1..][i] {
      assert a[..i + 1] == [a[0]] + a[1..][..i] && b[..i + 1] == [b[0]] + b[1..][..i];
      assert a[i + 1] < b[i + 1];
    }
  }

  lemma {:induction false} LessTotal(a: string, b: string)
    ensures a == b || Less(a, b) || Less(b, a)
  {
    if a == "" || b == "" {
    } else if a[0] == b[0] {
      LessTotal(a[1..], b[1..]);
      assert a == [a[0]] + a[1..] && b == [b[0]] + b[1..];
    }
  }

  lemma {:induction false} LessIrreflexive(a: string)
    ensures !Less(a, a)
  {
    if a == "" {
    } else {
      LessIrreflexive(a[1..]);
    }
  }

  lemma LessAntisymmetric(a: string, b: string)
    requires Less(a, b)
    ensures !Less(b, a)
  {
    LessIrreflexive(a);
    if Less(b, a) { LessTransitive(a, b, a); }
  }

  ghost predicate Ascending(names: seq<string>) {
    forall i, j :: 0 <= i < j < |names| ==> Less(names[i], names[j])
  }

  /** A set of names has only one ascending listing. */
  lemma {:induction false} AscendingUnique(xs: seq<string>, ys: seq<string>)
    requires Ascending(xs) && Ascending(ys)
    requires forall n :: n in xs <==> n in ys
    ensures xs == ys
  {
    assert xs != [] ==> xs[0] in xs;
    assert ys != [] ==> ys[0] in ys;
    if xs == [] || ys == [] {
    } else {
      AscendingHead(xs, ys);
      forall n ensures n in xs[1..] <==> n in ys[1..] {
        TailMembers(xs, n);
        TailMembers(ys, n);
      }
      AscendingUnique(xs[1..], ys[1..]);
      assert xs == [xs[0]] + xs[1..] && ys == [ys[0]] + ys[1..];
    }
  }

  lemma TailMembers(xs: seq<string>, n: string)
    requires Ascending(xs) && xs != []
    ensures n in xs[1..] <==> n in xs && n != xs[0]
  {
    LessIrreflexive(xs[0]);
    assert xs == [xs[0]] + xs[1..];
    assert forall i :: 0 < i < |xs| ==> Less(xs[0], xs[i]);
  }

  lemma AscendingHead(xs: seq<string>, ys: seq<string>)
    requires Ascending(xs) && Ascending(ys) && xs != [] && ys != []
    requires forall n :: n in xs <==> n in ys
    ensures xs[0] == ys[0]
  {
    assert xs[0] in ys && ys[0] in xs;
    var i :| 0 <= i < |xs| && xs[i] == ys[0];
    var j :| 0 <= j < |ys| && ys[j] == xs[0];
    if i > 0 && j > 0 {
      LessTransitive(xs[0], xs[i], ys[j]);
      LessIrreflexive(xs[0]);
    }
  }

  ghost predicate Lists(xs: seq<string>, names: set<string>) {
    Ascending(xs) && forall n :: n in xs <==> n in names
  }

  /** Every finite set of names has an ascending listing. */
  lemma {:induction false} AscendingExists(names: set<string>)
    ensures exists xs :: Lists(xs, names)
  {
    if names == {} {
      assert Lists([], names);
    } else {
      var n :| n in names;
      AscendingExists(names - {n});
      var rest :| Lists(rest, names - {n});
      var xs := Place(n, rest);
      assert Lists(xs, names);
    }
  }

  lemma {:induction false} Place(n: string, rest: seq<string>) returns (xs: seq<string>)
    requires Ascending(rest) && n !in rest
    ensures Ascending(xs) && forall m :: m in xs <==> m == n || m in rest
  {
    if rest == [] {
      xs := [n];
    } else if Less(n, rest[0]) {
      xs := [n] + rest;
      forall j | 0 < j < |xs| ensures Less(n, xs[j]) {
        if j > 1 { LessTransitive(n, rest[0], rest[j - 1]); }
      }
    } else {
      LessTotal(n, rest[0]);
      var tail := Place(n, rest[1..]);
      xs := [rest[0]] + tail;
      assert rest == [rest[0]] + rest[1..];
      forall j | 0 < j < |xs| ensures Less(xs[0], xs[j]) {
        assert tail[j - 1] in tail;
      }
    }
  }

  /** The names of a set in ascending order. */
  ghost function SortedNames(names: set<string>): (xs: seq<string>)
    ensures Ascending(xs) && forall n :: n in xs <==> n in names
  {
    AscendingExists(names);
    var xs :| Lists(xs, names);
    xs
  }
}
