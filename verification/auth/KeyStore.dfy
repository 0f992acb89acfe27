/** internal/auth: API keys in a file and in memory. */
module KeyStore {
  import opened Wrappers
  import opened Text
  import opened FileSystems

  /** `createdAt` is an opaque timestamp. */
  datatype KeyEntry = KeyEntry(key: string, role: string, subject: string, createdAt: int)

  datatype Token = Token(raw: string, role: string, subject: string)

  type Index = map<string, Token>

  function TokenOf(e: KeyEntry): Token { Token(e.key, e.role, e.subject) }

  /** Registering entries in order: a later one replaces an earlier one with the same key. */
  function Registered(index: Index, entries: seq<KeyEntry>): Index {
    if entries == [] then index
    else
      var last := entries[|entries| - 1];
      Registered(index, entries[..|entries| - 1])[last.key := TokenOf(last)]
  }

  /** The index that a file stands for. */
  function Fold(entries: seq<KeyEntry>): Index { Registered(map[], entries) }

  function Without(entries: seq<KeyEntry>, key: string): seq<KeyEntry> {
    if entries == [] then []
    else
      var last := entries[|entries| - 1];
      Without(entries[..|entries| - 1], key) + if last.key == key then [] else [last]
  }

  /** loadEntries: an absent or blank file has no entries, a file that does not parse is an error. */
  function Entries(codec: Codec<KeyEntry>, content: Option<string>): Result<seq<KeyEntry>> {
    if content.None? || TrimSpace(content.value) == "" then Ok([])
    else
      match codec.decode(content.value)
      case None => Err(Internal)
      case Some(entries) => Ok(entries)
  }

  // ---- properties of the index ----

  lemma {:induction false} RegisteredIsUnion(index: Index, entries: seq<KeyEntry>)
    ensures Registered(index, entries) == index + Fold(entries)
  {
    if entries == [] {
    } else {
      RegisteredIsUnion(index, entries[..|entries| - 1]);
    }
  }

  lemma FoldSnoc(entries: seq<KeyEntry>, e: KeyEntry)
    ensures Fold(entries + [e]) == Fold(entries)[e.key := TokenOf(e)]
  {
    assert (entries + [e])[..|entries|] == entries;
  }

  lemma {:induction false} FoldKeys(entries: seq<KeyEntry>)
    ensures forall k :: k in Fold(entries) <==> exists e :: e in entries && e.key == k
  {
    if entries == [] {
    } else {
      var init, last := entries[..|entries| - 1], entries[|entries| - 1];
      FoldKeys(init);
      assert entries == init + [last];
      FoldSnoc(init, last);
      forall k ensures k in Fold(entries) <==> exists e :: e in entries && e.key == k {
        if k == last.key { assert last in entries; }
      }
    }
  }

  /** Removing every entry of a key from the file removes the key from the index. */
  lemma {:induction false} FoldWithout(entries: seq<KeyEntry>, key: string)
    ensures Fold(Without(entries, key)) == Fold(entries) - {key}
  {
    if entries == [] {
    } else {
      var init, last := entries[..|entries| - 1], entries[|entries| - 1];
      var kept := Without(init, key);
      FoldWithout(init, key);
      assert entries == init + [last];
      FoldSnoc(init, last);
      UpdateThenRemove(Fold(init), last.key, TokenOf(last), key);
      if last.key != key {
        FoldSnoc(kept, last);
      } else {
        assert kept + [] == kept;
      }
    }
  }

  lemma UpdateThenRemove(m: Index, k: string, t: Token, key: string)
    ensures m[k := t] - {key} == if k == key then m - {key} else (m - {key})[k := t]
  {
  }

  lemma {:induction false} WithoutMembers(entries: seq<KeyEntry>, key: string)
    ensures forall e :: e in Without(entries, key) <==> e in entries && e.key != key
    ensures |Without(entries, key)| == |entries| <==> forall e :: e in entries ==> e.key != key
    ensures |Without(entries, key)| <= |entries|
  {
    if entries == [] {
    } else {
      var init, last := entries[..|entries| - 1], entries[|entries| - 1];
      WithoutMembers(init, key);
      assert entries == init + [last];
    }
  }

  /** Filtering goes entry by entry and keeps their order. */
  lemma {:induction false} WithoutConcat(a: seq<KeyEntry>, b: seq<KeyEntry>, key: string)
    ensures Without(a + b, key) == Without(a, key) + Without(b, key)
    decreases |b|
  {
    if b == [] {
      assert a + b == a;
    } else {
      var n := |b| - 1;
      WithoutConcat(a, b[..n], key);
      assert (a + b)[..|a| + n] == a + b[..n] && (a + b)[|a| + n] == b[n];
    }
  }

  lemma WithoutOne(e: KeyEntry, key: string)
    ensures Without([e], key) == if e.key == key then [] else [e]
  {
    assert [e][..0] == [];
    assert Without([e][..0], key) == [];
  }

  lemma EncodedEntries(codec: Codec<KeyEntry>, entries: seq<KeyEntry>)
    requires LawfulStore(codec)
    ensures Entries(codec, Some(codec.encode(entries))) == Ok(entries)
  {
  }

  /** The codec's law, and that white space alone is no document. */
  ghost predicate LawfulStore(codec: Codec<KeyEntry>) {
    codec.Lawful() && forall s :: TrimSpace(s) == "" ==> codec.decode(s).None?
  }

  lemma Revoked(codec: Codec<KeyEntry>, entries: seq<KeyEntry>, key: string)
    requires LawfulStore(codec)
    ensures key in Fold(entries) <==> exists e :: e in entries && e.key == key
    ensures var kept := Without(entries, key);
            && Fold(kept) == Fold(entries) - {key}
            && (forall e :: e in kept ==> e.key != key)
            && Entries(codec, Some(codec.encode(kept))) == Ok(kept)
  {
    FoldKeys(entries);
    FoldWithout(entries, key);
    WithoutMembers(entries, key);
    EncodedEntries(codec, Without(entries, key));
  }

  // ---- the store ----

  predicate HasKey(entries: seq<KeyEntry>, key: string) { exists e :: e in entries && e.key == key }

  lemma HasKeySnoc(entries: seq<KeyEntry>, i: nat, key: string)
    requires i < |entries|
    ensures HasKey(entries[..i + 1], key) <==> HasKey(entries[..i], key) || entries[i].key == key
  {
    assert entries[..i + 1] == entries[..i] + [entries[i]];
    assert entries[i] in entries[..i + 1];
  }

  /** RevokeKey's compaction of `entries[:0]`: the kept entries overwrite the front of the same array. */
  method Compact(entries: array<KeyEntry>, key: string) returns (n: nat, found: bool)
    modifies entries
    ensures n <= entries.Length && entries[..n] == Without(old(entries[..]), key)
    ensures found <==> HasKey(old(entries[..]), key)
  {
    ghost var before := entries[..];
    n, found := 0, false;
    for i := 0 to entries.Length
      invariant n <= i
      invariant forall j :: i <= j < entries.Length ==> entries[j] == before[j]
      invariant entries[..n] == Without(before[..i], key)
      invariant found <==> HasKey(before[..i], key)
    {
      var e := entries[i];
      HasKeySnoc(before, i, key);
      WithoutSnoc(before, i, key);
      if e.key == key {
        found := true;
      } else {
        entries[n] := e;
        n := n + 1;
        assert entries[..n] == entries[..n - 1] + [e];
      }
    }
    assert before[..entries.Length] == before;
  }

  lemma WithoutSnoc(entries: seq<KeyEntry>, i: nat, key: string)
    requires i < |entries|
    ensures Without(entries[..i + 1], key) ==
            Without(entries[..i], key) + if entries[i].key == key then [] else [entries[i]]
  {
    assert entries[..i + 1][..i] == entries[..i];
  }

  /** The loaded entries are an array of the call's own. */
  method Filtered(list: seq<KeyEntry>, key: string) returns (filtered: seq<KeyEntry>, found: bool)
    ensures filtered == Without(list, key)
    ensures found <==> exists e :: e in list && e.key == key
  {
    var entries := new KeyEntry[|list|](i requires 0 <= i < |list| => list[i]);
    assert entries[..] == list;
    var n;
    n, found := Compact(entries, key);
    filtered := entries[..n];
  }

  /** writeEntries: atomic up to the rename, then a chmod whose failure comes too late to undo it. */
  method WriteEntries(fs: FileSystem, codec: Codec<KeyEntry>, path: string, entries: seq<KeyEntry>,
                      tmp: string, torn: string, fault: Fault)
    returns (r: Reply)
    requires tmp !in fs.files && tmp != path && fault != AtChmod
    modifies fs
    ensures r.Nil? <==> fault.NoFault?
    ensures r.Failed? ==> r.code == Internal
    ensures fs.files == if fault.NoFault? || fault.AtFinalChmod? then old(fs.files)[path := codec.encode(entries)]
                        else old(fs.files)
    ensures OnlyReplaces(fs, tmp, old(fs.files), old(fs.files)[path := codec.encode(entries)])
  {
    var data := codec.encode(entries);
    r := AtomicWriteFile(fs, path, data, tmp, torn, if fault.AtFinalChmod? then NoFault else fault);
    if r.Failed? {
      return;
    }
    if fault.AtFinalChmod? {
      return Failed(Internal);
    }
  }

  /** One call and the fault it met. */
  datatype Request = Load | Save(entry: KeyEntry, fault: Fault) | Revoke(key: string, fault: Fault)

  /** The index, and the index that the file stands for; `broken` when the file does not parse. */
  datatype State = State(keys: Index, file: Index, broken: bool)

  function Reached(f: Fault): bool { f.NoFault? || f.AtFinalChmod? }

  /** The contracts of the three methods as one step. */
  function Step(s: State, q: Request): State {
    match q
    case Load => s.(keys := s.keys + s.file)
    case Save(e, f) =>
      if s.broken || !Reached(f) then s
      else State(if f.NoFault? then s.keys[e.key := TokenOf(e)] else s.keys, s.file[e.key := TokenOf(e)], false)
    case Revoke(k, f) =>
      if s.broken || k !in s.file || !Reached(f) then s
      else State(if f.NoFault? then s.keys - {k} else s.keys, s.file - {k}, false)
  }

  /** The index and the entries of the file, or an error when it does not parse. */
  datatype Stored = Stored(keys: Index, entries: Result<seq<KeyEntry>>)

  /** The same on the entries themselves. */
  function Does(s: Stored, q: Request): Stored {
    if s.entries.Err? then s
    else
      var entries := s.entries.value;
      match q
      case Load => s.(keys := Registered(s.keys, entries))
      case Save(e, f) =>
        if !Reached(f) then s
        else Stored(if f.NoFault? then s.keys[e.key := TokenOf(e)] else s.keys, Ok(entries + [e]))
      case Revoke(k, f) =>
        if !Reached(f) || !(exists e :: e in entries && e.key == k) then s
        else Stored(if f.NoFault? then s.keys - {k} else s.keys, Ok(Without(entries, k)))
  }

  function Seen(s: Stored): State {
    State(s.keys, if s.entries.Ok? then Fold(s.entries.value) else map[], s.entries.Err?)
  }

  lemma DoesIsStep(s: Stored, q: Request)
    ensures Seen(Does(s, q)) == Step(Seen(s), q)
  {
    if s.entries.Ok? {
      var entries := s.entries.value;
      match q
      case Load => RegisteredIsUnion(s.keys, entries);
      case Save(e, f) => FoldSnoc(entries, e);
      case Revoke(k, f) =>
        FoldKeys(entries);
        FoldWithout(entries, k);
    } else {
      assert s.keys + map[] == s.keys;
    }
  }

  /** The last entry of its key. */
  ghost predicate LastOf(entries: seq<KeyEntry>, i: nat) {
    i < |entries| && forall j :: i < j < |entries| ==> entries[j].key != entries[i].key
  }

  /** The index has the token of an entry: its key, its role and its subject. */
  predicate Serves(keys: Index, e: KeyEntry) {
    && e.key in keys
    && keys[e.key].raw == e.key && keys[e.key].role == e.role && keys[e.key].subject == e.subject
  }

  /** Registering entries serves the last one of each key and leaves every other key alone. */
  lemma {:induction false} RegisteredServes(index: Index, entries: seq<KeyEntry>, i: nat)
    requires LastOf(entries, i)
    ensures Serves(Registered(index, entries), entries[i])
    decreases |entries|
  {
    var n := |entries| - 1;
    if i == n {
    } else {
      assert entries[n].key != entries[i].key;
      RegisteredServes(index, entries[..n], i);
    }
  }

  lemma {:induction false} RegisteredOthers(index: Index, entries: seq<KeyEntry>, k: string)
    requires forall e :: e in entries ==> e.key != k
    ensures k in Registered(index, entries) <==> k in index
    ensures k in index ==> Registered(index, entries)[k] == index[k]
  {
    if entries == [] {
    } else {
      var n := |entries| - 1;
      assert entries[n] in entries && forall e :: e in entries[..n] ==> e in entries;
      RegisteredOthers(index, entries[..n], k);
    }
  }

  /** Two indexes agree about a key. */
  predicate SameAt(a: Index, b: Index, k: string) { (k in a <==> k in b) && (k in a ==> a[k] == b[k]) }

  lemma AllServed(index: Index, entries: seq<KeyEntry>)
    ensures forall i: nat :: LastOf(entries, i) ==> Serves(Registered(index, entries), entries[i])
  {
    forall i: nat | LastOf(entries, i) ensures Serves(Registered(index, entries), entries[i]) {
      RegisteredServes(index, entries, i);
    }
  }

  class Store {
    const fs: FileSystem
    const path: string
    const codec: Codec<KeyEntry>
    var keys: Index

    ghost predicate Valid() { LawfulStore(codec) }

    ghost function Content(): Result<seq<KeyEntry>>
      reads fs
    {
      Entries(codec, Get(fs.files, path))
    }

    ghost function All(): Stored
      reads this, fs
    {
      Stored(keys, Content())
    }

    /** The index that the file stands for; a file that does not parse stands for none. */
    ghost function FileIndex(): Index
      reads this, fs
    {
      Seen(All()).file
    }

    ghost function Now(): State
      reads this, fs
    {
      Seen(All())
    }

    constructor (fs: FileSystem, path: string, codec: Codec<KeyEntry>)
      requires LawfulStore(codec)
      ensures this.fs == fs && this.path == path && this.codec == codec && keys == map[] && Valid()
    {
      this.fs, this.path, this.codec, this.keys := fs, path, codec, map[];
    }

    method RegisterAPIKey(key: string, tok: Token)
      modifies this
      ensures keys == old(keys)[key := tok]
    {
      keys := keys[key := tok];
    }

    /** From an empty index, loading makes index and file agree. */
    method LoadKeyStore() returns (r: Result<seq<KeyEntry>>)
      requires Valid()
      modifies this
      ensures r == Content()
      ensures All() == Does(old(All()), Load) && Now() == Step(old(Now()), Load)
      ensures r.Ok? ==> forall i: nat :: LastOf(r.value, i) ==> Serves(keys, r.value[i])
      ensures r.Ok? ==> forall k :: (forall e :: e in r.value ==> e.key != k) ==> SameAt(keys, old(keys), k)
    {
      DoesIsStep(All(), Load);
      r := Entries(codec, Get(fs.files, path));
      if r.Err? {
        return;
      }
      var entries := r.value;
      for i := 0 to |entries|
        invariant keys == Registered(old(keys), entries[..i])
      {
        RegisterAPIKey(entries[i].key, TokenOf(entries[i]));
        assert entries[..i + 1][..i] == entries[..i];
      }
      assert entries[..|entries|] == entries;
      AllServed(old(keys), entries);
      forall k | forall e :: e in entries ==> e.key != k ensures SameAt(keys, old(keys), k) {
        RegisteredOthers(old(keys), entries, k);
      }
    }

    /** writeEntries, as far as the store sees it. */
    method Rewrite(entries: seq<KeyEntry>, tmp: string, torn: string, fault: Fault) returns (r: Reply)
      requires Valid() && tmp !in fs.files && tmp != path && fault != AtChmod
      modifies fs
      ensures r.Nil? <==> fault.NoFault?
      ensures Content() == if Reached(fault) then Ok(entries) else old(Content())
    {
      r := WriteEntries(fs, codec, path, entries, tmp, torn, fault);
      EncodedEntries(codec, entries);
    }

    /** A successful save adds the entry to both; a failed one leaves both, unless the final chmod failed. */
    method SaveKeyEntry(entry: KeyEntry, tmp: string, torn: string, fault: Fault) returns (r: Reply)
      requires Valid() && tmp !in fs.files && tmp != path && fault != AtChmod
      modifies this, fs
      ensures r.Nil? <==> old(Content()).Ok? && fault.NoFault?
      ensures All() == Does(old(All()), Save(entry, fault)) && Now() == Step(old(Now()), Save(entry, fault))
      ensures r.Nil? ==>
                && Serves(keys, entry) && keys - {entry.key} == old(keys) - {entry.key}
                && Content() == Ok(old(Content()).value + [entry])
      ensures !(fault.NoFault? || fault.AtFinalChmod?) ==> All() == old(All())
      ensures fault.AtFinalChmod? && old(Content()).Ok? ==>
                keys == old(keys) && Content() == Ok(old(Content()).value + [entry])
    {
      DoesIsStep(All(), Save(entry, fault));
      var loaded := Entries(codec, Get(fs.files, path));
      if loaded.Err? {
        return Failed(loaded.code);
      }
      var entries := loaded.value + [entry];
      r := Rewrite(entries, tmp, torn, fault);
      if r.Failed? {
        return;
      }
      RegisterAPIKey(entry.key, TokenOf(entry));
    }

    /** A successful revocation removes the key from both; when only the final chmod fails the file has forgotten
        the key and the index has not. */
    method RevokeKey(key: string, tmp: string, torn: string, fault: Fault) returns (r: Reply)
      requires Valid() && tmp !in fs.files && tmp != path && fault != AtChmod
      modifies this, fs
      ensures r.Nil? <==> key in old(FileIndex()) && fault.NoFault?
      ensures All() == Does(old(All()), Revoke(key, fault)) && Now() == Step(old(Now()), Revoke(key, fault))
      ensures r.Nil? ==> keys == old(keys) - {key}
      ensures key in old(FileIndex()) && (fault.NoFault? || fault.AtFinalChmod?) ==>
                && Content() == Ok(Without(old(Content()).value, key))
                && forall e :: e in Content().value ==> e.key != key
      ensures !(fault.NoFault? || fault.AtFinalChmod?) ==> All() == old(All())
    {
      DoesIsStep(All(), Revoke(key, fault));
      var loaded := Entries(codec, Get(fs.files, path));
      if loaded.Err? {
        return Failed(loaded.code);
      }
      var list := loaded.value;
      var filtered, found := Filtered(list, key);
      Revoked(codec, list, key);
      if !found {
        return Failed(Internal);
      }
      r := Rewrite(filtered, tmp, torn, fault);
      if r.Failed? {
        return;
      }
      keys := keys - {key};
    }

    method Validate(token: string) returns (r: Result<string>)
      ensures r == if token != "" && token in keys then Ok(keys[token].role) else Err(Unauthorized)
    {
      if token == "" {
        return Err(Unauthorized);
      }
      if token !in keys {
        return Err(Unauthorized);
      }
      return Ok(keys[token].role);
    }
  }

  // ---- whole runs ----

  function Run(s: State, requests: seq<Request>): State
    decreases |requests|
  {
    if requests == [] then s else Run(Step(s, requests[0]), requests[1..])
  }

  predicate NoLateFault(q: Request) { q.Load? || !q.fault.AtFinalChmod? }

  ghost predicate Within(s: State) { forall k :: k in s.keys ==> k in s.file && s.keys[k] == s.file[k] }

  /** A request after which the index has what the file has under a key. */
  predicate Settles(q: Request, k: string) {
    match q
    case Load => true
    case Save(e, f) => f.NoFault? && e.key == k
    case Revoke(key, f) => f.NoFault? && key == k
  }

  /** The keys of the file that the index does not have. */
  ghost function Missing(s: State): set<string> { s.file.Keys - s.keys.Keys }

  ghost predicate Settled(k: string, requests: seq<Request>) {
    exists i :: 0 <= i < |requests| && Settles(requests[i], k)
  }

  lemma WithinAgrees(s: State)
    requires Within(s)
    ensures s.keys == s.file <==> Missing(s) == {}
  {
    if Missing(s) == {} {
      assert forall k :: k in s.file ==> k in s.keys by {
        forall k | k in s.file ensures k in s.keys {
          assert k !in Missing(s);
        }
      }
      assert s.keys.Keys == s.file.Keys;
    }
  }

  lemma StepMissing(s: State, q: Request)
    requires Within(s) && !s.broken && NoLateFault(q)
    ensures Within(Step(s, q)) && !Step(s, q).broken
    ensures forall k :: k in Missing(Step(s, q)) <==> k in Missing(s) && !Settles(q, k)
  {
    match q
    case Load => assert s.keys + s.file == s.file;
    case Save(e, f) =>
    case Revoke(k, f) =>
  }

  /** Without late faults, index and file agree at the end of a run exactly when some request settled each key
      that the index was missing at its start: a load settles all, a save or a revocation its own. */
  lemma {:induction false} AgreementIff(s: State, requests: seq<Request>)
    requires Within(s) && !s.broken
    requires forall q :: q in requests ==> NoLateFault(q)
    ensures Within(Run(s, requests)) && !Run(s, requests).broken
    ensures Run(s, requests).keys == Run(s, requests).file <==> forall k :: k in Missing(s) ==> Settled(k, requests)
    decreases |requests|
  {
    if requests == [] {
      WithinAgrees(s);
    } else {
      var q, rest := requests[0], requests[1..];
      assert q in requests;
      assert forall x :: x in rest ==> x in requests;
      StepMissing(s, q);
      AgreementIff(Step(s, q), rest);
      forall k | k in Missing(s) ensures Settled(k, requests) <==> Settles(q, k) || Settled(k, rest) {
        SettledCons(k, requests);
      }
    }
  }

  lemma SettledCons(k: string, requests: seq<Request>)
    requires requests != []
    ensures Settled(k, requests) <==> Settles(requests[0], k) || Settled(k, requests[1..])
  {
    if Settled(k, requests[1..]) {
      var i :| 0 <= i < |requests| - 1 && Settles(requests[1..][i], k);
      assert Settles(requests[i + 1], k);
    }
    if Settled(k, requests) && !Settles(requests[0], k) {
      var i :| 0 <= i < |requests| && Settles(requests[i], k);
      assert Settles(requests[1..][i - 1], k);
    }
  }

  /** Without late faults the index never holds what the file does not, and once a load has run, they agree. */
  lemma {:induction false} IndexFollowsFile(s: State, requests: seq<Request>)
    requires Within(s)
    requires forall q :: q in requests ==> NoLateFault(q)
    ensures Within(Run(s, requests))
    ensures s.keys == s.file || (exists i :: 0 <= i < |requests| && requests[i].Load?) ==>
              Run(s, requests).keys == Run(s, requests).file
    decreases |requests|
  {
    if requests == [] {
    } else {
      var q, rest := requests[0], requests[1..];
      assert q in requests;
      StepFollows(s, q);
      IndexFollowsFile(Step(s, q), rest);
      if exists i :: 0 <= i < |requests| && requests[i].Load? {
        var i :| 0 <= i < |requests| && requests[i].Load?;
        if i > 0 { assert rest[i - 1].Load?; }
      }
    }
  }

  function RunStored(s: Stored, requests: seq<Request>): Stored
    decreases |requests|
  {
    if requests == [] then s else RunStored(Does(s, requests[0]), requests[1..])
  }

  lemma {:induction false} RunSeen(s: Stored, requests: seq<Request>)
    ensures Seen(RunStored(s, requests)) == Run(Seen(s), requests)
    decreases |requests|
  {
    if requests == [] {
    } else {
      DoesIsStep(s, requests[0]);
      RunSeen(Does(s, requests[0]), requests[1..]);
    }
  }

  lemma AgreeingServes(s: Stored, requests: seq<Request>, token: string)
    requires Within(Seen(s)) && forall q :: q in requests ==> NoLateFault(q)
    requires Seen(s).keys == Seen(s).file || exists i :: 0 <= i < |requests| && requests[i].Load?
    ensures var end := RunStored(s, requests);
            && (end.entries.Err? ==> end.keys == map[])
            && (end.entries.Ok? ==>
                  && (token in end.keys <==> exists e :: e in end.entries.value && e.key == token)
                  && forall i: nat :: LastOf(end.entries.value, i) && end.entries.value[i].key == token ==>
                       Serves(end.keys, end.entries.value[i]))
  {
    var end := RunStored(s, requests);
    RunSeen(s, requests);
    IndexFollowsFile(Seen(s), requests);
    if end.entries.Ok? {
      FoldKeys(end.entries.value);
      AllServed(map[], end.entries.value);
    }
  }

  /** Over any run from a process start, without late faults, in which the store was loaded: a key is valid exactly when
      the file has an entry for it, and then with the role and subject of its last entry. */
  lemma ValidatesLastEntry(entries: Result<seq<KeyEntry>>, requests: seq<Request>, token: string)
    requires forall q :: q in requests ==> NoLateFault(q)
    requires exists i :: 0 <= i < |requests| && requests[i].Load?
    ensures var end := RunStored(Stored(map[], entries), requests);
            && (end.entries.Err? ==> end.keys == map[])
            && (end.entries.Ok? ==>
                  && (token in end.keys <==> exists e :: e in end.entries.value && e.key == token)
                  && forall i: nat :: LastOf(end.entries.value, i) && end.entries.value[i].key == token ==>
                       Serves(end.keys, end.entries.value[i]))
  {
    AgreeingServes(Stored(map[], entries), requests, token);
  }

  /** What a file holds: nothing when it is absent or blank, an error when it does not parse. */
  lemma EntriesIff(codec: Codec<KeyEntry>, content: Option<string>)
    ensures Entries(codec, content) ==
            if content.None? || Blank(content.value) then Ok([])
            else if codec.decode(content.value).None? then Err(Internal)
            else Ok(codec.decode(content.value).value)
  {
    if content.Some? { BlankIff(content.value); }
  }

  lemma StepFollows(s: State, q: Request)
    requires Within(s) && NoLateFault(q)
    ensures Within(Step(s, q))
    ensures s.keys == s.file || q.Load? ==> Step(s, q).keys == Step(s, q).file
  {
    if q.Load? {
      assert s.keys + s.file == s.file;
    }
  }

  /** A late fault breaks the agreement exactly when a save changed the file or a revocation removed a key. */
  lemma AgreementAfterLateFault(s: State, q: Request)
    requires s.keys == s.file && !s.broken
    ensures Step(s, q).keys == Step(s, q).file <==>
            match q
            case Load => true
            case Save(e, f) => !f.AtFinalChmod? || (e.key in s.keys && s.keys[e.key] == TokenOf(e))
            case Revoke(k, f) => !f.AtFinalChmod? || k !in s.keys
  {
    match q
    case Load =>
    case Save(e, f) => assert s.file[e.key := TokenOf(e)][e.key] == TokenOf(e);
    case Revoke(k, f) => assert k !in s.file - {k};
  }

  /** So a save before the first load leaves an index that disagrees whenever the file has another key. */
  lemma SaveBeforeLoadDisagrees(file: Index, e: KeyEntry, k: string)
    requires k in file && k != e.key
    ensures var s := Run(State(map[], file, false), [Save(e, NoFault)]);
            s.keys != s.file
  {
    var start := State(map[], file, false);
    AgreementIff(start, [Save(e, NoFault)]);
    assert k in Missing(start) && !Settled(k, [Save(e, NoFault)]);
  }
}
