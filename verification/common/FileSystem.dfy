/** A file system with the calls that replacing a file atomically takes. */
module FileSystems {
  import opened Wrappers

  type Files = map<string, string>

  function Get(files: Files, path: string): Option<string> { if path in files then Some(files[path]) else None }

  /** The call at which an atomic replacement fails. */
  datatype Fault = NoFault | AtMkdir | AtCreate | AtChmod | AtWrite | AtSync | AtClose | AtRename | AtFinalChmod

  /** `crashes` collects every state that a crash could leave behind. */
  class FileSystem {
    var files: Files
    ghost var crashes: seq<Files>

    constructor (files: Files)
      ensures this.files == files && this.crashes == [files]
    {
      this.files, this.crashes := files, [files];
    }

    /** os.CreateTemp. */
    method Create(tmp: string)
      modifies this
      ensures files == old(files)[tmp := ""] && crashes == old(crashes) + [files]
    {
      files := files[tmp := ""];
      crashes := crashes + [files];
    }

    /** A write passes through, and a failed one stops at, some torn content. */
    method Write(tmp: string, data: string, torn: string, ok: bool)
      modifies this
      ensures files == old(files)[tmp := if ok then data else torn]
      ensures crashes == old(crashes) + [old(files)[tmp := torn], files]
    {
      crashes := crashes + [files[tmp := torn]];
      files := files[tmp := if ok then data else torn];
      crashes := crashes + [files];
    }

    method Remove(path: string)
      modifies this
      ensures files == old(files) - {path} && crashes == old(crashes) + [files]
    {
      files := files - {path};
      crashes := crashes + [files];
    }

    method Rename(from: string, to: string)
      requires from in files
      modifies this
      ensures files == (old(files) - {from})[to := old(files)[from]] && crashes == old(crashes) + [files]
    {
      files := (files - {from})[to := files[from]];
      crashes := crashes + [files];
    }
  }

  /** Apart from the temporary file, `s` is one of two states. */
  ghost predicate Either(s: Files, tmp: string, before: Files, after: Files) {
    s - {tmp} == before || s - {tmp} == after
  }

  /** Since `from` states, only crash states of one replacement have been added. */
  twostate predicate OnlyReplaces(fs: FileSystem, tmp: string, before: Files, after: Files)
    reads fs
  {
    Added(old(fs.crashes), fs.crashes, tmp, before, after)
  }

  ghost predicate Added(from: seq<Files>, to: seq<Files>, tmp: string, before: Files, after: Files) {
    && |from| <= |to| && to[..|from|] == from
    && forall k :: |from| <= k < |to| ==> Either(to[k], tmp, before, after)
  }

  lemma AddedInTurn(a: seq<Files>, b: seq<Files>, c: seq<Files>, tmp: string, before: Files, after: Files)
    requires Added(a, b, tmp, before, after) && Added(b, c, tmp, before, after)
    ensures Added(a, c, tmp, before, after)
  {
    assert c[..|a|] == c[..|b|][..|a|];
    forall k | |a| <= k < |c| ensures Either(c[k], tmp, before, after) {
      if k < |b| { assert c[..|b|][k] == b[k]; }
    }
  }

  /** A change of the temporary file is no change of the others. */
  lemma PutAside(files: Files, before: Files, tmp: string, data: string)
    requires tmp !in before && files - {tmp} == before
    ensures files[tmp := data] == before[tmp := data] && files[tmp := data] - {tmp} == before
  {
  }

  /** A write to a temporary file that is there already. */
  method PutTemp(fs: FileSystem, tmp: string, data: string, torn: string, ok: bool, ghost before: Files)
    requires tmp !in before && tmp in fs.files && fs.files - {tmp} == before
    modifies fs
    ensures fs.files == before[tmp := if ok then data else torn]
    ensures fs.files - {tmp} == before
    ensures OnlyReplaces(fs, tmp, before, before)
  {
    PutAside(fs.files, before, tmp, torn);
    PutAside(fs.files, before, tmp, data);
    fs.Write(tmp, data, torn, ok);
  }

  /** atomicWriteFile: a temporary file, written and synced, then renamed over the target. The error paths
      remove the temporary file. */
  method AtomicWriteFile(fs: FileSystem, path: string, data: string, tmp: string, torn: string, fault: Fault)
    returns (r: Reply)
    requires tmp !in fs.files && tmp != path && fault != AtFinalChmod
    modifies fs
    ensures r == if fault.NoFault? then Nil else Failed(Internal)
    ensures fs.files == if r.Nil? then old(fs.files)[path := data] else old(fs.files)
    ensures OnlyReplaces(fs, tmp, old(fs.files), old(fs.files)[path := data])
  {
    ghost var before, start := fs.files, fs.crashes;
    if fault.AtMkdir? || fault.AtCreate? {
      return Failed(Internal);
    }
    PutAside(fs.files, before, tmp, "");
    fs.Create(tmp);
    if fault.AtChmod? {
      RemoveTemp(fs, tmp, before);
      return Failed(Internal);
    }
    ghost var created := fs.crashes;
    PutTemp(fs, tmp, data, torn, !fault.AtWrite?, before);
    AddedInTurn(start, created, fs.crashes, tmp, before, before[path := data]);
    if fault.AtWrite? || fault.AtSync? || fault.AtClose? || fault.AtRename? {
      ghost var written := fs.crashes;
      RemoveTemp(fs, tmp, before);
      AddedInTurn(start, written, fs.crashes, tmp, before, before[path := data]);
      return Failed(Internal);
    }
    RenameTemp(fs, path, data, tmp, before);
    return Nil;
  }

  method RemoveTemp(fs: FileSystem, tmp: string, ghost before: Files)
    requires tmp !in before && fs.files - {tmp} == before
    modifies fs
    ensures fs.files == before && fs.crashes == old(fs.crashes) + [before]
    ensures OnlyReplaces(fs, tmp, before, before)
  {
    fs.Remove(tmp);
    assert before - {tmp} == before;
  }

  method RenameTemp(fs: FileSystem, path: string, data: string, tmp: string, ghost before: Files)
    requires tmp !in before && tmp != path && fs.files == before[tmp := data] && fs.files - {tmp} == before
    modifies fs
    ensures fs.files == before[path := data] && fs.crashes == old(fs.crashes) + [before[path := data]]
    ensures fs.files - {tmp} == before[path := data]
  {
    fs.Rename(tmp, path);
    assert before[path := data] - {tmp} == before[path := data];
  }
}
