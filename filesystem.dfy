/** An abstract filesystem standing in for the os and ioutil calls that
    settings.go makes. Paths are strings relative to the working directory of
    the process. Which calls fail is an oracle: the set `failing` of calls the
    host refuses (permissions, a full disk, a parent that is not a directory,
    a race with another process, ...); the calls that fail by their own
    semantics (reading a missing file, creating a directory that exists) fail
    without being listed. */
module FileSystem {

  datatype Option<T> = None | Some(value: T)

  /** File contents; opaque to the model. */
  type Bytes = seq<bv8>

  /** A call into the os package, as recorded in an operation's trace. */
  datatype Call =
    | Stat(path: string)
    | Mkdir(path: string)
    | ReadFile(path: string)
    | WriteFile(path: string)
    | OpenFile(path: string)
    | RemoveAll(path: string)

  /** The errors the operations can meet. NotExist is the one error for
      which os.IsNotExist holds. */
  datatype Error =
    | NotExist(path: string)
    | StatFailed(path: string)
    | MkdirFailed(path: string)
    | ReadFailed(path: string)
    | WriteFailed(path: string)
    | OpenFailed(path: string)
    | RemoveFailed(path: string)
    | MarshalFailed
    | UnmarshalFailed

  /** The regular files with their contents, the directories, and the calls
      that the host makes fail. */
  datatype Fs = Fs(files: map<string, Bytes>, dirs: set<string>, failing: set<Call>)

  predicate Exists(fs: Fs, p: string) {
    p in fs.files || p in fs.dirs
  }

  /** Every proper slash-terminated prefix of p names a directory: the
      condition under which p can be created. */
  predicate ParentsExist(dirs: set<string>, p: string) {
    forall k :: 0 < k < |p| && p[k] == '/' ==> p[..k] in dirs
  }

  /** A well-formed tree: the empty path names nothing, no path is both a
      file and a directory, and every entry hangs below existing directories. */
  predicate Wf(fs: Fs) {
    && !Exists(fs, "")
    && (forall q :: q in fs.files ==> q !in fs.dirs && ParentsExist(fs.dirs, q))
    && (forall q :: q in fs.dirs ==> ParentsExist(fs.dirs, q))
  }

  /** filepath.Join of two elements: empty elements are dropped and the others
      separated by a slash. */
  function Join(a: string, b: string): (j: string)
    ensures a != "" && b != "" ==> |j| == |a| + 1 + |b| && j[|a|] == '/'
    ensures a == "" || b == "" ==> |j| == |a| + |b|
    ensures j[..|a|] == a && j[|j| - |b|..] == b
  {
    if a == "" then b else if b == "" then a else a + "/" + b
  }

  /** q lies strictly below the directory p. */
  predicate Below(q: string, p: string) {
    |p| < |q| && q[..|p|] == p && q[|p|] == '/'
  }

  /** q is p or lies below it: what os.RemoveAll(p) deletes. */
  predicate Within(q: string, p: string) {
    q == p || Below(q, p)
  }

  /** The error os.Stat(p) returns; the empty path never exists. */
  function StatError(fs: Fs, p: string): (err: Option<Error>)
    ensures err.None? <==> p != "" && Exists(fs, p) && Stat(p) !in fs.failing
    ensures err == Some(NotExist(p)) <==> (p == "" || !Exists(fs, p)) && Stat(p) !in fs.failing
  {
    if Stat(p) in fs.failing then Some(StatFailed(p))
    else if p != "" && Exists(fs, p) then None
    else Some(NotExist(p))
  }

  /** os.IsNotExist applied to an optional error: nil is not a not-exist
      error. */
  predicate IsNotExist(err: Option<Error>)
    ensures IsNotExist(err) ==> err.Some?
  {
    err.Some? && err.value.NotExist?
  }

  /** Of the errors os.Stat returns, exactly the one for a missing path
      satisfies os.IsNotExist. */
  lemma StatNotExist(fs: Fs, p: string)
    ensures IsNotExist(StatError(fs, p)) <==> (p == "" || !Exists(fs, p)) && Stat(p) !in fs.failing
  {
  }

  /** p can name a new regular file: mkdir(2) and open(2) reject the empty
      path, and a path ending in a slash names a directory. */
  predicate NamesFile(p: string) {
    p != "" && p[|p| - 1] != '/'
  }

  /** The error os.Mkdir(p) returns; it fails on the empty path, on an
      existing path and below a missing directory. */
  function MkdirError(fs: Fs, p: string): (err: Option<Error>)
    ensures err.None? <==>
      p != "" && !Exists(fs, p) && ParentsExist(fs.dirs, p) && Mkdir(p) !in fs.failing
  {
    if Mkdir(p) in fs.failing || p == "" || Exists(fs, p) || !ParentsExist(fs.dirs, p) then
      Some(MkdirFailed(p))
    else None
  }

  /** The filesystem after a successful os.Mkdir(p). */
  function WithDir(fs: Fs, p: string): (fs': Fs)
    ensures p in fs'.dirs && fs'.files == fs.files && fs'.failing == fs.failing
    ensures forall q :: q != p ==> (q in fs'.dirs <==> q in fs.dirs)
  {
    fs.(dirs := fs.dirs + {p})
  }

  /** The error ioutil.WriteFile(p, ...) returns; it needs a file name, and
      cannot overwrite a directory nor create a file below a missing one. */
  function WriteError(fs: Fs, p: string): (err: Option<Error>)
    ensures err.None? <==>
      NamesFile(p) && p !in fs.dirs && ParentsExist(fs.dirs, p) && WriteFile(p) !in fs.failing
  {
    if WriteFile(p) in fs.failing || !NamesFile(p) || p in fs.dirs || !ParentsExist(fs.dirs, p) then
      Some(WriteFailed(p))
    else None
  }

  /** The filesystem after a successful ioutil.WriteFile: the file is created
      or truncated and holds exactly `data`. */
  function WithFile(fs: Fs, p: string, data: Bytes): (fs': Fs)
    ensures p in fs'.files && fs'.files[p] == data
    ensures forall q :: q != p ==> (q in fs'.files <==> q in fs.files)
    ensures forall q :: q != p && q in fs.files ==> fs'.files[q] == fs.files[q]
    ensures fs'.dirs == fs.dirs && fs'.failing == fs.failing
  {
    fs.(files := fs.files[p := data])
  }

  /** The error ioutil.ReadFile(p) returns; only a regular file, named by a
      non-empty path, can be read. */
  function ReadError(fs: Fs, p: string): (err: Option<Error>)
    ensures err.None? <==> p != "" && p in fs.files && ReadFile(p) !in fs.failing
  {
    if ReadFile(p) in fs.failing || p == "" || p !in fs.files then Some(ReadFailed(p)) else None
  }

  /** The error os.OpenFile(p, O_APPEND|O_WRONLY|O_CREATE|O_SYNC, ...) returns;
      like WriteFile it needs a file name below existing directories. */
  function OpenError(fs: Fs, p: string): (err: Option<Error>)
    ensures err.None? <==>
      NamesFile(p) && p !in fs.dirs && ParentsExist(fs.dirs, p) && OpenFile(p) !in fs.failing
  {
    if OpenFile(p) in fs.failing || !NamesFile(p) || p in fs.dirs || !ParentsExist(fs.dirs, p) then
      Some(OpenFailed(p))
    else None
  }

  /** The filesystem after a successful open for appending: a missing file is
      created empty, an existing one keeps its contents. */
  function Opened(fs: Fs, p: string): (fs': Fs)
    ensures p in fs'.files && fs'.dirs == fs.dirs && fs'.failing == fs.failing
    ensures p in fs.files ==> fs' == fs
    ensures forall q :: q in fs.files ==> q in fs'.files && fs'.files[q] == fs.files[q]
  {
    if p in fs.files then fs else fs.(files := fs.files[p := []])
  }

  /** The error os.RemoveAll(p) returns: a missing p and the empty path are
      not errors, so only the host can make it fail. */
  function RemoveError(fs: Fs, p: string): (err: Option<Error>)
    ensures err.None? <==> p == "" || RemoveAll(p) !in fs.failing
    ensures err.Some? ==> err.value == RemoveFailed(p)
  {
    if p != "" && RemoveAll(p) in fs.failing then Some(RemoveFailed(p)) else None
  }

  /** The filesystem after a successful os.RemoveAll(p); on the empty path it
      removes nothing. */
  function Removed(fs: Fs, p: string): (fs': Fs)
    ensures p == "" ==> fs' == fs
    ensures p != "" ==> !Exists(fs', p)
    ensures p != "" ==> forall q :: Exists(fs', q) <==> Exists(fs, q) && !Within(q, p)
    ensures forall q :: q in fs'.files ==> q in fs.files && fs'.files[q] == fs.files[q]
  {
    if p == "" then fs else
    var files := map q | q in fs.files && !Within(q, p) :: fs.files[q];
    var dirs := set q | q in fs.dirs && !Within(q, p);
    Fs(files, dirs, fs.failing)
  }

  /** A successful WriteFile keeps the tree well formed. */
  lemma WithFileWf(fs: Fs, p: string, data: Bytes)
    requires Wf(fs) && WriteError(fs, p).None?
    ensures Wf(WithFile(fs, p, data))
  {
  }

  /** A successful Mkdir keeps the tree well formed. */
  lemma WithDirWf(fs: Fs, p: string)
    requires Wf(fs) && MkdirError(fs, p).None?
    ensures Wf(WithDir(fs, p))
  {
    var fs' := WithDir(fs, p);
    forall q | Exists(fs', q)
      ensures ParentsExist(fs'.dirs, q)
    {
      assert ParentsExist(fs.dirs, q);
    }
  }

  /** A successful OpenFile keeps the tree well formed. */
  lemma OpenedWf(fs: Fs, p: string)
    requires Wf(fs) && OpenError(fs, p).None?
    ensures Wf(Opened(fs, p))
  {
  }

  /** A path whose parent directory lies within p lies within p itself. */
  lemma WithinPrefix(q: string, k: nat, p: string)
    requires 0 < k < |q| && q[k] == '/' && Within(q[..k], p)
    ensures Within(q, p)
  {
    if q[..k] == p {
      assert q[..|p|] == p;
    } else {
      assert q[..|p|] == q[..k][..|p|];
    }
  }

  /** A successful RemoveAll keeps the tree well formed: whatever survives
      has all its parents surviving too. */
  lemma RemovedWf(fs: Fs, p: string)
    requires Wf(fs)
    ensures Wf(Removed(fs, p))
  {
    var fs' := Removed(fs, p);
    forall q | Exists(fs', q)
      ensures ParentsExist(fs'.dirs, q)
    {
      assert ParentsExist(fs.dirs, q);
      forall k | 0 < k < |q| && q[k] == '/'
        ensures q[..k] in fs'.dirs
      {
        if Within(q[..k], p) {
          WithinPrefix(q, k, p);
        }
      }
    }
  }

  /** A non-empty directory joined with a name lies within it and differs
      from the bare name. */
  lemma JoinWithin(dir: string, name: string)
    requires dir != ""
    ensures Within(Join(dir, name), dir)
    ensures Join(dir, name) != name
    ensures name != "" ==> Below(Join(dir, name), dir)
  {
    if name != "" {
      var j := dir + "/" + name;
      assert j[..|dir|] == dir;
      assert |j| > |name|;
    }
  }

  /** Joining a non-empty directory between path and name always gives a
      longer, hence different, path than joining path and name directly. */
  lemma JoinNested(path: string, dir: string, name: string)
    requires dir != ""
    ensures |Join(Join(path, dir), name)| > |Join(path, name)|
  {
  }
}
