/** The configuration plumbing of settings.go: where the realize.yaml file is
    read from and written to, how the .realize directory is created, used
    and deleted, and which failures end the process. Every operation is a
    function of the filesystem before it; it returns what the Go function
    returns (or that the process exited), the os calls it made in order, and
    the filesystem after it. */
module Config {
  import opened FileSystem

  /** The one field of Settings that these operations read: the name of the
      configuration file. */
  datatype Settings = Settings(file: string)

  /** The directory realize keeps its files in. */
  const Directory: string := ".realize"

  /** yaml.Marshal and yaml.Unmarshal for values of type D, seen only as
      success (with the produced bytes or value) or failure. */
  datatype Codec<!D> = Codec(marshal: D -> Option<Bytes>, unmarshal: Bytes -> Option<D>)

  /** What log.Fatalln was given before the process exited: the extra
      messages, when fatal received any, and the error. */
  datatype Exit = Exit(context: Option<seq<string>>, cause: Error)

  /** How an operation ended: returning a value, returning an error, or with
      the process terminated. */
  datatype Outcome<T> = Ok(value: T) | Err(error: Error) | Terminated(exit: Exit)

  /** An operation's outcome, the os calls it made in order, and the
      filesystem afterwards. */
  datatype Run<T> = Run(outcome: Outcome<T>, calls: seq<Call>, fs: Fs)

  /** fatal(err, msgs...): nothing happens for a nil error; otherwise the
      process exits, printing the messages first when there are any. */
  function Fatal(err: Option<Error>, msgs: seq<string>): (exit: Option<Exit>)
    ensures exit.None? <==> err.None?
    ensures exit.Some? ==> exit.value.cause == err.value
    ensures exit.Some? ==> (exit.value.context.Some? <==> |msgs| > 0)
    ensures exit.Some? && |msgs| > 0 ==> exit.value.context.value == msgs
  {
    if err.None? then None
    else if |msgs| > 0 then Some(Exit(Some(msgs), err.value))
    else Some(Exit(None, err.value))
  }

  /** validate(err) = fatal(err, ""): a single empty message is passed, so
      any error exits through the branch that prints a context. When it
      returns, validate returns nil. */
  function Validate(err: Option<Error>): (exit: Option<Exit>)
    ensures exit.None? <==> err.None?
    ensures exit.Some? ==> exit.value == Exit(Some([""]), err.value)
  {
    Fatal(err, [""])
  }

  /** write(name, data): ioutil.WriteFile followed by validate. It never
      returns an error: it either succeeds or ends the process. */
  function Write(fs: Fs, name: string, data: Bytes): (r: Run<()>)
    ensures r.calls == [WriteFile(name)]
    ensures !r.outcome.Err?
    ensures r.outcome.Ok? <==> WriteError(fs, name).None?
    ensures r.outcome.Ok? ==> r.fs.files == fs.files[name := data] && r.fs.dirs == fs.dirs
    ensures r.outcome.Terminated? ==> r.outcome.exit == Exit(Some([""]), WriteFailed(name)) && r.fs == fs
    ensures r.fs.failing == fs.failing
  {
    match Validate(WriteError(fs, name))
    case Some(exit) => Run(Terminated(exit), [WriteFile(name)], fs)
    case None => Run(Ok(()), [WriteFile(name)], WithFile(fs, name, data))
  }

  /** stream(file): a stat error is returned as it is, a read error ends the
      process, and otherwise the file's contents are returned. */
  function Stream(fs: Fs, p: string): (r: Run<Bytes>)
    ensures r.fs == fs
    ensures StatError(fs, p).Some? ==> r.outcome == Err(StatError(fs, p).value) && r.calls == [Stat(p)]
    ensures StatError(fs, p).None? ==> r.calls == [Stat(p), ReadFile(p)] && !r.outcome.Err?
    ensures r.outcome.Ok? <==> StatError(fs, p).None? && ReadError(fs, p).None?
    ensures r.outcome.Ok? ==> p in fs.files && r.outcome.value == fs.files[p]
    ensures r.outcome.Terminated? ==> r.outcome.exit == Exit(Some([""]), ReadFailed(p))
  {
    match StatError(fs, p)
    case Some(err) => Run(Err(err), [Stat(p)], fs)
    case None =>
      match Validate(ReadError(fs, p))
      case Some(exit) => Run(Terminated(exit), [Stat(p), ReadFile(p)], fs)
      case None => Run(Ok(fs.files[p]), [Stat(p), ReadFile(p)], fs)
  }

  /** The file read takes its configuration from: the namespaced
      .realize/<file> when a stat on it succeeds, the bare <file> on any stat
      error. */
  function ConfigPath(s: Settings, fs: Fs): (p: string)
    ensures p == Join(Directory, s.file) <==> StatError(fs, Join(Directory, s.file)).None?
    ensures p != Join(Directory, s.file) ==> p == s.file
  {
    JoinWithin(Directory, s.file);
    var path := Join(Directory, s.file);
    if StatError(fs, path).None? then path else s.file
  }

  /** read(out): stat the namespaced path, stream the chosen file, then
      unmarshal what was read. The filesystem is left as it was. */
  function Read<D>(s: Settings, fs: Fs, codec: Codec<D>): (r: Run<D>)
    ensures r.fs == fs
    ensures |r.calls| >= 2
    ensures r.calls[..2] == [Stat(Join(Directory, s.file)), Stat(ConfigPath(s, fs))]
    ensures var p := ConfigPath(s, fs);
      StatError(fs, p).Some? ==> r.outcome == Err(StatError(fs, p).value) && |r.calls| == 2
    ensures var p := ConfigPath(s, fs);
      StatError(fs, p).None? ==> r.calls == [Stat(Join(Directory, s.file)), Stat(p), ReadFile(p)]
    ensures var p := ConfigPath(s, fs);
      r.outcome.Terminated? <==> StatError(fs, p).None? && ReadError(fs, p).Some?
    ensures r.outcome.Terminated? ==> r.outcome.exit == Exit(Some([""]), ReadFailed(ConfigPath(s, fs)))
    ensures var p := ConfigPath(s, fs);
      r.outcome.Ok? <==>
        StatError(fs, p).None? && ReadError(fs, p).None? && codec.unmarshal(fs.files[p]).Some?
    ensures var p := ConfigPath(s, fs);
      r.outcome.Ok? ==> p in fs.files && Some(r.outcome.value) == codec.unmarshal(fs.files[p])
    ensures var p := ConfigPath(s, fs);
      r.outcome == Err(UnmarshalFailed) <==>
        StatError(fs, p).None? && ReadError(fs, p).None? && codec.unmarshal(fs.files[p]).None?
  {
    var p := ConfigPath(s, fs);
    var st := Stream(fs, p);
    var calls := [Stat(Join(Directory, s.file))] + st.calls;
    match st.outcome
    case Err(err) => Run(Err(err), calls, fs)
    case Terminated(exit) => Run(Terminated(exit), calls, fs)
    case Ok(content) =>
      match codec.unmarshal(content)
      case None => Run(Err(UnmarshalFailed), calls, fs)
      case Some(v) => Run(Ok(v), calls, fs)
  }

  /** The file record writes to: the bare <file> only when .realize was
      reported missing and could not be created, .realize/<file> otherwise
      (also when .realize exists as a plain file or its stat failed). */
  function RecordTarget(s: Settings, fs: Fs): (p: string)
    ensures p == s.file <==> IsNotExist(StatError(fs, Directory)) && MkdirError(fs, Directory).Some?
    ensures p != s.file ==> p == Join(Directory, s.file)
  {
    JoinWithin(Directory, s.file);
    if IsNotExist(StatError(fs, Directory)) && MkdirError(fs, Directory).Some? then s.file
    else Join(Directory, s.file)
  }

  /** .realize was reported missing and os.Mkdir created it. */
  predicate Creates(fs: Fs) {
    IsNotExist(StatError(fs, Directory)) && MkdirError(fs, Directory).None?
  }

  /** record(out): marshal, make sure .realize exists, write the bytes. */
  function Record<D>(s: Settings, fs: Fs, codec: Codec<D>, out: D): (r: Run<()>)
    ensures codec.marshal(out).None? ==> r == Run(Err(MarshalFailed), [], fs)
    ensures codec.marshal(out).Some? ==> !r.outcome.Err?
    ensures codec.marshal(out).Some? ==>
      r.calls == [Stat(Directory)]
        + (if IsNotExist(StatError(fs, Directory)) then [Mkdir(Directory)] else [])
        + [WriteFile(RecordTarget(s, fs))]
    ensures codec.marshal(out).Some? ==>
      (r.outcome.Ok? <==>
        WriteError(if Creates(fs) then WithDir(fs, Directory) else fs, RecordTarget(s, fs)).None?)
    ensures r.outcome.Ok? ==>
      && codec.marshal(out).Some?
      && r.fs.files == fs.files[RecordTarget(s, fs) := codec.marshal(out).value]
    ensures codec.marshal(out).Some? ==> r.fs.dirs == fs.dirs + (if Creates(fs) then {Directory} else {})
    ensures r.outcome.Terminated? ==>
      r.outcome.exit == Exit(Some([""]), WriteFailed(RecordTarget(s, fs))) && r.fs.files == fs.files
    ensures r.fs.failing == fs.failing
  {
    match codec.marshal(out)
    case None => Run(Err(MarshalFailed), [], fs)
    case Some(y) =>
      if IsNotExist(StatError(fs, Directory)) then
        if MkdirError(fs, Directory).Some? then
          var w := Write(fs, s.file, y);
          Run(w.outcome, [Stat(Directory), Mkdir(Directory)] + w.calls, w.fs)
        else
          var w := Write(WithDir(fs, Directory), Join(Directory, s.file), y);
          Run(w.outcome, [Stat(Directory), Mkdir(Directory)] + w.calls, w.fs)
      else
        var w := Write(fs, Join(Directory, s.file), y);
        Run(w.outcome, [Stat(Directory)] + w.calls, w.fs)
  }

  /** The file create opens: path/.realize/name exactly when a stat on the
      bare .realize (in the working directory, not under path) succeeds,
      path/name otherwise. */
  function CreateTarget(fs: Fs, path: string, name: string): (p: string)
    ensures p == Join(Join(path, Directory), name) <==> StatError(fs, Directory).None?
    ensures p != Join(Join(path, Directory), name) ==> p == Join(path, name)
  {
    JoinNested(path, Directory, name);
    if StatError(fs, Directory).None? then Join(Join(path, Directory), name) else Join(path, name)
  }

  /** create(path, name): open the chosen file for appending, creating it if
      missing; an open failure ends the process. The result stands for the
      returned *os.File by the path it was opened on. */
  function Create(s: Settings, fs: Fs, path: string, name: string): (r: Run<string>)
    ensures r.calls == [Stat(Directory), OpenFile(CreateTarget(fs, path, name))]
    ensures !r.outcome.Err?
    ensures r.outcome.Ok? <==> OpenError(fs, CreateTarget(fs, path, name)).None?
    ensures r.outcome.Ok? ==>
      r.outcome.value == CreateTarget(fs, path, name) && r.fs == Opened(fs, r.outcome.value)
    ensures r.outcome.Terminated? ==>
      r.outcome.exit == Exit(Some([""]), OpenFailed(CreateTarget(fs, path, name))) && r.fs == fs
  {
    var file := CreateTarget(fs, path, name);
    match Validate(OpenError(fs, file))
    case Some(exit) => Run(Terminated(exit), [Stat(Directory), OpenFile(file)], fs)
    case None => Run(Ok(file), [Stat(Directory), OpenFile(file)], Opened(fs, file))
  }

  /** del(d): RemoveAll unless the stat reports d missing, in which case the
      not-exist error itself is returned. Any other stat error still leads to
      RemoveAll. */
  function Del(s: Settings, fs: Fs, d: string): (r: Run<()>)
    ensures !r.outcome.Terminated?
    ensures r.calls == [Stat(d)] <==> (d == "" || !Exists(fs, d)) && Stat(d) !in fs.failing
    ensures r.calls == [Stat(d)] ==> r.outcome == Err(NotExist(d)) && r.fs == fs
    ensures r.calls != [Stat(d)] ==> r.calls == [Stat(d), RemoveAll(d)]
    ensures r.outcome.Ok? <==>
      ((d != "" && Exists(fs, d)) || Stat(d) in fs.failing) && (d == "" || RemoveAll(d) !in fs.failing)
    ensures r.outcome.Ok? ==> r.fs == Removed(fs, d)
    ensures r.outcome.Ok? && d != "" ==> !Exists(r.fs, d)
    ensures r.outcome.Ok? && d == "" ==> r.fs == fs
    ensures r.outcome.Err? && r.calls != [Stat(d)] ==> r.outcome.error == RemoveFailed(d) && r.fs == fs
  {
    var st := StatError(fs, d);
    if !IsNotExist(st) then
      match RemoveError(fs, d)
      case Some(err) => Run(Err(err), [Stat(d), RemoveAll(d)], fs)
      case None => Run(Ok(()), [Stat(d), RemoveAll(d)], Removed(fs, d))
    else
      Run(Err(st.value), [Stat(d)], fs)
  }

  /** In a well-formed tree, nothing namespaced under .realize exists
      while .realize itself is missing. */
  lemma NamespacedNeedsDirectory(fs: Fs, file: string)
    requires Wf(fs) && !Exists(fs, Directory)
    ensures !Exists(fs, Join(Directory, file))
  {
    var ns := Join(Directory, file);
    if file != "" {
      assert ns[|Directory|] == '/' && ns[..|Directory|] == Directory;
      assert !ParentsExist(fs.dirs, ns);
    }
  }

  /** What record writes, read returns: a successful record followed by a
      read that meets no injected failure on the written file yields the
      unmarshalled bytes, and so the recorded value when the codec round
      trips. */
  lemma {:induction false} RecordThenRead<D>(s: Settings, fs: Fs, codec: Codec<D>, out: D)
    requires Wf(fs)
    requires Record(s, fs, codec, out).outcome.Ok?
    requires Stat(RecordTarget(s, fs)) !in fs.failing && ReadFile(RecordTarget(s, fs)) !in fs.failing
    ensures var y := codec.marshal(out).value;
      Read(s, Record(s, fs, codec, out).fs, codec).outcome ==
        (if codec.unmarshal(y).Some? then Ok(codec.unmarshal(y).value) else Err(UnmarshalFailed))
    ensures codec.unmarshal(codec.marshal(out).value) == Some(out) ==>
      Read(s, Record(s, fs, codec, out).fs, codec).outcome == Ok(out)
  {
    var fs' := Record(s, fs, codec, out).fs;
    var t := RecordTarget(s, fs);
    var ns := Join(Directory, s.file);
    assert t in fs'.files && fs'.failing == fs.failing;
    if t == s.file {
      NamespacedNeedsDirectory(fs, s.file);
      assert !Exists(fs', ns);
    }
    assert ConfigPath(s, fs') == t;
  }

  /** When .realize exists as a plain file, record does not fall back to the
      bare file name: it tries .realize/<file>, which cannot be created, and
      the process ends. */
  lemma RecordOverPlainFile<D>(s: Settings, fs: Fs, codec: Codec<D>, out: D)
    requires Wf(fs) && Directory in fs.files && s.file != ""
    requires codec.marshal(out).Some? && Stat(Directory) !in fs.failing
    ensures Record(s, fs, codec, out).outcome ==
      Terminated(Exit(Some([""]), WriteFailed(Join(Directory, s.file))))
  {
    var ns := Join(Directory, s.file);
    assert ns[|Directory|] == '/' && ns[..|Directory|] == Directory;
    assert !ParentsExist(fs.dirs, ns);
  }

  /** A second del of the same path finds it missing and returns the
      not-exist error: del is not idempotent. */
  lemma DelTwice(s: Settings, fs: Fs, d: string)
    requires Del(s, fs, d).outcome.Ok? && Stat(d) !in fs.failing
    ensures Del(s, Del(s, fs, d).fs, d) == Run(Err(NotExist(d)), [Stat(d)], Del(s, fs, d).fs)
  {
    var fs' := Del(s, fs, d).fs;
    assert fs'.failing == fs.failing;
  }

  /** Once .realize has been deleted, read falls back to the bare file. */
  lemma DelThenRead<D>(s: Settings, fs: Fs, codec: Codec<D>)
    requires Del(s, fs, Directory).outcome.Ok?
    ensures ConfigPath(s, Del(s, fs, Directory).fs) == s.file
    ensures Read(s, Del(s, fs, Directory).fs, codec).calls[1] == Stat(s.file)
  {
    var fs' := Del(s, fs, Directory).fs;
    JoinWithin(Directory, s.file);
    assert !Exists(fs', Join(Directory, s.file));
  }

  /** record keeps the tree well formed. */
  lemma RecordWf<D>(s: Settings, fs: Fs, codec: Codec<D>, out: D)
    requires Wf(fs)
    ensures Wf(Record(s, fs, codec, out).fs)
  {
    var r := Record(s, fs, codec, out);
    if r.outcome.Ok? {
      var fs1 := if Creates(fs) then WithDir(fs, Directory) else fs;
      if Creates(fs) {
        WithDirWf(fs, Directory);
      }
      WithFileWf(fs1, RecordTarget(s, fs), codec.marshal(out).value);
    }
  }

  /** create keeps the tree well formed. */
  lemma CreateWf(s: Settings, fs: Fs, path: string, name: string)
    requires Wf(fs)
    ensures Wf(Create(s, fs, path, name).fs)
  {
    var r := Create(s, fs, path, name);
    if r.outcome.Ok? {
      OpenedWf(fs, r.outcome.value);
    }
  }

  /** del keeps the tree well formed. */
  lemma DelWf(s: Settings, fs: Fs, d: string)
    requires Wf(fs)
    ensures Wf(Del(s, fs, d).fs)
  {
    RemovedWf(fs, d);
  }
}
