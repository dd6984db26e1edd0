# realize settings, modelled in Dafny

This project models `settings.go` of the `realize` build tool. That file holds
the tool's configuration plumbing and one small algorithm.

- **`random(n)`** (module `Token`, `random.dfy`) builds a random string of `n`
  letters. It takes 63-bit values from a random source and splits each into
  ten 6-bit groups. A group below 52 picks a letter of
  `abcdefghijklmnopqrstuvwxyzABCDEFGHIJKLMNOPQRSTUVWXYZ`; any other group is
  rejected. The letters fill the output from the last slot down to the first.
  The model is a method that fills an `array<char>` with the same `while` loop
  and the same variables: `i`, `cache` and `remain`. The random source is a
  parameter: the sequence `draws` of values below 2^63. The method is proved
  against the functions `Groups`, `Accepted` and `Spell`, which say which
  groups the draws hold, which of them are accepted, and how accepted groups
  become letters.
- **The filesystem** (module `FileSystem`, `filesystem.dfy`) stands in for
  the `os` and `ioutil` calls. It holds a map of regular files, a set of
  directories, and an oracle: the set `failing` of calls the host refuses.
  Each call reports whether it fails and, for `Stat`, whether the error is
  the not-exist one. `Stat` reports not-exist on a missing path. `Mkdir`
  fails on the empty path, on an existing path and below a missing
  directory. `WriteFile` and `OpenFile` fail on the empty path, on a path
  ending in `/`, on a directory and below a missing directory. `ReadFile`
  fails on anything but a regular file. `RemoveAll` succeeds on a missing
  path and does nothing on the empty one. `Stat` never finds the empty
  path. `Wf` is the shape of a real directory tree: the empty path names
  nothing, no path is both a file and a directory, and every entry sits below existing directories.
- **The settings operations** (module `Config`, `settings.dfy`) are `read`,
  `record`, `create`, `del`, `stream`, `write`, `validate` and `fatal`. Each
  is a pure function of the filesystem before the call. It returns a `Run`:
  - the outcome: a value, a returned error, or `Terminated` when
    `log.Fatalln` ends the process;
  - the os calls made, in order;
  - the filesystem afterwards.

  YAML is a `Codec`: a pair of functions that either produce a result or
  fail.

Some behaviours of the code are easy to miss:

- `del` on a missing directory returns the not-exist error from `os.Stat`.
  It does not succeed, so deleting twice is not idempotent (`DelTwice`).
- `record` never returns a filesystem error. Its `write` goes through
  `validate`, so a failed write ends the process instead of returning.
- When `.realize` is a plain file, `record` does not fall back to the bare
  file. The stat succeeds, so `record` writes to `.realize/<file>`, which
  cannot be created, and the process ends (`RecordOverPlainFile`).
- `validate(err)` calls `fatal(err, "")`. That is one (empty) message, so
  the branch that prints a context is taken.
- `create` stats `.realize` in the working directory, not
  `<path>/.realize`.
- `read` falls back to the bare file on any stat error of the namespaced
  path, and it does so silently.

## Model

| member | source | states |
|---|---|---|
| Token.Random | settings.go:61-76 | returns exactly `n` characters: the first `n` accepted 6-bit groups of the drawn values, spelled as letters from slot `n-1` down to slot 0; it stops right after the `n`-th accepted group (`StopsAt`), having drawn one value up front and one more after every 10 groups examined (`DrawsFor`); needs a source holding at least `n` accepted groups, since otherwise the Go loop does not end |
| Token.Step | settings.go:65-73 | one loop iteration: a new value is drawn exactly when `remain` is 0; the examined group is `cache % 64`; `cache` is shifted right by 6 and `remain` decremented whether or not the group is accepted; `i` drops below 0 only on an accepted group; the slots below the new `i` are left as they were |
| Token.Place | settings.go:68-71 | a group below 52 writes its letter at slot `i`, changes no other slot, and moves `i` down by one; a group of 52 or more leaves `i` and the whole buffer unchanged |
| Token.Chunk | settings.go:68-72 | the `remain` steps of `cache & letterIdxMask` then `cache >>= letterIdxBits` read exactly `remain` groups off one value, lowest bits first |
| Token.ChunkBelowRadix | settings.go:68-72 | every group read off the cache is a 6-bit value, below 64 |
| Token.Groups | settings.go:64-67 | the groups the loop can examine: `LetterIdxMax` (10) per drawn value |
| Token.GroupsDraw | settings.go:64-67 | the groups come off the values in the order they are drawn: drawing value `k` appends its 10 groups after those of the values before it |
| Token.Accepted | settings.go:68 | keeps exactly the groups below 52; the result is no longer than its input |
| Token.Spell | settings.go:69 | one character per accepted group, each of them one of the 52 letters |
| Token.SpellAt | settings.go:68-70 | the `j`-th accepted group fills slot `n-1-j` of the output, with the letter it indexes |
| Token.AcceptedAppend | settings.go:68-73 | acceptance is decided per group: the accepted groups of a concatenation are the concatenation of the accepted groups |
| Token.GroupsPrefix | settings.go:64-67 | the groups of the first `k` draws are the first `10*k` groups of all draws |
| Token.DrawnRefill | settings.go:65-66 | when `remain` reaches 0 and more letters are needed, a further value is available, and drawing it restores 10 unexamined groups |
| Token.DrawnExamine | settings.go:68-73 | examining a group takes the low 6 bits of `cache`, and shifting leaves the remaining groups of that value in order |
| Token.StopsAtUnique | settings.go:64-75 | the point where the loop stops is unique: it is the shortest prefix of the groups holding `n` accepted ones |
| Token.StopsAtZero | settings.go:63-64 | `random(0)` examines no group and uses only the value drawn before the loop |
| FileSystem.Join | settings.go:99 | the model's join of two elements, standing for `filepath.Join` without cleaning: the result starts with `a` and ends with `b`; when both are non-empty there is exactly one `/` between them, otherwise the result is the non-empty one |
| FileSystem.StatError | settings.go:80 | `os.Stat` succeeds exactly on an existing non-empty path not refused by the host, and reports not-exist exactly on a missing or empty path |
| FileSystem.IsNotExist | settings.go:81 | `os.IsNotExist` never holds for nil |
| FileSystem.StatNotExist | settings.go:117 | of the errors `os.Stat` returns, `os.IsNotExist` holds exactly for the one of a missing or empty path the host did not refuse |
| FileSystem.MkdirError | settings.go:118 | `os.Mkdir` succeeds exactly when the path is non-empty and missing, its parents exist and the host allows it |
| FileSystem.WriteError | settings.go:147 | `ioutil.WriteFile` succeeds exactly when the path names a file (non-empty, no trailing `/`), is not a directory, its parents exist and the host allows it |
| FileSystem.ReadError | settings.go:131 | `ioutil.ReadFile` succeeds exactly on a regular file, named by a non-empty path, that the host lets it read |
| FileSystem.OpenError | settings.go:159 | `os.OpenFile` with `O_CREATE` succeeds exactly when the path names a file (non-empty, no trailing `/`), is not a directory, its parents exist and the host allows it |
| FileSystem.WithDir | settings.go:118 | after a successful `os.Mkdir(p)`, `p` is a directory and no other entry, file or directory, has changed |
| FileSystem.WithFile | settings.go:147 | after a successful `ioutil.WriteFile(p, data)`, `p` holds exactly `data` and every other file and every directory is as before |
| FileSystem.WithFileWf | settings.go:147 | a successful `WriteFile` keeps the tree well formed |
| FileSystem.OpenedWf | settings.go:159 | a successful `OpenFile` keeps the tree well formed |
| FileSystem.Opened | settings.go:159 | opening for append creates a missing file empty and keeps every existing file's contents, so a reopen does not truncate |
| FileSystem.RemoveError | settings.go:82 | `os.RemoveAll` fails only when the host refuses it: a missing path and the empty path are not errors |
| FileSystem.Removed | settings.go:82 | after `os.RemoveAll(p)` on a non-empty `p`, exactly the entries outside `p` remain, with their contents; on the empty path nothing is removed |
| FileSystem.RemovedWf | settings.go:82 | removing a subtree keeps the tree well formed |
| FileSystem.WithDirWf | settings.go:118 | a successful `Mkdir` keeps the tree well formed |
| FileSystem.JoinWithin | settings.go:99 | `filepath.Join(".realize", name)` lies within `.realize` and differs from the bare `name` |
| FileSystem.JoinNested | settings.go:155-157 | `path/.realize/name` and `path/name` are always different paths |
| Config.Fatal | settings.go:137-143 | `fatal` ends the process exactly when `err` is non-nil, printing the messages as context exactly when there are any |
| Config.Validate | settings.go:88-93 | `validate` ends the process exactly on a non-nil error, with the empty message as context; otherwise it returns nil |
| Config.Write | settings.go:146-149 | `write` makes one `WriteFile` call and never returns an error: either the file then holds exactly the data, or the process ends with the write error |
| Config.Stream | settings.go:126-134 | `stream` returns a stat error unchanged after only the stat; otherwise it reads, and it either returns the file's contents or ends the process on the read error; the filesystem is untouched |
| Config.ConfigPath | settings.go:97-102 | `read` uses `.realize/<file>` exactly when a stat on it succeeds; on any stat error it uses the bare `<file>` |
| Config.Read | settings.go:96-109 | `read` stats `.realize/<file>`, then streams the chosen path; a stat error on the chosen path is returned unchanged, a read error ends the process, and otherwise the unmarshal result is returned; nothing is modified |
| Config.RecordTarget | settings.go:117-122 | `record` writes to the bare `<file>` exactly when `.realize` was reported missing and `Mkdir` failed, and to `.realize/<file>` in every other case |
| Config.Record | settings.go:112-123 | a marshal error is returned before any os call; otherwise `record` stats `.realize`, calls `Mkdir` exactly when the stat said not-exist, then writes the marshalled bytes to the target; it never returns a filesystem error; on success the target holds the bytes; whatever the write does, `.realize` is left behind when `Mkdir` created it |
| Config.CreateTarget | settings.go:153-158 | `create` uses `path/.realize/name` exactly when a stat on the bare `.realize` succeeds, and `path/name` otherwise |
| Config.Create | settings.go:152-162 | `create` stats `.realize` and opens the target; an open failure ends the process, otherwise the target exists and every earlier file keeps its contents |
| Config.Del | settings.go:79-85 | `del` calls `RemoveAll` unless the stat reports the path missing (any other stat error still removes); a missing or empty path gives the not-exist error and changes nothing; a successful removal leaves the path gone |
| Config.NamespacedNeedsDirectory | settings.go:99-101 | in a well-formed tree without `.realize`, the stat of `.realize/<file>` in `read` cannot succeed |
| Config.RecordThenRead | settings.go:96-123 | after a successful `record`, a `read` meeting no refused call on the written file returns the unmarshalled bytes that were written, hence the recorded value when YAML round-trips it |
| Config.RecordOverPlainFile | settings.go:117-122 | when `.realize` is a plain file, `record` writes to `.realize/<file>`, which fails, and the process ends |
| Config.DelTwice | settings.go:79-85 | a second `del` of a path the first one removed returns the not-exist error after only a stat |
| Config.DelThenRead | settings.go:99-103 | once `del` has removed `.realize`, `read` takes the bare file |
| Config.RecordWf | settings.go:112-123 | `record` keeps the tree well formed |
| Config.CreateWf | settings.go:152-162 | `create` keeps the tree well formed |
| Config.DelWf | settings.go:79-85 | `del` keeps the tree well formed |

## Left out

- YAML encoding and decoding are abstract functions that succeed or fail. A partial decode into `out` after an unmarshal error is not modelled.
- The seeding from `time.Now().UnixNano()` and the distribution of `math/rand` are not modelled. The source is the injected `draws`, and the model says nothing about uniformity.
- Token.Random: a negative `n` is excluded by `n: nat`. In Go, `make` panics on it.
- Token.Random: the source is a finite sequence, so the method requires that it holds at least `n` accepted groups and at least one value. The Go source is endless, and its first value is drawn even for `n == 0`.
- Permission bits (0775), the `O_APPEND` and `O_SYNC` flags, and the returned `*os.File` are not modelled. `Create` returns the path the file was opened on.
- FileSystem.Join: joins the non-empty elements with `/` and does not clean `..`, `.`, trailing or doubled slashes, as `filepath.Join` does. For `.realize` and a plain file name this changes nothing. For the caller's base path in `Config.Create` it does: with a base path such as `proj/`, `./proj` or `.`, `Create` opens `proj//x.log`, `./proj/x.log` or `./.realize/x` where Go opens the cleaned path. Since paths are compared as written, the model can then end the process where Go opens the file.
- Host failures are a fixed set of refused calls, so the same call fails every time. Races between a stat and the next call are the same as a different oracle.
- FileSystem.StatError, FileSystem.Removed, FileSystem.MkdirError: paths are compared as written, so `a/`, `./a` and `a//b` name different entries from `a` and `a/b`. A stat of `a/` on a directory `a` reports not-exist, and `RemoveAll("a/")` removes nothing, whereas the operating system resolves both to `a`. Likewise `Mkdir("a/")` is refused when `a` is missing and allowed when `a` is a directory, the opposite of mkdir(2); settings.go only passes the constant `.realize`.
- FileSystem.StatError: a stat of a missing path below a plain file reports not-exist. On Linux it is `ENOTDIR`, for which `os.IsNotExist` is false.
- FileSystem.StatError, FileSystem.ReadError, FileSystem.MkdirError, FileSystem.WriteError, FileSystem.OpenError: the errors carry only the call and the path, not the errno Go would report.
- Config.Del: a `RemoveAll` that fails is modelled as removing nothing, although the real call may have removed part of the tree.
- Config.Write: a write that fails is modelled as leaving the file untouched, although the real call may truncate it before the process ends.
- The console output of `log.Fatalln` and the red colouring of the context are not modelled. Only the messages and the error are kept, in `Exit`.
- The fields of `Settings` other than the file name, and the `Legacy`, `Files` and `Resource` structs, carry no logic in this file. The constants `fileOut`, `fileErr` and `fileLog` are only used by callers outside it.
