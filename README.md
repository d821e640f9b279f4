# Watcher, modelled in Dafny

Watcher is a small command-line tool that re-runs an interpreter on one
source file whenever the file's modification time changes, or when the user
types `reload`. It has two parts, both in `src/__init__.py`:

- the **Compiler**, which picks an interpreter for the file's extension once
  at start-up. It looks the extension up in a registry that maps each
  extension to an ordered list of candidate paths and takes the first path
  that exists. On each run it relays the interpreter's captured stdout and
  stderr, stripped, printing only the streams that are not empty;
- the **Watcher**, which stores the last seen modification time (initially
  `0`). A poll loop calls the callback whenever `os.stat` reports a different
  time. A stdin listener calls the callback whenever a line is exactly
  `reload`, and never touches the stored time.

The model is four modules, one per piece of decision logic:

- `paths.dfy` (**Paths**): `path.split('.')[-1]` as `Split`/`Extension`, with
  `Join` as the inverse of `Split`.
- `resolution.dfy` (**Resolution**): the registry lookup, the search loop, the
  two errors and the compiler's one-time resolution. The registry is a
  `map<string, seq<string>>` and the file system is the `set<string>` of paths
  that exist.
- `relay.dfy` (**Relay**): Python's `str.strip()` over exactly the characters
  `str.isspace()` accepts, and the print-if-non-empty decision for the two
  streams.
- `watching.dfy` (**Watching**): the `Watcher` class. It has the `prevStamp`
  field, a ghost history of the steps of both loops and a ghost trace of
  callback invocations. `Valid()` ties the field and the trace to pure
  functions of the history (`StampAfter`, `Firings`). Lemmas about those
  functions state what any interleaving of the two loops does.

Three behaviours of the code that are easy to overlook, modelled as written:

- `compile_file` prints the stripped stderr text with `print`, i.e. on
  stdout, after the stdout text. It does not write it to stderr.
- The initial stored time is `0`, which a real modification time can also
  be. A file whose modification time is exactly `0` does not fire the first
  poll (`NewWatcherFirstPoll`).
- The extension is taken from the whole absolute path, not from the file
  name. `/a.b/c` has the extension `b/c`, and a path without any `.` is its
  own extension.

## Model

| member | source | states |
|---|---|---|
| Paths.Split | src/__init__.py:78 | `str.split('.')` always yields at least one piece, and no piece contains the separator |
| Paths.JoinSplit | src/__init__.py:78 | joining the pieces of a split with the separator gives back the original path |
| Paths.SplitJoin | src/__init__.py:78 | splitting a join of separator-free pieces gives back the pieces (the other direction of the round trip) |
| Paths.ExtensionAfterLastDot | src/__init__.py:78 | the extension holds no `.`; with no `.` in the path it is the whole path; otherwise the path is some prefix, a `.`, then the extension |
| Resolution.FirstExistingHit | src/__init__.py:84-88 | if candidate `i` exists and none before it does, the search returns candidate `i`, whichever later candidates exist |
| Resolution.FirstExistingFound | src/__init__.py:84-89 | the search finds nothing exactly when no candidate exists; what it finds is an existing candidate with no existing one before it |
| Resolution.FirstExistingAppend | src/__init__.py:84-88 | appending candidates to a list whose search succeeds does not change the result |
| Resolution.SearchInterpreter | src/__init__.py:83-89 | the loop returns `Ok` exactly when some candidate exists, and then it returns the first existing one; the existence test was applied to exactly the candidates up to and including it, in order; otherwise it fails with `NotFoundInterpreter` after probing every candidate |
| Resolution.GetInterpreterPath | src/__init__.py:77-81 | computes `Resolve`; for an unregistered extension no candidate is probed; for a registered one the probes are a prefix of its list ending at the returned path, or the whole list on failure |
| Resolution.ResolveUnsupported | src/__init__.py:78-81 | resolution fails with `NotSupportedFileExtension` exactly when the path's extension is not a registry key |
| Resolution.ResolveNotFound | src/__init__.py:79-89 | resolution fails with `NotFoundInterpreter` exactly when the extension is registered and none of its candidates exists |
| Resolution.ResolveFirstMatch | src/__init__.py:79-88 | a successful resolution returns a candidate of the extension's list that exists and has no existing candidate before it; conversely, such a first hit is always what is returned |
| Resolution.ResolveIgnoresLaterCandidates | src/__init__.py:84-88 | two file systems that agree on the candidates up to the first hit resolve to the same result |
| Resolution.ResolvePythonExample | src/__init__.py:77-88 | with `py` mapped to a missing `/usr/bin/python3.99` and an existing `/usr/bin/python3`, `main.py` resolves to `/usr/bin/python3` |
| Resolution.NewCompiler | src/__init__.py:59-61 | building a compiler succeeds exactly when resolution does, and keeps the file path and the resolved interpreter; otherwise it raises the resolution's error |
| Relay.LeadingSpace | src/__init__.py:69-70 | the whitespace prefix that `lstrip()` removes is all whitespace and is followed by a non-space character or the end of the text |
| Relay.ContentEnd | src/__init__.py:69-70 | the suffix that `rstrip()` removes is all whitespace and comes after a non-space character or the start of the text |
| Relay.LeadingSpaceUnique | src/__init__.py:69-70 | any whitespace prefix followed by a non-space character or the end is exactly what `lstrip()` removes |
| Relay.ContentEndUnique | src/__init__.py:69-70 | any whitespace suffix after a non-space character or the start is exactly what `rstrip()` removes |
| Relay.StripSlice | src/__init__.py:69-70 | `strip()` returns a middle slice of the text with only whitespace around it and no whitespace at either end of it |
| Relay.StripUnique | src/__init__.py:69-70 | any slice with only whitespace around it and none at its ends is what `strip()` returns (the slice is unique) |
| Relay.StripEmpty | src/__init__.py:69-75 | a stripped stream is empty exactly when the stream is all whitespace |
| Relay.StripIdempotent | src/__init__.py:69-70 | stripping an already stripped text changes nothing |
| Relay.RelayOutputLines | src/__init__.py:69-75 | one line is printed per stream that is not all whitespace: the stripped stdout first, the stripped stderr last; every printed line is non-empty and already stripped |
| Relay.RelayOutputHi | src/__init__.py:69-75 | a run with stdout `hi` plus a newline and an empty stderr prints exactly `hi` |
| Relay.RelayOutputBoth | src/__init__.py:69-75 | a run writing to both streams prints both, each trimmed, stdout first |
| Watching.FiringsAppend | src/__init__.py:17-38 | a history of poll and stdin steps can be run in two pieces, the second starting from the stored time the first leaves |
| Watching.StampIsLastPoll | src/__init__.py:17-21 | the stored time after any history is the time seen by its most recent poll, or the initial value if it has none |
| Watching.FiringSources | src/__init__.py:17-38 | in any interleaving, stdin lines do not affect the stored time; the poll firings are exactly those of the polls alone; there is one reload firing per line that is exactly `reload` |
| Watching.RepeatedPollSilent | src/__init__.py:17-21 | a second consecutive poll that sees the same time fires nothing and changes nothing, anywhere in a history |
| Watching.LinesKeepStamp | src/__init__.py:33-38 | a series of stdin lines leaves the stored time unchanged |
| Watching.LinesFireReloads | src/__init__.py:33-38 | a series of stdin lines fires only reloads, one per line that is exactly `reload` |
| Watching.NewWatcherFirstPoll | src/__init__.py:11-21 | the first poll of a new watcher fires exactly when the reported time is not `0`, whatever lines came before it |
| Watching.Watcher.constructor | src/__init__.py:11-15 | a new watcher stores the time `0` and has taken no step and called nothing |
| Watching.Watcher.LookChanges | src/__init__.py:17-21 | a poll fires exactly when the reported time differs from the stored one, and afterwards stores the reported time; a missing file raises and changes nothing |
| Watching.Watcher.CheckStdinLine | src/__init__.py:36-38 | a line fires exactly when it is `reload`, and never changes the stored time |
| Watching.Watcher.Watch | src/__init__.py:23-31 | the poll loop polls every reported time until the first missing file, which ends it with an error; the firings are those of `Firings` on those polls |
| Watching.Watcher.CheckStdin | src/__init__.py:33-38 | the listener loop records one step per line, fires as `Firings` says, counts the `reload` lines and leaves the stored time unchanged |

## Left out

- `os.stat`, `os.path.exists`, `subprocess.run` and UTF-8 decoding are operating-system and foreign calls. They become parameters: a `Stat` per poll, the set of existing paths, and the already-decoded captured texts. A decoding error of the child's output is not modelled.
- The two threads run concurrently in the source. The model treats each step as a separate sequential call and studies interleavings as histories. Overlapping callback runs and interleaved console output are not modelled.
- `time.sleep` pacing and the infinite `while True` loops of `watch` and `check_stdin` are not modelled. The loops run over finite series of observations.
- The listener ends when `input()` raises at the end of stdin. That case is not modelled; the series of lines simply ends.
- The callback is abstract: the trace records each invocation and its cause. The `params` passed to it, and an exception it might raise, are not modelled. In the source the stamp is stored only after the callback returns.
- The rest of `compile_file` is not modelled: the "Reload file changes" notice, the 0.3 s pause, the `[interpreter, filepath]` child invocation and its ignored exit status. Only the strip-and-print decision is modelled.
- The "Compiler: …" notice printed by `search_py_compiler`, the colour formatting, the start-up banners and `main`'s argument, file and exception handling are console and command-line I/O.
- The contents of the interpreter registry and of the colour helpers are not part of this model; the registry is a parameter.
- Modification times are modelled as `real`, since the source compares them only for equality. Float rounding is not modelled.
