/**
 Interpreter resolution of the compiler component: the watched file's
 extension is looked up in a registry mapping each extension to an ordered
 list of candidate interpreter paths, and the first candidate that exists on
 disk is chosen, once, when the compiler is built.
 The file system is abstracted as the set of paths that exist; the registry
 (the repository's configuration table) is a parameter.
 */
module Resolution {
  import opened Paths

  datatype Option<T> = None | Some(value: T)

  /** The two exceptions the compiler raises while resolving an interpreter. */
  datatype CompilerError = NotSupportedFileExtension | NotFoundInterpreter

  datatype Result<T> = Ok(value: T) | Err(error: CompilerError)

  /** Extension -> candidate interpreter paths, in the order they are tried. */
  type Registry = map<string, seq<string>>

  /** The message each exception carries. */
  function Message(e: CompilerError): string
  {
    match e
    case NotSupportedFileExtension => "Sorry, this extension doesn't support!"
    case NotFoundInterpreter => "Sorry, we don't found interpreter for this file extension!"
  }

  /** Candidate `i` exists and no candidate before it does. */
  ghost predicate IsFirstHit(candidates: seq<string>, existing: set<string>, i: int)
  {
    && 0 <= i < |candidates|
    && candidates[i] in existing
    && forall j :: 0 <= j < i ==> candidates[j] !in existing
  }

  /** The first candidate, in list order, that exists. */
  function FirstExisting(candidates: seq<string>, existing: set<string>): Option<string>
  {
    if candidates == [] then None
    else if candidates[0] in existing then Some(candidates[0])
    else FirstExisting(candidates[1..], existing)
  }

  /** FirstExisting picks the first hit, whichever later candidates also exist. */
  lemma {:induction false} FirstExistingHit(candidates: seq<string>, existing: set<string>, i: int)
    requires IsFirstHit(candidates, existing, i)
    ensures FirstExisting(candidates, existing) == Some(candidates[i])
  {
    if i > 0 {
      FirstExistingHit(candidates[1..], existing, i - 1);
    }
  }

  /** FirstExisting finds nothing exactly when no candidate exists;
      what it finds is a first hit. */
  lemma {:induction false} FirstExistingFound(candidates: seq<string>, existing: set<string>)
    ensures FirstExisting(candidates, existing).None? <==>
      forall k :: 0 <= k < |candidates| ==> candidates[k] !in existing
    ensures FirstExisting(candidates, existing).Some? ==>
      exists i :: IsFirstHit(candidates, existing, i) && candidates[i] == FirstExisting(candidates, existing).value
  {
    if candidates != [] && candidates[0] !in existing {
      var rest := candidates[1..];
      FirstExistingFound(rest, existing);
      if FirstExisting(rest, existing).Some? {
        var i :| IsFirstHit(rest, existing, i) && rest[i] == FirstExisting(rest, existing).value;
        assert IsFirstHit(candidates, existing, i + 1);
      } else {
        forall k | 0 <= k < |candidates| ensures candidates[k] !in existing {
          if k > 0 { assert candidates[k] == rest[k - 1]; }
        }
      }
    } else if candidates != [] {
      assert IsFirstHit(candidates, existing, 0);
    }
  }

  /** Appending more candidates never changes a found result. */
  lemma {:induction false} FirstExistingAppend(candidates: seq<string>, more: seq<string>, existing: set<string>)
    requires FirstExisting(candidates, existing).Some?
    ensures FirstExisting(candidates + more, existing) == FirstExisting(candidates, existing)
  {
    if candidates[0] !in existing {
      assert (candidates + more)[1..] == candidates[1..] + more;
      FirstExistingAppend(candidates[1..], more, existing);
    }
  }

  /** `Compiler.search_py_compiler`: try the candidates in order and return the
      first that exists. `probes` are the paths handed to the existence test, in order. */
  method SearchInterpreter(candidates: seq<string>, existing: set<string>)
    returns (r: Result<string>, probes: seq<string>)
    ensures r.Ok? <==> exists k :: 0 <= k < |candidates| && candidates[k] in existing
    ensures r.Ok? ==>
      1 <= |probes| <= |candidates| && probes == candidates[..|probes|] &&
      IsFirstHit(candidates, existing, |probes| - 1) && r.value == probes[|probes| - 1]
    ensures r.Err? ==> r.error == NotFoundInterpreter && probes == candidates
    ensures r == match FirstExisting(candidates, existing)
                 case Some(p) => Ok(p)
                 case None => Err(NotFoundInterpreter)
  {
    probes := [];
    for i := 0 to |candidates|
      invariant probes == candidates[..i]
      invariant forall j :: 0 <= j < i ==> candidates[j] !in existing
    {
      probes := probes + [candidates[i]];
      if candidates[i] in existing {
        assert IsFirstHit(candidates, existing, i);
        FirstExistingHit(candidates, existing, i);
        return Ok(candidates[i]), probes;
      }
    }
    assert probes == candidates;
    FirstExistingFound(candidates, existing);
    r := Err(NotFoundInterpreter);
  }

  /** The outcome of `Compiler.get_interpreter_path` for `path`. */
  function Resolve(path: string, registry: Registry, existing: set<string>): Result<string>
  {
    var ext := Extension(path);
    if ext !in registry then Err(NotSupportedFileExtension)
    else match FirstExisting(registry[ext], existing)
      case Some(p) => Ok(p)
      case None => Err(NotFoundInterpreter)
  }

  /** `Compiler.get_interpreter_path`: an unknown extension fails before any
      candidate is probed; a known one is searched in registry order. */
  method GetInterpreterPath(path: string, registry: Registry, existing: set<string>)
    returns (r: Result<string>, probes: seq<string>)
    ensures r == Resolve(path, registry, existing)
    ensures Extension(path) !in registry ==> probes == []
    ensures Extension(path) in registry ==>
      probes <= registry[Extension(path)] &&
      (r.Ok? ==> |probes| >= 1 && r.value == probes[|probes| - 1]) &&
      (r.Err? ==> probes == registry[Extension(path)])
  {
    var ext := Extension(path);
    if ext in registry {
      r, probes := SearchInterpreter(registry[ext], existing);
      return;
    }
    return Err(NotSupportedFileExtension), [];
  }

  /** Resolution fails with NotSupportedFileExtension exactly when the extension is not registered. */
  lemma ResolveUnsupported(path: string, registry: Registry, existing: set<string>)
    ensures Resolve(path, registry, existing) == Err(NotSupportedFileExtension) <==>
      Extension(path) !in registry
  {
  }

  /** Resolution fails with NotFoundInterpreter exactly when the extension is
      registered and none of its candidates exists. */
  lemma ResolveNotFound(path: string, registry: Registry, existing: set<string>)
    ensures Resolve(path, registry, existing) == Err(NotFoundInterpreter) <==>
      Extension(path) in registry &&
      forall k :: 0 <= k < |registry[Extension(path)]| ==> registry[Extension(path)][k] !in existing
  {
    if Extension(path) in registry {
      FirstExistingFound(registry[Extension(path)], existing);
    }
  }

  /** A successful resolution returns a registered candidate for the extension
      that exists and has no existing candidate before it; and whenever such a
      first hit exists, resolution returns it. */
  lemma ResolveFirstMatch(path: string, registry: Registry, existing: set<string>)
    ensures Resolve(path, registry, existing).Ok? ==>
      Extension(path) in registry &&
      exists i :: IsFirstHit(registry[Extension(path)], existing, i) &&
        registry[Extension(path)][i] == Resolve(path, registry, existing).value
    ensures forall i :: Extension(path) in registry && IsFirstHit(registry[Extension(path)], existing, i) ==>
      Resolve(path, registry, existing) == Ok(registry[Extension(path)][i])
  {
    var ext := Extension(path);
    if ext in registry {
      FirstExistingFound(registry[ext], existing);
      forall i | IsFirstHit(registry[ext], existing, i)
        ensures Resolve(path, registry, existing) == Ok(registry[ext][i])
      {
        FirstExistingHit(registry[ext], existing, i);
      }
    }
  }

  /** Existence of candidates after the first hit does not matter. */
  lemma ResolveIgnoresLaterCandidates(path: string, registry: Registry, existing: set<string>,
                                      existing': set<string>, i: int)
    requires Extension(path) in registry
    requires IsFirstHit(registry[Extension(path)], existing, i)
    requires forall j :: 0 <= j <= i ==>
      (registry[Extension(path)][j] in existing <==> registry[Extension(path)][j] in existing')
    ensures Resolve(path, registry, existing') == Resolve(path, registry, existing)
  {
    var cands := registry[Extension(path)];
    assert IsFirstHit(cands, existing', i);
    FirstExistingHit(cands, existing, i);
    FirstExistingHit(cands, existing', i);
  }

  /** A missing first candidate is skipped for an existing second one. */
  lemma ResolvePythonExample()
    ensures Resolve("/home/user/main.py",
                    map["py" := ["/usr/bin/python3.99", "/usr/bin/python3"]],
                    {"/usr/bin/python3"})
            == Ok("/usr/bin/python3")
  {
    var parts := ["/home/user/main", "py"];
    SplitJoin(parts, '.');
    assert Join(parts, '.') == "/home/user/main.py";
  }

  /** The compiler holds the watched file and the interpreter resolved for it
      when it was built; the interpreter is never resolved again. */
  datatype Compiler = Compiler(filepath: string, interpreter: string)

  /** `Compiler(filepath)`: resolve the interpreter once and keep it, or raise. */
  method NewCompiler(filepath: string, registry: Registry, existing: set<string>)
    returns (r: Result<Compiler>)
    ensures r.Ok? <==> Resolve(filepath, registry, existing).Ok?
    ensures r.Ok? ==> r.value == Compiler(filepath, Resolve(filepath, registry, existing).value)
    ensures r.Err? ==> r.error == Resolve(filepath, registry, existing).error
  {
    var interpreter, _ := GetInterpreterPath(filepath, registry, existing);
    match interpreter
    case Ok(p) => r := Ok(Compiler(filepath, p));
    case Err(e) => r := Err(e);
  }
}
