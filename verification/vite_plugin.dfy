/** The Vite plugin that turns `.elm` files into ES modules: which module
    ids it handles, the content hash it records before the server-pass skip,
    and the compile orchestration (precondition checks, relative path and
    module name, compiler arguments, exit-status outcome, log prettifying
    and the wrapper text around the compiler's output).

    The compiler run itself is not modelled: its observable result is the
    `CompileRun` input. */
module VitePlugin {

  import opened Wrappers
  import opened Strings
  import opened ArtifactCache

  const ElmExtension := ".elm"

  /** The marker of Astro's virtual entry modules. */
  const AstroEntryMarker := "\0astro-entry:"

  /** The prefix `prettify` puts at the start of every line. */
  const Indentation := ">   "

  // ---------------------------------------------------------------------
  // prettify

  /** The `/^/gm` replacement after the first position: every line
      terminator is followed by the indentation. */
  function IndentAfterTerminators(s: string): (r: string)
    ensures |r| >= |s|
  {
    if s == [] then []
    else if IsLineTerminator(s[0]) then [s[0]] + Indentation + IndentAfterTerminators(s[1..])
    else [s[0]] + IndentAfterTerminators(s[1..])
  }

  /** `text.replace(/^/gm, ">   ")`: the multiline `^` matches at the start
      and right after every line terminator, including between the `\r` and
      `\n` of a CRLF pair. */
  function IndentLines(s: string): (r: string)
    ensures StartsWith(r, Indentation)
  {
    Indentation + IndentAfterTerminators(s)
  }

  /** `prettify(log)`: trim the log, then indent every line. */
  function Prettify(log: string): (r: string)
    ensures StartsWith(r, Indentation)
  {
    IndentLines(Trim(log))
  }

  /** Removes the indentation that follows each line terminator; `None` when
      some line terminator is not followed by it. */
  function UnindentAfterTerminators(t: string): (r: Option<string>)
  {
    if t == [] then Some([])
    else if IsLineTerminator(t[0]) then
      if StartsWith(t[1..], Indentation) then
        match UnindentAfterTerminators(t[1 + |Indentation|..])
        case Some(rest) => Some([t[0]] + rest)
        case None => None
      else None
    else
      match UnindentAfterTerminators(t[1..])
      case Some(rest) => Some([t[0]] + rest)
      case None => None
  }

  /** Removes the indentation of every line of prettified text. */
  function Unindent(t: string): (r: Option<string>)
  {
    if StartsWith(t, Indentation) then UnindentAfterTerminators(t[|Indentation|..])
    else None
  }

  lemma {:induction false} UnindentAfterTerminatorsInverse(s: string)
    ensures UnindentAfterTerminators(IndentAfterTerminators(s)) == Some(s)
  {
    if s != [] {
      UnindentAfterTerminatorsInverse(s[1..]);
      var t := IndentAfterTerminators(s);
      var rest := IndentAfterTerminators(s[1..]);
      if IsLineTerminator(s[0]) {
        assert t == [s[0]] + Indentation + rest;
        assert t[1..][..|Indentation|] == Indentation;
        assert t[1 + |Indentation|..] == rest;
      } else {
        assert t == [s[0]] + rest;
        assert t[1..] == rest;
      }
      assert s == [s[0]] + s[1..];
    }
  }

  /** Removing the prefixes from prettified text gives back the trimmed log. */
  lemma PrettifyRoundTrip(log: string)
    ensures Unindent(Prettify(log)) == Some(Trim(log))
  {
    var s := Trim(log);
    var r := Prettify(log);
    assert r[|Indentation|..] == IndentAfterTerminators(s);
    UnindentAfterTerminatorsInverse(s);
  }

  // ---------------------------------------------------------------------
  // paths and the module name

  /** `path.join(dir, name)` for an already normalised `dir` and a `name`
      without leading separator. */
  function Join(dir: string, name: string): (r: string)
    ensures EndsWith(r, name)
    ensures StartsWith(r, dir)
    ensures |r| == |dir| + |name| + (if EndsWith(dir, "/") then 0 else 1)
    ensures !EndsWith(dir, "/") ==> r[|dir|] == '/'
  {
    if EndsWith(dir, "/") then dir + name else dir + "/" + name
  }

  function ElmJsonPath(cwd: string): string {
    Join(cwd, "elm.json")
  }

  function ElmExecutablePath(cwd: string): string {
    Join(Join(Join(Join(cwd, "node_modules"), "elm"), "bin"), "elm")
  }

  function ElmDir(cwd: string): string {
    Join(Join(cwd, "src"), "elm")
  }

  /** `filePath.replace(`${elmDir}/`, "")`: the first occurrence of the
      source directory (with its separator) is removed, wherever it is. */
  function RelativePath(filePath: string, elmDir: string): (r: string)
    ensures StartsWith(filePath, elmDir + "/") ==> filePath == elmDir + "/" + r
    ensures !Contains(filePath, elmDir + "/") ==> r == filePath
  {
    if StartsWith(filePath, elmDir + "/") then
      ReplaceFirstOfPrefix(filePath, elmDir + "/", "");
      assert filePath == filePath[..|elmDir + "/"|] + filePath[|elmDir + "/"|..];
      ReplaceFirst(filePath, elmDir + "/", "")
    else
      ReplaceFirst(filePath, elmDir + "/", "")
  }

  /** The module name as the source derives it:
      `rel.replace("/", ".").replace(".elm", "")`. Both replacements act on
      the first occurrence only, so the name is as long as the path or an
      extension shorter, and a path with neither a separator nor `.elm` is
      its own name. `ModuleNameAsWrittenConvertsFirstSeparator` gives the
      result on module paths exactly. */
  function ModuleNameAsWritten(rel: string): (r: string)
    ensures |r| == |rel| || |r| == |rel| - |ElmExtension|
    ensures !Contains(rel, "/") && !Contains(rel, ElmExtension) ==> r == rel
  {
    ReplaceFirst(ReplaceFirst(rel, "/", "."), ElmExtension, "")
  }

  /** Every path separator turned into a dot. */
  function Dotted(s: string): (r: string)
    ensures |r| == |s|
    ensures forall i :: 0 <= i < |s| ==> r[i] == (if s[i] == '/' then '.' else s[i])
  {
    if s == [] then []
    else [if s[0] == '/' then '.' else s[0]] + Dotted(s[1..])
  }

  /** `s` without the `.elm` extension, if it has one. */
  function Stem(s: string): (r: string)
    ensures EndsWith(s, ElmExtension) ==> s == r + ElmExtension
    ensures !EndsWith(s, ElmExtension) ==> r == s
  {
    if EndsWith(s, ElmExtension) then s[..|s| - |ElmExtension|] else s
  }

  /** The module name of a source path relative to the source directory:
      all separators become dots and the extension is dropped, so
      `Greeting/Sub/Hello.elm` is the module `Greeting.Sub.Hello`. */
  function ModuleName(rel: string): (r: string)
    ensures |r| <= |rel|
    ensures forall i :: 0 <= i < |r| ==> r[i] != '/'
    ensures EndsWith(rel, ElmExtension) ==> |r| == |rel| - |ElmExtension|
    ensures forall i :: 0 <= i < |r| ==> rel[i] == r[i] || (rel[i] == '/' && r[i] == '.')
  {
    Dotted(Stem(rel))
  }

  predicate IsUpper(c: char) {
    'A' <= c <= 'Z'
  }

  /** A path relative to the source directory as Elm lays modules out:
      it ends in `.elm`, the rest has no dot, and every separator starts a
      new capitalised module segment. */
  predicate IsModulePath(rel: string) {
    && EndsWith(rel, ElmExtension)
    && (forall i :: 0 <= i < |rel| - |ElmExtension| ==> rel[i] != '.')
    && (forall i, j :: 0 <= i < |rel| - |ElmExtension| && j == i + 1 && rel[i] == '/'
          ==> j < |rel| - |ElmExtension| && IsUpper(rel[j]))
  }

  /** At most one path separator. */
  predicate AtMostOneSeparator(s: string) {
    forall i, j :: 0 <= i < j < |s| && s[i] == '/' ==> s[j] != '/'
  }

  /** `d` is `rel` with some of its separators turned into dots. */
  predicate DotsForSeparators(rel: string, d: string) {
    |d| == |rel| && forall i :: 0 <= i < |rel| ==> d[i] == rel[i] || (rel[i] == '/' && d[i] == '.')
  }

  /** `rel.replace("/", ".")` converts the first separator, and only it. */
  lemma FirstSeparatorDotted(rel: string)
    ensures DotsForSeparators(rel, ReplaceFirst(rel, "/", "."))
    ensures forall k :: 0 <= k < |rel| && rel[k] == '/' && NoCharBefore(rel, '/', k)
              ==> ReplaceFirst(rel, "/", ".") == rel[..k] + "." + rel[k + 1..]
  {
    var k := CharIndex(rel, '/');
    if k < |rel| {
      ReplaceFirstCharAt(rel, '/', ".", k);
    } else {
      ReplaceFirstCharAbsent(rel, '/', ".");
    }
    forall k' | 0 <= k' < |rel| && rel[k'] == '/' && NoCharBefore(rel, '/', k')
      ensures ReplaceFirst(rel, "/", ".") == rel[..k'] + "." + rel[k' + 1..]
    {
      ReplaceFirstCharAt(rel, '/', ".", k');
    }
  }

  /** Neither a dot nor an `e` after it: no extension starts at `j`. */
  lemma NoExtensionAt(d: string, j: nat)
    requires j + 1 < |d|
    requires d[j] != '.' || d[j + 1] != 'e'
    ensures !OccursAt(d, ElmExtension, j)
  {
    if j + |ElmExtension| <= |d| {
      assert d[j..j + 4][0] == d[j] && d[j..j + 4][1] == d[j + 1];
    }
  }

  /** Whatever separators of a module path are dotted, `.elm` occurs only
      as its extension, because every converted separator is followed by a
      capital letter. */
  lemma ExtensionOnlyAtEnd(rel: string, d: string, j: nat)
    requires IsModulePath(rel) && DotsForSeparators(rel, d)
    requires j < |rel| - |ElmExtension|
    ensures !OccursAt(d, ElmExtension, j)
  {
    assert rel[j] != '.';
    if rel[j] == '/' {
      assert IsUpper(rel[j + 1]);
      assert d[j + 1] != 'e';
    } else {
      assert d[j] != '.';
    }
    NoExtensionAt(d, j);
  }

  /** So `.replace(".elm", "")` drops exactly the extension. */
  lemma RemoveExtension(rel: string, d: string)
    requires IsModulePath(rel) && DotsForSeparators(rel, d)
    ensures ReplaceFirst(d, ElmExtension, "") == d[..|d| - |ElmExtension|]
  {
    var n := |rel| - |ElmExtension|;
    forall j: nat | j < n ensures !OccursAt(d, ElmExtension, j) {
      ExtensionOnlyAtEnd(rel, d, j);
    }
    assert d[n..] == ElmExtension by {
      forall k | n <= k < |rel| ensures d[k] == rel[k] {
        assert rel[n..][k - n] == ElmExtension[k - n];
      }
      assert d[n..] == rel[n..];
    }
    ReplaceFirstAt(d, ElmExtension, "", n);
    assert d[n + |ElmExtension|..] == [];
  }

  /** The extension holds no separator. */
  lemma ExtensionHasNoSeparator(rel: string)
    requires EndsWith(rel, ElmExtension)
    ensures forall i | |rel| - |ElmExtension| <= i < |rel| :: rel[i] != '/'
  {
    var n := |rel| - |ElmExtension|;
    assert forall i | n <= i < |rel| :: rel[i] == rel[n..][i - n];
  }

  lemma FirstSeparatorInStemAt(rel: string, k: nat)
    requires EndsWith(rel, ElmExtension)
    requires k < |rel| - |ElmExtension| && rel[k] == '/' && NoCharBefore(rel, '/', k)
    ensures ReplaceFirst(rel, "/", ".")[..|rel| - |ElmExtension|] == ReplaceFirst(Stem(rel), "/", ".")
  {
    var n := |rel| - |ElmExtension|;
    ReplaceFirstCharAt(rel, '/', ".", k);
    StemFirstSeparatorAt(rel, k);
    DotAtThenCut(rel, k, n);
  }

  lemma StemFirstSeparatorAt(rel: string, k: nat)
    requires EndsWith(rel, ElmExtension)
    requires k < |rel| - |ElmExtension| && rel[k] == '/' && NoCharBefore(rel, '/', k)
    ensures Stem(rel) == rel[..|rel| - |ElmExtension|]
    ensures ReplaceFirst(Stem(rel), "/", ".") == Stem(rel)[..k] + "." + Stem(rel)[k + 1..]
  {
    var stem := Stem(rel);
    assert stem == rel[..|rel| - |ElmExtension|];
    ReplaceFirstCharAt(stem, '/', ".", k);
  }

  lemma DotAtThenCut(s: string, k: nat, n: nat)
    requires k < n <= |s|
    ensures (s[..k] + "." + s[k + 1..])[..n] == s[..n][..k] + "." + s[..n][k + 1..]
  {
  }

  /** The first separator of a path ending in `.elm` lies in its stem, so
      converting it and then cutting the extension is the same as converting
      it in the stem. */
  lemma FirstSeparatorInStem(rel: string)
    requires EndsWith(rel, ElmExtension)
    ensures var d := ReplaceFirst(rel, "/", ".");
            |d| == |rel| && d[..|rel| - |ElmExtension|] == ReplaceFirst(Stem(rel), "/", ".")
  {
    var k := CharIndex(rel, '/');
    ExtensionHasNoSeparator(rel);
    if k < |rel| {
      FirstSeparatorInStemAt(rel, k);
    } else {
      var stem := Stem(rel);
      assert stem == rel[..|rel| - |ElmExtension|];
      ReplaceFirstCharAbsent(rel, '/', ".");
      ReplaceFirstCharAbsent(stem, '/', ".");
    }
  }

  /** What the source's derivation does to any module path: the first
      separator of the stem becomes a dot and the extension is dropped;
      later separators stay. */
  lemma ModuleNameAsWrittenConvertsFirstSeparator(rel: string)
    requires IsModulePath(rel)
    ensures ModuleNameAsWritten(rel) == ReplaceFirst(Stem(rel), "/", ".")
  {
    var d := ReplaceFirst(rel, "/", ".");
    FirstSeparatorDotted(rel);
    RemoveExtension(rel, d);
    FirstSeparatorInStem(rel);
  }

  /** For a module at most one directory deep the source's derivation gives
      the intended name, e.g. `Greeting/Hello.elm` is `Greeting.Hello`. */
  lemma AsWrittenAgreesWhenShallow(rel: string)
    requires IsModulePath(rel) && AtMostOneSeparator(rel)
    ensures ModuleNameAsWritten(rel) == ModuleName(rel)
  {
    ModuleNameAsWrittenConvertsFirstSeparator(rel);
    ShallowStem(rel);
    FirstSeparatorIsAll(Stem(rel));
  }

  /** Dropping the extension keeps a path shallow. */
  lemma ShallowStem(rel: string)
    requires EndsWith(rel, ElmExtension) && AtMostOneSeparator(rel)
    ensures AtMostOneSeparator(Stem(rel))
  {
    var stem := Stem(rel);
    assert forall i :: 0 <= i < |stem| ==> stem[i] == rel[i];
  }

  /** In a string with at most one separator, converting the first one
      converts them all. */
  lemma FirstSeparatorIsAll(s: string)
    requires AtMostOneSeparator(s)
    ensures ReplaceFirst(s, "/", ".") == Dotted(s)
  {
    var k := CharIndex(s, '/');
    if k < |s| {
      ReplaceFirstCharAt(s, '/', ".", k);
      DottedOneSeparator(s, k);
    } else {
      ReplaceFirstCharAbsent(s, '/', ".");
      DottedNoSeparator(s);
    }
  }

  /** With a single separator, dotting all of them dots that one. */
  lemma DottedOneSeparator(s: string, k: nat)
    requires k < |s| && s[k] == '/' && NoCharBefore(s, '/', k)
    requires forall i :: k < i < |s| ==> s[i] != '/'
    ensures Dotted(s) == s[..k] + "." + s[k + 1..]
  {
    var d := s[..k] + "." + s[k + 1..];
    assert |d| == |s|;
    forall i | 0 <= i < |s| ensures d[i] == Dotted(s)[i] {
      if i < k {
        assert d[i] == s[i];
      } else if i > k {
        assert d[i] == s[i];
      }
    }
  }

  /** Without separators, dotting changes nothing. */
  lemma DottedNoSeparator(s: string)
    requires NoCharBefore(s, '/', |s|)
    ensures Dotted(s) == s
  {
    assert forall i :: 0 <= i < |s| ==> Dotted(s)[i] == s[i];
  }

  /** A stem laid out as Elm lays out module names: no dot, and every
      separator followed by a capital letter. */
  predicate IsModuleStem(stem: string) {
    && (forall i :: 0 <= i < |stem| ==> stem[i] != '.')
    && (forall i :: 0 <= i < |stem| && stem[i] == '/' ==> i + 1 < |stem| && IsUpper(stem[i + 1]))
  }

  /** Such a stem with the extension is a module path, and its stem. */
  lemma ModuleStemPath(stem: string)
    requires IsModuleStem(stem)
    ensures IsModulePath(stem + ElmExtension)
    ensures Stem(stem + ElmExtension) == stem
  {
    var rel := stem + ElmExtension;
    assert rel[|rel| - |ElmExtension|..] == ElmExtension;
    assert forall i :: 0 <= i < |stem| ==> rel[i] == stem[i];
  }

  lemma GreetingHelloIsShallowModulePath(rel: string)
    requires rel == "Greeting/Hello.elm"
    ensures IsModulePath(rel) && AtMostOneSeparator(rel)
  {
    var stem := "Greeting/Hello";
    assert IsModuleStem(stem);
    assert AtMostOneSeparator(stem);
    assert rel == stem + ElmExtension;
    ModuleStemPath(stem);
    ShallowWithExtension(stem);
  }

  /** The extension adds no separator. */
  lemma ShallowWithExtension(stem: string)
    requires AtMostOneSeparator(stem)
    ensures AtMostOneSeparator(stem + ElmExtension)
  {
    var rel := stem + ElmExtension;
    assert forall i :: |stem| <= i < |rel| ==> rel[i] != '/';
    assert forall i :: 0 <= i < |stem| ==> rel[i] == stem[i];
  }

  lemma GreetingHelloModuleName(rel: string)
    requires rel == "Greeting/Hello.elm"
    ensures ModuleName(rel) == "Greeting.Hello"
  {
    assert rel[|rel| - 4..] == ".elm";
    assert Stem(rel) == "Greeting/Hello";
  }

  /** `Greeting/Hello.elm` is the module `Greeting.Hello`. */
  lemma GreetingHelloExample(rel: string)
    requires rel == "Greeting/Hello.elm"
    ensures ModuleNameAsWritten(rel) == "Greeting.Hello"
  {
    GreetingHelloIsShallowModulePath(rel);
    GreetingHelloModuleName(rel);
    AsWrittenAgreesWhenShallow(rel);
  }

  lemma NestedIsModulePath(rel: string)
    requires rel == "Greeting/Sub/Hello.elm"
    ensures IsModulePath(rel)
    ensures Stem(rel) == "Greeting/Sub/Hello"
  {
    var stem := "Greeting/Sub/Hello";
    assert IsModuleStem(stem);
    assert rel == stem + ElmExtension;
    ModuleStemPath(stem);
  }

  lemma NestedModuleName(rel: string)
    requires rel == "Greeting/Sub/Hello.elm"
    ensures ModuleName(rel) == "Greeting.Sub.Hello"
  {
    assert rel[|rel| - 4..] == ".elm";
    assert Stem(rel) == "Greeting/Sub/Hello";
  }

  lemma NestedStemFirstSeparator(stem: string)
    requires stem == "Greeting/Sub/Hello"
    ensures ReplaceFirst(stem, "/", ".") == "Greeting.Sub/Hello"
  {
    ReplaceFirstCharAt(stem, '/', ".", 8);
    assert stem[..8] + "." + stem[9..] == "Greeting.Sub/Hello";
  }

  /** The source converts only the first separator: a module two
      directories deep gets a name that still holds a `/`, which is not the
      module's name and is not a valid property path in the wrapper. */
  lemma NestedModuleNameAsWritten(rel: string)
    requires rel == "Greeting/Sub/Hello.elm"
    ensures IsModulePath(rel)
    ensures ModuleNameAsWritten(rel) == "Greeting.Sub/Hello"
    ensures ModuleName(rel) == "Greeting.Sub.Hello"
  {
    NestedIsModulePath(rel);
    NestedModuleName(rel);
    ModuleNameAsWrittenConvertsFirstSeparator(rel);
    NestedStemFirstSeparator(Stem(rel));
  }

  // ---------------------------------------------------------------------
  // compiler arguments

  /** `.filter((s) => s)` on strings: drops the empty ones, keeps the order. */
  function RemoveEmpty(xs: seq<string>): (r: seq<string>)
    ensures forall s :: s in r <==> s in xs && s != []
    ensures |r| <= |xs|
  {
    if xs == [] then []
    else if xs[0] == [] then RemoveEmpty(xs[1..])
    else [xs[0]] + RemoveEmpty(xs[1..])
  }

  lemma {:induction false} RemoveEmptyAppend(xs: seq<string>, ys: seq<string>)
    ensures RemoveEmpty(xs + ys) == RemoveEmpty(xs) + RemoveEmpty(ys)
  {
    if xs == [] {
      assert xs + ys == ys;
    } else {
      assert (xs + ys)[0] == xs[0];
      assert (xs + ys)[1..] == xs[1..] + ys;
      RemoveEmptyAppend(xs[1..], ys);
    }
  }

  /** The `elm make` argument list; `--optimize` outside development mode. */
  function CompilerArgs(rel: string, output: string, devMode: bool): (r: seq<string>)
    ensures forall a :: a in r ==> a != []
  {
    RemoveEmpty(["make", rel, "--output", output, if devMode then "" else "--optimize"])
  }

  /** With a non-empty relative path and output path the arguments are
      `make <rel> --output <out>`, followed by `--optimize` exactly when not
      in development mode. */
  lemma CompilerArgsShape(rel: string, output: string, devMode: bool)
    requires rel != [] && output != []
    ensures CompilerArgs(rel, output, devMode)
         == ["make", rel, "--output", output] + (if devMode then [] else ["--optimize"])
  {
    var opt := if devMode then "" else "--optimize";
    var xs := ["make", rel, "--output", output, opt];
    assert xs == ["make"] + [rel] + ["--output"] + [output] + [opt];
    RemoveEmptyAppend(["make"] + [rel] + ["--output"] + [output], [opt]);
    RemoveEmptyAppend(["make"] + [rel] + ["--output"], [output]);
    RemoveEmptyAppend(["make"] + [rel], ["--output"]);
    RemoveEmptyAppend(["make"], [rel]);
    assert RemoveEmpty([opt]) == (if devMode then [] else ["--optimize"]) by {
      assert [opt][1..] == [];
    }
    assert RemoveEmpty(["make"]) == ["make"] by { assert ["make"][1..] == []; }
    assert RemoveEmpty([rel]) == [rel] by { assert [rel][1..] == []; }
    assert RemoveEmpty(["--output"]) == ["--output"] by { assert ["--output"][1..] == []; }
    assert RemoveEmpty([output]) == [output] by { assert [output][1..] == []; }
  }

  // ---------------------------------------------------------------------
  // the compiler run and its errors

  /** How the child process ended: an exit code, or `null` when a signal
      terminated it. */
  datatype ExitStatus = Exited(code: int) | Signalled

  /** What running the compiler produced: it started, ended with a status,
      left a standard-error log and (on success) an output file; or it could
      not be started at all. */
  datatype CompileRun =
    | Started(status: ExitStatus, log: string, output: string)
    | SpawnFailed(message: string)

  /** The process the plugin starts. */
  datatype Invocation = Invocation(executable: string, args: seq<string>, cwd: string)

  /** The world `compileElm` observes: the working directory, which files
      exist, and the clock used to name the output file. */
  datatype Env = Env(cwd: string, existing: set<string>, now: nat)

  datatype CompileError =
    | MissingElmJson(path: string)
    | MissingElmExecutable(path: string)
    | SpawnError(message: string)
    | CompilerExited(status: ExitStatus, log: string)

  function StatusText(s: ExitStatus): string {
    match s
    case Exited(code) => IntToString(code)
    case Signalled => "null"
  }

  /** How the two missing-file messages begin, before the path. */
  const MissingFileLead := "I was trying to find "

  /** The rest of the message for a missing `elm.json`. */
  const ElmInitAdvice :=
    ", but I couldn't.\n\n"
    + "It looks like you are starting a new Elm project. Very exciting!\n"
    + "Try running: `elm init`. It will help you get set up."

  /** The rest of the message for a missing compiler executable. */
  const NpmInstallAdvice :=
    ", but I couldn't.\n"
    + "Try running: `npm install`. It will help you fix the issue.\n\n"
    + "If the problem still persists, please open an issue at https://github.com/feedbackone/elmstronaut/issues"

  /** The `message` of the `Error` each failure is thrown as. */
  function ErrorMessage(e: CompileError): (m: string)
    ensures e.MissingElmJson? || e.MissingElmExecutable? ==> StartsWith(m, MissingFileLead + e.path)
    ensures e.SpawnError? ==> m == "Failed to start Elm compiler: " + e.message
    ensures e.CompilerExited? ==> m == "Elm compiler exited with code " + StatusText(e.status) + ":\n\n" + Prettify(e.log)
  {
    match e
    case MissingElmJson(p) =>
      var lead := MissingFileLead + p;
      assert (lead + ElmInitAdvice)[..|lead|] == lead;
      lead + ElmInitAdvice
    case MissingElmExecutable(p) =>
      var lead := MissingFileLead + p;
      assert (lead + NpmInstallAdvice)[..|lead|] == lead;
      lead + NpmInstallAdvice
    case SpawnError(msg) => "Failed to start Elm compiler: " + msg
    case CompilerExited(status, log) =>
      "Elm compiler exited with code " + StatusText(status) + ":\n\n" + Prettify(log)
  }

  // ---------------------------------------------------------------------
  // the wrapper module

  const WrapperHead := "let Component;\n(function() {\n  "
  const WrapperEnd := "export default Component;"

  /** The statement that names the module. */
  function NameAssignment(name: string): string {
    "globalThis.Elm." + name + ".__name = '" + name + "';"
  }

  /** The statement that makes the Elm module the default export. */
  function ComponentBinding(name: string): string {
    "Component = globalThis.Elm." + name + ";"
  }

  /** A line break and the indentation of the wrapper's statements. */
  const StatementBreak := "\n  "

  /** The two statements after the compiled code: name the module, then
      take it as the component. */
  function TailStatements(name: string): (t: string)
    ensures |t| == |NameAssignment(name)| + |StatementBreak| + |ComponentBinding(name)|
    ensures StartsWith(t, NameAssignment(name))
    ensures OccursAt(t, StatementBreak, |NameAssignment(name)|)
    ensures EndsWith(t, ComponentBinding(name))
  {
    Pieces(NameAssignment(name), StatementBreak, ComponentBinding(name));
    NameAssignment(name) + StatementBreak + ComponentBinding(name)
  }

  /** The end of the immediately invoked function. */
  const FunctionClose := "\n})();\n"

  /** What follows the last statement: the end of the function and the
      export. */
  const WrapperClosing := FunctionClose + WrapperEnd

  /** What follows the compiled code: the two statements, the end of the
      function and the export. */
  function WrapperTail(name: string): string {
    StatementBreak + TailStatements(name) + WrapperClosing
  }

  /** The compiled code with its first `(this)` turned into `(globalThis)`. */
  function PatchReceiver(js: string): (r: string)
    ensures !Contains(js, "(this)") ==> r == js
    ensures forall i: nat :: OccursAt(js, "(this)", i) && (forall j: nat :: j < i ==> !OccursAt(js, "(this)", j))
              ==> r == js[..i] + "(globalThis)" + js[i + 6..]
  {
    forall i: nat | OccursAt(js, "(this)", i) && (forall j: nat :: j < i ==> !OccursAt(js, "(this)", j))
      ensures ReplaceFirst(js, "(this)", "(globalThis)") == js[..i] + "(globalThis)" + js[i + 6..]
    {
      ReplaceFirstAt(js, "(this)", "(globalThis)", i);
    }
    ReplaceFirst(js, "(this)", "(globalThis)")
  }

  /** The tail holds the two statements right after the first line break,
      and ends with the default export. */
  lemma StatementsInTail(name: string)
    ensures StartsWith(WrapperTail(name), StatementBreak)
    ensures OccursAt(WrapperTail(name), TailStatements(name), 3)
    ensures EndsWith(WrapperTail(name), WrapperClosing)
    ensures EndsWith(WrapperTail(name), WrapperEnd)
  {
    Pieces(StatementBreak, TailStatements(name), WrapperClosing);
    EndsWithAppend(FunctionClose, WrapperEnd);
    EndsWithTransitive(WrapperTail(name), WrapperClosing, WrapperEnd);
  }

  /** The ES module around the compiler's output: it opens with the
      wrapper head, carries the patched code right after it, then the
      statements that assign `__name` and bind the Elm module as
      `Component`, and ends with the default export, holding nothing
      else. */
  function WrapModule(js: string, name: string): (r: string)
    ensures |r| == |WrapperHead| + |PatchReceiver(js)| + |WrapperTail(name)|
    ensures StartsWith(r, WrapperHead)
    ensures OccursAt(r, PatchReceiver(js), |WrapperHead|)
    ensures OccursAt(r, StatementBreak, |WrapperHead| + |PatchReceiver(js)|)
    ensures OccursAt(r, TailStatements(name), |WrapperHead| + |PatchReceiver(js)| + 3)
    ensures EndsWith(r, WrapperClosing)
    ensures EndsWith(r, WrapperEnd)
  {
    var r := WrapperHead + PatchReceiver(js) + WrapperTail(name);
    StatementsInTail(name);
    Pieces(WrapperHead, PatchReceiver(js), WrapperTail(name));
    StartsWithOccursAtZero(WrapperTail(name), StatementBreak);
    OccursAtAfterPrefix(WrapperHead + PatchReceiver(js), WrapperTail(name), StatementBreak, 0);
    OccursAtAfterPrefix(WrapperHead + PatchReceiver(js), WrapperTail(name), TailStatements(name), 3);
    EndsWithTransitive(r, WrapperTail(name), WrapperClosing);
    EndsWithTransitive(r, WrapperTail(name), WrapperEnd);
    r
  }

  // ---------------------------------------------------------------------
  // compileElm

  /** What `compileElm` did: the process it started, if it got that far,
      and the module text or the error it was rejected with. */
  datatype CompileOutcome = CompileOutcome(invocation: Option<Invocation>, result: Result<string, CompileError>)

  /** The checks made before anything is started, in the source's order:
      the manifest `elm.json` first, then the compiler executable. */
  function Preflight(env: Env): (r: Option<CompileError>)
    ensures ElmJsonPath(env.cwd) !in env.existing ==> r == Some(MissingElmJson(ElmJsonPath(env.cwd)))
    ensures (ElmJsonPath(env.cwd) in env.existing && ElmExecutablePath(env.cwd) !in env.existing)
              ==> r == Some(MissingElmExecutable(ElmExecutablePath(env.cwd)))
    ensures r.None? <==> ElmJsonPath(env.cwd) in env.existing && ElmExecutablePath(env.cwd) in env.existing
  {
    if ElmJsonPath(env.cwd) !in env.existing then Some(MissingElmJson(ElmJsonPath(env.cwd)))
    else if ElmExecutablePath(env.cwd) !in env.existing then Some(MissingElmExecutable(ElmExecutablePath(env.cwd)))
    else None
  }

  /** How the end of the compiler run decides the result: exit code 0 is
      success and yields the wrapped output; any other status, or a process
      that never started, is an error. */
  function RunResult(run: CompileRun, name: string): (r: Result<string, CompileError>)
    ensures r.Success? <==> run.Started? && run.status == Exited(0)
    ensures r.Success? ==> r.value == WrapModule(run.output, name)
    ensures run.SpawnFailed? ==> r == Failure(SpawnError(run.message))
    ensures run.Started? && run.status != Exited(0) ==> r == Failure(CompilerExited(run.status, run.log))
  {
    match run
    case SpawnFailed(msg) => Failure(SpawnError(msg))
    case Started(status, log, js) =>
      if status == Exited(0) then Success(WrapModule(js, name))
      else Failure(CompilerExited(status, log))
  }

  /** The temporary output file: `<elmDir>/<module name>-<now>.js`. */
  function OutputPath(elmDir: string, name: string, now: nat): (r: string)
    ensures r != []
  {
    Join(elmDir, name + "-" + NatToString(now) + ".js")
  }

  /** The process `compileElm` starts for `filePath` once the checks pass:
      the project's `elm` executable, run from the source directory. */
  function CompilerInvocation(filePath: string, devMode: bool, env: Env): (inv: Invocation)
    ensures inv.executable == ElmExecutablePath(env.cwd)
    ensures inv.cwd == ElmDir(env.cwd)
    ensures forall a :: a in inv.args ==> a != []
    ensures RelativePath(filePath, ElmDir(env.cwd)) != [] ==>
              inv.args == ["make", RelativePath(filePath, ElmDir(env.cwd)), "--output",
                           OutputPath(ElmDir(env.cwd), ModuleNameAsWritten(RelativePath(filePath, ElmDir(env.cwd))), env.now)]
                          + (if devMode then [] else ["--optimize"])
  {
    var elmDir := ElmDir(env.cwd);
    var rel := RelativePath(filePath, elmDir);
    var output := OutputPath(elmDir, ModuleNameAsWritten(rel), env.now);
    var inv := Invocation(ElmExecutablePath(env.cwd), CompilerArgs(rel, output, devMode), elmDir);
    if rel != [] then
      CompilerArgsShape(rel, output, devMode);
      inv
    else inv
  }

  /** `compileElm(filePath, isAstroDevMode)`: a failed check starts nothing
      and is the result; otherwise the compiler is started and its run
      decides the result. */
  function CompileElm(filePath: string, devMode: bool, env: Env, run: CompileRun): (o: CompileOutcome)
    ensures o.invocation.Some? <==> Preflight(env).None?
    ensures Preflight(env).Some? ==> o.result == Failure(Preflight(env).value)
    ensures o.invocation.Some? ==> o.invocation.value == CompilerInvocation(filePath, devMode, env)
    ensures o.invocation.Some? ==>
              o.result == RunResult(run, ModuleNameAsWritten(RelativePath(filePath, ElmDir(env.cwd))))
  {
    match Preflight(env)
    case Some(e) => CompileOutcome(None, Failure(e))
    case None =>
      var name := ModuleNameAsWritten(RelativePath(filePath, ElmDir(env.cwd)));
      CompileOutcome(Some(CompilerInvocation(filePath, devMode, env)), RunResult(run, name))
  }

  // ---------------------------------------------------------------------
  // transform

  /** What the `transform` hook hands back to Vite: nothing (the file is
      left as it is), replacement code, or a build error raised through
      `this.error`. */
  datatype TransformResult = PassThrough | Code(js: string) | BuildError(message: string)

  datatype TransformOutcome = TransformOutcome(result: TransformResult, cache: Cache, invocation: Option<Invocation>)

  /** The module ids the plugin handles: `.elm` files that are not Astro's
      virtual entry modules. */
  predicate Handles(id: string) {
    EndsWith(id, ElmExtension) && !Contains(id, AstroEntryMarker)
  }

  /** The diagnostic a failed compile is reported with. */
  function BuildErrorMessage(id: string, e: CompileError): (m: string)
    ensures StartsWith(m, "Error compiling " + id + ".\n\n" + ErrorMessage(e))
    ensures EndsWith(m, "\n")
    ensures |m| == |"Error compiling " + id + ".\n\n" + ErrorMessage(e)| + 1
  {
    var m := "Error compiling " + id + ".\n\n" + ErrorMessage(e) + "\n";
    assert m[..|"Error compiling " + id + ".\n\n" + ErrorMessage(e)|] == "Error compiling " + id + ".\n\n" + ErrorMessage(e);
    m
  }

  /** The `transform(code, id, options)` hook. `fileContent` is what the file
      at `id` holds and `digest` the SHA-256 hex digest; `ssr` is
      `options?.ssr`. */
  function Transform(cache: Cache, id: string, ssr: bool, devMode: bool, env: Env,
                     fileContent: string, digest: string -> Token, run: CompileRun): (o: TransformOutcome)
    ensures !Handles(id) ==> o == TransformOutcome(PassThrough, cache, None)
    ensures Handles(id) ==> o.cache == Add(cache, digest(fileContent))
    ensures ssr ==> o.result.PassThrough? && o.invocation.None?
    ensures Handles(id) && !ssr ==> o.invocation == CompileElm(id, devMode, env, run).invocation
    ensures Handles(id) && !ssr ==>
              match CompileElm(id, devMode, env, run).result
              case Success(js) => o.result == Code(js)
              case Failure(e) => o.result == BuildError(BuildErrorMessage(id, e))
  {
    if !EndsWith(id, ElmExtension) then TransformOutcome(PassThrough, cache, None)
    else if Contains(id, AstroEntryMarker) then TransformOutcome(PassThrough, cache, None)
    else
      var cache' := Add(cache, digest(fileContent));
      if ssr then TransformOutcome(PassThrough, cache', None)
      else
        var compiled := CompileElm(id, devMode, env, run);
        match compiled.result
        case Success(js) => TransformOutcome(Code(js), cache', compiled.invocation)
        case Failure(e) => TransformOutcome(BuildError(BuildErrorMessage(id, e)), cache', compiled.invocation)
  }
}
