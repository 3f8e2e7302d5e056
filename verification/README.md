# elmstronaut, modelled in Dafny

elmstronaut is an Astro integration for Elm components. This project models
the sequential logic under its plumbing and proves properties of that model:

- **`VitePlugin`** (`vite_plugin.dfy`) models the Vite plugin's `transform` hook.
  - It decides which module ids to handle.
  - It records each handled file's content hash in the shared cache. This happens before the server-pass skip.
  - It runs `compileElm`, in order:
    - checks that `elm.json` exists, then that the compiler executable exists;
    - derives the relative path and the module name;
    - builds the compiler's argument list;
    - maps the exit status to a result;
    - prettifies the compiler's log;
    - wraps the compiler's output in an ES module.
- **`Server`** (`server.dfy`) models the server renderer.
  - `check` classifies a component reference: not a string, a base64 data URI, or a path.
  - `renderToStaticMarkup` implements the fallback-slot rule.
- **`Bootstrap`** (`bootstrap.dfy`) models the inline bootstrap script.
  - It holds a queue of initialised apps and a one-shot `window.onElmInit` slot.
  - The setter ignores non-functions.
  - The first function assigned is installed, and the queue is replayed to it in FIFO order.
  - Any later function assignment throws; a later non-function is still ignored.
- **`Client`** (`client.dfy`) models the client renderer.
  - It recognises an Elm module by duck typing.
  - It calls `init` on the island element with the props as flags.
  - `registerInitCallback` either calls the callback or queues the app.
  - A try/catch turns an exception into a `<pre>` error block. The model keeps that block's text.
  - A thrown value without a string form (a symbol, say) makes building that text throw, and the resulting `TypeError` escapes the renderer.
  - A trace model of a whole page proves the delivery guarantee of the bootstrap protocol.
- **`ArtifactCache`** (`cache.dfy`) models the process-wide `Elmstronaut` singleton.
  - It is created once and reused by every later initialisation.
  - Its `Set<string>` cache supports add, has and clear.
  - The `astro:build:done` hook clears it.
- **`Lifecycle`** (`lifecycle.dfy`) connects the pieces over an `astro build`.
  - After the plugin has transformed the project's `.elm` files, a data URI component is owned exactly when its decoded text is one of those files.
  - The converse direction assumes a collision-free hash.
  - After the build, no inlined source is owned.

Two support modules sit underneath:

- `Strings` (`strings.dfy`) holds the JavaScript string operations the source relies on:
  - first-occurrence `replace` with a string pattern;
  - `includes`, `startsWith` and `endsWith`;
  - `split(c).at(0)`;
  - `trim`, with ECMAScript white space and line terminators;
  - integer-to-decimal rendering.
- `Js` (`js.dfy`) holds the JavaScript values the renderers inspect, and what a `throw` carries.

Foreign calls are parameters of the operations that make them:

- SHA-256 is `digest`.
- Base64-to-UTF-8 decoding is `decode`.
- The file's text is `fileContent`.
- The compiler run is a `CompileRun`: it started and ended with a status, log and output, or it failed to spawn.
- File existence is the set `Env.existing`.
- `process.cwd()` is `Env.cwd`.
- `Date.now()` is `Env.now`.
- A user callback or an Elm `init` is a function from its arguments to "returned" or "threw".

## Model

| member | source | states |
|---|---|---|
| ArtifactCache.Add | src/vitePlugin.ts:36 | after `cache.add(t)`, `t` is a member and every other token is a member exactly when it was before |
| ArtifactCache.Clear | src/index.ts:83 | after `cache.clear()` no token is a member |
| ArtifactCache.AddIdempotent | src/global.ts:16 | set semantics: adding twice equals adding once, and adding a present token changes nothing |
| ArtifactCache.AddCommutes | src/vitePlugin.ts:35-36 | recording two hashes in either order gives the same cache |
| ArtifactCache.Initialize | src/global.ts:11-17 | initialisation always leaves a singleton; an existing one is kept as it is (cache contents preserved); a fresh one has an empty cache |
| ArtifactCache.BuildDone | src/index.ts:82-84 | after `astro:build:done` the singleton remains and its cache holds nothing |
| Strings.IndexFrom | src/vitePlugin.ts:29 | the result is the first occurrence of the pattern at or after the start index, or none when there is none |
| Strings.IndexOf | src/vitePlugin.ts:29 | found exactly when the pattern occurs (`includes`), at the leftmost occurrence |
| Strings.ReplaceFirst | src/vitePlugin.ts:83-88 | a string-pattern `replace` leaves the text unchanged when the pattern is absent and otherwise replaces exactly one occurrence (length accounting) |
| Strings.ReplaceFirstAt | src/vitePlugin.ts:154 | when the first occurrence is at `i`, the result is the text before `i`, the replacement, then the text after that occurrence |
| Strings.ReplaceFirstCharAt | src/vitePlugin.ts:87 | replacing a one-character pattern rewrites only its first occurrence |
| Strings.BeforeFirst | src/server.ts:61 | `split(c).at(0)` is the prefix up to the first `c`, which it does not contain; the whole string when there is no `c` |
| Strings.Trim | src/vitePlugin.ts:170 | `trim()` returns a contiguous slice whose removed ends consist only of white space and line terminators and whose own ends are neither |
| Strings.TrimIdempotent | src/vitePlugin.ts:170 | trimming twice equals trimming once |
| Strings.NatToString | src/vitePlugin.ts:91 | the decimal rendering of a natural number is digits only, without a superfluous leading zero |
| Strings.NatToStringValue | src/vitePlugin.ts:91 | reading the rendered digits back gives the number |
| Strings.IntToString | src/vitePlugin.ts:136 | `${code}` has a minus sign exactly for negative codes, and after it come digits without a superfluous leading zero that denote the magnitude |
| VitePlugin.IndentLines | src/vitePlugin.ts:170 | `replace(/^/gm, ">   ")` always starts with the indentation |
| VitePlugin.UnindentAfterTerminatorsInverse | src/vitePlugin.ts:170 | removing the indentation inserted after every line terminator gives back the text |
| VitePlugin.Prettify | src/vitePlugin.ts:167-171 | a prettified log starts with the indentation |
| VitePlugin.PrettifyRoundTrip | src/vitePlugin.ts:167-171 | removing the `">   "` prefix of every line of `prettify(log)` gives back `log.trim()` |
| VitePlugin.Join | src/vitePlugin.ts:64 | a joined path starts with the directory and ends with the name, with exactly one `/` between them unless the directory already ends in one |
| VitePlugin.RelativePath | src/vitePlugin.ts:83 | a file under the source directory loses exactly that directory and its separator; a path not containing it is unchanged |
| VitePlugin.Dotted | src/vitePlugin.ts:87 | every separator becomes a dot, and every other character is kept in place |
| VitePlugin.Stem | src/vitePlugin.ts:88 | a path ending in `.elm` is its stem followed by the extension; any other path is its own stem |
| VitePlugin.ModuleNameAsWritten | src/vitePlugin.ts:86-88 | the name the source derives with two first-occurrence replacements is as long as the path or one extension shorter, and a path with neither a separator nor `.elm` is its own name |
| VitePlugin.ModuleName | src/vitePlugin.ts:86-89 | the corrected reference name has no separator left and is the relative path, position by position, with separators dotted and the extension dropped |
| VitePlugin.FirstSeparatorDotted | src/vitePlugin.ts:87 | `rel.replace("/", ".")` turns the first separator, and only it, into a dot |
| VitePlugin.ExtensionOnlyAtEnd | src/vitePlugin.ts:88 | in a module path, whatever separators were dotted, `.elm` cannot occur before the extension |
| VitePlugin.RemoveExtension | src/vitePlugin.ts:88 | so `.replace(".elm", "")` removes exactly the extension of a module path |
| VitePlugin.FirstSeparatorInStem | src/vitePlugin.ts:86-88 | converting the first separator commutes with dropping the extension |
| VitePlugin.ModuleNameAsWrittenConvertsFirstSeparator | src/vitePlugin.ts:86-88 | for any module path the source's derivation is the stem with only its first separator dotted |
| VitePlugin.AsWrittenAgreesWhenShallow | src/vitePlugin.ts:84-89 | for module paths with at most one separator the source's derivation equals the corrected module name |
| VitePlugin.GreetingHelloExample | src/vitePlugin.ts:84-89 | `Greeting/Hello.elm` gives `Greeting.Hello` |
| VitePlugin.NestedModuleNameAsWritten | src/vitePlugin.ts:86-88 | `Greeting/Sub/Hello.elm` gives `Greeting.Sub/Hello` as written, while its module is `Greeting.Sub.Hello` |
| VitePlugin.RemoveEmpty | src/vitePlugin.ts:115 | `.filter((s) => s)` keeps exactly the non-empty strings, in order |
| VitePlugin.RemoveEmptyAppend | src/vitePlugin.ts:115 | filtering distributes over concatenation |
| VitePlugin.CompilerArgs | src/vitePlugin.ts:109-115 | the argument list never contains an empty string |
| VitePlugin.CompilerArgsShape | src/vitePlugin.ts:109-115 | the arguments are `make <rel> --output <out>`, followed by `--optimize` exactly outside development mode |
| VitePlugin.ErrorMessage | src/vitePlugin.ts:129-138 | a missing file names its path; a spawn failure is `Failed to start Elm compiler: <msg>`; a non-zero exit is `Elm compiler exited with code N:` plus a blank line and the prettified log |
| VitePlugin.PatchReceiver | src/vitePlugin.ts:154 | the first `(this)`, and only it, becomes `(globalThis)`; code without `(this)` is unchanged |
| VitePlugin.TailStatements | src/vitePlugin.ts:155-156 | the statements after the compiled code are the `__name` assignment, an indented line break, and `Component = globalThis.Elm.<name>;`, with nothing else |
| VitePlugin.StatementsInTail | src/vitePlugin.ts:154-158 | the tail is an indented line break, those two statements, then the closing `\n})();\n` and the default export |
| VitePlugin.WrapModule | src/vitePlugin.ts:151-159 | the module opens with `let Component;`, carries the patched compiler output right after the opening, then an indented line break and the `__name` assignment and `Component` binding, then the closing `\n})();\n` that invokes the function and `export default Component;`, and holds nothing more than those pieces |
| VitePlugin.Preflight | src/vitePlugin.ts:64-78 | a missing `elm.json` is reported before the executable is looked at; a missing executable is reported next; the checks pass exactly when both exist |
| VitePlugin.RunResult | src/vitePlugin.ts:129-141 | success exactly for exit code 0, with the wrapped output; a spawn failure and any other status (including a signal) are the matching errors |
| VitePlugin.OutputPath | src/vitePlugin.ts:91 | the temporary output path is never empty |
| VitePlugin.CompilerInvocation | src/vitePlugin.ts:106-120 | the project's `elm` executable runs in the source directory with the argument list above; the output path carries the module name as the source derives it |
| VitePlugin.CompileElm | src/vitePlugin.ts:54-148 | a process is started exactly when both checks pass; a failed check is the result; otherwise the run decides it, wrapping the output under the module name as the source derives it |
| VitePlugin.BuildErrorMessage | src/vitePlugin.ts:46-48 | a failure is reported as exactly `Error compiling <id>.`, a blank line, the message and one newline |
| VitePlugin.Transform | src/vitePlugin.ts:20-50 | ids not ending in `.elm`, and Astro entry ids, pass through with the cache unchanged; any other id has its hash recorded whatever follows; the server pass compiles nothing; otherwise compiled code or the build error is returned |
| Server.Classify | src/server.ts:39-58 | a reference is not a string, an inlined source whose payload follows the data-URI prefix, or a path |
| Server.Check | src/server.ts:24-62 | a non-string is never owned; a data URI is owned iff the hash of its decoded payload is cached; any other string iff the part before its first `?` ends in `.elm` |
| Server.PrefixUnaffectedByQuery | src/server.ts:48 | appending a query never turns a path into a data URI or back |
| Server.QueryDoesNotConferOwnership | src/server.ts:61 | a path with or without a `?` query is owned iff the path ends in `.elm`, so `/x.js?f=a.elm` is not owned |
| Server.PathOwnershipIgnoresCache | src/server.ts:61 | the ownership of paths does not depend on the cache |
| Server.RenderToStaticMarkup | src/server.ts:78-84 | the html is the `fallback` slot when present (even empty), a single space otherwise; no attributes; component and props play no part |
| Server.EmptyFallbackIsNotPlaceholder | src/server.ts:79-82 | an empty fallback renders empty, and no fallback renders as a space |
| Bootstrap.Start | src/static/bootstrap.js:5-10 | the queue starts empty; a pre-existing `onElmInit` is kept only if it is a function |
| Bootstrap.Get | src/static/bootstrap.js:13 | the getter yields the installed function, or `undefined` when there is none |
| Bootstrap.ReplayQueue | src/static/bootstrap.js:25-27 | the calls are a prefix of the queue, in order; the whole queue exactly when no call throws; otherwise the replay stops at the first throwing entry, whose exception escapes |
| Bootstrap.Set | src/static/bootstrap.js:14-34 | a non-function is ignored; the first function is installed, the queue kept, and replayed in FIFO order, the replay's calls and escaping exception being those of `ReplayQueue`; a later function throws the only-once error and changes nothing |
| Bootstrap.InstalledCallbackIsPermanent | src/static/bootstrap.js:21-33 | once installed, the callback is never replaced |
| Client.ElmModuleIsTruthy | src/client.ts:45-58 | every value recognised as an Elm module passes the falsiness test |
| Client.RegisterInitCallback | src/client.ts:78-91 | with a callback installed it is called once with the entry and the queue is unchanged; otherwise the entry is appended and nothing is called |
| Client.Diagnostic | src/client.ts:99-104 | an `Error` contributes its stack (`undefined` when absent), any other thrown value its string form; there is none exactly for values without a string form |
| Client.ErrorText | src/client.ts:101-103 | the block is `Module "` then the name, then `" cannot be initialized.` and a blank line, then the diagnostic, each readable back at its fixed offset |
| Client.RenderError | src/client.ts:93-110 | exactly one block is appended after the existing ones, which are left as they were; nothing is appended, and a `TypeError` escapes, exactly when the exception has no string form |
| Client.CatchBlock | src/client.ts:72-74 | the `catch` block keeps the bootstrap state and the calls made, and either appends the error block or lets the `TypeError` escape |
| Client.Render | src/client.ts:28-76 | falsy and non-module components change nothing; `init` is called once with the element and the props; an exception from `init` or the callback becomes one error block, and escapes only when it has no string form |
| Client.RenderAppendsAtMostOneBlock | src/client.ts:64-74 | a rendering appends at most one block and keeps earlier ones; it appends one exactly when `init` or the installed callback threw a value with a string form, and an exception escapes exactly when the thrown value has none |
| Client.Registrations | src/client.ts:78-91 | the entries registered by a page's events are exactly those of its `Registered` events |
| Client.RegistrationsAppend | src/client.ts:78-91 | registrations of consecutive event sequences follow one another, so entries keep the order of their events |
| Client.Step | src/client.ts:78-91 | a registration is delivered at once or queued; the installing assignment delivers a prefix of the queue (the whole queue when nothing throws); other assignments do nothing |
| Client.Run | src/static/bootstrap.js:12-35 | the slot only ever holds a function, however the page's events interleave |
| Client.DeliveredInOrderStep | src/static/bootstrap.js:21-27 | each event preserves the in-order delivery invariant |
| Client.DeliveredInOrderHolds | src/static/bootstrap.js:21-27 | every sequence of page events satisfies the in-order delivery invariant |
| Client.DeliveryInOrder | src/client.ts:80-90 | with non-throwing callbacks, apps are queued in order until installation; afterwards the queue never grows and the callback has received every registered app once, in registration order |
| Client.TwoIslandsThenCallback | src/static/bootstrap.js:21-27 | two islands registered before the assignment reach the callback in registration order |
| Lifecycle.HandledDigests | src/vitePlugin.ts:22-36 | the recorded hashes are exactly those of the handled files |
| Lifecycle.TransformAll | src/vitePlugin.ts:35-36 | transforming a sequence of files adds exactly the handled files' hashes to the cache, whatever the compile outcomes |
| Lifecycle.TransformedSourceIsOwned | src/server.ts:52-57 | after the plugin transforms a file, the data URI whose payload decodes to that file's text is owned |
| Lifecycle.InlinedOwnershipAfterBuild | src/server.ts:52-57 | over a build from an empty cache, a data URI is owned if its decoded text is a handled file's content, and (for a collision-free hash) only then |
| Lifecycle.LateInitializationSeesRecordedTokens | src/global.ts:11-19 | a module initialising the singleton after the plugin ran sees the hashes the plugin recorded |
| Lifecycle.InitializeIdempotent | src/global.ts:11-17 | initialising twice equals initialising once |
| Lifecycle.BuildDoneForgetsInlinedSources | src/index.ts:82-84 | after the build no data URI is owned, and path ownership is unchanged |

## Left out

- Subprocess spawning, stderr piping into a log file, reading the output file, and deleting the temporary files (src/vitePlugin.ts:106-148, 162) are left out. They are replaced by the `CompileRun` input. A failing read or delete is therefore not modelled.
- `hashFromPath`, `hashFromContent` and `decodeBase64` (src/utils.ts) are foreign calls, modelled as the parameters `digest` and `decode`.
  - The stream hash of a file and the content hash of its text are assumed to agree. The model applies the same `digest` to the same text in both places.
  - A failing stream read is not modelled.
- `InlinedOwnershipAfterBuild` proves its "only then" direction only for a collision-free `digest`. SHA-256 is not provably collision-free.
- `path.join` is `VitePlugin.Join`: one separator between the parts, with no normalisation of `.`, `..` or repeated separators.
- `VitePlugin.OutputPath`: only non-emptiness is stated. The file name's clock component is the input `Env.now`.
- `VitePlugin.IndentLines`: the pointwise shape is stated only through `PrettifyRoundTrip`, not in its own contract.
- `VitePlugin.CompileElm`: the compiler run is modelled only by its observable result. Its files, streams and events are not modelled.
- VitePlugin.ModuleNameAsWritten: its own contract states only the length and the no-separator case. Its exact value on module paths is stated by `ModuleNameAsWrittenConvertsFirstSeparator`.
- Client.Render: a thrown object whose string conversion runs user code is represented only by its outcome: a string form (`OtherValue`), or a throwing conversion (`NoStringForm`). What that conversion throws is not modelled.
- JavaScript strings are UTF-16 code-unit sequences, while Dafny's `char` is a Unicode scalar value. Lone surrogates are not modelled.
- Asynchrony is left out:
  - Vite may run transforms concurrently; the model is sequential.
  - `check` and `renderToStaticMarkup` are `async`; their results are modelled as plain values.
- DOM work in `renderError` (creating the `<pre>`, its styles, `appendChild`) is reduced to one appended text block per element.
- The Elm app that `init` returns is opaque (`Bootstrap.App`). What `init` and the user callback do, other than returning or throwing, is not modelled.
- The client's `"__name" in Component` also sees inherited properties. The model looks at own properties only.
- `CREATOR_MODE` debug logging (src/dev.ts) is assumed off.
- Astro hook wiring, configuration, type injection and the dev-server watcher (src/index.ts) are out of scope. Only the cache clear at src/index.ts:83 is modelled.
- The message texts of src/errors.ts are reproduced in `VitePlugin.ErrorMessage`. Their contracts state only that the path is named.

## Findings

| source | as written | input that shows it | evidently intended | confidence | as-written member | corrected member |
|---|---|---|---|---|---|---|
| src/vitePlugin.ts:86-88 | `replace("/", ".")` converts only the first separator of the relative path | `Greeting/Sub/Hello.elm` yields `Greeting.Sub/Hello`, which is not the module's name and not a property path in `globalThis.Elm.<name>` | every separator becomes a dot: `Greeting.Sub.Hello` | not executed | VitePlugin.NestedModuleNameAsWritten | VitePlugin.ModuleName |

- `VitePlugin.ModuleNameAsWritten` models the derivation as written. `VitePlugin.CompileElm` uses it for the output path and the wrapper, as the program does. So a nested module is wrapped as `globalThis.Elm.Greeting.Sub/Hello`.
- `VitePlugin.ModuleNameAsWrittenConvertsFirstSeparator` proves that, for every module path, it dots only the stem's first separator.
- `VitePlugin.AsWrittenAgreesWhenShallow` proves that it agrees with the corrected `VitePlugin.ModuleName` for modules at most one directory deep. The source's own example, `Greeting/Hello.elm`, is such a module.
- `VitePlugin.ModuleName` is the corrected definition. Its contract states the intended property: no separator is left, and every other character keeps its place.
