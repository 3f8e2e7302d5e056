/** How the pieces meet during `astro build`: the Vite plugin transforms the
    project's `.elm` files and records their hashes in the shared singleton;
    Astro then asks the server renderer whether it owns components that the
    build has inlined as base64 data URIs; and the `astro:build:done` hook
    clears the cache. */
module Lifecycle {

  import opened Wrappers
  import opened Strings
  import opened Js
  import opened ArtifactCache
  import opened VitePlugin
  import opened Server

  /** A module id Vite asks the plugin to transform, and the text of the
      file at that id. */
  datatype SourceFile = SourceFile(id: string, content: string)

  /** The hashes the plugin records for a sequence of files: one per
      handled file, whatever becomes of its compilation. */
  function HandledDigests(files: seq<SourceFile>, digest: string -> Token): (ts: set<Token>)
    ensures forall k :: 0 <= k < |files| && Handles(files[k].id) ==> digest(files[k].content) in ts
    ensures forall t :: t in ts ==> exists k :: 0 <= k < |files| && Handles(files[k].id) && t == digest(files[k].content)
    decreases |files|
  {
    if files == [] then {}
    else
      var init := HandledDigests(files[..|files| - 1], digest);
      var last := files[|files| - 1];
      assert forall k :: 0 <= k < |files| - 1 ==> files[..|files| - 1][k] == files[k];
      if Handles(last.id) then init + {digest(last.content)} else init
  }

  /** The cache after Vite has run the `transform` hook on each file in
      turn. `runs` gives the compiler run for each id. */
  function TransformAll(cache: Cache, files: seq<SourceFile>, ssr: bool, devMode: bool, env: Env,
                        digest: string -> Token, runs: string -> CompileRun): (c: Cache)
    ensures c.tokens == cache.tokens + HandledDigests(files, digest)
    decreases |files|
  {
    if files == [] then cache
    else
      var before := TransformAll(cache, files[..|files| - 1], ssr, devMode, env, digest, runs);
      var last := files[|files| - 1];
      Transform(before, last.id, ssr, devMode, env, last.content, digest, runs(last.id)).cache
  }

  /** A component Astro inlined as a data URI whose payload decodes to the
      text of a file the plugin has transformed is owned by this renderer. */
  lemma TransformedSourceIsOwned(cache: Cache, f: SourceFile, ssr: bool, devMode: bool, env: Env,
                                 run: CompileRun, payload: string, decode: string -> string, digest: string -> Token)
    requires Handles(f.id)
    requires decode(payload) == f.content
    ensures Check(Str(OctetStreamPrefix + payload),
                  Transform(cache, f.id, ssr, devMode, env, f.content, digest, run).cache, decode, digest)
  {
    var s := OctetStreamPrefix + payload;
    assert s[..|OctetStreamPrefix|] == OctetStreamPrefix;
    assert s[|OctetStreamPrefix|..] == payload;
  }

  /** Content hashes identify contents: distinct texts never share one. */
  ghost predicate CollisionFree(digest: string -> Token) {
    forall a, b :: digest(a) == digest(b) ==> a == b
  }

  /** Ownership of inlined sources over a whole build that starts with an
      empty cache: an inlined component is owned exactly when its decoded
      text is the content of some `.elm` file the plugin handled. The
      direction from handled to owned holds for any digest; the converse
      needs the digest to be collision-free. */
  lemma InlinedOwnershipAfterBuild(files: seq<SourceFile>, ssr: bool, devMode: bool, env: Env,
                                   runs: string -> CompileRun, payload: string,
                                   decode: string -> string, digest: string -> Token)
    ensures (exists k :: 0 <= k < |files| && Handles(files[k].id) && files[k].content == decode(payload))
              ==> Check(Str(OctetStreamPrefix + payload),
                        TransformAll(EmptyCache, files, ssr, devMode, env, digest, runs), decode, digest)
    ensures (CollisionFree(digest)
             && Check(Str(OctetStreamPrefix + payload),
                      TransformAll(EmptyCache, files, ssr, devMode, env, digest, runs), decode, digest))
              ==> exists k :: 0 <= k < |files| && Handles(files[k].id) && files[k].content == decode(payload)
  {
    var s := OctetStreamPrefix + payload;
    assert s[..|OctetStreamPrefix|] == OctetStreamPrefix;
    assert s[|OctetStreamPrefix|..] == payload;
    var c := TransformAll(EmptyCache, files, ssr, devMode, env, digest, runs);
    assert c.tokens == HandledDigests(files, digest);
    if CollisionFree(digest) && Check(Str(s), c, decode, digest) {
      var k :| 0 <= k < |files| && Handles(files[k].id) && digest(decode(payload)) == digest(files[k].content);
      assert files[k].content == decode(payload);
    }
  }

  /** The singleton is shared: whichever module initialises it first, a
      module that initialises it later (the server renderer, loaded after
      the plugin has run) sees the tokens the plugin recorded. */
  lemma LateInitializationSeesRecordedTokens(g: GlobalScope, f: SourceFile, ssr: bool, devMode: bool, env: Env,
                                            run: CompileRun, digest: string -> Token)
    requires Handles(f.id)
    ensures var plugin := Initialize(g);
            var recorded := Transform(plugin.elmstronaut.value.cache, f.id, ssr, devMode, env, f.content, digest, run).cache;
            var server := Initialize(GlobalScope(Some(Elmstronaut(recorded))));
            Has(server.elmstronaut.value.cache, digest(f.content))
  {
  }

  /** Initialising the singleton again changes nothing. */
  lemma InitializeIdempotent(g: GlobalScope)
    ensures Initialize(Initialize(g)) == Initialize(g)
  {
  }

  /** After `astro:build:done` no inlined component is owned any more, while
      ownership of path-like references is unaffected. */
  lemma BuildDoneForgetsInlinedSources(g: GlobalScope, component: JsValue, decode: string -> string, digest: string -> Token)
    requires g.elmstronaut.Some?
    ensures (IsString(component) && StartsWith(component.s, OctetStreamPrefix))
              ==> !Check(component, BuildDone(g).elmstronaut.value.cache, decode, digest)
    ensures (IsString(component) && !StartsWith(component.s, OctetStreamPrefix))
              ==> (Check(component, BuildDone(g).elmstronaut.value.cache, decode, digest)
                   <==> Check(component, g.elmstronaut.value.cache, decode, digest))
  {
  }
}
