/** The server-side renderer: the ownership check Astro uses to pick a
    renderer for a component, and the placeholder markup it renders instead
    of running Elm on the server. */
module Server {

  import opened Strings
  import opened Js
  import opened ArtifactCache
  import VitePlugin

  /** What `astro build` puts in front of a base64-inlined source file. */
  const OctetStreamPrefix := "data:application/octet-stream;base64,"

  /** The three kinds of component reference `check` tells apart. */
  datatype Reference =
    | NotAString
    | InlinedSource(payload: string)
    | PathLike(path: string)

  function Classify(component: JsValue): (r: Reference)
    ensures r.NotAString? <==> !IsString(component)
    ensures r.InlinedSource? <==> IsString(component) && StartsWith(component.s, OctetStreamPrefix)
    ensures r.InlinedSource? ==> OctetStreamPrefix + r.payload == component.s
    ensures r.PathLike? ==> r.path == component.s
  {
    match component
    case Str(s) =>
      if StartsWith(s, OctetStreamPrefix) then
        assert s == s[..|OctetStreamPrefix|] + s[|OctetStreamPrefix|..];
        InlinedSource(s[|OctetStreamPrefix|..])
      else PathLike(s)
    case _ => NotAString
  }

  /** `check(Component, props, slots, metadata)`. An inlined source is owned
      exactly when the hash of its decoded text is in the cache; any other
      string is owned exactly when the part before its first `?` ends in
      `.elm`; anything else is not owned. `decode` is base64-to-UTF-8
      decoding and `digest` the SHA-256 hex digest. The cache is only read. */
  function Check(component: JsValue, cache: Cache, decode: string -> string, digest: string -> Token): (owned: bool)
    ensures !IsString(component) ==> !owned
    ensures (IsString(component) && StartsWith(component.s, OctetStreamPrefix))
              ==> (owned <==> Has(cache, digest(decode(component.s[|OctetStreamPrefix|..]))))
    ensures (IsString(component) && !StartsWith(component.s, OctetStreamPrefix))
              ==> (owned <==> EndsWith(BeforeFirst(component.s, '?'), VitePlugin.ElmExtension))
  {
    match Classify(component)
    case NotAString => false
    case InlinedSource(payload) => Has(cache, digest(decode(payload)))
    case PathLike(path) => EndsWith(BeforeFirst(path, '?'), VitePlugin.ElmExtension)
  }

  /** The data-URI prefix holds no `?`, so adding a query to a reference
      never changes whether it is an inlined source. */
  lemma PrefixUnaffectedByQuery(p: string, q: string)
    requires forall k :: 0 <= k < |p| ==> p[k] != '?'
    ensures StartsWith(p + "?" + q, OctetStreamPrefix) <==> StartsWith(p, OctetStreamPrefix)
  {
    var s := p + "?" + q;
    var n := |OctetStreamPrefix|;
    if |p| >= n {
      assert s[..n] == p[..n];
    } else {
      assert s[|p|] == '?';
      assert forall k :: 0 <= k < n ==> OctetStreamPrefix[k] != '?';
      if n <= |s| {
        assert s[..n][|p|] == '?';
      }
    }
  }

  /** A query suffix never changes whether a path-like reference is owned:
      `/src/elm/Counter.elm` and `/src/elm/Counter.elm?t=1739910080397` are
      judged alike, and so are `/x.js` and `/x.js?f=a.elm`. */
  lemma QueryDoesNotConferOwnership(p: string, q: string, cache: Cache, decode: string -> string, digest: string -> Token)
    requires forall k :: 0 <= k < |p| ==> p[k] != '?'
    requires !StartsWith(p, OctetStreamPrefix)
    ensures Check(Str(p + "?" + q), cache, decode, digest) <==> EndsWith(p, VitePlugin.ElmExtension)
    ensures Check(Str(p), cache, decode, digest) <==> EndsWith(p, VitePlugin.ElmExtension)
  {
    PrefixUnaffectedByQuery(p, q);
    var s := p + "?" + q;
    assert CharIndex(s, '?') == |p| by {
      assert s[|p|] == '?';
      assert forall k :: 0 <= k < |p| ==> s[k] == p[k];
    }
    assert BeforeFirst(s, '?') == p;
    assert BeforeFirst(p, '?') == p;
  }

  /** Ownership of path-like references never depends on the cache. */
  lemma PathOwnershipIgnoresCache(s: string, c1: Cache, c2: Cache, decode: string -> string, digest: string -> Token)
    requires !StartsWith(s, OctetStreamPrefix)
    ensures Check(Str(s), c1, decode, digest) == Check(Str(s), c2, decode, digest)
  {
  }

  /** The markup `renderToStaticMarkup` returns. */
  datatype StaticMarkup = StaticMarkup(html: string, attrs: map<string, string>)

  /** `renderToStaticMarkup(Component, props, slots, metadata)`: nothing is
      executed; the html is the `fallback` slot when there is one (even an
      empty one), a single space otherwise, and there are no attributes. */
  function RenderToStaticMarkup(component: JsValue, props: map<string, JsValue>, slots: map<string, string>): (m: StaticMarkup)
    ensures "fallback" in slots ==> m.html == slots["fallback"]
    ensures "fallback" !in slots ==> m.html == " "
    ensures m.attrs == map[]
  {
    StaticMarkup(if "fallback" in slots then slots["fallback"] else " ", map[])
  }

  /** An empty fallback slot renders as empty, never as the placeholder. */
  lemma EmptyFallbackIsNotPlaceholder(component: JsValue, props: map<string, JsValue>)
    ensures RenderToStaticMarkup(component, props, map["fallback" := ""]).html == ""
    ensures RenderToStaticMarkup(component, props, map[]).html == " "
  {
  }
}
