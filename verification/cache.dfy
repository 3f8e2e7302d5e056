/** The process-wide `Elmstronaut` singleton and its cache of content hashes
    (identity tokens). The transform writes tokens, the server renderer's
    ownership check reads them, and the end of a production build clears
    them. */
module ArtifactCache {

  import opened Wrappers

  /** A hex-encoded content digest. */
  type Token = string

  /** A `Set<string>` of tokens. */
  datatype Cache = Cache(tokens: set<Token>)

  /** The sealed singleton object; its only field is `cache`. */
  datatype Elmstronaut = Elmstronaut(cache: Cache)

  /** The part of `globalThis` the integration touches: the `Elmstronaut`
      property, absent until some module first initialises it. */
  datatype GlobalScope = GlobalScope(elmstronaut: Option<Elmstronaut>)

  const EmptyCache := Cache({})

  /** `cache.has(t)` */
  predicate Has(c: Cache, t: Token) {
    t in c.tokens
  }

  /** `cache.add(t)`: afterwards `t` is a member, and every other token is a
      member exactly when it was one before. */
  function Add(c: Cache, t: Token): (r: Cache)
    ensures Has(r, t)
    ensures forall u :: u != t ==> (Has(r, u) <==> Has(c, u))
  {
    Cache(c.tokens + {t})
  }

  /** `cache.clear()`: nothing is a member afterwards. */
  function Clear(c: Cache): (r: Cache)
    ensures forall u :: !Has(r, u)
  {
    EmptyCache
  }

  /** Adding a token twice is the same as adding it once, and adding
      a token that is already present changes nothing. */
  lemma AddIdempotent(c: Cache, t: Token)
    ensures Add(Add(c, t), t) == Add(c, t)
    ensures Has(c, t) ==> Add(c, t) == c
  {
    if Has(c, t) {
      assert c.tokens + {t} == c.tokens;
    }
  }

  /** Insertions commute, so the order in which files are transformed does
      not matter for the final cache. */
  lemma AddCommutes(c: Cache, t: Token, u: Token)
    ensures Add(Add(c, t), u) == Add(Add(c, u), t)
  {
    assert c.tokens + {t} + {u} == c.tokens + {u} + {t};
  }

  /** The module-level initialisation of `globalThis.Elmstronaut`:
      keep an existing singleton, otherwise create one with an empty cache. */
  function Initialize(g: GlobalScope): (r: GlobalScope)
    ensures r.elmstronaut.Some?
    ensures g.elmstronaut.Some? ==> r == g
    ensures g.elmstronaut.None? ==> r.elmstronaut.value.cache.tokens == {}
  {
    match g.elmstronaut
    case Some(_) => g
    case None => GlobalScope(Some(Elmstronaut(EmptyCache)))
  }

  /** The `astro:build:done` hook: clear the singleton's cache. */
  function BuildDone(g: GlobalScope): (r: GlobalScope)
    requires g.elmstronaut.Some?
    ensures r.elmstronaut.Some?
    ensures forall u :: !Has(r.elmstronaut.value.cache, u)
  {
    GlobalScope(Some(Elmstronaut(Clear(g.elmstronaut.value.cache))))
  }
}
