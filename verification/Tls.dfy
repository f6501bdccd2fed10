/** The TLS configuration cache (src/api/tls.rs): one sequential load on the mutable pair,
    then loads that interleave between fetch, compare, build and write. */
module Tls {
  import opened Util
  import opened Facade

  /** What `ServerConfig` holds after `set_single_cert` and `set_protocols`. */
  datatype ServerConfig = ServerConfig(identity: Option<(seq<string>, string)>, alpn: seq<string>)

  /** The configuration the acceptor starts with: no identity, no protocols. */
  const BARE := ServerConfig(None, [])

  /** The parsers and the consistency test of rustls, as parameters. */
  datatype Rustls = Rustls(
    keys: string -> Option<seq<string>>,
    certs: string -> Option<seq<string>>,
    accepts: (seq<string>, string) -> bool)
  {
    /** `create_server_config`; `None` stands for each of its errors. */
    function Build(c: Cert): Option<ServerConfig> {
      match (c.private, c.cert)
      case (Some(private), Some(cert)) =>
        (match keys(private)
         case None => None
         case Some(privates) =>
           if |privates| == 0 then None else
             match certs(cert)
             case None => None
             case Some(chain) =>
               var key := privates[|privates| - 1];
               if accepts(chain, key) then Some(ServerConfig(Some((chain, key)), ["h2", "http/1.1"])) else None)
      case _ => None
    }

    /** Equality of certificates as the cache tests it is a congruence for the builder. */
    lemma {:induction false} SameCertBuildsSame(a: Cert, b: Cert)
      requires SameCert(a, b)
      ensures Build(a) == Build(b)
    {
    }

    /** The certificate's texts hold this chain and, as the last private key, this key, and rustls takes them. */
    predicate Holds(c: Cert, chain: seq<string>, key: string) {
      && c.private.Some? && c.cert.Some?
      && keys(c.private.value).Some? && certs(c.cert.value) == Some(chain)
      && |keys(c.private.value).value| > 0
      && keys(c.private.value).value[|keys(c.private.value).value| - 1] == key
      && accepts(chain, key)
    }

    /** Every certificate that holds a chain and a key builds, to exactly these; no other builds. */
    lemma {:induction false} BuildsExactly(c: Cert, chain: seq<string>, key: string)
      ensures Holds(c, chain, key) <==> Build(c) == Some(ServerConfig(Some((chain, key)), ["h2", "http/1.1"]))
      ensures Build(c).Some? ==> exists chain, key :: Holds(c, chain, key)
    {
      if Build(c).Some? {
        var privates := keys(c.private.value).value;
        assert Holds(c, certs(c.cert.value).value, privates[|privates| - 1]);
      }
    }

    /** A certificate chain and a key that rustls accepts together, offering HTTP/2 first. */
    predicate Presentable(config: ServerConfig) {
      && config.identity.Some? && accepts(config.identity.value.0, config.identity.value.1)
      && config.alpn == ["h2", "http/1.1"]
    }

    lemma {:induction false} BuiltFitsTogether(c: Cert)
      requires Build(c).Some?
      ensures c.cert.Some? && c.private.Some? && keys(c.private.value).Some?
      ensures var config := Build(c).value;
              && Presentable(config) && certs(c.cert.value) == Some(config.identity.value.0)
              && exists earlier :: keys(c.private.value).value == earlier + [config.identity.value.1]
    {
      var privates := keys(c.private.value).value;
      assert privates == privates[..|privates| - 1] + [privates[|privates| - 1]];
    }
  }

  datatype Cache = Cache(cert: Option<Cert>, config: ServerConfig)

  const COLD := Cache(None, BARE)

  /** The answer of the facade to `first_cert`. */
  datatype Fetch = Unreachable | Absent | Found(cert: Cert)

  /** Whether the fetched certificate differs from the cached one. */
  predicate Differs(cache: Cache, c: Cert) {
    cache.cert == None || !SameCert(c, cache.cert.value)
  }

  /** The cached pair a load leaves behind; its `config` is what the load returns. */
  function Loaded(r: Rustls, cache: Cache, f: Fetch): Cache {
    if f.Found? && Differs(cache, f.cert) && r.Build(f.cert).Some?
    then Cache(Some(f.cert), r.Build(f.cert).value)
    else cache
  }

  /** The pair behind the lock. */
  class TlsCache {
    var cert: Option<Cert>
    var config: ServerConfig

    function Contents(): Cache
      reads this
    {
      Cache(cert, config)
    }

    constructor ()
      ensures Contents() == COLD
    {
      cert, config := None, BARE;
    }

    method LoadCert(r: Rustls, f: Fetch) returns (acceptor: ServerConfig)
      modifies this
      ensures Contents() == Loaded(r, old(Contents()), f)
      ensures acceptor == config
    {
      if f.Found? && (cert == None || !SameCert(f.cert, cert.value)) {
        var built := r.Build(f.cert);
        if built == None { return config; }
        cert, config := Some(f.cert), built.value;
        return built.value;
      }
      return config;
    }
  }

  // ----- sequential loads -----------------------------------------------------------------

  /** The pair belongs together: nothing cached yet, or a certificate and what it builds. */
  ghost predicate Coherent(r: Rustls, cache: Cache) {
    match cache.cert
    case None => cache == COLD
    case Some(c) => r.Build(c) == Some(cache.config)
  }

  /** Loads one after the other. */
  function LoadAll(r: Rustls, fs: seq<Fetch>): Cache
    decreases |fs|
  {
    if fs == [] then COLD else Loaded(r, LoadAll(r, fs[..|fs| - 1]), fs[|fs| - 1])
  }

  /** The loader without a cache: the last certificate that built, else the bare configuration. */
  function Uncached(r: Rustls, fs: seq<Fetch>): ServerConfig
    decreases |fs|
  {
    if fs == [] then BARE
    else
      var last := fs[|fs| - 1];
      if last.Found? && r.Build(last.cert).Some? then r.Build(last.cert).value else Uncached(r, fs[..|fs| - 1])
  }

  /** Caching changes no answer, for every sequence of fetch outcomes. */
  lemma {:induction false} CacheRefinesUncached(r: Rustls, fs: seq<Fetch>)
    ensures LoadAll(r, fs).config == Uncached(r, fs)
    ensures Coherent(r, LoadAll(r, fs))
    decreases |fs|
  {
    if fs != [] {
      var before, f := fs[..|fs| - 1], fs[|fs| - 1];
      CacheRefinesUncached(r, before);
      var cache := LoadAll(r, before);
      if f.Found? && !Differs(cache, f.cert) { r.SameCertBuildsSame(f.cert, cache.cert.value); }
    }
  }

  /** What a load leaves behind, for every fetch: the fetched certificate if it holds a chain and a key,
      up to the lease fields and with exactly these, and otherwise the pair as it was. */
  lemma {:induction false} LoadedExactly(r: Rustls, cache: Cache, f: Fetch, chain: seq<string>, key: string)
    requires Coherent(r, cache)
    ensures f.Found? && r.Holds(f.cert, chain, key) ==>
              && Loaded(r, cache, f).config == ServerConfig(Some((chain, key)), ["h2", "http/1.1"])
              && Loaded(r, cache, f).cert.Some?
              && Loaded(r, cache, f).cert.value.id == f.cert.id
              && Loaded(r, cache, f).cert.value.cert == f.cert.cert
              && Loaded(r, cache, f).cert.value.private == f.cert.private
    ensures !f.Found? || (forall chain, key :: !r.Holds(f.cert, chain, key)) ==> Loaded(r, cache, f) == cache
  {
    if f.Found? {
      r.BuildsExactly(f.cert, chain, key);
      if !Differs(cache, f.cert) { r.SameCertBuildsSame(f.cert, cache.cert.value); }
    }
  }

  /** A second load of a certificate that is the same for the cache leaves the pair alone. */
  lemma {:induction false} ReloadIsIdle(r: Rustls, cache: Cache, a: Cert, b: Cert)
    requires SameCert(a, b)
    ensures Loaded(r, Loaded(r, cache, Found(a)), Found(b)) == Loaded(r, cache, Found(a))
  {
  }

  // ----- interleaved loads ------------------------------------------------------------------

  /** The points at which a load can be preempted, after its fetch. */
  datatype Phase =
    | Comparing
    | Building
    | Writing(built: ServerConfig)
    | FallingBack
    | Done(config: ServerConfig)

  datatype Load = Load(fetched: Fetch, phase: Phase)

  /** `stored` is the facade's current first certificate; `seen` records what fetches returned. */
  datatype World = World(stored: Option<Cert>, cache: Cache, loads: map<nat, Load>, seen: set<Cert>)

  datatype Event =
    | Change(stored: Option<Cert>)
    | Begin(id: nat, reachable: bool)
    | Compare(id: nat)
    | Build(id: nat)
    | Write(id: nat)
    | FallBack(id: nat)

  ghost predicate Enabled(w: World, e: Event) {
    match e
    case Change(_) => true
    case Begin(id, _) => id !in w.loads
    case Compare(id) => id in w.loads && w.loads[id].phase == Comparing
    case Build(id) => id in w.loads && w.loads[id].phase == Building && w.loads[id].fetched.Found?
    case Write(id) => id in w.loads && w.loads[id].phase.Writing? && w.loads[id].fetched.Found?
    case FallBack(id) => id in w.loads && w.loads[id].phase == FallingBack
  }

  function Fetched(w: World, reachable: bool): Fetch {
    if !reachable then Unreachable else match w.stored case None => Absent case Some(c) => Found(c)
  }

  /** Comparison and reuse share one read lock, so they are one step; building holds no lock. */
  function Advance(r: Rustls, cache: Cache, l: Load): Phase {
    match l.phase
    case Comparing => if l.fetched.Found? && Differs(cache, l.fetched.cert) then Building else Done(cache.config)
    case Building =>
      if l.fetched.Found? && r.Build(l.fetched.cert).Some? then Writing(r.Build(l.fetched.cert).value) else FallingBack
    case Writing(built) => Done(built)
    case FallingBack => Done(cache.config)
    case Done(config) => Done(config)
  }

  ghost function Apply(r: Rustls, w: World, e: Event): World
    requires Enabled(w, e)
  {
    match e
    case Change(stored) => w.(stored := stored)
    case Begin(id, reachable) =>
      var f := Fetched(w, reachable);
      w.(loads := w.loads[id := Load(f, Comparing)], seen := w.seen + if f.Found? then {f.cert} else {})
    case Write(id) =>
      var l := w.loads[id];
      w.(cache := Cache(Some(l.fetched.cert), l.phase.built),
         loads := w.loads[id := l.(phase := Advance(r, w.cache, l))])
    case _ => w.(loads := w.loads[e.id := w.loads[e.id].(phase := Advance(r, w.cache, w.loads[e.id]))])
  }

  ghost predicate Possible(r: Rustls, w: World, es: seq<Event>)
    decreases |es|, 0
  {
    es == [] || (Possible(r, w, es[..|es| - 1]) && Enabled(Run(r, w, es[..|es| - 1]), es[|es| - 1]))
  }

  ghost function Run(r: Rustls, w: World, es: seq<Event>): World
    requires Possible(r, w, es)
    decreases |es|, 1
  {
    if es == [] then w else Apply(r, Run(r, w, es[..|es| - 1]), es[|es| - 1])
  }

  lemma {:induction false} Snoc(r: Rustls, w: World, es: seq<Event>, e: Event)
    requires Possible(r, w, es) && Enabled(Run(r, w, es), e)
    ensures Possible(r, w, es + [e]) && Run(r, w, es + [e]) == Apply(r, Run(r, w, es), e)
  {
  }

  /** The steps of one load that nobody interrupts. */
  function LoadSteps(r: Rustls, w: World, id: nat, reachable: bool): seq<Event> {
    var f := Fetched(w, reachable);
    [Begin(id, reachable)] + [Compare(id)]
    + if !(f.Found? && Differs(w.cache, f.cert)) then []
      else [Build(id)] + [if r.Build(f.cert).Some? then Write(id) else FallBack(id)]
  }

  /** A load whose steps are not interrupted is the sequential load. */
  lemma {:induction false} UndisturbedLoad(r: Rustls, w: World, id: nat, reachable: bool)
    requires id !in w.loads
    ensures Possible(r, w, LoadSteps(r, w, id, reachable))
    ensures var w' := Run(r, w, LoadSteps(r, w, id, reachable));
            && w'.cache == Loaded(r, w.cache, Fetched(w, reachable))
            && id in w'.loads && w'.loads[id] == Load(Fetched(w, reachable), Done(w'.cache.config))
            && (reachable && w.stored.Some? ==> w'.loads[id].fetched == Found(w.stored.value))
            && (!reachable || w.stored == None ==> w'.cache == w.cache)
  {
    var f := Fetched(w, reachable);
    var e1, e2 := [Begin(id, reachable)], [Begin(id, reachable)] + [Compare(id)];
    assert Possible(r, w, []) && [] + [Begin(id, reachable)] == e1;
    Snoc(r, w, [], Begin(id, reachable));
    Snoc(r, w, e1, Compare(id));
    if f.Found? && Differs(w.cache, f.cert) {
      var last := if r.Build(f.cert).Some? then Write(id) else FallBack(id);
      Snoc(r, w, e2, Build(id));
      Snoc(r, w, e2 + [Build(id)], last);
      assert e2 + [Build(id)] + [last] == LoadSteps(r, w, id, reachable);
    } else {
      assert e2 == LoadSteps(r, w, id, reachable);
    }
  }

  /** A configuration the server may present: none, or that of a certificate the facade returned. */
  ghost predicate Known(r: Rustls, seen: set<Cert>, config: ServerConfig) {
    config == BARE || exists c :: c in seen && r.Build(c) == Some(config)
  }

  ghost predicate LoadOk(r: Rustls, seen: set<Cert>, l: Load) {
    && (l.fetched.Found? ==> l.fetched.cert in seen)
    && match l.phase
       case Comparing => true
       case Building => l.fetched.Found?
       case Writing(built) => l.fetched.Found? && r.Build(l.fetched.cert) == Some(built)
       case FallingBack => l.fetched.Found? && r.Build(l.fetched.cert) == None
       case Done(config) =>
         && Known(r, seen, config)
         && (l.fetched.Found? && r.Build(l.fetched.cert).Some? ==> r.Build(l.fetched.cert) == Some(config))
  }

  ghost predicate Inv(r: Rustls, w: World) {
    && Coherent(r, w.cache)
    && (w.cache.cert.Some? ==> w.cache.cert.value in w.seen)
    && forall id :: id in w.loads ==> LoadOk(r, w.seen, w.loads[id])
  }

  ghost predicate Init(w: World) {
    w.cache == COLD && w.loads == map[] && w.seen == {}
  }

  lemma {:induction false} StepKeepsInv(r: Rustls, w: World, e: Event)
    requires Inv(r, w) && Enabled(w, e)
    ensures Inv(r, Apply(r, w, e))
  {
  }

  lemma {:induction false} RunKeepsInv(r: Rustls, w: World, es: seq<Event>)
    requires Inv(r, w) && Possible(r, w, es)
    ensures Inv(r, Run(r, w, es))
    decreases |es|
  {
    if es != [] {
      RunKeepsInv(r, w, es[..|es| - 1]);
      StepKeepsInv(r, Run(r, w, es[..|es| - 1]), es[|es| - 1]);
    }
  }

  /** Whatever other loads do meanwhile, a load that fetched a certificate that builds returns
      exactly that build; any load returns the bare configuration or the build of a certificate
      the facade returned, with a chain and key that fit together; and the shared pair always
      belongs together. */
  lemma {:induction false} CacheTransparency(r: Rustls, w: World, es: seq<Event>, id: nat)
    requires Init(w) && Possible(r, w, es)
    ensures Coherent(r, Run(r, w, es).cache)
    ensures id in Run(r, w, es).loads && Run(r, w, es).loads[id].phase.Done? ==>
              var l := Run(r, w, es).loads[id];
              && (l.fetched.Found? && r.Build(l.fetched.cert).Some? ==> Some(l.phase.config) == r.Build(l.fetched.cert))
              && Known(r, Run(r, w, es).seen, l.phase.config)
              && (l.phase.config == ServerConfig(None, []) || r.Presentable(l.phase.config))
              && forall chain, key :: l.fetched.Found? && r.Holds(l.fetched.cert, chain, key) ==>
                   l.phase.config == ServerConfig(Some((chain, key)), ["h2", "http/1.1"])
  {
    RunKeepsInv(r, w, es);
    var w' := Run(r, w, es);
    if id in w'.loads && w'.loads[id].phase.Done? {
      var l := w'.loads[id];
      KnownIsPresentable(r, w'.seen, l.phase.config);
      forall chain, key | l.fetched.Found? && r.Holds(l.fetched.cert, chain, key)
        ensures l.phase.config == ServerConfig(Some((chain, key)), ["h2", "http/1.1"])
      {
        r.BuildsExactly(l.fetched.cert, chain, key);
      }
    }
  }

  lemma {:induction false} KnownIsPresentable(r: Rustls, seen: set<Cert>, config: ServerConfig)
    requires Known(r, seen, config)
    ensures config == BARE || r.Presentable(config)
  {
    if config != BARE {
      var c :| c in seen && r.Build(c) == Some(config);
      r.BuiltFitsTogether(c);
    }
  }

  // ----- convergence ------------------------------------------------------------------------

  /** The load may still write a certificate other than c. */
  predicate IsStale(l: Load, c: Cert) {
    !l.phase.Done? && l.fetched.Found? && !SameCert(l.fetched.cert, c)
  }

  ghost function StaleLoads(w: World, c: Cert): set<nat> {
    set id | id in w.loads && IsStale(w.loads[id], c)
  }

  ghost predicate Converged(w: World, c: Cert) {
    w.cache.cert.Some? && SameCert(w.cache.cert.value, c)
  }

  /** The facade keeps returning c, up to the lease fields, all through the run. */
  ghost predicate Settled(r: Rustls, w: World, es: seq<Event>, c: Cert) {
    && w.stored.Some? && SameCert(w.stored.value, c)
    && forall i :: 0 <= i < |es| && es[i].Change? ==> es[i].stored.Some? && SameCert(es[i].stored.value, c)
  }

  lemma {:induction false} StepMakesNoLoadStale(r: Rustls, w: World, e: Event, c: Cert)
    requires Enabled(w, e) && Settled(r, w, [e], c)
    ensures StaleLoads(Apply(r, w, e), c) <= StaleLoads(w, c)
    ensures Settled(r, Apply(r, w, e), [], c)
    ensures w.loads.Keys <= Apply(r, w, e).loads.Keys
  {
    assert [e][0] == e;
    var w' := Apply(r, w, e);
    forall id | id in w'.loads && IsStale(w'.loads[id], c) ensures id in w.loads && IsStale(w.loads[id], c) {
    }
  }

  /** Once the stored certificate has settled, no run makes another load stale. */
  lemma {:induction false} StaleLoadsNeverRise(r: Rustls, w: World, es: seq<Event>, c: Cert)
    requires Possible(r, w, es) && Settled(r, w, es, c)
    ensures StaleLoads(Run(r, w, es), c) <= StaleLoads(w, c)
    ensures |StaleLoads(Run(r, w, es), c)| <= |StaleLoads(w, c)|
    ensures Settled(r, Run(r, w, es), [], c)
    ensures w.loads.Keys <= Run(r, w, es).loads.Keys
    decreases |es|
  {
    if es != [] {
      var before, e := es[..|es| - 1], es[|es| - 1];
      StaleLoadsNeverRise(r, w, before, c);
      var v := Run(r, w, before);
      assert Settled(r, v, [e], c);
      StepMakesNoLoadStale(r, v, e, c);
    }
    SubsetSize(StaleLoads(Run(r, w, es), c), StaleLoads(w, c));
  }

  lemma {:induction false} SubsetSize(a: set<nat>, b: set<nat>)
    requires a <= b
    ensures |a| <= |b|
  {
    if a != {} {
      var x :| x in a;
      SubsetSize(a - {x}, b - {x});
    }
  }

  /** Without stale loads a step leaves a converged cache converged. */
  lemma {:induction false} StepStaysConverged(r: Rustls, w: World, e: Event, c: Cert)
    requires Inv(r, w) && Enabled(w, e) && StaleLoads(w, c) == {} && Converged(w, c)
    ensures Converged(Apply(r, w, e), c)
  {
    if e.Write? { assert e.id !in StaleLoads(w, c); }
  }

  /** Without stale loads the step that completes a load with a certificate makes the cache converge. */
  lemma {:induction false} CompletionConverges(r: Rustls, w: World, e: Event, c: Cert)
    requires Inv(r, w) && Enabled(w, e) && !e.Change? && !e.Begin?
    requires r.Build(c).Some? && StaleLoads(w, c) == {}
    requires w.loads[e.id].fetched.Found? && Apply(r, w, e).loads[e.id].phase.Done?
    ensures Converged(Apply(r, w, e), c)
  {
    assert e.id !in StaleLoads(w, c);
    r.SameCertBuildsSame(w.loads[e.id].fetched.cert, c);
  }

  /** With no stale load left, the cache never leaves c again, and every load that fetched
      a certificate and completed after the drain has made the cache hold c. */
  lemma {:induction false} CacheConverges(r: Rustls, w: World, es: seq<Event>, c: Cert, id: nat)
    requires Inv(r, w) && Possible(r, w, es) && Settled(r, w, es, c)
    requires r.Build(c).Some? && StaleLoads(w, c) == {}
    ensures Converged(w, c) ==> Converged(Run(r, w, es), c)
    ensures id in Run(r, w, es).loads && Run(r, w, es).loads[id].phase.Done?
            && Run(r, w, es).loads[id].fetched.Found? && (id in w.loads ==> !w.loads[id].phase.Done?) ==>
              Converged(Run(r, w, es), c)
    decreases |es|
  {
    if es != [] {
      var before, e := es[..|es| - 1], es[|es| - 1];
      CacheConverges(r, w, before, c, id);
      RunKeepsInv(r, w, before);
      StaleLoadsNeverRise(r, w, before, c);
      var v := Run(r, w, before);
      if Converged(v, c) {
        StepStaysConverged(r, v, e, c);
      } else if !e.Change? && !e.Begin? && e.id == id && v.loads[id].fetched.Found? && Apply(r, v, e).loads[id].phase.Done? {
        CompletionConverges(r, v, e, c);
      }
    }
  }

  /** The whole story: past runs are arbitrary; the facade settles on a c that builds; the loads
      with another certificate drain; a load then completes. From there on the cache holds c, and the
      chain and key of c are what it serves. */
  lemma {:induction false} CacheConvergence(
      r: Rustls, w0: World, past: seq<Event>, es: seq<Event>, later: seq<Event>, c: Cert, id: nat,
      chain: seq<string>, key: string)
    requires Init(w0) && Possible(r, w0, past)
    requires var w := Run(r, w0, past);
             && Possible(r, w, es) && Settled(r, w, es, c) && r.Holds(c, chain, key) && StaleLoads(w, c) == {}
             && (id in w.loads ==> !w.loads[id].phase.Done?)
             && id in Run(r, w, es).loads && Run(r, w, es).loads[id].phase.Done?
             && Run(r, w, es).loads[id].fetched.Found?
             && Possible(r, Run(r, w, es), later) && Settled(r, Run(r, w, es), later, c)
    ensures var cache := Run(r, Run(r, Run(r, w0, past), es), later).cache;
            && cache.cert.Some? && cache.cert.value.id == c.id
            && cache.cert.value.cert == c.cert && cache.cert.value.private == c.private
            && cache.config == ServerConfig(Some((chain, key)), ["h2", "http/1.1"])
  {
    var w := Run(r, w0, past);
    r.BuildsExactly(c, chain, key);
    RunKeepsInv(r, w0, past);
    RunKeepsInv(r, w, es);
    StaleLoadsNeverRise(r, w, es, c);
    CacheConverges(r, w, es, c, id);
    CacheConverges(r, Run(r, w, es), later, c, id);
    var end := Run(r, Run(r, w, es), later);
    RunKeepsInv(r, Run(r, w, es), later);
    r.SameCertBuildsSame(end.cache.cert.value, c);
  }
}
