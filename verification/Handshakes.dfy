/** Renewal and TLS together: handshakes load the certificate of the store the workers renew. */
module Handshakes {
  import opened Util
  import opened Facade
  import L = Lease
  import F = Fencing
  import T = Tls

  /** One step of the renewal workers, or one whole handshake load. */
  datatype Step = Renewal(e: L.Event) | Handshake

  datatype Server = Server(world: L.World, cache: T.Cache)

  /** The in-memory facade answers every fetch. */
  ghost function FetchFrom(s: Store): T.Fetch {
    match L.First(s) case None => T.Absent case Some(c) => T.Found(c)
  }

  ghost predicate Possible(r: T.Rustls, v: Server, steps: seq<Step>)
    decreases |steps|, 0
  {
    steps == [] ||
    (var before, last := steps[..|steps| - 1], steps[|steps| - 1];
     Possible(r, v, before) && (last.Renewal? ==> L.Enabled(Run(r, v, before).world, last.e)))
  }

  ghost function Run(r: T.Rustls, v: Server, steps: seq<Step>): Server
    requires Possible(r, v, steps)
    decreases |steps|, 1
  {
    if steps == [] then v
    else
      var v' := Run(r, v, steps[..|steps| - 1]);
      match steps[|steps| - 1]
      case Renewal(e) => v'.(world := L.Apply(v'.world, e))
      case Handshake => v'.(cache := T.Loaded(r, v'.cache, FetchFrom(v'.world.store)))
  }

  /** No stop among the steps wrote. */
  ghost predicate NoStopWrites(r: T.Rustls, v: Server, steps: seq<Step>)
    requires Possible(r, v, steps)
    decreases |steps|
  {
    steps == [] ||
    (var before, last := steps[..|steps| - 1], steps[|steps| - 1];
     NoStopWrites(r, v, before) &&
     (last.Renewal? && last.e.Stop? ==> L.StopOf(Run(r, v, before).world, last.e.g) != Stopped))
  }

  /** What the store shows the cache has not moved: the same certificate for the cache,
      or none that could be built in the first place. */
  ghost predicate SameForTls(s: Store, s': Store) {
    match (L.First(s), L.First(s'))
    case (Some(c), Some(c')) => SameCert(c, c')
    case (None, Some(c')) => c'.cert == None && c'.private == None
    case (_, None) => L.First(s) == None
  }

  lemma {:induction false} RenewalStepIsSameForTls(w: L.World, e: L.Event)
    requires L.Copies(w) && L.Enabled(w, e) && (e.Stop? ==> L.StopOf(w, e.g) != Stopped)
    ensures SameForTls(w.store, L.Apply(w, e).store)
  {
  }

  lemma {:induction false} SameForTlsIsIdle(r: T.Rustls, cache: T.Cache, s: Store, s': Store)
    requires SameForTls(s, s')
    ensures var first := T.Loaded(r, cache, FetchFrom(s)); T.Loaded(r, first, FetchFrom(s')) == first
  {
    if L.First(s).Some? && L.First(s').Some? { T.ReloadIsIdle(r, cache, L.First(s).value, L.First(s').value); }
  }

  lemma {:induction false} QuietRun(r: T.Rustls, v: Server, steps: seq<Step>)
    requires L.Copies(v.world) && Possible(r, v, steps) && NoStopWrites(r, v, steps)
    requires v.cache == T.Loaded(r, v.cache, FetchFrom(v.world.store))
    ensures L.Copies(Run(r, v, steps).world)
    ensures SameForTls(v.world.store, Run(r, v, steps).world.store)
    ensures Run(r, v, steps).cache == v.cache
    decreases |steps|
  {
    if steps != [] {
      var before := steps[..|steps| - 1];
      QuietRun(r, v, before);
      var v' := Run(r, v, before);
      match steps[|steps| - 1] {
        case Renewal(e) =>
          L.StepKeepsCopies(v'.world, e);
          RenewalStepIsSameForTls(v'.world, e);
        case Handshake => SameForTlsIsIdle(r, v.cache, v.world.store, v'.world.store);
      }
    }
  }

  /** After one handshake, grants, takeovers, creation, stale stops, publications and crashes never
      change the cached pair: as long as no stop writes, every handshake gets the same configuration. */
  lemma {:induction false} LeasesDoNotDisturbTls(r: T.Rustls, v: Server, steps: seq<Step>)
    requires F.Attainable(v.world)
    requires var loaded := v.(cache := T.Loaded(r, v.cache, FetchFrom(v.world.store)));
             Possible(r, loaded, steps) && NoStopWrites(r, loaded, steps)
    ensures var loaded := v.(cache := T.Loaded(r, v.cache, FetchFrom(v.world.store)));
            Run(r, loaded, steps).cache == loaded.cache
  {
    F.AttainableCopies(v.world);
    var loaded := v.(cache := T.Loaded(r, v.cache, FetchFrom(v.world.store)));
    SameForTlsIsIdle(r, v.cache, v.world.store, v.world.store);
    QuietRun(r, loaded, steps);
  }

  /** The latest grant's stop reaches the next handshake: it presents the chain and key of the grant's pair. */
  lemma {:induction false} StopReachesHandshake(r: T.Rustls, v: Server, g: nat, chain: seq<string>, key: string)
    requires F.Reachable(v.world) && L.Enabled(v.world, L.Stop(g)) && g == v.world.granted
    requires T.Coherent(r, v.cache) && r.Holds(v.world.workers[g].cert, chain, key)
    ensures var s := L.Apply(v.world, L.Stop(g)).store;
            T.Loaded(r, v.cache, FetchFrom(s)).config == T.ServerConfig(Some((chain, key)), ["h2", "http/1.1"])
  {
    F.ReachableInv(v.world);
    F.StopVerdict(v.world, g);
    var s := L.Apply(v.world, L.Stop(g)).store;
    var c := v.world.workers[g].cert;
    L.StepKeepsCopies(v.world, L.Stop(g));
    L.FirstIsTheRow(s, c.id);
    r.BuildsExactly(c, chain, key);
    r.SameCertBuildsSame(c, L.First(s).value);
    if v.cache.cert.Some? && SameCert(c, v.cache.cert.value) { r.SameCertBuildsSame(c, v.cache.cert.value); }
  }
}
