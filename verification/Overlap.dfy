/** Renewal workers and overlapping handshake loads over one store: what the facade returns to a
    fetch is the row the workers renew, and loads interleave with every step of every worker. */
module Overlap {
  import opened Util
  import opened Facade
  import L = Lease
  import F = Fencing
  import T = Tls
  import H = Handshakes

  datatype Step = Renewal(e: L.Event) | Loading(action: T.Event)

  datatype Server = Server(world: L.World, tls: T.World)

  const START := Server(L.EMPTY, T.World(None, T.COLD, map[], {}))

  ghost predicate Enabled(v: Server, step: Step) {
    match step
    case Renewal(e) => L.Enabled(v.world, e)
    case Loading(e) => !e.Change? && T.Enabled(v.tls, e)
  }

  /** A renewal changes what fetches see to the row it leaves behind. */
  ghost function Apply(r: T.Rustls, v: Server, step: Step): Server
    requires Enabled(v, step)
  {
    match step
    case Renewal(e) =>
      var world := L.Apply(v.world, e);
      Server(world, T.Apply(r, v.tls, T.Change(L.First(world.store))))
    case Loading(e) => v.(tls := T.Apply(r, v.tls, e))
  }

  ghost predicate Possible(r: T.Rustls, v: Server, steps: seq<Step>)
    decreases |steps|, 0
  {
    steps == [] || (Possible(r, v, steps[..|steps| - 1]) && Enabled(Run(r, v, steps[..|steps| - 1]), steps[|steps| - 1]))
  }

  ghost function Run(r: T.Rustls, v: Server, steps: seq<Step>): Server
    requires Possible(r, v, steps)
    decreases |steps|, 1
  {
    if steps == [] then v else Apply(r, Run(r, v, steps[..|steps| - 1]), steps[|steps| - 1])
  }

  /** No clock reading among the steps makes `now - 3600` wrap. */
  ghost predicate AllSafe(steps: seq<Step>) {
    forall i :: 0 <= i < |steps| && steps[i].Renewal? ==> L.Safe(steps[i].e)
  }

  /** No stop among the steps wrote. */
  ghost predicate NoStopWrites(r: T.Rustls, v: Server, steps: seq<Step>)
    requires Possible(r, v, steps)
    decreases |steps|
  {
    steps == [] ||
    (var before, last := steps[..|steps| - 1], steps[|steps| - 1];
     NoStopWrites(r, v, before) &&
     (last.Renewal? && last.e.Stop? ==> L.StopOf(Run(r, v, before).world, last.e.g) != Stopped))
  }

  /** Fetches see the row; both sides keep their own invariants. */
  ghost predicate Joined(r: T.Rustls, v: Server) {
    v.tls.stored == L.First(v.world.store) && L.Copies(v.world) && T.Inv(r, v.tls)
  }

  lemma {:induction false} StepKeepsJoined(r: T.Rustls, v: Server, step: Step)
    requires Joined(r, v) && Enabled(v, step)
    ensures Joined(r, Apply(r, v, step))
  {
    match step
    case Renewal(e) =>
      L.StepKeepsCopies(v.world, e);
      T.StepKeepsInv(r, v.tls, T.Change(L.First(L.Apply(v.world, e).store)));
    case Loading(e) => T.StepKeepsInv(r, v.tls, e);
  }

  lemma {:induction false} RunKeepsJoined(r: T.Rustls, v: Server, steps: seq<Step>)
    requires Joined(r, v) && Possible(r, v, steps)
    ensures Joined(r, Run(r, v, steps))
    decreases |steps|
  {
    if steps != [] {
      RunKeepsJoined(r, v, steps[..|steps| - 1]);
      StepKeepsJoined(r, Run(r, v, steps[..|steps| - 1]), steps[|steps| - 1]);
    }
  }

  lemma {:induction false} SafeRunKeepsFence(r: T.Rustls, v: Server, steps: seq<Step>)
    requires L.Inv(v.world) && Possible(r, v, steps) && AllSafe(steps)
    ensures L.Inv(Run(r, v, steps).world)
    decreases |steps|
  {
    if steps != [] {
      var before, last := steps[..|steps| - 1], steps[|steps| - 1];
      SafeRunKeepsFence(r, v, before);
      if last.Renewal? { L.StepKeepsInv(Run(r, v, before).world, last.e); }
    }
  }

  /** The steps as the TLS side sees them. */
  ghost function Seen(r: T.Rustls, v: Server, steps: seq<Step>): seq<T.Event>
    requires Possible(r, v, steps)
    decreases |steps|
  {
    if steps == [] then []
    else
      var before, last := steps[..|steps| - 1], steps[|steps| - 1];
      Seen(r, v, before) +
      [match last case Renewal(_) => T.Change(L.First(Run(r, v, steps).world.store)) case Loading(e) => e]
  }

  lemma {:induction false} SeenIsARun(r: T.Rustls, v: Server, steps: seq<Step>)
    requires Possible(r, v, steps)
    ensures T.Possible(r, v.tls, Seen(r, v, steps))
    ensures T.Run(r, v.tls, Seen(r, v, steps)) == Run(r, v, steps).tls
    decreases |steps|
  {
    if steps != [] {
      var before := steps[..|steps| - 1];
      SeenIsARun(r, v, before);
      var seen := Seen(r, v, steps);
      T.Snoc(r, v.tls, Seen(r, v, before), seen[|seen| - 1]);
    }
  }

  /** The row is c, up to the lease fields. */
  ghost predicate RowIs(v: Server, c: Cert) {
    L.First(v.world.store).Some? && SameCert(L.First(v.world.store).value, c)
  }

  /** Without a stop that writes, whatever the workers do, the TLS side sees a settled certificate. */
  lemma {:induction false} QuietStepsSettle(r: T.Rustls, v: Server, steps: seq<Step>, c: Cert)
    requires Joined(r, v) && RowIs(v, c) && Possible(r, v, steps) && NoStopWrites(r, v, steps)
    ensures RowIs(Run(r, v, steps), c) && T.Settled(r, v.tls, Seen(r, v, steps), c)
    decreases |steps|
  {
    if steps != [] {
      var before, last := steps[..|steps| - 1], steps[|steps| - 1];
      QuietStepsSettle(r, v, before, c);
      RunKeepsJoined(r, v, before);
      if last.Renewal? { H.RenewalStepIsSameForTls(Run(r, v, before).world, last.e); }
    }
  }

  lemma {:induction false} QuietStepsConverge(r: T.Rustls, v: Server, steps: seq<Step>, c: Cert, id: nat)
    requires Joined(r, v) && RowIs(v, c) && Possible(r, v, steps) && NoStopWrites(r, v, steps)
    requires r.Build(c).Some? && T.StaleLoads(v.tls, c) == {}
    ensures var v' := Run(r, v, steps);
            && Joined(r, v') && RowIs(v', c) && T.StaleLoads(v'.tls, c) == {}
            && (T.Converged(v.tls, c) || CompletedSince(v, v', id) ==> T.Converged(v'.tls, c))
  {
    SeenIsARun(r, v, steps);
    QuietStepsSettle(r, v, steps, c);
    RunKeepsJoined(r, v, steps);
    T.StaleLoadsNeverRise(r, v.tls, Seen(r, v, steps), c);
    T.CacheConverges(r, v.tls, Seen(r, v, steps), c, id);
  }

  /** The load has fetched a certificate and completed between the two moments. */
  ghost predicate CompletedSince(v: Server, v': Server, id: nat) {
    && id in v'.tls.loads && v'.tls.loads[id].phase.Done? && v'.tls.loads[id].fetched.Found?
    && (id in v.tls.loads ==> !v.tls.loads[id].phase.Done?)
  }

  /** After any past, the latest grant stops with a pair that builds. If no other stop writes and the
      loads still carrying another certificate drain, then one completed load, however it overlaps with
      others, makes the cache serve the chain and key of that grant's pair, for the rest of the run. */
  lemma {:induction false} RenewalReachesCache(
      r: T.Rustls, past: seq<Step>, g: nat, drain: seq<Step>, load: seq<Step>, id: nat, rest: seq<Step>,
      chain: seq<string>, key: string)
    requires Possible(r, START, past) && AllSafe(past)
    requires var v := Run(r, START, past);
             && L.Enabled(v.world, L.Stop(g)) && g == v.world.granted && r.Holds(v.world.workers[g].cert, chain, key)
    requires var v := Run(r, START, past);
             var stopped := Apply(r, v, Renewal(L.Stop(g)));
             && Possible(r, stopped, drain) && NoStopWrites(r, stopped, drain)
             && var drained := Run(r, stopped, drain);
                && T.StaleLoads(drained.tls, v.world.workers[g].cert) == {}
                && Possible(r, drained, load) && NoStopWrites(r, drained, load)
                && var loaded := Run(r, drained, load);
                   && CompletedSince(drained, loaded, id)
                   && Possible(r, loaded, rest) && NoStopWrites(r, loaded, rest)
    ensures var v := Run(r, START, past);
            var c := v.world.workers[g].cert;
            var end := Run(r, Run(r, Run(r, Apply(r, v, Renewal(L.Stop(g))), drain), load), rest);
            T.Converged(end.tls, c)
            && end.tls.cache.config == T.ServerConfig(Some((chain, key)), ["h2", "http/1.1"])
  {
    var v := Run(r, START, past);
    var c := v.world.workers[g].cert;
    var stopped := Apply(r, v, Renewal(L.Stop(g)));
    r.BuildsExactly(c, chain, key);
    RunKeepsJoined(r, START, past);
    SafeRunKeepsFence(r, START, past);
    F.FencedStop(v.world, g);
    StepKeepsJoined(r, v, Renewal(L.Stop(g)));
    assert RowIs(stopped, c);
    QuietStepsSettle(r, stopped, drain, c);
    RunKeepsJoined(r, stopped, drain);
    var drained := Run(r, stopped, drain);
    QuietStepsConverge(r, drained, load, c, id);
    var loaded := Run(r, drained, load);
    QuietStepsConverge(r, loaded, rest, c, id);
    var end := Run(r, loaded, rest);
    r.SameCertBuildsSame(end.tls.cache.cert.value, c);
  }
}
