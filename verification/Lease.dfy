/** The renewal lease as a transition system: any number of workers, each the life of
    one `manage` call, over the shared store, with arbitrary clock readings and crashes.
    Grants are numbered in the order `start_cert` hands them out. */
module Lease {
  import opened Util
  import opened Facade

  /** Where a worker is between its start and its stop. Each phase is one call of `manage`. */
  datatype Phase = Leased | Ordering(domain: Domain) | Certified

  /** A running worker and its own copy of the certificate row. */
  datatype Worker = Worker(cert: Cert, phase: Phase)

  /** `granted` counts grants; the worker of grant g sits in `workers` until it stops or dies. */
  datatype World = World(store: Store, granted: nat, workers: map<nat, Worker>)

  datatype Event =
    | Start(now: u64, minted: Option<Domain>, id: string)
    | Find(g: nat)
    | Publish(g: nat, proof: string)
    | Fill(g: nat, crt: string, key: string)
    | Stop(g: nat)
    | Crash(g: nat)
    | Register(domain: Domain)

  const EMPTY := World(Store(map[], map[]), 0, map[])

  /** The row the facade reads. Where there is at most one row it is that row. */
  ghost function First(s: Store): (first: Option<Cert>)
    ensures IsFirst(s, first)
  {
    if s.certs == map[] then None else
      assert s.certs.Keys != {};
      var k :| k in s.certs;
      Some(s.certs[k])
  }

  /** The order of calls inside `manage`, and freshness of generated domain ids. */
  ghost predicate Enabled(w: World, e: Event) {
    match e
    case Start(_, minted, _) => minted.Some? ==> minted.value.id !in w.store.domains && minted.value.txt == None
    case Find(g) => g in w.workers && w.workers[g].phase == Leased
    case Publish(g, _) => g in w.workers && w.workers[g].phase.Ordering?
    case Fill(g, _, _) => g in w.workers && w.workers[g].phase.Ordering?
    case Stop(g) => g in w.workers && w.workers[g].phase == Certified
    case Crash(g) => g in w.workers
    case Register(d) => d.id !in w.store.domains && d.txt == None
  }

  ghost function StartOutcome(w: World, e: Event): StartResult
    requires e.Start?
  {
    Started(w.store, First(w.store), e.now, e.minted, e.id).1
  }

  ghost function StopOf(w: World, g: nat): StopResult
    requires g in w.workers
  {
    StopOutcome(w.store, First(w.store), w.workers[g].cert)
  }

  ghost function Apply(w: World, e: Event): World
    requires Enabled(w, e)
  {
    match e
    case Start(now, minted, id) =>
      var (s, r) := Started(w.store, First(w.store), now, minted, id);
      if r.Granted? then World(s, w.granted + 1, w.workers[w.granted + 1 := Worker(r.cert, Leased)])
      else w.(store := s)
    case Find(g) =>
      var k := w.workers[g];
      // the worker ends with "Could not find domain" when the lookup finds nothing
      if k.cert.domain !in w.store.domains then w.(workers := w.workers - {g})
      else w.(workers := w.workers[g := k.(phase := Ordering(w.store.domains[k.cert.domain]))])
    case Publish(g, proof) =>
      var d := w.workers[g].phase.domain.(txt := Some(proof));
      // the worker dies in `unwrap` when the row is gone
      if d.id !in w.store.domains then w.(workers := w.workers - {g})
      else World(w.store.(domains := w.store.domains[d.id := d]), w.granted,
                 w.workers[g := w.workers[g].(phase := Ordering(d))])
    case Fill(g, crt, key) =>
      w.(workers := w.workers[g := Worker(w.workers[g].cert.(cert := Some(crt), private := Some(key)), Certified)])
    case Stop(g) =>
      World(AfterStop(w.store, First(w.store), w.workers[g].cert), w.granted, w.workers - {g})
    case Crash(g) => w.(workers := w.workers - {g})
    case Register(d) => w.(store := w.store.(domains := w.store.domains[d.id := d]))
  }

  /** A sequence of events that can happen one after the other. */
  ghost predicate Possible(w: World, es: seq<Event>)
    decreases |es|, 0
  {
    es == [] || (Possible(w, es[..|es| - 1]) && Enabled(Run(w, es[..|es| - 1]), es[|es| - 1]))
  }

  ghost function Run(w: World, es: seq<Event>): World
    requires Possible(w, es)
    decreases |es|, 1
  {
    if es == [] then w else Apply(Run(w, es[..|es| - 1]), es[|es| - 1])
  }

  /** Every clock reading lies outside the window in which `now - 3600` wraps. */
  ghost predicate Safe(e: Event) {
    e.Start? ==> !Overflows(e.now)
  }

  ghost predicate AllSafe(es: seq<Event>) {
    forall i :: 0 <= i < |es| ==> Safe(es[i])
  }

  // ----- invariants -----------------------------------------------------------------

  /** At most one row, filed under its id, whose domain exists. */
  ghost predicate StoreOk(s: Store) {
    && (forall k :: k in s.certs ==> s.certs[k].id == k && s.certs[k].domain in s.domains)
    && (forall k, k' :: k in s.certs && k' in s.certs ==> k == k')
    && (forall k :: k in s.domains ==> s.domains[k].id == k)
  }

  /** A worker's domain copy may lag in `txt`, never in the account fields. */
  ghost predicate DomainCopyOk(s: Store, d: Domain) {
    && d.id in s.domains
    && d.username == s.domains[d.id].username
    && d.password == s.domains[d.id].password
  }

  /** A worker's certificate copy names the row and the row's domain. */
  ghost predicate CopyOk(w: World, row: Cert, g: nat, k: Worker) {
    && 1 <= g <= w.granted
    && k.cert.id == row.id && k.cert.domain == row.domain
    && (k.phase.Ordering? ==> k.phase.domain.id == row.domain && DomainCopyOk(w.store, k.phase.domain))
    && (k.phase == Certified ==> k.cert.cert.Some? && k.cert.private.Some?)
  }

  /** What holds whatever the clocks show. */
  ghost predicate Copies(w: World) {
    && StoreOk(w.store)
    && (w.workers != map[] ==> w.store.certs != map[])
    && forall g :: g in w.workers ==> First(w.store).Some? && CopyOk(w, First(w.store).value, g, w.workers[g])
  }

  /** The fence: the latest grant holds the row's stamp while the row is being updated;
      every older grant still alive holds a strictly smaller stamp. */
  ghost predicate StampOk(w: World, row: Cert, g: nat, k: Worker) {
    if g == w.granted then row.state == Updating && k.cert.update == row.update
    else k.cert.update < row.update
  }

  ghost predicate Inv(w: World) {
    && Copies(w)
    && forall g :: g in w.workers ==> StampOk(w, First(w.store).value, g, w.workers[g])
  }

  /** A store whose rows were made before any worker started. */
  ghost predicate Init(w: World) {
    StoreOk(w.store) && w.granted == 0 && w.workers == map[]
  }

  lemma {:induction false} FirstIsTheRow(s: Store, id: string)
    requires StoreOk(s) && id in s.certs
    ensures First(s) == Some(s.certs[id])
  {
  }

  lemma {:induction false} StartKeepsCopies(w: World, e: Event)
    requires Copies(w) && Enabled(w, e) && e.Start?
    ensures Copies(Apply(w, e))
  {
    if StartOutcome(w, e).Granted? { FirstIsTheRow(Apply(w, e).store, StartOutcome(w, e).cert.id); }
  }

  lemma {:induction false} StopKeepsCopies(w: World, g: nat)
    requires Copies(w) && Enabled(w, Stop(g))
    ensures Copies(Apply(w, Stop(g)))
  {
    FirstIsTheRow(w.store, First(w.store).value.id);
    FirstIsTheRow(Apply(w, Stop(g)).store, First(w.store).value.id);
  }

  lemma {:induction false} OtherStepKeepsCopies(w: World, e: Event)
    requires Copies(w) && Enabled(w, e) && !e.Start? && !e.Stop?
    ensures Copies(Apply(w, e)) && Apply(w, e).store.certs == w.store.certs
  {
    if w.store.certs != map[] {
      FirstIsTheRow(w.store, First(w.store).value.id);
      FirstIsTheRow(Apply(w, e).store, First(w.store).value.id);
    }
  }

  lemma {:induction false} StepKeepsCopies(w: World, e: Event)
    requires Copies(w) && Enabled(w, e)
    ensures Copies(Apply(w, e))
  {
    match e
    case Start(_, _, _) => StartKeepsCopies(w, e);
    case Stop(g) => StopKeepsCopies(w, g);
    case _ => OtherStepKeepsCopies(w, e);
  }

  lemma {:induction false} StartKeepsStamps(w: World, e: Event)
    requires Inv(w) && Enabled(w, e) && e.Start? && Safe(e)
    ensures Inv(Apply(w, e))
  {
    StepKeepsCopies(w, e);
    OneHourAgoExact(e.now);
    if StartOutcome(w, e).Granted? { FirstIsTheRow(Apply(w, e).store, StartOutcome(w, e).cert.id); }
  }

  lemma {:induction false} WorkerStepKeepsStamps(w: World, e: Event)
    requires Inv(w) && Enabled(w, e) && !e.Start?
    ensures Inv(Apply(w, e))
  {
    StepKeepsCopies(w, e);
    if w.store.certs != map[] {
      FirstIsTheRow(w.store, First(w.store).value.id);
      FirstIsTheRow(Apply(w, e).store, First(w.store).value.id);
    }
  }

  lemma {:induction false} StepKeepsInv(w: World, e: Event)
    requires Inv(w) && Enabled(w, e) && Safe(e)
    ensures Inv(Apply(w, e))
  {
    if e.Start? { StartKeepsStamps(w, e); } else { WorkerStepKeepsStamps(w, e); }
  }

  lemma {:induction false} RunKeepsCopies(w: World, es: seq<Event>)
    requires Copies(w) && Possible(w, es)
    ensures Copies(Run(w, es))
    decreases |es|
  {
    if es != [] {
      RunKeepsCopies(w, es[..|es| - 1]);
      StepKeepsCopies(Run(w, es[..|es| - 1]), es[|es| - 1]);
    }
  }

  lemma {:induction false} RunKeepsInv(w: World, es: seq<Event>)
    requires Inv(w) && Possible(w, es) && AllSafe(es)
    ensures Inv(Run(w, es))
    decreases |es|
  {
    if es != [] {
      RunKeepsInv(w, es[..|es| - 1]);
      StepKeepsInv(Run(w, es[..|es| - 1]), es[|es| - 1]);
    }
  }
}
