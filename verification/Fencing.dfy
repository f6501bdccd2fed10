/** What the lease guarantees over every run: the fence, its refinement of a lease with a
    fresh epoch per grant, and the exact clock readings under which it holds. */
module Fencing {
  import opened Util
  import opened Facade
  import opened Lease

  /** Worlds some safe run leads to from a store without workers. */
  ghost predicate Reachable(w: World) {
    exists w0, es :: Init(w0) && Possible(w0, es) && AllSafe(es) && w == Run(w0, es)
  }

  /** Worlds any run leads to, whatever its clocks show. */
  ghost predicate Attainable(w: World) {
    exists w0, es :: Init(w0) && Possible(w0, es) && w == Run(w0, es)
  }

  lemma {:induction false} AttainableCopies(w: World)
    requires Attainable(w)
    ensures Copies(w)
  {
    var w0, es :| Init(w0) && Possible(w0, es) && w == Run(w0, es);
    RunKeepsCopies(w0, es);
  }

  lemma {:induction false} ReachableInv(w: World)
    requires Reachable(w)
    ensures Inv(w)
  {
    var w0, es :| Init(w0) && Possible(w0, es) && AllSafe(es) && w == Run(w0, es);
    RunKeepsInv(w0, es);
  }

  /** The last event of a nonempty run, seen as a step of the run before it. */
  lemma {:induction false} Snoc(w: World, es: seq<Event>, e: Event)
    requires Possible(w, es) && Enabled(Run(w, es), e)
    ensures Possible(w, es + [e]) && Run(w, es + [e]) == Apply(Run(w, es), e)
  {
  }

  /** A run followed by a run is the run of both. */
  lemma {:induction false} Concat(w: World, es: seq<Event>, es': seq<Event>)
    requires Possible(w, es) && Possible(Run(w, es), es')
    ensures Possible(w, es + es') && Run(w, es + es') == Run(Run(w, es), es')
    decreases |es'|
  {
    if es' == [] {
      assert es + es' == es;
    } else {
      var before, e := es'[..|es'| - 1], es'[|es'| - 1];
      Concat(w, es, before);
      Snoc(w, es + before, e);
      assert es + before + [e] == es + es';
    }
  }

  // ----- the fence --------------------------------------------------------------------

  lemma {:induction false} FencedStop(w: World, g: nat)
    requires Inv(w) && Enabled(w, Stop(g))
    ensures StopOf(w, g) == if g == w.granted then Stopped else Stale
    ensures g == w.granted ==> First(Apply(w, Stop(g)).store) == Some(w.workers[g].cert.(state := Ok))
  {
    FirstIsTheRow(w.store, First(w.store).value.id);
    StepKeepsCopies(w, Stop(g));
    if g == w.granted { FirstIsTheRow(Apply(w, Stop(g)).store, w.workers[g].cert.id); }
  }

  /** A stop writes exactly when its grant is the latest handed out, and never panics. */
  lemma {:induction false} StopVerdict(w: World, g: nat)
    requires Reachable(w) && Enabled(w, Stop(g))
    ensures StopOf(w, g) == if g == w.granted then Stopped else Stale
    ensures g != w.granted ==> Apply(w, Stop(g)).store == w.store
  {
    ReachableInv(w);
    FencedStop(w, g);
  }

  /** Stamp and state realise a lease whose every grant has a fresh epoch. */
  datatype Fence = Fence(epoch: nat, open: bool, pair: (Option<string>, Option<string>))

  /** The stored certificate and private key. */
  ghost function PairOf(s: Store): (Option<string>, Option<string>) {
    match First(s)
    case None => (None, None)
    case Some(row) => (row.cert, row.private)
  }

  ghost function AbsFence(w: World): Fence {
    Fence(w.granted, First(w.store).Some? && First(w.store).value.state == Updating, PairOf(w.store))
  }

  /** The steps of the epoch lease. `orders` holds what each grant got from its ACME order. */
  ghost predicate FenceNext(f: Fence, e: Event, orders: map<nat, (string, string)>, f': Fence) {
    match e
    case Start(_, _, _) => f' == f || f' == f.(epoch := f.epoch + 1, open := true)
    case Stop(g) =>
      && (g == f.epoch ==> f.open && g in orders
                           && f' == Fence(f.epoch, false, (Some(orders[g].0), Some(orders[g].1))))
      && (g != f.epoch ==> f' == f)
    case _ => f' == f
  }

  /** The key pair each grant received in a run. */
  ghost function Orders(es: seq<Event>): map<nat, (string, string)>
    decreases |es|
  {
    if es == [] then map[] else
      var before := Orders(es[..|es| - 1]);
      match es[|es| - 1]
      case Fill(g, crt, key) => before[g := (crt, key)]
      case _ => before
  }

  lemma {:induction false} CertifiedCarriesItsOrder(w0: World, es: seq<Event>, g: nat)
    requires Init(w0) && Possible(w0, es)
    requires g in Run(w0, es).workers
    ensures var k := Run(w0, es).workers[g];
            k.phase == Certified ==>
              g in Orders(es) && k.cert.cert == Some(Orders(es)[g].0) && k.cert.private == Some(Orders(es)[g].1)
    decreases |es|
  {
    if es != [] {
      var before := es[..|es| - 1];
      if g in Run(w0, before).workers { CertifiedCarriesItsOrder(w0, before, g); }
    }
  }

  /** Every step of every run with safe readings is a step of the epoch lease. */
  lemma {:induction false} RefinesEpochLease(w0: World, es: seq<Event>)
    requires Init(w0) && Possible(w0, es) && AllSafe(es) && es != []
    ensures var before, e := es[..|es| - 1], es[|es| - 1];
            FenceNext(AbsFence(Run(w0, before)), e, Orders(before), AbsFence(Run(w0, es)))
  {
    var before, e := es[..|es| - 1], es[|es| - 1];
    var w := Run(w0, before);
    RunKeepsInv(w0, before);
    match e {
      case Start(_, _, _) => StartStep(w, e);
      case Stop(g) =>
        CertifiedCarriesItsOrder(w0, before, g);
        StopStep(w, g);
      case _ => OtherStep(w, e);
    }
  }

  /** A granted start opens the next epoch and leaves the key pair alone. */
  lemma {:induction false} StartStep(w: World, e: Event)
    requires Inv(w) && Enabled(w, e) && e.Start? && Safe(e)
    ensures var f := AbsFence(w);
            AbsFence(Apply(w, e)) == if StartOutcome(w, e).Granted? then f.(epoch := f.epoch + 1, open := true) else f
  {
    StepKeepsInv(w, e);
    if StartOutcome(w, e).Granted? { FirstIsTheRow(Apply(w, e).store, StartOutcome(w, e).cert.id); }
  }

  lemma {:induction false} StopStep(w: World, g: nat)
    requires Inv(w) && Enabled(w, Stop(g))
    ensures var f := AbsFence(w);
            var k := w.workers[g].cert;
            AbsFence(Apply(w, Stop(g))) == if g == f.epoch then Fence(f.epoch, false, (k.cert, k.private)) else f
    ensures g == AbsFence(w).epoch ==> AbsFence(w).open
  {
  }

  lemma {:induction false} OtherStep(w: World, e: Event)
    requires Inv(w) && Enabled(w, e) && !e.Start? && !e.Stop?
    ensures Apply(w, e).store.certs == w.store.certs && First(Apply(w, e).store) == First(w.store)
    ensures Apply(w, e).granted == w.granted
  {
  }

  /** Only a stop that writes changes the stored pair, to what its worker carries. */
  lemma {:induction false} PairStep(w: World, e: Event)
    requires Copies(w) && Enabled(w, e)
    ensures PairOf(Apply(w, e).store) ==
            if e.Stop? && StopOf(w, e.g) == Stopped then (w.workers[e.g].cert.cert, w.workers[e.g].cert.private)
            else PairOf(w.store)
  {
  }

  /** The grant of the last stop of the run that wrote. */
  ghost function LastWriter(es: seq<Event>): Option<nat>
    requires Possible(EMPTY, es)
    decreases |es|
  {
    if es == [] then None
    else
      var before, e := es[..|es| - 1], es[|es| - 1];
      if e.Stop? && StopOf(Run(EMPTY, before), e.g) == Stopped then Some(e.g) else LastWriter(before)
  }

  /** In every run, whatever its clocks show, the stored pair is exactly what the last grant whose stop
      wrote got from its one order; it is absent iff no stop has written, so a pair is never lost. */
  lemma {:induction false} KeyPairCoherence(es: seq<Event>)
    requires Possible(EMPTY, es)
    ensures match LastWriter(es)
            case None => PairOf(Run(EMPTY, es).store) == (None, None)
            case Some(g) => Stop(g) in es && g in Orders(es)
                            && PairOf(Run(EMPTY, es).store) == (Some(Orders(es)[g].0), Some(Orders(es)[g].1))
    decreases |es|
  {
    if es != [] {
      var before, e := es[..|es| - 1], es[|es| - 1];
      assert es == before + [e];
      var w := Run(EMPTY, before);
      KeyPairCoherence(before);
      RunKeepsCopies(EMPTY, before);
      PairStep(w, e);
      if e.Stop? && StopOf(w, e.g) == Stopped {
        CertifiedCarriesItsOrder(EMPTY, before, e.g);
      } else if LastWriter(before).Some? && e.Fill? {
        FillIsFresh(EMPTY, before, e.g);
      }
    }
  }

  /** A grant that is still ordering has filled nothing and stopped nothing so far. */
  lemma {:induction false} FillIsFresh(w0: World, es: seq<Event>, g: nat)
    requires Init(w0) && Possible(w0, es)
    ensures g in Run(w0, es).workers ==> 1 <= g <= Run(w0, es).granted && Stop(g) !in es
    ensures g in Run(w0, es).workers && Run(w0, es).workers[g].phase != Certified ==> g !in Orders(es)
    ensures g > Run(w0, es).granted ==> g !in Orders(es) && Stop(g) !in es
    decreases |es|
  {
    if es != [] {
      var before, e := es[..|es| - 1], es[|es| - 1];
      assert es == before + [e];
      FillIsFresh(w0, before, g);
      match e
      case Fill(h, _, _) => FillIsFresh(w0, before, h);
      case Stop(h) => FillIsFresh(w0, before, h);
      case _ =>
    }
  }

  // ----- which clock readings the fence needs ------------------------------------------

  ghost predicate ReadingsIn(es: seq<Event>, readings: iset<u64>) {
    forall i :: 0 <= i < |es| && es[i].Start? ==> es[i].now in readings
  }

  /** Every stop in every run from the empty store whose clock only shows `readings`. */
  ghost predicate FencedFor(readings: iset<u64>) {
    forall es, g :: Possible(EMPTY, es) && ReadingsIn(es, readings) && Enabled(Run(EMPTY, es), Stop(g)) ==>
      (StopOf(Run(EMPTY, es), g) == Stopped <==> g == Run(EMPTY, es).granted)
  }

  /** The fence holds for a set of clock readings iff none of them makes `now - 3600` wrap. */
  lemma {:induction false} FencedExactly(readings: iset<u64>)
    ensures FencedFor(readings) <==> forall n :: n in readings ==> !Overflows(n)
  {
    if forall n :: n in readings ==> !Overflows(n) {
      forall es, g | Possible(EMPTY, es) && ReadingsIn(es, readings) && Enabled(Run(EMPTY, es), Stop(g))
        ensures StopOf(Run(EMPTY, es), g) == Stopped <==> g == Run(EMPTY, es).granted
      {
        StopVerdict(Run(EMPTY, es), g);
      }
    } else {
      var n :| n in readings && Overflows(n);
      var es := BrokenRun(n);
      assert !(StopOf(Run(EMPTY, es), 1) == Stopped <==> 1 == Run(EMPTY, es).granted);
    }
  }

  /** Clocks that show less than 2^63 seconds, the range of any platform's system time, are fenced. */
  lemma {:induction false} RealClocksAreFenced(readings: iset<u64>)
    requires forall n :: n in readings ==> n < TWO_TO_63
    ensures FencedFor(readings)
  {
    FencedExactly(readings);
  }

  const D1 := Domain("a", "b", "c", None)
  const D2 := Domain("d", "e", "f", None)

  /** The world after two starts at the same reading, with that reading as the stamp of both. */
  ghost function TwoHolders(n: u64): World {
    var c := NewCert(D1, "id", n);
    World(Store(map["id" := c], map["a" := D1]), 2, map[1 := Worker(c, Leased), 2 := Worker(c, Leased)])
  }

  lemma {:induction false} StartTwice(n: u64) returns (es: seq<Event>)
    requires Overflows(n)
    ensures Possible(EMPTY, es) && ReadingsIn(es, iset{n}) && Run(EMPTY, es) == TwoHolders(n)
  {
    var e, again := Start(n, Some(D1), "id"), Start(n, Some(D2), "id");
    var c := NewCert(D1, "id", n);
    var w1 := World(Store(map["id" := c], map["a" := D1]), 1, map[1 := Worker(c, Leased)]);
    assert Apply(EMPTY, e) == w1;
    Snoc(EMPTY, [], e);
    FirstIsTheRow(w1.store, "id");
    OneHourAgoExact(n);
    assert w1.store.certs["id" := c] == w1.store.certs;
    assert Apply(w1, again) == TwoHolders(n);
    assert [] + [e] == [e];
    Snoc(EMPTY, [e], again);
    es := [e] + [again];
  }

  /** One wrapping reading lets two live grants carry the same stamp: the older one writes. */
  lemma {:induction false} BrokenRun(n: u64) returns (es: seq<Event>)
    requires Overflows(n)
    ensures Possible(EMPTY, es) && ReadingsIn(es, iset{n})
    ensures Enabled(Run(EMPTY, es), Stop(1))
    ensures Run(EMPTY, es).granted == 2 && StopOf(Run(EMPTY, es), 1) == Stopped
  {
    var starts := StartTwice(n);
    var w := TwoHolders(n);
    FirstIsTheRow(w.store, "id");
    Snoc(EMPTY, starts, Find(1));
    Snoc(EMPTY, starts + [Find(1)], Fill(1, "crt", "key"));
    es := starts + [Find(1)] + [Fill(1, "crt", "key")];
    assert Run(EMPTY, es).store == w.store;
  }
}
