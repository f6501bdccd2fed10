/** Clock bounds of the lease: how far apart takeovers are, and when a start is refused. */
module Timing {
  import opened Util
  import opened Facade
  import opened Lease
  import opened Fencing

  /** A start that takes an abandoned lease away from its holder. */
  ghost predicate TakesOver(w: World, e: Event) {
    e.Start? && First(w.store).Some? && First(w.store).value.state == Updating && StartOutcome(w, e).Granted?
  }

  /** The stamps of the takeovers of a run, oldest first. */
  ghost function Takeovers(w: World, es: seq<Event>): seq<i64>
    requires Possible(w, es)
    decreases |es|
  {
    if es == [] then [] else
      var before, e := es[..|es| - 1], es[|es| - 1];
      if TakesOver(Run(w, before), e) then Takeovers(w, before) + [ToI64(e.now)] else Takeovers(w, before)
  }

  /** No stop of the run wrote. */
  ghost predicate NoStopWrites(w: World, es: seq<Event>)
    requires Possible(w, es)
    decreases |es|
  {
    es == [] ||
    (var before, e := es[..|es| - 1], es[|es| - 1];
     NoStopWrites(w, before) && (e.Stop? ==> StopOf(Run(w, before), e.g) != Stopped))
  }

  /** The row survives every step with its identity, whatever the clocks show. */
  lemma {:induction false} RowKeepsIdentity(w: World, e: Event)
    requires Copies(w) && Enabled(w, e) && First(w.store).Some?
    ensures First(Apply(w, e).store).Some?
    ensures First(Apply(w, e).store).value.id == First(w.store).value.id
    ensures First(Apply(w, e).store).value.domain == First(w.store).value.domain
  {
  }

  lemma {:induction false} RunKeepsIdentity(w: World, es: seq<Event>)
    requires Copies(w) && Possible(w, es) && First(w.store).Some?
    ensures First(Run(w, es).store).Some?
    ensures First(Run(w, es).store).value.id == First(w.store).value.id
    ensures First(Run(w, es).store).value.domain == First(w.store).value.domain
    decreases |es|
  {
    if es != [] {
      RunKeepsIdentity(w, es[..|es| - 1]);
      RunKeepsCopies(w, es[..|es| - 1]);
      RowKeepsIdentity(Run(w, es[..|es| - 1]), es[|es| - 1]);
    }
  }

  /** How a step with a safe reading changes the row. */
  lemma {:induction false} RowStep(w: World, e: Event)
    requires Inv(w) && Enabled(w, e) && Safe(e) && First(w.store).Some?
    ensures First(Apply(w, e).store).Some?
    ensures var row, row' := First(w.store).value, First(Apply(w, e).store).value;
            && row'.id == row.id && row'.domain == row.domain
            && row'.update == (if TakesOver(w, e) then ToI64(e.now) else row.update)
            && (TakesOver(w, e) ==> row'.update > row.update + 3600)
            && (!(e.Stop? && StopOf(w, e.g) == Stopped) ==> row'.cert == row.cert && row'.private == row.private)
            && (row.state == Updating && !(e.Stop? && StopOf(w, e.g) == Stopped) ==> row'.state == Updating)
  {
    StepKeepsInv(w, e);
    var row := First(w.store).value;
    FirstIsTheRow(w.store, row.id);
    FirstIsTheRow(Apply(w, e).store, row.id);
    if e.Start? { OneHourAgoExact(e.now); }
  }

  lemma {:induction false} RowSurvives(w: World, es: seq<Event>)
    requires Inv(w) && Possible(w, es) && AllSafe(es) && First(w.store).Some?
    ensures First(Run(w, es).store).Some?
    ensures var row, row' := First(w.store).value, First(Run(w, es).store).value;
            && row'.id == row.id && row'.domain == row.domain && row.update <= row'.update
            && (NoStopWrites(w, es) ==> SameCert(row, row') && (row.state == Updating ==> row'.state == Updating))
    decreases |es|
  {
    if es != [] {
      var before := es[..|es| - 1];
      RowSurvives(w, before);
      RunKeepsInv(w, before);
      RowStep(Run(w, before), es[|es| - 1]);
    }
  }

  /** In every run with safe readings the stored stamp never decreases. */
  lemma {:induction false} UpdateNeverDecreases(w: World, es: seq<Event>)
    requires Reachable(w) && Possible(w, es) && AllSafe(es) && First(w.store).Some?
    ensures First(Run(w, es).store).Some? && First(w.store).value.update <= First(Run(w, es).store).value.update
  {
    ReachableInv(w);
    RowSurvives(w, es);
  }

  /** One takeover moves the stamp by more than an hour iff the subtraction did not wrap. */
  lemma {:induction false} TakeoverGainsExactly(w: World, e: Event)
    requires Inv(w) && TakesOver(w, e)
    ensures ToI64(e.now) >= First(w.store).value.update + 3601 <==> !Overflows(e.now)
  {
  }

  lemma {:induction false} TakeoverSpacing(w: World, es: seq<Event>)
    requires Inv(w) && Possible(w, es) && AllSafe(es)
    ensures var t := Takeovers(w, es);
            && (t != [] ==> First(Run(w, es).store).Some? && t[|t| - 1] <= First(Run(w, es).store).value.update)
            && forall i, j :: 0 <= i <= j < |t| ==> t[j] >= t[i] + 3601 * (j - i)
    decreases |es|
  {
    if es != [] {
      var before, e := es[..|es| - 1], es[|es| - 1];
      TakeoverSpacing(w, before);
      RunKeepsInv(w, before);
      if First(Run(w, before).store).Some? { RowStep(Run(w, before), e); }
    }
  }

  /** k takeovers at readings n1..nk satisfy nk >= n1 + 3601 * (k - 1), whatever the clocks do. */
  lemma {:induction false} TakeoverBound(w: World, es: seq<Event>)
    requires Reachable(w) && Possible(w, es) && AllSafe(es)
    ensures var t := Takeovers(w, es);
            t != [] ==> t[|t| - 1] >= t[0] + 3601 * (|t| - 1)
  {
    ReachableInv(w);
    TakeoverSpacing(w, es);
  }

  /** Exactly when a start is refused: someone holds the row and the reading is within the hour.
      So a holder that crashed or hangs blocks nobody whose reading is over an hour past its stamp. */
  lemma {:induction false} BusyExactly(w: World, e: Event)
    requires e.Start? && Safe(e)
    ensures StartOutcome(w, e) == Busy <==>
            First(w.store).Some? && First(w.store).value.state == Updating
            && ToI64(e.now) <= First(w.store).value.update + 3600
    ensures StartOutcome(w, e) == Failed <==> First(w.store) == None && e.minted == None
  {
  }

  /** What a grant hands out is what the row has become. */
  lemma {:induction false} GrantIsTheRow(w: World, e: Event)
    requires Copies(w) && Enabled(w, e) && e.Start?
    ensures StartOutcome(w, e).Granted? ==>
              && First(Apply(w, e).store) == Some(StartOutcome(w, e).cert)
              && Apply(w, e).granted == w.granted + 1
              && Apply(w, e).workers == w.workers[w.granted + 1 := Worker(StartOutcome(w, e).cert, Leased)]
    ensures !StartOutcome(w, e).Granted? ==> Apply(w, e) == w
  {
    StepKeepsCopies(w, e);
    if StartOutcome(w, e).Granted? { FirstIsTheRow(Apply(w, e).store, StartOutcome(w, e).cert.id); }
  }

  /** A first start makes an updating row without a pair, stamped with its own clock reading, for the
      domain it creates. */
  lemma {:induction false} CreationExactly(w: World, e: Event)
    requires Copies(w) && Enabled(w, e) && e.Start? && e.minted.Some? && First(w.store) == None
    ensures var s := Apply(w, e).store;
            && First(s) == Some(Cert(e.id, ToI64(e.now), Updating, None, None, e.minted.value.id))
            && s.domains == w.store.domains[e.minted.value.id := e.minted.value]
  {
    GrantIsTheRow(w, e);
  }

  /** No start among the events was granted. */
  ghost predicate NoGrants(w: World, es: seq<Event>)
    requires Possible(w, es)
    decreases |es|
  {
    es == [] ||
    (var before, e := es[..|es| - 1], es[|es| - 1];
     NoGrants(w, before) && (e.Start? ==> !StartOutcome(Run(w, before), e).Granted?))
  }

  lemma {:induction false} IdleStepKeepsRow(w: World, e: Event)
    requires Copies(w) && Enabled(w, e) && First(w.store).Some?
    requires e.Start? ==> !StartOutcome(w, e).Granted?
    requires e.Stop? ==> StopOf(w, e.g) != Stopped
    ensures First(Apply(w, e).store) == First(w.store)
  {
    StepKeepsCopies(w, e);
    FirstIsTheRow(w.store, First(w.store).value.id);
    FirstIsTheRow(Apply(w, e).store, First(w.store).value.id);
  }

  lemma {:induction false} IdleRunKeepsRow(w: World, es: seq<Event>)
    requires Copies(w) && Possible(w, es) && First(w.store).Some? && NoStopWrites(w, es) && NoGrants(w, es)
    ensures First(Run(w, es).store) == First(w.store)
    decreases |es|
  {
    if es != [] {
      var before := es[..|es| - 1];
      IdleRunKeepsRow(w, before);
      RunKeepsCopies(w, before);
      IdleStepKeepsRow(Run(w, before), es[|es| - 1]);
    }
  }

  /** The window is exactly an hour: after a creation or takeover at reading n, as long as no stop has
      written and nobody else was granted, a start at reading m is refused iff m is at most n + 3600. */
  lemma {:induction false} LeaseWindowExactly(w: World, grant: Event, es: seq<Event>, later: Event)
    requires Attainable(w) && Enabled(w, grant) && grant.Start?
    requires TakesOver(w, grant) || (First(w.store) == None && StartOutcome(w, grant).Granted?)
    requires Possible(Apply(w, grant), es) && NoStopWrites(Apply(w, grant), es) && NoGrants(Apply(w, grant), es)
    requires later.Start? && Safe(later)
    ensures var outcome := StartOutcome(Run(Apply(w, grant), es), later);
            && (outcome == Busy <==> ToI64(later.now) <= ToI64(grant.now) + 3600)
            && (outcome != Busy ==> outcome.Granted? && outcome.cert.update == ToI64(later.now))
  {
    AttainableCopies(w);
    GrantIsTheRow(w, grant);
    StepKeepsCopies(w, grant);
    IdleRunKeepsRow(Apply(w, grant), es);
    OneHourAgoExact(later.now);
  }

  /** After a creation or takeover stamped n, no start reading at most n + 3600 is granted
      until the holder's stop has written; the order of clock readings plays no part. */
  lemma {:induction false} LeaseWindow(w: World, grant: Event, es: seq<Event>, later: Event)
    requires Reachable(w) && Enabled(w, grant) && grant.Start? && Safe(grant)
    requires TakesOver(w, grant) || (First(w.store) == None && StartOutcome(w, grant).Granted?)
    requires Possible(Apply(w, grant), es) && AllSafe(es) && NoStopWrites(Apply(w, grant), es)
    requires later.Start? && Safe(later) && ToI64(later.now) <= ToI64(grant.now) + 3600
    ensures StartOutcome(Run(Apply(w, grant), es), later) == Busy
  {
    ReachableInv(w);
    var w' := Apply(w, grant);
    StepKeepsInv(w, grant);
    FirstIsTheRow(w'.store, StartOutcome(w, grant).cert.id);
    RowSurvives(w', es);
    RunKeepsInv(w', es);
    BusyExactly(Run(w', es), later);
  }

  // ----- what the runs do to domains ----------------------------------------------------

  /** Each domain row keeps its account fields, and a proof once present is never erased. */
  ghost predicate AccountsKept(s: Store, s': Store) {
    forall id :: id in s.domains ==>
      && id in s'.domains
      && s'.domains[id].username == s.domains[id].username
      && s'.domains[id].password == s.domains[id].password
      && (s.domains[id].txt.Some? ==> s'.domains[id].txt.Some?)
  }

  /** A registration files the domain as given and touches nothing else. */
  lemma {:induction false} RegisterFilesDomain(w: World, d: Domain)
    requires Enabled(w, Register(d))
    ensures Apply(w, Register(d)) == w.(store := Store(w.store.certs, w.store.domains[d.id := d]))
  {
  }

  lemma {:induction false} StepKeepsAccounts(w: World, e: Event)
    requires Copies(w) && Enabled(w, e)
    ensures AccountsKept(w.store, Apply(w, e).store)
  {
  }

  lemma {:induction false} RunKeepsAccounts(w: World, es: seq<Event>)
    requires Copies(w) && Possible(w, es)
    ensures AccountsKept(w.store, Run(w, es).store)
    decreases |es|
  {
    if es != [] {
      RunKeepsAccounts(w, es[..|es| - 1]);
      RunKeepsCopies(w, es[..|es| - 1]);
      StepKeepsAccounts(Run(w, es[..|es| - 1]), es[|es| - 1]);
    }
  }

  /** Between any two moments of any run, whatever stale domain copies workers write back. */
  lemma {:induction false} AccountsNeverChange(w: World, es: seq<Event>)
    requires Attainable(w) && Possible(w, es)
    ensures AccountsKept(w.store, Run(w, es).store)
  {
    AttainableCopies(w);
    RunKeepsAccounts(w, es);
  }

  /** No call of `manage` hits a failed `unwrap`, its domain lookup always succeeds, there is at
      most one row, and every worker's copy names that row and its domain. */
  lemma {:induction false} WorkersNeverFail(w: World, e: Event)
    requires Attainable(w) && Enabled(w, e)
    ensures e.Find? ==> w.workers[e.g].cert.domain in w.store.domains
    ensures e.Publish? ==> w.workers[e.g].phase.domain.id in w.store.domains
    ensures e.Stop? ==> StopOf(w, e.g) != Panicked
    ensures |w.store.certs| <= 1
    ensures forall g :: g in w.workers ==> First(w.store).Some? && w.workers[g].cert.id == First(w.store).value.id
                                           && w.workers[g].cert.domain == First(w.store).value.domain
  {
    AttainableCopies(w);
    if w.store.certs != map[] {
      var row := First(w.store).value;
      FirstIsTheRow(w.store, row.id);
      assert w.store.certs.Keys == {row.id};
      assert |w.store.certs.Keys| == 1;
    }
  }

  /** Only the certificate's domain ever carries a text. */
  ghost predicate OthersEmpty(s: Store) {
    forall id :: id in s.domains && (First(s).Some? ==> id != First(s).value.domain) ==> s.domains[id].txt == None
  }

  lemma {:induction false} StepKeepsOthersEmpty(w: World, e: Event)
    requires Copies(w) && Enabled(w, e) && OthersEmpty(w.store)
    ensures OthersEmpty(Apply(w, e).store)
  {
    StepKeepsCopies(w, e);
    if First(w.store).Some? { RowKeepsIdentity(w, e); }
  }

  /** Registered domains: no run makes their text anything, nor confuses them with the certificate's. */
  lemma {:induction false} RegisteredDomainsStayEmpty(es: seq<Event>)
    requires Possible(EMPTY, es)
    ensures OthersEmpty(Run(EMPTY, es).store)
    decreases |es|
  {
    if es != [] {
      var before := es[..|es| - 1];
      RegisteredDomainsStayEmpty(before);
      RunKeepsCopies(EMPTY, before);
      StepKeepsOthersEmpty(Run(EMPTY, before), es[|es| - 1]);
    }
  }

  /** The proof published last in a run, by whichever worker. */
  function LatestProof(es: seq<Event>): Option<string>
    decreases |es|
  {
    if es == [] then None
    else
      match es[|es| - 1]
      case Publish(_, proof) => Some(proof)
      case _ => LatestProof(es[..|es| - 1])
  }

  lemma {:induction false} StepMovesRowText(w: World, e: Event)
    requires Copies(w) && Enabled(w, e) && First(w.store).Some?
    ensures var s := Apply(w, e).store;
            && First(s).Some? && First(s).value.domain in s.domains
            && s.domains[First(s).value.domain].txt ==
               if e.Publish? then Some(e.proof) else w.store.domains[First(w.store).value.domain].txt
  {
    StepKeepsCopies(w, e);
    RowKeepsIdentity(w, e);
  }

  lemma {:induction false} CreationStartsWithoutText(w: World, e: Event)
    requires Copies(w) && Enabled(w, e) && First(w.store) == None
    ensures !e.Publish?
    ensures var s := Apply(w, e).store;
            First(s).Some? ==> First(s).value.domain in s.domains && s.domains[First(s).value.domain].txt == None
  {
    StepKeepsCopies(w, e);
    if e.Start? && e.minted.Some? { FirstIsTheRow(Apply(w, e).store, e.id); }
  }

  /** In every run from the empty store the text of the certificate's domain is the proof published last. */
  lemma {:induction false} RowTextIsLatestProof(es: seq<Event>)
    requires Possible(EMPTY, es)
    ensures var s := Run(EMPTY, es).store;
            if First(s).Some? then First(s).value.domain in s.domains
                                   && s.domains[First(s).value.domain].txt == LatestProof(es)
            else LatestProof(es) == None
    decreases |es|
  {
    if es != [] {
      var before, e := es[..|es| - 1], es[|es| - 1];
      var w := Run(EMPTY, before);
      RowTextIsLatestProof(before);
      RunKeepsCopies(EMPTY, before);
      if First(w.store).Some? { StepMovesRowText(w, e); } else { CreationStartsWithoutText(w, e); }
    }
  }

  /** The text the row's domain has after `proof` was published, until the next publication. */
  lemma {:induction false} PublishPersists(w: World, g: nat, proof: string, es: seq<Event>)
    requires Copies(w) && Enabled(w, Publish(g, proof)) && Possible(Apply(w, Publish(g, proof)), es)
    requires forall i :: 0 <= i < |es| ==> !es[i].Publish?
    ensures var s := Run(Apply(w, Publish(g, proof)), es).store;
            && First(s).Some? && First(s).value.domain in s.domains
            && s.domains[First(s).value.domain].txt == Some(proof)
    decreases |es|
  {
    var w' := Apply(w, Publish(g, proof));
    StepKeepsCopies(w, Publish(g, proof));
    RowKeepsIdentity(w, Publish(g, proof));
    if es != [] {
      var before, e := es[..|es| - 1], es[|es| - 1];
      PublishPersists(w, g, proof, before);
      RunKeepsCopies(w', before);
      RowKeepsIdentity(Run(w', before), e);
    }
  }
}
