/** One pass of the certificate manager (src/cert.rs): `manage` and its `validate` loop on the
    shared facade. The ACME server is a script of what it answers. */
module Manager {
  import opened Util
  import opened Facade
  import L = Lease
  import Fencing

  /** One turn of the loop before validations are confirmed. `accepted`: both the validation and
      the refresh succeeded. `NoChallenge`: the authorizations could not be had or were empty. */
  datatype Round = NoChallenge | Challenge(proof: string, accepted: bool)

  /** The loop ends after `rounds`; `issued` is the downloaded certificate and its private key. */
  datatype Order = Order(rounds: seq<Round>, issued: Option<(string, string)>)

  datatype Validation = Certified(cert: Cert) | Errored | Died

  /** `Idle`: the job is someone else's; `Finished`: stop was called; `Failure`: an error is returned,
      which includes a panic inside the blocking task; `Panic`: the stop itself panicked. */
  datatype Outcome = Idle | Finished | Failure | Panic

  /** The proofs the loop publishes, up to and including the round in which it fails. */
  function Proofs(rounds: seq<Round>): seq<string> {
    if rounds == [] || rounds[0].NoChallenge? then []
    else [rounds[0].proof] + if rounds[0].accepted then Proofs(rounds[1..]) else []
  }

  predicate AcceptedUpTo(rounds: seq<Round>, n: nat)
    requires n <= |rounds|
  {
    forall i :: 0 <= i < n ==> rounds[i].Challenge? && rounds[i].accepted
  }

  predicate AllAccepted(rounds: seq<Round>) {
    AcceptedUpTo(rounds, |rounds|)
  }

  /** Only the last proof remains visible, written over the whole row from the worker's copy. */
  function AfterProofs(domains: map<string, Domain>, domain: Domain, proofs: seq<string>): map<string, Domain> {
    if proofs == [] || domain.id !in domains then domains
    else domains[domain.id := domain.(txt := Some(proofs[|proofs| - 1]))]
  }

  function Validated(domains: map<string, Domain>, memory: Cert, domain: Domain, order: Order): Validation {
    if Proofs(order.rounds) != [] && domain.id !in domains then Died
    else if AllAccepted(order.rounds) && order.issued.Some? then
      Certified(memory.(private := Some(order.issued.value.1), cert := Some(order.issued.value.0)))
    else Errored
  }

  /** One more round after i accepted ones: its proof is appended, and a failing round is the last. */
  lemma {:induction false} ProofsUpTo(rounds: seq<Round>, i: nat)
    requires i < |rounds| && AcceptedUpTo(rounds, i)
    ensures rounds[i].NoChallenge? ==> Proofs(rounds) == Proofs(rounds[..i])
    ensures rounds[i].Challenge? ==> Proofs(rounds[..i + 1]) == Proofs(rounds[..i]) + [rounds[i].proof] && Proofs(rounds) != []
    ensures rounds[i].Challenge? && !rounds[i].accepted ==> Proofs(rounds) == Proofs(rounds[..i + 1])
    decreases i
  {
    if i > 0 {
      assert rounds[..i][0] == rounds[0] && rounds[..i + 1][0] == rounds[0];
      assert rounds[..i][1..] == rounds[1..][..i - 1] && rounds[..i + 1][1..] == rounds[1..][..i];
      ProofsUpTo(rounds[1..], i - 1);
    } else if rounds[0].Challenge? {
      assert rounds[..1][1..] == [] && rounds[..1][0] == rounds[0];
    }
  }

  lemma {:induction false} OverwriteProof(domains: map<string, Domain>, domain: Domain, proofs: seq<string>, proof: string)
    ensures domain.id in AfterProofs(domains, domain, proofs) <==> domain.id in domains
    ensures domain.id in domains ==>
              AfterProofs(domains, domain, proofs)[domain.id := domain.(txt := Some(proof))]
              == AfterProofs(domains, domain, proofs + [proof])
    ensures domain.id !in domains ==> AfterProofs(domains, domain, proofs) == domains
  {
  }

  datatype LoopEnd = Confirmed | Refused | LostDomain

  function LoopOutcome(domains: map<string, Domain>, domain: Domain, rounds: seq<Round>): LoopEnd {
    if Proofs(rounds) != [] && domain.id !in domains then LostDomain
    else if AllAccepted(rounds) then Confirmed
    else Refused
  }

  /** The domain rows after the first n rounds. */
  function AfterRounds(domains: map<string, Domain>, domain: Domain, rounds: seq<Round>, n: nat): map<string, Domain>
    requires n <= |rounds|
  {
    AfterProofs(domains, domain, Proofs(rounds[..n]))
  }

  /** One more round: what it writes, and when it is the last. */
  lemma {:induction false} OneRound(domains: map<string, Domain>, domain: Domain, rounds: seq<Round>, i: nat)
    requires i < |rounds| && AcceptedUpTo(rounds, i)
    ensures var now, round := AfterRounds(domains, domain, rounds, i), rounds[i];
            var end := AfterProofs(domains, domain, Proofs(rounds));
            && (domain.id in now <==> domain.id in domains)
            && (round.NoChallenge? ==> now == end)
            && (round.Challenge? && domain.id !in domains ==> now == end && LoopOutcome(domains, domain, rounds) == LostDomain)
            && (round.Challenge? && domain.id in domains ==>
                  now[domain.id := domain.(txt := Some(round.proof))] == AfterRounds(domains, domain, rounds, i + 1))
            && (round.Challenge? && !round.accepted ==> AfterRounds(domains, domain, rounds, i + 1) == end)
  {
    ProofsUpTo(rounds, i);
    if rounds[i].Challenge? { OverwriteProof(domains, domain, Proofs(rounds[..i]), rounds[i].proof); }
  }

  /** The loop of `validate`: publishes each round's proof until validations are confirmed. */
  method AwaitConfirmation(facade: InMemoryFacade, domain: Domain, rounds: seq<Round>) returns (r: LoopEnd)
    requires facade.Valid()
    modifies facade`domains
    ensures facade.Valid()
    ensures r == LoopOutcome(old(facade.domains), domain, rounds)
    ensures facade.domains == AfterProofs(old(facade.domains), domain, Proofs(rounds))
  {
    ghost var before := facade.domains;
    var mine, i := domain, 0;
    while i < |rounds|
      invariant 0 <= i <= |rounds| && AcceptedUpTo(rounds, i)
      invariant facade.Valid() && mine == domain.(txt := mine.txt) && (i > 0 ==> domain.id in before)
      invariant facade.domains == AfterRounds(before, domain, rounds, i)
    {
      OneRound(before, domain, rounds, i);
      if rounds[i].NoChallenge? {
        RefusedOutcome(before, domain, rounds, i);
        return Refused;
      }
      mine := mine.(txt := Some(rounds[i].proof));
      var ok := facade.UpdateDomain(mine);
      if !ok { return LostDomain; }
      if !rounds[i].accepted {
        RefusedOutcome(before, domain, rounds, i);
        return Refused;
      }
      i := i + 1;
    }
    assert rounds[..i] == rounds;
    return Confirmed;
  }

  lemma {:induction false} RefusedOutcome(domains: map<string, Domain>, domain: Domain, rounds: seq<Round>, i: nat)
    requires i < |rounds| && AcceptedUpTo(rounds, i) && (rounds[i].NoChallenge? || !rounds[i].accepted)
    requires domain.id in domains || (i == 0 && rounds[i].NoChallenge?)
    ensures LoopOutcome(domains, domain, rounds) == Refused
  {
  }

  method Validate(facade: InMemoryFacade, memory: Cert, domain: Domain, order: Order) returns (r: Validation)
    requires facade.Valid()
    modifies facade`domains
    ensures facade.Valid()
    ensures r == Validated(old(facade.domains), memory, domain, order)
    ensures facade.domains == AfterProofs(old(facade.domains), domain, Proofs(order.rounds))
  {
    var end := AwaitConfirmation(facade, domain, order.rounds);
    if end == LostDomain { return Died; }
    if end == Refused || order.issued == None { return Errored; }
    var (cert, private) := order.issued.value;
    return Certified(memory.(private := Some(private), cert := Some(cert)));
  }

  datatype Prepared = Ended(outcome: Outcome) | ToStop(cert: Cert)

  /** Everything before the stop. `order` is `None` when the account or the order failed. */
  function Prepare(s: Store, first: Option<Cert>, now: u64, minted: Option<Domain>, id: string, order: Option<Order>): (Store, Prepared) {
    var (s1, start) := Started(s, first, now, minted, id);
    match start
    case Failed => (s1, Ended(Failure))
    case Busy => (s1, Ended(Idle))
    case Granted(c) =>
      if c.domain !in s1.domains || order == None then (s1, Ended(Failure))
      else
        var d := s1.domains[c.domain];
        (s1.(domains := AfterProofs(s1.domains, d, Proofs(order.value.rounds))),
         match Validated(s1.domains, c, d, order.value)
         case Certified(cert) => ToStop(cert)
         case Errored => Ended(Failure)
         case Died => Ended(Failure))
  }

  /** Whether a start with this outcome of `Domain::new` is granted the job. */
  predicate GetsJob(first: Option<Cert>, now: u64, minted: Option<Domain>) {
    match first
    case None => minted.Some?
    case Some(row) => row.state == Ok || row.update < OneHourAgo(ToI64(now))
  }

  /** The account, the order, every round and the download succeeded. */
  predicate OrderSucceeds(order: Option<Order>) {
    order.Some? && AllAccepted(order.value.rounds) && order.value.issued.Some?
  }

  /** The domain row of the certificate is there for the lookup. */
  predicate HasDomain(first: Option<Cert>, domains: map<string, Domain>) {
    first.Some? ==> first.value.domain in domains
  }

  /** How a pass ends before its stop, in terms of what was given to it: idle iff the job was refused,
      at the stop iff the job was granted, its domain is there and the order succeeded, with the order's
      pair and nothing else changed in the copy; a failure in every other case. */
  lemma {:induction false} PassEnds(
      s: Store, first: Option<Cert>, now: u64, minted: Option<Domain>, id: string, order: Option<Order>)
    requires forall k :: k in s.domains ==> s.domains[k].id == k
    ensures var p := Prepare(s, first, now, minted, id, order).1;
            var job := GetsJob(first, now, minted);
            && (p == Ended(Idle) <==> first.Some? && !job)
            && (p.ToStop? <==> job && HasDomain(first, s.domains) && OrderSucceeds(order))
            && (p == Ended(Failure) <==> !p.ToStop? && p != Ended(Idle))
            && (p.ToStop? ==>
                  var (cert, private) := order.value.issued.value;
                  p.cert == Started(s, first, now, minted, id).1.cert.(cert := Some(cert), private := Some(private)))
  {
  }

  method Manage(facade: InMemoryFacade, now: u64, minted: Option<Domain>, id: string, order: Option<Order>)
    returns (r: Outcome, ghost first: Option<Cert>, ghost last: Option<Cert>)
    requires facade.Valid()
    modifies facade
    ensures facade.Valid() && IsFirst(old(facade.Contents()), first)
    ensures var (s, p) := Prepare(old(facade.Contents()), first, now, minted, id, order);
            match p
            case Ended(outcome) => facade.Contents() == s && r == outcome
            case ToStop(cert) =>
              && IsFirst(s, last) && facade.Contents() == AfterStop(s, last, cert)
              && r == if StopOutcome(s, last, cert) == StopResult.Panicked then Panic else Finished
    ensures r == Idle <==> first.Some? && !GetsJob(first, now, minted)
    ensures r == Finished <==>
              GetsJob(first, now, minted) && HasDomain(first, old(facade.domains)) && OrderSucceeds(order)
    ensures r == Idle || r == Finished || r == Failure
  {
    ghost var before := facade.Contents();
    last := None;
    var start;
    start, first := facade.StartCert(now, minted, id);
    PassEnds(before, first, now, minted, id, order);
    match start {
      case Failed => r := Failure;
      case Busy => r := Idle;
      case Granted(memory) =>
        var found := facade.FindDomainById(memory.domain);
        if found == None || order == None { return Failure, first, last; }
        var validation := Validate(facade, memory, found.value, order.value);
        match validation {
          case Errored => r := Failure;
          case Died => r := Failure;
          case Certified(cert) =>
            var cert', stop;
            cert', stop, last := facade.StopCert(cert);
            r := if stop == StopResult.Panicked then Panic else Finished;
        }
    }
  }

  // ----- a pass of the manager is a run of the lease ----------------------------------------

  function Publishes(g: nat, proofs: seq<string>): seq<L.Event>
    decreases |proofs|
  {
    if proofs == [] then [] else Publishes(g, proofs[..|proofs| - 1]) + [L.Publish(g, proofs[|proofs| - 1])]
  }

  /** The events of grant g once it has an order. */
  function OrderEvents(g: nat, o: Order): seq<L.Event> {
    Publishes(g, Proofs(o.rounds))
    + if AllAccepted(o.rounds) && o.issued.Some? then [L.Fill(g, o.issued.value.0, o.issued.value.1), L.Stop(g)]
      else [L.Crash(g)]
  }

  /** The events of grant g after its start. */
  function WorkerEvents(g: nat, order: Option<Order>): seq<L.Event> {
    [L.Find(g)] + match order case None => [L.Crash(g)] case Some(o) => OrderEvents(g, o)
  }

  /** The world after worker g has published `proofs` one after the other. */
  ghost function AfterPublishes(w: L.World, g: nat, proofs: seq<string>): L.World
    requires g in w.workers && w.workers[g].phase.Ordering?
  {
    if proofs == [] then w
    else
      var d := w.workers[g].phase.domain;
      L.World(w.store.(domains := AfterProofs(w.store.domains, d, proofs)), w.granted,
              w.workers[g := w.workers[g].(phase := L.Ordering(d.(txt := Some(proofs[|proofs| - 1]))))])
  }

  lemma {:induction false} PublishOnce(w: L.World, g: nat, before: seq<string>, proof: string)
    requires g in w.workers && w.workers[g].phase.Ordering? && w.workers[g].phase.domain.id in w.store.domains
    ensures var v := AfterPublishes(w, g, before);
            L.Enabled(v, L.Publish(g, proof)) && L.Apply(v, L.Publish(g, proof)) == AfterPublishes(w, g, before + [proof])
  {
  }

  lemma {:induction false} PublishesRun(w: L.World, g: nat, proofs: seq<string>)
    requires g in w.workers && w.workers[g].phase.Ordering? && w.workers[g].phase.domain.id in w.store.domains
    ensures L.Possible(w, Publishes(g, proofs)) && L.Run(w, Publishes(g, proofs)) == AfterPublishes(w, g, proofs)
    decreases |proofs|
  {
    if proofs != [] {
      var before, proof := proofs[..|proofs| - 1], proofs[|proofs| - 1];
      PublishesRun(w, g, before);
      PublishOnce(w, g, before, proof);
      assert before + [proof] == proofs;
      Fencing.Snoc(w, Publishes(g, before), L.Publish(g, proof));
    }
  }

  /** What `manage` does when it is granted the job is what the worker's events do in the lease,
      so every result about runs speaks about `manage`. */
  lemma {:induction false} ManageIsARun(w: L.World, now: u64, minted: Option<Domain>, id: string, order: Option<Order>)
    requires L.Copies(w) && L.Enabled(w, L.Start(now, minted, id))
    requires L.StartOutcome(w, L.Start(now, minted, id)).Granted?
    ensures var w1 := L.Apply(w, L.Start(now, minted, id));
            var (s, p) := Prepare(w.store, L.First(w.store), now, minted, id, order);
            && L.Possible(w1, WorkerEvents(w1.granted, order))
            && L.Run(w1, WorkerEvents(w1.granted, order)).store
               == (match p case Ended(_) => s case ToStop(cert) => AfterStop(s, L.First(s), cert))
  {
    var w1 := L.Apply(w, L.Start(now, minted, id));
    var g := w1.granted;
    L.StepKeepsCopies(w, L.Start(now, minted, id));
    var w2 := L.Apply(w1, L.Find(g));
    L.StepKeepsCopies(w1, L.Find(g));
    assert L.Possible(w1, []) && [] + [L.Find(g)] == [L.Find(g)];
    Fencing.Snoc(w1, [], L.Find(g));
    if order == None {
      Fencing.Snoc(w1, [L.Find(g)], L.Crash(g));
      assert [L.Find(g)] + [L.Crash(g)] == [L.Find(g), L.Crash(g)];
    } else {
      OrderIsARun(w2, g, order.value);
      Fencing.Concat(w1, [L.Find(g)], OrderEvents(g, order.value));
    }
  }

  /** The part of a pass from the order on. */
  lemma {:induction false} OrderIsARun(w: L.World, g: nat, o: Order)
    requires g in w.workers && w.workers[g].phase.Ordering? && w.workers[g].phase.domain.id in w.store.domains
    ensures L.Possible(w, OrderEvents(g, o))
    ensures var k := w.workers[g];
            var d := k.phase.domain;
            var s := w.store.(domains := AfterProofs(w.store.domains, d, Proofs(o.rounds)));
            L.Run(w, OrderEvents(g, o)).store ==
              match Validated(w.store.domains, k.cert, d, o)
              case Certified(cert) => AfterStop(s, L.First(s), cert)
              case _ => s
  {
    var es := Publishes(g, Proofs(o.rounds));
    PublishesRun(w, g, Proofs(o.rounds));
    var v := L.Run(w, es);
    assert v.store == w.store.(domains := AfterProofs(w.store.domains, w.workers[g].phase.domain, Proofs(o.rounds)));
    if AllAccepted(o.rounds) && o.issued.Some? {
      FillAndStop(w, es, g, o.issued.value.0, o.issued.value.1);
      assert es + [L.Fill(g, o.issued.value.0, o.issued.value.1), L.Stop(g)] == OrderEvents(g, o);
    } else {
      Fencing.Snoc(w, es, L.Crash(g));
    }
  }

  lemma {:induction false} FillAndStop(w: L.World, es: seq<L.Event>, g: nat, crt: string, key: string)
    requires L.Possible(w, es) && L.Enabled(L.Run(w, es), L.Fill(g, crt, key))
    ensures var v := L.Run(w, es);
            var es' := es + [L.Fill(g, crt, key), L.Stop(g)];
            && L.Possible(w, es')
            && L.Run(w, es').store
               == AfterStop(v.store, L.First(v.store), v.workers[g].cert.(private := Some(key), cert := Some(crt)))
  {
    var fill := L.Fill(g, crt, key);
    Fencing.Snoc(w, es, fill);
    Fencing.Snoc(w, es + [fill], L.Stop(g));
    assert es + [fill] + [L.Stop(g)] == es + [fill, L.Stop(g)];
  }
}
