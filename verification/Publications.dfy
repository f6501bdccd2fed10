/** Who decides the published proof. Unlike stops, publications carry no stamp and pass no fence. */
module Publications {
  import opened Util
  import opened Facade
  import opened Lease
  import opened Fencing
  import Timing

  /** The grant that published last in a run. */
  function LatestPublisher(es: seq<Event>): Option<nat>
    decreases |es|
  {
    if es == [] then None
    else if es[|es| - 1].Publish? then Some(es[|es| - 1].g)
    else LatestPublisher(es[..|es| - 1])
  }

  /** What grant g itself published last. */
  function ProofBy(es: seq<Event>, g: nat): Option<string>
    decreases |es|
  {
    if es == [] then None
    else if es[|es| - 1].Publish? && es[|es| - 1].g == g then Some(es[|es| - 1].proof)
    else ProofBy(es[..|es| - 1], g)
  }

  /** No two grants publish the same proof, as the tokens of different orders differ. */
  ghost predicate ProofsTellGrants(es: seq<Event>) {
    forall i, j :: 0 <= i < |es| && 0 <= j < |es| && es[i].Publish? && es[j].Publish? && es[i].proof == es[j].proof ==>
      es[i].g == es[j].g
  }

  lemma {:induction false} ProofWasPublished(es: seq<Event>, g: nat)
    ensures ProofBy(es, g).Some? ==> exists i :: 0 <= i < |es| && es[i] == Publish(g, ProofBy(es, g).value)
    decreases |es|
  {
    if es != [] && !(es[|es| - 1].Publish? && es[|es| - 1].g == g) {
      var before := es[..|es| - 1];
      ProofWasPublished(before, g);
      if ProofBy(before, g).Some? {
        var i :| 0 <= i < |before| && before[i] == Publish(g, ProofBy(before, g).value);
        assert es[i] == before[i];
      }
    }
  }

  lemma {:induction false} LatestProofIsThePublishers(es: seq<Event>)
    ensures match LatestPublisher(es)
            case None => Timing.LatestProof(es) == None
            case Some(g) => Timing.LatestProof(es).Some? && Timing.LatestProof(es) == ProofBy(es, g)
    decreases |es|
  {
    if es != [] && !es[|es| - 1].Publish? { LatestProofIsThePublishers(es[..|es| - 1]); }
  }

  /** The text of the certificate's domain. */
  ghost function RowText(s: Store): Option<string> {
    match First(s)
    case Some(row) => if row.domain in s.domains then s.domains[row.domain].txt else None
    case None => None
  }

  /** The text that challenges are answered with is grant g's proof exactly when g published last;
      that g is the latest grant, or still holds the lease, plays no part. */
  lemma {:induction false} LatestPublisherDecides(es: seq<Event>, g: nat)
    requires Possible(EMPTY, es) && ProofsTellGrants(es) && ProofBy(es, g).Some?
    ensures RowText(Run(EMPTY, es).store) == ProofBy(es, g) <==> LatestPublisher(es) == Some(g)
  {
    Timing.RowTextIsLatestProof(es);
    LatestProofIsThePublishers(es);
    ProofWasPublished(es, g);
    if LatestPublisher(es).Some? { ProofWasPublished(es, LatestPublisher(es).value); }
  }

  ghost function Overtaken(): seq<Event> {
    [Start(0, Some(D1), "id")] + [Find(1)] + [Start(3601, None, "id")] + [Find(2)]
    + [Publish(2, "new")] + [Publish(1, "old")]
  }

  /** A holder whose lease was taken over is still able to overwrite the new holder's proof, with
      ordinary clock readings: the latest grant published, and its proof is gone. */
  lemma {:induction false} StaleHolderOverwritesProof()
    ensures Possible(EMPTY, Overtaken()) && AllSafe(Overtaken())
    ensures var w := Run(EMPTY, Overtaken());
            w.granted == 2 && 2 in w.workers && ProofBy(Overtaken(), 2) == Some("new") && RowText(w.store) == Some("old")
  {
    var es := TakenOver();
    OldOverNew();
    Snoc(EMPTY, es, Publish(2, "new"));
    Snoc(EMPTY, es + [Publish(2, "new")], Publish(1, "old"));
    assert Overtaken()[..5] == es + [Publish(2, "new")];
    FirstIsTheRow(Run(EMPTY, Overtaken()).store, "id");
  }

  lemma {:induction false} OldOverNew()
    ensures Enabled(BothOrdering(), Publish(2, "new"))
    ensures var w := Apply(BothOrdering(), Publish(2, "new"));
            && Enabled(w, Publish(1, "old"))
            && var w' := Apply(w, Publish(1, "old"));
               && StoreOk(w'.store) && w'.granted == 2 && 2 in w'.workers
               && w'.store.certs == BothOrdering().store.certs && w'.store.domains == map["a" := D1.(txt := Some("old"))]
  {
  }

  /** Grant 1 created the row at 0, grant 2 took it over at 3601, and both are ordering. */
  ghost function BothOrdering(): World {
    var made := NewCert(D1, "id", 0);
    var taken := made.(update := 3601);
    World(Store(map["id" := taken], map["a" := D1]), 2,
          map[1 := Worker(made, Ordering(D1)), 2 := Worker(taken, Ordering(D1))])
  }

  lemma {:induction false} TakenOver() returns (es: seq<Event>)
    ensures es == [Start(0, Some(D1), "id")] + [Find(1)] + [Start(3601, None, "id")] + [Find(2)]
    ensures Possible(EMPTY, es) && Run(EMPTY, es) == BothOrdering()
  {
    var made := NewCert(D1, "id", 0);
    var taken := made.(update := 3601);
    var e1, e3 := Start(0, Some(D1), "id"), Start(3601, None, "id");
    var w1 := World(Store(map["id" := made], map["a" := D1]), 1, map[1 := Worker(made, Leased)]);
    var w2 := w1.(workers := map[1 := Worker(made, Ordering(D1))]);
    var w3 := World(Store(map["id" := taken], map["a" := D1]), 2,
                    map[1 := Worker(made, Ordering(D1)), 2 := Worker(taken, Leased)]);
    assert Apply(EMPTY, e1) == w1;
    assert Apply(w1, Find(1)) == w2;
    FirstIsTheRow(w2.store, "id");
    OneHourAgoExact(3601);
    assert w2.store.certs["id" := taken] == map["id" := taken];
    assert Apply(w2, e3) == w3;
    assert Apply(w3, Find(2)) == BothOrdering();
    assert [] + [e1] == [e1];
    Snoc(EMPTY, [], e1);
    Snoc(EMPTY, [e1], Find(1));
    Snoc(EMPTY, [e1] + [Find(1)], e3);
    Snoc(EMPTY, [e1] + [Find(1)] + [e3], Find(2));
    es := [e1] + [Find(1)] + [e3] + [Find(2)];
  }
}
