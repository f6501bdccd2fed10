/** DNS answers (src/dns/authority.rs): preconfigured records, the ACME challenge, and the
    text of a registered domain. Names are lower-cased label sequences, as queries carry them. */
module Authority {
  import opened Util
  import opened Facade
  import L = Lease
  import Fencing
  import Timing

  type Label = seq<byte>
  type Name = seq<Label>

  datatype RecordType = SOA | TXT | A | CNAME | OtherType(code: nat)

  datatype Ip = V4(octets: seq<byte>) | V6(groups: seq<nat>)

  datatype RData = AData(octets: seq<byte>) | CnameData(name: Name) | TxtData(texts: seq<string>) | OtherData

  datatype RecordSet = RecordSet(name: Name, recordType: RecordType, ttl: nat, records: seq<RData>)

  datatype Query = Query(name: Name, queryType: RecordType)

  /** `_acme-challenge` */
  const ACME_CHALLENGE: Label := [95, 97, 99, 109, 101, 45, 99, 104, 97, 108, 108, 101, 110, 103, 101]

  /** The configured records; the OS resolver (`None` is its error); UTF-8 decoding (`None`: invalid). */
  datatype Authority = Authority(
    records: map<Name, map<RecordType, RecordSet>>,
    resolve: Name -> Option<seq<Ip>>,
    utf8: Label -> Option<string>)

  /** `HandlerPanic` is `unwrap` of an absent text; `ServerFailure` any error returned to the client. */
  datatype Answer = SoaRecord | Empty | Records(answer: RecordSet) | NotFound | ServerFailure | HandlerPanic

  datatype Lookup = LookupError | NoRecords | Found(answer: RecordSet)

  /** The IPv4 hosts as records, each once, in order of appearance. */
  function V4Records(hosts: seq<Ip>): seq<RData>
    decreases |hosts|
  {
    if hosts == [] then []
    else
      var before := V4Records(hosts[..|hosts| - 1]);
      match hosts[|hosts| - 1]
      case V4(ip) => if AData(ip) in before then before else before + [AData(ip)]
      case V6(_) => before
  }

  function CnameLookup(rs: RecordSet, resolve: Name -> Option<seq<Ip>>): Lookup {
    if rs.records == [] || !rs.records[0].CnameData? then NoRecords
    else
      match resolve(rs.records[0].name)
      case None => LookupError
      case Some(hosts) =>
        if V4Records(hosts) == [] then NoRecords else Found(RecordSet(rs.name, A, 0, V4Records(hosts)))
  }

  /** `lookup_cname`: collects the IPv4 hosts of the first record's target. */
  method LookupCname(rs: RecordSet, resolve: Name -> Option<seq<Ip>>) returns (r: Lookup)
    ensures r == CnameLookup(rs, resolve)
  {
    if rs.records == [] || !rs.records[0].CnameData? { return NoRecords; }
    var resolved := resolve(rs.records[0].name);
    if resolved == None { return LookupError; }
    var hosts, records, i := resolved.value, [], 0;
    while i < |hosts|
      invariant 0 <= i <= |hosts|
      invariant records == V4Records(hosts[..i])
    {
      assert hosts[..i + 1][..i] == hosts[..i];
      match hosts[i] {
        case V4(ip) => if AData(ip) !in records { records := records + [AData(ip)]; }
        case V6(_) =>
      }
      i := i + 1;
    }
    assert hosts[..i] == hosts;
    r := if records == [] then NoRecords else Found(RecordSet(rs.name, A, 0, records));
  }

  /** The answer to an alias holds exactly the target's IPv4 addresses, none twice. */
  lemma {:induction false} V4RecordsExact(hosts: seq<Ip>, ip: seq<byte>)
    ensures AData(ip) in V4Records(hosts) <==> V4(ip) in hosts
    ensures forall d :: d in V4Records(hosts) ==> d.AData?
    ensures forall i, j :: 0 <= i < j < |V4Records(hosts)| ==> V4Records(hosts)[i] != V4Records(hosts)[j]
    decreases |hosts|
  {
    if hosts != [] {
      V4RecordsExact(hosts[..|hosts| - 1], ip);
      assert hosts == hosts[..|hosts| - 1] + [hosts[|hosts| - 1]];
    }
  }

  function LookupPre(a: Authority, q: Query): Lookup {
    if q.name !in a.records then NoRecords
    else
      var byType := a.records[q.name];
      if q.queryType in byType then Found(byType[q.queryType])
      else if CNAME in byType && q.queryType == A then CnameLookup(byType[CNAME], a.resolve)
      else NoRecords
  }

  function TxtAnswer(name: Name, text: string): Answer {
    Records(RecordSet(name, TXT, 100, [TxtData([text])]))
  }

  function AcmeChallenge(s: Store, first: Option<Cert>, name: Name): Answer {
    match first
    case None => ServerFailure
    case Some(cert) =>
      if cert.domain !in s.domains then ServerFailure
      else
        match s.domains[cert.domain].txt
        case None => HandlerPanic
        case Some(text) => TxtAnswer(name, text)
  }

  function Search(a: Authority, s: Store, first: Option<Cert>, q: Query): Answer {
    if q.queryType == SOA then SoaRecord
    else if q.name == [] then Empty
    else
      var pre := LookupPre(a, q);
      // an error of the preconfigured lookup counts as a miss
      if pre.Found? then Records(pre.answer)
      else if q.name[0] == ACME_CHALLENGE then AcmeChallenge(s, first, q.name)
      else
        match a.utf8(q.name[0])
        case None => ServerFailure
        case Some(id) =>
          if id !in s.domains then NotFound
          else
            match s.domains[id].txt
            case None => Empty
            case Some(text) => TxtAnswer(q.name, text)
  }

  /** A query the store has to answer: no zone record, no preconfigured hit. */
  predicate AsksStore(a: Authority, q: Query) {
    q.queryType != SOA && q.name != [] && !LookupPre(a, q).Found?
  }

  /** A worker publishes `proof` in an attainable world; no other publication follows on the way to w,
      but starts, stops, takeovers, crashes and registrations may, in any order. */
  ghost predicate PublishedOnTheWay(w0: L.World, g: nat, proof: string, es: seq<L.Event>, w: L.World) {
    && Fencing.Attainable(w0) && L.Enabled(w0, L.Publish(g, proof))
    && L.Possible(L.Apply(w0, L.Publish(g, proof)), es)
    && (forall i :: 0 <= i < |es| ==> !es[i].Publish?)
    && w == L.Run(L.Apply(w0, L.Publish(g, proof)), es)
  }

  /** `proof` is the latest publication in w. */
  ghost predicate LastPublished(w: L.World, proof: string) {
    exists w0, g, es :: PublishedOnTheWay(w0, g, proof, es, w)
  }

  lemma {:induction false} LastPublishedIsStored(w: L.World, proof: string)
    requires LastPublished(w, proof)
    ensures var first := L.First(w.store);
            && first.Some? && first.value.domain in w.store.domains
            && w.store.domains[first.value.domain].txt == Some(proof)
  {
    var w0, g, es :| PublishedOnTheWay(w0, g, proof, es, w);
    Fencing.AttainableCopies(w0);
    Timing.PublishPersists(w0, g, proof, es);
  }

  /** The handler asks the facade twice, for the row and then for its domain. Whatever happens between
      the two calls, once there is a row the answer is that of the later moment. */
  lemma {:induction false} TwoCallsAnswerAsOne(a: Authority, w: L.World, between: seq<L.Event>, q: Query)
    requires Fencing.Attainable(w) && L.Possible(w, between) && L.First(w.store).Some?
    ensures var s := L.Run(w, between).store; Search(a, s, L.First(w.store), q) == Search(a, s, L.First(s), q)
  {
    Fencing.AttainableCopies(w);
    Timing.RunKeepsIdentity(w, between);
  }

  /** From a worker's publication of a proof until the next publication, the challenge name and the
      name of the certificate's domain id are both answered with exactly that proof. The row may have
      been read at any earlier moment at which there was one. */
  lemma {:induction false} PublishToAnswer(a: Authority, w: L.World, between: seq<L.Event>, proof: string, q: Query)
    requires Fencing.Attainable(w) && L.Possible(w, between) && LastPublished(L.Run(w, between), proof)
    requires AsksStore(a, q) && L.First(w.store).Some?
    ensures var s := L.Run(w, between).store;
            && L.First(s).Some?
            && (q.name[0] == ACME_CHALLENGE || a.utf8(q.name[0]) == Some(L.First(s).value.domain) ==>
                  Search(a, s, L.First(w.store), q) == Records(RecordSet(q.name, TXT, 100, [TxtData([proof])])))
  {
    LastPublishedIsStored(L.Run(w, between), proof);
    TwoCallsAnswerAsOne(a, w, between, q);
  }

  /** Every challenge in every run from the empty store, the row being read after `past` and its domain
      after `between` as well: an error iff there was no row, a panic iff there was one and no worker has
      published so far, otherwise exactly the proof published last. */
  lemma {:induction false} ChallengeExactly(a: Authority, past: seq<L.Event>, between: seq<L.Event>, q: Query)
    requires L.Possible(L.EMPTY, past) && L.Possible(L.Run(L.EMPTY, past), between)
    requires AsksStore(a, q) && q.name[0] == ACME_CHALLENGE
    ensures var w := L.Run(L.EMPTY, past);
            Search(a, L.Run(w, between).store, L.First(w.store), q) ==
              if L.First(w.store) == None then ServerFailure
              else
                match Timing.LatestProof(past + between)
                case None => HandlerPanic
                case Some(proof) => Records(RecordSet(q.name, TXT, 100, [TxtData([proof])]))
  {
    var w := L.Run(L.EMPTY, past);
    if L.First(w.store).Some? {
      assert Fencing.Attainable(w) by { assert L.Init(L.EMPTY); }
      TwoCallsAnswerAsOne(a, w, between, q);
      Fencing.Concat(L.EMPTY, past, between);
      Timing.RowTextIsLatestProof(past + between);
      Fencing.AttainableCopies(w);
      Timing.RunKeepsIdentity(w, between);
    }
  }

  lemma {:induction false} NoPanicWithText(a: Authority, s: Store, first: Option<Cert>, q: Query)
    requires first.Some? && first.value.domain in s.domains && s.domains[first.value.domain].txt.Some?
    ensures Search(a, s, first, q) != HandlerPanic
  {
  }

  /** Once some worker has published, no later query panics, whatever happens in between and whenever
      since then the row was read. */
  lemma {:induction false} NeverPanicsAfterPublish(
      a: Authority, w: L.World, g: nat, proof: string, es: seq<L.Event>, between: seq<L.Event>, q: Query)
    requires Fencing.Attainable(w) && L.Enabled(w, L.Publish(g, proof))
    requires L.Possible(L.Apply(w, L.Publish(g, proof)), es)
    requires L.Possible(L.Run(L.Apply(w, L.Publish(g, proof)), es), between)
    ensures var read := L.Run(L.Apply(w, L.Publish(g, proof)), es);
            Search(a, L.Run(read, between).store, L.First(read.store), q) != HandlerPanic
  {
    var w' := L.Apply(w, L.Publish(g, proof));
    Fencing.AttainableCopies(w);
    Timing.PublishPersists(w, g, proof, []);
    L.StepKeepsCopies(w, L.Publish(g, proof));
    TextStays(w', es);
    L.RunKeepsCopies(w', es);
    TextStays(L.Run(w', es), between);
    Timing.RunKeepsIdentity(L.Run(w', es), between);
    NoPanicWithText(a, L.Run(L.Run(w', es), between).store, L.First(L.Run(w', es).store), q);
  }

  /** A row whose domain has a text keeps one. */
  lemma {:induction false} TextStays(w: L.World, es: seq<L.Event>)
    requires L.Copies(w) && L.Possible(w, es) && L.First(w.store).Some?
    requires w.store.domains[L.First(w.store).value.domain].txt.Some?
    ensures var s := L.Run(w, es).store;
            && L.First(s).Some? && L.First(s).value.domain in s.domains
            && s.domains[L.First(s).value.domain].txt.Some?
  {
    Timing.RunKeepsAccounts(w, es);
    Timing.RunKeepsIdentity(w, es);
  }

  /** The label of challenge queries, as text. */
  lemma {:induction false} ChallengeLabel()
    ensures |ACME_CHALLENGE| == |"_acme-challenge"|
    ensures forall i :: 0 <= i < |ACME_CHALLENGE| ==> ACME_CHALLENGE[i] as char == "_acme-challenge"[i]
  {
  }

  /** A configured set of the type asked for is the answer, whatever the store holds and whoever asks. */
  lemma {:induction false} ConfiguredIsServed(a: Authority, q: Query, s: Store, first: Option<Cert>)
    requires q.queryType != SOA && q.name != [] && q.name in a.records && q.queryType in a.records[q.name]
    ensures Search(a, s, first, q) == Records(a.records[q.name][q.queryType])
  {
  }

  /** An address query for an alias is answered with exactly the IPv4 addresses of the alias's target,
      each once, or falls through to the store when the target has none or cannot be resolved. */
  lemma {:induction false} AliasIsResolved(a: Authority, q: Query, s: Store, first: Option<Cert>, target: Name, more: seq<RData>)
    requires q.queryType == A && q.name != [] && q.name in a.records && A !in a.records[q.name]
    requires CNAME in a.records[q.name] && a.records[q.name][CNAME].records == [CnameData(target)] + more
    ensures a.resolve(target).Some? && (exists ip :: V4(ip) in a.resolve(target).value) ==>
              && Search(a, s, first, q).Records?
              && var r := Search(a, s, first, q).answer;
                 && r.name == a.records[q.name][CNAME].name && r.recordType == A && r.ttl == 0
                 && (forall d :: d in r.records ==> d.AData?)
                 && (forall ip :: AData(ip) in r.records <==> V4(ip) in a.resolve(target).value)
                 && (forall i, j :: 0 <= i < j < |r.records| ==> r.records[i] != r.records[j])
    ensures a.resolve(target) == None || (forall ip :: V4(ip) !in a.resolve(target).value) ==> AsksStore(a, q)
  {
    if a.resolve(target).Some? {
      var hosts := a.resolve(target).value;
      V4RecordsExact(hosts, []);
      forall ip ensures AData(ip) in V4Records(hosts) <==> V4(ip) in hosts { V4RecordsExact(hosts, ip); }
      if V4Records(hosts) != [] {
        assert V4Records(hosts)[0] in V4Records(hosts);
        assert V4(V4Records(hosts)[0].octets) in hosts;
      }
    }
  }

  /** Distinct IPv4 hosts are answered in the resolver's order. */
  lemma {:induction false} V4RecordsInOrder(hosts: seq<Ip>)
    requires forall i :: 0 <= i < |hosts| ==> hosts[i].V4?
    requires forall i, j :: 0 <= i < j < |hosts| ==> hosts[i] != hosts[j]
    ensures |V4Records(hosts)| == |hosts|
    ensures forall i :: 0 <= i < |hosts| ==> V4Records(hosts)[i] == AData(hosts[i].octets)
    decreases |hosts|
  {
    if hosts != [] {
      var before, last := hosts[..|hosts| - 1], hosts[|hosts| - 1];
      V4RecordsInOrder(before);
      V4RecordsExact(before, last.octets);
    }
  }

  /** The configuration has nothing for this query: no set of its type, and no alias or not an address query. */
  lemma {:induction false} UnconfiguredAsksStore(a: Authority, q: Query)
    requires q.queryType != SOA && q.name != []
    requires q.name !in a.records || (q.queryType !in a.records[q.name] && (q.queryType != A || CNAME !in a.records[q.name]))
    ensures AsksStore(a, q)
  {
  }

  /** Queries that reach no name: the zone record for every name, nothing for the empty name, and an
      error for a first label that is neither the challenge nor UTF-8. */
  lemma {:induction false} SearchWithoutName(a: Authority, q: Query, s: Store, first: Option<Cert>)
    ensures Search(a, s, first, q) == SoaRecord <==> q.queryType == SOA
    ensures q.queryType != SOA && q.name == [] ==> Search(a, s, first, q) == Empty
    ensures AsksStore(a, q) && q.name[0] != ACME_CHALLENGE && a.utf8(q.name[0]) == None ==>
              Search(a, s, first, q) == ServerFailure
  {
  }

  /** A panic or an error over any store, a row without its domain included: a panic iff the certificate's
      domain has no text yet, an error iff the challenge has no row or no domain, or the label is no UTF-8. */
  lemma {:induction false} SearchFailsExactly(a: Authority, q: Query, s: Store, first: Option<Cert>)
    ensures Search(a, s, first, q) == HandlerPanic <==>
              && AsksStore(a, q) && q.name[0] == ACME_CHALLENGE && first.Some?
              && first.value.domain in s.domains && s.domains[first.value.domain].txt == None
    ensures Search(a, s, first, q) == ServerFailure <==>
              && AsksStore(a, q)
              && if q.name[0] == ACME_CHALLENGE then first.Some? ==> first.value.domain !in s.domains
                 else a.utf8(q.name[0]) == None
  {
  }

  /** Every configured set sits under its own name and type, as the configuration loader files it. */
  ghost predicate WellFiled(a: Authority) {
    forall n, t :: n in a.records && t in a.records[n] ==> a.records[n][t].name == n && a.records[n][t].recordType == t
  }

  /** A preconfigured hit has the name and the type asked for, aliases included, and decides the
      answer whatever the store holds. */
  lemma {:induction false} PreconfiguredWins(a: Authority, q: Query, s: Store, first: Option<Cert>)
    requires WellFiled(a) && q.queryType != SOA && LookupPre(a, q).Found? && q.name != []
    ensures Search(a, s, first, q).Records?
    ensures var r := Search(a, s, first, q).answer;
            && r.name == q.name && r.recordType == q.queryType
            && (q.queryType !in a.records[q.name] ==> q.queryType == A && r.records != [] && forall d :: d in r.records ==> d.AData?)
  {
    assert q.name in a.records;
    var byType := a.records[q.name];
    if q.queryType !in byType {
      assert CNAME in byType;
      var hosts := a.resolve(byType[CNAME].records[0].name).value;
      V4RecordsExact(hosts, []);
    }
  }

  /** In every run from the empty store, a query by the id of a domain other than the certificate's
      never sees a text: it is answered empty when the domain exists and not found otherwise. */
  lemma {:induction false} OtherDomainsAnswerEmpty(a: Authority, es: seq<L.Event>, q: Query, id: string)
    requires L.Possible(L.EMPTY, es) && AsksStore(a, q)
    requires q.name[0] != ACME_CHALLENGE && a.utf8(q.name[0]) == Some(id)
    requires var row := L.First(L.Run(L.EMPTY, es).store); row.Some? ==> id != row.value.domain
    ensures var s := L.Run(L.EMPTY, es).store;
            Search(a, s, L.First(s), q) == if id in s.domains then Empty else NotFound
  {
    Timing.RegisteredDomainsStayEmpty(es);
  }
}
