/** The in-memory facade (src/facade): one mutex-held pair of maps whose methods
    each run as one atomic step. Every method is specified by a function on `Store`. */
module Facade {
  import opened Util

  datatype State = Ok | Updating

  datatype Cert = Cert(
    id: string,
    update: i64,
    state: State,
    cert: Option<string>,
    private: Option<string>,
    domain: string)

  datatype Domain = Domain(id: string, username: string, password: string, txt: Option<string>)

  datatype Store = Store(certs: map<string, Cert>, domains: map<string, Domain>)

  /** What `start_cert` gives its caller; `Failed` is the error of `Domain::new`. */
  datatype StartResult = Granted(cert: Cert) | Busy | Failed

  /** `Panicked` is the failed `unwrap` in `update_cert`. */
  datatype StopResult = Stopped | Stale | Panicked

  /** Equality of certificates as the source defines it: lease fields do not count. */
  predicate SameCert(a: Cert, b: Cert) {
    a.id == b.id && a.cert == b.cert && a.private == b.private
  }

  function NewCert(domain: Domain, id: string, now: u64): Cert {
    Cert(id, ToI64(now), Updating, None, None, domain.id)
  }

  /** `first` is a possible result of `values().next()`, whose order is unspecified. */
  ghost predicate IsFirst(s: Store, first: Option<Cert>) {
    match first
    case None => s.certs == map[]
    case Some(c) => c in s.certs.Values
  }

  /** The lease a start takes on an existing row, if it takes one. */
  function TakeLease(row: Cert, now: u64): Option<Cert> {
    if row.state == Ok then Some(row.(state := Updating))
    else if row.update < OneHourAgo(ToI64(now)) then Some(row.(update := ToI64(now), state := Updating))
    else None
  }

  function Started(s: Store, first: Option<Cert>, now: u64, minted: Option<Domain>, id: string): (Store, StartResult) {
    match first
    case Some(row) =>
      (match TakeLease(row, now)
       case Some(c) => (s.(certs := s.certs[c.id := c]), Granted(c))
       case None => (s, Busy))
    case None =>
      (match minted
       case Some(d) =>
         var c := NewCert(d, id, now);
         (Store(s.certs[c.id := c], s.domains[d.id := d]), Granted(c))
       case None => (s, Failed))
  }

  function StopOutcome(s: Store, first: Option<Cert>, memory: Cert): StopResult {
    if first.Some? && first.value.state == Updating && first.value.update == memory.update then
      if memory.id in s.certs then Stopped else Panicked
    else
      Stale
  }

  /** The store after a stop; only a stop that reaches `Stopped` writes. */
  function AfterStop(s: Store, first: Option<Cert>, memory: Cert): Store {
    if StopOutcome(s, first, memory) == Stopped then s.(certs := s.certs[memory.id := memory.(state := Ok)]) else s
  }

  /** The single mutable object all workers, listeners and DNS handlers share. */
  class InMemoryFacade {
    var certs: map<string, Cert>
    var domains: map<string, Domain>

    ghost predicate Valid()
      reads this
    {
      && (forall k :: k in certs ==> certs[k].id == k)
      && (forall k :: k in domains ==> domains[k].id == k)
    }

    function Contents(): Store
      reads this
    {
      Store(certs, domains)
    }

    constructor ()
      ensures Valid() && Contents() == Store(map[], map[])
    {
      certs, domains := map[], map[];
    }

    method FirstCert() returns (first: Option<Cert>)
      ensures IsFirst(Contents(), first)
    {
      if certs == map[] {
        first := None;
      } else {
        assert certs.Keys != {};
        var k :| k in certs;
        first := Some(certs[k]);
      }
    }

    /** Overwrites the row of the same id; `ok` is false when the `unwrap` would panic. */
    method UpdateCert(cert: Cert) returns (ok: bool)
      requires Valid()
      modifies this`certs
      ensures Valid()
      ensures ok <==> cert.id in old(certs)
      ensures certs == if ok then old(certs)[cert.id := cert] else old(certs)
    {
      ok := cert.id in certs;
      if ok { certs := certs[cert.id := cert]; }
    }

    method CreateCert(cert: Cert)
      requires Valid()
      modifies this`certs
      ensures Valid()
      ensures certs == old(certs)[cert.id := cert]
    {
      certs := certs[cert.id := cert];
    }

    method FindDomainById(id: string) returns (domain: Option<Domain>)
      ensures domain == if id in domains then Some(domains[id]) else None
    {
      if id in domains { domain := Some(domains[id]); } else { domain := None; }
    }

    method CreateDomain(domain: Domain)
      requires Valid()
      modifies this`domains
      ensures Valid()
      ensures domains == old(domains)[domain.id := domain]
    {
      domains := domains[domain.id := domain];
    }

    method UpdateDomain(domain: Domain) returns (ok: bool)
      requires Valid()
      modifies this`domains
      ensures Valid()
      ensures ok <==> domain.id in old(domains)
      ensures domains == if ok then old(domains)[domain.id := domain] else old(domains)
    {
      ok := domain.id in domains;
      if ok { domains := domains[domain.id := domain]; }
    }

    /** `minted` is the outcome of `Domain::new` and `id` the fresh certificate id. */
    method StartCert(now: u64, minted: Option<Domain>, id: string) returns (r: StartResult, ghost first: Option<Cert>)
      requires Valid()
      modifies this
      ensures Valid()
      ensures IsFirst(old(Contents()), first)
      ensures (Contents(), r) == Started(old(Contents()), first, now, minted, id)
      ensures first == None ==> r == if minted == None then Failed
                                     else Granted(Cert(id, ToI64(now), Updating, None, None, minted.value.id))
      ensures first.Some? && first.value.state == Ok ==> r == Granted(first.value.(state := Updating))
      ensures first.Some? && first.value.state == Updating ==>
                r == if first.value.update < OneHourAgo(ToI64(now))
                     then Granted(first.value.(update := ToI64(now), state := Updating)) else Busy
      ensures certs == if r.Granted? then old(certs)[r.cert.id := r.cert] else old(certs)
      ensures domains == if first == None && minted.Some? then old(domains)[minted.value.id := minted.value]
                         else old(domains)
    {
      var found := FirstCert();
      first := found;
      match found {
        case Some(cert) =>
          var stamp := ToI64(now);
          if cert.state == Ok {
            var leased := cert.(state := Updating);
            var ok := UpdateCert(leased);
            r := Granted(leased);
          } else if cert.update < OneHourAgo(stamp) {
            var leased := cert.(update := stamp, state := Updating);
            var ok := UpdateCert(leased);
            r := Granted(leased);
          } else {
            r := Busy;
          }
        case None =>
          if minted == None {
            r := Failed;
          } else {
            var cert := NewCert(minted.value, id, now);
            CreateDomain(minted.value);
            CreateCert(cert);
            r := Granted(cert);
          }
      }
    }

    method StopCert(memory: Cert) returns (memory': Cert, r: StopResult, ghost first: Option<Cert>)
      requires Valid()
      modifies this`certs
      ensures Valid()
      ensures IsFirst(old(Contents()), first)
      ensures r == StopOutcome(old(Contents()), first, memory)
      ensures Contents() == AfterStop(old(Contents()), first, memory)
      ensures r == Stale <==> !(first.Some? && first.value.state == Updating && first.value.update == memory.update)
      ensures r != Stale ==> (r == Stopped <==> memory.id in old(certs))
      ensures certs == if r == Stopped then old(certs)[memory.id := memory.(state := Ok)] else old(certs)
      ensures memory' == if r == Stale then memory else memory.(state := Ok)
    {
      memory' := memory;
      var found := FirstCert();
      first := found;
      if found.Some? && found.value.state == Updating && found.value.update == memory.update {
        memory' := memory.(state := Ok);
        var ok := UpdateCert(memory');
        r := if ok then Stopped else Panicked;
      } else {
        r := Stale;
      }
    }
  }
}
