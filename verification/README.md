# acme-dns-rust: a verified model

A Dafny model of the parts of acme-dns-rust that several tasks act on at once, and of its byte-level
stream code:

- **Renewal lease.** `Facade.dfy` is the in-memory facade as one mutable object whose methods are atomic
  (each call holds the mutex throughout), specified by functions on its contents. `Manager.dfy` is one pass
  of the certificate manager. `Lease.dfy` is the same protocol as a transition system: any number of
  workers, each between a start and a stop, crashing at any point, with arbitrary clock readings.
  `Fencing.dfy` and `Timing.dfy` hold what every run keeps, `Publications.dfy` who decides the published proof.
- **TLS cache.** `Tls.dfy`: the cached (certificate, configuration) pair, first one load at a time, then
  loads interleaved between fetch, compare, build and write. `Handshakes.dfy` joins whole loads with the
  lease, `Overlap.dfy` joins interleaved loads with it over the one store.
- **Streams.** `Proxy.dfy`: PROXY protocol header stripping over arbitrarily cut input, for any parser.
  `ProxyV2.dfy`: a version 2 codec (section 2.2 of the HAProxy PROXY protocol specification) that meets
  the hypothesis on the parser. `Metrics.dfy`: the zero-metrics line filter.
- **Users of the store.** `Authority.dfy`: DNS answers. `AcmePersist.dfy`: the ACME key-value table.

`dafny verify dfyconfig.toml` checks everything.

## Conventions

- Inputs the code does not compute are parameters: clock readings, generated ids and domains, what the ACME
  server, the resolver, the UTF-8 decoder, the key parsers of rustls and the header parser answer, and how
  many bytes arrive at each read. Generated domain ids are assumed not to be in use yet.
- Grants are numbered 1, 2, ... in the order `start_cert` hands them out. A worker stops at most once, as in
  `manage`. `manage` is modelled as written, although `spawn` currently skips it (src/cert.rs:60-63).
- `Reachable` worlds come from a store with at most one certificate and no workers by a run whose clock
  readings do not make `now - 3600` wrap. `Attainable` worlds come from any run, with any readings.
- `now - 3600` is taken on i64 and wraps, as in a release build. It wraps exactly for readings in
  [2^63, 2^63 + 3600) (`Util.OneHourAgoExact`), never for a reading below 2^63.
- A read's bytes reach the reader when the read is ready. What a read put into the caller's buffer before it
  answers pending or an error counts as not delivered, as for callers that start each poll with a fresh
  `ReadBuf`; a caller that keeps one `ReadBuf` across polls would still find those bytes in it.
- "Safe" readings are those outside that window. `now()` is the number of seconds since the Unix epoch, and
  the system time of every supported platform holds signed 64-bit seconds or less, so no real clock shows an
  unsafe reading: the hypothesis is met in practice (`Fencing.RealClocksAreFenced`).

## The exact domains

- **Clock readings.** The arithmetic is on u64 and i64, so the results about stamps have an exact domain.
  `Fencing.FencedExactly`: the fence holds for a set of readings if and only if none of them wraps;
  `Fencing.BrokenRun` is a run for each wrapping reading. This delimits the integer types; it is not a
  failure a clock can cause. A build with overflow checks panics there instead, before the store changes.
- **A first read can lose bytes.** `poll_read` takes the buffered rest before it knows that the caller's
  buffer is large enough and that the inner stream is ready. `Proxy.ReadConservesExactly` proves when a
  read keeps every byte: if and only if there is no buffered rest, or it fits and the inner read is ready.
  This one does occur: `Proxy.EarlyReadLosesPayload` and, for real version 2 bytes,
  `ProxyV2.V2EarlyReadLosesPayload` take a client that sends its header and its request in one piece and
  waits. The address is found, the next read finds the inner stream pending, and the request is gone.
- **Publications pass no fence.** `update_domain` writes the whole row without looking at stamp or state, so a
  holder whose lease was taken over can still overwrite the new holder's proof, with ordinary clocks
  (`Publications.StaleHolderOverwritesProof`). `Publications.LatestPublisherDecides`: when different grants
  publish different proofs, the text is a given grant's proof if and only if that grant published last.

The comment above the fallback in `load_cert` speaks of reusing the old configuration; the model follows the
code, which reads whatever configuration is cached at that later moment.

## Model

| member | source | states |
|---|---|---|
| Util.ToI64 | src/util.rs:9-11 | the signed word is congruent to the unsigned one modulo 2^64 |
| Util.ConversionsAreInverse | src/util.rs:9-14 | the two casts are bijections and each undoes the other |
| Util.OneHourAgoExact | src/facade/cert.rs:249-250 | the hour is subtracted exactly iff the reading lies outside the 3600 readings that wrap |
| Facade.InMemoryFacade.FirstCert | src/facade/cert.rs:201-203 | returns some row, and none iff there is none |
| Facade.InMemoryFacade.UpdateCert | src/facade/cert.rs:205-207 | replaces exactly the row of that id; without one the unwrap fails and nothing changes |
| Facade.InMemoryFacade.CreateCert | src/facade/cert.rs:209-211 | files the row under its id and touches no other |
| Facade.InMemoryFacade.FindDomainById | src/facade/domain.rs:133-137 | returns the stored domain iff there is one |
| Facade.InMemoryFacade.CreateDomain | src/facade/domain.rs:124-126 | files the domain under its id and touches no other |
| Facade.InMemoryFacade.UpdateDomain | src/facade/domain.rs:146-151 | replaces the whole domain row; without one the unwrap fails and nothing changes |
| Facade.InMemoryFacade.StartCert | src/facade/cert.rs:238-273 | new rows, new domains and outcome of a start, spelled out per branch: grant of an idle row, takeover, refusal, creation stamped with the reading, failure |
| Facade.InMemoryFacade.StopCert | src/facade/cert.rs:275-287 | new rows, outcome and worker copy of a stop, spelled out: written iff state and stamp match |
| Timing.GrantIsTheRow | src/facade/cert.rs:238-273 | what a start hands out is what the row has become; a start that is not granted changes nothing |
| Timing.CreationExactly | src/facade/cert.rs:38-47 | a first start makes an updating row without a pair, stamped with its own reading, for the domain it files |
| Manager.AwaitConfirmation | src/cert.rs:116-133 | the loop leaves the last published proof in the domain row and is confirmed iff every round was accepted |
| Manager.Validate | src/cert.rs:109-146 | the loop's effect on the domain row, and a certified copy iff every round and the order succeeded |
| Manager.Manage | src/cert.rs:78-107 | the store after one pass, and its result: idle iff refused, finished iff the job was granted, its domain is there and the order succeeded, an error in every other case, never a panic |
| Manager.PassEnds | src/cert.rs:78-104 | how a pass ends before its stop, in terms of the row, the reading and the order alone, and what copy it brings to the stop |
| Manager.ManageIsARun | src/cert.rs:78-107 | a granted pass has the same effect as its worker's events in the lease, so results about runs are results about manage |
| Lease.StepKeepsCopies | src/facade/cert.rs:200-287 | every step keeps: at most one row, filed under its id, with an existing domain, which every worker's copies name |
| Lease.RunKeepsCopies | src/facade/cert.rs:200-287 | the same over every run, whatever the clocks show |
| Lease.StepKeepsInv | src/facade/cert.rs:238-287 | every step with a safe reading keeps the fence: the latest live grant has the row's stamp and an updating row, older live grants smaller stamps |
| Lease.RunKeepsInv | src/facade/cert.rs:238-287 | the fence invariant holds throughout every run with safe readings |
| Fencing.StopVerdict | src/facade/cert.rs:275-287 | in every reachable world a stop writes iff its grant is the latest one handed out; a stale one changes nothing, and none panics |
| Fencing.RefinesEpochLease | src/facade/cert.rs:238-287 | every step of every run with safe readings is a step of a lease with a fresh epoch per grant, although an idle row's grant reuses its stamp |
| Fencing.StartStep | src/facade/cert.rs:242-270 | a start with a safe reading opens the next epoch iff it is granted and never changes the stored key pair |
| Fencing.FencedExactly | src/facade/cert.rs:248-261 | stops are fenced in all runs over a set of clock readings iff no reading in it wraps |
| Fencing.RealClocksAreFenced | src/util.rs:18-23 | any set of clock readings below 2^63 is fenced |
| Fencing.BrokenRun | src/facade/cert.rs:248-261 | for each wrapping reading, a run in which the first of two grants writes |
| Fencing.PairStep | src/facade/cert.rs:243-284 | only a stop that writes changes the stored pair, to what its worker carries |
| Fencing.KeyPairCoherence | src/cert.rs:135-145 | in every run the stored certificate and key are exactly the one order's pair of the last grant whose stop wrote, and absent iff no stop has written, so a pair is never lost or mixed |
| Timing.UpdateNeverDecreases | src/facade/cert.rs:248-261 | over safe readings the stored stamp never goes back, without any assumption that clocks are monotone |
| Timing.TakeoverGainsExactly | src/facade/cert.rs:249-253 | one takeover moves the stamp on by at least 3601 iff its reading does not wrap |
| Timing.TakeoverSpacing | src/facade/cert.rs:248-261 | any two takeovers of a run with safe readings are at least 3601 seconds apart per takeover between them |
| Timing.TakeoverBound | src/facade/cert.rs:248-261 | in a run with safe readings the last of k takeovers reads at least 3601 * (k - 1) more than the first |
| Timing.BusyExactly | src/facade/cert.rs:242-270 | a start with a safe reading is refused iff the row is updating and the reading is within 3600 of its stamp, so a crashed holder never blocks longer |
| Timing.LeaseWindow | src/facade/cert.rs:242-270 | with safe readings: after a creation or takeover stamped n, every start reading at most n + 3600 is refused until a stop has written |
| Timing.LeaseWindowExactly | src/facade/cert.rs:242-270 | after a creation or takeover at n, without a writing stop or another grant since, a start at a safe reading m is refused iff m is at most n + 3600 |
| Timing.RowSurvives | src/facade/cert.rs:243-284 | over a run with safe readings the row keeps id and domain, and without a writing stop also its pair and its updating state |
| Timing.AccountsNeverChange | src/facade/domain.rs:146-151 | stale whole-record writes never change a username or password, nor erase a text once present |
| Timing.RegisterFilesDomain | src/facade/domain.rs:139-144 | a registration files the domain as given and changes nothing else |
| Timing.WorkersNeverFail | src/facade/cert.rs:205-207 | in every run the unwraps succeed, the domain lookup of manage succeeds, and there is at most one row, which all workers hold |
| Timing.PublishPersists | src/cert.rs:127-129 | the row's domain carries a published proof until the next publication |
| Timing.RowTextIsLatestProof | src/cert.rs:127-129 | in every run from the empty store the text of the certificate's domain is exactly the proof published last |
| Publications.LatestPublisherDecides | src/cert.rs:127-129 | the text of the certificate's domain is a grant's proof iff that grant published last, be it the latest grant or not |
| Publications.StaleHolderOverwritesProof | src/facade/domain.rs:146-151 | a run with ordinary clocks in which an overtaken holder's publication replaces that of the latest grant |
| Timing.RegisteredDomainsStayEmpty | src/cert.rs:127-129 | in every run from the empty store only the certificate's domain ever has a text |
| Tls.Rustls.SameCertBuildsSame | src/facade/cert.rs:30-34 | certificates equal for the cache build the same configuration |
| Tls.Rustls.BuildsExactly | src/api/tls.rs:132-153 | a certificate builds iff its texts parse to a chain and a last key that are accepted together, and to exactly these |
| Tls.TlsCache.LoadCert | src/api/tls.rs:92-130 | the new pair and the returned configuration of one load |
| Tls.LoadedExactly | src/api/tls.rs:99-129 | after a load the pair is the fetched certificate with its own chain and key if it holds any, and otherwise as before |
| Tls.CacheRefinesUncached | src/api/tls.rs:99-129 | for every sequence of fetches the loads answer as a loader without cache: the last certificate that built, else the bare configuration |
| Tls.UndisturbedLoad | src/api/tls.rs:92-130 | the interleaved steps of one load, run without interruption, are the sequential load |
| Tls.CacheTransparency | src/api/tls.rs:92-153 | under every interleaving a load that fetched a certificate holding a chain and a key serves exactly these; no configuration but the bare one and those of fetched certificates is ever served; the pair stays coherent |
| Tls.StaleLoadsNeverRise | src/api/tls.rs:99-129 | once the stored certificate has settled, no load becomes stale |
| Tls.CacheConvergence | src/api/tls.rs:99-129 | after the stale loads drained, one completed load makes the cache hold the settled certificate, with its chain and key, for good |
| Handshakes.LeasesDoNotDisturbTls | src/api/tls.rs:99-111 | after a first load, nothing but a stop that writes changes the cached pair |
| Handshakes.StopReachesHandshake | src/api/tls.rs:99-129 | the load after the latest grant's stop presents the chain and key of that grant's pair |
| Overlap.QuietStepsSettle | src/facade/cert.rs:30-34 | whatever workers do without a writing stop, overlapping loads see a settled certificate |
| Overlap.RenewalReachesCache | src/api/tls.rs:92-130 | workers and overlapping loads on one store: after the latest grant's stop and once older loads drained, one completed load makes the cache serve that grant's chain and key for the rest of the run |
| Proxy.ProxyStream.constructor | src/api/proxy.rs:74-84 | an empty buffer iff the protocol is enabled, and offset 0 |
| Proxy.ProxyStream.GetHeader | src/api/proxy.rs:186-207 | result and offset from the parser's conclusion; the offset moves even when the address cannot be converted |
| Proxy.ProxyStream.PollRealAddr | src/api/proxy.rs:216-237 | new state and result of one poll, for every answer of the inner stream |
| Proxy.ProxyStream.AwaitRealAddr | src/api/proxy.rs:50-61 | polling in turn until ready |
| Proxy.ProxyStream.PollRead | src/api/proxy.rs:106-116 | new state and delivered bytes of one read, including the panic on a small buffer |
| Proxy.HeaderStripping | src/api/proxy.rs:186-237 | for a prefix-stable parser, address and offset do not depend on how the input is cut, exactly the bytes behind the header are owed, and the future completes at the end of the input |
| Proxy.AddressFound | src/api/proxy.rs:156-207 | for every cutting: the header's own source address and port, 0 for an absent port; an error for other addresses, rejected headers and early ends, each with its offset |
| Proxy.PollTakesWhatArrived | src/api/proxy.rs:216-237 | one poll waits, passes an inner error on, or takes in what has arrived, and stays pending iff the parser wants more |
| Proxy.ChunkingIrrelevantExactly | src/api/proxy.rs:186-237 | the cutting of the input is irrelevant iff the parser is prefix-stable |
| Proxy.FailureTransparency | src/api/proxy.rs:50-61 | for any parser: without an accepted header, or disabled, every byte from offset 0 is still owed |
| Proxy.ReplayAfterFailure | src/api/proxy.rs:35-64 | end to end, for any parser: such a connection's reads replay it from the first byte iff the first read fits, and as many ready reads as bytes replay it all |
| Proxy.ReadConservesExactly | src/api/proxy.rs:106-116 | a read loses no byte iff there is no buffered rest, or it fits and the inner read is ready |
| Proxy.ReadOutcome | src/api/proxy.rs:106-116 | panic, waiting, error or bytes of every read, and how many bytes |
| Proxy.EarlyReadLosesPayload | src/api/proxy.rs:106-116 | header and payload in one piece, then a read before more arrives: the payload is owed before and lost after |
| Proxy.ReadsDeliverExactly | src/api/proxy.rs:106-116 | all reads together deliver what was owed, in order, iff the first read fits |
| Proxy.ReadsFinish | src/api/proxy.rs:106-116 | if the first read fits, as many ready reads with room as bytes are owed deliver all of them |
| Proxy.EmptyReadMeansEnd | src/api/proxy.rs:106-116 | an empty read into a nonempty buffer means nothing is owed |
| Proxy.StreamAfterHeader | src/api/proxy.rs:35-64 | end to end: reads from the connection that was handed on give exactly the bytes after the header iff the first read fits, and as many ready reads as bytes give them all |
| ProxyV2.V2IsPrefixStable | src/api/proxy.rs:192-204 | a version 2 parser meets the hypothesis of header stripping |
| ProxyV2.DecodeEncode | src/api/proxy.rs:192-204 | decoding an encoded header followed by a payload gives back its source and that payload |
| ProxyV2.SampleHeader | src/api/proxy.rs:269-272 | the bytes of one header written out |
| ProxyV2.V2ConnectionStripped | src/api/proxy.rs:186-237 | however a version 2 connection arrives, the header's source address and port are found and the payload is what remains |
| ProxyV2.V2EarlyReadLosesPayload | src/api/proxy.rs:106-116 | the lost first payload for every version 2 header and payload |
| Metrics.RemoveZeroMetrics | src/api/metrics.rs:127-139 | the result is the concatenation of the lines that do not end in zero |
| Metrics.SuffixTestIsLocal | src/api/metrics.rs:135 | testing the end of the whole buffer equals testing the last line, when the buffer before was empty or ended a line |
| Metrics.ZeroLineInBytes | src/api/metrics.rs:135 | a line whose last bytes before the newline are a space and a 0 is dropped |
| Metrics.OtherLineInBytes | src/api/metrics.rs:135 | a line with any other ending is kept |
| Metrics.LastLineInBytes | src/api/metrics.rs:135 | the same for a last line without a newline |
| Metrics.LinesPartition | src/api/metrics.rs:130 | the lines concatenate to the data, have newlines only at their ends, and all but the last have one |
| Metrics.LinesOfKept | src/api/metrics.rs:127-139 | the lines of the result are the nonzero lines of the data, in order |
| Metrics.KeptDistributes | src/api/metrics.rs:127-139 | at a line boundary the filter distributes over concatenation |
| Metrics.KeptIsIdempotent | src/api/metrics.rs:127-139 | filtering twice is filtering once, and no zero line survives |
| Authority.LookupCname | src/dns/authority.rs:52-84 | the answer, the miss or the resolver's error of an alias lookup |
| Authority.V4RecordsExact | src/dns/authority.rs:69-76 | an alias is answered with exactly the IPv4 addresses of its target, none twice |
| Authority.V4RecordsInOrder | src/dns/authority.rs:69-76 | distinct addresses come in the resolver's order |
| Authority.ConfiguredIsServed | src/dns/authority.rs:94-103 | a configured set of the type asked for is the answer |
| Authority.AliasIsResolved | src/dns/authority.rs:52-107 | an address query for an alias is answered with exactly the IPv4 addresses of its target, or goes to the store if there are none |
| Authority.UnconfiguredAsksStore | src/dns/authority.rs:94-111 | without a set of the type, and without an alias for an address query, the store is asked |
| Authority.SearchWithoutName | src/dns/authority.rs:199-227 | the zone record for every name, nothing for the empty name, an error for a label that is not UTF-8 |
| Authority.SearchFailsExactly | src/dns/authority.rs:131-227 | over any store: a panic iff the certificate's domain has no text, an error iff the challenge has no row or domain, or another label is not UTF-8 |
| Authority.ChallengeLabel | src/dns/authority.rs:220 | the challenge label is the text `_acme-challenge` |
| Authority.PreconfiguredWins | src/dns/authority.rs:88-128 | a preconfigured hit has the name and type asked for, aliases serving address queries only, and wins over the store |
| Authority.TwoCallsAnswerAsOne | src/dns/authority.rs:131-140 | reading the row and later its domain, with anything in between, answers as the later moment does |
| Authority.PublishToAnswer | src/dns/authority.rs:131-243 | from a publication to the next, the challenge name and the domain id's name are answered with one TXT record holding exactly that proof, whenever the row was read (section 8.4 of RFC 8555) |
| Authority.ChallengeExactly | src/dns/authority.rs:131-148 | in every run, over both facade calls: an error iff there was no row, a panic iff there was one and no worker has published, otherwise the proof published last |
| Authority.NeverPanicsAfterPublish | src/dns/authority.rs:131-143 | after one publication no query panics any more, in any run and over both facade calls |
| Authority.OtherDomainsAnswerEmpty | src/dns/authority.rs:229-234 | other registered domains are answered empty and unknown ones not found, in every run |
| AcmePersist.AcmeTable.Put | src/acme.rs:55-82 | the rows after a put: all matching rows updated, or one inserted |
| AcmePersist.AcmeTable.Get | src/acme.rs:85-101 | some matching row's value, and none iff no row matches |
| AcmePersist.RowHasOneKey | src/acme.rs:27-33 | a row matches one key only: realm cast and kind names are injective |
| AcmePersist.ColumnsOfPut | src/acme.rs:27-33 | the column values a put writes for each kind |
| AcmePersist.PutThenGet | src/acme.rs:55-101 | even with duplicate rows a put decides every later get of its key and affects no other key |
| AcmePersist.TableRefinesMap | src/acme.rs:55-101 | after any puts each get has exactly one possible answer, that of a map, and no key has two rows |

## Left out

- Postgres facade: interleaved SQL transactions and isolation; its start and stop have the same branches, but the row is not locked.
- Public `create_cert` during a run: a second row breaks the single-certificate setting, so extra rows exist only in the class, not in runs.
- Exclusivity for an hour after the grant of an idle row: the code does not refresh the stamp there, so it does not hold.
- Wakers and scheduling: polls are explicit steps; an incomplete header returns pending without a waker, so nothing is said about being polled again.
- Capacity of the header buffer: an arrival may carry any positive number of bytes, which includes every split a 256-byte buffer causes.
- The real header parser (ppp): it is not part of this repository; the stream results hold for every prefix-stable parser.
- ACME orders, bcrypt, UUID generation, PEM parsing, rustls, the resolver: parameters.
- SQL errors and rollback of the ACME table: statements succeed one after the other.
- `BoxedLookupFuture` plumbing, SOA contents, DNSSEC flags, name folding: queries carry lower-cased labels.
- Socket serving, HTTP routes, counters, tracing, error downcasts, configuration loading, writes through the proxy stream.
