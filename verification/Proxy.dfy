/** PROXY protocol header stripping (src/api/proxy.rs). The header parser and the arrival of
    bytes are parameters; one poll is one step. */
module Proxy {
  import opened Util

  type pos = x: int | 1 <= x witness 1

  datatype SocketAddr = SocketV4(ip: seq<byte>, port: nat) | SocketV6(ip: seq<byte>, port: nat)

  datatype Addresses =
    | IPv4(source: seq<byte>, port: Option<nat>)
    | IPv6(source: seq<byte>, port: Option<nat>)
    | OtherAddress

  datatype Parse = Incomplete | Failure | Header(remaining: seq<byte>, addresses: Addresses)

  /** A header parser; what it leaves over is no longer than what it was given. */
  type Parser = p: seq<byte> -> Parse | forall x :: p(x).Header? ==> |p(x).remaining| <= |x|
    witness (x: seq<byte>) => Incomplete

  datatype ErrorKind = InvalidData | UnexpectedEof | Other | Io

  datatype RealAddr = Address(addr: Option<SocketAddr>) | Error(kind: ErrorKind)

  datatype Poll<+T> = Pending | Ready(value: T)

  /** What the inner stream answers to one read: nothing yet, an error, or up to n bytes. */
  datatype Arrival = NotReady | Broken | Arrived(n: pos)

  function Min(a: nat, b: nat): nat { if a <= b then a else b }

  /** `format_header` */
  function FormatHeader(a: Addresses): RealAddr {
    match a
    case IPv4(source, port) => Address(Some(SocketV4(source, if port.Some? then port.value else 0)))
    case IPv6(source, port) => Address(Some(SocketV6(source, if port.Some? then port.value else 0)))
    case OtherAddress => Error(Other)
  }

  /** A connection: bytes not yet read from the inner stream, and the two fields of `ProxyStream`. */
  datatype Conn = Conn(incoming: seq<byte>, data: Option<seq<byte>>, start: nat) {
    ghost predicate Valid() {
      data.Some? ==> start <= |data.value|
    }

    /** Buffered bytes the reader has yet to receive. */
    function Leftover(): seq<byte>
      requires Valid()
    {
      if data.Some? then data.value[start..] else []
    }

    /** Everything the reader has yet to receive. */
    function Owed(): seq<byte>
      requires Valid()
    {
      Leftover() + incoming
    }
  }

  /** `source` */
  function Source(incoming: seq<byte>, enabled: bool): Conn {
    Conn(incoming, if enabled then Some([]) else None, 0)
  }

  /** What `get_header` concludes from the bytes so far: the future's result and `start_of_data`. */
  function Conclusion(parse: Parser, x: seq<byte>): Option<(RealAddr, nat)> {
    match parse(x)
    case Incomplete => None
    case Failure => Some((Error(InvalidData), 0))
    case Header(remaining, addresses) => Some((FormatHeader(addresses), |x| - |remaining|))
  }

  /** One poll of the address future. */
  function PollAddr(parse: Parser, c: Conn, a: Arrival): (Conn, Poll<RealAddr>)
    requires c.data.Some? ==> c.start == 0
  {
    if c.data == None then (c, Ready(Address(None)))
    else
      match a
      case NotReady => (c, Pending)
      case Broken => (c, Ready(Error(Io)))
      case Arrived(n) =>
        if c.incoming == [] then (c, Ready(Error(UnexpectedEof)))
        else
          var k := Min(n, |c.incoming|);
          var d := c.data.value + c.incoming[..k];
          match Conclusion(parse, d)
          case None => (Conn(c.incoming[k..], Some(d), 0), Pending)
          case Some((addr, start)) => (Conn(c.incoming[k..], Some(d), start), Ready(addr))
  }

  /** Polling until the future is ready; still pending when the arrivals run out. */
  function Await(parse: Parser, c: Conn, arrivals: seq<Arrival>): (Conn, Poll<RealAddr>)
    requires c.data.Some? ==> c.start == 0
    decreases |arrivals|
  {
    if c.data == None then (c, Ready(Address(None)))
    else if arrivals == [] then (c, Pending)
    else
      var (c', p) := PollAddr(parse, c, arrivals[0]);
      if p == Pending then Await(parse, c', arrivals[1..]) else (c', p)
  }

  /** One read through the stream. `Overrun` is the panic of `put_slice`. */
  datatype ReadResult = ReadPending | ReadError | Filled(bytes: seq<byte>) | Overrun

  function ReadOnce(c: Conn, capacity: nat, a: Arrival): (Conn, ReadResult)
    requires c.Valid()
  {
    var left := c.Leftover();
    var c' := c.(data := None);
    if |left| > capacity then (c', Overrun)
    else
      match a
      case NotReady => (c', ReadPending)
      case Broken => (c', ReadError)
      case Arrived(n) =>
        var k := Min(n, Min(capacity - |left|, |c.incoming|));
        (c'.(incoming := c.incoming[k..]), Filled(left + c.incoming[..k]))
  }

  class ProxyStream {
    var incoming: seq<byte>
    var data: Option<seq<byte>>
    var startOfData: nat

    function State(): Conn
      reads this
    {
      Conn(incoming, data, startOfData)
    }

    constructor (bytes: seq<byte>, enabled: bool)
      ensures State() == Source(bytes, enabled)
    {
      incoming, startOfData := bytes, 0;
      data := if enabled then Some([]) else None;
    }

    method GetHeader(parse: Parser) returns (p: Poll<RealAddr>)
      requires data.Some?
      modifies this`startOfData
      ensures match Conclusion(parse, data.value)
              case None => p == Pending && startOfData == old(startOfData)
              case Some((addr, start)) =>
                p == Ready(addr) && startOfData == (if parse(data.value).Header? then start else old(startOfData))
    {
      match parse(data.value) {
        case Incomplete => p := Pending;
        case Failure => p := Ready(Error(InvalidData));
        case Header(remaining, addresses) =>
          startOfData := |data.value| - |remaining|;
          p := Ready(FormatHeader(addresses));
      }
    }

    /** One poll of the future: appends what arrived to the buffer, then tries the parser. */
    method PollRealAddr(parse: Parser, a: Arrival) returns (p: Poll<RealAddr>)
      requires data.Some? ==> startOfData == 0
      modifies this
      ensures (State(), p) == PollAddr(parse, old(State()), a)
    {
      if data == None { return Ready(Address(None)); }
      match a {
        case NotReady => p := Pending;
        case Broken => p := Ready(Error(Io));
        case Arrived(n) =>
          if incoming == [] { return Ready(Error(UnexpectedEof)); }
          var k := Min(n, |incoming|);
          data, incoming := Some(data.value + incoming[..k]), incoming[k..];
          p := GetHeader(parse);
      }
    }

    /** `conn.real_addr().await`: polls in turn until ready. */
    method AwaitRealAddr(parse: Parser, arrivals: seq<Arrival>) returns (p: Poll<RealAddr>)
      requires data.Some? ==> startOfData == 0
      modifies this
      ensures (State(), p) == Await(parse, old(State()), arrivals)
    {
      if data == None { return Ready(Address(None)); }
      p := Pending;
      var i := 0;
      while i < |arrivals| && p == Pending
        invariant 0 <= i <= |arrivals|
        invariant data.Some?
        invariant p == Pending ==> startOfData == 0
        invariant p == Pending ==> Await(parse, old(State()), arrivals) == Await(parse, State(), arrivals[i..])
        invariant p != Pending ==> Await(parse, old(State()), arrivals) == (State(), p)
      {
        ghost var tail := arrivals[i..];
        assert tail[0] == arrivals[i] && tail[1..] == arrivals[i + 1..];
        p := PollRealAddr(parse, arrivals[i]);
        i := i + 1;
      }
    }

    /** `poll_read`: hands over the buffered rest once, then reads on from the inner stream. */
    method PollRead(capacity: nat, a: Arrival) returns (r: ReadResult)
      requires State().Valid()
      modifies this
      ensures (State(), r) == ReadOnce(old(State()), capacity, a)
    {
      var buf: seq<byte> := [];
      if data.Some? {
        var taken := data.value;
        data := None;
        if |taken[startOfData..]| > capacity { return Overrun; }
        buf := taken[startOfData..];
      }
      match a {
        case NotReady => r := ReadPending;
        case Broken => r := ReadError;
        case Arrived(n) =>
          var k := Min(n, Min(capacity - |buf|, |incoming|));
          r := Filled(buf + incoming[..k]);
          incoming := incoming[k..];
      }
    }
  }

  // ----- the header does not depend on how the bytes arrive ---------------------------------

  /** Once the parser has concluded on some bytes, more bytes do not change its mind. */
  ghost predicate PrefixStable(parse: Parser) {
    forall x, y :: x != [] && Conclusion(parse, x).Some? ==> Conclusion(parse, x + y) == Conclusion(parse, x)
  }

  /** What the whole input amounts to, read off in one piece. */
  function Verdict(parse: Parser, s: seq<byte>): (RealAddr, nat) {
    if s == [] || Conclusion(parse, s) == None then (Error(UnexpectedEof), 0) else Conclusion(parse, s).value
  }

  /** Awaiting never drops, adds or reorders a byte, and marks only what a parser consumed. */
  lemma {:induction false} AwaitKeepsBytes(parse: Parser, c: Conn, arrivals: seq<Arrival>)
    requires c.data.Some? && c.start == 0
    ensures var (c', p) := Await(parse, c, arrivals);
            && c'.Valid() && c'.data.Some?
            && c'.data.value + c'.incoming == c.data.value + c.incoming
            && (p in {Pending, Ready(Error(InvalidData)), Ready(Error(UnexpectedEof)), Ready(Error(Io))} ==> c'.start == 0)
    decreases |arrivals|
  {
    if arrivals != [] {
      var (c', p) := PollAddr(parse, c, arrivals[0]);
      assert c'.data.value + c'.incoming == c.data.value + c.incoming by {
        if arrivals[0].Arrived? && c.incoming != [] {
          var k := Min(arrivals[0].n, |c.incoming|);
          assert c.incoming == c.incoming[..k] + c.incoming[k..];
        }
      }
      if p == Pending { AwaitKeepsBytes(parse, c', arrivals[1..]); }
    }
  }

  lemma {:induction false} AwaitReachesVerdict(parse: Parser, s: seq<byte>, c: Conn, arrivals: seq<Arrival>)
    requires PrefixStable(parse) && Broken !in arrivals
    requires c.data.Some? && c.start == 0 && c.data.value + c.incoming == s
    requires c.data.value == [] || Conclusion(parse, c.data.value) == None
    ensures var (c', p) := Await(parse, c, arrivals);
            p.Ready? ==> (p.value, c'.start) == Verdict(parse, s)
    decreases |arrivals|
  {
    if arrivals != [] && arrivals[0] != NotReady {
      assert arrivals[0] in arrivals;
      if c.incoming == [] {
        assert s == c.data.value;
      } else {
        var k := Min(arrivals[0].n, |c.incoming|);
        var d, rest := c.data.value + c.incoming[..k], c.incoming[k..];
        assert c.incoming == c.incoming[..k] + rest;
        assert d + rest == s;
        if Conclusion(parse, d) == None { AwaitReachesVerdict(parse, s, Conn(rest, Some(d), 0), arrivals[1..]); }
      }
    } else if arrivals != [] {
      AwaitReachesVerdict(parse, s, c, arrivals[1..]);
    }
  }

  /** Number of arrivals that carry bytes or the end of the stream. */
  function Answers(arrivals: seq<Arrival>): nat {
    if arrivals == [] then 0 else (if arrivals[0] == NotReady then 0 else 1) + Answers(arrivals[1..])
  }

  /** The future is ready at the latest once the inner stream has been read to its end. */
  lemma {:induction false} AwaitCompletes(parse: Parser, c: Conn, arrivals: seq<Arrival>)
    requires c.data.Some? && c.start == 0
    requires Answers(arrivals) > |c.incoming|
    ensures Await(parse, c, arrivals).1.Ready?
    decreases |arrivals|
  {
    var (c', p) := PollAddr(parse, c, arrivals[0]);
    if p == Pending { AwaitCompletes(parse, c', arrivals[1..]); }
  }

  lemma {:induction false} OwedIsSuffix(c: Conn, s: seq<byte>)
    requires c.Valid() && c.data.Some? && c.data.value + c.incoming == s
    ensures c.start <= |s| && c.Owed() == s[c.start..]
  {
  }

  /** For a prefix-stable parser every way of cutting the input gives the same address and the
      same `start_of_data`, and what is owed to the reader is exactly what follows the header. */
  lemma {:induction false} HeaderStripping(parse: Parser, s: seq<byte>, arrivals: seq<Arrival>)
    requires PrefixStable(parse) && Broken !in arrivals
    ensures var (c, p) := Await(parse, Source(s, true), arrivals);
            p.Ready? ==> && (p.value, c.start) == Verdict(parse, s)
                         && c.Valid() && c.start <= |s| && c.Owed() == s[c.start..]
    ensures Answers(arrivals) > |s| ==> Await(parse, Source(s, true), arrivals).1.Ready?
  {
    var src := Source(s, true);
    assert src.data.value + src.incoming == s;
    AwaitReachesVerdict(parse, s, src, arrivals);
    AwaitKeepsBytes(parse, src, arrivals);
    OwedIsSuffix(Await(parse, src, arrivals).0, s);
    if Answers(arrivals) > |s| { AwaitCompletes(parse, src, arrivals); }
  }

  /** Which address is found, for any prefix-stable parser and any cutting, and where the payload
      starts: the header's own source address and port, 0 for an absent port. An accepted header
      without an IP address is an error, yet stripped; a rejected or unfinished one is kept. */
  lemma {:induction false} AddressFound(parse: Parser, s: seq<byte>, arrivals: seq<Arrival>)
    requires PrefixStable(parse) && Completes(parse, s, arrivals)
    ensures Observed(parse, s, arrivals) ==
            if s == [] then (Ready(Error(UnexpectedEof)), 0)
            else
              match parse(s)
              case Incomplete => (Ready(Error(UnexpectedEof)), 0)
              case Failure => (Ready(Error(InvalidData)), 0)
              case Header(rest, IPv4(source, Some(port))) => (Ready(Address(Some(SocketV4(source, port)))), |s| - |rest|)
              case Header(rest, IPv4(source, None)) => (Ready(Address(Some(SocketV4(source, 0)))), |s| - |rest|)
              case Header(rest, IPv6(source, Some(port))) => (Ready(Address(Some(SocketV6(source, port)))), |s| - |rest|)
              case Header(rest, IPv6(source, None)) => (Ready(Address(Some(SocketV6(source, 0)))), |s| - |rest|)
              case Header(rest, OtherAddress) => (Ready(Error(Other)), |s| - |rest|)
  {
    HeaderStripping(parse, s, arrivals);
  }

  /** A poll waits exactly while the inner stream has nothing or the parser wants more; an inner error
      is passed on with the buffer as it was; otherwise it takes in as much as has arrived. */
  lemma {:induction false} PollTakesWhatArrived(parse: Parser, c: Conn, a: Arrival)
    requires c.data.Some? && c.start == 0
    ensures a == NotReady ==> PollAddr(parse, c, a) == (c, Pending)
    ensures a == Broken ==> PollAddr(parse, c, a) == (c, Ready(Error(Io)))
    ensures a.Arrived? ==>
              var (c', p) := PollAddr(parse, c, a);
              && c'.data.Some? && c'.data.value + c'.incoming == c.data.value + c.incoming
              && |c.incoming| - |c'.incoming| == (if a.n <= |c.incoming| then a.n else |c.incoming|)
              && (p == Pending <==> c.incoming != [] && parse(c'.data.value) == Incomplete)
  {
    if a.Arrived? && c.incoming != [] {
      var k := Min(a.n, |c.incoming|);
      Rejoin(c.data.value, c.incoming, k);
    }
  }

  /** The inner stream never fails and the future gets ready. */
  ghost predicate Completes(parse: Parser, s: seq<byte>, arrivals: seq<Arrival>) {
    Broken !in arrivals && Await(parse, Source(s, true), arrivals).1.Ready?
  }

  /** The address and the offset of the first payload byte. */
  ghost function Observed(parse: Parser, s: seq<byte>, arrivals: seq<Arrival>): (Poll<RealAddr>, nat) {
    (Await(parse, Source(s, true), arrivals).1, Await(parse, Source(s, true), arrivals).0.start)
  }

  /** Two ways of cutting the same input that both complete agree. */
  ghost predicate ChunkingIrrelevant(parse: Parser) {
    forall s, a, b :: Completes(parse, s, a) && Completes(parse, s, b) ==> Observed(parse, s, a) == Observed(parse, s, b)
  }

  /** Prefix stability is exactly what header stripping asks of its parser. */
  lemma {:induction false} ChunkingIrrelevantExactly(parse: Parser)
    ensures ChunkingIrrelevant(parse) <==> PrefixStable(parse)
  {
    if PrefixStable(parse) {
      forall s, a, b | Completes(parse, s, a) && Completes(parse, s, b)
        ensures Observed(parse, s, a) == Observed(parse, s, b)
      {
        HeaderStripping(parse, s, a);
        HeaderStripping(parse, s, b);
      }
    } else {
      var x, y :| x != [] && Conclusion(parse, x).Some? && Conclusion(parse, x + y) != Conclusion(parse, x);
      var a, b := [Arrived(|x|)], [Arrived(|x + y|), Arrived(1)];
      OneChunk(parse, x, y, []);
      OneChunk(parse, x + y, [], [Arrived(1)]);
      assert x + y + [] == x + y;
      assert [Arrived(|x|)] + [] == a && [Arrived(|x + y|)] + [Arrived(1)] == b;
      assert Completes(parse, x + y, a) && Completes(parse, x + y, b);
      assert Observed(parse, x + y, a) != Observed(parse, x + y, b);
    }
  }

  lemma {:induction false} OneChunk(parse: Parser, x: seq<byte>, y: seq<byte>, more: seq<Arrival>)
    requires x != [] && (y != [] ==> Conclusion(parse, x).Some?) && more in {[], [Arrived(1)]}
    requires Conclusion(parse, x) == None ==> more != []
    ensures var (c, p) := Await(parse, Source(x + y, true), [Arrived(|x|)] + more);
            p.Ready? && (p.value, c.start) ==
                        (if Conclusion(parse, x).Some? then Conclusion(parse, x).value else (Error(UnexpectedEof), 0))
  {
    var all := [Arrived(|x|)] + more;
    assert all[0] == Arrived(|x|) && all[1..] == more;
    assert (x + y)[..|x|] == x && (x + y)[|x|..] == y && [] + x == x;
    if Conclusion(parse, x) == None {
      assert more[0] == Arrived(1);
      assert Await(parse, Conn(y, Some(x), 0), more) == PollAddr(parse, Conn(y, Some(x), 0), Arrived(1));
    }
  }

  /** Whatever the parser and the arrivals: when no header was accepted, or the protocol is
      disabled, the connection still owes the reader every byte from offset 0. */
  lemma {:induction false} FailureTransparency(parse: Parser, s: seq<byte>, enabled: bool, arrivals: seq<Arrival>)
    ensures var (c, p) := Await(parse, Source(s, enabled), arrivals);
            && c.Valid()
            && (!enabled || p == Pending || (p.value.Error? && p.value.kind != Other) ==> c.Owed() == s)
            && (!enabled ==> p == Ready(Address(None)))
  {
    var src := Source(s, enabled);
    if enabled {
      assert src.data.value + src.incoming == s;
      AwaitKeepsBytes(parse, src, arrivals);
    } else {
      assert src.Owed() == s;
    }
  }

  // ----- reading on -----------------------------------------------------------------------

  function Delivered(r: ReadResult): seq<byte> {
    if r.Filled? then r.bytes else []
  }

  /** A read keeps the books straight, except in precisely one situation: there is a buffered
      rest, and the buffer is too small for it or the inner stream is not ready. */
  lemma {:induction false} ReadConservesExactly(c: Conn, capacity: nat, a: Arrival)
    requires c.Valid()
    ensures var (c', r) := ReadOnce(c, capacity, a);
            c'.Valid() && c'.Leftover() == [] &&
            (Delivered(r) + c'.Owed() == c.Owed() <==> c.Leftover() == [] || (|c.Leftover()| <= capacity && a.Arrived?))
  {
    var (c', r) := ReadOnce(c, capacity, a);
    var left := c.Leftover();
    assert c'.Owed() == c'.incoming;
    if |left| <= capacity && a.Arrived? {
      var k := Min(a.n, Min(capacity - |left|, |c.incoming|));
      Rejoin(left, c.incoming, k);
    } else {
      assert Delivered(r) == [] && [] + c.incoming == c.incoming;
      assert |c.Owed()| == |left| + |c.incoming|;
      if left == [] { assert c.Owed() == c.incoming; }
    }
  }

  lemma {:induction false} Rejoin(left: seq<byte>, s: seq<byte>, k: nat)
    requires k <= |s|
    ensures left + s[..k] + s[k..] == left + s
  {
    assert s == s[..k] + s[k..];
  }

  /** The outcome of every read: a panic iff the buffered rest does not fit; otherwise it waits or fails
      with the inner stream, or fills the buffer with what is owed, as far as room and arrivals go. */
  lemma {:induction false} ReadOutcome(c: Conn, capacity: nat, a: Arrival)
    requires c.Valid()
    ensures var (c', r) := ReadOnce(c, capacity, a);
            var left := |c.Leftover()|;
            && c'.data == None
            && (r == Overrun <==> left > capacity)
            && (r == ReadPending <==> left <= capacity && a == NotReady)
            && (r == ReadError <==> left <= capacity && a == Broken)
            && (r.Filled? ==>
                  var room, arrived := capacity - left, |r.bytes| - left;
                  && r.bytes <= c.Owed()
                  && arrived <= a.n && arrived <= room && arrived <= |c.incoming|
                  && (arrived == a.n || arrived == room || arrived == |c.incoming|))
  {
  }

  /** Successive reads, each with its own buffer size and its own answer from the inner stream. */
  function ReadAll(c: Conn, plan: seq<(nat, Arrival)>): (Conn, seq<byte>)
    requires c.Valid()
    decreases |plan|
  {
    if plan == [] then (c, [])
    else
      var (c', r) := ReadOnce(c, plan[0].0, plan[0].1);
      var (end, bytes) := ReadAll(c', plan[1..]);
      (end, Delivered(r) + bytes)
  }

  /** The first of several reads has room for the buffered rest and finds the inner stream ready. */
  predicate FirstReadFits(c: Conn, plan: seq<(nat, Arrival)>)
    requires c.Valid()
  {
    c.Leftover() == [] || plan == [] || (|c.Leftover()| <= plan[0].0 && plan[0].1.Arrived?)
  }

  /** The reads together deliver what was owed, in order, however large the buffers and chunks are,
      if and only if the first one fits. */
  lemma {:induction false} ReadsDeliverExactly(c: Conn, plan: seq<(nat, Arrival)>)
    requires c.Valid()
    ensures var (end, bytes) := ReadAll(c, plan);
            end.Valid() && (bytes + end.Owed() == c.Owed() <==> FirstReadFits(c, plan))
    decreases |plan|
  {
    if plan == [] {
      assert [] + c.Owed() == c.Owed();
    } else {
      var (c', r) := ReadOnce(c, plan[0].0, plan[0].1);
      var (end, bytes) := ReadAll(c', plan[1..]);
      ReadConservesExactly(c, plan[0].0, plan[0].1);
      ReadsDeliverExactly(c', plan[1..]);
      Regroup(Delivered(r), bytes, end.Owed());
    }
  }

  /** The reads of a plan that have room and find the inner stream ready. */
  function ReadyReads(plan: seq<(nat, Arrival)>): nat {
    if plan == [] then 0 else (if plan[0].0 > 0 && plan[0].1.Arrived? then 1 else 0) + ReadyReads(plan[1..])
  }

  /** A ready read with room shortens what is owed, unless nothing is. */
  lemma {:induction false} ReadyReadProgresses(c: Conn, capacity: nat, a: Arrival)
    requires c.Valid() && (c.Leftover() == [] || |c.Leftover()| <= capacity)
    ensures var (c', _) := ReadOnce(c, capacity, a);
            && c'.Valid() && |c'.Owed()| <= |c.Owed()|
            && (capacity > 0 && a.Arrived? && c.Owed() != [] ==> |c'.Owed()| < |c.Owed()|)
  {
  }

  /** Reading on finishes: as many ready reads as there are bytes deliver them all. */
  lemma {:induction false} ReadsFinish(c: Conn, plan: seq<(nat, Arrival)>)
    requires c.Valid() && FirstReadFits(c, plan) && ReadyReads(plan) >= |c.Owed()|
    ensures var (end, bytes) := ReadAll(c, plan);
            end.Valid() && end.Owed() == [] && bytes == c.Owed()
    decreases |plan|
  {
    ReadsDeliverExactly(c, plan);
    ReadsDrain(c, plan);
    var (end, bytes) := ReadAll(c, plan);
    assert bytes + [] == bytes;
  }

  lemma {:induction false} ReadsDrain(c: Conn, plan: seq<(nat, Arrival)>)
    requires c.Valid() && FirstReadFits(c, plan) && ReadyReads(plan) >= |c.Owed()|
    ensures ReadAll(c, plan).0.Valid() && ReadAll(c, plan).0.Owed() == []
    decreases |plan|
  {
    if plan != [] {
      ReadConservesExactly(c, plan[0].0, plan[0].1);
      ReadyReadProgresses(c, plan[0].0, plan[0].1);
      ReadsDrain(ReadOnce(c, plan[0].0, plan[0].1).0, plan[1..]);
    }
  }

  lemma {:induction false} Regroup(a: seq<byte>, b: seq<byte>, c: seq<byte>)
    ensures a + b + c == a + (b + c)
  {
  }

  /** A read of a nonempty buffer that returns no byte means that nothing is owed any more. */
  lemma {:induction false} EmptyReadMeansEnd(c: Conn, capacity: nat, a: Arrival)
    requires c.Valid() && capacity > 0 && ReadOnce(c, capacity, a).1 == Filled([])
    ensures c.Owed() == []
  {
  }

  /** End to end: the connection that `wrap` hands on gives, over any reads, exactly the bytes after
      the header, if and only if the first read fits; as many ready reads as bytes deliver them all. */
  lemma {:induction false} StreamAfterHeader(parse: Parser, s: seq<byte>, arrivals: seq<Arrival>, plan: seq<(nat, Arrival)>)
    requires PrefixStable(parse) && Broken !in arrivals
    requires Await(parse, Source(s, true), arrivals).1.Ready?
    ensures var c := Await(parse, Source(s, true), arrivals).0;
            && c.Valid() && Verdict(parse, s).1 <= |s|
            && var (end, bytes) := ReadAll(c, plan);
               && end.Valid() && (bytes + end.Owed() == s[Verdict(parse, s).1..] <==> FirstReadFits(c, plan))
               && (FirstReadFits(c, plan) && ReadyReads(plan) >= |s| - Verdict(parse, s).1 ==>
                     bytes == s[Verdict(parse, s).1..] && end.Owed() == [])
  {
    HeaderStripping(parse, s, arrivals);
    var c := Await(parse, Source(s, true), arrivals).0;
    ReadsDeliverExactly(c, plan);
    if FirstReadFits(c, plan) && ReadyReads(plan) >= |c.Owed()| { ReadsFinish(c, plan); }
  }

  /** End to end for any parser: when no header was accepted, or the protocol is disabled, the reads
      replay the connection from its first byte, if and only if the first read fits; as many ready
      reads as bytes deliver them all. */
  lemma {:induction false} ReplayAfterFailure(
      parse: Parser, s: seq<byte>, enabled: bool, arrivals: seq<Arrival>, plan: seq<(nat, Arrival)>)
    requires var p := Await(parse, Source(s, enabled), arrivals).1;
             !enabled || p == Pending || (p.value.Error? && p.value.kind != Other)
    ensures var c := Await(parse, Source(s, enabled), arrivals).0;
            && c.Valid()
            && var (end, bytes) := ReadAll(c, plan);
               && end.Valid() && (bytes + end.Owed() == s <==> FirstReadFits(c, plan))
               && (FirstReadFits(c, plan) && ReadyReads(plan) >= |s| ==> bytes == s && end.Owed() == [])
    ensures !enabled ==> FirstReadFits(Source(s, enabled), plan)
  {
    FailureTransparency(parse, s, enabled, arrivals);
    var c := Await(parse, Source(s, enabled), arrivals).0;
    ReadsDeliverExactly(c, plan);
    if FirstReadFits(c, plan) && ReadyReads(plan) >= |s| { ReadsFinish(c, plan); }
  }

  /** The exception is real: header and first payload arrive together, the address is found, and the
      next read comes before more bytes do. It takes the payload out of the buffer and loses it. */
  lemma {:induction false} EarlyReadLosesPayload(parse: Parser, x: seq<byte>, payload: seq<byte>, a: Addresses, capacity: nat)
    requires parse(x + payload) == Header(payload, a) && x != [] && payload != []
    ensures var (c, p) := Await(parse, Source(x + payload, true), [Arrived(|x + payload|)]);
            && p == Ready(FormatHeader(a)) && c.Valid() && c.Owed() == payload
            && var (c', r) := ReadOnce(c, capacity, NotReady);
               Delivered(r) == [] && c'.Valid() && c'.Owed() == []
  {
    var s := x + payload;
    assert s[..|s|] == s && s[|s|..] == [] && [] + s == s;
    assert s[|x|..] == payload && payload + [] == payload;
  }
}
