/** A binary PROXY protocol header (version 2, section 2.2 of the HAProxy PROXY protocol
    specification): a parser that meets the hypothesis of header stripping. */
module ProxyV2 {
  import opened Util
  import opened Proxy

  const SIGNATURE: seq<byte> := [0x0D, 0x0A, 0x0D, 0x0A, 0x00, 0x0D, 0x0A, 0x51, 0x55, 0x49, 0x54, 0x0A]

  function BigEndian(hi: byte, lo: byte): nat { hi * 256 + lo }

  /** The address block of a header whose family byte is `family`. */
  function ParseAddresses(family: byte, body: seq<byte>): Option<Addresses> {
    if family / 16 == 1 then
      if |body| < 12 then None else Some(IPv4(body[..4], Some(BigEndian(body[8], body[9]))))
    else if family / 16 == 2 then
      if |body| < 36 then None else Some(IPv6(body[..16], Some(BigEndian(body[32], body[33]))))
    else
      Some(OtherAddress)
  }

  /** The bytes so far agree with the signature. */
  predicate SignatureSoFar(x: seq<byte>) {
    forall i :: 0 <= i < |x| && i < |SIGNATURE| ==> x[i] == SIGNATURE[i]
  }

  function ParseV2(x: seq<byte>): Parse {
    if !SignatureSoFar(x) then Failure
    else if |x| < 16 then Incomplete
    else if x[12] / 16 != 2 || x[12] % 16 > 1 then Failure
    else
      var end := 16 + BigEndian(x[14], x[15]);
      if |x| < end then Incomplete
      else
        match ParseAddresses(x[13], x[16..end])
        case None => Failure
        case Some(a) => Header(x[end..], a)
  }

  const V2: Parser := x => ParseV2(x)

  lemma {:induction false} MoreBytesSameParse(x: seq<byte>, y: seq<byte>)
    requires ParseV2(x) != Incomplete
    ensures ParseV2(x + y) == match ParseV2(x) case Header(rest, a) => Header(rest + y, a) case other => other
  {
    var z := x + y;
    if !SignatureSoFar(x) {
      var i :| 0 <= i < |x| && i < |SIGNATURE| && x[i] != SIGNATURE[i];
      assert z[i] == x[i];
    } else {
      var end := 16 + BigEndian(x[14], x[15]);
      if end <= |x| { assert z[16..end] == x[16..end] && z[end..] == x[end..] + y; }
    }
  }

  /** The parser stands by its conclusions, so header stripping holds for it unconditionally. */
  lemma {:induction false} V2IsPrefixStable()
    ensures PrefixStable(V2)
  {
    forall x: seq<byte>, y: seq<byte> | x != [] && Conclusion(V2, x).Some?
      ensures Conclusion(V2, x + y) == Conclusion(V2, x)
    {
      MoreBytesSameParse(x, y);
    }
  }

  /** A TCP header over IPv4 or IPv6 with its optional extension bytes. */
  datatype HeaderV2 = HeaderV2(
    source: seq<byte>, destination: seq<byte>, sourcePort: nat, destinationPort: nat, extensions: seq<byte>)
  {
    predicate Valid() {
      && |source| == |destination| && (|source| == 4 || |source| == 16)
      && sourcePort < 0x1_0000 && destinationPort < 0x1_0000
      && Length() < 0x1_0000
    }

    function Length(): nat {
      |source| + |destination| + 4 + |extensions|
    }

    function Addresses(): Addresses {
      if |source| == 4 then IPv4(source, Some(sourcePort)) else IPv6(source, Some(sourcePort))
    }
  }

  function Word(n: nat): seq<byte>
    requires n < 0x1_0000
  {
    [n / 256, n % 256]
  }

  function Body(h: HeaderV2): seq<byte>
    requires h.Valid()
  {
    h.source + h.destination + Word(h.sourcePort) + Word(h.destinationPort) + h.extensions
  }

  function Encode(h: HeaderV2): seq<byte>
    requires h.Valid()
  {
    SIGNATURE + [0x21, if |h.source| == 4 then 0x11 else 0x21] + Word(h.Length()) + Body(h)
  }

  lemma {:induction false} BodyAddresses(h: HeaderV2)
    requires h.Valid()
    ensures ParseAddresses(if |h.source| == 4 then 0x11 else 0x21, Body(h)) == Some(h.Addresses())
  {
    var n, body := |h.source|, Body(h);
    assert body[..n] == h.source;
    assert body[2 * n] == h.sourcePort / 256 && body[2 * n + 1] == h.sourcePort % 256;
  }

  /** Decoding an encoded header gives back its source and exactly the payload behind it. */
  lemma {:induction false} DecodeEncode(h: HeaderV2, payload: seq<byte>)
    requires h.Valid()
    ensures ParseV2(Encode(h) + payload) == Header(payload, h.Addresses())
  {
    var x, len := Encode(h) + payload, h.Length();
    assert |Body(h)| == len && |Encode(h)| == 16 + len;
    assert SignatureSoFar(x);
    assert x[12] == 0x21 && x[13] == (if |h.source| == 4 then 0x11 else 0x21);
    assert x[14] == len / 256 && x[15] == len % 256;
    assert x[16 + len..] == payload && x[16..16 + len] == Body(h);
    BodyAddresses(h);
  }

  /** The bytes of a header from 1.1.1.1:24034 to 2.2.2.2:443, written out. */
  const SAMPLE: seq<byte> := [
    0x0D, 0x0A, 0x0D, 0x0A, 0x00, 0x0D, 0x0A, 0x51, 0x55, 0x49, 0x54, 0x0A, 0x21, 0x11, 0x00, 0x0C,
    1, 1, 1, 1, 2, 2, 2, 2, 0x5D, 0xE2, 0x01, 0xBB]

  lemma {:induction false} SampleHeader()
    ensures Encode(HeaderV2([1, 1, 1, 1], [2, 2, 2, 2], 24034, 443, [])) == SAMPLE
    ensures ParseV2(SAMPLE) == Header([], IPv4([1, 1, 1, 1], Some(24034)))
  {
    var h := HeaderV2([1, 1, 1, 1], [2, 2, 2, 2], 24034, 443, []);
    assert h.Length() == 12 && Encode(h) == SAMPLE;
    DecodeEncode(h, []);
    assert SAMPLE + [] == SAMPLE;
  }

  /** A version 2 connection, however its bytes arrive: the listener learns the client's address
      and what it reads is the payload. */
  lemma {:induction false} V2ConnectionStripped(h: HeaderV2, payload: seq<byte>, arrivals: seq<Arrival>)
    requires h.Valid() && Broken !in arrivals
    ensures var (c, p) := Await(V2, Source(Encode(h) + payload, true), arrivals);
            && (p.Ready? ==>
                  && p.value == Address(Some(if |h.source| == 4 then SocketV4(h.source, h.sourcePort)
                                             else SocketV6(h.source, h.sourcePort)))
                  && c.Valid() && c.Owed() == payload)
            && (Answers(arrivals) > |Encode(h) + payload| ==> p.Ready?)
  {
    V2IsPrefixStable();
    DecodeEncode(h, payload);
    var s := Encode(h) + payload;
    HeaderStripping(V2, s, arrivals);
    assert s[|s| - |payload|..] == payload;
  }

  /** The lost first payload, for a version 2 connection: a client that sends its header and request
      in one piece and then waits for the answer. */
  lemma {:induction false} V2EarlyReadLosesPayload(h: HeaderV2, payload: seq<byte>, capacity: nat)
    requires h.Valid() && payload != []
    ensures var (c, p) := Await(V2, Source(Encode(h) + payload, true), [Arrived(|Encode(h) + payload|)]);
            && p == Ready(FormatHeader(h.Addresses())) && c.Valid() && c.Owed() == payload
            && var (c', r) := ReadOnce(c, capacity, NotReady);
               Delivered(r) == [] && c'.Valid() && c'.Owed() == []
  {
    DecodeEncode(h, payload);
    EarlyReadLosesPayload(V2, Encode(h), payload, h.Addresses(), capacity);
  }
}
