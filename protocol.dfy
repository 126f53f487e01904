/**
 The wire-level vocabulary of the protocol: the package that travels in one
 datagram, the codec that turns it into bytes, the reserved identifier
 namespace, and the reply the dispatcher builds for an application message.
 */
module Protocol {

  datatype Option<T> = None | Some(value: T)

  /** The error `Tell` and the modelled part of `Promise` hand back to their
      callers. */
  datatype Error = ContentOverflowed

  datatype Result<T> = Ok(value: T) | Err(error: Error)

  newtype byte = b: int | 0 <= b < 256

  /** A UDP peer address (host and port). */
  datatype Addr = Addr(host: string, port: int)

  /** One protocol message: the session it belongs to (empty when it opens a
      session), the command identifier, the correlation sequence number and
      the opaque body. */
  datatype Package = Package(session: string, identifier: string, sequence: int, body: string)

  /** An application handler: the body of its reply, empty for "no reply". */
  type Handler = Package -> string

  /** The serialisation collaborator: encoding, decoding that may fail, and
      the largest encoding that may be put on the wire. */
  datatype Codec = Codec(encode: Package -> seq<byte>, decode: seq<byte> -> Option<Package>, maxTransmitSize: nat)

  /** The reserved prefix of control identifiers. */
  const ControlPrefix: string := "prt-"

  /** The one control message: the acknowledgment of a request. */
  const Ack: string := "prt-ack"

  /** The sequence number of a message that expects no acknowledgment. */
  const NoSequence: int := -1

  /** True when the encoding of `p` is longer than the codec allows. */
  predicate Overflows(codec: Codec, p: Package)
  {
    |codec.encode(p)| > codec.maxTransmitSize
  }

  /** `sub` occurs in `s` starting at position `i`. */
  predicate OccursAt(s: string, sub: string, i: int)
  {
    0 <= i && i + |sub| <= |s| && s[i..i + |sub|] == sub
  }

  /** Occurrences in the tail of `s` are the occurrences in `s` after
      position 0, shifted by one. */
  lemma OccursShift(s: string, sub: string)
    requires |s| > 0
    ensures forall i :: i >= 1 ==> (OccursAt(s, sub, i) <==> OccursAt(s[1..], sub, i - 1))
  {
    forall i | i >= 1
      ensures OccursAt(s, sub, i) <==> OccursAt(s[1..], sub, i - 1)
    {
      if i + |sub| <= |s| {
        assert s[1..][i - 1..i - 1 + |sub|] == s[i..i + |sub|];
      }
    }
  }

  /** Go's `strings.Index`: the position of the first occurrence of `sub`
      in `s`, or -1 when there is none. */
  function Index(s: string, sub: string): (r: int)
    ensures r == -1 || OccursAt(s, sub, r)
    ensures r == -1 ==> forall i :: !OccursAt(s, sub, i)
    ensures forall i :: 0 <= i < r ==> !OccursAt(s, sub, i)
    decreases |s|
  {
    if |s| < |sub| then -1
    else if s[..|sub|] == sub then 0
    else
      var r := Index(s[1..], sub);
      OccursShift(s, sub);
      assert !OccursAt(s, sub, 0);
      if r == -1 then -1 else r + 1
  }

  /** `Index(s, sub) == 0`, the test the router uses, says exactly that
      `sub` is a prefix of `s`. */
  lemma IndexZeroIffPrefix(s: string, sub: string)
    ensures Index(s, sub) == 0 <==> sub <= s
  {
  }

  /** An identifier in the reserved control namespace. */
  predicate IsReserved(identifier: string)
  {
    Index(identifier, ControlPrefix) == 0
  }

  lemma ReservedIffControlPrefix(identifier: string)
    ensures IsReserved(identifier) <==> ControlPrefix <= identifier
  {
    IndexZeroIffPrefix(identifier, ControlPrefix);
  }

  /** The acknowledgment identifier is itself reserved, so no application
      handler can ever be registered under it. */
  lemma AckIsReserved()
    ensures IsReserved(Ack)
  {
    ReservedIffControlPrefix(Ack);
  }

  /** The reply the dispatcher sends for `p` on session `nowSession`, if any:
      none for an acknowledgment, for an identifier without a handler, or
      when the handler returns an empty body; otherwise an acknowledgment
      that echoes the request's sequence number and carries the handler's
      body. */
  function Reply(router: map<string, Handler>, p: Package, nowSession: string): (r: Option<Package>)
    ensures r.Some? <==> p.identifier != Ack && p.identifier in router && router[p.identifier](p) != ""
    ensures r.Some? ==> r.value.identifier == Ack && r.value.session == nowSession
    ensures r.Some? ==> r.value.sequence == p.sequence && r.value.body == router[p.identifier](p)
  {
    if p.identifier == Ack then None
    else if p.identifier !in router then None
    else
      var resp := router[p.identifier](p);
      if resp == "" then None
      else Some(Package(nowSession, Ack, p.sequence, resp))
  }
}
