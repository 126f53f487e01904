/**
 The pyrite server with its socket, goroutines, locks and clock taken away:
 the session table, the router, and two logs that stand for the effects the
 server has on the outside world (datagrams written to peers, and responses
 handed to waiting `Promise` calls).
 */
module Pyrite {
  import opened Protocol
  import opened SessionTable

  /** The encoding of `pkg` written to the peer at `to`. */
  datatype Datagram = Datagram(to: Addr, pkg: Package)

  /** The session a message is handled on: the one it names, or the one
      created for it when it names none. */
  function ActiveSession(p: Package, draws: seq<string>, taken: set<string>): (s: string)
    requires p.session == "" ==> FreshDrawExists(draws, taken)
    ensures p.session != "" ==> s == p.session
    ensures p.session == "" ==> s !in taken && s in draws
  {
    if p.session == "" then FirstFresh(draws, taken) else p.session
  }

  class Server {
    const port: int
    const sessionLen: nat
    const maxLifeTime: int
    /** The wait of a `Promise`, in nanoseconds. */
    const timeout: int
    const codec: Codec

    var router: map<string, Handler>
    var cdata: map<string, ClientData>
    /** Every datagram written, oldest first. */
    var sent: seq<Datagram>
    /** Every response handed to a pending slot, oldest first. */
    var delivered: seq<Delivery>

    /** The server's invariant: identifiers are 16 characters long (so the
        empty identifier never names a session), no reserved identifier has
        a handler, and every session keeps its pending keys at or below its
        counter. */
    ghost predicate Valid()
      reads this
    {
      && sessionLen == 16
      && (forall id :: id in router ==> !IsReserved(id))
      && (forall s :: s in cdata ==> |s| == sessionLen && PendingBelowCounter(cdata[s]))
    }

    /** `NewServer`: no handlers and no sessions. */
    constructor (port: int, maxTime: int, timeout: int, codec: Codec)
      ensures Valid()
      ensures this.port == port && sessionLen == 16 && maxLifeTime == maxTime
      ensures this.timeout == timeout && this.codec == codec
      ensures router == map[] && cdata == map[]
      ensures sent == [] && delivered == []
    {
      this.port := port;
      sessionLen := 16;
      router := map[];
      cdata := map[];
      maxLifeTime := maxTime;
      this.timeout := timeout;
      this.codec := codec;
      sent := [];
      delivered := [];
    }

    /** Registers `controller` for `identifier`, unless the identifier is in
        the reserved control namespace. */
    method AddRouter(identifier: string, controller: Handler) returns (ok: bool)
      requires Valid()
      modifies this`router
      ensures Valid()
      ensures ok <==> !(ControlPrefix <= identifier)
      ensures ok ==> router == old(router)[identifier := controller]
      ensures !ok ==> router == old(router)
    {
      ReservedIffControlPrefix(identifier);
      if Index(identifier, ControlPrefix) == 0 {
        return false;
      }
      router := router[identifier := controller];
      return true;
    }

    /** Draws random tokens, in the order of `draws`, until one is not the
        identifier of a live session. */
    method GenerateSession(draws: seq<string>) returns (ret: string)
      requires FreshDrawExists(draws, cdata.Keys)
      ensures ret !in cdata
      ensures exists i :: 0 <= i < |draws| && ret == draws[i] && forall j :: 0 <= j < i ==> draws[j] in cdata
      ensures ret == FirstFresh(draws, cdata.Keys)
    {
      var i := 0;
      while true
        invariant 0 <= i <= FirstFreshIndex(draws, cdata.Keys)
        invariant forall j :: 0 <= j < i ==> draws[j] in cdata
        decreases |draws| - i
      {
        ret := draws[i];
        if ret !in cdata {
          break;
        }
        i := i + 1;
      }
    }

    /** Returns the session's counter and advances it by one. */
    method GetSequence(session: string) returns (r: int)
      requires Valid()
      requires session in cdata
      modifies this`cdata
      ensures Valid()
      ensures r == old(cdata[session].sequence)
      ensures cdata == Advance(old(cdata), session)
    {
      var c := cdata[session];
      cdata := cdata[session := c.(sequence := c.sequence + 1)];
      r := cdata[session].sequence - 1;
    }

    /** Fire-and-forget send: sequence -1, nothing is awaited. */
    method Tell(session: string, identifier: string, body: string) returns (r: Result<()>)
      requires !Overflows(codec, Package(session, identifier, NoSequence, body)) ==> session in cdata
      modifies this`sent
      ensures var p := Package(session, identifier, NoSequence, body);
        if Overflows(codec, p) then r == Err(ContentOverflowed) && sent == old(sent)
        else r == Ok(()) && sent == old(sent) + [Datagram(cdata[session].addr, p)]
    {
      var p := Package(session, identifier, NoSequence, body);
      if |codec.encode(p)| > codec.maxTransmitSize {
        return Err(ContentOverflowed);
      }
      sent := sent + [Datagram(cdata[session].addr, p)];
      return Ok(());
    }

    /** The part of `Promise` before it blocks: takes a sequence number,
        checks the size, sends the request and registers the pending slot.
        `Ok(key)` is the pending key the call then waits on. */
    method Promise(session: string, identifier: string, body: string) returns (r: Result<int>)
      requires Valid()
      requires session in cdata
      modifies this`cdata, this`sent
      ensures Valid()
      ensures var c := old(cdata[session]);
        var req := Package(session, identifier, c.sequence, body);
        if Overflows(codec, req) then
          && r == Err(ContentOverflowed)
          && sent == old(sent)
          && cdata == Advance(old(cdata), session)
        else
          && r == Ok(c.sequence + 1)
          && c.sequence + 1 !in c.sequenceBuff
          && sent == old(sent) + [Datagram(c.addr, req)]
          && cdata == Register(Advance(old(cdata), session), session, c.sequence + 1)
    {
      var sequence := GetSequence(session);
      var req := Package(session, identifier, sequence, body);
      if |codec.encode(req)| > codec.maxTransmitSize {
        return Err(ContentOverflowed);
      }
      var c := cdata[session];
      sent := sent + [Datagram(c.addr, req)];
      cdata := cdata[session := c.(sequenceBuff := c.sequenceBuff + {c.sequence})];
      return Ok(c.sequence);
    }

    /** Hands an acknowledgment to the slot waiting on its sequence number
        and removes the slot; without such a slot it does nothing. */
    method ProcessAck(response: Package)
      requires Valid()
      requires response.session in cdata
      modifies this`cdata, this`delivered
      ensures Valid()
      ensures cdata == Resolve(old(cdata), response)
      ensures delivered == old(delivered) + Deliveries(old(cdata), response)
    {
      var session := response.session;
      if response.sequence !in cdata[session].sequenceBuff {
        return;
      }
      delivered := delivered + [Delivery(session, response.sequence, response)];
      var c := cdata[session];
      cdata := cdata[session := c.(sequenceBuff := c.sequenceBuff - {response.sequence})];
    }

    /** The inputs on which handling `p` does not dereference a missing
        session: a fresh identifier can be drawn when `p` opens a session,
        an acknowledgment names a live session, and a reply on a session
        `p` names goes to a live session. */
    ghost predicate ProcessDefined(p: Package, draws: seq<string>)
      reads this
    {
      && (p.session == "" ==> FreshDrawExists(draws, cdata.Keys))
      && (p.identifier == Ack ==> p.session in cdata)
      && (p.session != "" && Reply(router, p, p.session).Some? ==> p.session in cdata)
    }

    /** Handles one datagram `recv` from `addr` received at `now`; `draws`
        are the tokens the random source would produce. */
    method Process(addr: Addr, recv: seq<byte>, now: int, draws: seq<string>)
      requires Valid()
      requires forall i :: 0 <= i < |draws| ==> |draws[i]| == sessionLen
      requires codec.decode(recv).Some? ==> ProcessDefined(codec.decode(recv).value, draws)
      modifies this`cdata, this`sent, this`delivered
      ensures Valid()
      ensures codec.decode(recv).None? ==>
        cdata == old(cdata) && sent == old(sent) && delivered == old(delivered)
      ensures codec.decode(recv).Some? && codec.decode(recv).value.session == "" ==>
        var ns := FirstFresh(draws, old(cdata).Keys);
        ns !in old(cdata) && cdata == old(cdata)[ns := NewClient(addr, now)]
      ensures codec.decode(recv).Some? && codec.decode(recv).value.identifier == Ack ==>
        var p := codec.decode(recv).value;
        && cdata == Resolve(old(cdata), p)
        && delivered == old(delivered) + Deliveries(old(cdata), p)
        && sent == old(sent)
      ensures codec.decode(recv).Some? && codec.decode(recv).value.identifier != Ack ==>
        var p := codec.decode(recv).value;
        var ns := ActiveSession(p, draws, old(cdata).Keys);
        && (p.session != "" ==> cdata == old(cdata))
        && delivered == old(delivered)
        && match Reply(router, p, ns)
           case None => sent == old(sent)
           case Some(q) => ns in cdata && sent == old(sent) + [Datagram(cdata[ns].addr, q)]
    {
      var decoded := codec.decode(recv);
      if decoded.None? {
        return;
      }
      var p := decoded.value;
      var nowSession := p.session;
      if p.session == "" {
        nowSession := GenerateSession(draws);
        cdata := cdata[nowSession := NewClient(addr, now)];
      }

      if p.identifier == Ack {
        ProcessAck(p);
        return;
      }

      if p.identifier !in router {
        return;
      }
      var resp := router[p.identifier](p);
      if resp == "" {
        return;
      }
      sent := sent + [Datagram(cdata[nowSession].addr, Package(nowSession, Ack, p.sequence, resp))];
    }

    /** One pass of the sweep at `now`: every session created `maxLifeTime`
        or more ago is evicted, whether or not it has been active since
        (`lastAccept` is only set when the session is created). */
    method GCSweep(now: int)
      requires Valid()
      modifies this`cdata
      ensures Valid()
      ensures cdata == Survivors(old(cdata), now, maxLifeTime)
    {
      var keys := cdata.Keys;
      while keys != {}
        invariant Valid()
        invariant keys <= cdata.Keys
        invariant forall s :: s in cdata <==> s in old(cdata) && (s in keys || Young(old(cdata)[s], now, maxLifeTime))
        invariant forall s :: s in cdata ==> cdata[s] == old(cdata)[s]
        decreases keys
      {
        var k :| k in keys;
        if now - cdata[k].lastAccept >= maxLifeTime {
          cdata := cdata - {k};
        }
        keys := keys - {k};
      }
    }
  }
}
