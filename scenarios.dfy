/**
 Whole-server runs built only from the contracts of `Pyrite.Server`: a
 peer opening a session with a "ping" that a handler answers with "pong",
 and two `Promise` calls issued one after the other on that session.
 */
module Scenarios {
  import opened Protocol
  import opened SessionTable
  import opened Pyrite

  /** A fresh server with a "ping" handler receives a session-opening "ping"
      and answers with one acknowledgment on the new session that echoes the
      request's sequence number and carries "pong". */
  method PingPong(codec: Codec, addr: Addr, recv: seq<byte>, now: int, draws: seq<string>, sequence: int)
    returns (session: string, out: seq<Datagram>)
    requires codec.decode(recv) == Some(Package("", "ping", sequence, "hello"))
    requires |draws| > 0 && forall i :: 0 <= i < |draws| ==> |draws[i]| == 16
    ensures session == draws[0]
    ensures out == [Datagram(addr, Package(session, Ack, sequence, "pong"))]
  {
    var server := new Server(9000, 1_000_000, 1_000_000_000, codec);
    assert "ping"[1] != ControlPrefix[1];
    var ok := server.AddRouter("ping", (p: Package) => "pong");
    assert draws[0] !in server.cdata;
    server.Process(addr, recv, now, draws);
    session := draws[0];
    out := server.sent;
  }

  /** After a peer opens a session (with a message no handler answers),
      two `Promise` calls on that session send sequence numbers 0 and 1 in
      the order they were issued, and (as the code is written) wait on
      keys 1 and 2. */
  method TwoPromises(codec: Codec, addr: Addr, recv: seq<byte>, now: int, draws: seq<string>, first: string, second: string)
    returns (session: string, r1: Result<int>, r2: Result<int>, out: seq<Datagram>)
    requires codec.decode(recv) == Some(Package("", "hello", NoSequence, ""))
    requires |draws| > 0 && forall i :: 0 <= i < |draws| ==> |draws[i]| == 16
    requires !Overflows(codec, Package(draws[0], "work", 0, first))
    requires !Overflows(codec, Package(draws[0], "work", 1, second))
    ensures session == draws[0]
    ensures out == [Datagram(addr, Package(session, "work", 0, first)), Datagram(addr, Package(session, "work", 1, second))]
    ensures r1 == Ok(1) && r2 == Ok(2)
  {
    var server := new Server(9000, 1_000_000, 1_000_000_000, codec);
    assert draws[0] !in server.cdata;
    server.Process(addr, recv, now, draws);
    session := draws[0];
    assert server.cdata == map[session := NewClient(addr, now)];
    assert server.sent == [];
    r1 := server.Promise(session, "work", first);
    assert server.cdata[session] == ClientData(addr, now, 1, {1});
    assert server.sent == [Datagram(addr, Package(session, "work", 0, first))];
    r2 := server.Promise(session, "work", second);
    out := server.sent;
  }
}
