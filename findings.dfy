/**
 `Promise` sends its request with the counter's value before `getSequence`
 advanced it, but registers its pending slot under the value after it.
 The peer echoes the request's sequence number in its acknowledgment, and
 `processAck` looks the slot up under that number, so the acknowledgment of
 a request never reaches the slot its caller waits on. This module states
 the discrepancy about the code as written and proves the intended
 behaviour of a registration under the number that was sent.
 */
module Findings {
  import opened Protocol
  import opened SessionTable

  /** The acknowledgment a peer returns for a request with `sequence` on
      `session`. */
  function AckOf(session: string, sequence: int, body: string): (a: Package)
    ensures a.identifier == Ack && a.session == session && a.sequence == sequence
  {
    Package(session, Ack, sequence, body)
  }

  /** The acknowledgment `process` sends back is exactly `AckOf` the
      request's sequence number: the peer echoes the number it received. */
  lemma ReplyIsAckOf(router: map<string, Handler>, p: Package, nowSession: string)
    requires Reply(router, p, nowSession).Some?
    ensures Reply(router, p, nowSession).value == AckOf(nowSession, p.sequence, router[p.identifier](p))
  {
  }

  /** As written: whatever was pending before, the acknowledgment of the
      request `Promise` just sent does not resolve that call's own slot;
      the slot stays pending and no response is delivered to it. */
  lemma AsWrittenOwnAckMissesSlot(cdata: map<string, ClientData>, session: string, body: string)
    requires session in cdata
    requires PendingBelowCounter(cdata[session])
    ensures var n := cdata[session].sequence;
      var after := Register(Advance(cdata, session), session, n + 1);
      var ack := AckOf(session, n, body);
      && n + 1 in Resolve(after, ack)[session].sequenceBuff
      && forall d :: d in Deliveries(after, ack) ==> d.key != n + 1
  {
  }

  /** As written, on a session just created (counter 0, nothing pending):
      the first `Promise` sends sequence 0 and waits on key 1, so its
      acknowledgment is dropped as spurious and the call can only time out. */
  lemma AsWrittenFirstPromiseNeverResolved(addr: Addr, now: int, session: string, body: string)
    ensures var cdata := map[session := NewClient(addr, now)];
      var after := Register(Advance(cdata, session), session, 1);
      var ack := AckOf(session, 0, body);
      && Deliveries(after, ack) == []
      && Resolve(after, ack) == after
      && 1 in after[session].sequenceBuff
  {
  }

  /** As written, with two `Promise` calls outstanding on a session (keys
      n+1 and n+2, requests n and n+1), the acknowledgment of the second
      request is delivered to key n+1: the first call's slot receives the
      second call's response. */
  lemma AsWrittenAckReachesEarlierSlot(cdata: map<string, ClientData>, session: string, body: string)
    requires session in cdata
    requires PendingBelowCounter(cdata[session])
    ensures var n := cdata[session].sequence;
      var first := Register(Advance(cdata, session), session, n + 1);
      var second := Register(Advance(first, session), session, n + 2);
      var ack := AckOf(session, n + 1, body);
      && Deliveries(second, ack) == [Delivery(session, n + 1, ack)]
      && n + 2 in Resolve(second, ack)[session].sequenceBuff
  {
  }

  /** The invariant a registration under the sent number keeps: every
      pending key is a number already handed out, 0..sequence-1. */
  predicate PendingIssued(c: ClientData)
  {
    c.sequence >= 0 && forall k :: k in c.sequenceBuff ==> 0 <= k < c.sequence
  }

  /** Corrected `Promise` registration: advance the counter and register the
      slot under the number the request carries. */
  function IntendedPromise(cdata: map<string, ClientData>, session: string): (r: map<string, ClientData>)
    requires session in cdata
    requires PendingIssued(cdata[session])
    ensures r.Keys == cdata.Keys
    ensures PendingIssued(r[session])
    ensures cdata[session].sequence !in cdata[session].sequenceBuff
    ensures r[session].sequenceBuff == cdata[session].sequenceBuff + {cdata[session].sequence}
  {
    Register(Advance(cdata, session), session, cdata[session].sequence)
  }

  /** Intended behaviour: the acknowledgment of the request resolves exactly
      the call's own slot, once, and leaves the table as if the slot had
      never been registered (only the counter has moved on). */
  lemma IntendedOwnAckResolvesSlot(cdata: map<string, ClientData>, session: string, body: string)
    requires session in cdata
    requires PendingIssued(cdata[session])
    ensures var n := cdata[session].sequence;
      var after := IntendedPromise(cdata, session);
      var ack := AckOf(session, n, body);
      && Deliveries(after, ack) == [Delivery(session, n, ack)]
      && Resolve(after, ack) == Advance(cdata, session)
      && Deliveries(Resolve(after, ack), ack) == []
  {
  }
}
