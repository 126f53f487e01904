/**
 The session table as values: the per-session record, how a fresh session
 identifier is chosen from the random draws, what resolving an
 acknowledgment does to the table, and which sessions an age sweep keeps.
 The server class is specified in terms of these functions.
 */
module SessionTable {
  import opened Protocol

  /** One session: the peer's address, the time the session was created
      (microseconds), the sequence counter and the keys of the pending
      response slots. */
  datatype ClientData = ClientData(addr: Addr, lastAccept: int, sequence: int, sequenceBuff: set<int>)

  /** A response handed to the waiter of pending slot `key` of `session`. */
  datatype Delivery = Delivery(session: string, key: int, response: Package)

  /** The record of a session created now for a peer at `addr`. */
  function NewClient(addr: Addr, now: int): (c: ClientData)
    ensures c.addr == addr && c.lastAccept == now
    ensures c.sequence == 0 && c.sequenceBuff == {}
  {
    ClientData(addr, now, 0, {})
  }

  /** Some draw of the random source is not yet a session identifier. */
  predicate FreshDrawExists(draws: seq<string>, taken: set<string>)
  {
    exists i :: 0 <= i < |draws| && draws[i] !in taken
  }

  /** The position of the first draw that is not yet a session identifier:
      the draw at which the retry loop of session generation stops. */
  function FirstFreshIndex(draws: seq<string>, taken: set<string>): (i: nat)
    requires FreshDrawExists(draws, taken)
    ensures i < |draws| && draws[i] !in taken
    ensures forall j :: 0 <= j < i ==> draws[j] in taken
    decreases |draws|
  {
    if draws[0] !in taken then 0
    else
      assert FreshDrawExists(draws[1..], taken) by {
        var k :| 0 <= k < |draws| && draws[k] !in taken;
        assert draws[1..][k - 1] == draws[k];
      }
      1 + FirstFreshIndex(draws[1..], taken)
  }

  /** The identifier session generation returns. */
  function FirstFresh(draws: seq<string>, taken: set<string>): string
    requires FreshDrawExists(draws, taken)
  {
    draws[FirstFreshIndex(draws, taken)]
  }

  /** The per-session invariant of the code as written: the counter is never
      negative and every pending key lies in 1..sequence (a slot is
      registered under the counter's value after it was advanced). */
  predicate PendingBelowCounter(c: ClientData)
  {
    c.sequence >= 0 && forall k :: k in c.sequenceBuff ==> 1 <= k <= c.sequence
  }

  /** The table after `getSequence` on `session`: that session's counter is
      one higher, and every other field and session is unchanged. */
  function Advance(cdata: map<string, ClientData>, session: string): (r: map<string, ClientData>)
    requires session in cdata
    ensures r.Keys == cdata.Keys
    ensures forall s :: s in cdata && s != session ==> r[s] == cdata[s]
    ensures var c, c' := cdata[session], r[session];
      c'.addr == c.addr && c'.lastAccept == c.lastAccept && c'.sequenceBuff == c.sequenceBuff
      && c'.sequence == c.sequence + 1
  {
    cdata[session := cdata[session].(sequence := cdata[session].sequence + 1)]
  }

  /** The table after a pending response slot is registered under `key` on
      `session`: that session gains the one key, nothing else changes. */
  function Register(cdata: map<string, ClientData>, session: string, key: int): (r: map<string, ClientData>)
    requires session in cdata
    ensures r.Keys == cdata.Keys
    ensures forall s :: s in cdata && s != session ==> r[s] == cdata[s]
    ensures var c, c' := cdata[session], r[session];
      c'.addr == c.addr && c'.lastAccept == c.lastAccept && c'.sequence == c.sequence
      && c'.sequenceBuff == c.sequenceBuff + {key}
  {
    cdata[session := cdata[session].(sequenceBuff := cdata[session].sequenceBuff + {key})]
  }

  /** The pending key the acknowledgment `response` names is waiting. */
  predicate IsPending(cdata: map<string, ClientData>, response: Package)
  {
    response.session in cdata && response.sequence in cdata[response.session].sequenceBuff
  }

  /** The table after the acknowledgment `response` is resolved: a pending
      slot with the acknowledgment's sequence number is removed from the
      acknowledgment's session, and nothing else changes; with no such slot
      the table is unchanged. */
  function Resolve(cdata: map<string, ClientData>, response: Package): (r: map<string, ClientData>)
    requires response.session in cdata
    ensures r.Keys == cdata.Keys
    ensures forall s :: s in cdata && s != response.session ==> r[s] == cdata[s]
    ensures var c, c' := cdata[response.session], r[response.session];
      c'.addr == c.addr && c'.lastAccept == c.lastAccept && c'.sequence == c.sequence
      && c'.sequenceBuff == c.sequenceBuff - {response.sequence}
    ensures !IsPending(cdata, response) ==> r == cdata
  {
    if IsPending(cdata, response) then
      var c := cdata[response.session];
      cdata[response.session := c.(sequenceBuff := c.sequenceBuff - {response.sequence})]
    else cdata
  }

  /** The deliveries resolving `response` makes: one to the pending slot it
      names, or none. */
  function Deliveries(cdata: map<string, ClientData>, response: Package): (d: seq<Delivery>)
    ensures |d| <= 1
    ensures |d| == 1 <==> IsPending(cdata, response)
    ensures |d| == 1 ==> d[0] == Delivery(response.session, response.sequence, response)
  {
    if IsPending(cdata, response) then [Delivery(response.session, response.sequence, response)] else []
  }

  /** Resolving keeps every session's invariant. */
  lemma ResolvePreservesInvariant(cdata: map<string, ClientData>, response: Package)
    requires response.session in cdata
    requires forall s :: s in cdata ==> PendingBelowCounter(cdata[s])
    ensures forall s :: s in Resolve(cdata, response) ==> PendingBelowCounter(Resolve(cdata, response)[s])
  {
  }

  /** A slot is resolved at most once: resolving the same acknowledgment a
      second time delivers nothing and changes nothing. */
  lemma ResolveAtMostOnce(cdata: map<string, ClientData>, response: Package)
    requires response.session in cdata
    ensures Deliveries(Resolve(cdata, response), response) == []
    ensures Resolve(Resolve(cdata, response), response) == Resolve(cdata, response)
  {
  }

  /** The session stays alive at `now`: it was created less than the
      lifetime ago. */
  predicate Young(c: ClientData, now: int, maxLifeTime: int)
  {
    now - c.lastAccept < maxLifeTime
  }

  /** The table a sweep at `now` leaves: exactly the sessions created less
      than `maxLifeTime` ago, each unchanged. */
  function Survivors(cdata: map<string, ClientData>, now: int, maxLifeTime: int): (r: map<string, ClientData>)
    ensures forall s :: s in r <==> s in cdata && now - cdata[s].lastAccept < maxLifeTime
    ensures forall s :: s in r ==> r[s] == cdata[s]
  {
    map s | s in cdata && Young(cdata[s], now, maxLifeTime) :: cdata[s]
  }

  /** Sweeping twice at the same instant evicts nothing more. */
  lemma SweepIdempotent(cdata: map<string, ClientData>, now: int, maxLifeTime: int)
    ensures Survivors(Survivors(cdata, now, maxLifeTime), now, maxLifeTime) == Survivors(cdata, now, maxLifeTime)
  {
  }

  /** Since a session's `lastAccept` never changes after creation, a session
      that a sweep evicts at `now` would be evicted by every later sweep too:
      a later sweep keeps only sessions an earlier one kept. */
  lemma SweepMonotone(cdata: map<string, ClientData>, now: int, later: int, maxLifeTime: int)
    requires now <= later
    ensures Survivors(cdata, later, maxLifeTime).Keys <= Survivors(cdata, now, maxLifeTime).Keys
    ensures Survivors(Survivors(cdata, now, maxLifeTime), later, maxLifeTime) == Survivors(cdata, later, maxLifeTime)
  {
  }
}
