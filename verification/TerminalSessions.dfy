// server/Services/TerminalSessionRegistry.cs: who owns which terminal, and how often it may be used.
module TerminalSessions {
  import opened Text
  import opened Sets
  import opened Windows

  type SessionId = JsString

  // A queue of times for each session.
  type Queues = map<SessionId, seq<int>>

  datatype Session = Session(connectionId: JsString, roomId: JsString)

  const MAX_PER_CONNECTION: nat := 3
  const COMMAND_LIMIT: nat := 80
  const POLL_LIMIT: nat := 120

  // Ten seconds in ticks of 100 ns.
  const SPAN: int := 100_000_000

  // ----- One queue of times -----

  // The calls allowed in [t - SPAN, t], both ends included.
  function InSpan(times: seq<int>, t: int): set<nat> { set i: nat | i < |times| && t - SPAN <= times[i] <= t }

  ghost predicate UpTo(times: seq<int>, clock: int) {
    Ascending(times) && forall i | 0 <= i < |times| :: times[i] <= clock
  }

  ghost predicate Bounded(times: seq<int>, limit: nat) { forall t: int :: |InSpan(times, t)| <= limit }

  // The queue is what is left of all allowed calls after some that are too old were dropped.
  ghost predicate Remembers(queue: seq<int>, allowed: seq<int>, clock: int) {
    && UpTo(allowed, clock)
    && |queue| <= |allowed| && queue == allowed[|allowed| - |queue|..]
    && (forall i | 0 <= i < |allowed| - |queue| :: allowed[i] < clock - SPAN)
  }

  ghost predicate QueueOk(queue: seq<int>, allowed: seq<int>, clock: int, limit: nat) {
    Remembers(queue, allowed, clock) && Bounded(allowed, limit)
  }

  // There is room exactly if fewer calls than the limit have been allowed at all, or the last but so
  // many was allowed more than ten seconds ago.
  lemma RoomMeans(allowed: seq<int>, now: int, limit: nat)
    requires UpTo(allowed, now) && limit > 0
    ensures |InSpan(allowed, now)| < limit <==>
              |allowed| < limit || now - allowed[|allowed| - limit] > 100_000_000
  {
    FewRecent(allowed, now - SPAN - 1, limit);
    RecentCount(allowed, now - SPAN - 1);
    assert InSpan(allowed, now) == set i: nat | i < |allowed| && allowed[i] > now - SPAN - 1;
  }

  // A queue without old times is exactly the calls allowed in the span that ends now.
  lemma QueueIsSpan(queue: seq<int>, allowed: seq<int>, now: int)
    requires Remembers(queue, allowed, now)
    requires queue == [] || now - queue[0] <= SPAN
    ensures |InSpan(allowed, now)| == |queue|
  {
    var cut := |allowed| - |queue|;
    forall i: nat | i < |allowed|
      ensures i in InSpan(allowed, now) <==> cut <= i
    {
      if cut <= i {
        assert allowed[cut] == queue[0];
      }
    }
    assert InSpan(allowed, now) == Range(cut, |allowed|);
  }

  // The span that ends now bounds every later one; earlier ones do not see the new call.
  lemma StillBounded(allowed: seq<int>, now: int, limit: nat)
    requires UpTo(allowed, now) && Bounded(allowed, limit) && |InSpan(allowed, now)| < limit
    ensures Bounded(allowed + [now], limit)
  {
    var longer := allowed + [now];
    forall t: int
      ensures |InSpan(longer, t)| <= limit
    {
      if t < now {
        assert InSpan(longer, t) == InSpan(allowed, t);
      } else {
        var latest := InSpan(allowed, now) + {|allowed|};
        assert InSpan(longer, t) <= latest;
        SubsetSize(InSpan(longer, t), latest);
      }
    }
  }

  // The body of Consume for a session that is owned.
  method Use(queue: seq<int>, now: int, limit: nat, ghost allowed: seq<int>) returns (ok: bool, queue': seq<int>)
    requires QueueOk(queue, allowed, now, limit)
    ensures ok <==> |InSpan(allowed, now)| < limit
    ensures QueueOk(queue', if ok then allowed + [now] else allowed, now, limit)
  {
    hide Bounded, InSpan;
    queue' := queue;
    while queue' != [] && now - queue'[0] > SPAN
      invariant Remembers(queue', allowed, now)
    {
      queue' := queue'[1..];
    }
    QueueIsSpan(queue', allowed, now);
    if |queue'| >= limit {
      return false, queue';
    }
    StillBounded(allowed, now, limit);
    queue' := queue' + [now];
    return true, queue';
  }

  // ----- The registry -----

  function SessionsOf(sessions: map<SessionId, Session>, connectionId: JsString): set<SessionId> {
    set id | id in sessions && sessions[id].connectionId == connectionId
  }

  function SessionsIn(sessions: map<SessionId, Session>, roomId: JsString): set<SessionId> {
    set id | id in sessions && sessions[id].roomId == roomId
  }

  ghost predicate FewPerConnection(sessions: map<SessionId, Session>) {
    forall c :: |SessionsOf(sessions, c)| <= MAX_PER_CONNECTION
  }

  // Every live session has a queue, and the queue remembers what has been allowed since it was added.
  ghost predicate QueuesOk(ids: set<SessionId>, queues: Queues, allowed: Queues, clock: int, limit: nat) {
    && queues.Keys == ids && allowed.Keys == ids
    && (forall id | id in queues && id in allowed :: QueueOk(queues[id], allowed[id], clock, limit))
  }

  lemma LaterQueue(queue: seq<int>, allowed: seq<int>, clock: int, now: int, limit: nat)
    requires QueueOk(queue, allowed, clock, limit) && clock <= now
    ensures QueueOk(queue, allowed, now, limit)
  {
  }

  lemma LaterQueues(ids: set<SessionId>, queues: Queues, allowed: Queues, clock: int, now: int, limit: nat)
    requires QueuesOk(ids, queues, allowed, clock, limit) && clock <= now
    ensures QueuesOk(ids, queues, allowed, now, limit)
  {
    hide QueueOk;
    forall id | id in queues && id in allowed
      ensures QueueOk(queues[id], allowed[id], now, limit)
    {
      LaterQueue(queues[id], allowed[id], clock, now, limit);
    }
  }

  lemma NothingAllowed(limit: nat)
    ensures Bounded([], limit)
  {
    assert forall t :: InSpan([], t) == {};
  }

  lemma NewQueueOk(clock: int, limit: nat)
    ensures QueueOk([], [], clock, limit)
  {
    NothingAllowed(limit);
  }

  lemma FewerQueues(ids: set<SessionId>, queues: Queues, allowed: Queues, clock: int, limit: nat,
                    gone: set<SessionId>)
    requires QueuesOk(ids, queues, allowed, clock, limit)
    ensures QueuesOk(ids - gone, queues - gone, allowed - gone, clock, limit)
  {
    hide QueueOk;
  }

  lemma OneMoreQueue(ids: set<SessionId>, queues: Queues, allowed: Queues, clock: int, limit: nat,
                     id: SessionId)
    requires QueuesOk(ids, queues, allowed, clock, limit)
    ensures QueuesOk(ids + {id}, queues[id := []], allowed[id := []], clock, limit)
  {
    hide QueueOk;
    NewQueueOk(clock, limit);
  }

  lemma OneLess<T, U>(m: map<T, U>, gone: set<T>, id: T)
    ensures m - gone - {id} == m - (gone + {id})
  {
  }

  function AllowedOf(allowed: Queues, id: SessionId): seq<int> { if id in allowed then allowed[id] else [] }

  lemma OneMoreSession(sessions: map<SessionId, Session>, id: SessionId, session: Session)
    requires FewPerConnection(sessions) && |SessionsOf(sessions, session.connectionId)| < MAX_PER_CONNECTION
               && id !in sessions
    ensures FewPerConnection(sessions[id := session])
  {
    var more := sessions[id := session];
    forall c
      ensures |SessionsOf(more, c)| <= MAX_PER_CONNECTION
    {
      if c == session.connectionId {
        assert SessionsOf(more, c) == SessionsOf(sessions, c) + {id};
      } else {
        assert SessionsOf(more, c) == SessionsOf(sessions, c);
      }
    }
  }

  lemma FewerSessions(sessions: map<SessionId, Session>, gone: set<SessionId>)
    requires FewPerConnection(sessions)
    ensures FewPerConnection(sessions - gone)
  {
    var left := sessions - gone;
    forall c
      ensures |SessionsOf(left, c)| <= MAX_PER_CONNECTION
    {
      SubsetSize(SessionsOf(left, c), SessionsOf(sessions, c));
    }
  }

  lemma UsableMeans(ids: set<SessionId>, queues: Queues, allowed: Queues, now: int, limit: nat, id: SessionId)
    requires QueuesOk(ids, queues, allowed, now, limit) && limit > 0
    ensures var calls := AllowedOf(allowed, id);
            id in ids ==> (|InSpan(calls, now)| < limit <==>
              |calls| < limit || now - calls[|calls| - limit] > 100_000_000)
  {
    hide InSpan, Bounded;
    if id in ids {
      RoomMeans(allowed[id], now, limit);
    }
  }

  class TerminalSessionRegistry {
    var sessions: map<SessionId, Session>
    var commandTimes: Queues
    var pollTimes: Queues
    ghost var commands: Queues
    ghost var polls: Queues
    ghost var clock: int

    ghost predicate Valid()
      reads this
    {
      && FewPerConnection(sessions)
      && QueuesOk(sessions.Keys, commandTimes, commands, clock, COMMAND_LIMIT)
      && QueuesOk(sessions.Keys, pollTimes, polls, clock, POLL_LIMIT)
    }

    constructor (ghost start: int)
      ensures Valid() && sessions == map[] && clock == start
    {
      sessions, commandTimes, pollTimes := map[], map[], map[];
      commands, polls, clock := map[], map[], start;
      new;
      assert forall c :: SessionsOf(sessions, c) == {};
    }

    predicate Owns(connectionId: JsString, roomId: JsString, sessionId: SessionId)
      reads this
      ensures Owns(connectionId, roomId, sessionId) <==>
                sessionId in SessionsOf(sessions, connectionId) * SessionsIn(sessions, roomId)
    {
      sessionId in sessions && sessions[sessionId] == Session(connectionId, roomId)
    }

    method TryAdd(connectionId: JsString, roomId: JsString, sessionId: SessionId) returns (added: bool)
      requires Valid()
      modifies this
      ensures Valid() && clock == old(clock)
      ensures added <==> |SessionsOf(old(sessions), connectionId)| < 3 && sessionId !in old(sessions)
      ensures sessions == if added then old(sessions)[sessionId := Session(connectionId, roomId)] else old(sessions)
      ensures commands == if added then old(commands)[sessionId := []] else old(commands)
      ensures polls == if added then old(polls)[sessionId := []] else old(polls)
    {
      hide QueuesOk, FewPerConnection;
      var connectionCount := |SessionsOf(sessions, connectionId)|;
      if connectionCount >= MAX_PER_CONNECTION || sessionId in sessions {
        return false;
      }
      OneMoreSession(sessions, sessionId, Session(connectionId, roomId));
      OneMoreQueue(sessions.Keys, commandTimes, commands, clock, COMMAND_LIMIT, sessionId);
      OneMoreQueue(sessions.Keys, pollTimes, polls, clock, POLL_LIMIT, sessionId);
      sessions := sessions[sessionId := Session(connectionId, roomId)];
      commandTimes := commandTimes[sessionId := []];
      pollTimes := pollTimes[sessionId := []];
      commands := commands[sessionId := []];
      polls := polls[sessionId := []];
      assert sessions.Keys == old(sessions).Keys + {sessionId};
      return true;
    }

    // The loop of the three removing methods.
    method Drop(ids: set<SessionId>)
      requires Valid()
      modifies this
      ensures Valid() && clock == old(clock)
      ensures sessions == old(sessions) - ids && commands == old(commands) - ids && polls == old(polls) - ids
    {
      hide QueuesOk, FewPerConnection;
      FewerSessions(sessions, ids);
      FewerQueues(sessions.Keys, commandTimes, commands, clock, COMMAND_LIMIT, ids);
      FewerQueues(sessions.Keys, pollTimes, polls, clock, POLL_LIMIT, ids);
      commands, polls := commands - ids, polls - ids;
      var rest := ids;
      while rest != {}
        invariant rest <= ids && clock == old(clock)
        invariant commands == old(commands) - ids && polls == old(polls) - ids
        invariant sessions == old(sessions) - (ids - rest)
        invariant commandTimes == old(commandTimes) - (ids - rest)
        invariant pollTimes == old(pollTimes) - (ids - rest)
        decreases rest
      {
        var id :| id in rest;
        OneLess(old(sessions), ids - rest, id);
        OneLess(old(commandTimes), ids - rest, id);
        OneLess(old(pollTimes), ids - rest, id);
        assert ids - (rest - {id}) == ids - rest + {id};
        rest := rest - {id};
        sessions := sessions - {id};
        commandTimes := commandTimes - {id};
        pollTimes := pollTimes - {id};
      }
      assert ids - rest == ids;
      assert sessions.Keys == old(sessions).Keys - ids;
    }

    method Remove(connectionId: JsString, roomId: JsString, sessionId: SessionId) returns (removed: bool)
      requires Valid()
      modifies this
      ensures Valid() && clock == old(clock)
      ensures removed <==> old(Owns(connectionId, roomId, sessionId))
      ensures var gone := if removed then {sessionId} else {};
              sessions == old(sessions) - gone && commands == old(commands) - gone && polls == old(polls) - gone
    {
      if !Owns(connectionId, roomId, sessionId) {
        return false;
      }
      Drop({sessionId});
      return true;
    }

    method RemoveAll(connectionId: JsString) returns (sessionIds: set<SessionId>)
      requires Valid()
      modifies this
      ensures Valid() && clock == old(clock)
      ensures sessionIds == SessionsOf(old(sessions), connectionId) && SessionsOf(sessions, connectionId) == {}
      ensures sessions == old(sessions) - sessionIds && commands == old(commands) - sessionIds
                && polls == old(polls) - sessionIds
    {
      sessionIds := SessionsOf(sessions, connectionId);
      Drop(sessionIds);
    }

    method RemoveRoom(roomId: JsString) returns (sessionIds: set<SessionId>)
      requires Valid()
      modifies this
      ensures Valid() && clock == old(clock)
      ensures sessionIds == SessionsIn(old(sessions), roomId) && SessionsIn(sessions, roomId) == {}
      ensures sessions == old(sessions) - sessionIds && commands == old(commands) - sessionIds
                && polls == old(polls) - sessionIds
    {
      sessionIds := SessionsIn(sessions, roomId);
      Drop(sessionIds);
    }

    // Whether the session may be used once more, and if so the use is remembered.
    method Consume(connectionId: JsString, roomId: JsString, sessionId: SessionId, rates: Queues, limit: nat, now: int,
                   ghost allowed: Queues)
      returns (ok: bool, rates': Queues, ghost allowed': Queues)
      requires QueuesOk(sessions.Keys, rates, allowed, now, limit)
      ensures ok <==> Owns(connectionId, roomId, sessionId) && |InSpan(AllowedOf(allowed, sessionId), now)| < limit
      ensures allowed' == if ok then allowed[sessionId := AllowedOf(allowed, sessionId) + [now]] else allowed
      ensures QueuesOk(sessions.Keys, rates', allowed', now, limit)
    {
      hide QueueOk;
      rates', allowed' := rates, allowed;
      if !Owns(connectionId, roomId, sessionId) || sessionId !in rates {
        return false, rates', allowed';
      }
      var used, times := Use(rates[sessionId], now, limit, allowed[sessionId]);
      rates' := rates[sessionId := times];
      if used {
        allowed' := allowed[sessionId := allowed[sessionId] + [now]];
      }
      return used, rates', allowed';
    }

    method AllowCommand(connectionId: JsString, roomId: JsString, sessionId: SessionId, now: int) returns (ok: bool)
      requires Valid() && clock <= now
      modifies this
      ensures Valid() && clock == now && sessions == old(sessions) && polls == old(polls)
      ensures var calls := AllowedOf(old(commands), sessionId);
              ok <==> && Owns(connectionId, roomId, sessionId)
                      && (|calls| < 80 || now - calls[|calls| - 80] > 100_000_000)
      ensures commands == if ok then old(commands)[sessionId := AllowedOf(old(commands), sessionId) + [now]]
                          else old(commands)
    {
      hide QueueOk, FewPerConnection;
      LaterQueues(sessions.Keys, commandTimes, commands, clock, now, COMMAND_LIMIT);
      LaterQueues(sessions.Keys, pollTimes, polls, clock, now, POLL_LIMIT);
      clock := now;
      UsableMeans(sessions.Keys, commandTimes, commands, now, COMMAND_LIMIT, sessionId);
      ok, commandTimes, commands :=
        Consume(connectionId, roomId, sessionId, commandTimes, COMMAND_LIMIT, now, commands);
    }

    method AllowPoll(connectionId: JsString, roomId: JsString, sessionId: SessionId, now: int) returns (ok: bool)
      requires Valid() && clock <= now
      modifies this
      ensures Valid() && clock == now && sessions == old(sessions) && commands == old(commands)
      ensures var calls := AllowedOf(old(polls), sessionId);
              ok <==> && Owns(connectionId, roomId, sessionId)
                      && (|calls| < 120 || now - calls[|calls| - 120] > 100_000_000)
      ensures polls == if ok then old(polls)[sessionId := AllowedOf(old(polls), sessionId) + [now]] else old(polls)
    {
      hide QueueOk, FewPerConnection;
      LaterQueues(sessions.Keys, commandTimes, commands, clock, now, COMMAND_LIMIT);
      LaterQueues(sessions.Keys, pollTimes, polls, clock, now, POLL_LIMIT);
      clock := now;
      UsableMeans(sessions.Keys, pollTimes, polls, now, POLL_LIMIT, sessionId);
      ok, pollTimes, polls := Consume(connectionId, roomId, sessionId, pollTimes, POLL_LIMIT, now, polls);
    }
  }

  // ----- Whole runs -----

  // The calls of one session that a limiter allows, by a clock that never goes back: each found room
  // in the ten seconds that ended with it.
  ghost predicate Admitted(allowed: seq<int>, limit: nat) {
    Ascending(allowed) && forall i | 0 <= i < |allowed| :: |InSpan(allowed[..i], allowed[i])| < limit
  }

  lemma {:induction false} AdmittedBounded(allowed: seq<int>, limit: nat)
    requires Admitted(allowed, limit)
    ensures Bounded(allowed, limit)
  {
    hide InSpan, Bounded;
    var n := |allowed| - 1;
    if n < 0 {
      NothingAllowed(limit);
    } else {
      var front := allowed[..n];
      assert forall i | 0 <= i < n :: front[..i] == allowed[..i];
      AdmittedBounded(front, limit);
      StillBounded(front, allowed[n], limit);
      assert front + [allowed[n]] == allowed;
    }
  }
}
