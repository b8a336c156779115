/** The set of live sessions, with least-loaded placement. */
module SessionSet {
  import opened Bytes

  type SessionId = id: int | 0 <= id < TWO_64

  const MAX_INT: int := TWO_63 - 1

  /** uint64 increment. */
  function NextId(id: SessionId): SessionId {
    if id == TWO_64 - 1 then 0 else id + 1
  }

  class Session {
    var closed: bool
    var streams: nat

    constructor ()
      ensures !closed && streams == 0
    {
      closed, streams := false, 0;
    }

    method Close()
      modifies this`closed
      ensures closed
    {
      closed := true;
    }
  }

  class SessionSet {
    var sessions: map<SessionId, Session>
    var nextID: SessionId

    constructor ()
      ensures sessions == map[] && nextID == 0
    {
      sessions, nextID := map[], 0;
    }

    method Add(sess: Session) returns (id: SessionId)
      modifies this
      ensures id == old(nextID) && nextID == NextId(old(nextID)) == (old(nextID) + 1) % TWO_64
      ensures sessions == old(sessions)[id := sess]
    {
      id := nextID;
      nextID := NextId(nextID);
      sessions := sessions[id := sess];
    }

    method Remove(id: SessionId)
      modifies this`sessions
      ensures sessions == old(sessions) - {id}
    {
      sessions := sessions - {id};
    }

    /** The sessions that Pick may return: open, and not at the limit of int. */
    ghost predicate Eligible(id: SessionId)
      reads this, sessions.Values
    {
      id in sessions && !sessions[id].closed && sessions[id].streams < MAX_INT
    }

    /** An open session with the fewest streams, or null if there is none. */
    method Pick() returns (best: Session?)
      ensures best == null <==> forall id :: id in sessions ==> !Eligible(id)
      ensures best != null ==> exists id :: Eligible(id) && sessions[id] == best
      ensures best != null ==> forall id :: id in sessions && !sessions[id].closed ==> best.streams <= sessions[id].streams
    {
      best := null;
      var bestN := MAX_INT;
      var unvisited := sessions.Keys;
      while unvisited != {}
        invariant unvisited <= sessions.Keys
        invariant best == null ==> bestN == MAX_INT
        invariant best != null ==> best.streams == bestN < MAX_INT && exists id :: Eligible(id) && sessions[id] == best
        invariant forall id :: id in sessions && id !in unvisited && !sessions[id].closed ==> bestN <= sessions[id].streams
      {
        var id :| id in unvisited;
        unvisited := unvisited - {id};
        var sess := sessions[id];
        if sess.closed {
          continue;
        }
        if sess.streams < bestN {
          assert Eligible(id);
          bestN, best := sess.streams, sess;
        }
      }
    }

    method Count() returns (n: nat)
      ensures n == |sessions|
    {
      n := |sessions|;
    }

    method Healthy() returns (n: nat)
      ensures n == |set id | id in sessions && !sessions[id].closed|
    {
      n := 0;
      var unvisited := sessions.Keys;
      ghost var counted: set<SessionId> := {};
      while unvisited != {}
        invariant unvisited <= sessions.Keys && n == |counted|
        invariant counted == set id | id in sessions && id !in unvisited && !sessions[id].closed
      {
        var id :| id in unvisited;
        unvisited := unvisited - {id};
        if !sessions[id].closed {
          n, counted := n + 1, counted + {id};
        }
      }
      assert counted == set id | id in sessions && !sessions[id].closed;
    }

    method CloseAll()
      modifies this`sessions, sessions.Values`closed
      ensures sessions == map[]
      ensures forall s :: s in old(sessions).Values ==> s.closed
    {
      ghost var all := sessions;
      while sessions != map[]
        invariant forall k :: k in sessions ==> k in all && sessions[k] == all[k]
        invariant forall k :: k in all && k !in sessions ==> all[k].closed
        decreases sessions.Keys
      {
        var k :| k in sessions;
        sessions[k].Close();
        sessions := sessions - {k};
      }
    }
  }
}
