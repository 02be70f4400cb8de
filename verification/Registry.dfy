/**
  Who is logged in where: the session registry and the connection registry of the gate
  (namespace INT in Framework/game_gate/Entities.h). Every method runs under a lock, so the
  history of a registry is one sequence of calls, whatever threads make them.
*/
module Registry {
  import opened Options

  type UserId = int
  type Session = string

  /** Logins and logouts, in the order in which they got the lock. */
  datatype Event = Add(user: UserId, session: Session) | Remove(user: UserId, session: Session)

  /** Some add of this session for this user has been followed neither by another add for the
      user nor by a removal of this session. */
  ghost predicate Stands(log: seq<Event>, user: UserId, session: Session) {
    exists i :: 0 <= i < |log| && log[i] == Add(user, session) && Undisturbed(log, i, user, session)
  }

  ghost predicate Undisturbed(log: seq<Event>, i: int, user: UserId, session: Session) {
    forall j :: 0 <= i < j < |log| && log[j].user == user ==> log[j].Remove? && log[j].session != session
  }

  /** At most one session stands for a user. */
  lemma StandsUnique(log: seq<Event>, user: UserId, a: Session, b: Session)
    requires Stands(log, user, a) && Stands(log, user, b)
    ensures a == b
  {
    var i :| 0 <= i < |log| && log[i] == Add(user, a) && Undisturbed(log, i, user, a);
    var j :| 0 <= j < |log| && log[j] == Add(user, b) && Undisturbed(log, j, user, b);
    assert i == j;
  }

  lemma StandsAfter(log: seq<Event>, e: Event, user: UserId, session: Session)
    ensures Stands(log + [e], user, session)
            <==> e == Add(user, session)
                 || (Stands(log, user, session) && (e.user == user ==> e.Remove? && e.session != session))
  {
    var longer := log + [e];
    if Stands(longer, user, session) && e != Add(user, session) {
      var i :| 0 <= i < |longer| && longer[i] == Add(user, session) && Undisturbed(longer, i, user, session);
      assert longer[|log|] == e;
      assert forall j :: 0 <= j < |log| ==> longer[j] == log[j];
      assert Undisturbed(log, i, user, session);
    }
    if Stands(log, user, session) && (e.user == user ==> e.Remove? && e.session != session) {
      var i :| 0 <= i < |log| && log[i] == Add(user, session) && Undisturbed(log, i, user, session);
      assert longer[i] == log[i] && Undisturbed(longer, i, user, session);
    }
    if e == Add(user, session) {
      assert longer[|log|] == e && Undisturbed(longer, |log|, user, session);
    }
  }

  class Sessions {
    var sessions: map<UserId, Session>

    ghost var log: seq<Event>

    /** The map holds exactly the sessions that stand. */
    ghost predicate Valid()
      reads this
    {
      forall u, s :: (u in sessions && sessions[u] == s) <==> Stands(log, u, s)
    }

    constructor ()
      ensures Valid() && log == []
    {
      sessions, log := map[], [];
    }

    /** A login displaces the user's session, if there is one, and returns it. */
    method Add(user: UserId, session: Session) returns (displaced: Session)
      requires Valid()
      modifies this
      ensures Valid() && log == old(log) + [Event.Add(user, session)]
      ensures Stands(old(log), user, displaced) || (displaced == "" && forall s :: !Stands(old(log), user, s))
    {
      displaced := "";
      if user in sessions {
        displaced := sessions[user];
        sessions := sessions - {user};
      }
      sessions := sessions[user := session];
      ghost var e := Event.Add(user, session);
      forall u, s
        ensures (u in sessions && sessions[u] == s) <==> Stands(log + [e], u, s)
      {
        StandsAfter(log, e, u, s);
        assert (u in old(sessions) && old(sessions)[u] == s) <==> Stands(log, u, s);
      }
      log := log + [e];
    }

    method Get(user: UserId) returns (session: Session)
      requires Valid()
      ensures Stands(log, user, session) || (session == "" && forall s :: !Stands(log, user, s))
    {
      if user in sessions {
        return sessions[user];
      }
      return "";
    }

    /** A late logout of a session that was displaced changes nothing. */
    method Remove(user: UserId, session: Session)
      requires Valid()
      modifies this
      ensures Valid() && log == old(log) + [Event.Remove(user, session)]
      ensures !Stands(old(log), user, session) ==> sessions == old(sessions)
    {
      ghost var e := Event.Remove(user, session);
      forall u, s
        ensures Stands(log + [e], u, s) <==> Stands(log, u, s) && !(u == user && s == session)
      {
        StandsAfter(log, e, u, s);
      }
      assert (user in sessions && sessions[user] == session) <==> Stands(log, user, session);
      if user in sessions {
        if sessions[user] == session {
          sessions := sessions - {user};
        }
      }
      log := log + [e];
    }
  }

  // ---------------------------------------------------------------- connections

  type Connection = nat

  /** What is done to the connection registry. `live` maps the connections that exist at that
      time to the sessions in their contexts. */
  datatype PeerEvent =
    | Enter(user: UserId, conn: Connection)
    | Leave(user: UserId, session: Session, live: map<Connection, Session>)
    | Close(user: UserId, conn: Connection)
  {
    /** Whether this ends the registration of a connection for a user: another one takes its
        place, it is closed itself, or a session leaves and it is dead or has that session. */
    predicate Ends(u: UserId, c: Connection) {
      user == u &&
      match this
      case Enter(_, _) => true
      case Leave(_, session, live) => c in live ==> live[c] == session
      case Close(_, conn) => conn == c
    }
  }

  /** The connection has been added for the user, and nothing since has ended that. */
  ghost predicate Holds(log: seq<PeerEvent>, user: UserId, conn: Connection) {
    exists i :: 0 <= i < |log| && log[i] == Enter(user, conn) && NotEnded(log, i, user, conn)
  }

  ghost predicate NotEnded(log: seq<PeerEvent>, i: int, user: UserId, conn: Connection) {
    forall j :: 0 <= i < j < |log| ==> !log[j].Ends(user, conn)
  }

  lemma HoldsAfter(log: seq<PeerEvent>, e: PeerEvent, user: UserId, conn: Connection)
    ensures Holds(log + [e], user, conn)
            <==> e == Enter(user, conn) || (Holds(log, user, conn) && !e.Ends(user, conn))
  {
    var longer := log + [e];
    assert longer[|log|] == e && forall j :: 0 <= j < |log| ==> longer[j] == log[j];
    if Holds(longer, user, conn) && e != Enter(user, conn) {
      var i :| 0 <= i < |longer| && longer[i] == Enter(user, conn) && NotEnded(longer, i, user, conn);
      assert log[i] == Enter(user, conn) && NotEnded(log, i, user, conn);
    }
    if Holds(log, user, conn) && !e.Ends(user, conn) {
      var i :| 0 <= i < |log| && log[i] == Enter(user, conn) && NotEnded(log, i, user, conn);
      assert longer[i] == Enter(user, conn) && NotEnded(longer, i, user, conn);
    }
    if e == Enter(user, conn) {
      assert NotEnded(longer, |log|, user, conn);
    }
  }

  /** Whatever happens to other users, and however many other sessions of this user leave: a live
      connection stays registered until another one takes its place or it is closed. */
  lemma {:induction false} LiveConnectionStays(log: seq<PeerEvent>, more: seq<PeerEvent>,
                                               user: UserId, conn: Connection)
    requires Holds(log, user, conn)
    requires forall e :: e in more && e.user == user ==> !e.Enter? && (e.Close? ==> e.conn != conn)
    requires forall e :: e in more && e.user == user && e.Leave? ==> conn in e.live && e.live[conn] != e.session
    ensures Holds(log + more, user, conn)
  {
    if more == [] {
      assert log + more == log;
    } else {
      var shorter, e := more[..|more| - 1], more[|more| - 1];
      assert log + more == (log + shorter) + [e] && e in more && forall x :: x in shorter ==> x in more;
      LiveConnectionStays(log, shorter, user, conn);
      HoldsAfter(log + shorter, e, user, conn);
    }
  }

  /** Weak references to connections, by user. */
  class Entities {
    var peers: map<UserId, Connection>

    ghost var log: seq<PeerEvent>

    /** The map holds exactly the connections that have been added and not ended since. */
    ghost predicate Valid()
      reads this
    {
      forall u, c :: (u in peers && peers[u] == c) <==> Holds(log, u, c)
    }

    constructor ()
      ensures Valid() && log == []
    {
      peers, log := map[], [];
    }

    /** Returns the connection that was registered for the user, which is now displaced. */
    method Add(user: UserId, conn: Connection) returns (displaced: Option<Connection>)
      requires Valid()
      modifies this
      ensures Valid() && log == old(log) + [Enter(user, conn)]
      ensures if displaced.Some? then Holds(old(log), user, displaced.value)
              else forall c :: !Holds(old(log), user, c)
    {
      displaced := None;
      if user in peers {
        displaced := Some(peers[user]);
        peers := peers - {user};
      }
      peers := peers[user := conn];
      Record(Enter(user, conn), old(peers));
    }

    method Get(user: UserId) returns (conn: Option<Connection>)
      requires Valid()
      ensures if conn.Some? then Holds(log, user, conn.value) else forall c :: !Holds(log, user, c)
    {
      conn := if user in peers then Some(peers[user]) else None;
    }

    /** Removal by session. A connection that is live with another session is never erased; any
        other one of this user is. */
    method Remove(user: UserId, session: Session, live: map<Connection, Session>)
      requires Valid()
      modifies this
      ensures Valid() && log == old(log) + [Leave(user, session, live)]
      ensures forall u :: u in peers ==> u in old(peers) && peers[u] == old(peers)[u]
      ensures forall u :: u in old(peers) ==>
                (u !in peers <==> u == user && (old(peers)[u] in live ==> live[old(peers)[u]] == session))
    {
      if user in peers {
        if peers[user] in live {
          if live[peers[user]] == session {
            peers := peers - {user};
          }
        } else {
          peers := peers - {user};
        }
      }
      Record(Leave(user, session, live), old(peers));
    }

    /** Removal by connection; the code asserts that the registered one still exists. */
    method RemoveConnection(user: UserId, conn: Connection, ghost live: map<Connection, Session>)
      requires Valid() && (user in peers ==> peers[user] in live)
      modifies this
      ensures Valid() && log == old(log) + [Close(user, conn)]
      ensures peers == if Holds(old(log), user, conn) then old(peers) - {user} else old(peers)
    {
      assert (user in peers && peers[user] == conn) <==> Holds(log, user, conn);
      if user in peers {
        if peers[user] == conn {
          peers := peers - {user};
        }
      }
      Record(Close(user, conn), old(peers));
    }

    ghost method Record(e: PeerEvent, before: map<UserId, Connection>)
      requires forall u, c :: (u in before && before[u] == c) <==> Holds(log, u, c)
      requires forall u, c :: (u in peers && peers[u] == c)
                              <==> e == Enter(u, c) || (u in before && before[u] == c && !e.Ends(u, c))
      modifies `log
      ensures Valid() && log == old(log) + [e]
    {
      forall u, c
        ensures Holds(log + [e], u, c) <==> (u in peers && peers[u] == c)
      {
        HoldsAfter(log, e, u, c);
        assert (u in before && before[u] == c) <==> Holds(log, u, c);
      }
      log := log + [e];
    }
  }
}
