/** The presence table: room -> address -> last heartbeat, pruned lazily when read. */
module Presence {

  /** Seconds after its last heartbeat at which an entry counts as stale. */
  const StaleAfter: real := 15.0

  /** One heartbeat: the nickname and avatar sent and the time it arrived. */
  datatype Entry = Entry(nickname: string, avatar: string, lastSeen: real)

  type Users = map<string, Entry>
  type Table = map<string, Users>

  /** An entry is kept at time `now` unless more than `StaleAfter` seconds old. */
  predicate IsFresh(e: Entry, now: real) {
    now - e.lastSeen <= StaleAfter
  }

  /** The users of a room that survive a read at time `now`. */
  function Prune(users: Users, now: real): (r: Users)
    ensures r.Keys <= users.Keys
    ensures forall ip :: ip in r ==> r[ip] == users[ip] && IsFresh(r[ip], now)
    ensures forall ip :: ip in users && IsFresh(users[ip], now) ==> ip in r
  {
    map ip | ip in users && IsFresh(users[ip], now) :: users[ip]
  }

  /** The table after a heartbeat from `ip` in `room` at time `now`. */
  function Heartbeat(t: Table, room: string, ip: string, nickname: string, avatar: string, now: real): (r: Table)
    ensures r.Keys == t.Keys + {room}
    ensures ip in r[room] && r[room][ip] == Entry(nickname, avatar, now)
    ensures room in t ==> r[room].Keys == t[room].Keys + {ip}
    ensures room !in t ==> r[room].Keys == {ip}
    ensures forall q :: q in t && q != room ==> r[q] == t[q]
    ensures forall q :: room in t && q in t[room] && q != ip ==> r[room][q] == t[room][q]
  {
    var users := if room in t then t[room] else map[];
    t[room := users[ip := Entry(nickname, avatar, now)]]
  }

  /** Reading twice at the same time prunes nothing more. */
  lemma PruneIdempotent(users: Users, now: real)
    ensures Prune(Prune(users, now), now) == Prune(users, now)
  {
  }

  /**
   * Pruning lazily at an earlier read and again later gives what pruning once
   * at the later read gives: the result depends only on the latest read time.
   */
  lemma PruneLater(users: Users, earlier: real, later: real)
    requires earlier <= later
    ensures Prune(Prune(users, earlier), later) == Prune(users, later)
  {
    var a := Prune(Prune(users, earlier), later);
    var b := Prune(users, later);
    assert a.Keys == b.Keys by {
      forall ip | ip in b ensures ip in a {
        assert IsFresh(users[ip], earlier);
      }
    }
  }

  /** A heartbeat at `now` is shown by a read at `t` exactly when `t` is within the window. */
  lemma HeartbeatVisible(t: Table, room: string, ip: string, nickname: string, avatar: string, now: real, at: real)
    ensures var users := Heartbeat(t, room, ip, nickname, avatar, now)[room];
      ip in Prune(users, at) <==> at - now <= StaleAfter
  {
  }
}
