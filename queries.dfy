/** The database queries the matching engine is built from, as functions of
    the database state, with the facts about the FIFO window proved once. */
module Queries {
  import opened Wrappers
  import opened Models

  /** The lookup of the user's active record finds a row. */
  predicate HasActiveRecord(d: Db, u: UserId) {
    u in d.records && d.records[u].isActive
  }

  /** The caller's row is waiting in the queue (active, neither pending nor confirmed). */
  predicate HasWaitingRecord(d: Db, u: UserId) {
    u in d.records && d.records[u].Waiting()
  }

  /** A room the room lookup keeps: active, with `u` as a member, and
      created no earlier than `notBefore`. */
  predicate Qualifies(room: Room, u: UserId, notBefore: Time) {
    u in room.users && room.isActive && room.createdDate >= notBefore
  }

  /** The room lookup, newest first, taking the first: the qualifying room
      created last; among rooms with the same creation date the one
      inserted last. */
  function LatestRoom(rooms: seq<Room>, u: UserId, notBefore: Time): (r: Option<RoomId>)
    ensures r.None? <==> forall i | 0 <= i < |rooms| :: !Qualifies(rooms[i], u, notBefore)
    ensures r.Some? ==> r.value < |rooms| && Qualifies(rooms[r.value], u, notBefore)
    ensures r.Some? ==> forall i | 0 <= i < |rooms| && Qualifies(rooms[i], u, notBefore) ::
                          rooms[i].createdDate <= rooms[r.value].createdDate
  {
    if |rooms| == 0 then None
    else
      var last := |rooms| - 1;
      var earlier := LatestRoom(rooms[..last], u, notBefore);
      if Qualifies(rooms[last], u, notBefore)
         && (earlier.None? || rooms[earlier.value].createdDate <= rooms[last].createdDate)
      then Some(last)
      else earlier
  }

  /** A room that qualifies and no other does: `LatestRoom` finds it. */
  lemma LatestRoomUnique(rooms: seq<Room>, u: UserId, notBefore: Time, k: RoomId)
    requires k < |rooms| && Qualifies(rooms[k], u, notBefore)
    requires forall i | 0 <= i < |rooms| && i != k :: !Qualifies(rooms[i], u, notBefore)
    ensures LatestRoom(rooms, u, notBefore) == Some(k)
  {
  }

  /** A row the candidate query keeps: waiting, with the same game name
      (or topic) and the same group size. */
  predicate IsCandidate(r: MatchingRecord, gameName: string, number: int) {
    r.Waiting() && r.gameName == gameName && r.number == number
  }

  /** Every user whose row is a candidate for the criterion (gameName, number). */
  function Candidates(records: map<UserId, MatchingRecord>, gameName: string, number: int): (s: set<UserId>)
    ensures s <= records.Keys
    ensures forall v :: v in s <==> v in records && IsCandidate(records[v], gameName, number)
  {
    set v | v in records && IsCandidate(records[v], gameName, number)
  }

  /** The queue order, by submission time, with the user id as the
      deterministic secondary key for equal submission times. */
  predicate Before(records: map<UserId, MatchingRecord>, a: UserId, b: UserId) {
    a in records && b in records &&
    (records[a].submissionTime < records[b].submissionTime ||
     (records[a].submissionTime == records[b].submissionTime && a < b))
  }

  /** How many users of `s` are ahead of `v` in the queue. */
  function Rank(records: map<UserId, MatchingRecord>, s: set<UserId>, v: UserId): nat {
    |set w | w in s && Before(records, w, v)|
  }

  /** The first `n` users of `s` in queue order, as a set: the users with
      fewer than `n` users of `s` ahead of them. */
  function Window(records: map<UserId, MatchingRecord>, s: set<UserId>, n: int): (w: set<UserId>)
    ensures w <= s
  {
    set v | v in s && Rank(records, s, v) < n
  }

  lemma {:induction false} SubsetCard<T>(a: set<T>, b: set<T>)
    requires a <= b
    ensures |a| <= |b|
    decreases |b|
  {
    if a != {} {
      var x :| x in a;
      SubsetCard(a - {x}, b - {x});
    }
  }

  /** A nonempty set of users has a last user in queue order. */
  lemma {:induction false} LastInQueue(records: map<UserId, MatchingRecord>, s: set<UserId>) returns (m: UserId)
    requires s != {} && s <= records.Keys
    ensures m in s
    ensures forall v | v in s && v != m :: Before(records, v, m)
    decreases |s|
  {
    var x :| x in s;
    if s == {x} {
      m := x;
    } else {
      var m' := LastInQueue(records, s - {x});
      m := if Before(records, m', x) then x else m';
      forall v | v in s && v != m ensures Before(records, v, m) {
        if v != x && v != m' {
          assert Before(records, v, m');
        }
      }
    }
  }

  /** Removing the last user of the queue changes nobody else's rank. */
  lemma RankWithoutLast(records: map<UserId, MatchingRecord>, s: set<UserId>, m: UserId, v: UserId)
    requires m in s && v in s && v != m
    requires forall x | x in s && x != m :: Before(records, x, m)
    ensures Rank(records, s, v) == Rank(records, s - {m}, v)
  {
    assert (set w | w in s && Before(records, w, v)) == (set w | w in s - {m} && Before(records, w, v));
  }

  /** The window holds exactly `n` users when there are at least `n`
      candidates, and all of them otherwise. */
  lemma {:induction false} WindowSize(records: map<UserId, MatchingRecord>, s: set<UserId>, n: int)
    requires s <= records.Keys && n >= 0
    ensures |Window(records, s, n)| == if n <= |s| then n else |s|
    decreases |s|
  {
    if s != {} {
      var m := LastInQueue(records, s);
      var s' := s - {m};
      assert (set w | w in s && Before(records, w, m)) == s';
      forall v | v in s' ensures Rank(records, s, v) == Rank(records, s', v) {
        RankWithoutLast(records, s, m, v);
      }
      if n <= |s'| {
        assert Window(records, s, n) == Window(records, s', n);
      } else {
        assert Window(records, s, n) == Window(records, s', n) + {m};
      }
      WindowSize(records, s', n);
    }
  }

  /** Nobody is ahead of more users than there are others. */
  lemma RankBound(records: map<UserId, MatchingRecord>, s: set<UserId>, v: UserId)
    requires v in s
    ensures Rank(records, s, v) < |s|
  {
    var ahead := set w | w in s && Before(records, w, v);
    SubsetCard(ahead, s - {v});
  }

  /** When there are no more candidates than the window is wide, the window is
      every candidate. */
  lemma WindowAll(records: map<UserId, MatchingRecord>, s: set<UserId>, n: int)
    requires |s| <= n
    ensures Window(records, s, n) == s
  {
    forall v | v in s ensures Rank(records, s, v) < n {
      RankBound(records, s, v);
    }
  }

  /** FIFO: every user in the window is ahead of every candidate left out. */
  lemma WindowIsFifo(records: map<UserId, MatchingRecord>, s: set<UserId>, n: int, u: UserId, v: UserId)
    requires s <= records.Keys
    requires u in Window(records, s, n) && v in s && v !in Window(records, s, n)
    ensures Before(records, u, v)
  {
    if !Before(records, u, v) {
      assert Before(records, v, u);
      var behindV := set w | w in s && Before(records, w, v);
      var behindU := set w | w in s && Before(records, w, u);
      SubsetCard(behindV, behindU - {v});
      assert false;
    }
  }

  /** No user is listed twice. */
  predicate Distinct(s: seq<UserId>) {
    forall i, j | 0 <= i < j < |s| :: s[i] != s[j]
  }

  /** The users a list holds. */
  function Elements(s: seq<UserId>): set<UserId> {
    set x | x in s
  }

  /** The database after the user's record is saved as `r`. */
  function WithRecord(d: Db, u: UserId, r: MatchingRecord): Db {
    d.(records := d.records[u := r])
  }

  /** The database after an active room is created and `users` are added
      as its members; the new room's id is `|d.rooms|`. */
  function WithNewRoom(d: Db, users: set<UserId>, now: Time): Db {
    d.(rooms := d.rooms + [NewRoom(now).(isActive := true, users := users)])
  }

  /** The database after room `id` is deactivated and saved. */
  function WithRoomInactive(d: Db, id: RoomId): Db
    requires id < |d.rooms|
  {
    d.(rooms := d.rooms[id := d.rooms[id].(isActive := false)])
  }
}
