/** The older WebSocket matching consumer of sub/consumer2.py. Matching runs
    as a task that registers the user and then retries `matching` until a
    room comes back; the consumer remembers the users it was matched with
    and checks their confirmations against that list. */
module RetryConsumers {
  import opened Wrappers
  import opened Models
  import opened Queries
  import opened Store
  import opened ConsumerSteps
  import Matcher
  import PollViews

  /** One call of `matching`: the database afterwards, the outcome, and the
      users the consumer then remembers (None: the list is left as it was). */
  datatype Attempt = Attempt(db: Db, result: Outcome<Option<RoomId>>, matched: Option<set<UserId>>)

  /** The caller's record is waiting and was submitted at exactly `t`. */
  predicate WaitsSince(d: Db, u: UserId, t: Time) {
    HasWaitingRecord(d, u) && d.records[u].submissionTime == t
  }

  /** `matching(condition, submission_time)`. The room lookup comes before
      the record check, and the candidates are chosen by the message's
      condition, not by the record's. */
  function MatchingStep(d: Db, u: UserId, c: Condition, t: Time, now: Time): (a: Attempt)
    ensures a.db.records == d.records && a.db.topics == d.topics
    // an existing room is returned first, and its members are remembered
    ensures LatestRoom(d.rooms, u, t).Some? ==>
              var id := LatestRoom(d.rooms, u, t).value;
              a == Attempt(d, Returned(Some(id)), Some(d.rooms[id].users))
    ensures a.result == Raised(DoesNotExist) <==> LatestRoom(d.rooms, u, t).None? && !WaitsSince(d, u, t)
    ensures a.result == Raised(NegativeIndexing) <==>
              LatestRoom(d.rooms, u, t).None? && WaitsSince(d, u, t) && c.number < 0
    ensures a.result.Raised? ==> a.result.error in {DoesNotExist, NegativeIndexing}
    ensures a.result == Returned(None) <==>
              LatestRoom(d.rooms, u, t).None? && WaitsSince(d, u, t)
              && var s := Candidates(d.records, c.gameName, c.number);
                 |s| < c.number || (0 <= c.number && u !in Window(d.records, s, c.number))
    ensures !(a.result.Returned? && a.result.value.Some?) ==> a.db == d && a.matched.None?
    // otherwise a room is created with exactly the window, which is remembered
    ensures LatestRoom(d.rooms, u, t).None? && a.result.Returned? && a.result.value.Some? ==>
              var w := Window(d.records, Candidates(d.records, c.gameName, c.number), c.number);
              && a.result.value.value == |d.rooms|
              && a.db == WithNewRoom(d, w, now)
              && a.matched == Some(w)
              && u in w && |w| == c.number
  {
    var existing := LatestRoom(d.rooms, u, t);
    if existing.Some? then Attempt(d, Returned(existing), Some(d.rooms[existing.value].users))
    else if !WaitsSince(d, u, t) then Attempt(d, Raised(DoesNotExist), None)
    else
      var (d', f) := Matcher.Form(d, u, t, c.gameName, c.number, now);
      match f
      case Joined(id) =>
        Attempt(d', Returned(Some(id)), Some(Window(d.records, Candidates(d.records, c.gameName, c.number), c.number)))
      case SliceError => Attempt(d', Raised(NegativeIndexing), None)
      case _ => Attempt(d', Returned(None), None)
  }

  /** A message condition that differs from the caller's own record never
      forms a room: the caller is not among its candidates. */
  lemma MismatchedConditionNeverForms(d: Db, u: UserId, c: Condition, t: Time, now: Time)
    requires WaitsSince(d, u, t)
    requires d.records[u].gameName != c.gameName || d.records[u].number != c.number
    requires LatestRoom(d.rooms, u, t).None?
    ensures MatchingStep(d, u, c, t, now).result != Raised(DoesNotExist)
    ensures MatchingStep(d, u, c, t, now).db == d
  {
    var s := Candidates(d.records, c.gameName, c.number);
    assert u !in s;
  }

  /** Right after `matching_register` with the same condition and time, the
      record check in `matching` always passes. */
  lemma RegisterThenMatchingFindsRecord(d: Db, u: UserId, c: Condition, t: Time, now: Time)
    ensures var d1 := RegisterStep(d, u, Some(c), t).0;
            MatchingStep(d1, u, c, t, now).result != Raised(DoesNotExist)
  {
  }

  /** Find-or-create is idempotent: once `matching` has answered room `id`,
      calling it again with the same condition and time answers `id` again
      and changes nothing. */
  lemma MatchingIdempotent(d: Db, u: UserId, c: Condition, t: Time, now: Time, later: Time, id: RoomId)
    requires t <= now
    requires MatchingStep(d, u, c, t, now).result == Returned(Some(id))
    ensures var d1 := MatchingStep(d, u, c, t, now).db;
            MatchingStep(d1, u, c, t, later).result == Returned(Some(id))
            && MatchingStep(d1, u, c, t, later).db == d1
  {
    if LatestRoom(d.rooms, u, t).None? {
      var d1 := MatchingStep(d, u, c, t, now).db;
      LatestRoomUnique(d1.rooms, u, t, id);
    }
  }

  /** The loop of `check_other_confirmations`, users in list order: the first
      user without a record makes the flag read on `None` raise, the first
      unconfirmed user makes it false. */
  function CheckInOrder(records: map<UserId, MatchingRecord>, ids: seq<UserId>): (r: Outcome<bool>)
    ensures r == Returned(true) <==> forall i | 0 <= i < |ids| :: ids[i] in records && records[ids[i]].isConfirmed
    ensures r == Raised(AttributeError) <==>
              exists i | 0 <= i < |ids| :: ids[i] !in records
                && forall j | 0 <= j < i :: ids[j] in records && records[ids[j]].isConfirmed
    ensures r == Returned(false) ==> exists i | 0 <= i < |ids| :: ids[i] in records && !records[ids[i]].isConfirmed
    ensures r.Raised? ==> r.error == AttributeError
  {
    if ids == [] then Returned(true)
    else if ids[0] !in records then Raised(AttributeError)
    else if !records[ids[0]].isConfirmed then Returned(false)
    else
      var rest := CheckInOrder(records, ids[1..]);
      assert forall i | 1 <= i < |ids| :: ids[1..][i - 1] == ids[i];
      if rest == Raised(AttributeError) then
        var k :| 0 <= k < |ids[1..]| && ids[1..][k] !in records
                 && forall j | 0 <= j < k :: ids[1..][j] in records && records[ids[1..][j]].isConfirmed;
        assert ids[k + 1] !in records;
        rest
      else if rest == Returned(false) then
        var k :| 0 <= k < |ids[1..]| && ids[1..][k] in records && !records[ids[1..][k]].isConfirmed;
        assert ids[k + 1] in records;
        rest
      else rest
  }

  /** `check_other_confirmations(id_list)`: false for an empty list. */
  function CheckConfirmationsStep(d: Db, ids: seq<UserId>): (r: Outcome<bool>)
    ensures r == Returned(true) <==> ids != [] && FlagsConfirmed(d, Elements(ids))
    ensures r.Raised? ==> r.error == AttributeError && exists m | m in ids :: m !in d.records
    ensures r == Returned(false) ==> ids == [] || exists m | m in ids :: m in d.records && !d.records[m].isConfirmed
  {
    if ids == [] then Returned(false)
    else
      var r := CheckInOrder(d.records, ids);
      if r.Raised? then
        var i :| 0 <= i < |ids| && ids[i] !in d.records;
        assert ids[i] in ids;
        r
      else if r == Returned(false) then
        var i :| 0 <= i < |ids| && ids[i] in d.records && !d.records[ids[i]].isConfirmed;
        assert ids[i] in ids;
        r
      else r
  }

  class MatchingConsumer {
    const db: Database
    const userId: UserId
    var groupId: Group
    var matchUserIds: seq<UserId>

    /** `connect`: no group is joined and nobody is remembered yet. */
    constructor Connect(db: Database, userId: UserId)
      ensures this.db == db && this.userId == userId
      ensures groupId == NoGroup && matchUserIds == []
    {
      this.db := db;
      this.userId := userId;
      groupId := NoGroup;
      matchUserIds := [];
    }

    /** `join_group`. */
    method JoinGroup(g: Group)
      modifies this
      ensures groupId == g && matchUserIds == old(matchUserIds)
    {
      groupId := g;
    }

    /** `matching_register`. */
    method MatchingRegister(condition: Option<Condition>, t: Time) returns (o: Outcome<bool>)
      modifies db
      ensures (db.State(), o) == RegisterStep(old(db.State()), userId, condition, t)
    {
      if condition.None? {
        return Raised(TypeError);
      }
      db.SaveRecord(userId, MatchingRecord(condition.value.gameName, condition.value.number, t, true, false, false));
      return Returned(true);
    }

    /** `matching_unregister`: the same step as the HTTP view. */
    method MatchingUnregister() returns (ok: bool)
      modifies db
      ensures (db.State(), ok) == PollViews.UnregisterStep(old(db.State()), userId)
    {
      if userId !in db.records || !db.records[userId].isActive {
        return false;
      }
      var record := db.records[userId];
      record := record.(isActive := false, isPending := false, isConfirmed := false);
      db.SaveRecord(userId, record);
      return true;
    }

    /** `pending`. */
    method Pending() returns (ok: bool)
      modifies db
      ensures (db.State(), ok) == PendingStep(old(db.State()), userId)
    {
      if userId !in db.records || !db.records[userId].isActive {
        return false;
      }
      var record := db.records[userId];
      db.SaveRecord(userId, record.(isPending := true));
      return true;
    }

    /** The ids of a set of users as a list, in an order the database
        chooses. */
    static method ListOf(users: set<UserId>) returns (l: seq<UserId>)
      ensures Elements(l) == users && Distinct(l)
    {
      l := [];
      var toList := users;
      while toList != {}
        invariant toList <= users
        invariant Elements(l) == users - toList && Distinct(l)
        decreases toList
      {
        var u :| u in toList;
        assert u !in Elements(l);
        assert Elements(l + [u]) == Elements(l) + {u};
        l := l + [u];
        toList := toList - {u};
      }
    }

    /** `matching`. */
    method Matching(c: Condition, t: Time, now: Time) returns (o: Outcome<Option<RoomId>>)
      modifies this, db
      ensures groupId == old(groupId)
      ensures db.State() == MatchingStep(old(db.State()), userId, c, t, now).db
      ensures o == MatchingStep(old(db.State()), userId, c, t, now).result
      ensures var m := MatchingStep(old(db.State()), userId, c, t, now).matched;
              if m.Some? then Elements(matchUserIds) == m.value && Distinct(matchUserIds)
              else matchUserIds == old(matchUserIds)
    {
      var room := LatestRoom(db.rooms, userId, t);
      if room.Some? {
        matchUserIds := ListOf(db.rooms[room.value].users);
        return Returned(room);
      }
      if userId !in db.records || !db.records[userId].Waiting() || db.records[userId].submissionTime != t {
        return Raised(DoesNotExist);
      }
      var window := Window(db.records, Candidates(db.records, c.gameName, c.number), c.number);
      var f := Matcher.FormRoom(db, userId, t, c.gameName, c.number, now);
      match f {
        case Joined(id) =>
          matchUserIds := ListOf(window);
          o := Returned(Some(id));
        case SliceError =>
          o := Raised(NegativeIndexing);
        case _ =>
          o := Returned(None);
      }
    }

    /** `wait_matching_until_complete`: `matching` again and again until it
        raises or yields a room, at most `fuel` times. With no other step
        between the attempts, a first attempt that yields nothing leaves
        everything as it was, so every later attempt yields nothing too. */
    method WaitMatchingUntilComplete(c: Condition, t: Time, now: Time, fuel: nat) returns (o: Outcome<Option<RoomId>>)
      modifies this, db
      ensures groupId == old(groupId)
      ensures fuel == 0 ==> o == Returned(None) && db.State() == old(db.State()) && matchUserIds == old(matchUserIds)
      ensures fuel > 0 ==>
                var a := MatchingStep(old(db.State()), userId, c, t, now);
                && db.State() == a.db && o == a.result
                && if a.matched.Some? then Elements(matchUserIds) == a.matched.value
                   else matchUserIds == old(matchUserIds)
    {
      o := Returned(None);
      var i := 0;
      while i < fuel
        invariant 0 <= i <= fuel
        invariant groupId == old(groupId)
        invariant db.State() == old(db.State()) && matchUserIds == old(matchUserIds)
        invariant o == Returned(None)
        invariant i > 0 ==> MatchingStep(old(db.State()), userId, c, t, now).result == Returned(None)
      {
        o := Matching(c, t, now);
        if o.Raised? || o.value.Some? {
          return;
        }
        i := i + 1;
      }
    }

    /** `confirm`. */
    method Confirm() returns (ok: bool)
      modifies db
      ensures (db.State(), ok) == ConfirmStep(old(db.State()), userId)
    {
      if userId !in db.records {
        return false;
      }
      var record := db.records[userId];
      db.SaveRecord(userId, record.(isConfirmed := true, isPending := false));
      return true;
    }

    /** `check_other_confirmations`. */
    method CheckOtherConfirmations(ids: seq<UserId>) returns (o: Outcome<bool>)
      ensures o == CheckConfirmationsStep(db.State(), ids)
    {
      if ids == [] {
        return Returned(false);
      }
      var i := 0;
      while i < |ids|
        invariant 0 <= i <= |ids|
        invariant CheckInOrder(db.records, ids) == CheckInOrder(db.records, ids[i..])
      {
        assert ids[i..][1..] == ids[i + 1..];
        if ids[i] !in db.records {
          return Raised(AttributeError);
        }
        if !db.records[ids[i]].isConfirmed {
          return Returned(false);
        }
        i := i + 1;
      }
      return Returned(true);
    }

    /** The `confirm_matching` branch of `receive`: the room id must be the
        group this consumer joined; then the caller confirms, and the group is
        told once every remembered user has confirmed. */
    method ReceiveConfirmMatching(roomId: Option<RoomId>) returns (o: Outcome<ConfirmReply>)
      modifies db
      ensures o == Returned(InvalidRoomId) <==> roomId.None? || groupId != RoomGroup(roomId.value)
      ensures o == Returned(InvalidRoomId) ==> db.State() == old(db.State())
      ensures o != Returned(InvalidRoomId) ==>
                && db.State() == ConfirmStep(old(db.State()), userId).0
                && o == match CheckConfirmationsStep(db.State(), matchUserIds)
                        case Returned(true) => Returned(MatchingComplete(groupId))
                        case Returned(false) => Returned(WaitingForOthers)
                        case Raised(e) => Raised(e)
    {
      if roomId.None? || groupId != RoomGroup(roomId.value) {
        return Returned(InvalidRoomId);
      }
      var _ := Confirm();
      var ok := CheckOtherConfirmations(matchUserIds);
      match ok {
        case Raised(e) => o := Raised(e);
        case Returned(false) => o := Returned(WaitingForOthers);
        case Returned(true) => o := Returned(MatchingComplete(groupId));
      }
    }

    /** `matching_task`: register, wait for a room, then mark the caller
        pending and join the room's group. Returns the room, or None when the
        attempts ran out. The handler that unregisters on ObjectDoesNotExist
        never runs: the record the wait looks for was just written. */
    method MatchingTask(condition: Option<Condition>, t: Time, now: Time, fuel: nat) returns (o: Outcome<Option<RoomId>>)
      modifies this, db
      ensures condition.None? ==>
                o == Raised(TypeError) && db.State() == old(db.State()) && matchUserIds == old(matchUserIds)
      ensures o.Raised? ==> o.error in {TypeError, NegativeIndexing}
      ensures o.Returned? && o.value.Some? ==>
                && condition.Some? && fuel > 0
                && groupId == RoomGroup(o.value.value)
                && o.value.value < |db.rooms| && userId in db.rooms[o.value.value].users
                && HasActiveRecord(db.State(), userId) && db.records[userId].isPending
      ensures !(o.Returned? && o.value.Some?) ==> groupId == old(groupId)
      // the database after registering, one `matching` attempt, and marking
      // the caller pending when a room came back
      ensures condition.Some? ==>
                var d1 := RegisterStep(old(db.State()), userId, condition, t).0;
                var a := MatchingStep(d1, userId, condition.value, t, now);
                if fuel == 0 then
                  o == Returned(None) && db.State() == d1 && matchUserIds == old(matchUserIds)
                else
                  && o == a.result
                  && db.State() == (if o.Returned? && o.value.Some? then PendingStep(a.db, userId).0 else a.db)
                  && (a.matched.Some? ==> Elements(matchUserIds) == a.matched.value)
                  && (a.matched.None? ==> matchUserIds == old(matchUserIds))
    {
      var registered := MatchingRegister(condition, t);
      if registered.Raised? {
        return Raised(registered.error);
      }
      o := WaitMatchingUntilComplete(condition.value, t, now, fuel);
      match o {
        case Raised(DoesNotExist) =>
          // unreachable here: the record was just written with time `t`
          assert false;
        case Raised(_) =>
        case Returned(None) =>
        case Returned(Some(id)) =>
          var _ := Pending();
          JoinGroup(RoomGroup(id));
      }
    }
  }
}
