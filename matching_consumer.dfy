/** The WebSocket matching consumer of gamemeet/chatrooms/consumers.py: one
    object per connection, holding the connected user and the group it has
    joined, whose message handlers run the matching steps on the shared
    database. Each database-backed helper is one atomic step. */
module MatchingConsumers {
  import opened Wrappers
  import opened Models
  import opened Queries
  import opened Store
  import opened ConsumerSteps
  import Matcher
  import PollViews

  /** The reply to a `get_room` message. */
  datatype GetRoomReply =
    | NotRegistered            // 'error': `get_match_room` raised ObjectDoesNotExist
    | NowWaiting               // 'now waiting...'
    | GotMatched(room: RoomId) // 'got matched!' with the room id

  /** `get_match_room`: raises unless the caller is waiting; returns an
      existing room first; None when the caller cannot be matched yet;
      otherwise the room it now belongs to. It does not mark the caller
      pending. */
  function GetMatchRoomOutcome(d: Db, u: UserId, now: Time): (r: (Db, Outcome<Option<RoomId>>))
    ensures r.1 == Raised(DoesNotExist) <==> !HasWaitingRecord(d, u)
    ensures r.1 == Raised(NegativeIndexing) <==>
              HasWaitingRecord(d, u) && LatestRoom(d.rooms, u, d.records[u].submissionTime).None?
              && d.records[u].number < 0
    ensures r.1.Raised? ==> r.1.error in {DoesNotExist, NegativeIndexing}
    ensures r.0.records == d.records && r.0.topics == d.topics
    ensures HasWaitingRecord(d, u) && LatestRoom(d.rooms, u, d.records[u].submissionTime).Some? ==>
              r == (d, Returned(LatestRoom(d.rooms, u, d.records[u].submissionTime)))
    ensures r.1 == Returned(None) <==>
              HasWaitingRecord(d, u) && LatestRoom(d.rooms, u, d.records[u].submissionTime).None?
              && var n := d.records[u].number;
                 var s := Candidates(d.records, d.records[u].gameName, n);
                 |s| < n || (0 <= n && u !in Window(d.records, s, n))
    ensures r.1.Returned? && r.1.value.Some? ==>
              r.1.value.value < |r.0.rooms| && u in r.0.rooms[r.1.value.value].users
              && r.0.rooms[r.1.value.value].isActive
    ensures !(r.1.Returned? && r.1.value.Some?) ==> r.0 == d
  {
    if !HasWaitingRecord(d, u) then (d, Raised(DoesNotExist))
    else
      var mine := d.records[u];
      var existing := LatestRoom(d.rooms, u, mine.submissionTime);
      if existing.Some? then (d, Returned(existing))
      else
        var (d', f) := Matcher.Form(d, u, mine.submissionTime, mine.gameName, mine.number, now);
        match f
        case Joined(id) => (d', Returned(Some(id)))
        case SliceError => (d', Raised(NegativeIndexing))
        case _ => (d', Returned(None))
  }

  /** The `get_room` branch of `receive`: `get_match_room`, then `pending`
      when a room came back. Its effect on the database and its answer are
      exactly those of the HTTP view `get_match_room`. */
  function GetRoomStep(d: Db, u: UserId, now: Time): (r: (Db, Outcome<GetRoomReply>))
    ensures r.0 == PollViews.GetMatchRoomStep(d, u, now).0
    ensures r.1 == Returned(NotRegistered) <==> PollViews.GetMatchRoomStep(d, u, now).1 == PollViews.NotFound
    ensures r.1 == Returned(NowWaiting) <==> PollViews.GetMatchRoomStep(d, u, now).1 == PollViews.NotMatched
    ensures r.1 == Raised(NegativeIndexing) <==> PollViews.GetMatchRoomStep(d, u, now).1 == PollViews.SliceServerError
    ensures forall id :: r.1 == Returned(GotMatched(id)) <==> PollViews.GetMatchRoomStep(d, u, now).1 == PollViews.Matched(id)
  {
    var (d1, o) := GetMatchRoomOutcome(d, u, now);
    match o
    case Raised(DoesNotExist) => (d1, Returned(NotRegistered))
    case Raised(e) => (d1, Raised(e))
    case Returned(None) => (d1, Returned(NowWaiting))
    case Returned(Some(id)) => (PendingStep(d1, u).0, Returned(GotMatched(id)))
  }

  class MatchingConsumer {
    const db: Database
    const userId: UserId
    var groupId: Group

    /** `connect`: the connection's user joins its own group. */
    constructor Connect(db: Database, userId: UserId)
      ensures this.db == db && this.userId == userId && groupId == UserGroup(userId)
    {
      this.db := db;
      this.userId := userId;
      groupId := UserGroup(userId);
    }

    /** `join_group`. */
    method JoinGroup(g: Group)
      modifies this
      ensures groupId == g
    {
      groupId := g;
    }

    /** `register_matching`. */
    method RegisterMatching(condition: Option<Condition>, now: Time) returns (o: Outcome<bool>)
      modifies db
      ensures (db.State(), o) == RegisterStep(old(db.State()), userId, condition, now)
    {
      if condition.None? {
        return Raised(TypeError);
      }
      db.SaveRecord(userId, MatchingRecord(condition.value.gameName, condition.value.number, now, true, false, false));
      return Returned(true);
    }

    /** `unregister_matching`: the same step as the HTTP view. */
    method UnregisterMatching() returns (ok: bool)
      modifies db
      ensures (db.State(), ok) == PollViews.UnregisterStep(old(db.State()), userId)
    {
      if userId !in db.records || !db.records[userId].isActive {
        return false;
      }
      var record := db.records[userId];
      record := record.(isActive := false, isPending := false, isConfirmed := false);
      db.SaveRecord(userId, record);
      return true;
    }

    /** `pending`. */
    method Pending() returns (ok: bool)
      modifies db
      ensures (db.State(), ok) == PendingStep(old(db.State()), userId)
    {
      if userId !in db.records || !db.records[userId].isActive {
        return false;
      }
      var record := db.records[userId];
      db.SaveRecord(userId, record.(isPending := true));
      return true;
    }

    /** `get_match_room`. */
    method GetMatchRoom(now: Time) returns (o: Outcome<Option<RoomId>>)
      modifies db
      ensures (db.State(), o) == GetMatchRoomOutcome(old(db.State()), userId, now)
    {
      if userId !in db.records || !db.records[userId].Waiting() {
        return Raised(DoesNotExist);
      }
      var myrecord := db.records[userId];
      var room := LatestRoom(db.rooms, userId, myrecord.submissionTime);
      if room.Some? {
        return Returned(room);
      }
      var f := Matcher.FormRoom(db, userId, myrecord.submissionTime, myrecord.gameName, myrecord.number, now);
      match f {
        case Joined(id) => o := Returned(Some(id));
        case SliceError => o := Raised(NegativeIndexing);
        case _ => o := Returned(None);
      }
    }

    /** `room_exists`: false for a missing or empty id; otherwise whether that
        room has the caller as a member, which is also what lets the caller
        open the room page. */
    method RoomExists(roomId: Option<RoomId>) returns (b: bool)
      ensures b <==> PollViews.IsMemberRoom(db.State(), userId, roomId)
      ensures b <==> roomId.Some? && PollViews.RoomViewTestFunc(db.State(), userId, roomId.value) == Some(true)
    {
      if roomId.None? {
        return false;
      }
      b := roomId.value < |db.rooms| && userId in db.rooms[roomId.value].users;
    }

    /** `confirm`. */
    method Confirm() returns (ok: bool)
      modifies db
      ensures (db.State(), ok) == ConfirmStep(old(db.State()), userId)
    {
      if userId !in db.records {
        return false;
      }
      var record := db.records[userId];
      db.SaveRecord(userId, record.(isConfirmed := true, isPending := false));
      return true;
    }

    /** `check_other_confirmations`: true iff every member of the room has a
        confirmed record. The members are read in the database's order,
        which is unspecified, and the first member without a record makes
        the flag read on `None` raise unless an unconfirmed member came
        first; so each failing answer is only promised a witness. */
    method CheckOtherConfirmations(roomId: RoomId) returns (o: Outcome<bool>)
      ensures o == Raised(DoesNotExist) <==> roomId >= |db.rooms|
      ensures roomId < |db.rooms| ==>
                var members := db.rooms[roomId].users;
                && (o == Returned(true) <==> FlagsConfirmed(db.State(), members))
                && (o == Returned(false) ==> exists m | m in members :: m in db.records && !db.records[m].isConfirmed)
                && (o.Raised? ==> o.error == AttributeError && exists m | m in members :: m !in db.records)
    {
      if roomId >= |db.rooms| {
        return Raised(DoesNotExist);
      }
      var members := db.rooms[roomId].users;
      var remaining := members;
      while remaining != {}
        invariant remaining <= members
        invariant FlagsConfirmed(db.State(), members - remaining)
        decreases remaining
      {
        var m :| m in remaining;
        if m !in db.records {
          assert m in members;
          return Raised(AttributeError);
        }
        if !db.records[m].isConfirmed {
          assert m in members;
          return Returned(false);
        }
        remaining := remaining - {m};
      }
      return Returned(true);
    }

    /** The `get_room` branch of `receive`. */
    method ReceiveGetRoom(now: Time) returns (o: Outcome<GetRoomReply>)
      modifies this, db
      ensures (db.State(), o) == GetRoomStep(old(db.State()), userId, now)
      ensures groupId == if o.Returned? && o.value.GotMatched? then RoomGroup(o.value.room) else old(groupId)
    {
      var room := GetMatchRoom(now);
      match room {
        case Raised(DoesNotExist) =>
          o := Returned(NotRegistered);
        case Raised(e) =>
          o := Raised(e);
        case Returned(None) =>
          o := Returned(NowWaiting);
        case Returned(Some(id)) =>
          var _ := Pending();
          JoinGroup(RoomGroup(id));
          o := Returned(GotMatched(id));
      }
    }

    /** The `confirm_matching` branch of `receive`: validate the room id,
        confirm the caller, and tell the caller's current group once every
        member has confirmed. */
    method ReceiveConfirmMatching(roomId: Option<RoomId>) returns (o: Outcome<ConfirmReply>)
      modifies db
      ensures o == Returned(InvalidRoomId) <==> !PollViews.IsMemberRoom(old(db.State()), userId, roomId)
      ensures o == Returned(InvalidRoomId) ==> db.State() == old(db.State())
      ensures o != Returned(InvalidRoomId) ==>
                && db.State() == ConfirmStep(old(db.State()), userId).0
                && var members := db.rooms[roomId.value].users;
                   && (o == Returned(MatchingComplete(groupId)) <==> FlagsConfirmed(db.State(), members))
                   && (o.Returned? && o.value.MatchingComplete? ==> o.value.to == groupId)
                   && (o == Returned(WaitingForOthers) ==>
                         exists m | m in members :: m in db.records && !db.records[m].isConfirmed)
                   && (o.Raised? ==> o.error == AttributeError && exists m | m in members :: m !in db.records)
    {
      var valid := RoomExists(roomId);
      if !valid {
        return Returned(InvalidRoomId);
      }
      var _ := Confirm();
      var ok := CheckOtherConfirmations(roomId.value);
      match ok {
        case Raised(e) => o := Raised(e);
        case Returned(false) => o := Returned(WaitingForOthers);
        case Returned(true) => o := Returned(MatchingComplete(groupId));
      }
    }

    /** The `quit_wait` branch of `receive`: the unregister happens, then the
        handler reads a name it never bound and raises. */
    method ReceiveQuitWait() returns (o: Outcome<bool>)
      modifies db
      ensures db.State() == PollViews.UnregisterStep(old(db.State()), userId).0
      ensures o == Raised(NameError)
    {
      var _ := UnregisterMatching();
      return Raised(NameError);
    }
  }
}
