/** The poll-driven HTTP endpoints of yurutomo/chatrooms/views.py. Each
    endpoint is one atomic step on the database: a pure step function says
    what it does, and a method that reads rows and saves them is proved to do
    exactly that. Status codes and JSON bodies become response datatypes. */
module PollViews {
  import opened Wrappers
  import opened Models
  import opened Queries
  import opened Store
  import Matcher

  datatype RegisterResponse =
    | BadRequest                    // 400: no condition
    | ServerError                   // 500: `Topic.objects.get` raised
    | Registered(isRegistered: bool)

  datatype MatchResponse =
    | NotFound                      // 404: no waiting record
    | NotMatched                    // 200, is_matched false
    | Matched(roomId: RoomId)       // 200, is_matched true
    | SliceServerError              // 500: negative `number`

  datatype CompletionResponse =
    | InvalidRoomId                 // 400
    | RecordNotFound                // 404
    | Cancelled                     // 200, is_cancelled
    | NotConfirmed                  // 200, not completed
    | Completed                     // 200, is_completed

  // ---------------------------------------------------------------- register

  /** `register_matching`. */
  function RegisterStep(d: Db, u: UserId, condition: Option<Condition>, now: Time): (r: (Db, RegisterResponse))
    // 400 without a condition; the topic lookup raises on an unknown topic
    ensures r.1 == BadRequest <==> condition.None?
    ensures r.1 == ServerError <==> condition.Some? && condition.value.gameName !in d.topics
    // accepted exactly for a known topic and a user with no active record
    ensures r.1 == Registered(true) <==>
              condition.Some? && condition.value.gameName in d.topics && !HasActiveRecord(d, u)
    // refused while any active record exists, and then nothing changes
    ensures r.1 == Registered(false) <==>
              condition.Some? && condition.value.gameName in d.topics && HasActiveRecord(d, u)
    ensures r.1 != Registered(true) ==> r.0 == d
    // a success leaves the user's single row waiting, submitted now, and
    // changes no other row
    ensures r.1 == Registered(true) ==>
              && condition.Some? && condition.value.gameName in d.topics && !HasActiveRecord(d, u)
              && HasWaitingRecord(r.0, u)
              && r.0.records[u].submissionTime == now
              && r.0.records[u].gameName == condition.value.gameName
              && r.0.records[u].number == condition.value.number
              && r.0.records.Keys == d.records.Keys + {u}
              && (forall v | v in d.records && v != u :: r.0.records[v] == d.records[v])
              && r.0.rooms == d.rooms && r.0.topics == d.topics
  {
    if condition.None? then (d, BadRequest)
    // Topic.objects.get raises on an unknown topic: the `is None` branch is dead
    else if condition.value.gameName !in d.topics then (d, ServerError)
    else if HasActiveRecord(d, u) then (d, Registered(false))
    else (WithRecord(d, u, RegisteredRecord(condition.value.gameName, condition.value.number, now)), Registered(true))
  }

  method RegisterMatching(db: Database, u: UserId, condition: Option<Condition>, now: Time)
    returns (resp: RegisterResponse)
    modifies db
    ensures (db.State(), resp) == RegisterStep(old(db.State()), u, condition, now)
  {
    if condition.None? {
      return BadRequest;
    }
    var topic := condition.value.gameName;
    if topic !in db.topics {
      return ServerError;
    }
    if u in db.records && db.records[u].isActive {
      return Registered(false);
    }
    db.SaveRecord(u, MatchingRecord(topic, condition.value.number, now, true, false, false));
    return Registered(true);
  }

  // -------------------------------------------------------------- unregister

  /** `unregister_matching`. */
  function UnregisterStep(d: Db, u: UserId): (r: (Db, bool))
    ensures r.1 <==> HasActiveRecord(d, u)
    ensures !HasActiveRecord(r.0, u)
    // all three flags are cleared; nothing else changes
    ensures r.1 ==> r.0 == WithRecord(d, u, d.records[u].(isActive := false, isPending := false, isConfirmed := false))
    ensures !r.1 ==> r.0 == d
  {
    if !HasActiveRecord(d, u) then (d, false)
    else (WithRecord(d, u, d.records[u].(isActive := false, isPending := false, isConfirmed := false)), true)
  }

  method UnregisterMatching(db: Database, u: UserId) returns (ok: bool)
    modifies db
    ensures (db.State(), ok) == UnregisterStep(old(db.State()), u)
  {
    if u !in db.records || !db.records[u].isActive {
      return false;
    }
    var record := db.records[u];
    record := record.(isActive := false, isPending := false, isConfirmed := false);
    db.SaveRecord(u, record);
    return true;
  }

  // ---------------------------------------------------------- get_match_room

  /** `get_match_room`. */
  function GetMatchRoomStep(d: Db, u: UserId, now: Time): (r: (Db, MatchResponse))
    ensures r.1 == NotFound <==> !HasWaitingRecord(d, u)
    ensures !r.1.Matched? ==> r.0 == d
    // an existing room is returned before any queue check
    ensures HasWaitingRecord(d, u) && LatestRoom(d.rooms, u, d.records[u].submissionTime).Some? ==>
              r.1 == Matched(LatestRoom(d.rooms, u, d.records[u].submissionTime).value) && r.0.rooms == d.rooms
    // every match leaves the caller pending in an active room holding it,
    // and touches no other record
    ensures r.1.Matched? ==>
              && HasWaitingRecord(d, u)
              && r.0.records == d.records[u := d.records[u].(isPending := true)]
              && r.1.roomId < |r.0.rooms| && u in r.0.rooms[r.1.roomId].users && r.0.rooms[r.1.roomId].isActive
    // with no room to join: not matched exactly when the candidates are too
    // few or the caller is outside the first `number` of them
    ensures HasWaitingRecord(d, u) && LatestRoom(d.rooms, u, d.records[u].submissionTime).None? ==>
              var n := d.records[u].number;
              var s := Candidates(d.records, d.records[u].gameName, n);
              && (r.1 == NotMatched <==> |s| < n || (0 <= n && u !in Window(d.records, s, n)))
              && (r.1 == SliceServerError <==> n < 0)
              && (r.1.Matched? ==> |r.0.rooms| == |d.rooms| + 1)
    // at most one room is created, and only when none qualified
    ensures |r.0.rooms| == |d.rooms| || |r.0.rooms| == |d.rooms| + 1
    ensures |r.0.rooms| == |d.rooms| + 1 ==>
              && HasWaitingRecord(d, u)
              && LatestRoom(d.rooms, u, d.records[u].submissionTime).None?
              && r.1 == Matched(|d.rooms|)
              && r.0.rooms[..|d.rooms|] == d.rooms
              && var s := Candidates(d.records, d.records[u].gameName, d.records[u].number);
                 r.0.rooms[|d.rooms|] == Room(Window(d.records, s, d.records[u].number), now, true)
                 && |r.0.rooms[|d.rooms|].users| == d.records[u].number
  {
    if !HasWaitingRecord(d, u) then (d, NotFound)
    else
      var mine := d.records[u];
      var existing := LatestRoom(d.rooms, u, mine.submissionTime);
      if existing.Some? then
        (WithRecord(d, u, mine.(isPending := true)), Matched(existing.value))
      else
        var (d', f) := Matcher.Form(d, u, mine.submissionTime, mine.gameName, mine.number, now);
        match f
        case Joined(id) => (WithRecord(d', u, mine.(isPending := true)), Matched(id))
        case SliceError => (d', SliceServerError)
        case _ => (d', NotMatched)
  }

  method GetMatchRoom(db: Database, u: UserId, now: Time) returns (resp: MatchResponse)
    modifies db
    ensures (db.State(), resp) == GetMatchRoomStep(old(db.State()), u, now)
  {
    if u !in db.records || !db.records[u].Waiting() {
      return NotFound;
    }
    var myrecord := db.records[u];
    var room := LatestRoom(db.rooms, u, myrecord.submissionTime);
    if room.Some? {
      db.SaveRecord(u, myrecord.(isPending := true));
      return Matched(room.value);
    }
    var f := Matcher.FormRoom(db, u, myrecord.submissionTime, myrecord.gameName, myrecord.number, now);
    match f {
      case Joined(id) =>
        db.SaveRecord(u, myrecord.(isPending := true));
        resp := Matched(id);
      case SliceError =>
        resp := SliceServerError;
      case _ =>
        resp := NotMatched;
    }
  }

  // ------------------------------------------------ confirm / cancel_confirm

  /** `confirm_matching`. */
  function ConfirmStep(d: Db, u: UserId): (r: (Db, bool))
    ensures r.1 <==> u in d.records && d.records[u].AwaitingConfirmation()
    ensures r.1 ==> r.0 == WithRecord(d, u, d.records[u].(isConfirmed := true, isPending := false))
                    && r.0.records[u].HasConfirmed()
    ensures !r.1 ==> r.0 == d
  {
    if u in d.records && d.records[u].AwaitingConfirmation() then
      (WithRecord(d, u, d.records[u].(isConfirmed := true, isPending := false)), true)
    else (d, false)
  }

  method ConfirmMatching(db: Database, u: UserId) returns (ok: bool)
    modifies db
    ensures (db.State(), ok) == ConfirmStep(old(db.State()), u)
  {
    if u !in db.records {
      return false;
    }
    var record := db.records[u];
    if !(record.isActive && record.isPending && !record.isConfirmed) {
      return false;
    }
    record := record.(isConfirmed := true, isPending := false);
    db.SaveRecord(u, record);
    return true;
  }

  /** `cancel_confirm`: back to waiting, not to pending. */
  function CancelConfirmStep(d: Db, u: UserId): (r: (Db, bool))
    ensures r.1 <==> u in d.records && d.records[u].HasConfirmed()
    ensures r.1 ==> r.0 == WithRecord(d, u, d.records[u].(isPending := false, isConfirmed := false))
                    && HasWaitingRecord(r.0, u)
    ensures !r.1 ==> r.0 == d
  {
    if u in d.records && d.records[u].HasConfirmed() then
      (WithRecord(d, u, d.records[u].(isPending := false, isConfirmed := false)), true)
    else (d, false)
  }

  method CancelConfirm(db: Database, u: UserId) returns (ok: bool)
    modifies db
    ensures (db.State(), ok) == CancelConfirmStep(old(db.State()), u)
  {
    if u !in db.records {
      return false;
    }
    var record := db.records[u];
    if !(record.isActive && !record.isPending && record.isConfirmed) {
      return false;
    }
    record := record.(isPending := false, isConfirmed := false);
    db.SaveRecord(u, record);
    return true;
  }

  // ----------------------------------------------------- get_match_completed

  /** The room id names an existing room that has `u` as a member. */
  predicate IsMemberRoom(d: Db, u: UserId, roomId: Option<RoomId>) {
    roomId.Some? && roomId.value < |d.rooms| && u in d.rooms[roomId.value].users
  }

  /** Every member has a record that is active and confirmed. */
  predicate AllConfirmed(d: Db, members: set<UserId>) {
    forall m | m in members :: m in d.records && d.records[m].isActive && d.records[m].isConfirmed
  }

  /** `get_match_completed`. The members are examined in the database's order,
      which is unspecified, and the first failing member decides; so each
      failing answer is only promised to have a witness among the members. */
  method GetMatchCompleted(db: Database, u: UserId, roomId: Option<RoomId>) returns (resp: CompletionResponse)
    modifies db
    ensures resp == InvalidRoomId <==> !IsMemberRoom(old(db.State()), u, roomId)
    ensures resp != InvalidRoomId ==>
              var members := old(db.rooms)[roomId.value].users;
              && (resp == Completed <==> AllConfirmed(old(db.State()), members))
              && (resp == RecordNotFound ==> exists m | m in members :: m !in old(db.records))
              && (resp == Cancelled ==> exists m | m in members :: m in old(db.records) && !old(db.records)[m].isActive)
              && (resp == NotConfirmed ==>
                    exists m | m in members :: m in old(db.records) && old(db.records)[m].isActive && !old(db.records)[m].isConfirmed)
    // the room is deactivated exactly when the answer is cancelled
    ensures resp == Cancelled ==> db.State() == WithRoomInactive(old(db.State()), roomId.value)
    ensures resp != Cancelled ==> db.State() == old(db.State())
  {
    if roomId.None? || roomId.value >= |db.rooms| || u !in db.rooms[roomId.value].users {
      return InvalidRoomId;
    }
    var id := roomId.value;
    var members := db.rooms[id].users;
    var remaining := members;
    while remaining != {}
      invariant remaining <= members
      invariant db.State() == old(db.State())
      invariant AllConfirmed(db.State(), members - remaining)
      decreases remaining
    {
      var m :| m in remaining;
      if m !in db.records {
        return RecordNotFound;
      }
      var record := db.records[m];
      if !record.isActive {
        db.DeactivateRoom(id);
        return Cancelled;
      }
      if !record.isConfirmed {
        return NotConfirmed;
      }
      remaining := remaining - {m};
    }
    return Completed;
  }

  // ----------------------------------------------------- RoomView.test_func

  /** `RoomView.test_func`: None is the 404 of `get_object_or_404`; otherwise
      whether the user may open the room. */
  function RoomViewTestFunc(d: Db, u: UserId, roomId: RoomId): (r: Option<bool>)
    ensures r.None? <==> roomId >= |d.rooms|
    ensures r == Some(true) <==> IsMemberRoom(d, u, Some(roomId))
  {
    if roomId >= |d.rooms| then None
    else Some(u in d.rooms[roomId].users)
  }
}
