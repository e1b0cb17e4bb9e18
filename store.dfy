/** The database every variant reads and writes: the `MatchingRecord` table
    (one row per user), the `Room` table and the `Topic` names. Each method is
    one atomic ORM write. */
module Store {
  import opened Models
  import opened Queries

  class Database {
    var records: map<UserId, MatchingRecord>
    var rooms: seq<Room>
    var topics: set<string>

    /** The abstract value of the whole database. */
    function State(): Db
      reads this
    {
      Db(records, rooms, topics)
    }

    /** An empty database that knows the given topics. */
    constructor (topics: set<string>)
      ensures State() == Db(map[], [], topics)
    {
      this.records := map[];
      this.rooms := [];
      this.topics := topics;
    }

    /** Saving a record, or the upsert of `update_or_create`: the user's one
        row becomes `r`. */
    method SaveRecord(u: UserId, r: MatchingRecord)
      modifies this
      ensures State() == WithRecord(old(State()), u, r)
    {
      records := records[u := r];
    }

    /** Creating an active room, then adding every user of the window to
        it one at a time. */
    method CreateRoom(users: set<UserId>, now: Time) returns (id: RoomId)
      modifies this
      ensures id == |old(rooms)|
      ensures State() == WithNewRoom(old(State()), users, now)
    {
      id := |rooms|;
      rooms := rooms + [NewRoom(now).(isActive := true)];
      var toAdd := users;
      while toAdd != {}
        invariant toAdd <= users
        invariant |rooms| == id + 1 && rooms[..id] == old(rooms)
        invariant rooms[id] == Room(users - toAdd, now, true)
        invariant records == old(records) && topics == old(topics)
        decreases toAdd
      {
        var u :| u in toAdd;
        rooms := rooms[id := rooms[id].(users := rooms[id].users + {u})];
        toAdd := toAdd - {u};
      }
      assert users - toAdd == users;
      assert rooms == rooms[..id] + [rooms[id]];
    }

    /** Deactivating a room and saving it. */
    method DeactivateRoom(id: RoomId)
      requires id < |rooms|
      modifies this
      ensures State() == WithRoomInactive(old(State()), id)
    {
      rooms := rooms[id := rooms[id].(isActive := false)];
    }
  }
}
