/** The rows of the matchmaking database: one matching record per user and
    the rooms formed from them (gamemeet/chatrooms/models.py). */
module Models {

  /** Primary key of a user. */
  type UserId = nat

  /** Primary key of a room; rooms are numbered in creation order. */
  type RoomId = nat

  /** A point in time; `timezone.now()` is always passed in as a parameter. */
  type Time = nat

  /** Default of `MatchingRecord.number`. */
  const DefaultNumber: int := 2

  /** `max_length` of `MatchingRecord.game_name`. */
  const GameNameMaxLength: nat := 255

  /** A user's request to be matched. `gameName` is the matching key: the game
      name in the WebSocket variants, the topic's name in the HTTP variant.
      The three flags encode the lifecycle: active and neither pending nor
      confirmed is waiting; active and pending is matched and awaiting
      confirmation; active and confirmed is confirmed; inactive is withdrawn. */
  datatype MatchingRecord = MatchingRecord(
    gameName: string,
    number: int,
    submissionTime: Time,
    isActive: bool,
    isPending: bool,
    isConfirmed: bool)
  {
    /** In the queue: only such records are candidates for a room. */
    predicate Waiting() {
      isActive && !isPending && !isConfirmed
    }

    /** Matched and awaiting this user's confirmation. */
    predicate AwaitingConfirmation() {
      isActive && isPending && !isConfirmed
    }

    /** Matched and confirmed by this user. */
    predicate HasConfirmed() {
      isActive && !isPending && isConfirmed
    }

    /** Withdrawn: unregistered, or never registered. */
    predicate Withdrawn() {
      !isActive
    }
  }

  /** A record as `MatchingRecord(user=..., game_name=...)` creates it when no
      other field is given. */
  function NewRecord(gameName: string, now: Time): (r: MatchingRecord)
    ensures r.Withdrawn() && !r.Waiting() && !r.isPending && !r.isConfirmed
    ensures r.number == DefaultNumber && r.submissionTime == now && r.gameName == gameName
  {
    MatchingRecord(gameName, DefaultNumber, now, false, false, false)
  }

  /** The record `update_or_create` writes on registration: every field is
      overwritten, so the user is back at the end of the queue. */
  function RegisteredRecord(gameName: string, number: int, now: Time): (r: MatchingRecord)
    ensures r.Waiting() && r.submissionTime == now
    ensures r.gameName == gameName && r.number == number
  {
    MatchingRecord(gameName, number, now, true, false, false)
  }

  /** The `condition` object of a registration message: the topic's name
      (`topic`, HTTP) or the game name (`game_name`, WebSocket), and the
      wanted group size. */
  datatype Condition = Condition(gameName: string, number: int)

  /** A formed group. `users` is a many-to-many set. */
  datatype Room = Room(users: set<UserId>, createdDate: Time, isActive: bool)

  /** A room as `Room.objects.create()` makes it with no field given. */
  function NewRoom(now: Time): (r: Room)
    ensures r.users == {} && r.createdDate == now && !r.isActive
  {
    Room({}, now, false)
  }

  /** A game name the `CharField` accepts. */
  predicate ValidGameName(name: string) {
    |name| <= GameNameMaxLength
  }

  /** The whole database: one record per user (a one-to-one link, hence a
      map), the rooms in creation order, and the names of the known topics. */
  datatype Db = Db(records: map<UserId, MatchingRecord>, rooms: seq<Room>, topics: set<string>)
}
