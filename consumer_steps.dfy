/** The database steps the two WebSocket matching consumers share
    (gamemeet/chatrooms/consumers.py and sub/consumer2.py run the same code
    for registering, marking pending and confirming), and the channel-layer
    group a consumer has joined. */
module ConsumerSteps {
  import opened Wrappers
  import opened Models
  import opened Queries
  import PollViews

  /** The group a consumer has joined: none yet, its own user's group, or the
      group named after a room. */
  datatype Group = NoGroup | UserGroup(user: UserId) | RoomGroup(room: RoomId)

  /** The reply to a `confirm_matching` message. */
  datatype ConfirmReply =
    | InvalidRoomId               // 'invalid room id'
    | WaitingForOthers            // 'waiting for other confirmations...'
    | MatchingComplete(to: Group) // 'matching complete' sent to this group

  /** `update_or_create` of the user's record with every field given: the
      record is written whatever the user's state was. */
  function UpsertStep(d: Db, u: UserId, c: Condition, now: Time): (r: Db)
    ensures HasWaitingRecord(r, u)
    ensures r.records[u] == RegisteredRecord(c.gameName, c.number, now)
    ensures r.records.Keys == d.records.Keys + {u}
    ensures forall v | v in d.records && v != u :: r.records[v] == d.records[v]
    ensures r.rooms == d.rooms && r.topics == d.topics
  {
    WithRecord(d, u, RegisteredRecord(c.gameName, c.number, now))
  }

  /** `register_matching` / `matching_register`: a missing condition makes
      the subscript raise; otherwise the upsert, and the answer is always true. */
  function RegisterStep(d: Db, u: UserId, condition: Option<Condition>, now: Time): (r: (Db, Outcome<bool>))
    ensures r.1 == Raised(TypeError) <==> condition.None?
    ensures condition.Some? ==> r.1 == Returned(true)
    ensures condition.None? ==> r.0 == d
    ensures condition.Some? ==> r.0 == UpsertStep(d, u, condition.value, now)
  {
    if condition.None? then (d, Raised(TypeError))
    else (UpsertStep(d, u, condition.value, now), Returned(true))
  }

  /** Unlike the HTTP view, re-registering while already active succeeds and
      moves the user to the back of the queue: another waiting candidate for
      the same criterion with an earlier submission now comes first. */
  lemma ReRegisterRestartsQueue(d: Db, u: UserId, v: UserId, c: Condition, now: Time)
    requires HasActiveRecord(d, u) && u != v && v in d.records
    requires IsCandidate(d.records[v], c.gameName, c.number) && d.records[v].submissionTime < now
    ensures PollViews.RegisterStep(d, u, Some(c), now).1 == PollViews.Registered(false)
            || c.gameName !in d.topics
    ensures var d' := RegisterStep(d, u, Some(c), now).0;
            var s := Candidates(d'.records, c.gameName, c.number);
            && d'.records[u].submissionTime == now
            && u in s && v in s && Before(d'.records, v, u)
  {
  }

  /** `pending`: marks the active record pending, whatever its other flags. */
  function PendingStep(d: Db, u: UserId): (r: (Db, bool))
    ensures r.1 <==> HasActiveRecord(d, u)
    ensures r.1 ==> r.0 == WithRecord(d, u, d.records[u].(isPending := true))
                    && r.0.records[u].isActive && r.0.records[u].isPending
    ensures !r.1 ==> r.0 == d
  {
    if HasActiveRecord(d, u) then (WithRecord(d, u, d.records[u].(isPending := true)), true)
    else (d, false)
  }

  /** `confirm`: any record of the user, active or not, becomes confirmed and
      not pending; the answer is false only when the user has no record. */
  function ConfirmStep(d: Db, u: UserId): (r: (Db, bool))
    ensures r.1 <==> u in d.records
    ensures r.1 ==> r.0 == WithRecord(d, u, d.records[u].(isConfirmed := true, isPending := false))
                    && r.0.records[u].isConfirmed && !r.0.records[u].isPending
                    && r.0.records[u].isActive == d.records[u].isActive
    ensures !r.1 ==> r.0 == d
  {
    if u in d.records then (WithRecord(d, u, d.records[u].(isConfirmed := true, isPending := false)), true)
    else (d, false)
  }

  /** Wherever the HTTP view's confirm succeeds, the consumers' confirm does
      the same; the consumers also accept every other existing record. */
  lemma ConfirmExtendsView(d: Db, u: UserId)
    ensures PollViews.ConfirmStep(d, u).1 ==> ConfirmStep(d, u) == PollViews.ConfirmStep(d, u)
    ensures ConfirmStep(d, u).1 <==> u in d.records
  {
  }

  /** Every listed user has a record and it is confirmed; `is_active` is not
      looked at. */
  predicate FlagsConfirmed(d: Db, users: set<UserId>) {
    forall m | m in users :: m in d.records && d.records[m].isConfirmed
  }

  /** The consumers' completion test is weaker than the view's: whatever
      completes there completes here, but a user who unregisters and then
      confirms counts as confirmed here though the view would call the room
      cancelled. */
  lemma FlagsConfirmedIgnoresWithdrawal(d: Db, members: set<UserId>, u: UserId)
    requires u in d.records && HasActiveRecord(d, u)
    ensures PollViews.AllConfirmed(d, members) ==> FlagsConfirmed(d, members)
    ensures var d1 := PollViews.UnregisterStep(d, u).0;
            var d2 := ConfirmStep(d1, u).0;
            FlagsConfirmed(d2, {u}) && !PollViews.AllConfirmed(d2, {u}) && d2.records[u].Withdrawn()
  {
  }
}
