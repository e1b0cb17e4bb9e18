# Matchmaking and confirmation, modelled in Dafny

This project models the engine that groups users into rooms and waits for their confirmation. It covers the three variants of that engine, plus two small helpers:

- **The poll-driven HTTP views** (`yurutomo/chatrooms/views.py`). Registering, unregistering, `get_match_room`, confirming, cancelling a confirmation, `get_match_completed`, and the membership test of the room page.
- **The WebSocket matching consumer** (`gamemeet/chatrooms/consumers.py`).
- **The older WebSocket consumer with a retry loop** (`sub/consumer2.py`).
- **The chat consumer's participant counter** (`sub/consumer.py`).
- **The string helpers of the matching page** (`yurutomo/chatrooms/static/chatrooms/js/room_match.js`). The CSRF cookie parser, topic-name truncation, the matching button's disabled state, and the length check before a topic is created.

The database is the class `Store.Database`. It holds one `MatchingRecord` per user, a map because the link is one-to-one. It also holds the rooms, in creation order, and the known topic names.

A record's three flags encode its lifecycle:
- active, and neither pending nor confirmed: **waiting**;
- active and pending: **matched**, awaiting confirmation;
- active and confirmed: **confirmed**;
- inactive: **withdrawn**.

Each database-backed operation is one atomic step. A pure step function on the value `Models.Db` says what the step does. The method that reads and saves rows is proved to do exactly that, with `ensures (db.State(), answer) == Step(old(db.State()), ...)`. The properties are proved about the step functions.

**Queue order and the window.** Candidates are ordered by submission time. The source leaves ties to the database; the model breaks them by user id. The FIFO window is the set of candidates with fewer than `number` candidates ahead of them. Proved properties of the window:
- its size is `min(number, |candidates|)`;
- it is every candidate when there are few enough;
- everyone in it is ahead of everyone left out.

**Room formation.** The three variants share the same formation code: take the window, check that the caller is in it, look again for a room, and create one if none is found. It is written once, in `Matcher`.

**Per-member loops.** The members of a room are iterated in an order the database does not specify. Those loops pick the next member nondeterministically. Their contracts therefore admit every answer that some order could give: each failing answer comes with a witness member.

**Scenario properties** (`PollScenarios`). N users with no active record register for the same topic with group size N. They then poll `get_match_room` one after the other, in any order. All of them get the same new room, which holds exactly those N users. Once all have confirmed, every member is active and confirmed; before the last one has, not all are.

**Where the variants differ from each other:**
- **Register.** The HTTP view refuses to register a user who already has an active record. Both consumers overwrite the record, which moves the user to the back of the queue.
- **Confirm.** The view confirms only a matched record. The consumers confirm any record, even a withdrawn one.
- **Completion.** The consumers' completion test ignores `is_active`. A user who unregisters and then confirms therefore counts as confirmed there, while the view calls the room cancelled.
- **Cancelling a confirmation** (view only) returns the record to waiting, not to matched.

## Model

| member | source | states |
|---|---|---|
| Models.NewRecord | gamemeet/chatrooms/models.py:22-30 | a record created with no flags given is withdrawn, neither pending nor confirmed, with group size 2 |
| Models.RegisteredRecord | gamemeet/chatrooms/consumers.py:178-186 | the record a registration writes is waiting, stamped with the registration time, with the given criterion |
| Models.NewRoom | gamemeet/chatrooms/models.py:12-19 | a room created with no field given has no members, is inactive and is dated now |
| Queries.LatestRoom | yurutomo/chatrooms/views.py:211-214 | None exactly when no room is active, has the user and was created no earlier than the submission; otherwise a qualifying room with the latest creation date |
| Queries.LatestRoomUnique | yurutomo/chatrooms/views.py:211-214 | when exactly one room qualifies, the lookup returns it |
| Queries.Candidates | yurutomo/chatrooms/views.py:230-235 | a user is a candidate iff their record is waiting with the same topic and group size |
| Queries.WindowSize | yurutomo/chatrooms/views.py:245 | the window holds `number` users when there are that many candidates, all of them otherwise |
| Queries.WindowAll | yurutomo/chatrooms/views.py:245 | with no more candidates than `number`, the window is every candidate |
| Queries.WindowIsFifo | yurutomo/chatrooms/views.py:230-248 | everyone in the window comes before, in submission order, everyone left out |
| Store.Database.constructor | gamemeet/chatrooms/models.py:12-30 | an empty database that knows the given topics |
| Store.Database.SaveRecord | yurutomo/chatrooms/views.py:189-192 | saving replaces the user's one record and nothing else |
| Store.Database.CreateRoom | yurutomo/chatrooms/views.py:266-270 | the member loop leaves one new active room, dated now, whose members are exactly the given users; its id is the old number of rooms |
| Store.Database.DeactivateRoom | yurutomo/chatrooms/views.py:367-369 | only that room's active flag changes, to false |
| Matcher.Form | yurutomo/chatrooms/views.py:230-270 | the outcome conditions, each stated both ways: too few candidates; a negative group size (the slice raises); caller outside the window; and otherwise joined. A room is created only when the re-check finds none, and then its members are exactly the window: `number` users, ahead of every other candidate |
| Matcher.FifoWindow | yurutomo/chatrooms/views.py:245-248 | every user in the window is ahead of every candidate left out |
| Matcher.FormRoom | gamemeet/chatrooms/consumers.py:244-283 | the formation code run against the database does exactly what `Form` states |
| PollViews.RegisterStep | yurutomo/chatrooms/views.py:140-175 | 400 iff the condition is missing; a server error iff the topic is unknown, since the topic lookup raises; refused iff the topic is known and the user has an active record; accepted iff the topic is known and the user has no active record. Only an accepted registration changes state: the user's single record is waiting, submitted now, with the given criterion, and no other row changes |
| PollViews.RegisterMatching | yurutomo/chatrooms/views.py:140-175 | the view does exactly `RegisterStep` |
| PollViews.UnregisterStep | yurutomo/chatrooms/views.py:180-193 | true iff the user has an active record, whose three flags are then cleared; afterwards no active record exists |
| PollViews.UnregisterMatching | yurutomo/chatrooms/views.py:180-193 | the view does exactly `UnregisterStep` |
| PollViews.GetMatchRoomStep | yurutomo/chatrooms/views.py:199-282 | 404 iff not waiting. An existing room is returned before any queue check. Not matched iff too few candidates or caller outside the window. Every match leaves the caller pending in an active room that holds it. At most one room is created, only when none qualified, with exactly the window |
| PollViews.GetMatchRoom | yurutomo/chatrooms/views.py:199-282 | the view does exactly `GetMatchRoomStep` |
| PollViews.ConfirmStep | yurutomo/chatrooms/views.py:287-298 | succeeds iff the record is matched and unconfirmed, which then becomes confirmed and not pending; otherwise nothing changes |
| PollViews.ConfirmMatching | yurutomo/chatrooms/views.py:287-298 | the view does exactly `ConfirmStep` |
| PollViews.CancelConfirmStep | yurutomo/chatrooms/views.py:302-313 | succeeds iff the record is confirmed, which then waits again; otherwise nothing changes |
| PollViews.CancelConfirm | yurutomo/chatrooms/views.py:302-313 | the view does exactly `CancelConfirmStep` |
| PollViews.GetMatchCompleted | yurutomo/chatrooms/views.py:318-388 | 400 iff the id names no room holding the caller. Completed iff every member is active and confirmed. Each other answer has a witness member: no record, withdrawn, or unconfirmed. The room is deactivated exactly when the answer is cancelled |
| PollViews.RoomViewTestFunc | yurutomo/chatrooms/views.py:42-45 | 404 iff the room does not exist; allowed iff the user is a member |
| PollScenarios.RegisterTwice | yurutomo/chatrooms/views.py:154-157 | a second register while still active is refused and changes nothing |
| PollScenarios.UnregisterTwice | yurutomo/chatrooms/views.py:184-187 | a second unregister returns false and changes nothing |
| PollScenarios.ConfirmTwice | yurutomo/chatrooms/views.py:291-293 | a second confirm returns false and changes nothing |
| PollScenarios.MatchedThenNotFound | yurutomo/chatrooms/views.py:202-208 | after a match the caller is pending, so polling again answers 404 |
| PollScenarios.CancelThenConfirmRefused | yurutomo/chatrooms/views.py:306-312 | a cancelled confirmation leaves the record waiting, and a confirm right after it is refused |
| PollScenarios.DistinctCard | gamemeet/chatrooms/tests.py:215-220 | N distinct users make a set of N |
| PollScenarios.RegisterAllFacts | gamemeet/chatrooms/tests.py:229-230 | N registrations in a row all succeed and leave each user's record waiting with their own time; no other row changes |
| PollScenarios.LaterCallsJoin | gamemeet/chatrooms/tests.py:231-233 | callers who wait and belong to a single qualifying room each get that room and become pending |
| PollScenarios.ConfirmAllFacts | gamemeet/chatrooms/tests.py:434-435 | matched callers who confirm in a row all succeed and become confirmed; no one else changes |
| PollScenarios.RegisteredAreCandidates | gamemeet/chatrooms/tests.py:222-230 | after the N registrations the candidates are exactly those N users, and all of them are in the window |
| PollScenarios.FormsWithAll | yurutomo/chatrooms/views.py:230-275 | a waiting caller with no room, whose criterion has exactly `number` candidates including the caller, creates a room holding all of them and becomes pending |
| PollScenarios.FirstCallForms | gamemeet/chatrooms/tests.py:231-233 | the first poll creates the room with all N users, and leaves every other caller waiting with that room as their only qualifying room |
| PollScenarios.AllPollsJoin | gamemeet/chatrooms/tests.py:231-238 | the N polls, in any order, all answer the same new room, which holds exactly the N users, who are all matched |
| PollScenarios.ManyUsersOneRoom | gamemeet/chatrooms/tests.py:214-238 | N users register and poll, and all get one new room holding exactly them; after all confirm, every member is active and confirmed |
| PollScenarios.EveryoneConfirms | gamemeet/chatrooms/tests.py:433-443 | matched members are all confirmed once each has confirmed, and not before the last has |
| ConsumerSteps.UpsertStep | gamemeet/chatrooms/consumers.py:177-194 | the user's record becomes waiting with the given criterion and time whatever it was, and no other row changes |
| ConsumerSteps.RegisterStep | gamemeet/chatrooms/consumers.py:177-194 | raises a TypeError iff the condition is missing, changing nothing; with a condition it always answers true, after the upsert |
| ConsumerSteps.ReRegisterRestartsQueue | gamemeet/chatrooms/consumers.py:177-194 | an active user who registers again is accepted where the view refuses. The user becomes a candidate again, now behind every other candidate with an earlier submission |
| ConsumerSteps.PendingStep | gamemeet/chatrooms/consumers.py:212-219 | true iff an active record exists, which then becomes pending whatever its other flags |
| ConsumerSteps.ConfirmStep | gamemeet/chatrooms/consumers.py:299-307 | true iff the user has any record, which becomes confirmed and not pending, keeping its active flag |
| ConsumerSteps.ConfirmExtendsView | gamemeet/chatrooms/consumers.py:299-307 | wherever the view's confirm succeeds, this one does the same thing |
| ConsumerSteps.FlagsConfirmedIgnoresWithdrawal | gamemeet/chatrooms/consumers.py:311-326 | whatever the view calls completed counts as confirmed here too; and unregister followed by confirm counts as confirmed here though the view would call it cancelled |
| MatchingConsumers.GetMatchRoomOutcome | gamemeet/chatrooms/consumers.py:223-285 | raises not-found iff the caller is not waiting. An existing room comes first. None iff too few candidates or outside the window. Any room returned is active and holds the caller. Records are never changed |
| MatchingConsumers.GetRoomStep | gamemeet/chatrooms/consumers.py:115-138 | same new state as the HTTP `get_match_room`, and each reply corresponds to that view's answer |
| MatchingConsumers.MatchingConsumer.Connect | gamemeet/chatrooms/consumers.py:76-78 | the connection joins its own user's group |
| MatchingConsumers.MatchingConsumer.JoinGroup | gamemeet/chatrooms/consumers.py:39-42 | the joined group becomes the given one |
| MatchingConsumers.MatchingConsumer.RegisterMatching | gamemeet/chatrooms/consumers.py:177-194 | does exactly `ConsumerSteps.RegisterStep` |
| MatchingConsumers.MatchingConsumer.UnregisterMatching | gamemeet/chatrooms/consumers.py:198-208 | does exactly the view's `UnregisterStep` |
| MatchingConsumers.MatchingConsumer.Pending | gamemeet/chatrooms/consumers.py:212-219 | does exactly `PendingStep` |
| MatchingConsumers.MatchingConsumer.GetMatchRoom | gamemeet/chatrooms/consumers.py:223-285 | does exactly `GetMatchRoomOutcome` |
| MatchingConsumers.MatchingConsumer.RoomExists | gamemeet/chatrooms/consumers.py:289-295 | true iff the id names a room that holds the caller, which is also exactly when the room page lets the caller in |
| MatchingConsumers.MatchingConsumer.Confirm | gamemeet/chatrooms/consumers.py:299-307 | does exactly `ConsumerSteps.ConfirmStep` |
| MatchingConsumers.MatchingConsumer.CheckOtherConfirmations | gamemeet/chatrooms/consumers.py:311-326 | raises not-found iff there is no such room. True iff every member has a confirmed record. False has an unconfirmed witness. Raising on a missing record has a witness member with no record |
| MatchingConsumers.MatchingConsumer.ReceiveGetRoom | gamemeet/chatrooms/consumers.py:115-138 | does exactly `GetRoomStep`; on a match the caller joins the room's group, otherwise the group is unchanged |
| MatchingConsumers.MatchingConsumer.ReceiveConfirmMatching | gamemeet/chatrooms/consumers.py:148-171 | invalid iff the id names no room holding the caller, changing nothing. Otherwise the caller confirms. Completion is announced iff every member has a confirmed record, and only ever to the consumer's current group; other replies come with witnesses |
| MatchingConsumers.MatchingConsumer.ReceiveQuitWait | gamemeet/chatrooms/consumers.py:104-113 | the unregister takes effect, and then the handler always raises a NameError |
| RetryConsumers.MatchingStep | sub/consumer2.py:278-341 | an existing room comes first and its members are remembered. Not-found is raised iff there is no room and no waiting record with exactly that submission time. Not matched iff too few candidates or outside the window, by the message's criterion. A new room holds exactly the window, which is remembered. Records never change |
| RetryConsumers.MismatchedConditionNeverForms | sub/consumer2.py:290-306 | a message criterion different from the caller's own record never forms a room and changes nothing |
| RetryConsumers.RegisterThenMatchingFindsRecord | sub/consumer2.py:187-197 | right after registering with a condition and time, `matching` with the same ones never raises not-found |
| RetryConsumers.MatchingIdempotent | sub/consumer2.py:280-285 | once `matching` has answered a room, calling it again with the same condition and time answers the same room and changes nothing |
| RetryConsumers.CheckInOrder | sub/consumer2.py:360-371 | in list order: true iff every listed user has a confirmed record. It raises iff a user without a record comes before any unconfirmed one. False has an unconfirmed witness |
| RetryConsumers.CheckConfirmationsStep | sub/consumer2.py:356-371 | false for the empty list; otherwise true iff every listed user has a confirmed record; the other answers have witnesses |
| RetryConsumers.MatchingConsumer.Connect | sub/consumer2.py:72-83 | no group joined and no remembered users |
| RetryConsumers.MatchingConsumer.JoinGroup | sub/consumer2.py:39-42 | the joined group becomes the given one; the remembered users are kept |
| RetryConsumers.MatchingConsumer.MatchingRegister | sub/consumer2.py:216-233 | does exactly `ConsumerSteps.RegisterStep` with the given time |
| RetryConsumers.MatchingConsumer.MatchingUnregister | sub/consumer2.py:237-247 | does exactly the view's `UnregisterStep` |
| RetryConsumers.MatchingConsumer.Pending | sub/consumer2.py:251-258 | does exactly `PendingStep` |
| RetryConsumers.MatchingConsumer.ListOf | sub/consumer2.py:284 | a list of the given users with no repetition |
| RetryConsumers.MatchingConsumer.Matching | sub/consumer2.py:278-341 | does exactly `MatchingStep`, and then remembers the users it returns |
| RetryConsumers.MatchingConsumer.WaitMatchingUntilComplete | sub/consumer2.py:261-274 | with at least one attempt, the answer and new state are those of the first `matching`; nothing else happens in between, so later attempts repeat a None |
| RetryConsumers.MatchingConsumer.Confirm | sub/consumer2.py:345-353 | does exactly `ConsumerSteps.ConfirmStep` |
| RetryConsumers.MatchingConsumer.CheckOtherConfirmations | sub/consumer2.py:356-371 | the early-return loop answers exactly `CheckConfirmationsStep` |
| RetryConsumers.MatchingConsumer.ReceiveConfirmMatching | sub/consumer2.py:152-178 | invalid iff the id is missing or is not the joined group, changing nothing. Otherwise the caller confirms, and the group is told iff every remembered user has a confirmed record |
| RetryConsumers.MatchingConsumer.MatchingTask | sub/consumer2.py:182-212 | a missing condition raises and changes neither the database nor the remembered users. Otherwise the database is the result of the registration, one `matching` attempt, and marking the caller pending when a room came back; with no attempt allowed it is the result of the registration alone. The users `matching` returns are remembered; when it returns none, or no attempt is made, the remembered list is unchanged. A returned room holds the caller, who is active and pending and has joined the room's group. Otherwise the group is unchanged |
| ChatConsumers.GroupName | sub/consumer.py:60 | the group name is the prefix `chat_` followed by the room name |
| ChatConsumers.GroupNameInjective | sub/consumer.py:60 | different rooms get different groups |
| ChatConsumers.JoinCounts | sub/consumer.py:66-70 | a new entry with 1, or the entry plus 1; no other entry changes |
| ChatConsumers.LeaveCounts | sub/consumer.py:91-105 | the entry minus 1, removed exactly when that reaches 0; no other entry changes |
| ChatConsumers.JoinLeaveKeepPositive | sub/consumer.py:66-105 | join and leave keep every count positive |
| ChatConsumers.LeaveUndoesJoin | sub/consumer.py:66-105 | leaving right after joining restores the counts |
| ChatConsumers.ParticipantRegistry.constructor | sub/consumer.py:8-9 | the shared dictionary starts empty |
| ChatConsumers.ChatConsumer.constructor | sub/consumer.py:6-11 | no group and no user name yet |
| ChatConsumers.ChatConsumer.JoinChat | sub/consumer.py:59-73 | the group is set, the counts become `JoinCounts`, and the reported count is the updated one |
| ChatConsumers.ChatConsumer.ReceiveJoin | sub/consumer.py:27-30 | the user name is taken, then the room is joined |
| ChatConsumers.ChatConsumer.LeaveChat | sub/consumer.py:83-107 | nothing happens with no group. A group without an entry raises KeyError. Otherwise the counts become `LeaveCounts`, the reported count is the decremented one, and the group is cleared |
| RoomMatch.Split | yurutomo/chatrooms/static/chatrooms/js/room_match.js:65 | at least one piece, none containing the separator, and joining them gives back the string |
| RoomMatch.SplitJoin | yurutomo/chatrooms/static/chatrooms/js/room_match.js:65 | splitting undoes joining separator-free pieces |
| RoomMatch.TrimStart | yurutomo/chatrooms/static/chatrooms/js/room_match.js:67 | a suffix that does not start with white space, all of the dropped part white space |
| RoomMatch.TrimEnd | yurutomo/chatrooms/static/chatrooms/js/room_match.js:67 | a prefix that does not end with white space, all of the dropped part white space |
| RoomMatch.TrimFacts | yurutomo/chatrooms/static/chatrooms/js/room_match.js:67 | trim gives a piece of the input with no white space at either end, and trimming twice is trimming once |
| RoomMatch.NameMatches | yurutomo/chatrooms/static/chatrooms/js/room_match.js:69 | a matching entry is longer than the name |
| RoomMatch.PrefixKeyDoesNotMatch | yurutomo/chatrooms/static/chatrooms/js/room_match.js:69 | a key that only starts with the name, with no `=` right after it, does not match |
| RoomMatch.TrimAll | yurutomo/chatrooms/static/chatrooms/js/room_match.js:66-67 | each entry trimmed, in order |
| RoomMatch.FirstMatchSpec | yurutomo/chatrooms/static/chatrooms/js/room_match.js:66-72 | None iff no entry matches; otherwise the decoded value of the first entry that matches |
| RoomMatch.CookieValue | yurutomo/chatrooms/static/chatrooms/js/room_match.js:63-64 | an empty cookie string gives null |
| RoomMatch.CookieOfEntries | yurutomo/chatrooms/static/chatrooms/js/room_match.js:62-76 | a cookie string built from `;`-free entries yields the first trimmed entry carrying the name |
| RoomMatch.LaterMatchesIgnored | yurutomo/chatrooms/static/chatrooms/js/room_match.js:71 | entries after the first match never change the answer |
| RoomMatch.GetCookie | yurutomo/chatrooms/static/chatrooms/js/room_match.js:62-76 | the loop with its `break` computes exactly `CookieValue` |
| RoomMatch.CleanTopicName | yurutomo/chatrooms/static/chatrooms/js/room_match.js:160-166 | names of at most 30 characters are unchanged; longer ones become their first 30 characters and `...`; never more than 33 |
| RoomMatch.CleanTopicNameIdempotent | yurutomo/chatrooms/static/chatrooms/js/room_match.js:160-166 | cleaning a cleaned name changes nothing |
| RoomMatch.BtnDisable | yurutomo/chatrooms/static/chatrooms/js/room_match.js:84-86 | the button is disabled iff the topic is empty or the group size is not positive: an enabled button means a non-empty topic and a positive group size, and both of those enable it |
| RoomMatch.EnabledButtonAvoidsSliceError | yurutomo/chatrooms/static/chatrooms/js/room_match.js:84-86 | a registration sent with the button enabled never makes the view's polling hit the negative-slice error |
| RoomMatch.RoomMatchApp.constructor | yurutomo/chatrooms/static/chatrooms/js/room_match.js:128-129 | the form starts with the typed name |
| RoomMatch.RoomMatchApp.CreateTopic | yurutomo/chatrooms/static/chatrooms/js/room_match.js:128-133 | the typed name is trimmed in place, and it is sent iff it has 1 to 255 characters, so a sent name always fits the game-name column |

## Left out

- Concurrency is not modelled. This covers the channel layer (`group_add`, `group_send`, `group_discard`), asyncio tasks, connect and disconnect, and interleaving between consumers. Each database-backed call is one atomic step. So the re-check before a room is created always agrees with the first lookup in the model.
- The asyncio bookkeeping of `sub/consumer2.py` is not modelled: starting, cancelling and reporting the matching task, the `status` and `force-unregister` messages, and the disconnect handler. Nor is `status` in `gamemeet/chatrooms/consumers.py`. They only drive the asyncio task or resend data.
- Wall-clock time is a parameter: `timezone.now()` becomes `now`, or the submission time `t`.
- JSON decoding, HTTP status codes and response bodies are reduced to response datatypes. So are the `send_info` message texts and date formatting, and URL reversing.
- The 500 branches of `get_match_completed` for exceptions raised by the record lookup are left out. That lookup does not raise in this model.
- `decodeURIComponent` is a function parameter `decode`. Its URIError on malformed input is not modelled.
- JavaScript string lengths count UTF-16 code units. Here they count characters, which differs only outside the Basic Multilingual Plane.
- Room ids are creation indices. In the source they are UUID primary keys, always truthy, so a missing id is `None` here. `room.pk` as a string compared with a JSON `room_id` becomes id equality.
- Candidates with equal submission times are ordered by user id. The source sorts only by submission time and leaves the order of ties to the database, so which of two tied candidates enters the window is unspecified there. The model fixes one answer.
- `Queries.LatestRoom`: rooms with equal creation dates are told apart by creation order, and the later one wins. The source orders only by `created_date` and leaves ties to the database. `RetryConsumers.MatchingIdempotent` relies on this fixed choice.
- `RetryConsumers.MatchingConsumer.ReceiveConfirmMatching`: the `matching.unregister` group message sent at `sub/consumer2.py:170-172` before completion is announced is not modelled. It would be dispatched to `matching_unregister`, which takes no event argument, so each receiving consumer's handler fails and the records stay active. Neither that database effect nor the failure is modelled.
- The order of `room.users.all()` is unspecified. The loops over members pick any member, and the order of the remembered list `match_user_id_list` is left open (`ListOf`).
- `RetryConsumers.MatchingConsumer.WaitMatchingUntilComplete`: the `while True` loop is bounded by `fuel` and the one-second sleep is dropped. With `fuel = 0` it yields None, which the source never does. Since no other step runs between attempts, every attempt after the first repeats it.
- `RetryConsumers.MatchingConsumer.MatchingTask`: the `except ObjectDoesNotExist` handler, which unregisters and reports an error, is not modelled as a reachable branch. The record the wait looks for was written with the same condition and time just before, and no other step intervenes.
- The JS number type and `toString` are not modelled. The group size is an integer, and `cleanTopicName` receives a string.
- The `truncateName` rule of `gamemeet/chatrooms/static/chatrooms/js/room.js` is not modelled, because it is the same truncation with a 21/20 limit. Nor is the second copy of `getCookie` in `gamemeet/chatrooms/static/chatrooms/js/room_match.js`.
- Topic search, topic creation on the server, accounts, forms, and the rest of the page scripts are not part of this model. This covers timers, the life gauge, WebRTC and audio levels.
- Source defects are modelled as written. None is corrected:
  - at `gamemeet/chatrooms/consumers.py:109`, `quit_wait` reads an unbound name and raises;
  - `check_other_confirmations` reads a flag on a missing record and raises AttributeError, in both consumers;
  - an unknown topic makes the lookup at `yurutomo/chatrooms/views.py:150` raise, so the 400 branch after it is dead and the model answers `ServerError`.
- The HTTP view matches on the topic's foreign key and the consumers on `game_name`. Both are the string `gameName` here, with a topic identified by its name.
