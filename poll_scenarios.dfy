/** Properties of sequences of poll-endpoint calls: replayed calls are
    refused without corrupting state, and N users who register for the same
    criterion and then poll `get_match_room` one after the other all land in
    one room that holds exactly them (gamemeet/chatrooms/tests.py:214-238,
    409-443). */
module PollScenarios {
  import opened Wrappers
  import opened Models
  import opened Queries
  import opened PollViews

  // ------------------------------------------------------------ replayed calls

  /** A second register for a user who is still active is refused and changes
      nothing. */
  lemma RegisterTwice(d: Db, u: UserId, c1: Condition, c2: Condition, t1: Time, t2: Time)
    requires RegisterStep(d, u, Some(c1), t1).1 == Registered(true)
    requires c2.gameName in d.topics
    ensures var d1 := RegisterStep(d, u, Some(c1), t1).0;
            RegisterStep(d1, u, Some(c2), t2) == (d1, Registered(false))
  {
  }

  /** A second unregister returns false and changes nothing. */
  lemma UnregisterTwice(d: Db, u: UserId)
    ensures var d1 := UnregisterStep(d, u).0;
            UnregisterStep(d1, u) == (d1, false)
  {
  }

  /** A second confirm returns false and changes nothing. */
  lemma ConfirmTwice(d: Db, u: UserId)
    ensures var d1 := ConfirmStep(d, u).0;
            ConfirmStep(d1, u) == (d1, false)
  {
  }

  /** Once matched, the caller is pending, so polling again answers 404. */
  lemma MatchedThenNotFound(d: Db, u: UserId, now: Time, later: Time)
    requires GetMatchRoomStep(d, u, now).1.Matched?
    ensures GetMatchRoomStep(GetMatchRoomStep(d, u, now).0, u, later).1 == NotFound
  {
  }

  /** Cancelling a confirmation returns the record to waiting, not to
      pending: a confirm right after it is refused. */
  lemma CancelThenConfirmRefused(d: Db, u: UserId)
    requires CancelConfirmStep(d, u).1
    ensures var d1 := CancelConfirmStep(d, u).0;
            HasWaitingRecord(d1, u) && ConfirmStep(d1, u) == (d1, false)
  {
  }

  // ------------------------------------------------------------- N users

  lemma {:induction false} DistinctCard(s: seq<UserId>)
    requires Distinct(s)
    ensures |Elements(s)| == |s|
  {
    if s != [] {
      assert Elements(s) == Elements(s[1..]) + {s[0]};
      assert s[0] !in Elements(s[1..]);
      DistinctCard(s[1..]);
    }
  }

  /** Users `us` register one after the other, user `us[i]` at `times[i]`,
      all with the condition (topic, number). */
  function RegisterAll(d: Db, us: seq<UserId>, topic: string, number: int, times: seq<Time>): (Db, seq<RegisterResponse>)
    requires |times| == |us|
    decreases us
  {
    if us == [] then (d, [])
    else
      var (d1, r) := RegisterStep(d, us[0], Some(Condition(topic, number)), times[0]);
      var (d2, rs) := RegisterAll(d1, us[1..], topic, number, times[1..]);
      (d2, [r] + rs)
  }

  /** `callers` poll `get_match_room` one after the other. */
  function GetMatchRoomAll(d: Db, callers: seq<UserId>, now: Time): (Db, seq<MatchResponse>)
    decreases callers
  {
    if callers == [] then (d, [])
    else
      var (d1, r) := GetMatchRoomStep(d, callers[0], now);
      var (d2, rs) := GetMatchRoomAll(d1, callers[1..], now);
      (d2, [r] + rs)
  }

  /** `callers` confirm one after the other. */
  function ConfirmAll(d: Db, callers: seq<UserId>): (Db, seq<bool>)
    decreases callers
  {
    if callers == [] then (d, [])
    else
      var (d1, r) := ConfirmStep(d, callers[0]);
      var (d2, rs) := ConfirmAll(d1, callers[1..]);
      (d2, [r] + rs)
  }

  /** Dropping the first of distinct users leaves distinct users, none of
      them the dropped one. */
  lemma DistinctTail(s: seq<UserId>)
    requires Distinct(s) && s != []
    ensures Distinct(s[1..]) && s[0] !in s[1..]
    ensures Elements(s) == {s[0]} + Elements(s[1..])
  {
  }

  lemma {:induction false} RegisterAllFacts(d: Db, us: seq<UserId>, topic: string, number: int, times: seq<Time>)
    requires |times| == |us| && Distinct(us) && topic in d.topics
    requires forall u | u in us :: !HasActiveRecord(d, u)
    ensures var (d', rs) := RegisterAll(d, us, topic, number, times);
            && |rs| == |us|
            && (forall i | 0 <= i < |rs| :: rs[i] == Registered(true))
            && d'.rooms == d.rooms && d'.topics == d.topics
            && d'.records.Keys == d.records.Keys + Elements(us)
            && (forall i | 0 <= i < |us| :: d'.records[us[i]] == RegisteredRecord(topic, number, times[i]))
            && (forall v | v in d.records && v !in us :: d'.records[v] == d.records[v])
    decreases us
  {
    if us != [] {
      DistinctTail(us);
      var d1 := RegisterStep(d, us[0], Some(Condition(topic, number)), times[0]).0;
      RegisterAllFacts(d1, us[1..], topic, number, times[1..]);
      var d' := RegisterAll(d, us, topic, number, times).0;
      assert d' == RegisterAll(d1, us[1..], topic, number, times[1..]).0;
      forall i | 0 <= i < |us| ensures d'.records[us[i]] == RegisteredRecord(topic, number, times[i]) {
        if i > 0 {
          assert us[1..][i - 1] == us[i];
        }
      }
    }
  }

  /** The state the N-user scenario reaches after the first poll: room `k`
      is active, and every caller still to poll is waiting, is a member of
      room `k` since before it was created, and of no other qualifying room. */
  ghost predicate RoomAwaits(d: Db, k: RoomId, callers: seq<UserId>) {
    && k < |d.rooms| && d.rooms[k].isActive
    && forall c | c in callers ::
         && HasWaitingRecord(d, c)
         && Qualifies(d.rooms[k], c, d.records[c].submissionTime)
         && forall i | 0 <= i < |d.rooms| && i != k :: !Qualifies(d.rooms[i], c, d.records[c].submissionTime)
  }

  /** Every later caller finds room `k` and joins it. */
  lemma {:induction false} LaterCallsJoin(d: Db, callers: seq<UserId>, now: Time, k: RoomId)
    requires Distinct(callers) && RoomAwaits(d, k, callers)
    ensures var (d', rs) := GetMatchRoomAll(d, callers, now);
            && |rs| == |callers|
            && (forall i | 0 <= i < |rs| :: rs[i] == Matched(k))
            && d'.rooms == d.rooms && d'.topics == d.topics
            && d'.records.Keys == d.records.Keys
            && (forall c | c in callers :: d'.records[c] == d.records[c].(isPending := true))
            && (forall v | v in d.records && v !in callers :: d'.records[v] == d.records[v])
    decreases callers
  {
    if callers != [] {
      var c := callers[0];
      assert c in callers;
      DistinctTail(callers);
      LatestRoomUnique(d.rooms, c, d.records[c].submissionTime, k);
      var d1 := GetMatchRoomStep(d, c, now).0;
      assert d1 == WithRecord(d, c, d.records[c].(isPending := true));
      assert RoomAwaits(d1, k, callers[1..]);
      LaterCallsJoin(d1, callers[1..], now, k);
    }
  }

  /** Every caller awaiting confirmation confirms successfully. */
  lemma {:induction false} ConfirmAllFacts(d: Db, callers: seq<UserId>)
    requires Distinct(callers)
    requires forall c | c in callers :: c in d.records && d.records[c].AwaitingConfirmation()
    ensures var (d', rs) := ConfirmAll(d, callers);
            && |rs| == |callers|
            && (forall i | 0 <= i < |rs| :: rs[i])
            && d'.rooms == d.rooms
            && d'.records.Keys == d.records.Keys
            && (forall c | c in callers :: d'.records[c].HasConfirmed())
            && (forall v | v in d.records && v !in callers :: d'.records[v] == d.records[v])
    decreases callers
  {
    if callers != [] {
      DistinctTail(callers);
      ConfirmAllFacts(ConfirmStep(d, callers[0]).0, callers[1..]);
    }
  }

  /** The N registrations for (topic, N), with no earlier candidate, are
      exactly the candidates, and they all fit in the window. */
  lemma RegisteredAreCandidates(d0: Db, us: seq<UserId>, topic: string, times: seq<Time>)
    requires |us| >= 1 && Distinct(us) && |times| == |us| && topic in d0.topics
    requires forall u | u in us :: !HasActiveRecord(d0, u)
    requires forall v | v in d0.records :: !IsCandidate(d0.records[v], topic, |us|)
    ensures var d1 := RegisterAll(d0, us, topic, |us|, times).0;
            && Candidates(d1.records, topic, |us|) == Elements(us)
            && Window(d1.records, Elements(us), |us|) == Elements(us)
  {
    var n := |us|;
    RegisterAllFacts(d0, us, topic, n, times);
    var d1 := RegisterAll(d0, us, topic, n, times).0;
    forall v | v in d1.records ensures IsCandidate(d1.records[v], topic, n) <==> v in Elements(us) {
      if v in us {
        var i :| 0 <= i < |us| && us[i] == v;
        assert d1.records[v] == RegisteredRecord(topic, n, times[i]);
      }
    }
    DistinctCard(us);
    WindowAll(d1.records, Elements(us), n);
  }

  /** A waiting caller with no room to join, whose criterion has exactly
      `number` candidates including the caller, forms a room holding all of
      them and becomes pending. */
  lemma FormsWithAll(d: Db, c: UserId, now: Time)
    requires HasWaitingRecord(d, c)
    requires LatestRoom(d.rooms, c, d.records[c].submissionTime).None?
    requires var s := Candidates(d.records, d.records[c].gameName, d.records[c].number);
             c in s && |s| == d.records[c].number
    ensures var s := Candidates(d.records, d.records[c].gameName, d.records[c].number);
            GetMatchRoomStep(d, c, now) ==
              (d.(records := d.records[c := d.records[c].(isPending := true)],
                  rooms := d.rooms + [Room(s, now, true)]),
               Matched(|d.rooms|))
  {
    var s := Candidates(d.records, d.records[c].gameName, d.records[c].number);
    WindowAll(d.records, s, d.records[c].number);
    var (d', r) := GetMatchRoomStep(d, c, now);
    assert d'.rooms == d'.rooms[..|d.rooms|] + [d'.rooms[|d.rooms|]];
  }

  /** The first poll after the N registrations (the database `d1`) forms a
      new room holding every registered user, and leaves the other callers
      awaiting it. */
  lemma FirstCallForms(d0: Db, d1: Db, us: seq<UserId>, topic: string, times: seq<Time>, callers: seq<UserId>, now: Time)
    requires |us| >= 1 && Distinct(us) && |times| == |us|
    requires d1.rooms == d0.rooms
    requires forall i | 0 <= i < |us| :: us[i] in d1.records && d1.records[us[i]] == RegisteredRecord(topic, |us|, times[i])
    requires Candidates(d1.records, topic, |us|) == Elements(us)
    requires forall i, u | 0 <= i < |d0.rooms| && u in us :: !(u in d0.rooms[i].users && d0.rooms[i].isActive)
    requires forall i | 0 <= i < |times| :: times[i] <= now
    requires |callers| == |us| && Distinct(callers) && Elements(callers) == Elements(us)
    ensures GetMatchRoomStep(d1, callers[0], now) ==
              (d1.(records := d1.records[callers[0] := d1.records[callers[0]].(isPending := true)],
                   rooms := d0.rooms + [Room(Elements(us), now, true)]),
               Matched(|d0.rooms|))
    ensures RoomAwaits(GetMatchRoomStep(d1, callers[0], now).0, |d0.rooms|, callers[1..])
  {
    var n := |us|;
    var c := callers[0];
    assert c in Elements(callers);
    var ic :| 0 <= ic < |us| && us[ic] == c;
    assert LatestRoom(d1.rooms, c, d1.records[c].submissionTime).None?;
    DistinctCard(us);
    FormsWithAll(d1, c, now);
    var d2 := GetMatchRoomStep(d1, c, now).0;
    DistinctTail(callers);
    forall x | x in callers[1..]
      ensures HasWaitingRecord(d2, x) && Qualifies(d2.rooms[|d0.rooms|], x, d2.records[x].submissionTime)
      ensures forall i | 0 <= i < |d2.rooms| && i != |d0.rooms| :: !Qualifies(d2.rooms[i], x, d2.records[x].submissionTime)
    {
      assert x in Elements(callers);
      var i :| 0 <= i < |us| && us[i] == x;
      assert d2.records[x] == RegisteredRecord(topic, n, times[i]);
    }
  }

  /** After the N registrations (the database `d1`), the N polls in any order
      all answer the one new room, which holds exactly the N users. */
  lemma AllPollsJoin(d0: Db, d1: Db, us: seq<UserId>, topic: string, times: seq<Time>, callers: seq<UserId>, now: Time)
    requires |us| >= 1 && Distinct(us) && |times| == |us|
    requires d1.rooms == d0.rooms
    requires forall i | 0 <= i < |us| :: us[i] in d1.records && d1.records[us[i]] == RegisteredRecord(topic, |us|, times[i])
    requires Candidates(d1.records, topic, |us|) == Elements(us)
    requires forall i, u | 0 <= i < |d0.rooms| && u in us :: !(u in d0.rooms[i].users && d0.rooms[i].isActive)
    requires forall i | 0 <= i < |times| :: times[i] <= now
    requires |callers| == |us| && Distinct(callers) && Elements(callers) == Elements(us)
    ensures |GetMatchRoomAll(d1, callers, now).1| == |us|
    ensures forall i | 0 <= i < |us| :: GetMatchRoomAll(d1, callers, now).1[i] == Matched(|d0.rooms|)
    ensures GetMatchRoomAll(d1, callers, now).0.rooms == d0.rooms + [Room(Elements(us), now, true)]
    ensures forall u | u in us :: u in GetMatchRoomAll(d1, callers, now).0.records
                                  && GetMatchRoomAll(d1, callers, now).0.records[u].AwaitingConfirmation()
  {
    FirstCallForms(d0, d1, us, topic, times, callers, now);
    var d2 := GetMatchRoomStep(d1, callers[0], now).0;
    DistinctTail(callers);
    LaterCallsJoin(d2, callers[1..], now, |d0.rooms|);
    var first := GetMatchRoomStep(d1, callers[0], now).1;
    var later := GetMatchRoomAll(d2, callers[1..], now);
    var all := GetMatchRoomAll(d1, callers, now);
    assert all == (later.0, [first] + later.1);
    forall i | 0 <= i < |us| ensures all.1[i] == Matched(|d0.rooms|) {
      if i > 0 {
        assert all.1[i] == later.1[i - 1];
      }
    }
    forall u | u in us ensures u in all.0.records && all.0.records[u].AwaitingConfirmation() {
      assert u in Elements(callers);
      var i :| 0 <= i < |us| && us[i] == u;
    }
  }

  /** `test_many_users` (and `test_two_users`) of the matching tests: N users
      with no active record register for the same topic with number N; when
      each of them, in any order, polls once, all get the same new room, which
      holds exactly those N users; once all of them confirm, every member of
      the room is active and confirmed (so `get_match_completed` answers
      completed), while if the last caller has not confirmed yet, not all are. */
  lemma ManyUsersOneRoom(
    d0: Db, us: seq<UserId>, topic: string, times: seq<Time>, callers: seq<UserId>, now: Time)
    requires |us| >= 1 && Distinct(us) && |times| == |us| && topic in d0.topics
    requires forall u | u in us :: !HasActiveRecord(d0, u)
    // nobody else waits for this criterion
    requires forall v | v in d0.records :: !IsCandidate(d0.records[v], topic, |us|)
    // no active room holds any of them yet
    requires forall i, u | 0 <= i < |d0.rooms| && u in us :: !(u in d0.rooms[i].users && d0.rooms[i].isActive)
    // the polls come after every registration
    requires forall i | 0 <= i < |times| :: times[i] <= now
    // every user polls exactly once
    requires |callers| == |us| && Distinct(callers) && Elements(callers) == Elements(us)
    ensures var (d1, regs) := RegisterAll(d0, us, topic, |us|, times);
            var (d2, resps) := GetMatchRoomAll(d1, callers, now);
            && (forall i | 0 <= i < |regs| :: regs[i] == Registered(true))
            && |resps| == |us|
            && (forall i | 0 <= i < |resps| :: resps[i] == Matched(|d0.rooms|))
            && d2.rooms == d0.rooms + [Room(Elements(us), now, true)]
            && (forall u | u in us :: u in d2.records && d2.records[u].AwaitingConfirmation())
            && AllConfirmed(ConfirmAll(d2, callers).0, Elements(us))
            && !AllConfirmed(ConfirmAll(d2, callers[..|callers| - 1]).0, Elements(us))
  {
    RegisterAllFacts(d0, us, topic, |us|, times);
    RegisteredAreCandidates(d0, us, topic, times);
    var d1 := RegisterAll(d0, us, topic, |us|, times).0;
    AllPollsJoin(d0, d1, us, topic, times, callers, now);
    EveryoneConfirms(GetMatchRoomAll(d1, callers, now).0, callers, Elements(us));
  }

  /** When the members of a room all await confirmation, they are all
      confirmed once each has confirmed, and not while one of them has not. */
  lemma EveryoneConfirms(d: Db, callers: seq<UserId>, members: set<UserId>)
    requires |callers| >= 1 && Distinct(callers) && Elements(callers) == members
    requires forall u | u in members :: u in d.records && d.records[u].AwaitingConfirmation()
    ensures AllConfirmed(ConfirmAll(d, callers).0, members)
    ensures !AllConfirmed(ConfirmAll(d, callers[..|callers| - 1]).0, members)
  {
    ConfirmAllFacts(d, callers);
    var last := callers[|callers| - 1];
    var allButLast := callers[..|callers| - 1];
    assert Distinct(allButLast);
    assert last !in allButLast;
    ConfirmAllFacts(d, allButLast);
    assert last in members;
  }
}
