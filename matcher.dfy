/** Room formation, the part of `get_match_room` (and of `matching`) after the
    first room lookup found nothing: select the FIFO window of candidates,
    check that the caller is in it, re-check for a room and create one with
    exactly the window as members. The three variants repeat this code
    (yurutomo/chatrooms/views.py:230-270, gamemeet/chatrooms/consumers.py:244-283,
    sub/consumer2.py:301-337); here it is written once. */
module Matcher {
  import opened Wrappers
  import opened Models
  import opened Queries
  import opened Store

  datatype Formation =
    | TooFew                   // fewer candidates than `number`
    | SliceError               // `number` is negative: the slice raises
    | OutsideWindow            // the caller is not among the first `number`
    | Joined(room: RoomId)     // the room the caller now belongs to

  /** Formation for caller `u` who waits since `notBefore`, with candidates
      for (gameName, number). */
  function Form(d: Db, u: UserId, notBefore: Time, gameName: string, number: int, now: Time): (r: (Db, Formation))
    ensures r.0.records == d.records && r.0.topics == d.topics
    ensures r.1 == TooFew <==> |Candidates(d.records, gameName, number)| < number
    ensures r.1 == SliceError <==> number < 0
    ensures r.1 == OutsideWindow <==>
              0 <= number <= |Candidates(d.records, gameName, number)| &&
              u !in Window(d.records, Candidates(d.records, gameName, number), number)
    ensures !r.1.Joined? ==> r.0 == d
    // a room is created only when the re-check finds none, and then its
    // members are exactly the window: `number` users, first in the queue
    ensures r.1.Joined? && LatestRoom(d.rooms, u, notBefore).None? ==>
              var w := Window(d.records, Candidates(d.records, gameName, number), number);
              && r.1.room == |d.rooms|
              && r.0 == WithNewRoom(d, w, now)
              && u in w && |w| == number
              && forall x, y | x in w && y in Candidates(d.records, gameName, number) - w ::
                   Before(d.records, x, y)
    ensures r.1.Joined? && LatestRoom(d.rooms, u, notBefore).Some? ==>
              r == (d, Joined(LatestRoom(d.rooms, u, notBefore).value))
  {
    var candidates := Candidates(d.records, gameName, number);
    if |candidates| < number then (d, TooFew)
    else if number < 0 then (d, SliceError)
    else
      var window := Window(d.records, candidates, number);
      if u !in window then (d, OutsideWindow)
      else
        WindowSize(d.records, candidates, number);
        FifoWindow(d.records, candidates, number);
        var again := LatestRoom(d.rooms, u, notBefore);
        if again.None? then (WithNewRoom(d, window, now), Joined(|d.rooms|))
        else (d, Joined(again.value))
  }

  /** `WindowIsFifo` for every pair at once. */
  lemma FifoWindow(records: map<UserId, MatchingRecord>, s: set<UserId>, n: int)
    requires s <= records.Keys
    ensures forall x, y | x in Window(records, s, n) && y in s - Window(records, s, n) :: Before(records, x, y)
  {
    forall x, y | x in Window(records, s, n) && y in s - Window(records, s, n)
      ensures Before(records, x, y)
    {
      WindowIsFifo(records, s, n, x, y);
    }
  }

  /** The formation code as the three variants run it against the database. */
  method FormRoom(db: Database, u: UserId, notBefore: Time, gameName: string, number: int, now: Time)
    returns (f: Formation)
    modifies db
    ensures (db.State(), f) == Form(old(db.State()), u, notBefore, gameName, number, now)
  {
    // the waiting rows with the same criterion, in queue order
    var candidates := Candidates(db.records, gameName, number);
    // fewer rows than the group size
    if |candidates| < number {
      return TooFew;
    }
    // slicing with a negative bound raises
    if number < 0 {
      return SliceError;
    }
    var window := Window(db.records, candidates, number);
    if u !in window {
      return OutsideWindow;
    }
    // the re-check before creating
    var again := LatestRoom(db.rooms, u, notBefore);
    if again.None? {
      var id := db.CreateRoom(window, now);
      f := Joined(id);
    } else {
      f := Joined(again.value);
    }
  }
}
