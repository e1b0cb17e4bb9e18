/** The chat-room consumer of sub/consumer.py: every connection object shares
    one class-level dictionary from group name to participant count, which
    joining and leaving update in place. */
module ChatConsumers {
  import opened Wrappers

  /** The prefix of every chat group's name. */
  const GroupPrefix: string := "chat_"

  /** The group a chat room's consumers join. */
  function GroupName(roomName: string): (g: string)
    ensures |g| == |GroupPrefix| + |roomName| && g[..|GroupPrefix|] == GroupPrefix
    ensures g[|GroupPrefix|..] == roomName
  {
    GroupPrefix + roomName
  }

  /** Different rooms have different groups. */
  lemma GroupNameInjective(a: string, b: string)
    requires GroupName(a) == GroupName(b)
    ensures a == b
  {
    assert a == GroupName(a)[|GroupPrefix|..];
  }

  /** The counts after one participant joins group `g`: a new entry with 1,
      or one more; no other entry changes. */
  function JoinCounts(counts: map<string, int>, g: string): (r: map<string, int>)
    ensures r.Keys == counts.Keys + {g}
    ensures g in counts ==> r[g] == counts[g] + 1
    ensures g !in counts ==> r[g] == 1
    ensures forall h | h in counts && h != g :: r[h] == counts[h]
  {
    if g in counts then counts[g := counts[g] + 1] else counts[g := 1]
  }

  /** The counts after one participant leaves group `g`: one fewer, and the
      entry is removed exactly when that makes it zero; no other entry
      changes. */
  function LeaveCounts(counts: map<string, int>, g: string): (r: map<string, int>)
    requires g in counts
    ensures counts[g] - 1 == 0 ==> r == counts - {g}
    ensures counts[g] - 1 != 0 ==> r.Keys == counts.Keys && r[g] == counts[g] - 1
    ensures forall h | h in counts && h != g :: h in r && r[h] == counts[h]
  {
    if counts[g] - 1 == 0 then counts - {g} else counts[g := counts[g] - 1]
  }

  /** Every listed group has at least one participant. */
  predicate AllPositive(counts: map<string, int>) {
    forall h | h in counts :: counts[h] > 0
  }

  /** Joining and leaving keep every count positive, so an entry exists
      exactly while its group has participants. */
  lemma JoinLeaveKeepPositive(counts: map<string, int>, g: string)
    requires AllPositive(counts)
    ensures AllPositive(JoinCounts(counts, g))
    ensures g in counts ==> AllPositive(LeaveCounts(counts, g))
  {
  }

  /** Leaving undoes joining whenever the counts are positive. */
  lemma {:induction false} LeaveUndoesJoin(counts: map<string, int>, g: string)
    requires AllPositive(counts)
    ensures LeaveCounts(JoinCounts(counts, g), g) == counts
  {
    var joined := JoinCounts(counts, g);
    if g in counts {
      assert joined[g] - 1 == counts[g] != 0;
      assert joined[g := joined[g] - 1] == counts;
    } else {
      assert joined - {g} == counts;
    }
  }

  /** `ChatConsumer.rooms`, the dictionary all chat consumers share. */
  class ParticipantRegistry {
    var counts: map<string, int>

    /** `ChatConsumer.rooms = {}`, done by the first consumer created. */
    constructor ()
      ensures counts == map[]
    {
      counts := map[];
    }
  }

  class ChatConsumer {
    const registry: ParticipantRegistry
    var groupName: string
    var userName: string

    /** `__init__`: no group and no name yet. */
    constructor (registry: ParticipantRegistry)
      ensures this.registry == registry && groupName == "" && userName == ""
    {
      this.registry := registry;
      groupName := "";
      userName := "";
    }

    /** `join_chat`: enter the room's group and count one more participant.
        Returns the count the system message reports. */
    method JoinChat(roomName: string) returns (count: int)
      modifies this, registry
      ensures groupName == GroupName(roomName) && userName == old(userName)
      ensures registry.counts == JoinCounts(old(registry.counts), groupName)
      ensures count == registry.counts[groupName]
    {
      groupName := GroupPrefix + roomName;
      if groupName !in registry.counts {
        registry.counts := registry.counts[groupName := 1];
      } else {
        registry.counts := registry.counts[groupName := registry.counts[groupName] + 1];
      }
      count := registry.counts[groupName];
    }

    /** The `join` branch of `receive`: take the user name, then join. */
    method ReceiveJoin(name: string, roomName: string) returns (count: int)
      modifies this, registry
      ensures groupName == GroupName(roomName) && userName == name
      ensures registry.counts == JoinCounts(old(registry.counts), groupName)
      ensures count == registry.counts[groupName]
    {
      userName := name;
      count := JoinChat(roomName);
    }

    /** `leave_chat`: nothing when no group is joined; a KeyError when the
        group has no entry; otherwise one participant fewer (the entry goes
        at zero) and no group joined. Returns the count the system message
        reports. */
    method LeaveChat() returns (o: Outcome<Option<int>>)
      modifies this, registry
      ensures userName == old(userName)
      ensures old(groupName) == "" ==>
                o == Returned(None) && groupName == "" && registry.counts == old(registry.counts)
      ensures old(groupName) != "" && old(groupName) !in old(registry.counts) ==>
                o == Raised(KeyError) && groupName == old(groupName) && registry.counts == old(registry.counts)
      ensures old(groupName) != "" && old(groupName) in old(registry.counts) ==>
                && registry.counts == LeaveCounts(old(registry.counts), old(groupName))
                && o == Returned(Some(old(registry.counts)[old(groupName)] - 1))
                && groupName == ""
    {
      if groupName == "" {
        return Returned(None);
      }
      if groupName !in registry.counts {
        return Raised(KeyError);
      }
      registry.counts := registry.counts[groupName := registry.counts[groupName] - 1];
      var count := registry.counts[groupName];
      if count == 0 {
        registry.counts := registry.counts - {groupName};
      }
      groupName := "";
      return Returned(Some(count));
    }
  }
}
