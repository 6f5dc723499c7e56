/** The in-memory seed data and its two id counters. */
module MockData {
  /** A seeded channel; `createdAt` is the load time and is left out. */
  datatype SeedChannel = SeedChannel(id: int, name: string, description: string)

  /** A seeded message, naming its author and channel. */
  datatype SeedMessage = SeedMessage(id: int, channelId: int, author: string, content: string)

  const SeedChannels: seq<SeedChannel> := [
    SeedChannel(1, "general", "General discussion"),
    SeedChannel(2, "random", "Random stuff"),
    SeedChannel(3, "tech", "Tech talk")
  ]

  const SeedMessages: seq<SeedMessage> := [
    SeedMessage(1, 1, "John", "Hello everyone!"),
    SeedMessage(2, 1, "Jane", "Hi John!"),
    SeedMessage(3, 2, "Bob", "Random message here")
  ]

  /** The ids of the seeded rows of each table, in seed order. */
  const SeedChannelIds: seq<int> := seq(|SeedChannels|, k requires 0 <= k < |SeedChannels| => SeedChannels[k].id)
  const SeedMessageIds: seq<int> := seq(|SeedMessages|, k requires 0 <= k < |SeedMessages| => SeedMessages[k].id)

  /** The largest of the seeded ids of a table. */
  function MaxId(ids: seq<int>): (m: int)
    requires ids != []
    ensures forall k :: 0 <= k < |ids| ==> ids[k] <= m
    ensures m in ids
  {
    if |ids| == 1 then ids[0]
    else
      var rest := MaxId(ids[1..]);
      assert forall k :: 1 <= k < |ids| ==> ids[k] == ids[1..][k - 1];
      if ids[0] >= rest then ids[0] else rest
  }

  /** The seed is well formed: ids are distinct in each table and every
      message points at a seeded channel. */
  lemma SeedIsConsistent()
    ensures forall j, k :: 0 <= j < k < |SeedChannels| ==> SeedChannels[j].id != SeedChannels[k].id
    ensures forall j, k :: 0 <= j < k < |SeedMessages| ==> SeedMessages[j].id != SeedMessages[k].id
    ensures forall k :: 0 <= k < |SeedMessages| ==>
      exists j :: 0 <= j < |SeedChannels| && SeedChannels[j].id == SeedMessages[k].channelId
  {
    assert SeedChannels[0].id == SeedMessages[0].channelId;
    assert SeedChannels[1].id == SeedMessages[2].channelId;
  }

  /** The module-level `nextChannelId` and `nextMessageId`. */
  class IdCounters {
    var nextChannelId: int
    var nextMessageId: int

    /** Every id still to be handed out is above every seeded id. */
    ghost predicate Valid()
      reads this
    {
      nextChannelId > MaxId(SeedChannelIds) && nextMessageId > MaxId(SeedMessageIds)
    }

    /** Both counters start right after the seed. */
    constructor ()
      ensures Valid()
      ensures nextChannelId == 4 && nextMessageId == 4
      ensures nextChannelId == MaxId(SeedChannelIds) + 1
      ensures nextMessageId == MaxId(SeedMessageIds) + 1
    {
      nextChannelId := 4;
      nextMessageId := 4;
      assert MaxId(SeedChannelIds) == 3 by {
        assert SeedChannelIds == [1, 2, 3];
      }
      assert MaxId(SeedMessageIds) == 3 by {
        assert SeedMessageIds == [1, 2, 3];
      }
    }

    /** `getNextChannelId`: the current value, then one more; the message
        counter is untouched and the id is no seeded channel's. */
    method GetNextChannelId() returns (id: int)
      requires Valid()
      modifies this`nextChannelId
      ensures Valid()
      ensures id == old(nextChannelId) && nextChannelId == id + 1
      ensures forall k :: 0 <= k < |SeedChannels| ==> SeedChannels[k].id != id
    {
      id := nextChannelId;
      nextChannelId := nextChannelId + 1;
      assert forall k :: 0 <= k < |SeedChannels| ==> SeedChannelIds[k] == SeedChannels[k].id;
    }

    /** `getNextMessageId`: the same for messages. */
    method GetNextMessageId() returns (id: int)
      requires Valid()
      modifies this`nextMessageId
      ensures Valid()
      ensures id == old(nextMessageId) && nextMessageId == id + 1
      ensures forall k :: 0 <= k < |SeedMessages| ==> SeedMessages[k].id != id
    {
      id := nextMessageId;
      nextMessageId := nextMessageId + 1;
      assert forall k :: 0 <= k < |SeedMessages| ==> SeedMessageIds[k] == SeedMessages[k].id;
    }
  }
}
