/** The channel handlers over the `channels` and `channelSubscriptions`
    tables: creating a channel (and subscribing its creator), joining and
    leaving a channel, and the two reads. */
module ChannelController {
  import opened Common
  import opened ChannelModel

  /** `Channel.findByPk(id)`. */
  function FindChannel(channels: seq<Channel>, id: Id): (r: Option<Channel>)
    ensures r.Some? ==> r.value in channels && r.value.id == id
    ensures r.None? <==> forall k :: 0 <= k < |channels| ==> channels[k].id != id
  {
    if channels == [] then None
    else if channels[0].id == id then Some(channels[0])
    else FindChannel(channels[1..], id)
  }

  /** `Channel.findOne({where: {name}})` found a row. */
  predicate NameTaken(channels: seq<Channel>, name: string)
  {
    exists k :: 0 <= k < |channels| && channels[k].name == name
  }

  /** `ChannelSubscription.destroy({where: {userId, channelId}})`: every row
      for the pair goes, every other row stays, in order. */
  function RemovePair(subs: seq<Subscription>, userId: Id, channelId: Id): (r: seq<Subscription>)
    ensures !Subscribed(r, userId, channelId)
    ensures forall k :: 0 <= k < |r| ==> r[k] in subs
  {
    if subs == [] then []
    else
      var rest := RemovePair(subs[1..], userId, channelId);
      if subs[0].userId == userId && subs[0].channelId == channelId then rest
      else [subs[0]] + rest
  }

  /** Every row of another pair survives the deletion. */
  lemma {:induction false} RemovePairKeepsOthers(subs: seq<Subscription>, userId: Id, channelId: Id)
    ensures forall k :: 0 <= k < |subs| ==>
      (subs[k].userId != userId || subs[k].channelId != channelId ==> subs[k] in RemovePair(subs, userId, channelId))
  {
    if subs != [] {
      var tail := subs[1..];
      RemovePairKeepsOthers(tail, userId, channelId);
      forall k | 1 <= k < |subs| ensures subs[k] == tail[k - 1] {
      }
    }
  }

  /** With no row for the pair, the deletion changes nothing. */
  lemma {:induction false} RemovePairAbsent(subs: seq<Subscription>, userId: Id, channelId: Id)
    requires !Subscribed(subs, userId, channelId)
    ensures RemovePair(subs, userId, channelId) == subs
  {
    if subs != [] {
      SubscribedCons(subs, userId, channelId);
      RemovePairAbsent(subs[1..], userId, channelId);
      assert subs == [subs[0]] + subs[1..];
    }
  }

  /** Under the unique index, destroying a pair deletes exactly one row
      when the pair is subscribed and none otherwise. */
  lemma {:induction false} RemovePairCount(subs: seq<Subscription>, userId: Id, channelId: Id)
    requires UniqueSubscriptions(subs)
    ensures |RemovePair(subs, userId, channelId)| ==
      if Subscribed(subs, userId, channelId) then |subs| - 1 else |subs|
  {
    if subs != [] {
      var tail := subs[1..];
      UniqueTail(subs);
      RemovePairCount(tail, userId, channelId);
      SubscribedCons(subs, userId, channelId);
      if subs[0].userId == userId && subs[0].channelId == channelId {
        FirstPairNotInTail(subs);
      }
    }
  }

  /** The rows after the first of a unique table are unique. */
  lemma UniqueTail(subs: seq<Subscription>)
    requires UniqueSubscriptions(subs) && subs != []
    ensures UniqueSubscriptions(subs[1..])
  {
    var tail := subs[1..];
    forall j, k | 0 <= j < k < |tail| ensures
      tail[j].id != tail[k].id && (tail[j].userId != tail[k].userId || tail[j].channelId != tail[k].channelId)
    {
      assert tail[j] == subs[j + 1] && tail[k] == subs[k + 1];
    }
  }

  /** A pair is subscribed in a table when its first row or a later one
      records it. */
  lemma SubscribedCons(subs: seq<Subscription>, userId: Id, channelId: Id)
    requires subs != []
    ensures Subscribed(subs, userId, channelId) <==>
      (subs[0].userId == userId && subs[0].channelId == channelId) || Subscribed(subs[1..], userId, channelId)
  {
    if Subscribed(subs, userId, channelId) {
      var k :| 0 <= k < |subs| && subs[k].userId == userId && subs[k].channelId == channelId;
      if k > 0 {
        assert subs[1..][k - 1] == subs[k];
      }
    }
    if Subscribed(subs[1..], userId, channelId) {
      var k :| 0 <= k < |subs[1..]| && subs[1..][k].userId == userId && subs[1..][k].channelId == channelId;
      assert subs[k + 1] == subs[1..][k];
    }
  }

  /** Under the unique index, the pair of the first row appears nowhere
      else. */
  lemma FirstPairNotInTail(subs: seq<Subscription>)
    requires UniqueSubscriptions(subs) && subs != []
    ensures !Subscribed(subs[1..], subs[0].userId, subs[0].channelId)
  {
    var tail := subs[1..];
    forall k | 0 <= k < |tail| ensures tail[k].userId != subs[0].userId || tail[k].channelId != subs[0].channelId {
      assert tail[k] == subs[k + 1];
    }
  }

  /** Joining a channel and then leaving it restores the subscription
      table exactly. */
  lemma UnsubscribeUndoesSubscribe(subs: seq<Subscription>, s: Subscription)
    requires !Subscribed(subs, s.userId, s.channelId)
    ensures RemovePair(subs + [s], s.userId, s.channelId) == subs
  {
    RemovePairDropsLast(subs, s);
    RemovePairAbsent(subs, s.userId, s.channelId);
  }

  /** A row of the pair at the end is deleted with the others. */
  lemma {:induction false} RemovePairDropsLast(subs: seq<Subscription>, s: Subscription)
    ensures RemovePair(subs + [s], s.userId, s.channelId) == RemovePair(subs, s.userId, s.channelId)
  {
    if subs == [] {
      assert [] + [s] == [s];
      assert [s][1..] == [];
    } else {
      var all := subs + [s];
      assert all[0] == subs[0];
      assert all[1..] == subs[1..] + [s];
      RemovePairDropsLast(subs[1..], s);
    }
  }

  /** The users subscribed to a channel, as the `subscribers` include
      lists them. */
  function SubscribersOf(subs: seq<Subscription>, channelId: Id): (r: seq<Id>)
    ensures forall u :: u in r <==> Subscribed(subs, u, channelId)
  {
    if subs == [] then []
    else
      var rest := SubscribersOf(subs[1..], channelId);
      assert forall u :: Subscribed(subs, u, channelId) <==>
        (subs[0].userId == u && subs[0].channelId == channelId) || Subscribed(subs[1..], u, channelId)
      by {
        forall u ensures Subscribed(subs, u, channelId) ==>
          (subs[0].userId == u && subs[0].channelId == channelId) || Subscribed(subs[1..], u, channelId)
        {
          if Subscribed(subs, u, channelId) {
            var k :| 0 <= k < |subs| && subs[k].userId == u && subs[k].channelId == channelId;
            if k > 0 { assert subs[1..][k - 1] == subs[k]; }
          }
        }
        forall u | Subscribed(subs[1..], u, channelId) ensures Subscribed(subs, u, channelId) {
          var k :| 0 <= k < |subs[1..]| && subs[1..][k].userId == u && subs[1..][k].channelId == channelId;
          assert subs[k + 1] == subs[1..][k];
        }
      }
      if subs[0].channelId == channelId then [subs[0].userId] + rest else rest
  }

  /** A channel with its subscribers joined in. */
  datatype ChannelDetails = ChannelDetails(channel: Channel, subscribers: seq<Id>)

  /** The body of `getAllChannels`. */
  datatype ChannelList = ChannelList(count: nat, data: seq<ChannelDetails>)

  function DetailsOf(subs: seq<Subscription>, c: Channel): ChannelDetails
  {
    ChannelDetails(c, SubscribersOf(subs, c.id))
  }

  /** `getChannelById`: the channel with its subscribers, or 404. */
  function GetChannelById(channels: seq<Channel>, subs: seq<Subscription>, id: Id): (r: Reply<ChannelDetails>)
    ensures r.Refusal? <==> forall k :: 0 <= k < |channels| ==> channels[k].id != id
    ensures r.Refusal? ==> r == Refusal(404, "Channel not found")
    ensures r.Answer? ==>
      && r.status == 200 && r.body.channel in channels && r.body.channel.id == id
      && (forall u :: u in r.body.subscribers <==> Subscribed(subs, u, id))
    ensures !r.InternalError?
  {
    match FindChannel(channels, id)
    case None => Refusal(404, "Channel not found")
    case Some(c) => Answer(200, DetailsOf(subs, c))
  }

  /** `getAllChannels`: every channel, newest first (`ORDER BY createdAt
      DESC` over a table kept in creation order), with `count` equal to
      the number listed. */
  function GetAllChannels(channels: seq<Channel>, subs: seq<Subscription>): (r: Reply<ChannelList>)
    ensures r.Answer? && r.status == 200
    ensures r.body.count == |r.body.data| == |channels|
    ensures forall k :: 0 <= k < |channels| ==>
      r.body.data[k].channel == channels[|channels| - 1 - k]
    ensures forall k, u :: 0 <= k < |channels| ==>
      (u in r.body.data[k].subscribers <==> Subscribed(subs, u, channels[|channels| - 1 - k].id))
  {
    var newestFirst := seq(|channels|, k requires 0 <= k < |channels| =>
      DetailsOf(subs, channels[|channels| - 1 - k]));
    Answer(200, ChannelList(|newestFirst|, newestFirst))
  }

  /** What the two tables' constraints guarantee: unique channel ids and
      names, valid rows, creation timestamps increasing in table order and
      below the next one, unique subscriptions, and every subscription
      pointing at an existing channel. */
  ghost predicate Consistent(channels: seq<Channel>, subs: seq<Subscription>, clock: int)
  {
    && UniqueChannels(channels)
    && (forall k :: 0 <= k < |channels| ==> ValidChannel(channels[k]) && channels[k].createdAt < clock)
    && (forall j, k :: 0 <= j < k < |channels| ==> channels[j].createdAt < channels[k].createdAt)
    && UniqueSubscriptions(subs)
    && (forall k :: 0 <= k < |subs| ==>
          ValidSubscription(subs[k]) && FindChannel(channels, subs[k].channelId).Some?)
  }

  /** Inserting a valid channel with a fresh id and name, stamped with the
      current clock, keeps the tables consistent. */
  lemma InsertChannelKeeps(channels: seq<Channel>, subs: seq<Subscription>, clock: int, c: Channel)
    requires Consistent(channels, subs, clock)
    requires ValidChannel(c) && c.createdAt == clock
    requires !NameTaken(channels, c.name) && FindChannel(channels, c.id).None?
    ensures Consistent(channels + [c], subs, clock + 1)
  {
    var all := channels + [c];
    forall j, k | 0 <= j < k < |all| ensures all[j].id != all[k].id && all[j].name != all[k].name {
      if k == |channels| {
        assert all[j] == channels[j];
      }
    }
    forall k | 0 <= k < |subs| ensures FindChannel(all, subs[k].channelId).Some? {
      FindChannelAfterAppend(channels, c, subs[k].channelId);
    }
  }

  /** The primary key `id` is already in use in `channelSubscriptions`. */
  predicate SubscriptionIdTaken(subs: seq<Subscription>, id: Id)
  {
    exists k :: 0 <= k < |subs| && subs[k].id == id
  }

  /** Inserting a valid subscription to an existing channel, for a pair
      not yet subscribed and with a fresh id, keeps the tables consistent. */
  lemma InsertSubscriptionKeeps(channels: seq<Channel>, subs: seq<Subscription>, clock: int, s: Subscription)
    requires Consistent(channels, subs, clock)
    requires ValidSubscription(s) && FindChannel(channels, s.channelId).Some?
    requires !Subscribed(subs, s.userId, s.channelId)
    requires !SubscriptionIdTaken(subs, s.id)
    ensures Consistent(channels, subs + [s], clock)
  {
    var all := subs + [s];
    forall j, k | 0 <= j < k < |all|
      ensures all[j].id != all[k].id && (all[j].userId != all[k].userId || all[j].channelId != all[k].channelId)
    {
      if k == |subs| {
        assert all[j] == subs[j];
      }
    }
  }

  /** No one is subscribed to a channel that does not exist. */
  lemma NoSubscriptionsToUnknownChannel(channels: seq<Channel>, subs: seq<Subscription>, clock: int,
                                        channelId: Id, userId: Id)
    requires Consistent(channels, subs, clock) && FindChannel(channels, channelId).None?
    ensures !Subscribed(subs, userId, channelId)
  {
    forall k | 0 <= k < |subs| ensures subs[k].channelId != channelId {
      assert FindChannel(channels, subs[k].channelId).Some?;
    }
  }

  class ChannelDirectory {
    var channels: seq<Channel>
    var subscriptions: seq<Subscription>
    /** The next creation timestamp the database hands out. */
    var clock: int

    ghost predicate Valid()
      reads this
    {
      Consistent(channels, subscriptions, clock)
    }

    constructor ()
      ensures Valid() && channels == [] && subscriptions == []
    {
      channels := [];
      subscriptions := [];
      clock := 0;
    }

    /** `createChannel`. `channelId` and `subscriptionId` are the UUIDs the
        database would generate. A missing name or creator, or a name in
        use, answers 400 and writes nothing; a row the validators or the
        primary key reject is the catch-all 500 and writes nothing. The two
        inserts are separate: when the second fails the channel stays
        without its creator's subscription. On success exactly one channel
        and one subscription are added, and the creator is subscribed. */
    method CreateChannel(name: Field, description: Field, createdBy: Field,
                         channelId: Id, subscriptionId: Id)
      returns (r: Reply<Channel>)
      requires Valid()
      modifies this
      ensures Valid()
      ensures !Truthy(name) || !Truthy(createdBy) ==>
        r == Refusal(400, "Please provide channel name and creator ID")
        && channels == old(channels) && subscriptions == old(subscriptions)
      ensures Truthy(name) && Truthy(createdBy) && NameTaken(old(channels), name.value) ==>
        r == Refusal(400, "Channel with this name already exists")
        && channels == old(channels) && subscriptions == old(subscriptions)
      ensures r.Refusal? ==> channels == old(channels) && subscriptions == old(subscriptions)
      ensures r.Answer? ==>
        && Truthy(name) && Truthy(createdBy) && !NameTaken(old(channels), name.value)
        && r.status == 201
        && r.body == NewChannel(channelId, name.value, description, createdBy.value, old(clock))
        && channels == old(channels) + [r.body]
        && subscriptions == old(subscriptions) + [Subscription(subscriptionId, createdBy.value, channelId)]
        && Subscribed(subscriptions, createdBy.value, channelId)
      ensures r.InternalError? ==>
        && subscriptions == old(subscriptions)
        && (|| channels == old(channels)
            || channels == old(channels) + [NewChannel(channelId, name.value, description, createdBy.value, old(clock))])
      ensures (&& Truthy(name) && Truthy(createdBy) && !NameTaken(old(channels), name.value)
               && ValidChannel(NewChannel(channelId, name.value, description, createdBy.value, old(clock)))
               && FindChannel(old(channels), channelId).None?
               && subscriptionId != "" && !SubscriptionIdTaken(old(subscriptions), subscriptionId)) ==> r.Answer?
      ensures (&& Truthy(name) && Truthy(createdBy) && !NameTaken(old(channels), name.value)
               && !(&& ValidChannel(NewChannel(channelId, name.value, description, createdBy.value, old(clock)))
                    && FindChannel(old(channels), channelId).None?)) ==>
        r == InternalError && channels == old(channels) && subscriptions == old(subscriptions)
      ensures (&& Truthy(name) && Truthy(createdBy) && !NameTaken(old(channels), name.value)
               && ValidChannel(NewChannel(channelId, name.value, description, createdBy.value, old(clock)))
               && FindChannel(old(channels), channelId).None?
               && (subscriptionId == "" || SubscriptionIdTaken(old(subscriptions), subscriptionId))) ==>
        && r == InternalError
        && channels == old(channels) + [NewChannel(channelId, name.value, description, createdBy.value, old(clock))]
        && subscriptions == old(subscriptions)
    {
      if !Truthy(name) || !Truthy(createdBy) {
        return Refusal(400, "Please provide channel name and creator ID");
      }
      if NameTaken(channels, name.value) {
        return Refusal(400, "Channel with this name already exists");
      }
      var channel := NewChannel(channelId, name.value, description, createdBy.value, clock);
      if !ValidChannel(channel) || FindChannel(channels, channelId).Some? {
        return InternalError;
      }
      InsertChannelKeeps(channels, subscriptions, clock, channel);
      NoSubscriptionsToUnknownChannel(channels, subscriptions, clock, channelId, createdBy.value);
      channels := channels + [channel];
      clock := clock + 1;
      assert channels[|channels| - 1].id == channelId;
      if subscriptionId == "" || SubscriptionIdTaken(subscriptions, subscriptionId) {
        return InternalError;
      }
      var subscription := Subscription(subscriptionId, createdBy.value, channelId);
      InsertSubscriptionKeeps(channels, subscriptions, clock, subscription);
      subscriptions := subscriptions + [subscription];
      assert subscriptions[|subscriptions| - 1] == subscription;
      r := Answer(201, channel);
    }

    /** `subscribeToChannel`. The checks run in the handler's order: a
        missing user id (400), an unknown channel (404), an existing
        subscription (400); each leaves the table as it was. Otherwise
        exactly the pair is added and nothing else changes. */
    method SubscribeToChannel(channelId: Id, userId: Field, subscriptionId: Id)
      returns (r: Reply<string>)
      requires Valid()
      modifies this`subscriptions
      ensures Valid()
      ensures !Truthy(userId) ==> r == Refusal(400, "User ID is required")
      ensures Truthy(userId) && FindChannel(channels, channelId).None? ==> r == Refusal(404, "Channel not found")
      ensures (Truthy(userId) && FindChannel(channels, channelId).Some?
               && Subscribed(old(subscriptions), userId.value, channelId)) ==>
        r == Refusal(400, "Already subscribed to this channel")
      ensures !r.Answer? ==> subscriptions == old(subscriptions)
      ensures r.Answer? ==>
        && r == Answer(200, "Successfully subscribed")
        && Truthy(userId) && !Subscribed(old(subscriptions), userId.value, channelId)
        && subscriptions == old(subscriptions) + [Subscription(subscriptionId, userId.value, channelId)]
      ensures (&& Truthy(userId) && FindChannel(channels, channelId).Some?
               && !Subscribed(old(subscriptions), userId.value, channelId)
               && subscriptionId != "" && !SubscriptionIdTaken(old(subscriptions), subscriptionId)) ==> r.Answer?
      ensures (&& Truthy(userId) && FindChannel(channels, channelId).Some?
               && !Subscribed(old(subscriptions), userId.value, channelId)
               && (subscriptionId == "" || SubscriptionIdTaken(old(subscriptions), subscriptionId))) ==>
        r == InternalError
    {
      if !Truthy(userId) {
        return Refusal(400, "User ID is required");
      }
      if FindChannel(channels, channelId).None? {
        return Refusal(404, "Channel not found");
      }
      if Subscribed(subscriptions, userId.value, channelId) {
        return Refusal(400, "Already subscribed to this channel");
      }
      if subscriptionId == "" || SubscriptionIdTaken(subscriptions, subscriptionId) {
        return InternalError;
      }
      InsertSubscriptionKeeps(channels, subscriptions, clock, Subscription(subscriptionId, userId.value, channelId));
      subscriptions := subscriptions + [Subscription(subscriptionId, userId.value, channelId)];
      r := Answer(200, "Successfully subscribed");
    }

    /** `unsubscribeFromChannel`: a missing user id answers 400; otherwise
        the pair's rows are deleted, whether or not the channel exists, and
        the answer is 404 exactly when there was none. */
    method UnsubscribeFromChannel(channelId: Id, userId: Field) returns (r: Reply<string>)
      requires Valid()
      modifies this`subscriptions
      ensures Valid()
      ensures !Truthy(userId) ==> r == Refusal(400, "User ID is required") && subscriptions == old(subscriptions)
      ensures Truthy(userId) ==>
        && subscriptions == RemovePair(old(subscriptions), userId.value, channelId)
        && |subscriptions| == (if Subscribed(old(subscriptions), userId.value, channelId)
                               then |old(subscriptions)| - 1 else |old(subscriptions)|)
        && (r == Refusal(404, "Subscription not found") <==> !Subscribed(old(subscriptions), userId.value, channelId))
        && (r.Answer? <==> Subscribed(old(subscriptions), userId.value, channelId))
      ensures r.Answer? ==> r == Answer(200, "Successfully unsubscribed")
      ensures !r.InternalError?
    {
      if !Truthy(userId) {
        return Refusal(400, "User ID is required");
      }
      var before := subscriptions;
      subscriptions := RemovePair(subscriptions, userId.value, channelId);
      RemovePairCount(before, userId.value, channelId);
      assert UniqueSubscriptions(subscriptions) by {
        RemovePairUnique(before, userId.value, channelId);
      }
      var deleted := |before| - |subscriptions|;
      if deleted == 0 {
        return Refusal(404, "Subscription not found");
      }
      r := Answer(200, "Successfully unsubscribed");
    }
  }

  /** Destroying rows keeps the primary key and the unique index intact. */
  lemma {:induction false} RemovePairUnique(subs: seq<Subscription>, userId: Id, channelId: Id)
    requires UniqueSubscriptions(subs)
    ensures UniqueSubscriptions(RemovePair(subs, userId, channelId))
  {
    if subs != [] {
      var tail := subs[1..];
      UniqueTail(subs);
      RemovePairUnique(tail, userId, channelId);
      var rest := RemovePair(tail, userId, channelId);
      if !(subs[0].userId == userId && subs[0].channelId == channelId) {
        forall y | y in tail ensures subs[0].id != y.id && (subs[0].userId != y.userId || subs[0].channelId != y.channelId) {
          var b :| 0 <= b < |tail| && tail[b] == y;
          assert subs[b + 1] == y;
        }
        ConsUnique(subs[0], rest, tail);
      }
    }
  }

  /** A row that clashes with no row of `tail` can go in front of any
      unique selection of `tail`. */
  lemma ConsUnique(x: Subscription, rest: seq<Subscription>, tail: seq<Subscription>)
    requires UniqueSubscriptions(rest)
    requires forall y :: y in rest ==> y in tail
    requires forall y :: y in tail ==> x.id != y.id && (x.userId != y.userId || x.channelId != y.channelId)
    ensures UniqueSubscriptions([x] + rest)
  {
    var r := [x] + rest;
    forall j, k | 0 <= j < k < |r| ensures
      r[j].id != r[k].id && (r[j].userId != r[k].userId || r[j].channelId != r[k].channelId)
    {
      assert r[k] == rest[k - 1];
      if j > 0 {
        assert r[j] == rest[j - 1];
      }
    }
  }

  /** A channel found before an insert is still found after it. */
  lemma FindChannelAfterAppend(channels: seq<Channel>, c: Channel, id: Id)
    requires FindChannel(channels, id).Some?
    ensures FindChannel(channels + [c], id).Some?
  {
    var k :| 0 <= k < |channels| && channels[k].id == id;
    assert (channels + [c])[k].id == id;
  }
}
