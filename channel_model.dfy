/** The `Channel` and `ChannelSubscription` models: their fields, their
    constraints and defaults, and the uniqueness rules of their tables. */
module ChannelModel {
  import opened Common

  /** A stored channel; `createdAt` is the timestamp the database assigns. */
  datatype Channel = Channel(id: Id, name: string, description: string, createdBy: Id, createdAt: int)

  /** A row of `channelSubscriptions`: `userId` has joined `channelId`. */
  datatype Subscription = Subscription(id: Id, userId: Id, channelId: Id)

  /** `name`: not null, `STRING(50)`, `len: [2, 50]`. */
  predicate ValidName(name: string)
  {
    2 <= |name| <= 50
  }

  /** `description`: a `STRING(200)` column. */
  predicate ValidDescription(description: string)
  {
    |description| <= 200
  }

  /** The description stored for the value the request sent: an absent one
      takes the default `''`. */
  function DescriptionOrDefault(description: Field): (d: string)
    ensures description.None? ==> d == ""
    ensures description.Some? ==> d == description.value
  {
    if description.Some? then description.value else ""
  }

  /** A row as `Channel.create({name, description, createdBy})` builds it. */
  function NewChannel(id: Id, name: string, description: Field, createdBy: Id, createdAt: int): (c: Channel)
    ensures c.description == DescriptionOrDefault(description)
    ensures c.id == id && c.name == name && c.createdBy == createdBy && c.createdAt == createdAt
  {
    Channel(id, name, DescriptionOrDefault(description), createdBy, createdAt)
  }

  /** Every column constraint of `channels` holds; `createdBy` is required. */
  predicate ValidChannel(c: Channel)
  {
    c.id != "" && ValidName(c.name) && ValidDescription(c.description) && c.createdBy != ""
  }

  /** `userId` and `channelId` are both required. */
  predicate ValidSubscription(s: Subscription)
  {
    s.id != "" && s.userId != "" && s.channelId != ""
  }

  /** The primary key and the unique `name` of `channels`. */
  ghost predicate UniqueChannels(channels: seq<Channel>)
  {
    forall j, k :: 0 <= j < k < |channels| ==>
      channels[j].id != channels[k].id && channels[j].name != channels[k].name
  }

  /** The primary key of `channelSubscriptions` and its unique index on
      `(userId, channelId)`. */
  ghost predicate UniqueSubscriptions(subs: seq<Subscription>)
  {
    forall j, k :: 0 <= j < k < |subs| ==>
      subs[j].id != subs[k].id
      && (subs[j].userId != subs[k].userId || subs[j].channelId != subs[k].channelId)
  }

  /** Some row records that `userId` has joined `channelId`. */
  predicate Subscribed(subs: seq<Subscription>, userId: Id, channelId: Id)
  {
    exists k :: 0 <= k < |subs| && subs[k].userId == userId && subs[k].channelId == channelId
  }
}
