/** The `Message` model: content bounds, the required author, the optional
    channel and receiver, the `isRead` default and the
    `eitherChannelOrReceiver` validator. */
module MessageModel {
  import opened Common

  /** A stored message. `createdAt` is the timestamp the database assigns;
      only its order matters here. */
  datatype Message = Message(
    id: Id,
    content: string,
    authorId: Id,
    channelId: Option<Id>,
    receiverId: Option<Id>,
    isRead: bool,
    createdAt: int)

  /** JavaScript truthiness of a nullable id column. */
  predicate IsSet(x: Option<Id>)
  {
    x.Some? && x.value != ""
  }

  /** `content`: not null, `len: [1, 2000]`. */
  predicate ValidContent(content: string)
  {
    1 <= |content| <= 2000
  }

  /** `authorId`: not null. An id the request sent is never null; the
      empty string is the one id no row may carry. */
  predicate ValidAuthor(authorId: Id)
  {
    authorId != ""
  }

  /** The `eitherChannelOrReceiver` model validator: `None` when it passes,
      otherwise the message of the error it throws. */
  function EitherChannelOrReceiver(m: Message): (err: Option<string>)
    ensures err.None? <==> IsSet(m.channelId) != IsSet(m.receiverId)
    ensures !IsSet(m.channelId) && !IsSet(m.receiverId) ==>
      err == Some("Message must have either channelId or receiverId")
    ensures IsSet(m.channelId) && IsSet(m.receiverId) ==>
      err == Some("Message cannot have both channelId and receiverId")
  {
    if !IsSet(m.channelId) && !IsSet(m.receiverId) then
      Some("Message must have either channelId or receiverId")
    else if IsSet(m.channelId) && IsSet(m.receiverId) then
      Some("Message cannot have both channelId and receiverId")
    else
      None
  }

  /** Every validator of the model passes. */
  predicate ValidMessage(m: Message)
  {
    ValidContent(m.content) && ValidAuthor(m.authorId) && EitherChannelOrReceiver(m).None?
  }

  /** A row as `Message.create` builds it: `isRead` takes its default. */
  function NewMessage(id: Id, content: string, authorId: Id, channelId: Option<Id>,
                      receiverId: Option<Id>, createdAt: int): (m: Message)
    ensures !m.isRead
    ensures m.id == id && m.content == content && m.authorId == authorId
    ensures m.channelId == channelId && m.receiverId == receiverId && m.createdAt == createdAt
  {
    Message(id, content, authorId, channelId, receiverId, false, createdAt)
  }

  /** A valid message is addressed either to a channel or to a user, never
      both and never neither. */
  lemma ValidMessageHasOneTarget(m: Message)
    requires ValidMessage(m)
    ensures IsSet(m.channelId) <==> !IsSet(m.receiverId)
  {
  }
}
