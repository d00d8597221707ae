/** The documents of the chat store (users, chats, messages) and the immutable
    snapshot that every command and every feed is evaluated on. */
module Model {

  type UserId = string
  type ChatId = string
  type MessageId = string

  datatype Option<+T> = None | Some(value: T)

  /** The outcome of a server command: the new value, or the error it throws. */
  datatype Result<+T> = Ok(value: T) | Err(error: Error)

  /** The error codes thrown by the server commands. `MatchFailed` is the
      failure of an argument-pattern check; the others are the codes given to
      `Meteor.Error`. */
  datatype Error = Unauthorized | IllegalReceiver | ChatExists | ChatNotExists | MatchFailed

  /** A user's profile; both keys are optional in a stored document. */
  datatype Profile = Profile(name: Option<string>, picture: Option<string>)

  /** A user document. `phone` stands for the account data the login flow
      stores beside the profile, which no feed publishes. */
  datatype User = User(id: UserId, profile: Profile, phone: string)

  /** A user as the feeds send it: the id and the profile, nothing else. */
  datatype PublishedUser = PublishedUser(id: UserId, profile: Profile)

  datatype MessageType = Text | Location

  /** A message document; `createdAt` is the server time of the insert. */
  datatype Message = Message(
    id: MessageId,
    chatId: ChatId,
    senderId: UserId,
    content: string,
    createdAt: nat,
    kind: MessageType)

  /** A chat document. `lastMessage` is never stored by the server; the chat
      list sets it on the client copy. */
  datatype Chat = Chat(id: ChatId, memberIds: seq<UserId>, lastMessage: Option<Message>)

  datatype Store = Store(users: seq<User>, chats: seq<Chat>, messages: seq<Message>)

  /** JavaScript truthiness of an optional string: absent and empty are both
      falsy. A command or feed treats a caller whose user id is not truthy as
      not logged in, and the `messages` feed treats a falsy chat id as no chat
      id at all. */
  predicate Truthy(o: Option<string>) {
    o.Some? && o.value != ""
  }

  /** The field projection `{profile: 1}`: Mongo keeps `_id` and the profile. */
  function Publish(u: User): PublishedUser
  {
    PublishedUser(u.id, u.profile)
  }

  function UserIds(users: seq<User>): set<UserId> {
    set i | 0 <= i < |users| :: users[i].id
  }

  function ChatIds(chats: seq<Chat>): set<ChatId> {
    set i | 0 <= i < |chats| :: chats[i].id
  }

  function MessageIds(messages: seq<Message>): set<MessageId> {
    set i | 0 <= i < |messages| :: messages[i].id
  }

  predicate UniqueUserIds(users: seq<User>) {
    forall i, j :: 0 <= i < j < |users| ==> users[i].id != users[j].id
  }

  predicate UniqueChatIds(chats: seq<Chat>) {
    forall i, j :: 0 <= i < j < |chats| ==> chats[i].id != chats[j].id
  }

  predicate UniqueMessageIds(messages: seq<Message>) {
    forall i, j :: 0 <= i < j < |messages| ==> messages[i].id != messages[j].id
  }

  /** Document ids are unique within each collection, as the store's primary
      key guarantees. */
  predicate WellFormed(s: Store) {
    UniqueUserIds(s.users) && UniqueChatIds(s.chats) && UniqueMessageIds(s.messages)
  }

  /** Some chat of the store has both users among its members (Mongo's
      `$all` on an array field: containment, in any order). */
  predicate PairExists(chats: seq<Chat>, a: UserId, b: UserId) {
    exists i :: 0 <= i < |chats| && a in chats[i].memberIds && b in chats[i].memberIds
  }
}
