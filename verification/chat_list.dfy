/** The chat list page: each mirrored chat joined with the first of its
    mirrored messages as `lastMessage`. */
module ChatList {
  import opened Model
  import opened Query

  /** The map step of one chat's message stream. Before that stream has
      emitted (the `startWith(null)` seed) the chat is returned as it is;
      afterwards `lastMessage` is the first message of the list, and an empty
      list, being truthy, sets it to undefined. */
  function Attach(chat: Chat, messages: Option<seq<Message>>): (r: Chat)
    ensures r.id == chat.id && r.memberIds == chat.memberIds
    ensures messages.None? ==> r == chat
    ensures messages.Some? ==>
              && (r.lastMessage.None? <==> |messages.value| == 0)
              && (r.lastMessage.Some? ==> r.lastMessage.value == messages.value[0])
  {
    match messages
    case None => chat
    case Some(ms) => chat.(lastMessage := if |ms| == 0 then None else Some(ms[0]))
  }

  /** The value the chat list takes for one value of the chats mirror.
      `loaded` holds the chats whose `{chatId: chat._id}` query has emitted;
      the others still carry the `null` seed. With no chats there is nothing
      to combine, and no value is produced at all. */
  function JoinChats(chats: seq<Chat>, mirror: seq<Message>, loaded: set<ChatId>): (r: Option<seq<Chat>>)
    ensures r.None? <==> |chats| == 0
    ensures r.Some? ==>
              && |r.value| == |chats|
              && forall i :: 0 <= i < |chats| ==>
                   && r.value[i].id == chats[i].id
                   && r.value[i].memberIds == chats[i].memberIds
                   && (chats[i].id !in loaded ==> r.value[i] == chats[i])
  {
    if |chats| == 0 then None
    else
      Some(seq(|chats|, i requires 0 <= i < |chats| =>
             Attach(chats[i], if chats[i].id in loaded then Some(MessagesOf(mirror, chats[i].id)) else None)))
  }

  /** `m` is the first message of chat `c` in mirror order. */
  predicate FirstOf(mirror: seq<Message>, c: ChatId, m: Message) {
    exists p :: 0 <= p < |mirror| && mirror[p] == m && m.chatId == c &&
      forall q :: 0 <= q < p ==> mirror[q].chatId != c
  }

  lemma {:induction false} MessagesOfHead(mirror: seq<Message>, c: ChatId)
    ensures |MessagesOf(mirror, c)| == 0 <==> forall q :: 0 <= q < |mirror| ==> mirror[q].chatId != c
    ensures |MessagesOf(mirror, c)| > 0 ==> FirstOf(mirror, c, MessagesOf(mirror, c)[0])
  {
    if |mirror| > 0 {
      MessagesOfHead(mirror[1..], c);
      if mirror[0].chatId != c {
        assert MessagesOf(mirror, c) == MessagesOf(mirror[1..], c);
        forall q | 0 < q < |mirror| ensures mirror[q] == mirror[1..][q - 1] { }
        if |MessagesOf(mirror, c)| > 0 {
          var p :| 0 <= p < |mirror[1..]| && mirror[1..][p] == MessagesOf(mirror, c)[0] && MessagesOf(mirror, c)[0].chatId == c &&
                   forall q :: 0 <= q < p ==> mirror[1..][q].chatId != c;
          assert mirror[p + 1] == MessagesOf(mirror, c)[0];
          forall q | 0 <= q < p + 1 ensures mirror[q].chatId != c {
            if q > 0 {
              assert mirror[q] == mirror[1..][q - 1];
            }
          }
        }
      } else {
        assert MessagesOf(mirror, c)[0] == mirror[0];
      }
    }
  }

  /** Once a chat's messages have arrived, its `lastMessage` is the first of
      its messages in the mirror, and undefined when it has none there; the
      messages of other chats play no part. */
  lemma JoinChatsLastMessage(chats: seq<Chat>, mirror: seq<Message>, loaded: set<ChatId>, i: nat)
    requires i < |chats| && chats[i].id in loaded
    ensures JoinChats(chats, mirror, loaded).value[i].lastMessage.None? <==>
              forall q :: 0 <= q < |mirror| ==> mirror[q].chatId != chats[i].id
    ensures JoinChats(chats, mirror, loaded).value[i].lastMessage.Some? ==>
              FirstOf(mirror, chats[i].id, JoinChats(chats, mirror, loaded).value[i].lastMessage.value)
  {
    MessagesOfHead(mirror, chats[i].id);
  }

  /** Two mirrors that hold the same messages for a chat give that chat the
      same entry. */
  lemma JoinChatsOnlyOwnMessages(chats: seq<Chat>, mirror1: seq<Message>, mirror2: seq<Message>, loaded: set<ChatId>, i: nat)
    requires i < |chats|
    requires MessagesOf(mirror1, chats[i].id) == MessagesOf(mirror2, chats[i].id)
    ensures JoinChats(chats, mirror1, loaded).value[i] == JoinChats(chats, mirror2, loaded).value[i]
  {
  }

  /** The first combined value, when every chat still carries its seed, is
      the chats mirror unchanged. */
  lemma JoinChatsSeed(chats: seq<Chat>, mirror: seq<Message>)
    requires |chats| > 0
    ensures JoinChats(chats, mirror, {}) == Some(chats)
  {
    assert JoinChats(chats, mirror, {}).value == chats;
  }
}
