/** The server feeds, each evaluated once on a store snapshot for a viewer.
    A feed is `None` when the publish function returns nothing (no viewer, or
    no chat id): then no document is sent. */
module Publications {
  import opened Model
  import opened Query

  /** The `users` feed: every user, projected to id and profile. It takes no
      argument and does not leave out the viewer. */
  function UsersFeed(viewer: Option<UserId>, s: Store): (r: Option<seq<PublishedUser>>)
    ensures !Truthy(viewer) ==> r == None
    ensures Truthy(viewer) ==>
              && r.Some?
              && |r.value| == |s.users|
              && forall i :: 0 <= i < |s.users| ==> r.value[i].id == s.users[i].id && r.value[i].profile == s.users[i].profile
  {
    if !Truthy(viewer) then None
    else Some(seq(|s.users|, i requires 0 <= i < |s.users| => Publish(s.users[i])))
  }

  /** The viewer's own user document is published to them like any other. */
  lemma UsersFeedIncludesViewer(viewer: Option<UserId>, s: Store, u: User)
    requires Truthy(viewer)
    requires u in s.users && u.id == viewer.value
    ensures PublishedUser(viewer.value, u.profile) in UsersFeed(viewer, s).value
  {
    var i :| 0 <= i < |s.users| && s.users[i] == u;
    assert UsersFeed(viewer, s).value[i] == PublishedUser(viewer.value, u.profile);
  }

  /** The `messages(chatId)` feed: all messages of that chat, newest first.
      There is no page size: nothing is cut off. */
  function MessagesFeed(viewer: Option<UserId>, chatId: Option<ChatId>, s: Store): (r: Option<seq<Message>>)
    ensures !Truthy(viewer) || !Truthy(chatId) ==> r == None
    ensures Truthy(viewer) && Truthy(chatId) ==>
              && r.Some?
              && Sorted(r.value, Descending)
              && multiset(r.value) == multiset(MessagesOf(s.messages, chatId.value))
  {
    if !Truthy(viewer) || !Truthy(chatId) then None
    else Some(SortBy(MessagesOf(s.messages, chatId.value), Descending))
  }

  /** The feed holds exactly the chat's messages, each as often as the store
      does, and never a message of another chat. */
  lemma MessagesFeedExact(viewer: Option<UserId>, chatId: Option<ChatId>, s: Store)
    requires Truthy(viewer) && Truthy(chatId)
    ensures forall m :: m in MessagesFeed(viewer, chatId, s).value <==> m in s.messages && m.chatId == chatId.value
    ensures forall m: Message :: m.chatId == chatId.value ==>
              multiset(MessagesFeed(viewer, chatId, s).value)[m] == multiset(s.messages)[m]
  {
    var r := MessagesFeed(viewer, chatId, s).value;
    MessagesOfMultiset(s.messages, chatId.value);
    forall m ensures m in r <==> m in s.messages && m.chatId == chatId.value {
      assert m in r <==> m in multiset(r);
      assert m in MessagesOf(s.messages, chatId.value) <==> m in multiset(MessagesOf(s.messages, chatId.value));
    }
  }

  /** The feed does not ask whether the viewer belongs to the chat: any
      logged-in viewer who names a chat receives all of its messages, members
      or not. */
  lemma MessagesFeedServesNonMembers(viewer: Option<UserId>, s: Store, c: Chat)
    requires Truthy(viewer) && c.id != ""
    requires c in s.chats && viewer.value !in c.memberIds
    ensures MessagesFeed(viewer, Some(c.id), s).Some?
    ensures forall m :: m in s.messages && m.chatId == c.id ==> m in MessagesFeed(viewer, Some(c.id), s).value
  {
    MessagesFeedExact(viewer, Some(c.id), s);
  }

  /** The latest-message child of a chat: its messages newest first, limit 1. */
  function LatestMessage(s: Store, chat: Chat): (r: seq<Message>)
    ensures |r| <= 1
    ensures |r| == 1 <==> exists m :: m in s.messages && m.chatId == chat.id
    ensures |r| == 1 ==>
              && r[0] in s.messages
              && r[0].chatId == chat.id
              && forall m :: m in s.messages && m.chatId == chat.id ==> m.createdAt <= r[0].createdAt
  {
    var mine := MessagesOf(s.messages, chat.id);
    var sorted := SortBy(mine, Descending);
    assert forall m :: m in sorted <==> m in mine by {
      forall m ensures m in sorted <==> m in mine {
        assert m in sorted <==> m in multiset(sorted);
        assert m in mine <==> m in multiset(mine);
      }
    }
    assert forall m :: m in sorted ==> InOrder(sorted[0], m, Descending) by {
      forall m | m in sorted ensures InOrder(sorted[0], m, Descending) {
        var k :| 0 <= k < |sorted| && sorted[k] == m;
        assert k == 0 || InOrder(sorted[0], sorted[k], Descending);
      }
    }
    Take(sorted, 1)
  }

  /** The member child of a chat: the users whose id is among the chat's
      members, projected to id and profile, in store order. */
  function Members(s: Store, chat: Chat): (r: seq<PublishedUser>)
    ensures forall p :: p in r <==> exists u :: u in s.users && u.id in chat.memberIds && p == Publish(u)
  {
    var us := Filter(s.users, (u: User) => u.id in chat.memberIds);
    var r := seq(|us|, i requires 0 <= i < |us| => Publish(us[i]));
    assert forall p :: p in r <==> exists u :: u in us && p == Publish(u) by {
      forall p ensures p in r <==> exists u :: u in us && p == Publish(u) {
        if p in r {
          var i :| 0 <= i < |r| && r[i] == p;
          assert us[i] in us;
        }
        if exists u :: u in us && p == Publish(u) {
          var u :| u in us && p == Publish(u);
          var i :| 0 <= i < |us| && us[i] == u;
          assert r[i] == p;
        }
      }
    }
    r
  }

  /** One parent document of the `chats` feed with what its two children
      publish for it. */
  datatype ChatEntry = ChatEntry(chat: Chat, latest: seq<Message>, members: seq<PublishedUser>)

  /** The composite `chats` feed: its content is the parent query (the chats
      having the viewer among their members) evaluated
      on the snapshot, and for each parent both child queries evaluated
      independently, whatever order their events arrive in. */
  function ChatsFeed(viewer: Option<UserId>, s: Store): (r: Option<seq<ChatEntry>>)
    ensures !Truthy(viewer) ==> r == None
    ensures Truthy(viewer) ==>
              && r.Some?
              && |r.value| == |ChatsWithMember(s.chats, viewer.value)|
              && forall i :: 0 <= i < |r.value| ==>
                   && r.value[i].chat == ChatsWithMember(s.chats, viewer.value)[i]
                   && r.value[i].latest == LatestMessage(s, r.value[i].chat)
                   && r.value[i].members == Members(s, r.value[i].chat)
  {
    if !Truthy(viewer) then None
    else
      var parents := ChatsWithMember(s.chats, viewer.value);
      Some(seq(|parents|, i requires 0 <= i < |parents| =>
             ChatEntry(parents[i], LatestMessage(s, parents[i]), Members(s, parents[i]))))
  }

  /** A chat has an entry in the viewer's `chats` feed exactly when it is in
      the store with the viewer among its members. */
  lemma ChatsFeedMembership(viewer: Option<UserId>, s: Store, c: Chat)
    requires Truthy(viewer)
    ensures (exists i :: 0 <= i < |ChatsFeed(viewer, s).value| && ChatsFeed(viewer, s).value[i].chat == c)
            <==> c in s.chats && viewer.value in c.memberIds
  {
    var r := ChatsFeed(viewer, s).value;
    var parents := ChatsWithMember(s.chats, viewer.value);
    assert forall i :: 0 <= i < |r| ==> r[i].chat == parents[i];
    if c in s.chats && viewer.value in c.memberIds {
      var i :| 0 <= i < |parents| && parents[i] == c;
      assert r[i].chat == c;
    }
    if exists i :: 0 <= i < |r| && r[i].chat == c {
      var i :| 0 <= i < |r| && r[i].chat == c;
      assert parents[i] in parents;
    }
  }
}
