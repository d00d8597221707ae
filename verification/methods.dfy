/** The four server commands as guarded transitions of the store. Each takes
    the connection's user id, its arguments, and the values the server would
    generate itself (a fresh document id, the current time); it returns the
    new store or the error it throws. An error leaves the store as it was:
    nothing is written before the guards pass. */
module Methods {
  import opened Model

  /** What a successful `addMessage` hands back: the written store and the
      id of the inserted message. */
  datatype Posted = Posted(store: Store, messageId: MessageId)

  /** `Chats.collection.find(chatId)`: a string selector stands for
      `{_id: chatId}`, and an empty id is replaced by a random one that
      matches nothing. So a chat is found when the id is non-empty and some
      chat has it. */
  predicate ChatFound(chats: seq<Chat>, chatId: ChatId) {
    chatId != "" && chatId in ChatIds(chats)
  }

  /** `addChat(receiverId)`: the guards run in order (logged in, receiver is
      not the caller, no chat already holds both), then one chat with members
      `[caller, receiverId]` is appended under the fresh id. The receiver is
      not required to be a known user. */
  function AddChat(s: Store, caller: Option<UserId>, receiverId: UserId, newId: ChatId): (r: Result<Store>)
    requires newId != "" && newId !in ChatIds(s.chats)
    ensures !Truthy(caller) ==> r == Err(Unauthorized)
    ensures Truthy(caller) && receiverId == caller.value ==> r == Err(IllegalReceiver)
    ensures Truthy(caller) && receiverId != caller.value && PairExists(s.chats, caller.value, receiverId)
            ==> r == Err(ChatExists)
    ensures r.Ok? <==> Truthy(caller) && receiverId != caller.value && !PairExists(s.chats, caller.value, receiverId)
    ensures r.Ok? ==>
              && r.value.users == s.users
              && r.value.messages == s.messages
              && |r.value.chats| == |s.chats| + 1
              && r.value.chats[..|s.chats|] == s.chats
              && r.value.chats[|s.chats|] == Chat(newId, [caller.value, receiverId], None)
  {
    if !Truthy(caller) then Err(Unauthorized)
    else if receiverId == caller.value then Err(IllegalReceiver)
    else if PairExists(s.chats, caller.value, receiverId) then Err(ChatExists)
    else Ok(s.(chats := s.chats + [Chat(newId, [caller.value, receiverId], None)]))
  }

  /** `removeChat(chatId)`: logged in, the chat exists, then every chat with
      that id is deleted. Messages are not touched, and the caller need not be
      a member of the chat. */
  function RemoveChat(s: Store, caller: Option<UserId>, chatId: ChatId): (r: Result<Store>)
    ensures !Truthy(caller) ==> r == Err(Unauthorized)
    ensures Truthy(caller) && !ChatFound(s.chats, chatId) ==> r == Err(ChatNotExists)
    ensures r.Ok? <==> Truthy(caller) && ChatFound(s.chats, chatId)
    ensures r.Ok? ==>
              && r.value.users == s.users
              && r.value.messages == s.messages
              && ChatIds(r.value.chats) == ChatIds(s.chats) - {chatId}
              && forall c :: c in r.value.chats <==> c in s.chats && c.id != chatId
  {
    if !Truthy(caller) then Err(Unauthorized)
    else if !ChatFound(s.chats, chatId) then Err(ChatNotExists)
    else
      var kept := Without(s.chats, chatId);
      Ok(s.(chats := kept))
  }

  /** The chats whose id is not `chatId`, in their order. */
  function Without(chats: seq<Chat>, chatId: ChatId): (r: seq<Chat>)
    ensures forall c :: c in r <==> c in chats && c.id != chatId
    ensures ChatIds(r) == ChatIds(chats) - {chatId}
  {
    if |chats| == 0 then []
    else
      var rest := Without(chats[1..], chatId);
      assert chats == [chats[0]] + chats[1..];
      ChatIdsCons(chats[0], chats[1..]);
      if chats[0].id == chatId then rest
      else
        ChatIdsCons(chats[0], rest);
        [chats[0]] + rest
  }

  lemma ChatIdsCons(c: Chat, rest: seq<Chat>)
    ensures ChatIds([c] + rest) == {c.id} + ChatIds(rest)
  {
    var t := [c] + rest;
    forall id | id in ChatIds(t) ensures id in {c.id} + ChatIds(rest) {
      var i :| 0 <= i < |t| && t[i].id == id;
      if i > 0 {
        assert rest[i - 1].id == id;
      }
    }
    forall id | id in ChatIds(rest) ensures id in ChatIds(t) {
      var i :| 0 <= i < |rest| && rest[i].id == id;
      assert t[i + 1].id == id;
    }
    assert t[0].id == c.id;
  }

  /** Meteor's `check(profile, {name: String})`: an object pattern matches
      only objects with exactly its keys, so the name must be present and no
      picture may be given. */
  predicate ProfileMatches(p: Profile) {
    p.name.Some? && p.picture.None?
  }

  /** `updateProfile(profile)`: logged in, the profile matches the pattern,
      then the caller's user document gets this profile. A caller with no
      user document changes nothing. */
  function UpdateProfile(s: Store, caller: Option<UserId>, p: Profile): (r: Result<Store>)
    ensures !Truthy(caller) ==> r == Err(Unauthorized)
    ensures Truthy(caller) && !ProfileMatches(p) ==> r == Err(MatchFailed)
    ensures r.Ok? <==> Truthy(caller) && ProfileMatches(p)
    ensures r.Ok? ==>
              && r.value.chats == s.chats
              && r.value.messages == s.messages
              && |r.value.users| == |s.users|
              && forall i :: 0 <= i < |s.users| ==>
                   && r.value.users[i].id == s.users[i].id
                   && r.value.users[i].phone == s.users[i].phone
                   && r.value.users[i].profile == (if s.users[i].id == caller.value then p else s.users[i].profile)
  {
    if !Truthy(caller) then Err(Unauthorized)
    else if !ProfileMatches(p) then Err(MatchFailed)
    else Ok(s.(users := SetProfile(s.users, caller.value, p)))
  }

  function SetProfile(users: seq<User>, id: UserId, p: Profile): (r: seq<User>)
  {
    seq(|users|, i requires 0 <= i < |users| => if users[i].id == id then users[i].(profile := p) else users[i])
  }

  /** `addMessage(type, chatId, content)`: logged in, the chat exists, then one
      message from the caller, stamped `now`, is appended under the fresh id,
      which is returned. */
  function AddMessage(s: Store, caller: Option<UserId>, kind: MessageType, chatId: ChatId, content: string,
                      newId: MessageId, now: nat): (r: Result<Posted>)
    requires newId != "" && newId !in MessageIds(s.messages)
    ensures !Truthy(caller) ==> r == Err(Unauthorized)
    ensures Truthy(caller) && !ChatFound(s.chats, chatId) ==> r == Err(ChatNotExists)
    ensures r.Ok? <==> Truthy(caller) && ChatFound(s.chats, chatId)
    ensures r.Ok? ==>
              && r.value.messageId == newId
              && r.value.store.users == s.users
              && r.value.store.chats == s.chats
              && |r.value.store.messages| == |s.messages| + 1
              && r.value.store.messages[..|s.messages|] == s.messages
              && r.value.store.messages[|s.messages|] == Message(newId, chatId, caller.value, content, now, kind)
  {
    if !Truthy(caller) then Err(Unauthorized)
    else if !ChatFound(s.chats, chatId) then Err(ChatNotExists)
    else
      var m := Message(newId, chatId, caller.value, content, now, kind);
      Ok(Posted(s.(messages := s.messages + [m]), newId))
  }

  // ---------------------------------------------------------------------------
  // Properties relating several calls

  /** Repeating a successful `addChat` at once fails with `chat-exists`, and so
      does the same pair asked for from the receiver's side. */
  lemma AddChatNotRepeatable(s: Store, caller: Option<UserId>, receiverId: UserId, newId: ChatId, otherId: ChatId)
    requires newId != "" && newId !in ChatIds(s.chats)
    requires AddChat(s, caller, receiverId, newId).Ok?
    requires otherId != "" && otherId !in ChatIds(AddChat(s, caller, receiverId, newId).value.chats)
    ensures AddChat(AddChat(s, caller, receiverId, newId).value, caller, receiverId, otherId) == Err(ChatExists)
    ensures Truthy(Some(receiverId)) ==>
              AddChat(AddChat(s, caller, receiverId, newId).value, Some(receiverId), caller.value, otherId) == Err(ChatExists)
  {
    var s' := AddChat(s, caller, receiverId, newId).value;
    assert caller.value in s'.chats[|s.chats|].memberIds && receiverId in s'.chats[|s.chats|].memberIds;
  }

  lemma {:induction false} UniqueAppend(chats: seq<Chat>, c: Chat)
    requires UniqueChatIds(chats)
    requires c.id !in ChatIds(chats)
    ensures UniqueChatIds(chats + [c])
  {
    var t := chats + [c];
    forall i, j | 0 <= i < j < |t| ensures t[i].id != t[j].id {
      if j == |chats| {
        assert t[i].id == chats[i].id;
        assert chats[i].id in ChatIds(chats);
      }
    }
  }

  lemma {:induction false} UniqueWithout(chats: seq<Chat>, chatId: ChatId)
    requires UniqueChatIds(chats)
    ensures UniqueChatIds(Without(chats, chatId))
  {
    if |chats| > 0 {
      UniqueWithout(chats[1..], chatId);
      var rest := Without(chats[1..], chatId);
      if chats[0].id != chatId {
        var t := [chats[0]] + rest;
        forall i, j | 0 <= i < j < |t| ensures t[i].id != t[j].id {
          if i == 0 {
            assert t[j] in rest;
            var k :| 0 <= k < |chats[1..]| && chats[1..][k] == t[j];
            assert chats[k + 1] == t[j];
          } else {
            assert t[i] == rest[i - 1] && t[j] == rest[j - 1];
          }
        }
      }
    }
  }

  /** Every command keeps document ids unique when the ids it is given are
      fresh. */
  lemma CommandsPreserveWellFormed(s: Store, caller: Option<UserId>, receiverId: UserId, chatId: ChatId,
                                   p: Profile, kind: MessageType, content: string,
                                   newChat: ChatId, newMessage: MessageId, now: nat)
    requires WellFormed(s)
    requires newChat != "" && newChat !in ChatIds(s.chats)
    requires newMessage != "" && newMessage !in MessageIds(s.messages)
    ensures AddChat(s, caller, receiverId, newChat).Ok? ==> WellFormed(AddChat(s, caller, receiverId, newChat).value)
    ensures RemoveChat(s, caller, chatId).Ok? ==> WellFormed(RemoveChat(s, caller, chatId).value)
    ensures UpdateProfile(s, caller, p).Ok? ==> WellFormed(UpdateProfile(s, caller, p).value)
    ensures AddMessage(s, caller, kind, chatId, content, newMessage, now).Ok? ==>
              WellFormed(AddMessage(s, caller, kind, chatId, content, newMessage, now).value.store)
  {
    if Truthy(caller) {
      UniqueAppend(s.chats, Chat(newChat, [caller.value, receiverId], None));
      UniqueWithout(s.chats, chatId);
      var ms := s.messages + [Message(newMessage, chatId, caller.value, content, now, kind)];
      forall i, j | 0 <= i < j < |ms| ensures ms[i].id != ms[j].id {
        if j == |s.messages| {
          assert ms[i].id in MessageIds(s.messages);
        }
      }
    }
  }

  /** In a well-formed store `removeChat` deletes exactly one chat. */
  lemma RemoveChatRemovesOne(s: Store, caller: Option<UserId>, chatId: ChatId)
    requires WellFormed(s)
    requires RemoveChat(s, caller, chatId).Ok?
    ensures |RemoveChat(s, caller, chatId).value.chats| == |s.chats| - 1
  {
    WithoutOne(s.chats, chatId);
  }

  lemma {:induction false} WithoutOne(chats: seq<Chat>, chatId: ChatId)
    requires UniqueChatIds(chats)
    ensures chatId in ChatIds(chats) ==> |Without(chats, chatId)| == |chats| - 1
    ensures chatId !in ChatIds(chats) ==> Without(chats, chatId) == chats
  {
    if |chats| > 0 {
      WithoutOne(chats[1..], chatId);
      assert chats == [chats[0]] + chats[1..];
      if chats[0].id == chatId {
        assert chatId !in ChatIds(chats[1..]) by {
          forall k | 0 <= k < |chats[1..]| ensures chats[1..][k].id != chatId {
            assert chats[1..][k] == chats[k + 1];
          }
        }
      } else {
        assert chatId in ChatIds(chats) ==> chatId in ChatIds(chats[1..]) by {
          if chatId in ChatIds(chats) {
            var k :| 0 <= k < |chats| && chats[k].id == chatId;
            assert chats[1..][k - 1].id == chatId;
          }
        }
      }
    }
  }

  /** The empty id finds no chat, even when a chat is stored under it:
      `removeChat("")` and `addMessage(type, "", content)` always throw
      `chat-not-exists` for a logged-in caller. */
  lemma EmptyChatIdNotFound(s: Store, caller: Option<UserId>, kind: MessageType, content: string,
                            newId: MessageId, now: nat)
    requires Truthy(caller)
    requires newId != "" && newId !in MessageIds(s.messages)
    ensures RemoveChat(s, caller, "") == Err(ChatNotExists)
    ensures AddMessage(s, caller, kind, "", content, newId, now) == Err(ChatNotExists)
  {
  }

  /** `updateProfile` by a caller with no user document leaves the store as it
      was (the update matches no document). */
  lemma UpdateProfileUnknownCaller(s: Store, caller: Option<UserId>, p: Profile)
    requires UpdateProfile(s, caller, p).Ok?
    requires caller.value !in UserIds(s.users)
    ensures UpdateProfile(s, caller, p).value == s
  {
    var r := UpdateProfile(s, caller, p).value;
    forall i | 0 <= i < |s.users| ensures r.users[i] == s.users[i] {
      assert s.users[i].id in UserIds(s.users);
    }
  }
}
