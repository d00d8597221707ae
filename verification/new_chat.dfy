/** The contact picker of the new-chat page: the users the sender may start a
    chat with, computed on the client's mirrored chats and users. */
module NewChat {
  import opened Model
  import opened Query
  import Methods

  /** The member ids of all the given chats, one chat after the other. */
  function AllMemberIds(chats: seq<Chat>): (r: seq<UserId>)
    ensures forall u :: u in r <==> exists i :: 0 <= i < |chats| && u in chats[i].memberIds
  {
    if |chats| == 0 then []
    else
      var rest := AllMemberIds(chats[1..]);
      assert forall i :: 1 <= i < |chats| ==> chats[i] == chats[1..][i - 1];
      chats[0].memberIds + rest
  }

  /** `receiverIds`: every member of every chat the sender belongs to, then
      the sender itself. */
  function ExcludedIds(chats: seq<Chat>, senderId: UserId): (r: seq<UserId>)
  {
    AllMemberIds(ChatsWithMember(chats, senderId)) + [senderId]
  }

  /** A user is excluded exactly when it is the sender or shares a chat with
      the sender. */
  lemma ExcludedIdsSpec(chats: seq<Chat>, senderId: UserId, u: UserId)
    ensures u in ExcludedIds(chats, senderId) <==> u == senderId || PairExists(chats, senderId, u)
  {
    var mine := ChatsWithMember(chats, senderId);
    if u in AllMemberIds(mine) {
      var i :| 0 <= i < |mine| && u in mine[i].memberIds;
      assert mine[i] in chats;
      var k :| 0 <= k < |chats| && chats[k] == mine[i];
    }
    if PairExists(chats, senderId, u) {
      var k :| 0 <= k < |chats| && senderId in chats[k].memberIds && u in chats[k].memberIds;
      assert chats[k] in mine;
      var i :| 0 <= i < |mine| && mine[i] == chats[k];
    }
  }

  /** The settled list of `findUsers`: the mirrored users whose id is not
      excluded (`{_id: {$nin: receiverIds}}`), in mirror order. It offers
      exactly the users that are neither the sender nor a member of a chat the
      sender belongs to: the sender never, co-members never, and everyone
      else. */
  function FindUsers(users: seq<PublishedUser>, chats: seq<Chat>, senderId: UserId): (r: seq<PublishedUser>)
    ensures |r| <= |users|
    ensures forall u :: u in r <==> u in users && u.id != senderId && !PairExists(chats, senderId, u.id)
  {
    var excluded := ExcludedIds(chats, senderId);
    assert forall id :: id in excluded <==> id == senderId || PairExists(chats, senderId, id) by {
      forall id ensures id in excluded <==> id == senderId || PairExists(chats, senderId, id) {
        ExcludedIdsSpec(chats, senderId, id);
      }
    }
    Filter(users, (u: PublishedUser) => u.id !in excluded)
  }

  /** A chat the sender is not a member of excludes nobody. */
  lemma {:induction false} ForeignChatExcludesNobody(users: seq<PublishedUser>, chats: seq<Chat>, c: Chat, senderId: UserId)
    requires senderId !in c.memberIds
    ensures FindUsers(users, chats + [c], senderId) == FindUsers(users, chats, senderId)
  {
    FilterAppend(chats, [c], (x: Chat) => senderId in x.memberIds);
    assert Filter([c], (x: Chat) => senderId in x.memberIds) == [];
    assert ChatsWithMember(chats + [c], senderId) == ChatsWithMember(chats, senderId);
  }

  /** With no chats mirrored yet (the `startWith([])` seed of the chats query)
      only the sender is excluded. */
  lemma {:induction false} NoChatsExcludesOnlySender(users: seq<PublishedUser>, senderId: UserId)
    ensures ExcludedIds([], senderId) == [senderId]
    ensures forall u :: u in FindUsers(users, [], senderId) <==> u in users && u.id != senderId
  {
  }

  /** Everyone the picker offers can be added with `addChat` on the same chats:
      neither `illegal-receiver` nor `chat-exists` is thrown. */
  lemma OfferedUsersCanBeAdded(s: Store, users: seq<PublishedUser>, senderId: UserId, u: PublishedUser, newId: ChatId)
    requires senderId != ""
    requires newId != "" && newId !in ChatIds(s.chats)
    requires u in FindUsers(users, s.chats, senderId)
    ensures Methods.AddChat(s, Some(senderId), u.id, newId).Ok?
  {
  }

  /** The values the picker list takes for one users mirror, when each chats
      value is handled before the next one arrives. The outer `startWith([])`
      is a chats value itself and is never shown: for it, and then for each
      chats value, the list shows the inner `startWith([])` seed followed by
      the settled list for that value. */
  function PickerEmissions(users: seq<PublishedUser>, chatEmissions: seq<seq<Chat>>, senderId: UserId): (r: seq<seq<PublishedUser>>)
    ensures |r| == 2 * |chatEmissions| + 2
    ensures forall k :: 0 <= k <= |chatEmissions| ==> r[2 * k] == []
    ensures r[1] == FindUsers(users, [], senderId)
    ensures forall k :: 0 <= k < |chatEmissions| ==> r[2 * k + 3] == FindUsers(users, chatEmissions[k], senderId)
  {
    var settled := seq(|chatEmissions|, k requires 0 <= k < |chatEmissions| => FindUsers(users, chatEmissions[k], senderId));
    var lists := [FindUsers(users, [], senderId)] + settled;
    var r := Interleave(lists);
    forall k | 0 <= k < |chatEmissions| ensures r[2 * k + 3] == FindUsers(users, chatEmissions[k], senderId) {
      assert 2 * k + 3 == 2 * (k + 1) + 1;
      assert lists[k + 1] == settled[k];
    }
    r
  }

  /** Each settled list preceded by the empty `startWith([])` seed. */
  function Interleave(lists: seq<seq<PublishedUser>>): (r: seq<seq<PublishedUser>>)
    ensures |r| == 2 * |lists|
    ensures forall k :: 0 <= k < |lists| ==> r[2 * k] == [] && r[2 * k + 1] == lists[k]
  {
    if |lists| == 0 then []
    else
      var rest := Interleave(lists[1..]);
      var r := [[], lists[0]] + rest;
      assert forall k :: 0 <= k < |lists| ==> r[2 * k] == [] && r[2 * k + 1] == lists[k] by {
        forall k | 1 <= k < |lists|
          ensures r[2 * k] == [] && r[2 * k + 1] == lists[k]
        {
          var j := 2 * (k - 1);
          assert 2 * k == j + 2 && 2 * k + 1 == j + 3;
          assert r[j + 2] == rest[j] && r[j + 3] == rest[j + 1];
          assert lists[1..][k - 1] == lists[k];
        }
      }
      r
  }
}
