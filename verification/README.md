# WhatsApp clone: commands, feeds and derived views, modelled in Dafny

This project models the data core of a Meteor/Angular chat application.
Three collections hold the state: users, chats and messages. Four server
commands change them:

- `addChat` opens a chat between the caller and a receiver;
- `removeChat` deletes a chat;
- `updateProfile` sets the caller's profile;
- `addMessage` posts a message.

Three server feeds publish data to a viewer:

- `users`: every user's profile;
- `messages`: one chat's messages, newest first;
- `chats`: the viewer's chats, each with its latest message and its members' profiles.

On the client, three pages derive views from the mirrored copies of those feeds:

- the contact picker of the new-chat page offers the users the sender has no chat with yet;
- the chat list sets each chat's `lastMessage`;
- the message thread tags messages with an alternating ownership, groups them by calendar day, and marks today's group. Its send box posts a text message and clears itself.

The model is pure functions over an immutable `Store` snapshot:

- **Commands** (`Methods`) return either the new store or the error code they throw. The error codes are `unauthorized`, `illegal-receiver`, `chat-exists` and `chat-not-exists`, plus a failed argument-pattern check.
- **Publications** (`Publications`) return `None` when the publish function returns nothing. Otherwise they return the documents the feed holds for that snapshot.
- **Client pages** are functions of the mirrored collections:
  - `NewChat` for the contact picker;
  - `ChatList` for the chat list;
  - `MessageThread` for the thread.
- **Parameters.** Ids and the clock become parameters: the fresh document id, the server time, the current time and the calendar-day label of a time.
- **Reactive streams** become sequences of emissions. A stream's state is threaded from one emission to the next explicitly. This state is the thread's alternation flag and the chat list's "has this chat's query emitted yet".

`Query` holds the shared query building blocks: filtering, `limit`, and sorting on `createdAt`. `Grouping` is underscore's `groupBy` followed by `Object.keys`, proved to be a partition of its input in first-occurrence order.

Behaviours of the code worth knowing, all modelled as written:

- The `users` feed takes no argument and filters nothing. It publishes every user, the viewer included. Excluding the viewer and existing partners happens on the client, in the contact picker.
- The `messages` feed has no page size. It publishes all of the chat's messages.
- Ownership in the thread is not "sent by the viewer". It alternates from message to message, starting at 'other'. Its flag carries over from one emission of the page to the next, so the same message can change ownership when the list is recomputed.
- `removeChat` neither checks that the caller is a member of the chat nor deletes the chat's messages.
- The `messages(chatId)` feed does not check that the viewer is a member of the chat: any logged-in viewer who names a chat receives all of its messages (`Publications.MessagesFeedServesNonMembers`).
- `updateProfile` rejects a profile that carries any key besides `name`. An object pattern in Meteor's `check` matches exact keys, so a `picture` is refused.

## Model

| member | source | states |
|---|---|---|
| Methods.AddChat | server/methods.ts:6-33 | fails `unauthorized`, then `illegal-receiver`, then `chat-exists`, in that order; succeeds exactly when the caller is logged in, differs from the receiver and shares no chat with them; then appends one chat `[caller, receiver]` and changes nothing else |
| Methods.AddChatNotRepeatable | server/methods.ts:19-32 | after a successful `addChat`, the same call, and the same pair asked for from the receiver's side, fail with `chat-exists` |
| Methods.RemoveChat | server/methods.ts:35-51 | fails `unauthorized`, then `chat-not-exists`; succeeds exactly when the chat id is non-empty and present (a string selector never finds the empty id); then exactly the chats with that id are gone, the other chats stay, and users and messages are untouched |
| Methods.RemoveChatRemovesOne | server/methods.ts:43-50 | with unique chat ids, a successful `removeChat` deletes exactly one chat |
| Methods.ProfileMatches | server/methods.ts:57-59 | the `{name: String}` pattern accepts a profile exactly when it has a name and no other key; `Methods.UpdateProfile` states the `MatchFailed` error in terms of it |
| Methods.UpdateProfile | server/methods.ts:53-64 | fails `unauthorized`, then on a profile that is not exactly `{name}`; on success only the caller's profile is replaced, and every user keeps its id and other data |
| Methods.UpdateProfileUnknownCaller | server/methods.ts:61-63 | an update by a caller without a user document matches nothing and leaves the store as it was |
| Methods.AddMessage | server/methods.ts:66-90 | fails `unauthorized`, then `chat-not-exists`, which includes the empty chat id; on success appends one message with the caller as sender, the given chat, content and type, stamped with the server time, and returns its id |
| Methods.EmptyChatIdNotFound | server/methods.ts:43-48 | for a logged-in caller, `removeChat("")` and `addMessage` on the chat id `""` always throw `chat-not-exists` |
| Methods.CommandsPreserveWellFormed | server/methods.ts:28-89 | given fresh ids, every command keeps user, chat and message ids unique |
| Publications.UsersFeed | server/publications.ts:6-16 | nothing for a viewer who is not logged in; otherwise every user, in store order, projected to id and profile |
| Publications.UsersFeedIncludesViewer | server/publications.ts:11-15 | the viewer's own document is among the published users |
| Publications.MessagesFeed | server/publications.ts:18-28 | nothing without a viewer or without a chat id; otherwise the chat's messages sorted newest first, a permutation of the chat's messages in the store |
| Publications.MessagesFeedExact | server/publications.ts:23-27 | the feed holds a message exactly when the store holds it under that chat, and holds each one as often as the store does |
| Publications.MessagesFeedServesNonMembers | server/publications.ts:18-27 | a logged-in viewer who is not a member of a chat still receives every message of that chat |
| Publications.LatestMessage | server/publications.ts:42-47 | at most one message; one exactly when the chat has a message; it belongs to the chat and no message of the chat is newer |
| Publications.Members | server/publications.ts:50-56 | exactly the published forms of the users whose id is among the chat's members |
| Publications.ChatsFeed | server/publications.ts:30-60 | nothing without a viewer; otherwise one entry per chat having the viewer as member, in store order, each with its latest-message child and its members child |
| Publications.ChatsFeedMembership | server/publications.ts:36-38 | a chat has an entry exactly when it is in the store with the viewer among its members |
| NewChat.ExcludedIdsSpec | client/imports/pages/chats/new-chat.ts:59-63 | a user id is excluded exactly when it is the sender's or shares a chat with the sender |
| NewChat.FindUsers | client/imports/pages/chats/new-chat.ts:46-72 | the picker offers exactly the mirrored users who are not the sender and share no chat with the sender, never more users than are mirrored |
| NewChat.ForeignChatExcludesNobody | client/imports/pages/chats/new-chat.ts:48-63 | a chat the sender is not a member of changes nothing in the picker |
| NewChat.NoChatsExcludesOnlySender | client/imports/pages/chats/new-chat.ts:55-57 | on the empty seed of the chats query, every user but the sender is offered |
| NewChat.OfferedUsersCanBeAdded | client/imports/pages/chats/new-chat.ts:59-68 | on the same chats, `addChat` succeeds for every user the picker offers |
| NewChat.PickerEmissions | client/imports/pages/chats/new-chat.ts:55-71 | for the outer seed `[]` and then for each chats value, the list shows the inner `[]` seed followed by the settled list for that value |
| ChatList.Attach | client/imports/pages/chats/chats.ts:29-32 | a chat keeps its id and members; before its query emits it is unchanged; afterwards `lastMessage` is undefined exactly when the list is empty, and otherwise is the list's first message |
| ChatList.JoinChats | client/imports/pages/chats/chats.ts:21-37 | with no chats there is no value at all; otherwise one chat per mirrored chat, same ids and members, and a chat whose query has not emitted yet is unchanged |
| ChatList.JoinChatsLastMessage | client/imports/pages/chats/chats.ts:27-31 | once a chat's messages arrived, its `lastMessage` is undefined exactly when the mirror has no message of the chat; otherwise it is the chat's first message in mirror order |
| ChatList.JoinChatsOnlyOwnMessages | client/imports/pages/chats/chats.ts:27-28 | a chat's row depends only on that chat's messages |
| ChatList.JoinChatsSeed | client/imports/pages/chats/chats.ts:29 | while every chat carries its `null` seed, the value is the chats mirror unchanged |
| MessageThread.ThreadMessages | client/imports/pages/messages/messages.ts:50-54 | the chat's mirrored messages, oldest first, as a permutation of them |
| MessageThread.Tag | client/imports/pages/messages/messages.ts:59-64 | message i keeps its document and gets 'mine' exactly when the start flag flipped i times is true |
| MessageThread.TagAlternates | client/imports/pages/messages/messages.ts:60-61 | consecutive messages get different ownerships |
| MessageThread.TaggedMessages | client/imports/pages/messages/messages.ts:50-62 | the tagged messages are exactly the chat's messages in the mirror, in ascending time |
| MessageThread.Emit | client/imports/pages/messages/messages.ts:50-79 | one emission of `findMessagesDayGroups`; its groups are stated by `MessageThread.EmitDistinctDays`, `MessageThread.EmitGroupContents`, `MessageThread.EmitCoversThread`, `MessageThread.EmitKeepsMultiplicity` and `MessageThread.EmitOrder`, and the flag it leaves by `MessageThread.Run` |
| MessageThread.DayGroups | client/imports/pages/messages/messages.ts:73-79 | a group is marked today exactly when its day is today's day |
| MessageThread.EmitDistinctDays | client/imports/pages/messages/messages.ts:67-69 | no two groups of an emission have the same day |
| MessageThread.EmitGroupContents | client/imports/pages/messages/messages.ts:67-76 | a group holds exactly the tagged messages of its day |
| MessageThread.EmitCoversThread | client/imports/pages/messages/messages.ts:67-76 | every tagged message has the group of its day, and no group is empty |
| MessageThread.EmitKeepsMultiplicity | client/imports/pages/messages/messages.ts:67-69 | the groups together hold the tagged messages, each as often as the query returned it |
| MessageThread.EmitOrder | client/imports/pages/messages/messages.ts:67-79 | messages inside a group ascend in time; groups come in the order of their day's first message |
| MessageThread.Run | client/imports/pages/messages/messages.ts:47-81 | emission k starts from the initial flag flipped once per message shown by the emissions before it |
| MessageThread.RunThreadsFlag | client/imports/pages/messages/messages.ts:48-62 | each emission starts from the flag the previous emission left |
| MessageThread.OpenThread | client/imports/pages/messages/messages.ts:48 | the page's first emission starts from `false`, so its first message is 'other' |
| MessageThread.ReEmissionFlipsOwnership | client/imports/pages/messages/messages.ts:59-62 | after an emission with an odd number of messages, showing the same messages again tags each one the other way |
| MessageThread.SendTextMessage | client/imports/pages/messages/messages.ts:119-132 | nothing is sent and the input is kept when the input is empty or `addMessage` would throw; otherwise exactly one text message from the caller, stamped `now`, is appended to the store and the input is cleared |
| MessageThread.SentMessageReachesThread | client/imports/pages/messages/messages.ts:119-132 | after a send, the sender's `messages` feed for the chat serves the new message; a thread mirror that holds what that feed serves shows it among the tagged messages |
| Grouping.GroupBy | client/imports/pages/messages/messages.ts:67-69 | grouping yields distinct keys, exactly the keys of the input; members and order are stated by the three lemmas below |
| Grouping.GroupByMembers | client/imports/pages/messages/messages.ts:67-69 | each group holds the input's elements with its key, in input order |
| Grouping.GroupByOrder | client/imports/pages/messages/messages.ts:67-73 | groups come in the order in which their key first occurs in the input |
| Grouping.GroupByPartition | client/imports/pages/messages/messages.ts:67-69 | the groups' members together are the input, up to order |

## Left out

- Reactivity and asynchrony are left out. The model has no live queries, no diff engine sending added, changed and removed events, and no latency compensation. A feed is evaluated once on a snapshot, and a client page on one value of its mirror.
- NewChat.PickerEmissions: models only the case where each chats value is handled before the next one arrives. `mergeMap` keeps the inner subscriptions of earlier chats values alive, so the picker can interleave stale lists with current ones; that interleaving is left out.
- Argument type checks are left out. `check(..., String)` on `receiverId`, `chatId` and `content` is not modelled, because the Dafny parameter types are already strings. Only the profile pattern check is modelled.
- Methods.AddMessage: the message type is narrower than the code's. `check(type, Match.OneOf(String, [MessageType.TEXT]))` accepts any string, and the insert stores it as given. The model's `MessageType` has only the two constructors `Text` and `Location`.
- Ids and time are parameters. Mongo's id generation and `new Date()` are not modelled. The fresh id is a parameter with a precondition that it is non-empty and unused, and the time is a parameter.
- Day formatting is a parameter. Moment's `'D MMMM Y'` local-time formatting is the `dayKey` function parameter. The group order of `MessageThread.EmitOrder` (first occurrence) assumes that no label is an integer-like string, since `Object.keys` lists such keys first in numeric order. `'D MMMM Y'` labels always contain a month name, so they are never integer-like.
- Ties in the sort order are left out. The order Mongo gives to messages with equal `createdAt` is unspecified, and the model only promises sortedness and a permutation.
- Publications.MessagesFeed: the `chatId` argument is modelled as an optional string, but the feed never checks its argument, and a client can pass any EJSON value. An operator object such as `{$ne: null}` is truthy, and `find({chatId})` then serves every chat's messages. The model does not cover such arguments.
- The thread page's mirror is an input. The page subscribes to nothing itself, and `addMessage` has no client stub. Which messages its mirror holds depends on subscriptions made elsewhere, so `MessageThread.SentMessageReachesThread` takes as a hypothesis that the mirror holds what the `messages` feed serves.
- Subscription readiness is left out. When `users` or `messages` returns nothing, Meteor never marks the subscription ready, because the handler neither returns a cursor nor calls `ready()`. The composite `chats` feed does mark its subscription ready. In all three cases the model only says that no documents are sent.
- The new-chat page assumes the sender id is not null. `Meteor.userId()` is taken as a present id.
- The picker's dialog handling and error alert are left out (`addChat`, `handleError` in the new-chat page). They are UI.
- Page navigation and options are left out: chat list navigation, the options popover, and `removeChat` from the chat list page.
- DOM auto-scrolling and the `MutationObserver` in the thread are left out. They are view code.
- The login page and the attachments menu are not part of this model, and neither is the Angular module declaration.
- The code has no pagination, debouncing, search pattern or message-count method, so the model has none either.
- `MessageThread.SendTextMessage`: a failed `addMessage` has no error handler in the page, so the model simply keeps the input. Whatever the runtime does with the unhandled error is not modelled.
