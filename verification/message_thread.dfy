/** The message thread page: the selected chat's mirrored messages, oldest
    first, tagged with an ownership that alternates from message to message,
    and grouped by calendar day. The alternation flag belongs to the page,
    not to one emission, so it is threaded from each emission to the next. */
module MessageThread {
  import opened Model
  import opened Query
  import opened Grouping
  import Methods
  import Publications

  /** A calendar-day label; which label a time gets is the `dayKey`
      parameter (the local-time date formatting). */
  type DayKey = string

  datatype Ownership = Mine | Other

  datatype ViewMessage = ViewMessage(message: Message, ownership: Ownership)

  datatype DayGroup = DayGroup(timestamp: DayKey, messages: seq<ViewMessage>, today: bool)

  /** What one emission shows, and the flag the next emission starts from. */
  datatype Emission = Emission(groups: seq<DayGroup>, isEven: bool)

  /** The flag after `n` flips. */
  function Flip(isEven: bool, n: nat): bool {
    if n % 2 == 0 then isEven else !isEven
  }

  function OwnershipFor(isEven: bool): Ownership {
    if isEven then Mine else Other
  }

  /** The thread query `{chatId}` sorted on `createdAt` ascending. */
  function ThreadMessages(mirror: seq<Message>, chatId: ChatId): (r: seq<Message>)
    ensures Sorted(r, Ascending)
    ensures multiset(r) == multiset(MessagesOf(mirror, chatId))
  {
    SortBy(MessagesOf(mirror, chatId), Ascending)
  }

  /** The `forEach` step: each message gets the ownership of the current
      flag, then the flag flips. */
  function Tag(ms: seq<Message>, isEven: bool): (r: seq<ViewMessage>)
    decreases |ms|
    ensures |r| == |ms|
    ensures forall i :: 0 <= i < |ms| ==> r[i].message == ms[i] && r[i].ownership == OwnershipFor(Flip(isEven, i))
  {
    if |ms| == 0 then []
    else [ViewMessage(ms[0], OwnershipFor(isEven))] + Tag(ms[1..], !isEven)
  }

  /** Consecutive messages of one emission get different ownerships. */
  lemma TagAlternates(ms: seq<Message>, isEven: bool)
    ensures forall i :: 0 <= i < |ms| - 1 ==> Tag(ms, isEven)[i].ownership != Tag(ms, isEven)[i + 1].ownership
  {
  }

  function DayOf(dayKey: nat -> DayKey): ViewMessage -> DayKey {
    (v: ViewMessage) => dayKey(v.message.createdAt)
  }

  /** The day groups of one emission of `findMessagesDayGroups` on a mirror
      value, starting from flag `isEven`, at time `now`. */
  function DayGroups(isEven: bool, mirror: seq<Message>, chatId: ChatId, dayKey: nat -> DayKey, now: nat): (gs: seq<DayGroup>)
    ensures forall i :: 0 <= i < |gs| ==> (gs[i].today <==> gs[i].timestamp == dayKey(now))
  {
    MarkToday(GroupBy(Tagged(isEven, mirror, chatId), DayOf(dayKey)), dayKey(now))
  }

  /** The `{timestamp, messages, today}` objects built from the groups. */
  function MarkToday(groups: seq<Group<DayKey, ViewMessage>>, todayKey: DayKey): (r: seq<DayGroup>)
    ensures |r| == |groups|
    ensures forall i :: 0 <= i < |groups| ==>
              r[i] == DayGroup(groups[i].key, groups[i].members, groups[i].key == todayKey)
  {
    if |groups| == 0 then []
    else [DayGroup(groups[0].key, groups[0].members, groups[0].key == todayKey)] + MarkToday(groups[1..], todayKey)
  }

  /** One emission: the day groups, and the flag flipped once per message. */
  function Emit(isEven: bool, mirror: seq<Message>, chatId: ChatId, dayKey: nat -> DayKey, now: nat): (e: Emission)
  {
    Emission(DayGroups(isEven, mirror, chatId, dayKey, now), Flip(isEven, |MessagesOf(mirror, chatId)|))
  }

  /** The tagged messages of an emission, before grouping. */
  function Tagged(isEven: bool, mirror: seq<Message>, chatId: ChatId): seq<ViewMessage> {
    Tag(ThreadMessages(mirror, chatId), isEven)
  }

  /** The groups of an emission as `Grouping` sees them. */
  lemma EmitIsGrouping(isEven: bool, mirror: seq<Message>, chatId: ChatId, dayKey: nat -> DayKey, now: nat)
    ensures var e := Emit(isEven, mirror, chatId, dayKey, now);
            var gs := GroupBy(Tagged(isEven, mirror, chatId), DayOf(dayKey));
            && |e.groups| == |gs|
            && forall i :: 0 <= i < |gs| ==> e.groups[i].timestamp == gs[i].key && e.groups[i].messages == gs[i].members
  {
  }

  /** No two groups of an emission share a day. */
  lemma EmitDistinctDays(isEven: bool, mirror: seq<Message>, chatId: ChatId, dayKey: nat -> DayKey, now: nat)
    ensures var e := Emit(isEven, mirror, chatId, dayKey, now);
            forall i, j :: 0 <= i < j < |e.groups| ==> e.groups[i].timestamp != e.groups[j].timestamp
  {
    EmitIsGrouping(isEven, mirror, chatId, dayKey, now);
  }

  /** A group holds exactly the tagged messages of its day. */
  lemma EmitGroupContents(isEven: bool, mirror: seq<Message>, chatId: ChatId, dayKey: nat -> DayKey, now: nat)
    ensures var e := Emit(isEven, mirror, chatId, dayKey, now);
            forall i, v :: 0 <= i < |e.groups| ==>
              (v in e.groups[i].messages <==> v in Tagged(isEven, mirror, chatId) && dayKey(v.message.createdAt) == e.groups[i].timestamp)
  {
    EmitIsGrouping(isEven, mirror, chatId, dayKey, now);
    GroupByMembers(Tagged(isEven, mirror, chatId), DayOf(dayKey));
  }

  /** Every tagged message has the group of its day, and no group is empty;
      with the two lemmas above, the groups partition the thread. */
  lemma EmitCoversThread(isEven: bool, mirror: seq<Message>, chatId: ChatId, dayKey: nat -> DayKey, now: nat)
    ensures var e := Emit(isEven, mirror, chatId, dayKey, now);
            && (forall v :: v in Tagged(isEven, mirror, chatId) ==>
                  exists i :: 0 <= i < |e.groups| && e.groups[i].timestamp == dayKey(v.message.createdAt))
            && (forall i :: 0 <= i < |e.groups| ==> |e.groups[i].messages| > 0)
  {
    var e := Emit(isEven, mirror, chatId, dayKey, now);
    var tagged := Tagged(isEven, mirror, chatId);
    var key := DayOf(dayKey);
    var gs := GroupBy(tagged, key);
    EmitIsGrouping(isEven, mirror, chatId, dayKey, now);
    GroupByMembers(tagged, key);
    forall v | v in tagged ensures exists i :: 0 <= i < |e.groups| && e.groups[i].timestamp == dayKey(v.message.createdAt) {
      var p :| 0 <= p < |tagged| && tagged[p] == v;
      assert key(tagged[p]) in KeySet(tagged, key);
      var i :| 0 <= i < |gs| && gs[i].key == key(v);
      assert e.groups[i].timestamp == dayKey(v.message.createdAt);
    }
    forall i | 0 <= i < |e.groups| ensures |e.groups[i].messages| > 0 {
      assert gs[i].key in KeysOf(gs);
      var p :| 0 <= p < |tagged| && key(tagged[p]) == gs[i].key;
      assert tagged[p] in gs[i].members;
    }
  }

  /** Every message of an emission has as many copies across the groups as the
      thread query returned. */
  lemma EmitKeepsMultiplicity(isEven: bool, mirror: seq<Message>, chatId: ChatId, dayKey: nat -> DayKey, now: nat)
    ensures multiset(Flatten(GroupBy(Tagged(isEven, mirror, chatId), DayOf(dayKey)))) == multiset(Tagged(isEven, mirror, chatId))
  {
    GroupByPartition(Tagged(isEven, mirror, chatId), DayOf(dayKey));
  }

  /** The tagged messages are the chat's messages, in ascending time order,
      and nothing else. */
  lemma TaggedMessages(isEven: bool, mirror: seq<Message>, chatId: ChatId)
    ensures forall v :: v in Tagged(isEven, mirror, chatId) ==> v.message in mirror && v.message.chatId == chatId
    ensures forall m :: m in mirror && m.chatId == chatId ==> exists v :: v in Tagged(isEven, mirror, chatId) && v.message == m
    ensures Sorted(MessagesIn(Tagged(isEven, mirror, chatId)), Ascending)
  {
    var ms := ThreadMessages(mirror, chatId);
    var tagged := Tagged(isEven, mirror, chatId);
    assert MessagesIn(tagged) == ms;
    forall v | v in tagged ensures v.message in mirror && v.message.chatId == chatId {
      var i :| 0 <= i < |tagged| && tagged[i] == v;
      assert ms[i] in multiset(ms);
    }
    forall m | m in mirror && m.chatId == chatId ensures exists v :: v in tagged && v.message == m {
      assert m in multiset(MessagesOf(mirror, chatId));
      assert m in multiset(ms);
      var i :| 0 <= i < |ms| && ms[i] == m;
      assert tagged[i] in tagged;
    }
  }

  /** Inside a group, messages keep ascending time order; groups come in the
      order of their day's first message. */
  lemma EmitOrder(isEven: bool, mirror: seq<Message>, chatId: ChatId, dayKey: nat -> DayKey, now: nat)
    ensures var e := Emit(isEven, mirror, chatId, dayKey, now);
            var tagged := Tagged(isEven, mirror, chatId);
            && (forall i :: 0 <= i < |e.groups| ==> Sorted(MessagesIn(e.groups[i].messages), Ascending))
            && (forall i, j :: 0 <= i < j < |e.groups| ==>
                  FirstIndex(tagged, DayOf(dayKey), e.groups[i].timestamp) < FirstIndex(tagged, DayOf(dayKey), e.groups[j].timestamp))
  {
    var e := Emit(isEven, mirror, chatId, dayKey, now);
    var tagged := Tagged(isEven, mirror, chatId);
    EmitIsGrouping(isEven, mirror, chatId, dayKey, now);
    GroupByMembers(tagged, DayOf(dayKey));
    GroupByOrder(tagged, DayOf(dayKey));
    TaggedMessages(isEven, mirror, chatId);
    forall i | 0 <= i < |e.groups| {
      SelectKeepsOrder(tagged, DayOf(dayKey), e.groups[i].timestamp);
    }
  }

  /** The message documents of tagged messages, in their order. */
  function MessagesIn(vs: seq<ViewMessage>): seq<Message> {
    seq(|vs|, i requires 0 <= i < |vs| => vs[i].message)
  }

  lemma {:induction false} SelectKeepsOrder(vs: seq<ViewMessage>, key: ViewMessage -> DayKey, k: DayKey)
    requires Sorted(MessagesIn(vs), Ascending)
    ensures Sorted(MessagesIn(Select(vs, key, k)), Ascending)
  {
    if |vs| > 0 {
      var init := vs[..|vs| - 1];
      var last := vs[|vs| - 1];
      assert Sorted(MessagesIn(init), Ascending) by {
        forall p, q | 0 <= p < q < |init| ensures InOrder(MessagesIn(init)[p], MessagesIn(init)[q], Ascending) {
          assert MessagesIn(init)[p] == MessagesIn(vs)[p] && MessagesIn(init)[q] == MessagesIn(vs)[q];
        }
      }
      SelectKeepsOrder(init, key, k);
      var before := Select(init, key, k);
      var r := Select(vs, key, k);
      if key(last) == k {
        assert r == before + [last];
        forall p, q | 0 <= p < q < |r| ensures InOrder(MessagesIn(r)[p], MessagesIn(r)[q], Ascending) {
          if q == |before| {
            assert r[p] in before;
            var a :| 0 <= a < |init| && init[a] == r[p];
            assert MessagesIn(vs)[a] == r[p].message;
            assert MessagesIn(vs)[|vs| - 1] == last.message;
          } else {
            assert MessagesIn(r)[p] == MessagesIn(before)[p] && MessagesIn(r)[q] == MessagesIn(before)[q];
          }
        }
      } else {
        assert r == before;
      }
    }
  }

  /** The page as it lives through successive mirror values: each value is
      one emission, and each emission starts from the flag the previous one
      left. */
  datatype Snapshot = Snapshot(mirror: seq<Message>, now: nat)

  /** How many messages of the chat the given snapshots hold, summed. */
  function Count(snapshots: seq<Snapshot>, chatId: ChatId): nat {
    if |snapshots| == 0 then 0
    else |MessagesOf(snapshots[0].mirror, chatId)| + Count(snapshots[1..], chatId)
  }

  /** The flag each successive emission starts from: the flag the previous
      emission left. */
  function Starts(isEven: bool, snapshots: seq<Snapshot>, chatId: ChatId): (r: seq<bool>)
    ensures |r| == |snapshots|
    decreases |snapshots|
  {
    if |snapshots| == 0 then []
    else [isEven] + Starts(Flip(isEven, |MessagesOf(snapshots[0].mirror, chatId)|), snapshots[1..], chatId)
  }

  /** The k-th emission starts from the initial flag flipped once per message
      shown by the emissions before it. */
  lemma {:induction false} StartsCount(isEven: bool, snapshots: seq<Snapshot>, chatId: ChatId, k: nat)
    requires k < |snapshots|
    decreases k
    ensures Starts(isEven, snapshots, chatId)[k] == Flip(isEven, Count(snapshots[..k], chatId))
  {
    if k == 0 {
      assert snapshots[..0] == [];
    } else {
      var next := Flip(isEven, |MessagesOf(snapshots[0].mirror, chatId)|);
      var tail := snapshots[1..];
      var c0 := |MessagesOf(snapshots[0].mirror, chatId)|;
      var pre := snapshots[..k];
      StartsCount(next, tail, chatId, k - 1);
      assert pre[0] == snapshots[0];
      assert pre[1..] == tail[..k - 1];
      assert Count(pre, chatId) == c0 + Count(tail[..k - 1], chatId);
      FlipAdd(isEven, c0, Count(tail[..k - 1], chatId));
    }
  }

  /** Successive emissions of one page, for successive mirror values. */
  function Run(isEven: bool, snapshots: seq<Snapshot>, chatId: ChatId, dayKey: nat -> DayKey): (r: seq<Emission>)
    ensures |r| == |snapshots|
    ensures forall k :: 0 <= k < |snapshots| ==>
              r[k] == Emit(Flip(isEven, Count(snapshots[..k], chatId)), snapshots[k].mirror, chatId, dayKey, snapshots[k].now)
  {
    var starts := Starts(isEven, snapshots, chatId);
    forall k | 0 <= k < |snapshots| ensures starts[k] == Flip(isEven, Count(snapshots[..k], chatId)) {
      StartsCount(isEven, snapshots, chatId, k);
    }
    seq(|snapshots|, k requires 0 <= k < |snapshots| => Emit(starts[k], snapshots[k].mirror, chatId, dayKey, snapshots[k].now))
  }

  /** Each emission of a run starts from the flag the one before it left. */
  lemma RunThreadsFlag(isEven: bool, snapshots: seq<Snapshot>, chatId: ChatId, dayKey: nat -> DayKey, k: nat)
    requires k + 1 < |snapshots|
    ensures Run(isEven, snapshots, chatId, dayKey)[k + 1] ==
              Emit(Run(isEven, snapshots, chatId, dayKey)[k].isEven, snapshots[k + 1].mirror, chatId, dayKey, snapshots[k + 1].now)
  {
    FlagAfter(isEven, snapshots, chatId, k);
  }

  lemma FlagAfter(isEven: bool, snapshots: seq<Snapshot>, chatId: ChatId, k: nat)
    requires k < |snapshots|
    ensures Flip(Flip(isEven, Count(snapshots[..k], chatId)), |MessagesOf(snapshots[k].mirror, chatId)|)
            == Flip(isEven, Count(snapshots[..k + 1], chatId))
  {
    CountSnoc(snapshots[..k + 1], chatId);
    assert snapshots[..k + 1][..k] == snapshots[..k];
    FlipAdd(isEven, Count(snapshots[..k], chatId), |MessagesOf(snapshots[k].mirror, chatId)|);
  }

  lemma {:induction false} CountSnoc(snapshots: seq<Snapshot>, chatId: ChatId)
    requires |snapshots| > 0
    ensures Count(snapshots, chatId) ==
              Count(snapshots[..|snapshots| - 1], chatId) + |MessagesOf(snapshots[|snapshots| - 1].mirror, chatId)|
  {
    if |snapshots| > 1 {
      var tail := snapshots[1..];
      CountSnoc(tail, chatId);
      assert tail[..|tail| - 1] == snapshots[..|snapshots| - 1][1..];
    }
  }

  lemma FlipAdd(isEven: bool, a: nat, b: nat)
    ensures Flip(Flip(isEven, a), b) == Flip(isEven, a + b)
  {
  }

  /** The page opens with the flag `false`, so the first message shown when
      the page opens is tagged 'other'. */
  function OpenThread(snapshots: seq<Snapshot>, chatId: ChatId, dayKey: nat -> DayKey): (r: seq<Emission>)
    ensures |r| == |snapshots|
    ensures |snapshots| > 0 ==> r[0] == Emit(false, snapshots[0].mirror, chatId, dayKey, snapshots[0].now)
  {
    Run(false, snapshots, chatId, dayKey)
  }

  /** Because the flag carries over, showing the same messages again after an
      emission with an odd number of messages tags every message the other
      way. */
  lemma ReEmissionFlipsOwnership(isEven: bool, mirror: seq<Message>, chatId: ChatId)
    requires |MessagesOf(mirror, chatId)| % 2 == 1
    ensures forall i :: 0 <= i < |Tagged(isEven, mirror, chatId)| ==>
              Tagged(isEven, mirror, chatId)[i].ownership != Tagged(!isEven, mirror, chatId)[i].ownership
    ensures Flip(isEven, |MessagesOf(mirror, chatId)|) == !isEven
  {
  }

  // ---------------------------------------------------------------------------
  // Sending

  /** `sendTextMessage` with the input text `input`: nothing is sent for an
      empty input; otherwise `addMessage(TEXT, chat, input)` runs, and the
      input is cleared once it succeeds. Returns the input and the store
      after the call. */
  function SendTextMessage(input: string, s: Store, caller: Option<UserId>, chatId: ChatId,
                           newId: MessageId, now: nat): (r: (string, Store))
    requires newId != "" && newId !in MessageIds(s.messages)
    ensures input == "" || !Truthy(caller) || !Methods.ChatFound(s.chats, chatId) ==> r == (input, s)
    ensures input != "" && Truthy(caller) && Methods.ChatFound(s.chats, chatId) ==>
              && r.0 == ""
              && r.1 == s.(messages := s.messages + [Message(newId, chatId, caller.value, input, now, Text)])
  {
    if input == "" then (input, s)
    else
      match Methods.AddMessage(s, caller, Text, chatId, input, newId, now)
      case Ok(posted) =>
        assert posted.store.messages == posted.store.messages[..|s.messages|] + [posted.store.messages[|s.messages|]];
        ("", posted.store)
      case Err(_) => (input, s)
  }

  /** A sent message is served to its sender by the `messages` feed of its
      chat on the store after the send. The thread page subscribes to nothing
      itself, so what its mirror holds is up to the rest of the client: any
      mirror that holds what that feed serves shows the message in the
      thread, whatever flag the page holds. */
  lemma SentMessageReachesThread(input: string, s: Store, caller: Option<UserId>, chatId: ChatId,
                                 newId: MessageId, now: nat, mirror: seq<Message>, isEven: bool)
    requires newId != "" && newId !in MessageIds(s.messages)
    requires input != "" && Truthy(caller) && Methods.ChatFound(s.chats, chatId)
    requires forall x :: x in Publications.MessagesFeed(caller, Some(chatId), SendTextMessage(input, s, caller, chatId, newId, now).1).value
               ==> x in mirror
    ensures var m := Message(newId, chatId, caller.value, input, now, Text);
            && m in Publications.MessagesFeed(caller, Some(chatId), SendTextMessage(input, s, caller, chatId, newId, now).1).value
            && exists v :: v in Tagged(isEven, mirror, chatId) && v.message == m
  {
    var s' := SendTextMessage(input, s, caller, chatId, newId, now).1;
    var m := Message(newId, chatId, caller.value, input, now, Text);
    assert s'.messages[|s.messages|] == m;
    Publications.MessagesFeedExact(caller, Some(chatId), s');
    TaggedMessages(isEven, mirror, chatId);
  }
}
