/** The pieces a Mongo query is made of, over a collection held as a sequence
    in natural order: a filter, a sort on `createdAt`, and a limit. */
module Query {
  import opened Model

  /** The documents that satisfy `p`, in their original order. */
  function Filter<T(!new)>(s: seq<T>, p: T -> bool): (r: seq<T>)
    ensures |r| <= |s|
    ensures forall x :: x in r <==> x in s && p(x)
  {
    if |s| == 0 then [] else (if p(s[0]) then [s[0]] else []) + Filter(s[1..], p)
  }

  lemma {:induction false} FilterMultiset<T(!new)>(s: seq<T>, p: T -> bool)
    ensures multiset(Filter(s, p)) <= multiset(s)
    ensures forall x :: x in s && p(x) ==> multiset(Filter(s, p))[x] == multiset(s)[x]
    ensures forall x :: !p(x) ==> multiset(Filter(s, p))[x] == 0
  {
    if |s| > 0 {
      FilterMultiset(s[1..], p);
      assert s == [s[0]] + s[1..];
    }
  }

  /** The `limit` option: at most the first `n` documents. */
  function Take<T>(s: seq<T>, n: nat): (r: seq<T>)
    ensures |r| == if |s| < n then |s| else n
    ensures r == s[..|r|]
  {
    if |s| <= n then s else s[..n]
  }

  /** The `sort: {createdAt: 1}` and `sort: {createdAt: -1}` options. */
  datatype Direction = Ascending | Descending

  predicate InOrder(a: Message, b: Message, dir: Direction) {
    match dir
    case Ascending => a.createdAt <= b.createdAt
    case Descending => a.createdAt >= b.createdAt
  }

  predicate Sorted(s: seq<Message>, dir: Direction) {
    forall i, j :: 0 <= i < j < |s| ==> InOrder(s[i], s[j], dir)
  }

  /** A sequence whose head is in order with every later element, and whose
      tail is sorted, is sorted. */
  lemma ConsSorted(h: Message, t: seq<Message>, dir: Direction)
    requires Sorted(t, dir)
    requires forall x :: x in t ==> InOrder(h, x, dir)
    ensures Sorted([h] + t, dir)
  {
    var r := [h] + t;
    forall i, j | 0 <= i < j < |r|
      ensures InOrder(r[i], r[j], dir)
    {
      if i > 0 {
        assert r[i] == t[i - 1] && r[j] == t[j - 1];
      } else {
        assert r[j] in t;
      }
    }
  }

  function Insert(m: Message, s: seq<Message>, dir: Direction): (r: seq<Message>)
    requires Sorted(s, dir)
    ensures Sorted(r, dir)
    ensures multiset(r) == multiset(s) + multiset{m}
  {
    if |s| == 0 then [m]
    else if InOrder(m, s[0], dir) then
      assert forall x :: x in s ==> InOrder(m, x, dir) by {
        forall x | x in s ensures InOrder(m, x, dir) {
          var k :| 0 <= k < |s| && s[k] == x;
          assert k == 0 || InOrder(s[0], s[k], dir);
        }
      }
      ConsSorted(m, s, dir);
      [m] + s
    else
      assert s == [s[0]] + s[1..];
      var rest := Insert(m, s[1..], dir);
      assert forall x :: x in rest ==> InOrder(s[0], x, dir) by {
        forall x | x in rest ensures InOrder(s[0], x, dir) {
          assert x in multiset(rest);
          if x != m {
            assert x in multiset(s[1..]);
            var k :| 0 <= k < |s[1..]| && s[1..][k] == x;
            assert s[k + 1] == x;
          }
        }
      }
      ConsSorted(s[0], rest, dir);
      [s[0]] + rest
  }

  /** The messages of `s` reordered on `createdAt` in direction `dir`. Ties
      keep no particular order, as the store promises none. */
  function SortBy(s: seq<Message>, dir: Direction): (r: seq<Message>)
    ensures Sorted(r, dir)
    ensures multiset(r) == multiset(s)
  {
    if |s| == 0 then []
    else
      assert s == [s[0]] + s[1..];
      Insert(s[0], SortBy(s[1..], dir), dir)
  }

  /** The selector `{chatId: c}`. */
  function MessagesOf(messages: seq<Message>, c: ChatId): (r: seq<Message>)
    ensures forall m :: m in r <==> m in messages && m.chatId == c
  {
    Filter(messages, (m: Message) => m.chatId == c)
  }

  lemma MessagesOfMultiset(messages: seq<Message>, c: ChatId)
    ensures forall m: Message :: m.chatId == c ==> multiset(MessagesOf(messages, c))[m] == multiset(messages)[m]
    ensures forall m: Message :: m.chatId != c ==> multiset(MessagesOf(messages, c))[m] == 0
  {
    FilterMultiset(messages, (m: Message) => m.chatId == c);
  }

  /** The selector `{memberIds: u}` on an array field: the chats having `u`
      among their members. */
  function ChatsWithMember(chats: seq<Chat>, u: UserId): (r: seq<Chat>)
    ensures forall c :: c in r <==> c in chats && u in c.memberIds
  {
    Filter(chats, (c: Chat) => u in c.memberIds)
  }

  lemma {:induction false} FilterAppend<T(!new)>(s: seq<T>, t: seq<T>, p: T -> bool)
    ensures Filter(s + t, p) == Filter(s, p) + Filter(t, p)
  {
    if |s| > 0 {
      assert (s + t)[1..] == s[1..] + t;
      FilterAppend(s[1..], t, p);
    } else {
      assert s + t == t;
    }
  }
}
