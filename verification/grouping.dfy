/** Grouping a sequence by a key the way underscore's `groupBy` followed by
    `Object.keys(...).map(...)` does: one group per distinct key, groups in
    the order their key first occurs, members in their original order.
    The first-occurrence order of groups is an assumption about the keys:
    `Object.keys` keeps insertion order only for keys that are not
    integer-like strings. */
module Grouping {

  datatype Group<K, T> = Group(key: K, members: seq<T>)

  /** Appends `x` to the group keyed `k`, or opens that group at the end. */
  function AddTo<K(==), T>(gs: seq<Group<K, T>>, k: K, x: T): seq<Group<K, T>>
  {
    if |gs| == 0 then [Group(k, [x])]
    else if gs[0].key == k then [gs[0].(members := gs[0].members + [x])] + gs[1..]
    else [gs[0]] + AddTo(gs[1..], k, x)
  }

  /** One pass over `xs`, adding each element to the group of its key. The
      groups have distinct keys, and exactly the keys the input has. */
  function GroupBy<K(==), T>(xs: seq<T>, key: T -> K): (r: seq<Group<K, T>>)
    ensures DistinctKeys(r)
    ensures KeysOf(r) == KeySet(xs, key)
  {
    if |xs| == 0 then
      assert KeySet(xs, key) == {};
      []
    else
      var before := GroupBy(xs[..|xs| - 1], key);
      AddToKeys(before, key(xs[|xs| - 1]), xs[|xs| - 1]);
      KeySetSnoc(xs, key);
      AddTo(before, key(xs[|xs| - 1]), xs[|xs| - 1])
  }

  // ---------------------------------------------------------------------------
  // Reference notions, defined on the input alone

  /** The keys the elements of `xs` have. */
  function KeySet<K, T>(xs: seq<T>, key: T -> K): set<K> {
    set i | 0 <= i < |xs| :: key(xs[i])
  }

  /** The elements of `xs` whose key is `k`, in their order. */
  function Select<K(==), T(!new)>(xs: seq<T>, key: T -> K, k: K): (r: seq<T>)
    ensures forall x :: x in r <==> x in xs && key(x) == k
  {
    if |xs| == 0 then []
    else
      var init := xs[..|xs| - 1];
      assert xs == init + [xs[|xs| - 1]];
      Select(init, key, k) + (if key(xs[|xs| - 1]) == k then [xs[|xs| - 1]] else [])
  }

  /** The position of the first element keyed `k`, or `|xs|` if there is none. */
  function FirstIndex<K(==), T>(xs: seq<T>, key: T -> K, k: K): nat
  {
    if |xs| == 0 then 0
    else if key(xs[0]) == k then 0
    else 1 + FirstIndex(xs[1..], key, k)
  }

  function KeysOf<K, T>(gs: seq<Group<K, T>>): set<K> {
    set i | 0 <= i < |gs| :: gs[i].key
  }

  predicate DistinctKeys<K(==), T>(gs: seq<Group<K, T>>) {
    forall i, j :: 0 <= i < j < |gs| ==> gs[i].key != gs[j].key
  }

  /** All members, group after group. */
  function Flatten<K, T>(gs: seq<Group<K, T>>): seq<T> {
    if |gs| == 0 then [] else gs[0].members + Flatten(gs[1..])
  }

  // ---------------------------------------------------------------------------
  // One step

  lemma {:induction false} AddToShape<K, T>(gs: seq<Group<K, T>>, k: K, x: T)
    requires DistinctKeys(gs)
    ensures |AddTo(gs, k, x)| == |gs| + (if k in KeysOf(gs) then 0 else 1)
    ensures forall i :: 0 <= i < |gs| ==>
              AddTo(gs, k, x)[i] == (if gs[i].key == k then Group(k, gs[i].members + [x]) else gs[i])
    ensures k !in KeysOf(gs) ==> AddTo(gs, k, x)[|gs|] == Group(k, [x])
  {
    if |gs| > 0 {
      var tail := gs[1..];
      assert forall i :: 1 <= i < |gs| ==> gs[i] == tail[i - 1];
      assert KeysOf(gs) == {gs[0].key} + KeysOf(tail) by {
        forall j | j in KeysOf(gs) ensures j in {gs[0].key} + KeysOf(tail) {
          var i :| 0 <= i < |gs| && gs[i].key == j;
          if i > 0 { assert tail[i - 1].key == j; }
        }
        forall j | j in KeysOf(tail) ensures j in KeysOf(gs) {
          var i :| 0 <= i < |tail| && tail[i].key == j;
          assert gs[i + 1].key == j;
        }
      }
      if gs[0].key == k {
        forall i | 1 <= i < |gs| ensures gs[i].key != k {
          assert gs[0].key != gs[i].key;
        }
      } else {
        AddToShape(tail, k, x);
      }
    }
  }

  lemma {:induction false} FlattenAddTo<K, T>(gs: seq<Group<K, T>>, k: K, x: T)
    ensures multiset(Flatten(AddTo(gs, k, x))) == multiset(Flatten(gs)) + multiset{x}
  {
    if |gs| > 0 && gs[0].key != k {
      FlattenAddTo(gs[1..], k, x);
      assert ([gs[0]] + AddTo(gs[1..], k, x))[1..] == AddTo(gs[1..], k, x);
    } else if |gs| > 0 {
      assert ([gs[0].(members := gs[0].members + [x])] + gs[1..])[1..] == gs[1..];
    }
  }

  lemma KeySetSnoc<K, T>(xs: seq<T>, key: T -> K)
    requires |xs| > 0
    ensures KeySet(xs, key) == KeySet(xs[..|xs| - 1], key) + {key(xs[|xs| - 1])}
  {
    var init := xs[..|xs| - 1];
    forall j | j in KeySet(xs, key) ensures j in KeySet(init, key) + {key(xs[|xs| - 1])} {
      var i :| 0 <= i < |xs| && key(xs[i]) == j;
      if i < |init| { assert key(init[i]) == j; }
    }
    forall j | j in KeySet(init, key) ensures j in KeySet(xs, key) {
      var i :| 0 <= i < |init| && key(init[i]) == j;
      assert key(xs[i]) == j;
    }
  }

  lemma {:induction false} SelectAbsent<K, T(!new)>(xs: seq<T>, key: T -> K, k: K)
    requires k !in KeySet(xs, key)
    ensures Select(xs, key, k) == []
  {
    if |xs| > 0 {
      KeySetSnoc(xs, key);
      SelectAbsent(xs[..|xs| - 1], key, k);
    }
  }

  lemma {:induction false} FirstIndexSnoc<K, T>(xs: seq<T>, key: T -> K, k: K)
    requires |xs| > 0
    ensures var init := xs[..|xs| - 1];
            FirstIndex(xs, key, k) ==
              if k in KeySet(init, key) then FirstIndex(init, key, k)
              else if key(xs[|xs| - 1]) == k then |init|
              else |xs|
    ensures k in KeySet(xs[..|xs| - 1], key) ==> FirstIndex(xs[..|xs| - 1], key, k) < |xs| - 1
  {
    var init := xs[..|xs| - 1];
    if |init| == 0 {
      assert KeySet(init, key) == {};
    } else if key(xs[0]) == k {
      assert key(init[0]) == k;
    } else {
      var tail := xs[1..];
      assert tail[..|tail| - 1] == init[1..];
      FirstIndexSnoc(tail, key, k);
      assert KeySet(init, key) == {key(init[0])} + KeySet(init[1..], key) by {
        forall j | j in KeySet(init, key) ensures j in {key(init[0])} + KeySet(init[1..], key) {
          var i :| 0 <= i < |init| && key(init[i]) == j;
          if i > 0 { assert key(init[1..][i - 1]) == j; }
        }
        forall j | j in KeySet(init[1..], key) ensures j in KeySet(init, key) {
          var i :| 0 <= i < |init[1..]| && key(init[1..][i]) == j;
          assert key(init[i + 1]) == j;
        }
      }
      assert key(init[0]) == key(xs[0]);
      assert FirstIndex(init, key, k) == 1 + FirstIndex(init[1..], key, k);
    }
  }

  // ---------------------------------------------------------------------------
  // What the grouping is

  /** Adding one element keeps keys distinct and adds its key. */
  lemma AddToKeys<K, T>(gs: seq<Group<K, T>>, k: K, x: T)
    requires DistinctKeys(gs)
    ensures DistinctKeys(AddTo(gs, k, x))
    ensures KeysOf(AddTo(gs, k, x)) == KeysOf(gs) + {k}
  {
    var r := AddTo(gs, k, x);
    AddToShape(gs, k, x);
    forall j | j in KeysOf(r) ensures j in KeysOf(gs) + {k} {
      var i :| 0 <= i < |r| && r[i].key == j;
      if i < |gs| { assert gs[i].key == j || j == k; }
    }
    forall j | j in KeysOf(gs) ensures j in KeysOf(r) {
      var i :| 0 <= i < |gs| && gs[i].key == j;
      assert r[i].key == j;
    }
    if k !in KeysOf(gs) {
      assert r[|gs|].key == k;
    } else {
      var i :| 0 <= i < |gs| && gs[i].key == k;
      assert r[i].key == k;
    }
    forall i, j | 0 <= i < j < |r| ensures r[i].key != r[j].key {
      if j == |gs| {
        assert gs[i].key in KeysOf(gs);
      }
    }
  }

  /** Each group holds exactly the input's elements with its key, in input
      order. */
  lemma {:induction false} GroupByMembers<K, T(!new)>(xs: seq<T>, key: T -> K)
    ensures forall i :: 0 <= i < |GroupBy(xs, key)| ==>
              GroupBy(xs, key)[i].members == Select(xs, key, GroupBy(xs, key)[i].key)
  {
    if |xs| > 0 {
      var init := xs[..|xs| - 1];
      var x := xs[|xs| - 1];
      var k := key(x);
      GroupByMembers(init, key);
      var before := GroupBy(init, key);
      var gs := GroupBy(xs, key);
      AddToShape(before, k, x);
      forall i | 0 <= i < |gs| ensures gs[i].members == Select(xs, key, gs[i].key) {
        if i == |before| {
          SelectAbsent(init, key, k);
        }
      }
    }
  }

  /** Groups come in the order in which their key first occurs in the input. */
  lemma {:induction false} GroupByOrder<K, T(!new)>(xs: seq<T>, key: T -> K)
    ensures forall i, j :: 0 <= i < j < |GroupBy(xs, key)| ==>
              FirstIndex(xs, key, GroupBy(xs, key)[i].key) < FirstIndex(xs, key, GroupBy(xs, key)[j].key)
  {
    if |xs| > 0 {
      var init := xs[..|xs| - 1];
      var x := xs[|xs| - 1];
      var k := key(x);
      GroupByOrder(init, key);
      var before := GroupBy(init, key);
      var gs := GroupBy(xs, key);
      AddToShape(before, k, x);
      forall i, j | 0 <= i < j < |gs|
        ensures FirstIndex(xs, key, gs[i].key) < FirstIndex(xs, key, gs[j].key)
      {
        assert gs[i].key == before[i].key;
        assert before[i].key in KeysOf(before);
        FirstIndexSnoc(xs, key, gs[i].key);
        FirstIndexSnoc(xs, key, gs[j].key);
        if j < |before| {
          assert gs[j].key == before[j].key;
          assert before[j].key in KeysOf(before);
        }
      }
    }
  }

  /** Every element lands in exactly one group: the groups' members, taken
      together, are the input up to order. */
  lemma {:induction false} GroupByPartition<K, T>(xs: seq<T>, key: T -> K)
    ensures multiset(Flatten(GroupBy(xs, key))) == multiset(xs)
  {
    if |xs| > 0 {
      var init := xs[..|xs| - 1];
      GroupByPartition(init, key);
      FlattenAddTo(GroupBy(init, key), key(xs[|xs| - 1]), xs[|xs| - 1]);
      assert xs == init + [xs[|xs| - 1]];
    }
  }
}
