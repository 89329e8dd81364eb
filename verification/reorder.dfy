/** The reorder reconciler: the drop handler's
    `tasks.sort((a, b) => newOrder.indexOf(a.id) - newOrder.indexOf(b.id))`,
    where `newOrder` is the ids of the cards in the dropped-on list, top to
    bottom. The comparator orders tasks by a key, the position of the task's
    id in `newOrder`, and `Array.prototype.sort` is stable, so every
    conforming engine produces the one stable sort by that key. It is
    modelled here as insertion sort. Ids missing from `newOrder` get key -1,
    so those tasks keep their relative order and move ahead of every listed
    task. */
module Reorder {
  import opened Seqs
  import opened Dates
  import opened Tasks
  import opened Views

  /** `Array.prototype.indexOf`: the first position of `x`, or -1. */
  function IndexOf(xs: seq<int>, x: int): (r: int)
    ensures -1 <= r < |xs|
    ensures r == -1 <==> x !in xs
    ensures 0 <= r < |xs| ==> xs[r] == x && x !in xs[..r]
  {
    if |xs| == 0 then -1
    else if xs[0] == x then 0
    else
      var j := IndexOf(xs[1..], x);
      assert j >= 0 ==> xs[..j + 1] == [xs[0]] + xs[1..][..j];
      if j == -1 then -1 else j + 1
  }

  /** The sort key of a task. */
  function Key(order: seq<int>, t: Task): int {
    IndexOf(order, t.id)
  }

  /** Non-decreasing keys. */
  predicate SortedByKey(s: seq<Task>, order: seq<int>) {
    forall i, j :: 0 <= i < j < |s| ==> Key(order, s[i]) <= Key(order, s[j])
  }

  /** Where a task with key `k` is inserted into a sorted list: after every
      task whose key is at most `k`, before the first with a larger one. */
  function InsertPos(s: seq<Task>, order: seq<int>, k: int): (i: nat)
    ensures i <= |s|
    ensures forall j :: 0 <= j < i ==> Key(order, s[j]) <= k
    ensures i < |s| ==> Key(order, s[i]) > k
  {
    if |s| == 0 then 0
    else if Key(order, s[0]) > k then 0
    else 1 + InsertPos(s[1..], order, k)
  }

  /** Stable insertion of `t` into the sorted list `s`. */
  function Insert(s: seq<Task>, order: seq<int>, t: Task): (r: seq<Task>)
    requires SortedByKey(s, order)
    ensures SortedByKey(r, order)
    ensures multiset(r) == multiset(s) + multiset{t}
  {
    var i := InsertPos(s, order, Key(order, t));
    InsertAtSorted(s, order, t, i);
    assert s == s[..i] + s[i..];
    s[..i] + [t] + s[i..]
  }

  /** Placing `t` between the tasks of key at most its own and those of
      larger key keeps the list sorted and adds exactly `t`. */
  lemma InsertAtSorted(s: seq<Task>, order: seq<int>, t: Task, i: nat)
    requires SortedByKey(s, order) && i <= |s|
    requires forall j :: 0 <= j < i ==> Key(order, s[j]) <= Key(order, t)
    requires i < |s| ==> Key(order, s[i]) > Key(order, t)
    ensures SortedByKey(s[..i] + [t] + s[i..], order)
  {
    var r := s[..i] + [t] + s[i..];
    forall a, b | 0 <= a < b < |r|
      ensures Key(order, r[a]) <= Key(order, r[b])
    {
      if b < i {
        assert r[a] == s[a] && r[b] == s[b];
      } else if b == i {
        assert r[a] == s[a];
      } else if a < i {
        assert r[a] == s[a] && r[b] == s[b - 1];
      } else if a == i {
        assert r[b] == s[b - 1];
        assert Key(order, s[i]) <= Key(order, s[b - 1]);
      } else {
        assert r[a] == s[a - 1] && r[b] == s[b - 1];
      }
    }
  }

  /** The drop sort: the tasks, stably sorted by their position in
      `newOrder`. It is a permutation sorted by key. */
  function Reorder(tasks: seq<Task>, newOrder: seq<int>): (r: seq<Task>)
    ensures |r| == |tasks|
    ensures multiset(r) == multiset(tasks)
    ensures SortedByKey(r, newOrder)
  {
    if |tasks| == 0 then []
    else
      var n := |tasks| - 1;
      assert tasks == tasks[..n] + [tasks[n]];
      Insert(Reorder(tasks[..n], newOrder), newOrder, tasks[n])
  }

  function KeyIs(order: seq<int>, k: int): Task -> bool {
    (t: Task) => Key(order, t) == k
  }

  /** Inserting a task adds it to the end of the tasks of equal key and does
      not disturb any group of keys. */
  lemma InsertStable(s: seq<Task>, order: seq<int>, t: Task, k: int)
    requires SortedByKey(s, order)
    ensures Filter(Insert(s, order, t), KeyIs(order, k))
         == Filter(s, KeyIs(order, k)) + (if Key(order, t) == k then [t] else [])
  {
    var i := InsertPos(s, order, Key(order, t));
    if Key(order, t) == k {
      NoneAbove(s, order, i, k);
    }
    InsertAtStable(s, order, t, i, k);
  }

  /** Placing `t` at a position after which no task shares its key puts it
      last among its key and leaves the other keys' tasks alone. */
  lemma InsertAtStable(s: seq<Task>, order: seq<int>, t: Task, i: nat, k: int)
    requires i <= |s|
    requires Key(order, t) == k ==> Filter(s[i..], KeyIs(order, k)) == []
    ensures Filter(s[..i] + [t] + s[i..], KeyIs(order, k))
         == Filter(s, KeyIs(order, k)) + (if Key(order, t) == k then [t] else [])
  {
    assert s == s[..i] + s[i..];
    FilterInsert(s[..i], s[i..], t, KeyIs(order, k));
  }

  /** In a sorted list, no task from a position whose key exceeds `k` onward
      has key `k`. */
  lemma NoneAbove(s: seq<Task>, order: seq<int>, i: nat, k: int)
    requires SortedByKey(s, order) && i <= |s|
    requires i < |s| ==> Key(order, s[i]) > k
    ensures Filter(s[i..], KeyIs(order, k)) == []
  {
    var back := s[i..];
    forall j | 0 <= j < |back|
      ensures !KeyIs(order, k)(back[j])
    {
      assert back[j] == s[i + j];
      assert Key(order, s[i]) <= Key(order, s[i + j]);
    }
    FilterNone(back, KeyIs(order, k));
  }

  /** Stability: for every key, the tasks with that key appear in the result
      in their original order. */
  lemma {:induction false} ReorderStable(tasks: seq<Task>, newOrder: seq<int>, k: int)
    ensures Filter(Reorder(tasks, newOrder), KeyIs(newOrder, k)) == Filter(tasks, KeyIs(newOrder, k))
  {
    if |tasks| > 0 {
      var n := |tasks| - 1;
      ReorderStable(tasks[..n], newOrder, k);
      InsertStable(Reorder(tasks[..n], newOrder), newOrder, tasks[n], k);
    }
  }

  /** A task whose key is at least every key of the list goes to its end. */
  lemma {:induction false} InsertPosAtEnd(s: seq<Task>, order: seq<int>, k: int)
    requires forall j :: 0 <= j < |s| ==> Key(order, s[j]) <= k
    ensures InsertPos(s, order, k) == |s|
  {
    if |s| > 0 {
      InsertPosAtEnd(s[1..], order, k);
    }
  }

  /** Dropping the last task of a sorted list leaves a sorted list whose
      keys are all at most the dropped task's. */
  lemma SortedFront(front: seq<Task>, t: Task, order: seq<int>)
    requires SortedByKey(front + [t], order)
    ensures SortedByKey(front, order)
    ensures forall j :: 0 <= j < |front| ==> Key(order, front[j]) <= Key(order, t)
  {
    var s := front + [t];
    assert forall j :: 0 <= j < |front| ==> s[j] == front[j];
    assert s[|front|] == t;
  }

  /** A task whose key is at least every key of a sorted list goes to its
      end. */
  lemma InsertAtEnd(s: seq<Task>, order: seq<int>, t: Task)
    requires SortedByKey(s, order)
    requires forall j :: 0 <= j < |s| ==> Key(order, s[j]) <= Key(order, t)
    ensures Insert(s, order, t) == s + [t]
  {
    InsertPosAtEnd(s, order, Key(order, t));
    assert s[..|s|] == s && s[|s|..] == [];
  }

  /** A list already sorted by key is left as it is. */
  lemma {:induction false} ReorderSortedIsIdentity(tasks: seq<Task>, newOrder: seq<int>)
    requires SortedByKey(tasks, newOrder)
    ensures Reorder(tasks, newOrder) == tasks
  {
    if |tasks| > 0 {
      var n := |tasks| - 1;
      var front, t := tasks[..n], tasks[n];
      assert front + [t] == tasks;
      SortedFront(front, t, newOrder);
      ReorderSortedIsIdentity(front, newOrder);
      InsertAtEnd(front, newOrder, t);
    }
  }

  /** The drop sort is a no-op exactly when the list is already sorted by the
      new order's positions. */
  lemma ReorderNoOpIffSorted(tasks: seq<Task>, newOrder: seq<int>)
    ensures Reorder(tasks, newOrder) == tasks <==> SortedByKey(tasks, newOrder)
  {
    if SortedByKey(tasks, newOrder) {
      ReorderSortedIsIdentity(tasks, newOrder);
    }
  }

  /** Sorting twice by the same order is sorting once, so the several drop
      listeners that repeated renders stack on a list, each running the same
      sort, leave the same result as one. */
  lemma ReorderIdempotent(tasks: seq<Task>, newOrder: seq<int>)
    ensures Reorder(Reorder(tasks, newOrder), newOrder) == Reorder(tasks, newOrder)
  {
    ReorderSortedIsIdentity(Reorder(tasks, newOrder), newOrder);
  }

  function Listed(order: seq<int>): Task -> bool {
    (t: Task) => t.id in order
  }

  function Unlisted(order: seq<int>): Task -> bool {
    (t: Task) => t.id !in order
  }

  /** A sorted list is its unlisted tasks followed by its listed ones. */
  lemma {:induction false} SortedSplits(s: seq<Task>, order: seq<int>)
    requires SortedByKey(s, order)
    ensures s == Filter(s, Unlisted(order)) + Filter(s, Listed(order))
  {
    if |s| > 0 {
      var n := |s| - 1;
      var front := s[..n];
      assert SortedByKey(front, order);
      if s[n].id in order {
        SortedSplits(front, order);
      } else {
        assert forall j :: 0 <= j < n ==> Key(order, front[j]) <= Key(order, s[n]);
        FilterAll(front, Unlisted(order));
        FilterNone(front, Listed(order));
      }
    }
  }

  /** After the drop, the tasks whose id is not in `newOrder` come first, in
      their original relative order, and are followed by the listed tasks. */
  lemma ReorderUnlistedFirst(tasks: seq<Task>, newOrder: seq<int>)
    ensures var r := Reorder(tasks, newOrder);
      r == Filter(tasks, Unlisted(newOrder)) + Filter(r, Listed(newOrder))
  {
    var r := Reorder(tasks, newOrder);
    assert Filter(r, Unlisted(newOrder)) == Filter(r, KeyIs(newOrder, -1)) by {
      FilterAgree(r, Unlisted(newOrder), KeyIs(newOrder, -1));
    }
    assert Filter(tasks, Unlisted(newOrder)) == Filter(tasks, KeyIs(newOrder, -1)) by {
      FilterAgree(tasks, Unlisted(newOrder), KeyIs(newOrder, -1));
    }
    ReorderStable(tasks, newOrder, -1);
    SortedSplits(r, newOrder);
  }

  /** Reordering keeps ids unique. */
  lemma {:induction false} ReorderKeepsUniqueIds(tasks: seq<Task>, newOrder: seq<int>)
    requires UniqueIds(tasks)
    ensures UniqueIds(Reorder(tasks, newOrder))
  {
    if |tasks| > 0 {
      var n := |tasks| - 1;
      var front := tasks[..n];
      var t := tasks[n];
      var s := Reorder(front, newOrder);
      ReorderKeepsUniqueIds(front, newOrder);
      forall j | 0 <= j < |s|
        ensures s[j].id != t.id
      {
        assert s[j] in multiset(front);
      }
      InsertKeepsUniqueIds(s, newOrder, t);
    }
  }

  /** Inserting a task whose id is new keeps ids unique. */
  lemma InsertKeepsUniqueIds(s: seq<Task>, order: seq<int>, t: Task)
    requires SortedByKey(s, order) && UniqueIds(s)
    requires forall j :: 0 <= j < |s| ==> s[j].id != t.id
    ensures UniqueIds(Insert(s, order, t))
  {
    var i := InsertPos(s, order, Key(order, t));
    var r := s[..i] + [t] + s[i..];
    forall a, b | 0 <= a < b < |r|
      ensures r[a].id != r[b].id
    {
      var a' := if a < i then a else a - 1;
      var b' := if b <= i then b else b - 1;
      if a != i && b != i {
        assert r[a] == s[a'] && r[b] == s[b'];
      }
    }
  }

  /** With unique ids, the listed tasks appear in `newOrder`'s order. */
  lemma ReorderFollowsNewOrder(tasks: seq<Task>, newOrder: seq<int>, i: int, j: int)
    requires UniqueIds(tasks)
    requires var r := Reorder(tasks, newOrder);
      0 <= i < j < |r| && r[i].id in newOrder && r[j].id in newOrder
    ensures var r := Reorder(tasks, newOrder);
      IndexOf(newOrder, r[i].id) < IndexOf(newOrder, r[j].id)
  {
    ReorderKeepsUniqueIds(tasks, newOrder);
    SortedUniqueFollows(Reorder(tasks, newOrder), newOrder, i, j);
  }

  /** In a list sorted by key with unique ids, two listed tasks have
      different keys, so their keys strictly increase. */
  lemma SortedUniqueFollows(r: seq<Task>, order: seq<int>, i: int, j: int)
    requires SortedByKey(r, order) && UniqueIds(r)
    requires 0 <= i < j < |r| && r[i].id in order && r[j].id in order
    ensures IndexOf(order, r[i].id) < IndexOf(order, r[j].id)
  {
    var ki, kj := IndexOf(order, r[i].id), IndexOf(order, r[j].id);
    assert ki <= kj by {
      assert Key(order, r[i]) <= Key(order, r[j]);
    }
    assert ki != kj by {
      assert 0 <= ki && 0 <= kj;
      assert order[ki] == r[i].id && order[kj] == r[j].id;
      assert r[i].id != r[j].id;
    }
  }

  /** No task changes list: every list holds the same tasks before and after
      the drop, possibly in a different order, because the fields that decide
      the list are untouched. */
  lemma ReorderKeepsBuckets(tasks: seq<Task>, newOrder: seq<int>, today: Date)
    ensures var p, q := Partition(tasks, today), Partition(Reorder(tasks, newOrder), today);
      && multiset(q.today) == multiset(p.today)
      && multiset(q.upcoming) == multiset(p.upcoming)
      && multiset(q.completed) == multiset(p.completed)
  {
    var r := Reorder(tasks, newOrder);
    FilterPermutation(r, tasks, InBucket(today, TodayList));
    FilterPermutation(r, tasks, InBucket(today, UpcomingList));
    FilterPermutation(r, tasks, InBucket(today, CompletedList));
  }
}
