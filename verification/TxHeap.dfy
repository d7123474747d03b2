/** The priority queue of pending transactions: a binary max-heap whose items know their own
    position, driven by the sifting loops of Go's container/heap
    (transaction/transaction_pool.go). */
module TxHeap {
  import opened Lists
  import opened Transactions

  // ------------------------------------------------------------------ heap order, on values

  function Parent(k: int): int {
    if k <= 0 then 0 else (k - 1) / 2
  }

  /** The first `n` priorities are in heap order. */
  ghost predicate Ordered(p: seq<int>, n: nat)
    requires n <= |p|
  {
    forall k :: 0 < k < n ==> p[Parent(k)] >= p[k]
  }

  /** In heap order except between `i` and its neighbours, which stand right to one another. */
  ghost predicate Around(p: seq<int>, n: nat, i: nat)
    requires n <= |p|
  {
    && (forall k :: 0 < k < n && k != i && Parent(k) != i ==> p[Parent(k)] >= p[k])
    && (forall k :: 0 < k < n && Parent(k) == i && 0 < i < n ==> p[Parent(i)] >= p[k])
  }

  /** ... except between `i` and its parent. */
  ghost predicate UpReady(p: seq<int>, n: nat, i: nat)
    requires n <= |p|
  {
    && (forall k :: 0 < k < n && k != i ==> p[Parent(k)] >= p[k])
    && (forall k :: 0 < k < n && Parent(k) == i && 0 < i < n ==> p[Parent(i)] >= p[k])
  }

  /** ... except between `i` and its children. */
  ghost predicate DownReady(p: seq<int>, n: nat, i: nat)
    requires n <= |p|
  {
    && (forall k :: 0 < k < n && Parent(k) != i ==> p[Parent(k)] >= p[k])
    && (forall k :: 0 < k < n && Parent(k) == i && 0 < i < n ==> p[Parent(i)] >= p[k])
  }

  function Swapped<T>(s: seq<T>, i: nat, j: nat): seq<T>
    requires i < |s| && j < |s|
  {
    s[i := s[j]][j := s[i]]
  }

  /** A rearrangement of the first `n` of a list. */
  ghost predicate Permuted<T>(a: seq<T>, b: seq<T>, n: nat) {
    multiset(a) == multiset(b) && |a| == |b| && n <= |a| && a[n..] == b[n..]
  }

  lemma PermutedSelf<T>(a: seq<T>, n: nat)
    requires n <= |a|
    ensures Permuted(a, a, n)
  {
  }

  lemma PermutedAll<T>(a: seq<T>, b: seq<T>)
    requires Permuted(a, b, |b|)
    ensures multiset(a) == multiset(b)
  {
  }

  lemma SwapPermutes<T>(a: seq<T>, b: seq<T>, n: nat, i: nat, j: nat)
    requires Permuted(a, b, n) && i < n && j < n
    ensures Permuted(a, Swapped(b, i, j), n)
  {
    assert Swapped(b, i, j)[n..] == b[n..];
  }

  lemma SomeElements<T>(a: seq<T>, b: seq<T>, dropped: T)
    requires multiset(b) == multiset(a) - multiset{dropped}
    ensures forall x :: x in b ==> x in a
    ensures dropped in a && dropped !in b ==> Elements(b) == Elements(a) - {dropped} && |b| == |a| - 1
  {
    forall x | x in b ensures x in a {
      assert x in multiset(b);
      assert multiset(a)[x] >= multiset(b)[x];
    }
    forall x | x in a && x != dropped ensures x in b {
      assert x in multiset(a) && multiset(b)[x] == multiset(a)[x];
    }
    if dropped in a {
      assert multiset(a) == multiset(b) + multiset{dropped};
      assert |multiset(a)| == |a| && |multiset(b)| == |b|;
    }
  }

  lemma PushedElements<T>(a: seq<T>, b: seq<T>, x: T)
    requires multiset(b) == multiset(a) + multiset{x}
    ensures Elements(b) == Elements(a) + {x} && |b| == |a| + 1
  {
    assert forall y :: y in b <==> y in multiset(b);
    assert forall y :: y in a <==> y in multiset(a);
    assert |multiset(a)| == |a| && |multiset(b)| == |b|;
  }

  lemma PermutedElements<T>(a: seq<T>, b: seq<T>, n: nat)
    requires Permuted(a, b, n)
    ensures Elements(a) == Elements(b)
  {
    assert forall x :: x in a <==> x in multiset(a);
    assert forall x :: x in b <==> x in multiset(b);
  }

  /** After a swap of `i` with the last place and a rearrangement of the rest, dropping the last
      place drops what stood at `i`. */
  lemma DropLast<T>(a: seq<T>, b: seq<T>, i: nat)
    requires i < |a| && Permuted(Swapped(a, i, |a| - 1), b, |a| - 1)
    ensures b[|a| - 1] == a[i] && multiset(b[..|a| - 1]) == multiset(a) - multiset{a[i]}
  {
    hide Permuted, Swapped;
    SwapMultiset(a, i, |a| - 1);
    LastStays(Swapped(a, i, |a| - 1), b);
    Detach(b);
  }

  lemma SwapMultiset<T>(a: seq<T>, i: nat, j: nat)
    requires i < |a| && j < |a|
    ensures multiset(Swapped(a, i, j)) == multiset(a) && |Swapped(a, i, j)| == |a| && Swapped(a, i, j)[j] == a[i]
  {
  }

  lemma LastStays<T>(a: seq<T>, b: seq<T>)
    requires |a| > 0 && Permuted(a, b, |a| - 1)
    ensures |b| == |a| && b[|a| - 1] == a[|a| - 1] && multiset(b) == multiset(a)
  {
    assert a[|a| - 1..][0] == b[|a| - 1..][0];
  }

  lemma Detach<T>(b: seq<T>)
    requires |b| > 0
    ensures multiset(b[..|b| - 1]) == multiset(b) - multiset{b[|b| - 1]}
  {
    assert b == b[..|b| - 1] + [b[|b| - 1]];
  }

  /** The first item of a heap has the highest priority. */
  lemma {:induction false} RootIsHighest(p: seq<int>, n: nat, k: nat)
    requires n <= |p| && Ordered(p, n) && k < n
    ensures p[0] >= p[k]
    decreases k
  {
    if k > 0 {
      RootIsHighest(p, n, Parent(k));
    }
  }

  /** The one child to compare with: the right one only when it is strictly higher. */
  ghost function LargerChild(p: seq<int>, n: nat, i: nat): (j: nat)
    requires 2 * i + 1 < n <= |p|
    ensures i < j < n && j > 0
  {
    if 2 * i + 2 < n && p[2 * i + 2] > p[2 * i + 1] then 2 * i + 2 else 2 * i + 1
  }

  lemma LargerChildIsLargest(p: seq<int>, n: nat, i: nat)
    requires 2 * i + 1 < n <= |p|
    ensures var j := LargerChild(p, n, i);
            j < n && Parent(j) == i && forall k :: 0 < k < n && Parent(k) == i ==> p[j] >= p[k]
  {
    assert forall k :: 0 < k < n && Parent(k) == i ==> k == 2 * i + 1 || k == 2 * i + 2;
  }

  /** Sifting down may stop where there is no child or none is higher. */
  lemma DownDone(p: seq<int>, n: nat, i: nat)
    requires n <= |p| && i <= n && Around(p, n, i)
    requires 2 * i + 1 < n ==> p[LargerChild(p, n, i)] <= p[i]
    ensures UpReady(p, n, i)
    ensures DownReady(p, n, i) ==> Ordered(p, n)
  {
    if 2 * i + 1 < n {
      LargerChildIsLargest(p, n, i);
    }
  }

  lemma DownReadyIsAround(p: seq<int>, n: nat, i: nat)
    requires n <= |p| && DownReady(p, n, i)
    ensures Around(p, n, i)
    ensures 0 < i < n && 2 * i + 1 < n ==> p[Parent(i)] >= p[LargerChild(p, n, i)]
  {
  }

  /** Raising an item above a smaller parent moves the trouble one level up. */
  lemma SwapUp(p: seq<int>, n: nat, j: nat)
    requires n <= |p| && 0 < j < n && UpReady(p, n, j) && p[j] > p[Parent(j)]
    ensures UpReady(Swapped(p, Parent(j), j), n, Parent(j))
  {
    var i, q := Parent(j), Swapped(p, Parent(j), j);
    assert q[i] == p[j] && q[j] == p[i] && forall k :: 0 <= k < n && k != i && k != j ==> q[k] == p[k];
  }

  lemma UpDone(p: seq<int>, n: nat, j: nat)
    requires j <= n <= |p| && UpReady(p, n, j) && (j == 0 || j == n || p[j] <= p[Parent(j)])
    ensures Ordered(p, n)
  {
  }

  /** Lowering an item below its larger child moves the trouble one level down. */
  lemma SwapDown(p: seq<int>, n: nat, i: nat)
    requires n <= |p| && 2 * i + 1 < n && Around(p, n, i) && p[LargerChild(p, n, i)] > p[i]
    ensures DownReady(Swapped(p, i, LargerChild(p, n, i)), n, LargerChild(p, n, i))
  {
    LargerChildIsLargest(p, n, i);
  }

  // ------------------------------------------------------------------ the queue

  class TransactionItem {
    const tx: Transaction
    var priority: int
    var index: int

    constructor (tx: Transaction, priority: int)
      ensures this.tx == tx && this.priority == priority
    {
      this.tx, this.priority, index := tx, priority, 0;
    }
  }

  // ------------------------------------------------------------------ entering the sifts

  lemma PushReady(p: seq<int>, x: int)
    requires Ordered(p, |p|)
    ensures UpReady(p + [x], |p| + 1, |p|)
  {
  }

  /** Moving the last item into position `i` disturbs the order only around `i`. */
  lemma RemoveReady(p: seq<int>, i: nat)
    requires i < |p| && Ordered(p, |p|)
    ensures Around(Swapped(p, i, |p| - 1), |p| - 1, i)
    ensures i == |p| - 1 ==> Swapped(p, i, i) == p && Ordered(p, i)
  {
    var n := |p| - 1;
    forall k | 0 < k < n && Parent(k) == i && 0 < i < n
      ensures p[Parent(i)] >= p[k]
    {
      assert p[Parent(i)] >= p[i] >= p[k];
    }
  }

  lemma ChangeReady(p: seq<int>, i: nat, x: int)
    requires i < |p| && Ordered(p, |p|)
    ensures Around(p[i := x], |p|, i)
  {
    forall k | 0 < k < |p| && Parent(k) == i && 0 < i
      ensures p[Parent(i)] >= p[k]
    {
      assert p[Parent(i)] >= p[i] >= p[k];
    }
  }

  lemma HighestFirst(p: seq<int>)
    requires Ordered(p, |p|)
    ensures forall k :: 0 <= k < |p| ==> p[0] >= p[k]
  {
    forall k | 0 <= k < |p| ensures p[0] >= p[k] {
      RootIsHighest(p, |p|, k);
    }
  }

  lemma OrderedPrefix(p: seq<int>, n: nat)
    requires n <= |p| && Ordered(p, n)
    ensures Ordered(p[..n], n)
  {
  }

  lemma SwapElements<T>(s: seq<T>, i: nat, n: nat)
    requires i <= n == |s| - 1
    ensures Elements(Swapped(s, i, n)) == Elements(s) && Permuted(Swapped(s, i, n), Swapped(s, i, n), n)
    ensures Swapped(s, n, n) == s
  {
    PermutedSelf(s, n + 1);
    SwapPermutes(s, s, n + 1, i, n);
    PermutedElements(s, Swapped(s, i, n), n + 1);
    PermutedSelf(Swapped(s, i, n), n);
  }

  function Priorities(items: seq<TransactionItem>): (p: seq<int>)
    reads items
    ensures |p| == |items| && forall i :: 0 <= i < |items| ==> p[i] == items[i].priority
  {
    seq(|items|, i requires 0 <= i < |items| reads items => items[i].priority)
  }

  class PriorityQueue {
    var items: seq<TransactionItem>

    ghost function Objects(): set<TransactionItem>
      reads this
    {
      Elements(items)
    }

    function Keys(): (p: seq<int>)
      reads this, items
      ensures |p| == |items| && forall i :: 0 <= i < |items| ==> p[i] == items[i].priority
    {
      Priorities(items)
    }

    /** Every item's index is its own position; in particular no item occurs twice. */
    ghost predicate Indexed()
      reads this, items
    {
      forall i :: 0 <= i < |items| ==> items[i].index == i
    }

    ghost predicate Valid()
      reads this, items
    {
      Indexed() && Ordered(Keys(), |items|)
    }

    constructor ()
      ensures Valid() && items == []
    {
      items := [];
    }

    method Less(i: nat, j: nat) returns (less: bool)
      requires i < |items| && j < |items|
      ensures less <==> items[i].priority > items[j].priority
    {
      less := items[i].priority > items[j].priority;
    }

    method Swap(i: nat, j: nat)
      requires i < |items| && j < |items| && Indexed()
      modifies this`items, Objects()`index
      ensures Indexed() && items == Swapped(old(items), i, j) && Keys() == Swapped(old(Keys()), i, j)
    {
      items := items[i := items[j]][j := items[i]];
      items[i].index := i;
      items[j].index := j;
    }

    method Push(item: TransactionItem)
      requires Indexed() && item !in items
      modifies this`items, item`index
      ensures Indexed() && items == old(items) + [item] && Keys() == old(Keys()) + [item.priority]
    {
      item.index := |items|;
      items := items + [item];
    }

    method Pop() returns (item: TransactionItem)
      requires Indexed() && |items| > 0
      modifies this`items, Objects()`index
      ensures item == old(items[|items| - 1]) && item.index == -1 && item !in items
      ensures Indexed() && items == old(items[..|items| - 1]) && Keys() == old(Keys()[..|items| - 1])
    {
      var n := |items|;
      item := items[n - 1];
      item.index := -1;
      items := items[..n - 1];
    }

    /** Sift-up from `start`, within the first `n` items. */
    method Up(start: nat, ghost n: nat)
      requires Indexed() && start < n <= |items| && UpReady(Keys(), n, start)
      modifies this`items, Objects()`index
      ensures Indexed() && Permuted(old(items), items, n) && Objects() == old(Objects())
      ensures |items| == |old(items)| && Ordered(Keys(), n)
    {
      hide Ordered, UpReady, Permuted, Swapped, Elements;
      var j: nat := start;
      PermutedSelf(items, n);
      while true
        invariant Indexed() && |items| == |old(items)| && j < n && UpReady(Keys(), n, j)
        invariant Permuted(old(items), items, n) && Objects() == old(Objects())
        decreases j
      {
        var i: nat := if j == 0 then 0 else (j - 1) / 2;
        if i == j {
          UpDone(Keys(), n, j);
          break;
        }
        var less := Less(j, i);
        if !less {
          UpDone(Keys(), n, j);
          break;
        }
        SwapUp(Keys(), n, j);
        SwapPermutes(old(items), items, n, i, j);
        Swap(i, j);
        PermutedElements(old(items), items, n);
        j := i;
      }
    }

    method HigherChild(i: nat, n: nat) returns (j: nat)
      requires 2 * i + 1 < n <= |items|
      ensures j == LargerChild(Keys(), n, i)
    {
      j := 2 * i + 1;
      if j + 1 < n {
        var right := Less(j + 1, j);
        if right {
          j := j + 1;
        }
      }
    }

    /** Sift-down from `start`, within the first `n` items; tells whether anything moved. */
    method Down(start: nat, n: nat) returns (moved: bool)
      requires Indexed() && start <= n <= |items| && Around(Keys(), n, start)
      modifies this`items, Objects()`index
      ensures Indexed() && Permuted(old(items), items, n) && Objects() == old(Objects())
      ensures |items| == |old(items)| && (moved ==> Ordered(Keys(), n))
      ensures !moved ==> items == old(items) && UpReady(Keys(), n, start)
    {
      hide Ordered, Around, UpReady, DownReady, LargerChild, Permuted, Swapped, Elements;
      var i: nat := start;
      PermutedSelf(items, n);
      while true
        invariant Indexed() && |items| == |old(items)| && start <= i <= n && Around(Keys(), n, i)
        invariant Permuted(old(items), items, n) && Objects() == old(Objects())
        invariant if i == start then items == old(items) else DownReady(Keys(), n, i)
        decreases n - i
      {
        if 2 * i + 1 >= n {
          DownDone(Keys(), n, i);
          break;
        }
        var j := HigherChild(i, n);
        var less := Less(j, i);
        if !less {
          DownDone(Keys(), n, i);
          break;
        }
        SwapDown(Keys(), n, i);
        SwapPermutes(old(items), items, n, i, j);
        Swap(i, j);
        PermutedElements(old(items), items, n);
        DownReadyIsAround(Keys(), n, j);
        i := j;
      }
      moved := i > start;
    }

    method HeapPush(item: TransactionItem)
      requires Valid() && item !in items
      modifies this`items, item`index, Objects()`index
      ensures Valid() && multiset(items) == multiset(old(items)) + multiset{item}
    {
      Push(item);
      PushReady(old(Keys()), item.priority);
      Up(|items| - 1, |items|);
    }

    /** No item has a higher priority than the first. */
    lemma RootHighest()
      requires Valid() && |items| > 0
      ensures forall x :: x in items ==> x.priority <= items[0].priority
    {
      ghost var p := Keys();
      HighestFirst(p);
      forall x | x in items ensures x.priority <= items[0].priority {
        var i :| 0 <= i < |items| && items[i] == x;
        assert p[i] == x.priority;
      }
    }

    /** Takes out the item that a swap with the last place has brought there. */
    method PopLast(ghost before: seq<TransactionItem>, ghost i: nat) returns (item: TransactionItem)
      requires Indexed() && i < |before| && Permuted(Swapped(before, i, |before| - 1), items, |before| - 1)
      requires |items| == |before| && Ordered(Keys(), |before| - 1)
      modifies this`items, Objects()`index
      ensures Valid() && item == before[i] && multiset(items) == multiset(before) - multiset{item}
      ensures item.index == -1 && item !in items
    {
      hide Ordered, Elements, Permuted, Swapped;
      ghost var n := |items| - 1;
      ghost var kept, keys := items[..n], Keys()[..n];
      DropLast(before, items, i);
      OrderedPrefix(Keys(), n);
      item := Pop();
      assert items == kept && Keys() == keys;
    }

    method DropRoot() returns (item: TransactionItem)
      requires Valid() && |items| > 0
      modifies this`items, Objects()`index
      ensures Valid() && item == old(items[0]) && multiset(items) == multiset(old(items)) - multiset{item}
      ensures item.index == -1 && item !in items
    {
      hide Ordered, Around, UpReady, DownReady, Permuted, Elements;
      var n := |items| - 1;
      RemoveReady(Keys(), 0);
      SwapElements(items, 0, n);
      Swap(0, n);
      var moved := Down(0, n);
      if !moved {
        UpDone(Keys(), n, 0);
      }
      item := PopLast(old(items), 0);
    }

    /** Takes the first item out: one of highest priority. */
    method HeapPop() returns (item: TransactionItem)
      requires Valid() && |items| > 0
      modifies this`items, Objects()`index
      ensures Valid() && item == old(items[0]) && multiset(items) == multiset(old(items)) - multiset{item}
      ensures forall x :: x in items ==> x.priority <= item.priority
      ensures item.index == -1 && item !in items
    {
      hide Ordered, Elements, Valid;
      RootHighest();
      ghost var before := items;
      item := DropRoot();
      assert forall x :: x in before ==> x.priority <= item.priority;
      SomeElements(before, items, item);
    }

    /** Changes an item's priority and puts it right. */
    method Update(item: TransactionItem, priority: int)
      requires Valid() && item in items
      modifies this`items, item`priority, Objects()`index
      ensures Valid() && multiset(items) == multiset(old(items)) && item.priority == priority
    {
      hide Ordered, Around, UpReady, DownReady, Permuted, Elements;
      var i := item.index;
      ChangeReady(Keys(), i, priority);
      item.priority := priority;
      assert Keys() == old(Keys())[i := priority];
      var moved := Down(i, |items|);
      if !moved {
        Up(i, |items|);
      }
      assert items[|items|..] == [] && Keys() == Priorities(items);
      hide *;
      PermutedAll(old(items), items);
    }

    /** Takes the item at position `i` out. */
    method HeapRemove(i: nat) returns (item: TransactionItem)
      requires Valid() && i < |items|
      modifies this`items, Objects()`index
      ensures Valid() && item == old(items[i]) && multiset(items) == multiset(old(items)) - multiset{item}
      ensures item.index == -1 && item !in items
    {
      hide Ordered, Around, UpReady, DownReady, Permuted, Elements;
      var n := |items| - 1;
      SwapElements(items, i, n);
      if n != i {
        Resettle(i, n);
      } else {
        RemoveReady(Keys(), i);
      }
      item := PopLast(old(items), i);
    }

    /** Puts the last item in the place of another and moves it down or up to where it belongs. */
    method Resettle(i: nat, n: nat)
      requires Valid() && i < n == |items| - 1
      modifies this`items, Objects()`index
      ensures Indexed() && Objects() == old(Objects()) && |items| == |old(items)|
      ensures Ordered(Keys(), n) && Permuted(Swapped(old(items), i, n), items, n)
    {
      hide Ordered, Around, UpReady, DownReady, Permuted, Swapped, Elements;
      RemoveReady(Keys(), i);
      SwapMultiset(items, i, n);
      SwapElements(items, i, n);
      Swap(i, n);
      var moved := Down(i, n);
      if !moved {
        Up(i, n);
      }
    }
  }
}
