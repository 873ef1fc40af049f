/**
 The timer heap: a binary heap of deadlines in a vector, and a map from timer id to position. Times are in
 nanoseconds; callbacks are numbered, and running one does not touch the heap.
 */
module HeapTimer {

  datatype TimerNode = TimerNode(id: int, expires: int, cb: int)

  type Refs = map<int, nat>

  // ----- What the heap and the map satisfy -----

  function Parent(k: nat): (j: nat)
    requires k > 0
    ensures j < k
  {
    (k - 1) / 2
  }

  predicate Before(h: seq<TimerNode>, j: int, k: int)
    requires 0 <= j < |h| && 0 <= k < |h|
  {
    h[j].expires <= h[k].expires
  }

  predicate Ordered(h: seq<TimerNode>, k: int)
    requires 0 < k < |h|
  {
    Before(h, Parent(k), k)
  }

  /** Each of the first n nodes is no earlier than its parent. */
  ghost predicate HeapOrder(h: seq<TimerNode>, n: int)
    requires n <= |h|
  {
    forall k :: 0 < k < n ==> Ordered(h, k)
  }

  /** `refs` is the exact inverse of the positions. */
  ghost predicate RefsExact(h: seq<TimerNode>, refs: Refs) {
    && (forall k :: 0 <= k < |h| ==> h[k].id in refs && refs[h[k].id] == k)
    && (forall id :: id in refs ==> refs[id] < |h| && h[refs[id]].id == id)
  }

  function Swap(h: seq<TimerNode>, i: nat, j: nat): (r: seq<TimerNode>)
    requires i < |h| && j < |h|
    ensures |r| == |h|
  {
    h[i := h[j]][j := h[i]]
  }

  lemma SwapFacts(h: seq<TimerNode>, refs: Refs, i: nat, j: nat)
    requires i < |h| && j < |h| && RefsExact(h, refs)
    ensures var s := Swap(h, i, j);
            RefsExact(s, refs[s[i].id := i][s[j].id := j]) && multiset(s) == multiset(h)
  {
  }

  /** The order holds except between node i and its parent, and i's children are no earlier than that parent. */
  ghost predicate OrderExceptAbove(h: seq<TimerNode>, n: int, i: nat)
    requires n <= |h|
  {
    && (forall k :: 0 < k < n && k != i ==> Ordered(h, k))
    && Skip(h, n, i)
  }

  /** The order holds except around node i: to its parent and to its children. */
  ghost predicate OrderExceptAround(h: seq<TimerNode>, n: int, i: nat)
    requires n <= |h|
  {
    && (forall k :: 0 < k < n && k != i && Parent(k) != i ==> Ordered(h, k))
    && Skip(h, n, i)
  }

  /** The order holds except between node i and its children. */
  ghost predicate OrderExceptBelow(h: seq<TimerNode>, n: int, i: nat)
    requires n <= |h|
  {
    && (forall k :: 0 < k < n && Parent(k) != i ==> Ordered(h, k))
    && Skip(h, n, i)
  }

  ghost predicate Skip(h: seq<TimerNode>, n: int, i: nat)
    requires n <= |h|
  {
    forall k :: 0 < k < n && Parent(k) == i && i > 0 ==> Before(h, Parent(i), k)
  }

  /** The root is the earliest of every node whose line of ancestors is ordered. */
  lemma {:induction false} RootIsEarliest(h: seq<TimerNode>, j: nat)
    requires j < |h| && forall k :: 0 < k <= j ==> Ordered(h, k)
    ensures Before(h, 0, j)
    decreases j
  {
    if j > 0 {
      assert Ordered(h, j);
      RootIsEarliest(h, Parent(j));
    }
  }

  class Timer {
    var heap: seq<TimerNode>
    var refs: Refs

    ghost predicate Valid()
      reads this
    {
      RefsExact(heap, refs) && HeapOrder(heap, |heap|)
    }

    constructor ()
      ensures Valid() && heap == []
    {
      heap, refs := [], map[];
    }

    /** `SwapNode_` */
    method SwapNode(i: nat, j: nat)
      requires i < |heap| && j < |heap| && RefsExact(heap, refs)
      modifies this
      ensures heap == Swap(old(heap), i, j) && RefsExact(heap, refs)
      ensures multiset(heap) == multiset(old(heap))
    {
      SwapFacts(heap, refs, i, j);
      heap := heap[i := heap[j]][j := heap[i]];
      refs := refs[heap[i].id := i];
      refs := refs[heap[j].id := j];
    }

    /**
     `siftup_`. The parent's index is unsigned, so the loop ends only at a parent strictly earlier than the node; a
     node that reaches the root reads far outside the vector. That happens exactly when the node is not strictly
     later than the root.
     */
    method SiftUp(start: nat, ghost n: nat) returns (ok: bool)
      requires start < n <= |heap| && RefsExact(heap, refs) && OrderExceptAbove(heap, n, start)
      modifies this
      ensures RefsExact(heap, refs) && multiset(heap) == multiset(old(heap)) && |heap| == |old(heap)|
      ensures heap[n..] == old(heap[n..])
      ensures ok <==> start == 0 || old(heap[0].expires < heap[start].expires)
      ensures ok ==> HeapOrder(heap, n)
    {
      if start == 0 {
        return true;
      }
      var i, j := start, Parent(start);
      while true
        invariant 0 < i < n <= |heap| == |old(heap)| && j == Parent(i)
        invariant RefsExact(heap, refs) && multiset(heap) == multiset(old(heap))
        invariant heap[n..] == old(heap[n..])
        invariant OrderExceptAbove(heap, n, i)
        invariant heap[i] == old(heap[start]) && heap[0] == old(heap[0])
        decreases i
      {
        if heap[j].expires < heap[i].expires {
          RootIsEarliest(heap, j);
          return true;
        }
        RaiseFacts(heap, n, i);
        SwapNode(i, j);
        i := j;
        if i == 0 {
          return false;
        }
        j := Parent(i);
      }
    }

    /** `siftdown_` among the first n nodes; says whether the node moved. */
    method SiftDown(index: nat, n: nat) returns (moved: bool)
      requires index < n <= |heap| && RefsExact(heap, refs) && OrderExceptAround(heap, n, index)
      modifies this
      ensures RefsExact(heap, refs) && multiset(heap) == multiset(old(heap)) && |heap| == |old(heap)|
      ensures heap[n..] == old(heap[n..])
      ensures moved <==> ChildNoLater(old(heap), n, index)
      ensures moved ==> HeapOrder(heap, n)
      ensures !moved ==> heap == old(heap) && refs == old(refs) && OrderExceptAbove(heap, n, index)
    {
      hide OrderExceptAround;
      hide OrderExceptBelow;
      hide OrderExceptAbove;
      hide HeapOrder;
      hide RefsExact;
      hide Swap;
      var i, j := index, index * 2 + 1;
      while j < n
        invariant index <= i < n <= |heap| == |old(heap)| && j == 2 * i + 1
        invariant RefsExact(heap, refs) && multiset(heap) == multiset(old(heap))
        invariant heap[n..] == old(heap[n..])
        invariant if i == index then heap == old(heap) && refs == old(refs) && OrderExceptAround(heap, n, i)
                  else OrderExceptBelow(heap, n, i) && ChildNoLater(old(heap), n, index)
        decreases n - i
      {
        if j + 1 < n && heap[j + 1].expires < heap[j].expires {
          j := j + 1;
        }
        assert j == EarlierChild(heap, n, i);
        if heap[i].expires < heap[j].expires {
          break;
        }
        LowerFacts(heap, n, i, i > index);
        SwapNode(i, j);
        i := j;
        j := i * 2 + 1;
      }
      moved := i > index;
      StopFacts(heap, n, i, moved);
    }

    /** The node at `index` trades places with the last one, which is then moved down or up. */
    method MoveOut(index: nat) returns (ok: bool)
      requires Valid() && index < |heap|
      modifies this
      ensures |heap| == |old(heap)| && RefsExact(heap, refs) && multiset(heap) == multiset(old(heap))
      ensures ok <==> SafeDelete(old(heap), index)
      ensures ok ==> heap[|heap| - 1] == old(heap[index]) && HeapOrder(heap, |heap| - 1)
    {
      hide RefsExact;
      hide OrderExceptAround;
      hide OrderExceptAbove;
      var n := |heap| - 1;
      ok := true;
      assert index < n ==> Swap(heap, index, n)[index] == heap[n] && Swap(heap, index, n)[n] == heap[index];
      assert 0 < index < n ==> Swap(heap, index, n)[0] == heap[0];
      if index < n {
        ghost var s := Swap(heap, index, n);
        ReplaceFacts(heap, index);
        HeapOrderFront(heap);
        hide HeapOrder;
        SwapNode(index, n);
        assert s[n..] == [old(heap[index])];
        var moved := SiftDown(index, n);
        if !moved {
          ok := SiftUp(index, n);
        }
        assert heap[n] == heap[n..][0];
      }
    }

    /**
     `del_`: the node at `index` leaves. `ok` is false when moving another node up in its place runs out of the
     vector.
     */
    method Delete(index: nat) returns (ok: bool)
      requires Valid() && index < |heap|
      modifies this
      ensures ok <==> SafeDelete(old(heap), index)
      ensures ok ==> Valid() && multiset(heap) == multiset(old(heap)) - multiset{old(heap[index])}
    {
      hide SafeDelete;
      ok := MoveOut(index);
      var n := |heap| - 1;
      if ok {
        DropLast(heap, refs);
      }
      refs := refs - {heap[n].id};
      heap := heap[..n];
    }

    /** `add`: a new timer, or a new deadline and callback for an old one. */
    method Add(id: int, expires: int, cb: int) returns (ok: bool)
      requires Valid() && id >= 0
      modifies this
      ensures ok <==> SafeAdd(old(heap), old(refs), id, expires)
      ensures ok ==> Valid()
      ensures ok && id !in old(refs) ==> multiset(heap) == multiset(old(heap)) + multiset{TimerNode(id, expires, cb)}
      ensures ok && id in old(refs) ==>
        multiset(heap) == multiset(old(heap)[old(refs)[id] := TimerNode(id, expires, cb)])
    {
      if id !in refs {
        var i := |heap|;
        AppendFacts(heap, refs, TimerNode(id, expires, cb));
        refs := refs[id := i];
        heap := heap + [TimerNode(id, expires, cb)];
        ok := SiftUp(i, |heap|);
      } else {
        var i := refs[id];
        UpdateFacts(heap, refs, i, TimerNode(id, expires, cb));
        heap := heap[i := TimerNode(id, expires, cb)];
        ok := SiftDown(i, |heap|);
        if !ok {
          ok := SiftUp(i, |heap|);
        }
      }
    }

    /**
     `adjust` only moves the node down, so the heap stays ordered exactly when the new deadline is no earlier than
     the parent's; a later deadline always is.
     */
    method Adjust(id: int, expires: int)
      requires Valid() && id in refs
      modifies this
      ensures RefsExact(heap, refs)
      ensures multiset(heap) == multiset(old(heap)[old(refs)[id] := old(heap[refs[id]]).(expires := expires)])
      ensures HeapOrder(heap, |heap|) <==>
        var i := old(refs)[id]; i == 0 || old(heap)[Parent(i)].expires <= expires
      ensures expires >= old(heap[refs[id]]).expires ==> Valid()
    {
      var i := refs[id];
      var node := heap[i].(expires := expires);
      ghost var h := heap;
      assert i > 0 ==> Ordered(heap, i);
      UpdateFacts(heap, refs, i, node);
      heap := heap[i := node];
      var moved := SiftDown(i, |heap|);
      AdjustFacts(h[i := node], i, moved);
    }

    /** `doWork`: the timer's callback is run and the timer is removed; an unknown id is ignored. */
    method DoWork(id: int) returns (fired: seq<TimerNode>, ok: bool)
      requires Valid()
      modifies this
      ensures id !in old(refs) ==> ok && fired == [] && heap == old(heap) && refs == old(refs)
      ensures id in old(refs) ==> fired == [old(heap[refs[id]])] && (ok <==> SafeDelete(old(heap), old(refs)[id]))
      ensures ok ==> Valid() && multiset(heap) == multiset(old(heap)) - multiset(fired)
    {
      fired, ok := [], true;
      if |heap| == 0 || id !in refs {
        assert id !in refs;
        return;
      }
      var i := refs[id];
      fired := [heap[i]];
      ok := Delete(i);
    }

    /** `pop`: deleting the root never moves a node up. */
    method Pop()
      requires Valid() && heap != []
      modifies this
      ensures Valid() && multiset(heap) == multiset(old(heap)) - multiset{old(heap[0])} && |heap| == |old(heap)| - 1
    {
      ghost var h := heap;
      var ok := Delete(0);
      assert |multiset(heap)| == |multiset(h)| - 1;
    }

    /**
     `tick`: the clock is read at every turn of the loop, `clock(k)` being the reading before the k-th timer is fired. Each
     timer fired is due at its own reading, in order of deadline, and no timer that is left is due at the last reading.
     */
    method Tick(clock: nat -> int) returns (fired: seq<TimerNode>)
      requires Valid() && Advancing(clock)
      modifies this
      ensures Valid() && multiset(heap) + multiset(fired) == multiset(old(heap))
      ensures forall k :: 0 <= k < |fired| ==> Due(fired[k], clock(k))
      ensures forall x :: x in heap ==> !Due(x, clock(|fired|)) && !Due(x, clock(0))
      ensures forall j, k :: 0 <= j < k < |fired| ==> fired[j].expires <= fired[k].expires
    {
      hide RefsExact;
      hide HeapOrder;
      hide Advancing;
      hide FiredSoFar;
      hide Due;
      fired := [];
      NothingFired(heap, clock);
      while |heap| != 0
        invariant Valid() && multiset(heap) + multiset(fired) == multiset(old(heap)) && FiredSoFar(fired, heap, clock)
        decreases |heap|
      {
        RootFacts(heap);
        if Milliseconds(heap[0].expires - clock(|fired|)) > 0 {
          NoneDue(heap, clock(|fired|));
          ReadBefore(clock, |fired|);
          NoneDueBefore(heap, clock(0), clock(|fired|));
          FiredMeans(fired, heap, clock);
          return;
        }
        ghost var h := heap;
        var node := heap[0];
        Pop();
        FiredNext(fired, h, heap, clock);
        fired := fired + [node];
      }
      FiredMeans(fired, heap, clock);
    }

    /**
     `GetNextTick`: after the tick the clock is read once more. The answer is -1 when no timer is left, and otherwise the
     least whole milliseconds left over all timers at that reading, converted to a 32-bit int; the test that should make
     it at least 0 compares an unsigned number with 0. So when it fits, it is zero or negative if and only if a timer has
     become due since the tick.
     */
    method GetNextTick(clock: nat -> int) returns (res: int, fired: seq<TimerNode>)
      requires Valid() && Advancing(clock)
      modifies this
      ensures Valid() && multiset(heap) + multiset(fired) == multiset(old(heap))
      ensures forall k :: 0 <= k < |fired| ==> Due(fired[k], clock(k))
      ensures forall x :: x in heap ==> !Due(x, clock(|fired|))
      ensures heap == [] ==> res == -1
      ensures heap != [] ==>
        var later := clock(|fired| + 1);
        && res == ToInt32(Left(heap[0], later)) && (forall y :: y in heap ==> Left(heap[0], later) <= Left(y, later))
        && (-0x8000_0000 <= Left(heap[0], later) < 0x8000_0000 ==> (res <= 0 <==> exists x :: x in heap && Due(x, later)))
      ensures heap != [] ==>
        var r := heap[0].expires - clock(|fired| + 1);
        && (forall y :: y in heap ==> heap[0].expires <= y.expires)
        && (0 <= r < 0x8000_0000 * 1000000 ==> res * 1000000 <= r < (res + 1) * 1000000)
        && (-0x8000_0000 * 1000000 <= r < 0 ==> (res - 1) * 1000000 < r <= res * 1000000)
    {
      fired := Tick(clock);
      res := -1;
      if |heap| != 0 {
        RootFacts(heap);
        res := ToInt32(Milliseconds(heap[0].expires - clock(|fired| + 1)));
        LeastLeft(heap, clock(|fired| + 1));
        assert heap[0] in heap;
      }
    }

    /** `clear` */
    method Clear()
      modifies this
      ensures Valid() && heap == []
    {
      heap, refs := [], map[];
    }
  }

  /** Swapping a node with a parent that is no earlier moves the exception one level up. */
  lemma RaiseFacts(h: seq<TimerNode>, n: nat, i: nat)
    requires 0 < i < n <= |h| && OrderExceptAbove(h, n, i) && h[Parent(i)].expires >= h[i].expires
    ensures OrderExceptAbove(Swap(h, i, Parent(i)), n, Parent(i))
    ensures Swap(h, i, Parent(i))[n..] == h[n..]
  {
    var j := Parent(i);
    var s := Swap(h, i, j);
    forall k | 0 < k < n && k != j ensures Ordered(s, k) {
      assert k == i || Ordered(h, k);
    }
    forall k | 0 < k < n && Parent(k) == j && j > 0 ensures Before(s, Parent(j), k) {
      assert Ordered(h, j) && (k == i || Ordered(h, k));
    }
  }

  /** A child among the first n nodes that is no later than node i. */
  predicate ChildNoLater(h: seq<TimerNode>, n: int, i: nat)
    requires i < |h| && n <= |h|
  {
    || (2 * i + 1 < n && h[2 * i + 1].expires <= h[i].expires)
    || (2 * i + 2 < n && h[2 * i + 2].expires <= h[i].expires)
  }

  /** The child that is compared with node i: the left one unless the right one is earlier. */
  function EarlierChild(h: seq<TimerNode>, n: nat, i: nat): (j: nat)
    requires 2 * i + 1 < n <= |h|
    ensures 0 < j < n && Parent(j) == i && forall k :: 0 < k < n && Parent(k) == i ==> Before(h, j, k)
  {
    var j := 2 * i + 1;
    if j + 1 < n && h[j + 1].expires < h[j].expires then j + 1 else j
  }

  /** Swapping a node with its earlier child moves the exception one level down. */
  lemma LowerFacts(h: seq<TimerNode>, n: nat, i: nat, below: bool)
    requires 2 * i + 1 < n <= |h| && h[EarlierChild(h, n, i)].expires <= h[i].expires
    requires if below then OrderExceptBelow(h, n, i) else OrderExceptAround(h, n, i)
    ensures var j := EarlierChild(h, n, i); var s := Swap(h, i, j); OrderExceptBelow(s, n, j) && s[n..] == h[n..]
    ensures ChildNoLater(h, n, i)
  {
    var j := EarlierChild(h, n, i);
    var s := Swap(h, i, j);
    forall k | 0 < k < n && Parent(k) != j ensures Ordered(s, k) {
      if k == i {
        assert Before(h, Parent(i), j);
      } else if Parent(k) == i {
        assert Before(h, j, k);
      } else {
        assert Ordered(h, k);
      }
    }
    forall k | 0 < k < n && Parent(k) == j ensures Before(s, i, k) {
      assert Ordered(h, k);
    }
  }

  /** No child is earlier: the exception below is gone. */
  lemma StopFacts(h: seq<TimerNode>, n: nat, i: nat, moved: bool)
    requires i < n <= |h| && (2 * i + 1 < n ==> h[i].expires < h[EarlierChild(h, n, i)].expires)
    requires if moved then OrderExceptBelow(h, n, i) else OrderExceptAround(h, n, i)
    ensures if moved then HeapOrder(h, n) else OrderExceptAbove(h, n, i) && !ChildNoLater(h, n, i)
  {
    forall k | 0 < k < n && (moved || k != i) ensures Ordered(h, k) {
      assert Parent(k) == i ==> Before(h, i, k);
    }
  }

  /** Deleting never moves the last node up past the root. */
  predicate SafeDelete(h: seq<TimerNode>, i: nat)
    requires i < |h|
  {
    var n := |h| - 1;
    i == n || i == 0 || h[0].expires < h[n].expires || ChildNoLater(Swap(h, i, n), n, i)
  }

  /** Adding never moves the timer up past the root. */
  predicate SafeAdd(h: seq<TimerNode>, refs: Refs, id: int, expires: int)
    requires id in refs ==> refs[id] < |h|
  {
    if id !in refs then h == [] || h[0].expires < expires
    else
      var i := refs[id];
      i == 0 || h[0].expires < expires || ChildNoLater(h[i := h[i].(expires := expires)], |h|, i)
  }

  lemma HeapOrderFront(h: seq<TimerNode>)
    requires h != [] && HeapOrder(h, |h|)
    ensures HeapOrder(h, |h| - 1)
  {
  }

  lemma ReplaceFacts(h: seq<TimerNode>, i: nat)
    requires i < |h| - 1 && HeapOrder(h, |h|)
    ensures OrderExceptAround(Swap(h, i, |h| - 1), |h| - 1, i)
  {
    var n := |h| - 1;
    var s := Swap(h, i, n);
    forall k | 0 < k < n && k != i && Parent(k) != i ensures Ordered(s, k) {
      assert Ordered(h, k);
    }
    forall k | 0 < k < n && Parent(k) == i && i > 0 ensures Before(s, Parent(i), k) {
      assert Ordered(h, i) && Ordered(h, k);
    }
  }

  lemma AppendFacts(h: seq<TimerNode>, refs: Refs, node: TimerNode)
    requires HeapOrder(h, |h|) && RefsExact(h, refs) && node.id !in refs
    ensures OrderExceptAbove(h + [node], |h| + 1, |h|) && RefsExact(h + [node], refs[node.id := |h|])
  {
    var s := h + [node];
    forall k | 0 < k < |h| ensures Ordered(s, k) {
      assert Ordered(h, k);
    }
  }

  lemma UpdateFacts(h: seq<TimerNode>, refs: Refs, i: nat, node: TimerNode)
    requires i < |h| && HeapOrder(h, |h|) && RefsExact(h, refs) && node.id == h[i].id
    ensures OrderExceptAround(h[i := node], |h|, i) && RefsExact(h[i := node], refs)
  {
    var s := h[i := node];
    forall k | 0 < k < |h| && k != i && Parent(k) != i ensures Ordered(s, k) {
      assert Ordered(h, k);
    }
    forall k | 0 < k < |h| && Parent(k) == i && i > 0 ensures Before(s, Parent(i), k) {
      assert Ordered(h, i) && Ordered(h, k);
    }
  }

  lemma DropLast(h: seq<TimerNode>, refs: Refs)
    requires h != [] && RefsExact(h, refs) && HeapOrder(h, |h| - 1)
    ensures var n := |h| - 1;
            && RefsExact(h[..n], refs - {h[n].id}) && HeapOrder(h[..n], n)
            && multiset(h[..n]) == multiset(h) - multiset{h[n]}
  {
    var n := |h| - 1;
    assert h == h[..n] + [h[n]];
    forall k | 0 < k < n ensures Ordered(h[..n], k) {
      assert Ordered(h, k);
    }
  }

  lemma AdjustFacts(h: seq<TimerNode>, i: nat, moved: bool)
    requires i < |h| && OrderExceptAround(h, |h|, i)
    requires if moved then ChildNoLater(h, |h|, i) else OrderExceptAbove(h, |h|, i)
    ensures moved ==> i == 0 || Before(h, Parent(i), i)
    ensures !moved ==> (HeapOrder(h, |h|) <==> i == 0 || Before(h, Parent(i), i))
  {
    if moved {
      if 2 * i + 1 < |h| && h[2 * i + 1].expires <= h[i].expires {
        assert Parent(2 * i + 1) == i;
      } else {
        assert Parent(2 * i + 2) == i;
      }
    } else {
      assert i > 0 ==> (Ordered(h, i) <==> Before(h, Parent(i), i));
    }
  }

  // ----- Deadlines -----

  /** `duration_cast<MS>`: truncation toward zero. */
  function Milliseconds(d: int): (ms: int)
    ensures d >= 0 ==> ms * 1000000 <= d < (ms + 1) * 1000000
    ensures d < 0 ==> (ms - 1) * 1000000 < d <= ms * 1000000
  {
    if d >= 0 then d / 1000000 else -(-d / 1000000)
  }

  function Left(x: TimerNode, now: int): (ms: int) { Milliseconds(x.expires - now) }

  /** Less than a millisecond is left. */
  predicate Due(x: TimerNode, now: int)
    ensures Due(x, now) <==> x.expires - now < 1000000
  {
    Left(x, now) <= 0
  }

  /** A 64-bit count returned as an int: the number of that width that is equal to it modulo 2^32. */
  function ToInt32(n: int): (r: int)
    ensures -0x8000_0000 <= r < 0x8000_0000 && (n - r) % 0x1_0000_0000 == 0
    ensures -0x8000_0000 <= n < 0x8000_0000 ==> r == n
  {
    var m := n % 0x1_0000_0000;
    if m < 0x8000_0000 then m else m - 0x1_0000_0000
  }

  lemma RootFacts(h: seq<TimerNode>)
    requires h != [] && HeapOrder(h, |h|)
    ensures forall k :: 0 <= k < |h| ==> h[0].expires <= h[k].expires
  {
    forall k | 0 <= k < |h| ensures h[0].expires <= h[k].expires {
      RootIsEarliest(h, k);
    }
  }

  lemma NoneDue(h: seq<TimerNode>, now: int)
    requires h != [] && Milliseconds(h[0].expires - now) > 0
    requires forall k :: 0 <= k < |h| ==> h[0].expires <= h[k].expires
    ensures forall x :: x in h ==> !Due(x, now)
  {
    assert forall k :: 0 <= k < |h| ==> h[k].expires - now >= 1000000;
  }

  lemma MillisecondsMonotone(a: int, b: int)
    requires a <= b
    ensures Milliseconds(a) <= Milliseconds(b)
  {
  }

  /** Readings of a clock that never goes back. */
  ghost predicate Advancing(clock: nat -> int) {
    forall i: nat, j: nat :: i <= j ==> clock(i) <= clock(j)
  }

  lemma ReadBefore(clock: nat -> int, n: nat)
    requires Advancing(clock)
    ensures clock(0) <= clock(n)
  {
  }

  lemma NoneDueBefore(h: seq<TimerNode>, before: int, now: int)
    requires before <= now && forall x :: x in h ==> !Due(x, now)
    ensures forall x :: x in h ==> !Due(x, before)
  {
    forall x | x in h ensures !Due(x, before) {
      MillisecondsMonotone(x.expires - now, x.expires - before);
    }
  }

  lemma LeastLeft(h: seq<TimerNode>, now: int)
    requires h != [] && forall k :: 0 <= k < |h| ==> h[0].expires <= h[k].expires
    ensures forall y :: y in h ==> Left(h[0], now) <= Left(y, now)
  {
    forall y | y in h ensures Left(h[0], now) <= Left(y, now) {
      MillisecondsMonotone(h[0].expires - now, y.expires - now);
    }
  }

  /** Timers fired in order, each due at its reading, and none later than one still in the heap. */
  ghost predicate FiredSoFar(fired: seq<TimerNode>, h: seq<TimerNode>, clock: nat -> int) {
    && (forall k :: 0 <= k < |fired| ==> Due(fired[k], clock(k)))
    && (forall j, k :: 0 <= j < k < |fired| ==> fired[j].expires <= fired[k].expires)
    && (forall j, k :: 0 <= j < |fired| && 0 <= k < |h| ==> fired[j].expires <= h[k].expires)
  }

  lemma NothingFired(h: seq<TimerNode>, clock: nat -> int)
    ensures FiredSoFar([], h, clock)
  {
  }

  lemma FiredMeans(fired: seq<TimerNode>, h: seq<TimerNode>, clock: nat -> int)
    requires FiredSoFar(fired, h, clock)
    ensures forall k :: 0 <= k < |fired| ==> Due(fired[k], clock(k))
    ensures forall j, k :: 0 <= j < k < |fired| ==> fired[j].expires <= fired[k].expires
  {
  }

  lemma FiredNext(fired: seq<TimerNode>, h: seq<TimerNode>, h': seq<TimerNode>, clock: nat -> int)
    requires h != [] && FiredSoFar(fired, h, clock) && Milliseconds(h[0].expires - clock(|fired|)) <= 0
    requires multiset(h') == multiset(h) - multiset{h[0]} && forall k :: 0 <= k < |h| ==> h[0].expires <= h[k].expires
    ensures FiredSoFar(fired + [h[0]], h', clock)
  {
    hide Milliseconds;
    StillLater(h, h', fired);
  }

  /** What is left after removing the root is no earlier than it, and than what was fired before. */
  lemma StillLater(h: seq<TimerNode>, h': seq<TimerNode>, fired: seq<TimerNode>)
    requires h != [] && multiset(h') == multiset(h) - multiset{h[0]}
    requires forall k :: 0 <= k < |h| ==> h[0].expires <= h[k].expires
    requires forall j, k :: 0 <= j < |fired| && 0 <= k < |h| ==> fired[j].expires <= h[k].expires
    ensures forall k :: 0 <= k < |h'| ==> h[0].expires <= h'[k].expires
    ensures forall j, k :: 0 <= j < |fired| && 0 <= k < |h'| ==> fired[j].expires <= h'[k].expires
    ensures forall k :: 0 <= k < |h'| ==> h'[k] in h
  {
    forall k | 0 <= k < |h'| ensures h'[k] in h {
      assert h'[k] in multiset(h');
      assert h'[k] in multiset(h);
    }
  }

  // ----- When the heap is used safely -----

  /** No two timers have the same deadline. */
  ghost predicate DistinctDeadlines(h: seq<TimerNode>) {
    forall j, k :: 0 <= j < k < |h| ==> h[j].expires != h[k].expires
  }

  /** With distinct deadlines every timer can be deleted. */
  lemma DistinctIsSafe(h: seq<TimerNode>, i: nat)
    requires i < |h| && HeapOrder(h, |h|) && DistinctDeadlines(h)
    ensures SafeDelete(h, i)
  {
    RootFacts(h);
    assert |h| > 1 ==> h[0].expires != h[|h| - 1].expires;
  }

  /** A deadline later than all others, as one timeout and an advancing clock give, can be added and stays distinct. */
  lemma LatestIsSafe(h: seq<TimerNode>, refs: Refs, node: TimerNode)
    requires RefsExact(h, refs) && DistinctDeadlines(h)
    requires forall k :: 0 <= k < |h| ==> h[k].expires < node.expires
    ensures SafeAdd(h, refs, node.id, node.expires)
    ensures node.id !in refs ==> DistinctDeadlines(h + [node])
    ensures node.id in refs ==> DistinctDeadlines(h[refs[node.id] := node])
  {
  }

  /** Deadlines stay distinct when timers only change places or leave. */
  lemma FewerStayDistinct(h: seq<TimerNode>, h': seq<TimerNode>, refs': Refs)
    requires DistinctDeadlines(h) && RefsExact(h', refs') && multiset(h') <= multiset(h)
    ensures DistinctDeadlines(h')
  {
    forall j, k | 0 <= j < k < |h'| ensures h'[j].expires != h'[k].expires {
      assert h'[j] in multiset(h') && h'[k] in multiset(h');
      assert h'[j] in h && h'[k] in h;
      assert h'[j].id != h'[k].id;
    }
  }

  /** What the server does with its timers; `now` is when. */
  datatype Use = Start(id: int, cb: int, now: int) | Renew(id: int, now: int) | Work(id: int) | Expire(clock: nat -> int)

  predicate Sets(u: Use) { u.Start? || u.Renew? }

  /** New connections and traffic on old ones read the clock, which never shows the same time twice; ticks read it too. */
  ghost predicate ClockAdvances(uses: seq<Use>) {
    && (forall k :: 0 <= k < |uses| && uses[k].Start? ==> uses[k].id >= 0)
    && (forall k :: 0 <= k < |uses| && uses[k].Expire? ==> Advancing(uses[k].clock))
    && forall j, k :: 0 <= j < k < |uses| && Sets(uses[j]) && Sets(uses[k]) ==> uses[j].now < uses[k].now
  }

  /** The heap before a use: deadlines are distinct, and later than none that the coming uses will set. */
  ghost predicate Settled(h: seq<TimerNode>, timeout: int, uses: seq<Use>, n: nat)
    requires n <= |uses|
  {
    && DistinctDeadlines(h)
    && forall k, j :: 0 <= k < |h| && n <= j < |uses| && Sets(uses[j]) ==> h[k].expires < uses[j].now + timeout
  }

  /** The heap after a use: nothing but one new deadline, later than the others. */
  lemma StaysSettled(h: seq<TimerNode>, h': seq<TimerNode>, refs': Refs, timeout: int, uses: seq<Use>, n: nat)
    requires n < |uses| && ClockAdvances(uses) && Settled(h, timeout, uses, n)
    requires RefsExact(h', refs') && multiset(h') <= multiset(h)
    ensures Settled(h', timeout, uses, n + 1)
  {
    FewerStayDistinct(h, h', refs');
    forall k | 0 <= k < |h'| ensures h'[k] in h {
      assert h'[k] in multiset(h');
    }
  }

  lemma GetsSettled(h: seq<TimerNode>, node: TimerNode, i: nat, h': seq<TimerNode>, refs': Refs, timeout: int, uses: seq<Use>, n: nat)
    requires n < |uses| && ClockAdvances(uses) && Settled(h, timeout, uses, n) && Sets(uses[n])
    requires node.expires == uses[n].now + timeout && RefsExact(h', refs') && i <= |h|
    requires multiset(h') == multiset(if i == |h| then h + [node] else h[i := node])
    ensures Settled(h', timeout, uses, n + 1)
  {
    var g := if i == |h| then h + [node] else h[i := node];
    assert DistinctDeadlines(g);
    FewerStayDistinct(g, h', refs');
    forall k | 0 <= k < |h'| ensures h'[k] in g {
      assert h'[k] in multiset(h');
    }
  }

  /**
   The server's use of the heap: one timeout and a clock that advances. Every sequence of uses is safe, and leaves an
   ordered heap with exact references and distinct deadlines. A renewal of a timer that is gone is not made.
   */
  method Serve(timer: Timer, timeout: int, uses: seq<Use>) returns (safe: bool)
    requires timer.Valid() && ClockAdvances(uses) && Settled(timer.heap, timeout, uses, 0)
    modifies timer
    ensures safe && timer.Valid() && DistinctDeadlines(timer.heap)
  {
    safe := true;
    var n := 0;
    while n < |uses|
      invariant 0 <= n <= |uses| && safe && timer.Valid() && Settled(timer.heap, timeout, uses, n)
    {
      safe := ServeOne(timer, timeout, uses, n);
      n := n + 1;
    }
  }

  lemma SettledMeans(h: seq<TimerNode>, timeout: int, uses: seq<Use>, n: nat)
    requires n < |uses| && ClockAdvances(uses) && Settled(h, timeout, uses, n)
    ensures DistinctDeadlines(h) && (uses[n].Start? ==> uses[n].id >= 0)
    ensures Sets(uses[n]) ==> forall k :: 0 <= k < |h| ==> h[k].expires < uses[n].now + timeout
    ensures uses[n].Expire? ==> Advancing(uses[n].clock)
  {
  }

  method ServeOne(timer: Timer, timeout: int, uses: seq<Use>, n: nat) returns (safe: bool)
    requires timer.Valid() && n < |uses| && ClockAdvances(uses) && Settled(timer.heap, timeout, uses, n)
    modifies timer
    ensures safe && timer.Valid() && Settled(timer.heap, timeout, uses, n + 1)
  {
    hide *;
    match uses[n]
    case Start(id, cb, now) => safe := ServeStart(timer, timeout, uses, n);
    case Renew(id, now) => safe := ServeRenew(timer, timeout, uses, n);
    case Work(id) => safe := ServeWork(timer, timeout, uses, n);
    case Expire(_) => safe := ServeExpire(timer, timeout, uses, n);
  }

  method ServeStart(timer: Timer, timeout: int, uses: seq<Use>, n: nat) returns (safe: bool)
    requires timer.Valid() && n < |uses| && ClockAdvances(uses) && Settled(timer.heap, timeout, uses, n) && uses[n].Start?
    modifies timer
    ensures safe && timer.Valid() && Settled(timer.heap, timeout, uses, n + 1)
  {
    ghost var h, refs := timer.heap, timer.refs;
    SettledMeans(h, timeout, uses, n);
    var id, expires, cb := uses[n].id, uses[n].now + timeout, uses[n].cb;
    ghost var node := TimerNode(id, expires, cb);
    LatestIsSafe(h, refs, node);
    ghost var i := if id in refs then refs[id] else |h|;
    assert i <= |h|;
    assert multiset(h + [node]) == multiset(h) + multiset{node};
    hide HeapOrder;
    hide Settled;
    hide ClockAdvances;
    hide SafeAdd;
    safe := timer.Add(id, expires, cb);
    assert multiset(timer.heap) == multiset(if i == |h| then h + [node] else h[i := node]);
    GetsSettled(h, node, i, timer.heap, timer.refs, timeout, uses, n);
  }

  method ServeRenew(timer: Timer, timeout: int, uses: seq<Use>, n: nat) returns (safe: bool)
    requires timer.Valid() && n < |uses| && ClockAdvances(uses) && Settled(timer.heap, timeout, uses, n) && uses[n].Renew?
    modifies timer
    ensures safe && timer.Valid() && Settled(timer.heap, timeout, uses, n + 1)
  {
    ghost var h, refs := timer.heap, timer.refs;
    SettledMeans(h, timeout, uses, n);
    var id, expires := uses[n].id, uses[n].now + timeout;
    assert id in refs ==> refs[id] < |h|;
    safe := true;
    if id in timer.refs {
      hide Settled;
      hide ClockAdvances;
      timer.Adjust(id, expires);
      hide HeapOrder;
      GetsSettled(h, h[refs[id]].(expires := expires), refs[id], timer.heap, timer.refs, timeout, uses, n);
    }
  }

  method ServeWork(timer: Timer, timeout: int, uses: seq<Use>, n: nat) returns (safe: bool)
    requires timer.Valid() && n < |uses| && ClockAdvances(uses) && Settled(timer.heap, timeout, uses, n) && uses[n].Work?
    modifies timer
    ensures safe && timer.Valid() && Settled(timer.heap, timeout, uses, n + 1)
  {
    ghost var h, refs := timer.heap, timer.refs;
    SettledMeans(h, timeout, uses, n);
    var id := uses[n].id;
    if id in refs { DistinctIsSafe(h, refs[id]); }
    hide HeapOrder;
    hide Settled;
    hide ClockAdvances;
    hide SafeDelete;
    var fired;
    fired, safe := timer.DoWork(id);
    StaysSettled(h, timer.heap, timer.refs, timeout, uses, n);
  }

  method ServeExpire(timer: Timer, timeout: int, uses: seq<Use>, n: nat) returns (safe: bool)
    requires timer.Valid() && n < |uses| && ClockAdvances(uses) && Settled(timer.heap, timeout, uses, n) && uses[n].Expire?
    modifies timer
    ensures safe && timer.Valid() && Settled(timer.heap, timeout, uses, n + 1)
  {
    ghost var h := timer.heap;
    SettledMeans(h, timeout, uses, n);
    hide HeapOrder;
    hide Settled;
    hide ClockAdvances;
    hide Due;
    hide Advancing;
    var fired := timer.Tick(uses[n].clock);
    safe := true;
    assert multiset(timer.heap) <= multiset(timer.heap) + multiset(fired);
    StaysSettled(h, timer.heap, timer.refs, timeout, uses, n);
  }

  // ----- When it is not -----

  /** Two timers added with one deadline: the second addition reads outside the vector. */
  method AddTwiceAtOnce() returns (safe: bool)
    ensures !safe
  {
    var timer := new Timer();
    safe := timer.Add(1, 5, 0);
    OnlyOne(timer.heap, TimerNode(1, 5, 0));
    safe := timer.Add(2, 5, 0);
  }

  lemma OnlyOne(h: seq<TimerNode>, x: TimerNode)
    requires multiset(h) == multiset{x}
    ensures h == [x]
  {
    assert |multiset(h)| == 1;
    assert h[0] in multiset(h);
  }

  /**
   Three timers added safely and then renewed at one moment: a timer that is neither first nor last in the heap cannot
   be fired, because the last one would have to move up past a root with the same deadline.
   */
  method RenewAllAtOnce() returns (safe: bool)
    ensures !safe
  {
    hide HeapOrder;
    hide SafeDelete;
    var timer := AddThree();
    ghost var nodes := [TimerNode(1, 5, 0), TimerNode(2, 6, 0), TimerNode(3, 7, 0)];
    RenewOne(timer, 1, nodes, 0);
    nodes := nodes[0 := TimerNode(1, 7, 0)];
    RenewOne(timer, 2, nodes, 1);
    nodes := nodes[1 := TimerNode(2, 7, 0)];
    TheseAre(timer.heap, nodes);
    EqualDeadlinesAreUnsafe(timer.heap);
    var _, ok := timer.DoWork(timer.heap[1].id);
    safe := ok;
  }

  lemma EqualDeadlinesAreUnsafe(h: seq<TimerNode>)
    requires |h| == 3 && forall k :: 0 <= k < 3 ==> h[k].expires == 7
    ensures !SafeDelete(h, 1)
  {
  }

  method AddThree() returns (timer: Timer)
    ensures fresh(timer) && timer.Valid()
    ensures multiset(timer.heap) == multiset([TimerNode(1, 5, 0), TimerNode(2, 6, 0), TimerNode(3, 7, 0)])
  {
    ghost var a, b, c := TimerNode(1, 5, 0), TimerNode(2, 6, 0), TimerNode(3, 7, 0);
    timer := new Timer();
    hide *;
    assert multiset([]) == multiset(timer.heap);
    AddLater(timer, 1, 5, []);
    assert [] + [a] == [a];
    AddLater(timer, 2, 6, [a]);
    assert [a] + [b] == [a, b];
    AddLater(timer, 3, 7, [a, b]);
    assert [a, b] + [c] == [a, b, c];
  }

  /** Another timer, with a later deadline. */
  method AddLater(timer: Timer, id: int, expires: int, ghost nodes: seq<TimerNode>)
    requires timer.Valid() && multiset(timer.heap) == multiset(nodes) && id >= 0
    requires forall k :: 0 <= k < |nodes| ==> nodes[k].id != id && nodes[k].expires < expires
    modifies timer
    ensures timer.Valid() && multiset(timer.heap) == multiset(nodes + [TimerNode(id, expires, 0)])
  {
    TheseAre(timer.heap, nodes);
    KnownIds(timer.heap, timer.refs, nodes);
    hide HeapOrder;
    hide RefsExact;
    var ok := timer.Add(id, expires, 0);
  }

  lemma KnownIds(h: seq<TimerNode>, refs: Refs, nodes: seq<TimerNode>)
    requires RefsExact(h, refs) && multiset(h) == multiset(nodes)
    ensures forall id :: id in refs ==> exists k :: 0 <= k < |nodes| && nodes[k].id == id
  {
    forall id | id in refs ensures exists k :: 0 <= k < |nodes| && nodes[k].id == id {
      assert h[refs[id]] in multiset(nodes);
    }
  }

  lemma TheseAre(h: seq<TimerNode>, nodes: seq<TimerNode>)
    requires multiset(h) == multiset(nodes)
    ensures |h| == |nodes| && forall k :: 0 <= k < |h| ==> h[k] in nodes
  {
    assert |multiset(h)| == |multiset(nodes)|;
    forall k | 0 <= k < |h| ensures h[k] in nodes {
      assert h[k] in multiset(h);
    }
  }

  method RenewOne(timer: Timer, id: int, ghost nodes: seq<TimerNode>, ghost k: nat)
    requires timer.Valid() && multiset(timer.heap) == multiset(nodes) && k < |nodes| && nodes[k].id == id && nodes[k].expires <= 7
    modifies timer
    ensures timer.Valid() && multiset(timer.heap) == multiset(nodes[k := nodes[k].(expires := 7)])
  {
    ghost var h := timer.heap;
    assert nodes[k] in multiset(h);
    ghost var i :| 0 <= i < |h| && h[i] == nodes[k];
    assert timer.refs[id] == i;
    timer.Adjust(id, 7);
    ReplaceInBoth(h, i, nodes, k, nodes[k].(expires := 7));
  }

  lemma ReplaceInBoth(h: seq<TimerNode>, i: nat, g: seq<TimerNode>, k: nat, x: TimerNode)
    requires i < |h| && k < |g| && h[i] == g[k] && multiset(h) == multiset(g)
    ensures multiset(h[i := x]) == multiset(g[k := x])
  {
  }

  /** A deadline set back below the parent's: `adjust` leaves the heap unordered. */
  method AdjustBackwards() returns (timer: Timer)
    ensures fresh(timer) && RefsExact(timer.heap, timer.refs) && !HeapOrder(timer.heap, |timer.heap|)
  {
    timer := new Timer();
    AddLater(timer, 1, 5, []);
    assert [] + [TimerNode(1, 5, 0)] == [TimerNode(1, 5, 0)];
    AddLater(timer, 2, 6, [TimerNode(1, 5, 0)]);
    TwoInOrder(timer.heap, timer.refs, TimerNode(1, 5, 0), TimerNode(2, 6, 0));
    timer.Adjust(2, 4);
  }

  lemma TwoInOrder(h: seq<TimerNode>, refs: Refs, a: TimerNode, b: TimerNode)
    requires multiset(h) == multiset([a] + [b]) && HeapOrder(h, |h|) && RefsExact(h, refs) && a.expires < b.expires && a.id != b.id
    ensures h == [a, b] && b.id in refs && refs[b.id] == 1
  {
    TheseAre(h, [a] + [b]);
    assert a in multiset(h) && b in multiset(h);
    assert Ordered(h, 1);
    assert h[1] == b;
  }

  /** One millisecond left at the tick, and the clock two milliseconds on: the answer is -1 although a timer is left. */
  method NextTickMissed() returns (timer: Timer, res: int)
    ensures timer.Valid() && timer.heap != [] && res == -1
  {
    timer := new Timer();
    AddLater(timer, 1, 3_000_000, []);
    OnlyOne(timer.heap, TimerNode(1, 3_000_000, 0));
    var clock: nat -> int := k => if k == 0 then 2_000_000 else 4_000_000;
    assert Advancing(clock);
    var fired;
    res, fired := timer.GetNextTick(clock);
    OnlyOne(timer.heap, TimerNode(1, 3_000_000, 0));
  }
}
