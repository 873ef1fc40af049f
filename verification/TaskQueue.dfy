/**
 The event loop's task queue: an intrusive singly linked list with a tail pointer, and one round of
 `IoContext::run` over it.
 */
module TaskQueue {

  class ListNode {
    var next: ListNode?

    constructor ()
      ensures next == null
    {
      next := null;
    }
  }

  ghost predicate NoDuplicates(s: seq<ListNode>) {
    forall j, k :: 0 <= j < k < |s| ==> s[j] != s[k]
  }

  /** The node after position k. */
  function After(s: seq<ListNode>, k: nat): (r: ListNode?)
    requires k < |s|
  {
    if k + 1 < |s| then s[k + 1] else null
  }

  class Queue {
    const beforeHead: ListNode
    var tail: ListNode?
    ghost var nodes: seq<ListNode>   // the queued nodes, oldest first

    /** The links and the tail pointer represent `nodes`. */
    ghost predicate Valid()
      reads this, beforeHead, nodes
    {
      && beforeHead !in nodes && NoDuplicates(nodes)
      && beforeHead.next == (if nodes == [] then null else nodes[0])
      && tail == (if nodes == [] then null else nodes[|nodes| - 1])
      && forall k {:trigger nodes[k]} :: 0 <= k < |nodes| ==> nodes[k].next == After(nodes, k)
    }

    constructor ()
      ensures Valid() && nodes == [] && fresh(beforeHead)
    {
      beforeHead := new ListNode();
      tail := null;
      nodes := [];
    }

    /** The node goes to the end; it must not be queued already. */
    method Push(node: ListNode)
      requires Valid() && node !in nodes && node != beforeHead
      modifies this, beforeHead, nodes, node
      ensures Valid() && nodes == old(nodes) + [node]
    {
      node.next := null;
      var last := tail;
      if last == null {
        last := beforeHead;
      }
      last.next := node;
      tail := node;
      nodes := nodes + [node];
    }

    /** The oldest node leaves; null when there is none. */
    method Pop() returns (head: ListNode?)
      requires Valid()
      modifies this, beforeHead
      ensures Valid()
      ensures old(nodes) == [] ==> head == null && nodes == []
      ensures old(nodes) != [] ==> head == old(nodes)[0] && nodes == old(nodes)[1..]
    {
      head := beforeHead.next;
      if head != null {
        assert nodes[0] == head;
        var newHead := head.next;
        beforeHead.next := newHead;
        if newHead == null {
          tail := null;
        }
        nodes := nodes[1..];
      }
    }

    /** The number of links is the number of queued nodes. */
    method Count() returns (n: nat)
      requires Valid()
      ensures n == |nodes|
    {
      n := 0;
      var h := beforeHead.next;
      while h != null
        invariant n <= |nodes| && h == if n < |nodes| then nodes[n] else null
        decreases |nodes| - n
      {
        assert nodes[n] == h;
        n := n + 1;
        h := h.next;
      }
    }
  }

  // ----- One round -----

  /** What the first k calls of a round post, in posting order; `posts[j]` is what the j-th call posts. */
  function Posted(posts: seq<seq<ListNode>>, k: nat): (r: seq<ListNode>)
    requires k <= |posts|
  {
    if k == 0 then [] else Posted(posts, k - 1) + posts[k - 1]
  }

  /** No call posts a node that is queued at that time; a task may post itself, since it has been popped. */
  ghost predicate Postable(q: Queue, start: seq<ListNode>, posts: seq<seq<ListNode>>) {
    && |posts| == |start|
    && forall k :: 0 <= k < |start| ==>
         q.beforeHead !in posts[k] && NoDuplicates(start[k + 1..] + Posted(posts, k + 1))
  }

  ghost predicate Among(s: seq<ListNode>, tasks: set<ListNode>) {
    forall k :: 0 <= k < |s| ==> s[k] in tasks
  }

  /** One call: everything it posts is pushed in order. */
  method Call(q: Queue, posted: seq<ListNode>, ghost tasks: set<ListNode>)
    requires q.Valid() && q.beforeHead !in posted && NoDuplicates(q.nodes + posted)
    requires Among(q.nodes, tasks) && Among(posted, tasks)
    modifies q, q.beforeHead, tasks
    ensures q.Valid() && q.nodes == old(q.nodes) + posted && Among(q.nodes, tasks)
  {
    var n := 0;
    assert q.nodes + posted[..0] == q.nodes;
    while n < |posted|
      invariant 0 <= n <= |posted| && q.Valid() && q.nodes == old(q.nodes) + posted[..n]
      invariant Among(q.nodes, tasks)
    {
      assert posted[n] !in q.nodes by {
        assert (old(q.nodes) + posted)[|old(q.nodes)| + n] == posted[n];
        assert forall j :: 0 <= j < |q.nodes| ==> q.nodes[j] == (old(q.nodes) + posted)[j];
      }
      q.Push(posted[n]);
      n := n + 1;
      assert old(q.nodes) + posted[..n - 1] + [posted[n - 1]] == old(q.nodes) + posted[..n];
    }
    assert posted[..n] == posted;
  }

  /** Before the k-th call: its task is popped, the rest of the round is still queued, then what was posted. */
  ghost predicate Popped(q: Queue, start: seq<ListNode>, posts: seq<seq<ListNode>>, k: nat)
    requires k < |start| == |posts|
    reads q
  {
    q.nodes == start[k + 1..] + Posted(posts, k)
  }

  lemma PostableNext(q: Queue, start: seq<ListNode>, posts: seq<seq<ListNode>>, k: nat, now: seq<ListNode>)
    requires Postable(q, start, posts) && k < |start| && now == start[k + 1..] + Posted(posts, k)
    ensures NoDuplicates(now + posts[k]) && q.beforeHead !in posts[k]
    ensures now + posts[k] == start[k + 1..] + Posted(posts, k + 1)
  {
    assert now + posts[k] == start[k + 1..] + (Posted(posts, k) + posts[k]);
  }

  /** The k-th call of a round. */
  method CallTask(q: Queue, ghost start: seq<ListNode>, posts: seq<seq<ListNode>>, k: nat, ghost tasks: set<ListNode>)
    requires q.Valid() && Postable(q, start, posts) && k < |start| == |posts| && Popped(q, start, posts, k)
    requires Among(q.nodes, tasks) && Among(posts[k], tasks)
    modifies q, q.beforeHead, tasks
    ensures q.Valid() && q.nodes == start[k + 1..] + Posted(posts, k + 1) && Among(q.nodes, tasks)
  {
    hide *;
    assert q.nodes == start[k + 1..] + Posted(posts, k) by { PoppedMeans(q, start, posts, k); }
    PostableNext(q, start, posts, k, q.nodes);
    Call(q, posts[k], tasks);
  }

  lemma PoppedMeans(q: Queue, start: seq<ListNode>, posts: seq<seq<ListNode>>, k: nat)
    requires k < |start| == |posts| && Popped(q, start, posts, k)
    ensures q.nodes == start[k + 1..] + Posted(posts, k)
  {
  }

  /** Between two calls: the next task is popped. */
  method NextTask(q: Queue, ghost start: seq<ListNode>, ghost posts: seq<seq<ListNode>>, ghost k: nat, ghost tasks: set<ListNode>)
    returns (node: ListNode?)
    requires q.Valid() && k < |start| == |posts| && q.nodes == start[k..] + Posted(posts, k) && Among(q.nodes, tasks)
    modifies q, q.beforeHead
    ensures q.Valid() && node == start[k] && Popped(q, start, posts, k) && Among(q.nodes, tasks)
  {
    hide Queue.Valid;
    hide Posted;
    hide Among;
    RestOfRound(start, posts, k);
    AmongTail(q.nodes, tasks);
    node := q.Pop();
  }

  /**
   One round of `run` over the task queue. It ends, it calls exactly the tasks queued at its start, each once and in
   order, and whatever the calls post stays queued in posting order for the next round.
   */
  method RunRound(q: Queue, posts: seq<seq<ListNode>>, ghost tasks: set<ListNode>) returns (called: seq<ListNode>)
    requires q.Valid() && Postable(q, q.nodes, posts)
    requires Among(q.nodes, tasks) && forall k :: 0 <= k < |posts| ==> Among(posts[k], tasks)
    modifies q, q.beforeHead, tasks
    ensures q.Valid() && called == old(q.nodes) && q.nodes == Posted(posts, |posts|)
  {
    ghost var start := q.nodes;
    RoundStart(q, start, posts);
    assert q.tail == (if start == [] then null else start[|start| - 1]) && NoDuplicates(start);
    hide *;
    called := [];
    var end := q.tail;
    if end == null {
      var none := q.Pop();
      return;
    }
    var node := NextTask(q, start, posts, 0, tasks);
    var k := 0;
    while node != end
      invariant k < |start| && node == start[k] && end == start[|start| - 1]
      invariant called == start[..k] && q.Valid() && Popped(q, start, posts, k) && Among(q.nodes, tasks)
      decreases |start| - k
    {
      called := called + [node];
      CallTask(q, start, posts, k, tasks);
      k := k + 1;
      assert start[..k - 1] + [start[k - 1]] == start[..k];
      node := NextTask(q, start, posts, k, tasks);
    }
    OnlyTheLast(start, k);
    called := called + [node];
    assert start[..k] + [start[k]] == start;
    CallTask(q, start, posts, k, tasks);
    assert start[k + 1..] == [];
    EmptyFront(Posted(posts, k + 1));
  }

  lemma EmptyFront(s: seq<ListNode>)
    ensures [] + s == s
  {
  }

  lemma OnlyTheLast(s: seq<ListNode>, k: nat)
    requires NoDuplicates(s) && k < |s| && s[k] == s[|s| - 1]
    ensures k == |s| - 1
  {
  }

  lemma AmongTail(s: seq<ListNode>, tasks: set<ListNode>)
    requires s != [] && Among(s, tasks)
    ensures Among(s[1..], tasks)
  {
  }

  lemma RoundStart(q: Queue, start: seq<ListNode>, posts: seq<seq<ListNode>>)
    requires Postable(q, start, posts)
    ensures |posts| == |start| && Posted(posts, 0) == [] && start == start[0..] + Posted(posts, 0)
  {
  }

  lemma RestOfRound(start: seq<ListNode>, posts: seq<seq<ListNode>>, k: nat)
    requires k < |start| == |posts|
    ensures var s := start[k..] + Posted(posts, k);
            s != [] && s[0] == start[k] && s[1..] == start[k + 1..] + Posted(posts, k)
  {
  }
}
