/**
 The lock-free circular queue with one producer and one consumer. Every atomic operation of `queue` and `deque` is
 one step; a run is any interleaving of the two threads' steps.
 */
module LockFreeQueue {
  import opened Arithmetic

  /** Where the producer is inside `queue(node)`: the name says what was done last. */
  datatype Producer<T> =
    | PIdle
    | PRefused                       // writeableCnt was not positive; it is to be given back
    | PReserved(node: T)
    | PWrapped(node: T)              // tail was set back to 0 if it was at the end
    | PSlot(node: T, pos: nat)
    | PStored(node: T)

  /** Where the consumer is inside `deque(node)`. */
  datatype Consumer<T> =
    | CIdle
    | CRefused
    | CReserved
    | CWrapped
    | CSlot(pos: nat)
    | CLoaded(node: T)

  /** The shared variables, the two threads, and all the nodes stored and loaded so far. */
  datatype State<T> = State(
    q: seq<T>, head: int, tail: int, readableCnt: int, writeableCnt: int,
    producer: Producer<T>, consumer: Consumer<T>,
    stored: seq<T>, loaded: seq<T>)

  datatype Action<T> = Produce(node: T) | Consume

  function Initial<T>(q: seq<T>): (s: State<T>) {
    State(q, 0, 0, 0, |q|, PIdle, CIdle, [], [])
  }

  /** The producer's next atomic step; `node` is used when a new call starts. */
  function ProducerStep<T>(s: State<T>, node: T): (s': State<T>)
    requires 0 < |s.q|
  {
    match s.producer
    case PIdle =>
      s.(writeableCnt := s.writeableCnt - 1, producer := if s.writeableCnt <= 0 then PRefused else PReserved(node))
    case PRefused => s.(writeableCnt := s.writeableCnt + 1, producer := PIdle)
    case PReserved(v) => s.(tail := if s.tail == |s.q| then 0 else s.tail, producer := PWrapped(v))
    case PWrapped(v) => s.(tail := s.tail + 1, producer := PSlot(v, s.tail % |s.q|))
    case PSlot(v, pos) =>
      if pos < |s.q| then s.(q := s.q[pos := v], producer := PStored(v), stored := s.stored + [v]) else s
    case PStored(v) => s.(readableCnt := s.readableCnt + 1, producer := PIdle)
  }

  function ConsumerStep<T>(s: State<T>): (s': State<T>)
    requires 0 < |s.q|
  {
    match s.consumer
    case CIdle =>
      s.(readableCnt := s.readableCnt - 1, consumer := if s.readableCnt <= 0 then CRefused else CReserved)
    case CRefused => s.(readableCnt := s.readableCnt + 1, consumer := CIdle)
    case CReserved => s.(head := if s.head == |s.q| then 0 else s.head, consumer := CWrapped)
    case CWrapped => s.(head := s.head + 1, consumer := CSlot(s.head % |s.q|))
    case CSlot(pos) =>
      if pos < |s.q| then s.(consumer := CLoaded(s.q[pos]), loaded := s.loaded + [s.q[pos]]) else s
    case CLoaded(v) => s.(writeableCnt := s.writeableCnt + 1, consumer := CIdle)
  }

  function Step<T>(s: State<T>, a: Action<T>): (s': State<T>)
    requires 0 < |s.q|
  {
    match a case Produce(node) => ProducerStep(s, node) case Consume => ConsumerStep(s)
  }

  function Run<T>(s: State<T>, actions: seq<Action<T>>): (s': State<T>)
    requires 0 < |s.q|
    ensures |s'.q| == |s.q|
    decreases |actions|
  {
    if actions == [] then s else Step(Run(s, actions[..|actions| - 1]), actions[|actions| - 1])
  }

  // ----- The invariant -----

  /** Nodes that have a place reserved: stored, or about to be. */
  function Reserved<T>(s: State<T>): (n: nat) {
    |s.stored| + if s.producer.PReserved? || s.producer.PWrapped? || s.producer.PSlot? then 1 else 0
  }

  /** Nodes announced to the consumer. */
  function Published<T>(s: State<T>): (n: int) { |s.stored| - if s.producer.PStored? then 1 else 0 }

  /** Nodes the consumer has claimed: loaded, or about to be. */
  function Claimed<T>(s: State<T>): (n: nat) {
    |s.loaded| + if s.consumer.CReserved? || s.consumer.CWrapped? || s.consumer.CSlot? then 1 else 0
  }

  /** Places given back to the producer. */
  function Released<T>(s: State<T>): (n: int) { |s.loaded| - if s.consumer.CLoaded? then 1 else 0 }

  /** A cursor that has been advanced n times; it stands at the end until the next wrap. */
  ghost predicate Cursor(at: int, n: nat, size: nat)
    requires 0 < size
  {
    0 <= at <= size && (if at == size then n % size == 0 else at == n % size)
  }

  /** Between `loaded` and `stored`, every slot holds the node stored for it. */
  ghost predicate Slots<T>(q: seq<T>, loaded: nat, stored: seq<T>)
    requires 0 < |q|
  {
    forall k :: loaded <= k < |stored| ==> q[k % |q|] == stored[k]
  }

  ghost predicate Invariant<T>(s: State<T>)
    requires 0 < |s.q|
  {
    var size := |s.q|;
    && s.writeableCnt == size - Reserved(s) + Released(s) - (if s.producer.PRefused? then 1 else 0)
    && s.readableCnt == Published(s) - Claimed(s) - (if s.consumer.CRefused? then 1 else 0)
    && Reserved(s) <= size + Released(s)
    && Claimed(s) <= Published(s)
    && Cursor(s.tail, |s.stored| + (if s.producer.PSlot? then 1 else 0), size)
    && Cursor(s.head, |s.loaded| + (if s.consumer.CSlot? then 1 else 0), size)
    && (s.producer.PWrapped? ==> s.tail < size)
    && (s.consumer.CWrapped? ==> s.head < size)
    && (s.producer.PSlot? ==> s.producer.pos == |s.stored| % size)
    && (s.consumer.CSlot? ==> s.consumer.pos == |s.loaded| % size)
    && s.loaded <= s.stored
    && Slots(s.q, |s.loaded|, s.stored)
  }

  lemma CursorNext(at: int, k: nat, size: nat)
    requires 0 < size && Cursor(at, k, size) && at < size
    ensures Cursor(at + 1, k + 1, size) && at % size == k % size
  {
    ModNext(k, size);
    DivModUnique(at, size, 0, at);
  }

  lemma StoreKeepsSlots<T>(q: seq<T>, loaded: nat, stored: seq<T>, pos: nat, v: T)
    requires 0 < |q| && Slots(q, loaded, stored)
    requires loaded <= |stored| < loaded + |q| && pos == |stored| % |q| && pos < |q|
    ensures Slots(q[pos := v], loaded, stored + [v])
  {
    forall k | loaded <= k < |stored| ensures k % |q| != pos {
      ModDistinct(k, |stored|, |q|);
    }
  }

  lemma LoadKeepsSlots<T>(q: seq<T>, loaded: nat, stored: seq<T>)
    requires 0 < |q| && Slots(q, loaded, stored) && loaded < |stored|
    ensures Slots(q, loaded + 1, stored) && q[loaded % |q|] == stored[loaded]
  {
  }

  lemma CursorWraps(at: int, n: nat, size: nat)
    requires 0 < size && Cursor(at, n, size)
    ensures var at' := if at == size then 0 else at; Cursor(at', n, size) && at' < size
  {
  }

  lemma ProducerKeeps<T>(s: State<T>, node: T)
    requires 0 < |s.q| && Invariant(s)
    ensures Invariant(ProducerStep(s, node))
  {
    hide Slots;
    hide Cursor;
    var size := |s.q|;
    match s.producer
    case PReserved(_) => CursorWraps(s.tail, |s.stored|, size);
    case PWrapped(_) => CursorNext(s.tail, |s.stored|, size);
    case PSlot(v, pos) => StoreKeepsSlots(s.q, |s.loaded|, s.stored, pos, v);
    case _ =>
  }

  lemma ConsumerKeeps<T>(s: State<T>)
    requires 0 < |s.q| && Invariant(s)
    ensures Invariant(ConsumerStep(s))
  {
    hide Slots;
    hide Cursor;
    match s.consumer
    case CReserved => CursorWraps(s.head, |s.loaded|, |s.q|);
    case CWrapped => CursorNext(s.head, |s.loaded|, |s.q|);
    case CSlot(pos) =>
      LoadKeepsSlots(s.q, |s.loaded|, s.stored);
      assert s.loaded + [s.q[pos]] == s.stored[..|s.loaded| + 1];
    case _ =>
  }

  lemma {:induction false} RunKeeps<T>(q: seq<T>, actions: seq<Action<T>>)
    requires 0 < |q|
    ensures Invariant(Run(Initial(q), actions))
    decreases |actions|
  {
    if actions != [] {
      RunKeeps(q, actions[..|actions| - 1]);
      var s, a := Run(Initial(q), actions[..|actions| - 1]), actions[|actions| - 1];
      match a
      case Produce(node) => ProducerKeeps(s, node);
      case Consume => ConsumerKeeps(s);
    }
  }

  // ----- What every run keeps -----

  /**
   In every interleaving the nodes loaded are a prefix of the nodes stored. A call that has stored or loaded a node, and
   has not ended, holds the last one.
   */
  lemma LoadedIsPrefixOfStored<T>(q: seq<T>, actions: seq<Action<T>>)
    requires 0 < |q|
    ensures var s := Run(Initial(q), actions);
            && s.loaded <= s.stored && |s.stored| <= |s.loaded| + |q|
            && (s.producer.PStored? ==> s.stored != [] && s.stored[|s.stored| - 1] == s.producer.node)
            && (s.consumer.CLoaded? ==> s.loaded != [] && s.loaded[|s.loaded| - 1] == s.consumer.node)
  {
    RunKeeps(q, actions);
    CallsAreLogged(q, actions);
    StoredIsHeld(q, actions);
  }

  lemma {:induction false} StoredIsHeld<T>(q: seq<T>, actions: seq<Action<T>>)
    requires 0 < |q|
    ensures var s := Run(Initial(q), actions);
            s.producer.PStored? ==> s.stored != [] && s.stored[|s.stored| - 1] == s.producer.node
    decreases |actions|
  {
    if actions != [] { StoredIsHeld(q, actions[..|actions| - 1]); }
  }

  /** A slot about to be written holds no node that is still to be loaded; one about to be read holds the next such node. */
  lemma SlotsAreSafe<T>(q: seq<T>, actions: seq<Action<T>>)
    requires 0 < |q|
    ensures var s := Run(Initial(q), actions);
            && (s.producer.PSlot? ==>
                  s.producer.pos < |q| && forall k {:trigger s.stored[k]} :: |s.loaded| <= k < |s.stored| ==> k % |q| != s.producer.pos)
            && (s.consumer.CSlot? ==>
                  && s.consumer.pos < |q| && |s.loaded| < |s.stored|
                  && s.q[s.consumer.pos] == s.stored[|s.loaded|])
  {
    var s := Run(Initial(q), actions);
    RunKeeps(q, actions);
    if s.producer.PSlot? {
      forall k | |s.loaded| <= k < |s.stored| ensures k % |q| != s.producer.pos {
        ModDistinct(k, |s.stored|, |q|);
      }
    }
  }

  /** The two threads never touch the same slot at the same time. */
  lemma NoRace<T>(q: seq<T>, actions: seq<Action<T>>)
    requires 0 < |q|
    ensures var s := Run(Initial(q), actions);
            s.producer.PSlot? && s.consumer.CSlot? ==> s.producer.pos != s.consumer.pos
  {
    SlotsAreSafe(q, actions);
    RunKeeps(q, actions);
    var s := Run(Initial(q), actions);
    assert s.producer.PSlot? && s.consumer.CSlot? ==> s.stored[|s.loaded|] == s.stored[|s.loaded|];
  }

  /** The two counters and the operations in flight account for every slot. */
  lemma CountersAccountForSize<T>(q: seq<T>, actions: seq<Action<T>>)
    requires 0 < |q|
    ensures var s := Run(Initial(q), actions);
            s.writeableCnt + s.readableCnt + (if s.producer.PIdle? then 0 else 1) + (if s.consumer.CIdle? then 0 else 1) == |q|
  {
    RunKeeps(q, actions);
  }

  /**
   A call is refused only for a reason: `queue` when no slot is free (one whose node has just been loaded may not
   have been given back yet), `deque` when no node is waiting (one just stored may not have been announced yet).
   */
  lemma RefusalsAreJustified<T>(q: seq<T>, actions: seq<Action<T>>, node: T)
    requires 0 < |q|
    ensures var s := Run(Initial(q), actions);
            && (s.producer.PIdle? ==>
                  (ProducerStep(s, node).producer.PRefused? <==>
                   |s.stored| - |s.loaded| + (if s.consumer.CLoaded? then 1 else 0) == |q|))
            && (s.consumer.CIdle? ==>
                  (ConsumerStep(s).consumer.CRefused? <==>
                   |s.stored| - (if s.producer.PStored? then 1 else 0) == |s.loaded|))
  {
    RunKeeps(q, actions);
  }

  // ----- What the callers see -----

  /** The nodes with which `queue` was called and not refused, in the order of the calls. */
  function Accepted<T>(q: seq<T>, actions: seq<Action<T>>): (r: seq<T>)
    requires 0 < |q|
    decreases |actions|
  {
    if actions == [] then []
    else
      var before, a := actions[..|actions| - 1], actions[|actions| - 1];
      var s := Run(Initial(q), before);
      Accepted(q, before) + if a.Produce? && s.producer.PIdle? && !Step(s, a).producer.PRefused? then [a.node] else []
  }

  /** The nodes with which calls of `deque` have ended. */
  function Returned<T>(q: seq<T>, actions: seq<Action<T>>): (r: seq<T>)
    requires 0 < |q|
    decreases |actions|
  {
    if actions == [] then []
    else
      var before, a := actions[..|actions| - 1], actions[|actions| - 1];
      var s := Run(Initial(q), before);
      Returned(q, before) + if a.Consume? && s.consumer.CLoaded? then [s.consumer.node] else []
  }

  /** How many calls of `queue` have ended without a refusal. */
  function Ended<T>(q: seq<T>, actions: seq<Action<T>>): (n: nat)
    requires 0 < |q|
    decreases |actions|
  {
    if actions == [] then 0
    else
      var before, a := actions[..|actions| - 1], actions[|actions| - 1];
      Ended(q, before) + if a.Produce? && Run(Initial(q), before).producer.PStored? then 1 else 0
  }

  /** The node of a call that has a place but has not been stored. */
  function ToStore<T>(p: Producer<T>): (r: seq<T>) {
    match p
    case PReserved(v) => [v]
    case PWrapped(v) => [v]
    case PSlot(v, _) => [v]
    case _ => []
  }

  /** The node of a call that has loaded it but has not returned. */
  function ToReturn<T>(c: Consumer<T>): (r: seq<T>) { if c.CLoaded? then [c.node] else [] }

  lemma ProducerLogs<T>(s: State<T>, node: T)
    requires 0 < |s.q| && (s.producer.PSlot? ==> s.producer.pos < |s.q|)
    ensures var s' := ProducerStep(s, node);
            && s'.loaded == s.loaded && s'.consumer == s.consumer
            && s'.stored + ToStore(s'.producer) ==
                 s.stored + ToStore(s.producer) + (if s.producer.PIdle? && !s'.producer.PRefused? then [node] else [])
            && |s'.stored| - (if s'.producer.PStored? then 1 else 0) == |s.stored|
  {
  }

  lemma ConsumerLogs<T>(s: State<T>)
    requires 0 < |s.q| && (s.consumer.CSlot? ==> s.consumer.pos < |s.q|)
    ensures var s' := ConsumerStep(s);
            && s'.stored == s.stored && s'.producer == s.producer
            && s'.loaded == s.loaded + ToReturn(s'.consumer)
  {
  }

  /** The calls account for everything stored and loaded. */
  lemma {:induction false} CallsAreLogged<T>(q: seq<T>, actions: seq<Action<T>>)
    requires 0 < |q|
    ensures var s := Run(Initial(q), actions);
            && Accepted(q, actions) == s.stored + ToStore(s.producer)
            && s.loaded == Returned(q, actions) + ToReturn(s.consumer)
            && Ended(q, actions) + (if s.producer.PStored? then 1 else 0) == |s.stored|
    decreases |actions|
  {
    if actions != [] {
      var before, a := actions[..|actions| - 1], actions[|actions| - 1];
      var s := Run(Initial(q), before);
      CallsAreLogged(q, before);
      RunKeeps(q, before);
      assert s.producer.PSlot? ==> s.producer.pos < |s.q|;
      assert s.consumer.CSlot? ==> s.consumer.pos < |s.q|;
      hide Invariant;
      hide ProducerStep;
      hide ConsumerStep;
      hide ToStore;
      match a
      case Produce(node) =>
        ProducerLogs(s, node);
        assert Returned(q, actions) == Returned(q, before) + [];
      case Consume =>
        ConsumerLogs(s);
        assert Accepted(q, actions) == Accepted(q, before) + [];
    }
  }

  /**
   First in, first out, for the callers: in every interleaving the nodes that `deque` has given are the first ones that
   `queue` accepted, in that order, and at most `size` are outstanding.
   */
  lemma FirstInFirstOut<T>(q: seq<T>, actions: seq<Action<T>>)
    requires 0 < |q|
    ensures Returned(q, actions) <= Accepted(q, actions) && |Accepted(q, actions)| <= |Returned(q, actions)| + |q|
  {
    CallsAreLogged(q, actions);
    RunKeeps(q, actions);
  }

  /**
   What a new call is answered, by the calls before it: `queue` is refused exactly when `size` accepted nodes have not
   been given, `deque` exactly when every node whose call has ended has been given.
   */
  lemma RefusedIff<T>(q: seq<T>, actions: seq<Action<T>>, node: T)
    requires 0 < |q|
    ensures var s := Run(Initial(q), actions);
            && (s.producer.PIdle? ==>
                  (ProducerStep(s, node).producer.PRefused? <==> |Accepted(q, actions)| == |Returned(q, actions)| + |q|))
            && (s.consumer.CIdle? ==>
                  (ConsumerStep(s).consumer.CRefused? <==> Ended(q, actions) == |Returned(q, actions)|))
  {
    CallsAreLogged(q, actions);
    RunKeeps(q, actions);
  }
}
