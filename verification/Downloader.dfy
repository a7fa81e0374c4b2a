/** The block downloader: concurrent fetches, a reorder buffer behind a mutex, blocks
    out in chain order.

    The goroutines are interleaved step by step: the header reader fills a bounded
    queue, the dispatcher takes a permit for each hash and starts a worker, a worker
    fetches, locks the mutex, stores its block, sends whatever is next in order, then
    unlocks and gives its permit back. A worker is named by the height of its block. */
module Downloader {
  import opened Wrappers

  /** The downloader looks at nothing of a block but its height. */
  datatype Block = Block(height: nat, hash: string)

  /** Heights `start` to `tip` of a fixed chain; `limit` permits, also the capacity of
      the output channel; `headers` the capacity of the hash queue. */
  datatype Config = Config(start: nat, tip: int, blockAt: nat -> Block, limit: nat, headers: nat)

  ghost predicate ValidConfig(c: Config) {
    c.start <= c.tip + 1 && c.limit > 0 && c.headers > 0 && forall h: nat :: c.blockAt(h).height == h
  }

  /** What the worker inside the mutex is about to do. */
  datatype Holder =
    | Free
    | Storing(height: nat)
    | Draining
    | Sent(block: Block)
    | Deleted(block: Block)

  datatype State = State(
    nextHeader: nat,
    queue: seq<nat>,
    holding: seq<nat>,
    permits: nat,
    fetching: set<nat>,
    waiting: set<nat>,
    holder: Holder,
    leaving: nat,
    ordering: map<nat, Block>,
    expected: nat,
    out: seq<Block>,
    received: seq<Block>)

  ghost predicate Init(c: Config, s: State) {
    s == State(c.start, [], [], 0, {}, {}, Free, 0, map[], c.start, [], [])
  }

  // -------------------------------------------------------------------- steps

  datatype Step =
    | ReadHeader
    | Take
    | Dispatch
    | Fetch(height: nat)
    | Lock(height: nat)
    | StoreBlock
    | Send
    | Delete
    | Advance
    | Unlock
    | Release
    | Receive

  predicate Enabled(c: Config, s: State, step: Step) {
    match step
    case ReadHeader => s.nextHeader <= c.tip && |s.queue| < c.headers
    case Take => s.holding == [] && s.queue != []
    case Dispatch => s.holding != [] && s.permits < c.limit
    case Fetch(h) => h in s.fetching
    case Lock(h) => h in s.waiting && s.holder.Free?
    case StoreBlock => s.holder.Storing?
    case Send => s.holder.Draining? && s.expected in s.ordering && |s.out| < c.limit
    case Delete => s.holder.Sent?
    case Advance => s.holder.Deleted?
    case Unlock => s.holder.Draining? && s.expected !in s.ordering
    case Release => s.leaving > 0 && s.permits > 0
    case Receive => s.out != []
  }

  function After(s: State, c: Config, step: Step): State
    requires Enabled(c, s, step)
  {
    match step
    case ReadHeader => s.(nextHeader := s.nextHeader + 1, queue := s.queue + [s.nextHeader])
    case Take => s.(holding := [s.queue[0]], queue := s.queue[1..])
    case Dispatch => s.(holding := [], permits := s.permits + 1, fetching := s.fetching + {s.holding[0]})
    case Fetch(h) => s.(fetching := s.fetching - {h}, waiting := s.waiting + {h})
    case Lock(h) => s.(waiting := s.waiting - {h}, holder := Storing(h))
    case StoreBlock =>
      var b := c.blockAt(s.holder.height);
      s.(ordering := s.ordering[b.height := b], holder := Draining)
    case Send => s.(out := s.out + [s.ordering[s.expected]], holder := Sent(s.ordering[s.expected]))
    case Delete => s.(ordering := s.ordering - {s.expected}, holder := Deleted(s.holder.block))
    case Advance => s.(expected := s.holder.block.height + 1, holder := Draining)
    case Unlock => s.(holder := Free, leaving := s.leaving + 1)
    case Release => s.(leaving := s.leaving - 1, permits := s.permits - 1)
    case Receive => s.(out := s.out[1..], received := s.received + [s.out[0]])
  }

  /** A run is a schedule of enabled steps; failed fetches, which are retried and
      change nothing, are left out of it. */
  ghost predicate Run(c: Config, run: seq<State>, steps: seq<Step>) {
    && |run| == |steps| + 1 && Init(c, run[0])
    && forall i :: 0 <= i < |steps| ==> Enabled(c, run[i], steps[i]) && run[i + 1] == After(run[i], c, steps[i])
  }

  // ---------------------------------------------------------------- invariant

  /** The height up to which blocks have been put on the output channel. */
  function SentUpTo(s: State): nat {
    if s.holder.Sent? || s.holder.Deleted? then s.expected + 1 else s.expected
  }

  /** The height up to which workers have been started. */
  function DispatchedUpTo(s: State): int {
    s.nextHeader - |s.queue| - |s.holding|
  }

  /** Exactly the blocks from `start` to before `upTo`, in order. */
  ghost predicate InOrder(c: Config, blocks: seq<Block>, upTo: int) {
    |blocks| == upTo - c.start && forall i :: 0 <= i < |blocks| ==> blocks[i] == c.blockAt(c.start + i)
  }

  function One(b: bool): nat {
    if b then 1 else 0
  }

  /** In how many places a height is: being fetched, waiting for the mutex, being
      stored, or in the reorder buffer. */
  function Places(s: State, h: nat): nat {
    One(h in s.fetching) + One(h in s.waiting) + One(s.holder == Storing(h)) + One(h in s.ordering)
  }

  ghost predicate InvQueue(c: Config, s: State) {
    && s.nextHeader <= c.tip + 1 && |s.queue| <= c.headers && |s.holding| <= 1
    && (forall i :: 0 <= i < |s.queue| ==> s.queue[i] == s.nextHeader - |s.queue| + i)
    && (s.holding != [] ==> s.holding[0] == DispatchedUpTo(s))
  }

  /** Every dispatched height that is not sent yet is in exactly one place, and only
      the block just sent is briefly still in the buffer. */
  ghost predicate InvPlaces(s: State) {
    && SentUpTo(s) <= DispatchedUpTo(s)
    && forall h: nat :: PlacedAt(s, h)
  }

  ghost predicate InvOrder(c: Config, s: State) {
    && InOrder(c, s.received + s.out, SentUpTo(s)) && |s.out| <= c.limit
    && (s.holder.Sent? || s.holder.Deleted? ==> s.holder.block == c.blockAt(s.expected))
    && (s.holder.Sent? ==> s.expected in s.ordering)
    && (s.holder.Free? ==> s.expected !in s.ordering)
    && (forall k :: k in s.ordering ==> s.ordering[k] == c.blockAt(k))
  }

  ghost predicate InvPermits(c: Config, s: State) {
    && s.permits == |s.fetching| + |s.waiting| + One(!s.holder.Free?) + s.leaving
    && s.permits <= c.limit
  }

  ghost predicate Inv(c: Config, s: State) {
    InvQueue(c, s) && InvPlaces(s) && InvOrder(c, s) && InvPermits(c, s)
  }

  lemma QueueKeeps(c: Config, s: State, step: Step)
    requires InvQueue(c, s) && Enabled(c, s, step)
    ensures InvQueue(c, After(s, c, step))
  {
  }

  predicate PlacedAt(s: State, h: nat) {
    Places(s, h) == One(SentUpTo(s) <= h < DispatchedUpTo(s)) + One(s.holder.Sent? && h == s.expected)
  }

  lemma PlaceKeeps(c: Config, s: State, step: Step, h: nat)
    requires ValidConfig(c) && Inv(c, s) && Enabled(c, s, step)
    ensures PlacedAt(After(s, c, step), h)
    ensures step.Send? ==> s.expected < DispatchedUpTo(s)
  {
    assert PlacedAt(s, h) && PlacedAt(s, s.expected);
    match step
    case Fetch(x) => assert PlacedAt(s, x);
    case Lock(x) => assert PlacedAt(s, x);
    case StoreBlock => assert c.blockAt(s.holder.height).height == s.holder.height;
    case Advance => assert c.blockAt(s.expected).height == s.expected;
    case _ =>
  }

  lemma PlacesKeep(c: Config, s: State, step: Step)
    requires ValidConfig(c) && Inv(c, s) && Enabled(c, s, step)
    ensures InvPlaces(After(s, c, step))
  {
    var t := After(s, c, step);
    forall h: nat ensures PlacedAt(t, h) {
      PlaceKeeps(c, s, step, h);
    }
    PlaceKeeps(c, s, step, s.expected);
    assert step.Advance? ==> c.blockAt(s.expected).height == s.expected;
  }

  lemma OrderKeeps(c: Config, s: State, step: Step)
    requires ValidConfig(c) && InvOrder(c, s) && Enabled(c, s, step)
    ensures InvOrder(c, After(s, c, step))
  {
    var t := After(s, c, step);
    if step.Send? {
      assert t.received + t.out == (s.received + s.out) + [s.ordering[s.expected]];
    } else if step.Receive? {
      assert t.received + t.out == s.received + s.out;
    }
  }

  lemma PermitsKeep(c: Config, s: State, step: Step)
    requires Inv(c, s) && Enabled(c, s, step)
    ensures InvPermits(c, After(s, c, step))
  {
    match step
    case Dispatch =>
      var h := s.holding[0];
      assert PlacedAt(s, h);
    case Fetch(h) =>
      assert PlacedAt(s, h);
    case _ =>
  }

  /** Every step of every goroutine keeps the invariant. */
  lemma StepKeeps(c: Config, s: State, step: Step)
    requires ValidConfig(c) && Inv(c, s) && Enabled(c, s, step)
    ensures Inv(c, After(s, c, step))
  {
    QueueKeeps(c, s, step);
    PlacesKeep(c, s, step);
    OrderKeeps(c, s, step);
    PermitsKeep(c, s, step);
  }

  lemma {:induction false} RunKeeps(c: Config, run: seq<State>, steps: seq<Step>, i: nat)
    requires ValidConfig(c) && Run(c, run, steps) && i < |run|
    ensures Inv(c, run[i])
  {
    if i > 0 {
      RunKeeps(c, run, steps, i - 1);
      StepKeeps(c, run[i - 1], steps[i - 1]);
      assert run[i - 1 + 1] == After(run[i - 1], c, steps[i - 1]);
    }
  }

  // ----------------------------------------------------------------- theorems

  /** In-order delivery and bounded concurrency, in every state of every schedule. */
  lemma DeliveredInOrder(c: Config, run: seq<State>, steps: seq<Step>, i: nat)
    requires ValidConfig(c) && Run(c, run, steps) && i < |run|
    ensures var s := run[i];
            InOrder(c, s.received + s.out, SentUpTo(s)) && |s.fetching| + |s.waiting| <= s.permits <= c.limit
  {
    RunKeeps(c, run, steps, i);
  }

  lemma AllSentWhenIdle(c: Config, s: State)
    requires Inv(c, s) && s.fetching == {} && s.waiting == {} && s.holder.Free?
    ensures s.ordering == map[] && s.expected == DispatchedUpTo(s)
  {
    assert PlacedAt(s, s.expected);
    forall k: nat ensures k !in s.ordering {
      assert PlacedAt(s, k);
    }
    assert s.ordering.Keys == {};
  }

  /** No loss: with no download in flight and the mutex free, the reorder buffer is
      empty and every dispatched block has been sent. */
  lemma NothingHeldBack(c: Config, run: seq<State>, steps: seq<Step>, i: nat)
    requires ValidConfig(c) && Run(c, run, steps) && i < |run|
    requires run[i].fetching == {} && run[i].waiting == {} && run[i].holder.Free?
    ensures run[i].ordering == map[] && InOrder(c, run[i].received + run[i].out, DispatchedUpTo(run[i]))
  {
    RunKeeps(c, run, steps, i);
    AllSentWhenIdle(c, run[i]);
  }

  /** Everything up to the tip is received. */
  ghost predicate Finished(c: Config, s: State) {
    InOrder(c, s.received, c.tip + 1)
  }

  lemma MutexHolderCanMove(c: Config, s: State)
    requires ValidConfig(c) && s.out == [] && !s.holder.Free?
    ensures exists step :: Enabled(c, s, step)
  {
    match s.holder
    case Storing(_) => assert Enabled(c, s, StoreBlock);
    case Draining => assert Enabled(c, s, Send) || Enabled(c, s, Unlock);
    case Sent(_) => assert Enabled(c, s, Delete);
    case Deleted(_) => assert Enabled(c, s, Advance);
  }

  /** No deadlock: until everything is received and all permits are back, some step
      is enabled. */
  lemma SomeStepEnabled(c: Config, s: State)
    requires ValidConfig(c) && Inv(c, s)
    requires !(Finished(c, s) && s.permits == 0)
    ensures exists step :: Enabled(c, s, step)
  {
    if s.out != [] {
      assert Enabled(c, s, Receive);
    } else if s.leaving > 0 {
      assert Enabled(c, s, Release);
    } else if !s.holder.Free? {
      MutexHolderCanMove(c, s);
    } else if s.fetching != {} {
      var h :| h in s.fetching;
      assert Enabled(c, s, Fetch(h));
    } else if s.waiting != {} {
      var h :| h in s.waiting;
      assert Enabled(c, s, Lock(h));
    } else {
      if s.holding != [] {
        assert Enabled(c, s, Dispatch);
      } else if s.queue != [] {
        assert Enabled(c, s, Take);
      } else {
        AllSentWhenIdle(c, s);
        assert s.received + s.out == s.received;
        assert Enabled(c, s, ReadHeader);
      }
    }
  }

  function HolderWork(holder: Holder): nat {
    match holder
    case Free => 0
    case Storing(_) => 7
    case Draining => 2
    case Sent(_) => 0
    case Deleted(_) => 3
  }

  /** The work left: how far each block still has to go, whoever carries it. */
  function Work(c: Config, s: State): int {
    12 * (c.tip + 1 - s.nextHeader) + 11 * |s.queue| + 10 * |s.holding| + 9 * |s.fetching| + 8 * |s.waiting|
    + HolderWork(s.holder) + 4 * |s.ordering| + s.leaving + |s.out|
  }

  lemma CardAdd(a: set<nat>, h: nat)
    ensures h in a ==> |a - {h}| == |a| - 1
    ensures |a + {h}| <= |a| + 1
  {
    if h !in a {
      assert |a + {h}| == |a| + 1;
    }
  }

  lemma OrderingCard(m: map<nat, Block>, h: nat, b: Block)
    ensures |m[h := b]| <= |m| + 1
    ensures h in m ==> |m - {h}| == |m| - 1
  {
    assert m[h := b].Keys == m.Keys + {h} && (m - {h}).Keys == m.Keys - {h};
    assert |m| == |m.Keys| && |m[h := b]| == |m[h := b].Keys| && |m - {h}| == |(m - {h}).Keys|;
    CardAdd(m.Keys, h);
  }

  /** A step that only moves a height between the sets of workers. */
  lemma SetStepIsProgress(c: Config, s: State, step: Step)
    requires Enabled(c, s, step) && (step.Dispatch? || step.Fetch? || step.Lock?)
    ensures Work(c, After(s, c, step)) < Work(c, s)
  {
    match step
    case Dispatch => CardAdd(s.fetching, s.holding[0]);
    case Fetch(h) =>
      CardAdd(s.fetching, h);
      CardAdd(s.waiting, h);
    case Lock(h) => CardAdd(s.waiting, h);
  }

  /** Every step of every goroutine is progress. */
  lemma StepIsProgress(c: Config, s: State, step: Step)
    requires Enabled(c, s, step) && (s.holder.Sent? ==> s.expected in s.ordering)
    ensures Work(c, After(s, c, step)) < Work(c, s)
  {
    if step.Dispatch? || step.Fetch? || step.Lock? {
      SetStepIsProgress(c, s, step);
    } else if step.StoreBlock? {
      var b := c.blockAt(s.holder.height);
      OrderingCard(s.ordering, b.height, b);
    } else if step.Delete? {
      OrderingCard(s.ordering, s.expected, s.holder.block);
    }
  }

  /** No schedule goes on longer than the work there was at the start. */
  lemma {:induction false} SchedulesAreBounded(c: Config, run: seq<State>, steps: seq<Step>, i: nat)
    requires ValidConfig(c) && Run(c, run, steps) && i < |run|
    ensures Work(c, run[i]) <= 12 * (c.tip + 1 - c.start) - i
  {
    hide After, Enabled, InvPermits, InvQueue;
    if i > 0 {
      SchedulesAreBounded(c, run, steps, i - 1);
      RunKeeps(c, run, steps, i - 1);
      StepIsProgress(c, run[i - 1], steps[i - 1]);
      assert run[i - 1 + 1] == After(run[i - 1], c, steps[i - 1]);
    }
  }

  /** Total correctness of every schedule: it takes at most twelve steps a block, and
      if it stops only when no step is enabled it has delivered every block in order
      and returned every permit. */
  lemma EveryScheduleDelivers(c: Config, run: seq<State>, steps: seq<Step>)
    requires ValidConfig(c) && Run(c, run, steps)
    ensures |steps| <= 12 * (c.tip + 1 - c.start)
    ensures (forall step :: !Enabled(c, run[|steps|], step)) ==>
              Finished(c, run[|steps|]) && run[|steps|].permits == 0
  {
    SchedulesAreBounded(c, run, steps, |steps|);
    RunKeeps(c, run, steps, |steps|);
    assert Work(c, run[|steps|]) >= 0;
    if !(Finished(c, run[|steps|]) && run[|steps|].permits == 0) {
      SomeStepEnabled(c, run[|steps|]);
    }
  }

  // ------------------------------------------- the code inside the mutex

  /** Where a schedule leads, if each of its steps is enabled when it is taken. */
  function Reach(c: Config, s: State, steps: seq<Step>): Option<State> {
    var n := |steps| - 1;
    if n < 0 then Some(s)
    else
      match Reach(c, s, steps[..n])
      case Some(m) => if Enabled(c, m, steps[n]) then Some(After(m, c, steps[n])) else None
      case None => None
  }

  /** The steps of a schedule that the consumer does not take. */
  function Own(steps: seq<Step>): seq<Step> {
    var n := |steps| - 1;
    if n < 0 then [] else if steps[n] == Receive then Own(steps[..n]) else Own(steps[..n]) + [steps[n]]
  }

  /** `k` turns of the draining loop. */
  function Turns(k: nat): seq<Step> {
    if k == 0 then [] else Turns(k - 1) + [Send, Delete, Advance]
  }

  lemma FirstStep(c: Config, s: State)
    requires Enabled(c, s, StoreBlock)
    ensures Reach(c, s, [StoreBlock]) == Some(After(s, c, StoreBlock)) && Own([StoreBlock]) == [StoreBlock] + Turns(0)
  {
    assert [StoreBlock][..0] == [];
  }

  lemma OneTurnMore(k: nat)
    ensures [StoreBlock] + Turns(k + 1) == [StoreBlock] + Turns(k) + [Send, Delete, Advance]
  {
  }

  lemma OneMore(c: Config, s: State, steps: seq<Step>, m: State, step: Step)
    requires Reach(c, s, steps) == Some(m) && Enabled(c, m, step)
    ensures Reach(c, s, steps + [step]) == Some(After(m, c, step))
    ensures Own(steps + [step]) == if step == Receive then Own(steps) else Own(steps) + [step]
  {
    assert (steps + [step])[..|steps|] == steps;
  }

  /** The state the workers share, as one of them sees it between Lock and Unlock. */
  class Sequencer {
    ghost const config: Config
    var ordering: map<nat, Block>
    var expected: nat
    var sent: seq<Block>

    ghost predicate Valid()
      reads this
    {
      && ValidConfig(config)
      && InOrder(config, sent, expected)
      && (forall k :: k in ordering ==> expected <= k && ordering[k] == config.blockAt(k))
    }

    /** The same state in the machine of all goroutines. */
    ghost predicate Is(s: State)
      reads this
    {
      s.ordering == ordering && s.expected == expected && s.received + s.out == sent
    }

    constructor (ghost config: Config, start: nat)
      requires ValidConfig(config) && start == config.start
      ensures Valid() && this.config == config && ordering == map[] && expected == start && sent == []
    {
      this.config := config;
      ordering, expected, sent := map[], start, [];
    }

    /** Stores a downloaded block and sends everything that is now next in order. A
        height is sent or buffered afterwards exactly if it was before or is the
        block's, and what is next is not in the buffer. In the machine of all
        goroutines this is a schedule in which the worker stores the block, makes one
        turn for each block it sends, and unlocks, while the consumer only receives. */
    method Deliver(block: Block, ghost s: State) returns (ghost steps: seq<Step>, ghost s': State)
      requires Valid() && block == config.blockAt(block.height) && expected <= block.height
      requires Is(s) && s.holder == Storing(block.height)
      modifies this
      ensures Valid() && old(sent) <= sent
      ensures forall h: nat :: h < expected || h in ordering <==>
                old(h < expected || h in ordering) || h == block.height
      ensures expected !in ordering
      ensures Is(s') && s'.holder == Free && Reach(config, s, steps) == Some(s')
      ensures Own(steps) == [StoreBlock] + Turns(|sent| - |old(sent)|) + [Unlock]
    {
      hide Reach, Own, Turns;
      FirstStep(config, s);
      steps, s' := [StoreBlock], After(s, config, StoreBlock);
      ordering := ordering[block.height := block];
      while expected in ordering
        invariant Valid() && old(sent) <= sent
        invariant forall h: nat :: h < expected || h in ordering <==>
                    old(h < expected || h in ordering) || h == block.height
        invariant Is(s') && s'.holder == Draining && Reach(config, s, steps) == Some(s')
        invariant Own(steps) == [StoreBlock] + Turns(|sent| - |old(sent)|)
        decreases |ordering|
      {
        OneTurnMore(|sent| - |old(sent)|);
        steps, s' := SendNext(s, steps, s');
      }
      OneMore(config, s, steps, s', Unlock);
      steps, s' := steps + [Unlock], After(s', config, Unlock);
    }

    /** Sends the block that is next in order and takes it out of the buffer. */
    method SendNext(ghost s: State, ghost steps0: seq<Step>, ghost s0: State)
      returns (ghost steps: seq<Step>, ghost s': State)
      requires Valid() && expected in ordering
      requires Is(s0) && s0.holder == Draining && Reach(config, s, steps0) == Some(s0)
      modifies this
      ensures Valid() && |sent| == |old(sent)| + 1 && old(sent) <= sent && |ordering| < old(|ordering|)
      ensures forall h: nat :: h < expected || h in ordering <==> old(h < expected || h in ordering)
      ensures Is(s') && s'.holder == Draining && Reach(config, s, steps) == Some(s')
      ensures Own(steps) == Own(steps0) + [Send, Delete, Advance]
    {
      hide Reach, Own, Turns, Enabled;
      steps, s' := Turn(config, s, steps0, s0);
      var next := ordering[expected];
      OrderingCard(ordering, expected, next);
      sent := sent + [next];
      ordering := ordering - {expected};
      expected := next.height + 1;
    }
  }

  /** The same turn in the machine; when the channel is full the consumer receives first. */
  lemma Turn(c: Config, s: State, steps0: seq<Step>, s0: State) returns (steps: seq<Step>, s': State)
    requires ValidConfig(c) && s0.holder == Draining && s0.expected in s0.ordering
    requires Reach(c, s, steps0) == Some(s0)
    ensures Reach(c, s, steps) == Some(s') && Own(steps) == Own(steps0) + [Send, Delete, Advance]
    ensures var b := s0.ordering[s0.expected];
            && s'.holder == Draining && s'.ordering == s0.ordering - {s0.expected} && s'.expected == b.height + 1
            && s'.received + s'.out == s0.received + s0.out + [b]
  {
    steps, s' := MakeRoom(c, s, steps0, s0);
    OneMore(c, s, steps, s', Send);
    steps, s' := steps + [Send], After(s', c, Send);
    OneMore(c, s, steps, s', Delete);
    steps, s' := steps + [Delete], After(s', c, Delete);
    OneMore(c, s, steps, s', Advance);
    steps, s' := steps + [Advance], After(s', c, Advance);
  }

  lemma MakeRoom(c: Config, s: State, steps0: seq<Step>, s0: State) returns (steps: seq<Step>, s': State)
    requires ValidConfig(c) && Reach(c, s, steps0) == Some(s0)
    ensures Reach(c, s, steps) == Some(s') && Own(steps) == Own(steps0) && |s'.out| < c.limit
    ensures s' == s0.(out := s'.out, received := s'.received) && s'.received + s'.out == s0.received + s0.out
    decreases |s0.out|
  {
    if |s0.out| < c.limit {
      return steps0, s0;
    }
    OneMore(c, s, steps0, s0, Receive);
    var s1 := After(s0, c, Receive);
    assert s1.received + s1.out == s0.received + s0.out;
    steps, s' := MakeRoom(c, s, steps0 + [Receive], s1);
  }
}
