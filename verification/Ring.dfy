/** The multi-producer multi-consumer ring of ring.c, as steps of any number of threads over
    sequentially consistent memory.

    `Step32` is the program on its 32-bit counters.  `Step` is the same program carrying the
    indices that the counters stand for, unbounded, but still deciding everything on their last 32
    bits; a history of what was pushed and taken goes with it. */
module Ring {
  import opened Bits
  import opened Tiling

  const WORD := 0x1_0000_0000

  function Wrap(x: int): (w: nat)
    ensures w < WORD
  {
    x % WORD
  }

  type Val = int

  /** Where a thread is: `at` is the head it read, `i` and `got` the part of the copy done so far.  A thread
      outside a call has the answer of its last one: the number returned, and what a pop filled in. */
  datatype Thread =
    | Idle(ret: int, got: seq<Val>)
    | PushHead(vals: seq<Val>)
    | PushRoom(vals: seq<Val>, at: nat)
    | PushCas(vals: seq<Val>, at: nat)
    | PushCopy(vals: seq<Val>, at: nat, i: nat)
    | PushWait(vals: seq<Val>, at: nat)
    | PushTail(vals: seq<Val>, at: nat)
    | PushCount(vals: seq<Val>)
    | PopHead(n: nat)
    | PopRoom(n: nat, at: nat)
    | PopCas(n: nat, at: nat)
    | PopCopy(n: nat, at: nat, got: seq<Val>)
    | PopWait(n: nat, at: nat, got: seq<Val>)
    | PopTail(n: nat, at: nat, got: seq<Val>)
    | PopCount(n: nat, got: seq<Val>)

  /** A thread that made no call yet, or pushed as it was asked to. */
  const NEW := Idle(0, [])

  /** What an idle thread asks for next. */
  datatype Request = Push(vals: seq<Val>) | Pop(n: nat)

  /** The shared memory. */
  datatype Memory = Memory(
    max: nat,
    prodHead: nat, prodTail: nat,
    consHead: nat, consTail: nat,
    num: int,
    data: seq<Val>)

  datatype State = State(m: Memory, threads: seq<Thread>)

  ghost predicate Shaped(m: Memory) {
    IsPow2(m.max) && m.max <= 0x4000_0000 && |m.data| == m.max
  }

  /** The slot of a counter value: `index & mask`. */
  function Slot(max: nat, x: nat): (k: nat)
    requires IsPow2(max)
    ensures k < max && k == x % max
  {
    MaskIsMod(max, x);
    And(x, max - 1)
  }

  lemma MaskIsMod(max: nat, x: nat)
    requires IsPow2(max)
    ensures And(x, max - 1) == x % max
  {
    var k: nat :| max == Pow2(k);
    AndMask(x, k);
  }

  function Start(r: Request): Thread {
    match r
    case Push(vals) => PushHead(vals)
    case Pop(n) => PopHead(n)
  }

  /** The next step of a thread on 32-bit counters: one read, write or compare-and-set of shared
      memory, and where the thread is afterwards.  An idle thread starts on its next request. */
  function Act32(m: Memory, th: Thread, r: Request): (Memory, Thread)
    requires Shaped(m)
  {
    match th
    case Idle(_, _) => (m, Start(r))
    case PushHead(vals) => (m, PushRoom(vals, m.prodHead))
    case PushRoom(vals, at) => (m, if |vals| > Wrap(m.max + m.consTail - at) then Idle(-1, []) else PushCas(vals, at))
    case PushCas(vals, at) =>
      if m.prodHead == at then (m.(prodHead := Wrap(at + |vals|)), PushCopy(vals, at, 0)) else (m, PushHead(vals))
    case PushCopy(vals, at, i) =>
      if i < |vals| then (m.(data := m.data[Slot(m.max, Wrap(at + i)) := vals[i]]), PushCopy(vals, at, i + 1))
      else (m, PushWait(vals, at))
    case PushWait(vals, at) => if m.prodTail == at then (m, PushTail(vals, at)) else (m, th)
    case PushTail(vals, at) => (m.(prodTail := Wrap(at + |vals|)), PushCount(vals))
    case PushCount(vals) => (m.(num := Wrap(m.num + |vals|)), Idle(0, []))
    case PopHead(n) => (m, PopRoom(n, m.consHead))
    case PopRoom(n, at) => (m, if n > Wrap(m.prodTail - at) then Idle(0, []) else PopCas(n, at))
    case PopCas(n, at) =>
      if m.consHead == at then (m.(consHead := Wrap(at + n)), PopCopy(n, at, [])) else (m, PopHead(n))
    case PopCopy(n, at, got) =>
      if |got| < n then (m, PopCopy(n, at, got + [m.data[Slot(m.max, Wrap(at + |got|))]]))
      else (m, PopWait(n, at, got))
    case PopWait(n, at, got) => if m.consTail == at then (m, PopTail(n, at, got)) else (m, th)
    case PopTail(n, at, got) => (m.(consTail := Wrap(at + n)), PopCount(n, got))
    case PopCount(n, got) => (m.(num := Wrap(m.num - n)), Idle(n, got))
  }

  /** The same step on the indices behind the counters. */
  function Act(m: Memory, th: Thread, r: Request): (Memory, Thread)
    requires Shaped(m)
  {
    match th
    case Idle(_, _) => (m, Start(r))
    case PushHead(vals) => (m, PushRoom(vals, m.prodHead))
    case PushRoom(vals, at) => (m, if |vals| > Wrap(m.max + m.consTail - at) then Idle(-1, []) else PushCas(vals, at))
    case PushCas(vals, at) =>
      if Wrap(m.prodHead) == Wrap(at) then (m.(prodHead := at + |vals|), PushCopy(vals, at, 0)) else (m, PushHead(vals))
    case PushCopy(vals, at, i) =>
      if i < |vals| then (m.(data := m.data[Slot(m.max, Wrap(at + i)) := vals[i]]), PushCopy(vals, at, i + 1))
      else (m, PushWait(vals, at))
    case PushWait(vals, at) => if Wrap(m.prodTail) == Wrap(at) then (m, PushTail(vals, at)) else (m, th)
    case PushTail(vals, at) => (m.(prodTail := at + |vals|), PushCount(vals))
    case PushCount(vals) => (m.(num := m.num + |vals|), Idle(0, []))
    case PopHead(n) => (m, PopRoom(n, m.consHead))
    case PopRoom(n, at) => (m, if n > Wrap(m.prodTail - at) then Idle(0, []) else PopCas(n, at))
    case PopCas(n, at) =>
      if Wrap(m.consHead) == Wrap(at) then (m.(consHead := at + n), PopCopy(n, at, [])) else (m, PopHead(n))
    case PopCopy(n, at, got) =>
      if |got| < n then (m, PopCopy(n, at, got + [m.data[Slot(m.max, Wrap(at + |got|))]]))
      else (m, PopWait(n, at, got))
    case PopWait(n, at, got) => if Wrap(m.consTail) == Wrap(at) then (m, PopTail(n, at, got)) else (m, th)
    case PopTail(n, at, got) => (m.(consTail := at + n), PopCount(n, got))
    case PopCount(n, got) => (m.(num := m.num - n), Idle(n, got))
  }

  function Step32(s: State, t: nat, r: Request): State
    requires t < |s.threads| && Shaped(s.m)
  {
    var (m, th) := Act32(s.m, s.threads[t], r);
    State(m, s.threads[t := th])
  }

  function Step(s: State, t: nat, r: Request): State
    requires t < |s.threads| && Shaped(s.m)
  {
    var (m, th) := Act(s.m, s.threads[t], r);
    State(m, s.threads[t := th])
  }

  // ----- the 32-bit program is the image of the unbounded one

  function Low(th: Thread): Thread {
    match th
    case Idle(_, _) => th
    case PushHead(vals) => th
    case PushRoom(vals, at) => PushRoom(vals, Wrap(at))
    case PushCas(vals, at) => PushCas(vals, Wrap(at))
    case PushCopy(vals, at, i) => PushCopy(vals, Wrap(at), i)
    case PushWait(vals, at) => PushWait(vals, Wrap(at))
    case PushTail(vals, at) => PushTail(vals, Wrap(at))
    case PushCount(vals) => th
    case PopHead(n) => th
    case PopRoom(n, at) => PopRoom(n, Wrap(at))
    case PopCas(n, at) => PopCas(n, Wrap(at))
    case PopCopy(n, at, got) => PopCopy(n, Wrap(at), got)
    case PopWait(n, at, got) => PopWait(n, Wrap(at), got)
    case PopTail(n, at, got) => PopTail(n, Wrap(at), got)
    case PopCount(n, got) => th
  }

  function LowMemory(m: Memory): Memory {
    Memory(m.max, Wrap(m.prodHead), Wrap(m.prodTail), Wrap(m.consHead), Wrap(m.consTail), Wrap(m.num), m.data)
  }

  /** What the machine holds: the last 32 bits of every index. */
  function Low32(s: State): State {
    State(LowMemory(s.m), seq(|s.threads|, i requires 0 <= i < |s.threads| => Low(s.threads[i])))
  }

  lemma WrapSum(a: int, b: int)
    ensures Wrap(Wrap(a) + b) == Wrap(a + b)
  {
  }

  lemma WrapDifference(a: int, b: int, c: int)
    ensures Wrap(a + Wrap(b) - Wrap(c)) == Wrap(a + b - c)
  {
  }

  predicate Pushes(th: Thread) {
    th.PushHead? || th.PushRoom? || th.PushCas? || th.PushCopy? || th.PushWait? || th.PushTail? || th.PushCount?
  }

  ghost predicate SameAct(m: Memory, th: Thread, r: Request)
    requires Shaped(m)
  {
    var (m', th') := Act(m, th, r);
    Act32(LowMemory(m), Low(th), r) == (LowMemory(m'), Low(th'))
  }

  lemma PushImage(m: Memory, th: Thread, r: Request)
    requires Shaped(m) && Pushes(th)
    ensures SameAct(m, th, r)
  {
    hide Wrap, Slot, IsPow2;
    match th
    case PushRoom(vals, at) => WrapDifference(m.max, m.consTail, at);
    case PushCas(vals, at) => WrapSum(at, |vals|);
    case PushCopy(vals, at, i) => WrapSum(at, i);
    case PushTail(vals, at) => WrapSum(at, |vals|);
    case PushCount(vals) => WrapSum(m.num, |vals|);
    case _ =>
  }

  lemma PopImage(m: Memory, th: Thread, r: Request)
    requires Shaped(m) && !Pushes(th)
    ensures SameAct(m, th, r)
  {
    hide Wrap, Slot, IsPow2;
    match th
    case PopRoom(n, at) => WrapDifference(0, m.prodTail, at);
    case PopCas(n, at) => WrapSum(at, n);
    case PopCopy(n, at, got) => WrapSum(at, |got|);
    case PopTail(n, at, got) => WrapSum(at, n);
    case PopCount(n, got) => var less: int := n; WrapSum(m.num, -less);
    case _ =>
  }

  /** Every step of the unbounded program is, on the last 32 bits, the step of the 32-bit program. */
  lemma StepImage(s: State, t: nat, r: Request)
    requires t < |s.threads| && Shaped(s.m)
    ensures Low32(Step(s, t, r)) == Step32(Low32(s), t, r)
  {
    hide Act, Act32;
    if Pushes(s.threads[t]) {
      PushImage(s.m, s.threads[t], r);
    } else {
      PopImage(s.m, s.threads[t], r);
    }
  }

  // ----- the invariant

  /** A state with its past: `log[k]` is the value that was given index `k` when it was pushed,
      `taken[k]` the value that a consumer copied out for index `k`. */
  datatype History = History(s: State, log: seq<Val>, taken: map<nat, Val>)

  ghost function Follow(h: History, t: nat, r: Request): History
    requires t < |h.s.threads| && Shaped(h.s.m)
  {
    var s' := Step(h.s, t, r);
    match h.s.threads[t]
    case PushCas(vals, at) => History(s', if s'.threads[t].PushCopy? then h.log + vals else h.log, h.taken)
    case PopCopy(n, at, got) =>
      var k := at + |got|;
      History(s', h.log, if |got| < n then h.taken[k := h.s.m.data[Slot(h.s.m.max, Wrap(k))]] else h.taken)
    case _ => History(s', h.log, h.taken)
  }

  /** The indices a producer has reserved and not yet published. */
  ghost function ProdSpan(th: Thread): Span {
    match th
    case PushCopy(vals, at, _) => Span(at, at + |vals|)
    case PushWait(vals, at) => Span(at, at + |vals|)
    case PushTail(vals, at) => Span(at, at + |vals|)
    case _ => Nothing
  }

  /** The indices a consumer has reserved and not yet given back. */
  ghost function ConsSpan(th: Thread): Span {
    match th
    case PopCopy(n, at, _) => Span(at, at + n)
    case PopWait(n, at, _) => Span(at, at + n)
    case PopTail(n, at, _) => Span(at, at + n)
    case _ => Nothing
  }

  ghost function ProdSpans(threads: seq<Thread>): (spans: seq<Span>)
    ensures |spans| == |threads| && forall t :: 0 <= t < |threads| ==> spans[t] == ProdSpan(threads[t])
  {
    seq(|threads|, i requires 0 <= i < |threads| => ProdSpan(threads[i]))
  }

  ghost function ConsSpans(threads: seq<Thread>): (spans: seq<Span>)
    ensures |spans| == |threads| && forall t :: 0 <= t < |threads| ==> spans[t] == ConsSpan(threads[t])
  {
    seq(|threads|, i requires 0 <= i < |threads| => ConsSpan(threads[i]))
  }

  /** Published but not yet counted pushes, less the pops given back but not yet counted. */
  ghost function Uncounted(threads: seq<Thread>): int {
    if threads == [] then 0
    else Uncounted(threads[1..]) + Owed(threads[0])
  }

  ghost function Owed(th: Thread): int {
    match th
    case PushCount(vals) => |vals|
    case PopCount(n, _) => -(n as int)
    case _ => 0
  }

  /** The indices from `lo` up to `hi` are in their slots. */
  ghost predicate InSlots(m: Memory, log: seq<Val>, lo: nat, hi: nat) {
    && m.max > 0 && |m.data| == m.max && hi <= |log|
    && forall k: nat :: lo <= k < hi ==> m.data[k % m.max] == log[k]
  }

  ghost predicate Logged(log: seq<Val>, vals: seq<Val>, at: nat) {
    |vals| > 0 && at + |vals| <= |log| && log[at..at + |vals|] == vals
  }

  ghost predicate Copied(log: seq<Val>, taken: map<nat, Val>, n: nat, at: nat, got: seq<Val>) {
    && n > 0 && |got| <= n && at + n <= |log| && got == log[at..at + |got|]
    && (forall k: nat :: at <= k < at + |got| ==> k in taken)
    && (forall k: nat :: at + |got| <= k < at + n ==> k !in taken)
  }

  /** What holds of one thread at each of its steps. */
  ghost predicate ThreadOk(m: Memory, log: seq<Val>, taken: map<nat, Val>, th: Thread) {
    match th
    case Idle(_, _) => true
    case PushHead(vals) => |vals| > 0
    case PushRoom(vals, at) => |vals| > 0 && at <= m.prodHead && at <= m.consTail + m.max
    case PushCas(vals, at) => |vals| > 0 && at <= m.prodHead && (at == m.prodHead ==> at + |vals| <= m.consTail + m.max)
    case PushCopy(vals, at, i) => Logged(log, vals, at) && i <= |vals| && InSlots(m, log, at, at + i)
    case PushWait(vals, at) => Logged(log, vals, at) && InSlots(m, log, at, at + |vals|)
    case PushTail(vals, at) => Logged(log, vals, at) && InSlots(m, log, at, at + |vals|) && at == m.prodTail
    case PushCount(vals) => |vals| > 0
    case PopHead(n) => n > 0
    case PopRoom(n, at) => n > 0 && at <= m.consHead
    case PopCas(n, at) => n > 0 && at <= m.consHead && (at == m.consHead ==> at + n <= m.prodTail)
    case PopCopy(n, at, got) => Copied(log, taken, n, at, got)
    case PopWait(n, at, got) => Copied(log, taken, n, at, got) && |got| == n
    case PopTail(n, at, got) => Copied(log, taken, n, at, got) && |got| == n && at == m.consTail
    case PopCount(n, got) => n > 0
  }

  ghost predicate Ordered(m: Memory) {
    m.consTail <= m.consHead <= m.prodTail <= m.prodHead <= m.consTail + m.max
  }

  /** What was taken is what was pushed, and everything given back was taken. */
  ghost predicate TakenOk(m: Memory, log: seq<Val>, taken: map<nat, Val>) {
    && (forall k :: k in taken ==> k < m.consHead && k < |log| && taken[k] == log[k])
    && (forall k: nat :: k < m.consTail ==> k in taken)
  }

  ghost predicate Inv(h: History) {
    && Shaped(h.s.m) && Ordered(h.s.m)
    && Tiles(ProdSpans(h.s.threads), h.s.m.prodTail, h.s.m.prodHead)
    && Tiles(ConsSpans(h.s.threads), h.s.m.consTail, h.s.m.consHead)
    && (forall t :: 0 <= t < |h.s.threads| ==> ThreadOk(h.s.m, h.log, h.taken, h.s.threads[t]))
    && |h.log| == h.s.m.prodHead && InSlots(h.s.m, h.log, h.s.m.consTail, h.s.m.prodTail)
    && TakenOk(h.s.m, h.log, h.taken)
    && h.s.m.num + Uncounted(h.s.threads) == h.s.m.prodTail - h.s.m.consTail
  }

  /** The compare-and-set does not mistake an old head for the current one: no thread slept across a
      positive multiple of 2^32 reservations. */
  ghost predicate NotLapped(s: State, t: nat)
    requires t < |s.threads|
  {
    match s.threads[t]
    case PushCas(_, at) => Wrap(at) == Wrap(s.m.prodHead) ==> at == s.m.prodHead
    case PopCas(_, at) => Wrap(at) == Wrap(s.m.consHead) ==> at == s.m.consHead
    case _ => true
  }

  /** A request a caller may make: at least one element, and a length that is an `unsigned int`. */
  ghost predicate Proper(r: Request) {
    match r
    case Push(vals) => 0 < |vals| < WORD
    case Pop(n) => 0 < n < WORD
  }

  lemma SpansUpdate(threads: seq<Thread>, t: nat, th: Thread)
    requires t < |threads|
    ensures ProdSpans(threads[t := th]) == ProdSpans(threads)[t := ProdSpan(th)]
    ensures ConsSpans(threads[t := th]) == ConsSpans(threads)[t := ConsSpan(th)]
    ensures ProdSpan(th) == ProdSpan(threads[t]) ==> ProdSpans(threads[t := th]) == ProdSpans(threads)
    ensures ConsSpan(th) == ConsSpan(threads[t]) ==> ConsSpans(threads[t := th]) == ConsSpans(threads)
  {
  }

  lemma {:induction false} UncountedUpdate(threads: seq<Thread>, t: nat, th: Thread)
    requires t < |threads|
    ensures Uncounted(threads[t := th]) == Uncounted(threads) - Owed(threads[t]) + Owed(th)
  {
    if t == 0 {
      assert threads[t := th][1..] == threads[1..];
    } else {
      assert threads[t := th][1..] == threads[1..][t - 1 := th];
      UncountedUpdate(threads[1..], t - 1, th);
    }
  }

  /** Steps that only change where the thread is. */
  lemma MoveKeeps(h: History, t: nat, th: Thread)
    requires Inv(h) && t < |h.s.threads|
    requires ProdSpan(th) == ProdSpan(h.s.threads[t]) && ConsSpan(th) == ConsSpan(h.s.threads[t])
    requires Owed(th) == Owed(h.s.threads[t]) && ThreadOk(h.s.m, h.log, h.taken, th)
    ensures Inv(h.(s := h.s.(threads := h.s.threads[t := th])))
  {
    hide ThreadOk, Tiles, InSlots, TakenOk, Ordered, ProdSpans, ConsSpans;
    SpansUpdate(h.s.threads, t, th);
    UncountedUpdate(h.s.threads, t, th);
  }

  lemma ReservePush(h: History, t: nat, vals: seq<Val>, at: nat)
    requires Inv(h) && t < |h.s.threads| && h.s.threads[t] == PushCas(vals, at) && at == h.s.m.prodHead
    ensures var s' := State(h.s.m.(prodHead := at + |vals|), h.s.threads[t := PushCopy(vals, at, 0)]);
            Inv(History(s', h.log + vals, h.taken))
  {
    hide Tiles, ProdSpans, ConsSpans, IsPow2, InSlots, Logged, Copied;
    var m, m' := h.s.m, h.s.m.(prodHead := at + |vals|);
    assert ThreadOk(m, h.log, h.taken, h.s.threads[t]);
    SpansUpdate(h.s.threads, t, PushCopy(vals, at, 0));
    UncountedUpdate(h.s.threads, t, PushCopy(vals, at, 0));
    Reserve(ProdSpans(h.s.threads), m.prodTail, m.prodHead, t, |vals|);
    InSlotsMore(m, h.log, m.consTail, m.prodTail, vals, m'.prodHead);
    LoggedNew(m', h.log, vals);
    var threads' := h.s.threads[t := PushCopy(vals, at, 0)];
    forall u | 0 <= u < |threads'| ensures ThreadOk(m', h.log + vals, h.taken, threads'[u]) {
      assert ThreadOk(m, h.log, h.taken, h.s.threads[u]);
      if u != t {
        OthersReservePush(m, h.log, h.taken, h.s.threads[u], vals);
      }
    }
  }

  lemma LoggedNew(m: Memory, log: seq<Val>, vals: seq<Val>)
    requires |vals| > 0 && m.max > 0 && |m.data| == m.max
    ensures Logged(log + vals, vals, |log|) && InSlots(m, log + vals, |log|, |log| + 0)
  {
  }

  lemma LoggedMore(log: seq<Val>, vals: seq<Val>, at: nat, more: seq<Val>)
    requires Logged(log, vals, at)
    ensures Logged(log + more, vals, at)
  {
    assert (log + more)[at..at + |vals|] == log[at..at + |vals|];
  }

  lemma CopiedMore(log: seq<Val>, taken: map<nat, Val>, n: nat, at: nat, got: seq<Val>, more: seq<Val>)
    requires Copied(log, taken, n, at, got)
    ensures Copied(log + more, taken, n, at, got)
  {
    assert (log + more)[at..at + |got|] == log[at..at + |got|];
  }

  lemma InSlotsMore(m: Memory, log: seq<Val>, lo: nat, hi: nat, more: seq<Val>, head: nat)
    requires InSlots(m, log, lo, hi)
    ensures InSlots(m.(prodHead := head), log + more, lo, hi)
  {
  }

  lemma OthersReservePush(m: Memory, log: seq<Val>, taken: map<nat, Val>, th: Thread, vals: seq<Val>)
    requires ThreadOk(m, log, taken, th) && |log| == m.prodHead && |vals| > 0
    ensures ThreadOk(m.(prodHead := m.prodHead + |vals|), log + vals, taken, th)
  {
    hide Logged, Copied, InSlots;
    var head := m.prodHead + |vals|;
    match th
    case PushCopy(v, at, i) => LoggedMore(log, v, at, vals); InSlotsMore(m, log, at, at + i, vals, head);
    case PushWait(v, at) => LoggedMore(log, v, at, vals); InSlotsMore(m, log, at, at + |v|, vals, head);
    case PushTail(v, at) => LoggedMore(log, v, at, vals); InSlotsMore(m, log, at, at + |v|, vals, head);
    case PopCopy(n, at, got) => CopiedMore(log, taken, n, at, got, vals);
    case PopWait(n, at, got) => CopiedMore(log, taken, n, at, got, vals);
    case PopTail(n, at, got) => CopiedMore(log, taken, n, at, got, vals);
    case _ =>
  }

  lemma SlotsDiffer(a: nat, b: nat, max: nat)
    requires a < b < a + max
    ensures a % max != b % max
  {
    if a % max == b % max {
      var d := b / max - a / max;
      assert a == (a / max) * max + a % max && b == (b / max) * max + b % max;
      Distribute(a / max, d, max);
      MulBounds(d, max);
      assert false;
    }
  }

  /** A store leaves the other indices of the window in their slots. */
  lemma StoreKeeps(m: Memory, log: seq<Val>, lo: nat, hi: nat, k: nat, v: Val)
    requires InSlots(m, log, lo, hi) && k < lo + m.max && hi <= k + m.max && (k < lo || hi <= k)
    ensures InSlots(m.(data := m.data[k % m.max := v]), log, lo, hi)
  {
    forall x: nat | lo <= x < hi ensures x % m.max != k % m.max {
      if x < k {
        SlotsDiffer(x, k, m.max);
      } else {
        SlotsDiffer(k, x, m.max);
      }
    }
  }

  lemma StoreAdds(m: Memory, log: seq<Val>, at: nat, k: nat)
    requires InSlots(m, log, at, k) && at <= k < at + m.max && k < |log|
    ensures InSlots(m.(data := m.data[k % m.max := log[k]]), log, at, k + 1)
  {
    StoreKeeps(m, log, at, k, k, log[k]);
  }

  lemma LoggedAt(log: seq<Val>, vals: seq<Val>, at: nat, i: nat)
    requires Logged(log, vals, at) && i < |vals|
    ensures at + i < |log| && log[at + i] == vals[i]
  {
    assert log[at..at + |vals|][i] == vals[i];
  }

  lemma TakenSame(m: Memory, data: seq<Val>, log: seq<Val>, taken: map<nat, Val>)
    requires TakenOk(m, log, taken)
    ensures TakenOk(m.(data := data), log, taken)
  {
  }

  /** Writing one reserved slot. */
  lemma StorePush(h: History, t: nat, vals: seq<Val>, at: nat, i: nat)
    requires Inv(h) && t < |h.s.threads| && h.s.threads[t] == PushCopy(vals, at, i) && i < |vals|
    ensures var m' := h.s.m.(data := h.s.m.data[(at + i) % h.s.m.max := vals[i]]);
            Inv(h.(s := State(m', h.s.threads[t := PushCopy(vals, at, i + 1)])))
  {
    hide Tiles, ProdSpans, ConsSpans, InSlots, Logged, Copied, TakenOk;
    var m := h.s.m;
    var m' := m.(data := m.data[(at + i) % m.max := vals[i]]);
    assert ThreadOk(m, h.log, h.taken, h.s.threads[t]);
    SpansUpdate(h.s.threads, t, PushCopy(vals, at, i + 1));
    UncountedUpdate(h.s.threads, t, PushCopy(vals, at, i + 1));
    InWindow(h, t, at + i);
    LoggedAt(h.log, vals, at, i);
    TakenSame(m, m'.data, h.log, h.taken);
    StoreKeeps(m, h.log, m.consTail, m.prodTail, at + i, vals[i]);
    var threads' := h.s.threads[t := PushCopy(vals, at, i + 1)];
    forall u | 0 <= u < |threads'| ensures ThreadOk(m', h.log, h.taken, threads'[u]) {
      assert ThreadOk(m, h.log, h.taken, h.s.threads[u]);
      if u == t {
        StoreAdds(m, h.log, at, at + i);
      } else {
        OthersStore(h, t, at + i, u, vals[i]);
      }
    }
  }

  lemma InWindow(h: History, t: nat, k: nat)
    requires Inv(h) && t < |h.s.threads| && Owns(ProdSpan(h.s.threads[t]), k)
    ensures h.s.m.prodTail <= k < h.s.m.prodHead
    ensures h.s.m.prodTail <= ProdSpan(h.s.threads[t]).lo
  {
    assert Within(ProdSpans(h.s.threads)[t], h.s.m.prodTail, h.s.m.prodHead);
  }

  lemma OthersStore(h: History, t: nat, k: nat, u: nat, v: Val)
    requires Inv(h) && t < |h.s.threads| && u < |h.s.threads| && t != u && Owns(ProdSpan(h.s.threads[t]), k)
    ensures ThreadOk(h.s.m.(data := h.s.m.data[k % h.s.m.max := v]), h.log, h.taken, h.s.threads[u])
  {
    hide InSlots, Logged, Copied, IsPow2, Tiles, TakenOk;
    var m := h.s.m;
    var spans := ProdSpans(h.s.threads);
    InWindow(h, t, k);
    if spans[u].Span? {
      OneOwner(spans, m.prodTail, m.prodHead, t, u, k);
      TailEnds(spans, m.prodTail, m.prodHead, u);
    }
    StoreElsewhere(m, h.log, h.taken, h.s.threads[u], k, v);
  }

  lemma StoreElsewhere(m: Memory, log: seq<Val>, taken: map<nat, Val>, th: Thread, k: nat, v: Val)
    requires Shaped(m) && Ordered(m) && ThreadOk(m, log, taken, th) && m.prodTail <= k < m.prodHead
    requires var s := ProdSpan(th); s.Span? ==> m.prodTail <= s.lo < s.hi <= m.prodHead && !Owns(s, k)
    ensures ThreadOk(m.(data := m.data[k % m.max := v]), log, taken, th)
  {
    hide InSlots, Logged, Copied, IsPow2;
    match th
    case PushCopy(vals, at, i) => StoreKeeps(m, log, at, at + i, k, v);
    case PushWait(vals, at) => StoreKeeps(m, log, at, at + |vals|, k, v);
    case PushTail(vals, at) => StoreKeeps(m, log, at, at + |vals|, k, v);
    case _ =>
  }

  lemma NotBothAt(spans: seq<Span>, tail: nat, head: nat, t: nat, u: nat)
    requires Tiles(spans, tail, head) && t < |spans| && u < |spans| && t != u
    requires spans[t].Span? && spans[t].lo == tail && spans[u].Span?
    ensures spans[t].hi <= spans[u].lo && tail < spans[t].hi <= head
  {
    assert Within(spans[t], tail, head) && Within(spans[u], tail, head);
    assert Apart(spans[t], spans[u]) || Apart(spans[u], spans[t]);
  }

  lemma InSlotsJoin(m: Memory, log: seq<Val>, lo: nat, mid: nat, hi: nat, tail: nat)
    requires lo <= mid <= hi && InSlots(m, log, lo, mid) && InSlots(m, log, mid, hi)
    ensures InSlots(m.(prodTail := tail), log, lo, hi)
  {
  }

  /** Publishing: the store of the producers' tail. */
  lemma PublishPush(h: History, t: nat, vals: seq<Val>, at: nat)
    requires Inv(h) && t < |h.s.threads| && h.s.threads[t] == PushTail(vals, at)
    ensures Inv(h.(s := State(h.s.m.(prodTail := at + |vals|), h.s.threads[t := PushCount(vals)])))
  {
    hide Tiles, ProdSpans, ConsSpans, IsPow2, InSlots, Logged, Copied;
    var m, m' := h.s.m, h.s.m.(prodTail := at + |vals|);
    var spans := ProdSpans(h.s.threads);
    assert ThreadOk(m, h.log, h.taken, h.s.threads[t]);
    SpansUpdate(h.s.threads, t, PushCount(vals));
    UncountedUpdate(h.s.threads, t, PushCount(vals));
    TailEnds(spans, m.prodTail, m.prodHead, t);
    Release(spans, m.prodTail, m.prodHead, t);
    InSlotsJoin(m, h.log, m.consTail, at, at + |vals|, at + |vals|);
    var threads' := h.s.threads[t := PushCount(vals)];
    forall u | 0 <= u < |threads'| ensures ThreadOk(m', h.log, h.taken, threads'[u]) {
      assert ThreadOk(m, h.log, h.taken, h.s.threads[u]);
      if u == t {
        LoggedSome(h.log, vals, at);
      } else {
        OthersPublish(h, t, u);
      }
    }
  }

  lemma LoggedSome(log: seq<Val>, vals: seq<Val>, at: nat)
    requires Logged(log, vals, at)
    ensures |vals| > 0
  {
  }

  lemma TailEnds(spans: seq<Span>, tail: nat, head: nat, t: nat)
    requires Tiles(spans, tail, head) && t < |spans| && spans[t].Span?
    ensures tail <= spans[t].lo < spans[t].hi <= head
  {
    assert Within(spans[t], tail, head);
  }

  lemma OthersPublish(h: History, t: nat, u: nat)
    requires Inv(h) && t < |h.s.threads| && h.s.threads[t].PushTail? && u < |h.s.threads| && u != t
    ensures ThreadOk(h.s.m.(prodTail := h.s.threads[t].at + |h.s.threads[t].vals|), h.log, h.taken, h.s.threads[u])
  {
    hide Tiles, Logged, Copied, IsPow2;
    var m := h.s.m;
    assert ThreadOk(m, h.log, h.taken, h.s.threads[u]) && ThreadOk(m, h.log, h.taken, h.s.threads[t]);
    if h.s.threads[u].PushTail? {
      NotBothAt(ProdSpans(h.s.threads), m.prodTail, m.prodHead, t, u);
      assert false;
    }
  }

  /** A call that is counted is over. */
  function Answer(th: Thread): (a: Thread)
    requires th.PushCount? || th.PopCount?
    ensures a.Idle?
  {
    match th case PushCount(vals) => Idle(0, []) case PopCount(n, got) => Idle(n, got)
  }

  lemma CountKeeps(h: History, t: nat)
    requires Inv(h) && t < |h.s.threads| && (h.s.threads[t].PushCount? || h.s.threads[t].PopCount?)
    ensures var th := h.s.threads[t];
            Inv(h.(s := State(h.s.m.(num := h.s.m.num + Owed(th)), h.s.threads[t := Answer(th)])))
  {
    hide Tiles, ProdSpans, ConsSpans, IsPow2, Logged, Copied, InSlots;
    var m, m' := h.s.m, h.s.m.(num := h.s.m.num + Owed(h.s.threads[t]));
    SpansUpdate(h.s.threads, t, Answer(h.s.threads[t]));
    UncountedUpdate(h.s.threads, t, Answer(h.s.threads[t]));
    InSlotsNum(m, h.log, m.consTail, m.prodTail, m'.num);
    forall u | 0 <= u < |h.s.threads| && u != t ensures ThreadOk(m', h.log, h.taken, h.s.threads[u]) {
      assert ThreadOk(m, h.log, h.taken, h.s.threads[u]);
      OthersCount(m, h.log, h.taken, h.s.threads[u], m'.num);
    }
  }

  lemma InSlotsNum(m: Memory, log: seq<Val>, lo: nat, hi: nat, num: int)
    requires InSlots(m, log, lo, hi)
    ensures InSlots(m.(num := num), log, lo, hi)
  {
  }

  lemma OthersCount(m: Memory, log: seq<Val>, taken: map<nat, Val>, th: Thread, num: int)
    requires ThreadOk(m, log, taken, th)
    ensures ThreadOk(m.(num := num), log, taken, th)
  {
    hide Logged, Copied;
  }

  lemma PopReserves(m: Memory, log: seq<Val>, taken: map<nat, Val>, n: nat)
    requires TakenOk(m, log, taken) && InSlots(m, log, m.consTail, m.prodTail)
    requires n > 0 && m.consHead + n <= m.prodTail <= |log|
    ensures var m' := m.(consHead := m.consHead + n);
            TakenOk(m', log, taken) && InSlots(m', log, m.consTail, m.prodTail)
    ensures Copied(log, taken, n, m.consHead, [])
  {
  }

  lemma ReservePop(h: History, t: nat, n: nat, at: nat)
    requires Inv(h) && t < |h.s.threads| && h.s.threads[t] == PopCas(n, at) && at == h.s.m.consHead
    ensures Inv(h.(s := State(h.s.m.(consHead := at + n), h.s.threads[t := PopCopy(n, at, [])])))
  {
    hide Tiles, ProdSpans, ConsSpans, IsPow2, Logged, Copied, InSlots, TakenOk;
    var m, m' := h.s.m, h.s.m.(consHead := at + n);
    assert ThreadOk(m, h.log, h.taken, h.s.threads[t]);
    SpansUpdate(h.s.threads, t, PopCopy(n, at, []));
    UncountedUpdate(h.s.threads, t, PopCopy(n, at, []));
    PopReserves(m, h.log, h.taken, n);
    Reserve(ConsSpans(h.s.threads), m.consTail, m.consHead, t, n);
    var threads' := h.s.threads[t := PopCopy(n, at, [])];
    forall u | 0 <= u < |threads'| ensures ThreadOk(m', h.log, h.taken, threads'[u]) {
      assert ThreadOk(m, h.log, h.taken, h.s.threads[u]);
      if u != t {
        OthersReservePop(m, h.log, h.taken, h.s.threads[u], n);
      }
    }
  }

  lemma OthersReservePop(m: Memory, log: seq<Val>, taken: map<nat, Val>, th: Thread, n: nat)
    requires ThreadOk(m, log, taken, th) && n > 0
    ensures ThreadOk(m.(consHead := m.consHead + n), log, taken, th)
  {
    hide Logged, Copied;
  }

  lemma NextToTake(h: History, t: nat, n: nat, at: nat, got: seq<Val>)
    requires Inv(h) && t < |h.s.threads| && h.s.threads[t] == PopCopy(n, at, got) && |got| < n
    ensures var k := at + |got|;
            && h.s.m.consTail <= k < h.s.m.consHead && k < |h.log| && k !in h.taken
            && h.s.m.data[k % h.s.m.max] == h.log[k]
  {
    hide Tiles, ProdSpans, ConsSpans, IsPow2, Logged;
    assert ThreadOk(h.s.m, h.log, h.taken, h.s.threads[t]);
    TailEnds(ConsSpans(h.s.threads), h.s.m.consTail, h.s.m.consHead, t);
  }

  lemma TakenAdds(m: Memory, log: seq<Val>, taken: map<nat, Val>, k: nat)
    requires TakenOk(m, log, taken) && k < m.consHead && k < |log|
    ensures TakenOk(m, log, taken[k := log[k]])
  {
  }

  /** Reading one reserved slot: it still holds what was pushed, and nobody took it before. */
  lemma LoadPop(h: History, t: nat, n: nat, at: nat, got: seq<Val>)
    requires Inv(h) && t < |h.s.threads| && h.s.threads[t] == PopCopy(n, at, got) && |got| < n
    ensures at + |got| < |h.log| && h.s.m.data[(at + |got|) % h.s.m.max] == h.log[at + |got|]
    ensures at + |got| !in h.taken
    ensures var k := at + |got|;
            var s' := h.s.(threads := h.s.threads[t := PopCopy(n, at, got + [h.log[k]])]);
            Inv(History(s', h.log, h.taken[k := h.log[k]]))
  {
    hide Tiles, ProdSpans, ConsSpans, IsPow2, Logged, InSlots, Copied, TakenOk;
    NextToTake(h, t, n, at, got);
    var m, k := h.s.m, at + |got|;
    var th' := PopCopy(n, at, got + [h.log[k]]);
    assert ThreadOk(m, h.log, h.taken, h.s.threads[t]);
    SpansUpdate(h.s.threads, t, th');
    UncountedUpdate(h.s.threads, t, th');
    TakenAdds(m, h.log, h.taken, k);
    var threads' := h.s.threads[t := th'];
    forall u | 0 <= u < |threads'| ensures ThreadOk(m, h.log, h.taken[k := h.log[k]], threads'[u]) {
      assert ThreadOk(m, h.log, h.taken, h.s.threads[u]);
      if u == t {
        CopiedStep(h.log, h.taken, n, at, got);
      } else {
        OthersLoad(h, t, u, k);
      }
    }
  }

  lemma CopiedStep(log: seq<Val>, taken: map<nat, Val>, n: nat, at: nat, got: seq<Val>)
    requires Copied(log, taken, n, at, got) && |got| < n
    ensures Copied(log, taken[at + |got| := log[at + |got|]], n, at, got + [log[at + |got|]])
  {
  }

  lemma OthersLoad(h: History, t: nat, u: nat, k: nat)
    requires Inv(h) && t < |h.s.threads| && Owns(ConsSpan(h.s.threads[t]), k) && u < |h.s.threads| && u != t
    requires k < |h.log|
    ensures ThreadOk(h.s.m, h.log, h.taken[k := h.log[k]], h.s.threads[u])
  {
    hide Tiles, Logged, IsPow2, InSlots;
    assert ThreadOk(h.s.m, h.log, h.taken, h.s.threads[u]);
    OneOwner(ConsSpans(h.s.threads), h.s.m.consTail, h.s.m.consHead, t, u, k);
  }

  /** Giving back: the store of the consumers' tail. */
  lemma GiveBack(h: History, t: nat, n: nat, at: nat, got: seq<Val>)
    requires Inv(h) && t < |h.s.threads| && h.s.threads[t] == PopTail(n, at, got)
    ensures Inv(h.(s := State(h.s.m.(consTail := at + n), h.s.threads[t := PopCount(n, got)])))
  {
    hide Tiles, ProdSpans, ConsSpans, IsPow2, Logged;
    var m, m' := h.s.m, h.s.m.(consTail := at + n);
    var spans := ConsSpans(h.s.threads);
    assert ThreadOk(m, h.log, h.taken, h.s.threads[t]);
    SpansUpdate(h.s.threads, t, PopCount(n, got));
    UncountedUpdate(h.s.threads, t, PopCount(n, got));
    TailEnds(spans, m.consTail, m.consHead, t);
    Release(spans, m.consTail, m.consHead, t);
    var threads' := h.s.threads[t := PopCount(n, got)];
    forall u | 0 <= u < |threads'| ensures ThreadOk(m', h.log, h.taken, threads'[u]) {
      assert ThreadOk(m, h.log, h.taken, h.s.threads[u]);
      if u != t {
        OthersGiveBack(h, t, u);
      }
    }
  }

  lemma OthersGiveBack(h: History, t: nat, u: nat)
    requires Inv(h) && t < |h.s.threads| && h.s.threads[t].PopTail? && u < |h.s.threads| && u != t
    ensures ThreadOk(h.s.m.(consTail := h.s.threads[t].at + h.s.threads[t].n), h.log, h.taken, h.s.threads[u])
  {
    hide Tiles, Logged, Copied, IsPow2;
    var m := h.s.m;
    assert ThreadOk(m, h.log, h.taken, h.s.threads[u]) && ThreadOk(m, h.log, h.taken, h.s.threads[t]);
    TailEnds(ConsSpans(h.s.threads), m.consTail, m.consHead, t);
    if h.s.threads[u].PopTail? {
      NotBothAt(ConsSpans(h.s.threads), m.consTail, m.consHead, t, u);
      assert false;
    }
  }

  /** A slot depends on the last 32 bits of the index alone. */
  lemma SlotOfIndex(max: nat, x: nat)
    requires IsPow2(max) && max <= 0x4000_0000
    ensures Slot(max, Wrap(x)) == x % max
  {
    var k: nat :| max == Pow2(k);
    Pow2At32();
    if k > 32 {
      Pow2Monotone(32, k);
    }
    Pow2Split(k, 32);
    ModOfMod(x, Pow2(32 - k), max);
  }

  lemma WrapNear(a: int, b: int)
    requires -WORD < a - b < WORD
    ensures Wrap(a) == Wrap(b) ==> a == b
  {
  }

  lemma PushRoomOk(m: Memory, log: seq<Val>, taken: map<nat, Val>, vals: seq<Val>, at: nat)
    requires Shaped(m) && Ordered(m) && ThreadOk(m, log, taken, PushRoom(vals, at))
    ensures |vals| <= Wrap(m.max + m.consTail - at) ==> ThreadOk(m, log, taken, PushCas(vals, at))
  {
  }

  lemma PopRoomOk(m: Memory, log: seq<Val>, taken: map<nat, Val>, n: nat, at: nat)
    requires Shaped(m) && Ordered(m) && ThreadOk(m, log, taken, PopRoom(n, at))
    ensures n <= Wrap(m.prodTail - at) ==> ThreadOk(m, log, taken, PopCas(n, at))
  {
  }

  lemma PushStepKeeps(h: History, t: nat, r: Request)
    requires Inv(h) && t < |h.s.threads| && Proper(r) && NotLapped(h.s, t)
    requires Pushes(h.s.threads[t])
    ensures Inv(Follow(h, t, r))
  {
    hide Inv, Tiles, InSlots, Logged, Copied, IsPow2, ProdSpans, ConsSpans, Slot, Wrap;
    InvThread(h, t);
    match h.s.threads[t]
    case PushHead(vals) => MoveKeeps(h, t, PushRoom(vals, h.s.m.prodHead));
    case PushRoom(vals, at) =>
      PushRoomOk(h.s.m, h.log, h.taken, vals, at);
      MoveKeeps(h, t, if |vals| > Wrap(h.s.m.max + h.s.m.consTail - at) then Idle(-1, []) else PushCas(vals, at));
    case PushCas(vals, at) =>
      if Wrap(h.s.m.prodHead) == Wrap(at) {
        ReservePush(h, t, vals, at);
      } else {
        MoveKeeps(h, t, PushHead(vals));
      }
    case PushCopy(vals, at, i) =>
      if i < |vals| {
        SlotOfIndex(h.s.m.max, at + i);
        StorePush(h, t, vals, at, i);
      } else {
        MoveKeeps(h, t, PushWait(vals, at));
      }
    case PushWait(vals, at) =>
      if Wrap(h.s.m.prodTail) == Wrap(at) {
        WrapNear(h.s.m.prodTail, at);
        MoveKeeps(h, t, PushTail(vals, at));
      } else {
        MoveKeeps(h, t, h.s.threads[t]);
      }
    case PushTail(vals, at) => PublishPush(h, t, vals, at);
    case PushCount(vals) => CountKeeps(h, t);
    case _ =>
  }

  lemma CopiedAll(log: seq<Val>, taken: map<nat, Val>, n: nat, at: nat, got: seq<Val>)
    requires Copied(log, taken, n, at, got)
    ensures |got| <= n
  {
  }

  lemma PopCopyKeeps(h: History, t: nat, r: Request)
    requires Inv(h) && t < |h.s.threads| && h.s.threads[t].PopCopy?
    ensures Inv(Follow(h, t, r))
  {
    hide Inv, Tiles, InSlots, Logged, Copied, IsPow2, ProdSpans, ConsSpans, Slot, Wrap;
    InvThread(h, t);
    var th := h.s.threads[t];
    if |th.got| < th.n {
      SlotOfIndex(h.s.m.max, th.at + |th.got|);
      LoadPop(h, t, th.n, th.at, th.got);
    } else {
      CopiedAll(h.log, h.taken, th.n, th.at, th.got);
      MoveKeeps(h, t, PopWait(th.n, th.at, th.got));
    }
  }

  lemma PopWaitKeeps(h: History, t: nat, r: Request)
    requires Inv(h) && t < |h.s.threads| && h.s.threads[t].PopWait?
    ensures Inv(Follow(h, t, r))
  {
    hide Inv, Tiles, InSlots, Logged, Copied, IsPow2, ProdSpans, ConsSpans, Slot, Wrap;
    InvThread(h, t);
    var th := h.s.threads[t];
    if Wrap(h.s.m.consTail) == Wrap(th.at) {
      WrapNear(h.s.m.consTail, th.at);
      MoveKeeps(h, t, PopTail(th.n, th.at, th.got));
    } else {
      MoveKeeps(h, t, th);
    }
  }

  lemma PopStepKeeps(h: History, t: nat, r: Request)
    requires Inv(h) && t < |h.s.threads| && Proper(r) && NotLapped(h.s, t)
    requires !Pushes(h.s.threads[t]) && !h.s.threads[t].Idle?
    ensures Inv(Follow(h, t, r))
  {
    hide Inv, Tiles, InSlots, Logged, Copied, IsPow2, ProdSpans, ConsSpans, Slot, Wrap;
    InvThread(h, t);
    match h.s.threads[t]
    case PopHead(n) => MoveKeeps(h, t, PopRoom(n, h.s.m.consHead));
    case PopRoom(n, at) =>
      PopRoomOk(h.s.m, h.log, h.taken, n, at);
      MoveKeeps(h, t, if n > Wrap(h.s.m.prodTail - at) then Idle(0, []) else PopCas(n, at));
    case PopCas(n, at) =>
      if Wrap(h.s.m.consHead) == Wrap(at) {
        ReservePop(h, t, n, at);
      } else {
        MoveKeeps(h, t, PopHead(n));
      }
    case PopCopy(n, at, got) => PopCopyKeeps(h, t, r);
    case PopWait(n, at, got) => PopWaitKeeps(h, t, r);
    case PopTail(n, at, got) => GiveBack(h, t, n, at, got);
    case PopCount(n, got) => CountKeeps(h, t);
    case _ =>
  }

  lemma InvThread(h: History, t: nat)
    requires Inv(h) && t < |h.s.threads|
    ensures var m, th := h.s.m, h.s.threads[t];
            && Shaped(m) && Ordered(m) && ThreadOk(m, h.log, h.taken, th)
            && (ProdSpan(th).Span? ==> m.prodTail <= ProdSpan(th).lo < m.prodHead)
            && (ConsSpan(th).Span? ==> m.consTail <= ConsSpan(th).lo < m.consHead)
  {
    if ProdSpan(h.s.threads[t]).Span? {
      TailEnds(ProdSpans(h.s.threads), h.s.m.prodTail, h.s.m.prodHead, t);
    }
    if ConsSpan(h.s.threads[t]).Span? {
      TailEnds(ConsSpans(h.s.threads), h.s.m.consTail, h.s.m.consHead, t);
    }
  }

  /** Every step of every thread keeps the invariant. */
  lemma StepKeeps(h: History, t: nat, r: Request)
    requires Inv(h) && t < |h.s.threads| && Proper(r) && NotLapped(h.s, t)
    ensures Inv(Follow(h, t, r))
  {
    hide Inv;
    var th := h.s.threads[t];
    if th.Idle? {
      MoveKeeps(h, t, Start(r));
    } else if Pushes(th) {
      PushStepKeeps(h, t, r);
    } else {
      PopStepKeeps(h, t, r);
    }
  }

  // ----- runs

  datatype Move = Move(t: nat, r: Request)

  /** What ring_creat makes, for `n` threads. */
  function Empty(n: nat, max: nat): State {
    State(Memory(max, 0, 0, 0, 0, 0, seq(max, i => 0)), seq(n, i => NEW))
  }

  /** The schedules the theorems speak of: proper requests, and no compare-and-set that is lapped. */
  ghost predicate Legal(h: History, moves: seq<Move>)
    decreases |moves|
  {
    moves == [] ||
    (&& moves[0].t < |h.s.threads| && Shaped(h.s.m)
     && Proper(moves[0].r) && NotLapped(h.s, moves[0].t)
     && Legal(Follow(h, moves[0].t, moves[0].r), moves[1..]))
  }

  ghost function Run(h: History, moves: seq<Move>): History
    requires Legal(h, moves)
    decreases |moves|
  {
    if moves == [] then h else Run(Follow(h, moves[0].t, moves[0].r), moves[1..])
  }

  ghost predicate Possible32(s: State, move: Move) {
    move.t < |s.threads| && Shaped(s.m)
  }

  /** The 32-bit program on a schedule. */
  ghost function Run32(s: State, moves: seq<Move>): State
    decreases |moves|
  {
    if moves == [] || !Possible32(s, moves[0]) then s
    else Run32(Step32(s, moves[0].t, moves[0].r), moves[1..])
  }

  lemma EmptyInv(n: nat, max: nat)
    requires IsPow2(max) && max <= 0x4000_0000
    ensures Inv(History(Empty(n, max), [], map[]))
  {
    NothingUncounted(Empty(n, max).threads);
  }

  lemma {:induction false} NothingUncounted(threads: seq<Thread>)
    requires forall t :: 0 <= t < |threads| ==> threads[t].Idle?
    ensures Uncounted(threads) == 0
  {
    if threads != [] {
      NothingUncounted(threads[1..]);
    }
  }

  lemma {:induction false} RunKeeps(h: History, moves: seq<Move>)
    requires Inv(h) && Legal(h, moves)
    ensures Inv(Run(h, moves))
    decreases |moves|
  {
    hide Inv;
    if moves != [] {
      StepKeeps(h, moves[0].t, moves[0].r);
      RunKeeps(Follow(h, moves[0].t, moves[0].r), moves[1..]);
    }
  }

  /** The 32-bit program, run on the same schedule, ends in the last 32 bits of the same state. */
  lemma {:induction false} RunImage(h: History, moves: seq<Move>)
    requires Legal(h, moves)
    ensures Run32(Low32(h.s), moves) == Low32(Run(h, moves).s)
    decreases |moves|
  {
    if moves != [] {
      StepImage(h.s, moves[0].t, moves[0].r);
      RunImage(Follow(h, moves[0].t, moves[0].r), moves[1..]);
    }
  }

  // ----- the theorems

  /** In every reachable state the four indices are in order, and the reservations of the producers
      and of the consumers tile the ranges between them. */
  lemma RingSafe(n: nat, max: nat, moves: seq<Move>)
    requires IsPow2(max) && max <= 0x4000_0000
    requires Legal(History(Empty(n, max), [], map[]), moves)
    ensures var s := Run(History(Empty(n, max), [], map[]), moves).s;
            && s.m.consTail <= s.m.consHead <= s.m.prodTail <= s.m.prodHead <= s.m.consTail + s.m.max
            && Tiles(ProdSpans(s.threads), s.m.prodTail, s.m.prodHead)
            && Tiles(ConsSpans(s.threads), s.m.consTail, s.m.consHead)
            && s.m.num + Uncounted(s.threads) == s.m.prodTail - s.m.consTail
  {
    EmptyInv(n, max);
    RunKeeps(History(Empty(n, max), [], map[]), moves);
  }

  /** Over every run of the 32-bit program, from an empty ring: its memory and threads are the image of
      a run on unbounded indices in which the k-th value taken is the k-th value pushed, for every k,
      and all that was given back was taken. */
  lemma RingFifo(n: nat, max: nat, moves: seq<Move>)
    requires IsPow2(max) && max <= 0x4000_0000
    requires Legal(History(Empty(n, max), [], map[]), moves)
    ensures var h := Run(History(Empty(n, max), [], map[]), moves);
            && Run32(Low32(Empty(n, max)), moves) == Low32(h.s)
            && |h.log| == h.s.m.prodHead
            && (forall k :: k in h.taken ==> k < |h.log| && h.taken[k] == h.log[k])
            && (forall k: nat :: k < h.s.m.consTail ==> k in h.taken)
            && (forall k: nat :: h.s.m.consHead <= k ==> k !in h.taken)
  {
    EmptyInv(n, max);
    RunKeeps(History(Empty(n, max), [], map[]), moves);
    RunImage(History(Empty(n, max), [], map[]), moves);
  }

  /** While a thread owns an index nobody else owns an index with the same slot. */
  lemma SlotsNotShared(h: History, t: nat, u: nat, k: nat, k': nat)
    requires Inv(h) && t < |h.s.threads| && u < |h.s.threads| && t != u
    requires Owns(ProdSpan(h.s.threads[t]), k) || Owns(ConsSpan(h.s.threads[t]), k)
    requires Owns(ProdSpan(h.s.threads[u]), k') || Owns(ConsSpan(h.s.threads[u]), k')
    ensures k % h.s.m.max != k' % h.s.m.max
  {
    hide Tiles, IsPow2, TakenOk, InSlots;
    var m := h.s.m;
    InvThread2(h, t, k);
    InvThread2(h, u, k');
    if Owns(ProdSpan(h.s.threads[t]), k) && Owns(ProdSpan(h.s.threads[u]), k) {
      OneOwner(ProdSpans(h.s.threads), m.prodTail, m.prodHead, t, u, k);
    }
    if Owns(ConsSpan(h.s.threads[t]), k) && Owns(ConsSpan(h.s.threads[u]), k) {
      OneOwner(ConsSpans(h.s.threads), m.consTail, m.consHead, t, u, k);
    }
    if k < k' {
      SlotsDiffer(k, k', m.max);
    } else {
      SlotsDiffer(k', k, m.max);
    }
  }

  lemma InvThread2(h: History, t: nat, k: nat)
    requires Inv(h) && t < |h.s.threads|
    ensures Owns(ProdSpan(h.s.threads[t]), k) ==> h.s.m.prodTail <= k < h.s.m.prodHead
    ensures Owns(ConsSpan(h.s.threads[t]), k) ==> h.s.m.consTail <= k < h.s.m.consHead
  {
    if Owns(ProdSpan(h.s.threads[t]), k) {
      TailEnds(ProdSpans(h.s.threads), h.s.m.prodTail, h.s.m.prodHead, t);
    }
    if Owns(ConsSpan(h.s.threads[t]), k) {
      TailEnds(ConsSpans(h.s.threads), h.s.m.consTail, h.s.m.consHead, t);
    }
  }

  /** What a consumer has copied is what was pushed for its indices. */
  lemma FirstInFirstOut(h: History, t: nat)
    requires Inv(h) && t < |h.s.threads|
    ensures var th := h.s.threads[t];
            th.PopCopy? || th.PopWait? || th.PopTail? ==>
              th.at + |th.got| <= |h.log| && th.got == h.log[th.at..th.at + |th.got|]
  {
    hide Tiles, IsPow2, TakenOk, InSlots, Slot;
    InvThread(h, t);
  }

  /** The next value it copies is the one pushed for its next index, which nobody took before. */
  lemma TakesNext(h: History, t: nat, r: Request)
    requires Inv(h) && t < |h.s.threads| && Proper(r) && NotLapped(h.s, t)
    ensures var th := h.s.threads[t];
            th.PopCopy? && |th.got| < th.n ==>
              var k := th.at + |th.got|;
              k < |h.log| && k !in h.taken && Follow(h, t, r).taken == h.taken[k := h.log[k]]
  {
    hide Tiles, IsPow2, TakenOk, InSlots, Slot;
    InvThread(h, t);
    match h.s.threads[t]
    case PopCopy(n, at, got) =>
      if |got| < n {
        SlotOfIndex(h.s.m.max, at + |got|);
        LoadPop(h, t, n, at, got);
      }
    case _ =>
  }

  /** What was pushed and what was taken is never taken back. */
  lemma HistoryGrows(h: History, t: nat, r: Request)
    requires Inv(h) && t < |h.s.threads| && Proper(r) && NotLapped(h.s, t)
    ensures h.log <= Follow(h, t, r).log
    ensures forall k :: k in h.taken ==> k in Follow(h, t, r).taken && Follow(h, t, r).taken[k] == h.taken[k]
  {
    hide Inv, Slot;
    TakesNext(h, t, r);
  }

  /** When every thread is idle, what was taken is the front of what was pushed, the rest is in the
      ring in order, and `num` counts it. */
  lemma Quiescent(h: History)
    requires Inv(h) && forall t :: 0 <= t < |h.s.threads| ==> h.s.threads[t].Idle?
    ensures var m := h.s.m;
            && m.consHead == m.consTail && m.prodHead == m.prodTail == |h.log|
            && (forall k: nat :: k in h.taken <==> k < m.consTail)
            && (forall k: nat :: k < m.consTail ==> h.taken[k] == h.log[k])
            && (forall k: nat :: m.consTail <= k < |h.log| ==> h.s.m.data[k % m.max] == h.log[k])
            && m.num == m.prodTail - m.consTail
  {
    AllReleased(ProdSpans(h.s.threads), h.s.m.prodTail, h.s.m.prodHead);
    AllReleased(ConsSpans(h.s.threads), h.s.m.consTail, h.s.m.consHead);
    NothingUncounted(h.s.threads);
  }

  /** A push is refused exactly when the slots that were free at the head it read do not suffice, a pop
      exactly when the values published from there on are too few, unless the ring has moved on by 2 to the
      32nd indices since; so a request that is refused would not fit at the present head either. */
  lemma RefusedExactly(h: History, t: nat, r: Request)
    requires Inv(h) && t < |h.s.threads|
    ensures var m, th, th' := h.s.m, h.s.threads[t], Follow(h, t, r).s.threads[t];
            && (th.PushRoom? && m.consTail + m.max - th.at < WORD ==>
                  && (th'.Idle? <==> |th.vals| > m.consTail + m.max - th.at)
                  && (th'.Idle? ==> |th.vals| > m.consTail + m.max - m.prodHead))
            && (th.PopRoom? && m.prodTail - th.at < WORD ==>
                  && (th'.Idle? <==> th.n > m.prodTail - th.at)
                  && (th'.Idle? ==> th.n > m.prodTail - m.consHead))
            && (th.PushRoom? && th.at == m.prodHead ==> m.consTail + m.max - th.at < WORD)
            && (th.PopRoom? && th.at == m.consHead ==> m.prodTail - th.at < WORD)
  {
    hide Tiles, TakenOk, InSlots, ProdSpans, ConsSpans;
    InvThread(h, t);
  }

  // ----- why requests must not be empty

  lemma {:induction false} OneMore(s: State, moves: seq<Move>, move: Move)
    requires forall i :: 0 <= i < |moves| ==> moves[i].t < |s.threads|
    requires Shaped(s.m) && move.t < |s.threads|
    ensures var s' := Run32(s, moves);
            && Possible32(s', move) && |s'.threads| == |s.threads|
            && Run32(s, moves + [move]) == Step32(s', move.t, move.r)
    decreases |moves|
  {
    if moves == [] {
      assert Run32(s, [move]) == Run32(Step32(s, move.t, move.r), [move][1..]);
    } else {
      OneMore(Step32(s, moves[0].t, moves[0].r), moves[1..], move);
      assert (moves + [move])[1..] == moves[1..] + [move];
    }
  }

  /** Thread 0 asks for nothing and gets up to its last wait, thread 1 pushes `v` to the end and then makes
      the given moves, thread 0 goes on to its end. */
  ghost function Script(nothing: Request, v: Val, more: nat, last: Request): seq<Move> {
    seq(17 + more, i =>
      if i < 6 || i >= 15 + more then Move(0, nothing) else Move(1, if i < 15 then Push([v]) else last))
  }

  lemma NothingRun(s0: State, all: seq<Move>)
    ensures Run32(s0, all[..0]) == s0
  {
  }

  lemma EmptyPushWaits(max: nat, all: seq<Move>)
    requires IsPow2(max) && max <= 0x4000_0000
    requires |all| >= 6 && forall j :: 0 <= j < |all| ==> all[j].t < 2 && (j < 6 ==> all[j] == Move(0, Push([])))
    ensures Run32(Empty(2, max), all[..6]) == State(Empty(2, max).m, [PushTail([], 0), NEW])
  {
    hide Run32, Slot;
    var s0 := Empty(2, max);
    NothingRun(s0, all);
    var m0 := s0.m;
    assert s0 == State(m0, [NEW, NEW]);
    Next(s0, all, 0, State(m0, [NEW, NEW]), State(m0, [PushHead([]), NEW]));
    Next(s0, all, 1, State(m0, [PushHead([]), NEW]), State(m0, [PushRoom([], 0), NEW]));
    Next(s0, all, 2, State(m0, [PushRoom([], 0), NEW]), State(m0, [PushCas([], 0), NEW]));
    Next(s0, all, 3, State(m0, [PushCas([], 0), NEW]), State(m0, [PushCopy([], 0, 0), NEW]));
    Next(s0, all, 4, State(m0, [PushCopy([], 0, 0), NEW]), State(m0, [PushWait([], 0), NEW]));
    Next(s0, all, 5, State(m0, [PushWait([], 0), NEW]), State(m0, [PushTail([], 0), NEW]));
  }

  lemma EmptyPopWaits(max: nat, all: seq<Move>)
    requires IsPow2(max) && max <= 0x4000_0000
    requires |all| >= 6 && forall j :: 0 <= j < |all| ==> all[j].t < 2 && (j < 6 ==> all[j] == Move(0, Pop(0)))
    ensures Run32(Empty(2, max), all[..6]) == State(Empty(2, max).m, [PopTail(0, 0, []), NEW])
  {
    hide Run32, Slot;
    var s0 := Empty(2, max);
    NothingRun(s0, all);
    var m0 := s0.m;
    assert s0 == State(m0, [NEW, NEW]);
    Next(s0, all, 0, State(m0, [NEW, NEW]), State(m0, [PopHead(0), NEW]));
    Next(s0, all, 1, State(m0, [PopHead(0), NEW]), State(m0, [PopRoom(0, 0), NEW]));
    Next(s0, all, 2, State(m0, [PopRoom(0, 0), NEW]), State(m0, [PopCas(0, 0), NEW]));
    Next(s0, all, 3, State(m0, [PopCas(0, 0), NEW]), State(m0, [PopCopy(0, 0, []), NEW]));
    Next(s0, all, 4, State(m0, [PopCopy(0, 0, []), NEW]), State(m0, [PopWait(0, 0, []), NEW]));
    Next(s0, all, 5, State(m0, [PopWait(0, 0, []), NEW]), State(m0, [PopTail(0, 0, []), NEW]));
  }

  /** The ring when one value has been pushed into the empty one. */
  ghost function OnePushed(max: nat, v: Val): Memory
    requires max > 0
  {
    Memory(max, 1, 1, 0, 0, 1, Empty(2, max).m.data[0 := v])
  }

  /** While thread 0 stays where it is, thread 1 pushes `v` into the empty ring. */
  lemma OtherPushes(max: nat, v: Val, all: seq<Move>, e: Thread)
    requires IsPow2(max) && max <= 0x4000_0000
    requires |all| >= 15 && forall j :: 0 <= j < |all| ==>
      all[j].t < 2 && (6 <= j < 15 ==> all[j] == Move(1, Push([v])))
    requires Run32(Empty(2, max), all[..6]) == State(Empty(2, max).m, [e, NEW])
    ensures Run32(Empty(2, max), all[..15]) == State(OnePushed(max, v), [e, NEW])
  {
    hide Run32;
    var s0 := Empty(2, max);
    var p := [v];
    var m0 := s0.m;
    var m1 := m0.(prodHead := 1);
    var m2 := m1.(data := m0.data[0 := v]);
    Next(s0, all, 6, State(m0, [e, NEW]), State(m0, [e, PushHead(p)]));
    Next(s0, all, 7, State(m0, [e, PushHead(p)]), State(m0, [e, PushRoom(p, 0)]));
    Next(s0, all, 8, State(m0, [e, PushRoom(p, 0)]), State(m0, [e, PushCas(p, 0)]));
    Next(s0, all, 9, State(m0, [e, PushCas(p, 0)]), State(m1, [e, PushCopy(p, 0, 0)]));
    Next(s0, all, 10, State(m1, [e, PushCopy(p, 0, 0)]), State(m2, [e, PushCopy(p, 0, 1)]));
    Next(s0, all, 11, State(m2, [e, PushCopy(p, 0, 1)]), State(m2, [e, PushWait(p, 0)]));
    Next(s0, all, 12, State(m2, [e, PushWait(p, 0)]), State(m2, [e, PushTail(p, 0)]));
    Next(s0, all, 13, State(m2, [e, PushTail(p, 0)]), State(m2.(prodTail := 1), [e, PushCount(p)]));
    Next(s0, all, 14, State(m2.(prodTail := 1), [e, PushCount(p)]), State(OnePushed(max, v), [e, NEW]));
  }

  lemma CopiesFirst(m: Memory, v: Val)
    requires Shaped(m) && m.data[0] == v
    ensures Act32(m, PopCopy(1, 0, []), Pop(1)) == (m, PopCopy(1, 0, [v]))
  {
    assert [] + [v] == [v];
  }

  /** While thread 0 stays where it is, thread 1 reserves the only value and copies it out. */
  lemma OtherTakes(max: nat, v: Val, all: seq<Move>, e: Thread)
    requires IsPow2(max) && max <= 0x4000_0000
    requires |all| >= 24 && forall j :: 0 <= j < |all| ==> all[j].t < 2 && (15 <= j < 24 ==> all[j] == Move(1, Pop(1)))
    requires Run32(Empty(2, max), all[..15]) == State(OnePushed(max, v), [e, NEW])
    ensures Run32(Empty(2, max), all[..20]) == State(OnePushed(max, v).(consHead := 1), [e, PopCopy(1, 0, [v])])
  {
    hide Run32, Slot;
    var s0 := Empty(2, max);
    var m0 := OnePushed(max, v);
    var m1 := m0.(consHead := 1);
    Next(s0, all, 15, State(m0, [e, NEW]), State(m0, [e, PopHead(1)]));
    Next(s0, all, 16, State(m0, [e, PopHead(1)]), State(m0, [e, PopRoom(1, 0)]));
    Next(s0, all, 17, State(m0, [e, PopRoom(1, 0)]), State(m0, [e, PopCas(1, 0)]));
    Next(s0, all, 18, State(m0, [e, PopCas(1, 0)]), State(m1, [e, PopCopy(1, 0, [])]));
    CopiesFirst(m1, v);
    Next(s0, all, 19, State(m1, [e, PopCopy(1, 0, [])]), State(m1, [e, PopCopy(1, 0, [v])]));
  }

  /** Then it gives it back. */
  lemma OtherPops(max: nat, v: Val, all: seq<Move>, e: Thread)
    requires IsPow2(max) && max <= 0x4000_0000
    requires |all| >= 24 && forall j :: 0 <= j < |all| ==> all[j].t < 2 && (15 <= j < 24 ==> all[j] == Move(1, Pop(1)))
    requires Run32(Empty(2, max), all[..15]) == State(OnePushed(max, v), [e, NEW])
    ensures Run32(Empty(2, max), all[..24]) ==
      State(OnePushed(max, v).(consHead := 1, consTail := 1, num := 0), [e, Idle(1, [v])])
  {
    hide Run32, Slot;
    OtherTakes(max, v, all, e);
    var s0 := Empty(2, max);
    var m1 := OnePushed(max, v).(consHead := 1);
    var m2 := m1.(consTail := 1);
    Next(s0, all, 20, State(m1, [e, PopCopy(1, 0, [v])]), State(m1, [e, PopWait(1, 0, [v])]));
    Next(s0, all, 21, State(m1, [e, PopWait(1, 0, [v])]), State(m1, [e, PopTail(1, 0, [v])]));
    Next(s0, all, 22, State(m1, [e, PopTail(1, 0, [v])]), State(m2, [e, PopCount(1, [v])]));
    Next(s0, all, 23, State(m2, [e, PopCount(1, [v])]), State(m2.(num := 0), [e, Idle(1, [v])]));
  }

  /** An empty push may pass the wait together with a real one that reserved the same index, and its
      store then takes the published tail back: no thread is left that would publish `v` again. */
  lemma EmptyPushBreaks(max: nat, v: Val)
    requires IsPow2(max) && max <= 0x4000_0000
    ensures Run32(Empty(2, max), Script(Push([]), v, 0, Push([]))) ==
      State(OnePushed(max, v).(prodTail := 0), [NEW, NEW])
    ensures !Tiles(ProdSpans([NEW, NEW]), 0, 1)
  {
    hide Run32, ProdSpans;
    var s0, all := Empty(2, max), Script(Push([]), v, 0, Push([]));
    EmptyPushWaits(max, all);
    OtherPushes(max, v, all, PushTail([], 0));
    var m := OnePushed(max, v);
    Next(s0, all, 15, State(m, [PushTail([], 0), NEW]), State(m.(prodTail := 0), [PushCount([]), NEW]));
    Next(s0, all, 16, State(m.(prodTail := 0), [PushCount([]), NEW]), State(m.(prodTail := 0), [NEW, NEW]));
    assert all[..17] == all;
    if Tiles(ProdSpans([NEW, NEW]), 0, 1) {
      AllReleased(ProdSpans([NEW, NEW]), 0, 1);
    }
  }

  /** An empty pop may pass the wait before a value is pushed and popped; its store then takes back the tail
      that the other pop moved: the slot stays taken, and no thread is left that would give it back. */
  lemma EmptyPopBreaks(max: nat, v: Val)
    requires IsPow2(max) && max <= 0x4000_0000
    ensures Run32(Empty(2, max), Script(Pop(0), v, 9, Pop(1))) ==
      State(OnePushed(max, v).(consHead := 1, consTail := 0, num := 0), [NEW, Idle(1, [v])])
    ensures !Tiles(ConsSpans([NEW, Idle(1, [v])]), 0, 1)
  {
    hide Run32, ConsSpans;
    var s0, all := Empty(2, max), Script(Pop(0), v, 9, Pop(1));
    EmptyPopWaits(max, all);
    OtherPushes(max, v, all, PopTail(0, 0, []));
    OtherPops(max, v, all, PopTail(0, 0, []));
    var m := OnePushed(max, v).(consHead := 1, consTail := 1, num := 0);
    var m' := m.(consTail := 0);
    Next(s0, all, 24, State(m, [PopTail(0, 0, []), Idle(1, [v])]), State(m', [PopCount(0, []), Idle(1, [v])]));
    Next(s0, all, 25, State(m', [PopCount(0, []), Idle(1, [v])]), State(m', [NEW, Idle(1, [v])]));
    assert all[..26] == all;
    if Tiles(ConsSpans([NEW, Idle(1, [v])]), 0, 1) {
      AllReleased(ConsSpans([NEW, Idle(1, [v])]), 0, 1);
    }
  }

  lemma Next(s0: State, all: seq<Move>, i: nat, s: State, s': State)
    requires i < |all| && Shaped(s0.m) && forall j :: 0 <= j < |all| ==> all[j].t < |s0.threads|
    requires Run32(s0, all[..i]) == s
    requires Possible32(s, all[i]) ==> Step32(s, all[i].t, all[i].r) == s'
    ensures Run32(s0, all[..i + 1]) == s'
  {
    hide Run32, Step32, Shaped;
    OneMore(s0, all[..i], all[i]);
    assert all[..i + 1] == all[..i] + [all[i]];
  }
}
