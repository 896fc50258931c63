/** The calls of the ring, seen from outside: what a thread asked for, what became of it, and what it was
    answered. */
module RingCalls {
  import opened Bits
  import opened Tiling
  import opened Ring

  /** The last call of a thread: its request, what its own steps appended to the log and where, and what
      its own steps took. */
  datatype Call = Never | Call(asked: Request, at: nat, pushed: seq<Val>, took: map<nat, Val>)

  /** What the second sequence has more at its end. */
  ghost function More(a: seq<Val>, b: seq<Val>): seq<Val> {
    if |a| <= |b| then b[|a|..] else []
  }

  /** A call begins when a thread outside a call moves; what a step of the thread adds to the history
      belongs to its call. */
  ghost function Watch(c: Call, h: History, t: nat, r: Request): Call
    requires t < |h.s.threads| && Shaped(h.s.m)
  {
    var h' := Follow(h, t, r);
    var c0 := if h.s.threads[t].Idle? then Call(r, 0, [], map[]) else c;
    if c0.Never? then Never
    else
      Call(c0.asked, if |h'.log| > |h.log| then |h.log| else c0.at, c0.pushed + More(h.log, h'.log),
        c0.took + (h'.taken - h.taken.Keys))
  }

  // ----- how calls end

  /** The values are in the log, all of them and in order, from `at` on, and they are published. */
  ghost predicate Placed(h: History, vals: seq<Val>, at: nat) {
    at + |vals| <= |h.log| && at + |vals| <= h.s.m.prodTail && h.log[at..at + |vals|] == vals
  }

  /** The values taken are those of the log from `at` on, and `got` has them in order. */
  ghost predicate Taken(log: seq<Val>, took: map<nat, Val>, got: seq<Val>, at: nat) {
    && at + |got| <= |log| && got == log[at..at + |got|]
    && (forall k :: k in took <==> at <= k < at + |got|)
    && (forall k :: k in took ==> took[k] == log[k])
  }

  /** A push either put all of its values into the ring and answered 0, or nothing and answered -1. */
  ghost predicate PushEnds(h: History, c: Call, vals: seq<Val>, ret: int, got: seq<Val>)
    requires c.Call?
  {
    && c.took == map[] && got == []
    && ((ret == 0 && c.pushed == vals && Placed(h, vals, c.at)) || (ret == -1 && c.pushed == []))
  }

  ghost predicate Back(h: History, c: Call, got: seq<Val>, at: nat)
    requires c.Call?
  {
    at + |got| <= h.s.m.consTail && Taken(h.log, c.took, got, at)
  }

  /** A pop either took the number of values it was asked for, which followed each other in the log, gave
      their slots back and answered the number, or took nothing and answered 0. */
  ghost predicate PopEnds(h: History, c: Call, n: nat, ret: int, got: seq<Val>)
    requires c.Call?
  {
    && c.pushed == []
    && ((ret == n == |got| && exists at: nat :: Back(h, c, got, at)) || (ret == 0 && got == [] && c.took == map[]))
  }

  /** What is known of a call while it goes on, and when it is over. */
  ghost predicate Kept(h: History, th: Thread, c: Call) {
    match c
    case Never => th == NEW
    case Call(asked, place, pushed, took) =>
      match th
      case Idle(ret, got) =>
        (match asked
         case Push(vals) => PushEnds(h, c, vals, ret, got)
         case Pop(n) => PopEnds(h, c, n, ret, got))
      case PushHead(vals) => asked == Push(vals) && pushed == [] && took == map[]
      case PushRoom(vals, _) => asked == Push(vals) && pushed == [] && took == map[]
      case PushCas(vals, _) => asked == Push(vals) && pushed == [] && took == map[]
      case PushCopy(vals, at, _) => asked == Push(vals) && pushed == vals && place == at && took == map[]
      case PushWait(vals, at) => asked == Push(vals) && pushed == vals && place == at && took == map[]
      case PushTail(vals, at) => asked == Push(vals) && pushed == vals && place == at && took == map[]
      case PushCount(vals) => asked == Push(vals) && PushEnds(h, c, vals, 0, []) && pushed == vals
      case PopHead(n) => asked == Pop(n) && pushed == [] && took == map[]
      case PopRoom(n, _) => asked == Pop(n) && pushed == [] && took == map[]
      case PopCas(n, _) => asked == Pop(n) && pushed == [] && took == map[]
      case PopCopy(n, at, got) => asked == Pop(n) && pushed == [] && Taken(h.log, took, got, at)
      case PopWait(n, at, got) => asked == Pop(n) && pushed == [] && Taken(h.log, took, got, at)
      case PopTail(n, at, got) => asked == Pop(n) && pushed == [] && Taken(h.log, took, got, at)
      case PopCount(n, got) => asked == Pop(n) && PopEnds(h, c, n, n, got) && |got| == n
  }

  // ----- every step keeps it

  /** The published range only moves on. */
  lemma TailsGrow(h: History, t: nat, r: Request)
    requires Inv(h) && t < |h.s.threads| && Proper(r) && NotLapped(h.s, t)
    ensures h.log <= Follow(h, t, r).log
    ensures h.s.m.prodTail <= Follow(h, t, r).s.m.prodTail && h.s.m.consTail <= Follow(h, t, r).s.m.consTail
  {
    HistoryGrows(h, t, r);
    InvThread(h, t);
  }

  lemma TakenMore(log: seq<Val>, log': seq<Val>, took: map<nat, Val>, got: seq<Val>, at: nat)
    requires Taken(log, took, got, at) && log <= log'
    ensures Taken(log', took, got, at)
  {
    assert log'[at..at + |got|] == log[at..at + |got|];
  }

  lemma EndsMore(h: History, h': History, c: Call)
    requires c.Call? && h.log <= h'.log
    requires h.s.m.prodTail <= h'.s.m.prodTail && h.s.m.consTail <= h'.s.m.consTail
    ensures forall vals, ret, got :: PushEnds(h, c, vals, ret, got) ==> PushEnds(h', c, vals, ret, got)
    ensures forall n, ret, got :: PopEnds(h, c, n, ret, got) ==> PopEnds(h', c, n, ret, got)
  {
    forall vals, ret, got | PushEnds(h, c, vals, ret, got) ensures PushEnds(h', c, vals, ret, got) {
      if ret == 0 {
        assert h'.log[c.at..c.at + |vals|] == h.log[c.at..c.at + |vals|];
      }
    }
    forall n, ret, got | PopEnds(h, c, n, ret, got) ensures PopEnds(h', c, n, ret, got) {
      if at: nat :| Back(h, c, got, at) {
        TakenMore(h.log, h'.log, c.took, got, at);
        assert Back(h', c, got, at);
      }
    }
  }

  /** Other threads change nothing about a call. */
  lemma OthersKept(h: History, t: nat, r: Request, th: Thread, c: Call)
    requires Inv(h) && t < |h.s.threads| && Proper(r) && NotLapped(h.s, t) && Kept(h, th, c)
    ensures Kept(Follow(h, t, r), th, c)
  {
    hide Inv, PushEnds, PopEnds, Taken, Follow;
    InvThread(h, t);
    TailsGrow(h, t, r);
    var h' := Follow(h, t, r);
    if c.Call? {
      EndsMore(h, h', c);
      if th.PopCopy? || th.PopWait? || th.PopTail? {
        TakenMore(h.log, h'.log, c.took, th.got, th.at);
      }
    }
  }

  /** A step that adds nothing to the history. */
  lemma Quiet(c: Call, h: History, t: nat, r: Request)
    requires t < |h.s.threads| && Shaped(h.s.m) && !h.s.threads[t].Idle?
    requires Follow(h, t, r).log == h.log && Follow(h, t, r).taken == h.taken
    ensures Watch(c, h, t, r) == c
  {
    if c.Call? {
      assert c.pushed + [] == c.pushed && More(h.log, h.log) == [];
      assert h.taken - h.taken.Keys == map[];
      assert c.took + map[] == c.took;
    }
  }

  /** The step that reserves appends the whole request. */
  lemma Pushed(c: Call, h: History, t: nat, r: Request, vals: seq<Val>)
    requires t < |h.s.threads| && Shaped(h.s.m) && !h.s.threads[t].Idle?
    requires Follow(h, t, r).log == h.log + vals && |vals| > 0 && Follow(h, t, r).taken == h.taken
    requires c.Call? && c.pushed == []
    ensures Watch(c, h, t, r) == c.(at := |h.log|, pushed := vals)
  {
    assert (h.log + vals)[|h.log|..] == vals && [] + vals == vals;
    assert h.taken - h.taken.Keys == map[];
    assert c.took + map[] == c.took;
  }

  /** The step that copies takes the next value. */
  lemma Took(c: Call, h: History, t: nat, r: Request, got: seq<Val>, at: nat)
    requires t < |h.s.threads| && Shaped(h.s.m) && !h.s.threads[t].Idle?
    requires var k := at + |got|; k < |h.log| && k !in h.taken && Follow(h, t, r).taken == h.taken[k := h.log[k]]
    requires Follow(h, t, r).log == h.log && c.Call? && Taken(h.log, c.took, got, at)
    ensures var c', k := Watch(c, h, t, r), at + |got|;
      c' == c.(took := c.took[k := h.log[k]]) && Taken(h.log, c'.took, got + [h.log[k]], at)
  {
    var k := at + |got|;
    assert h.taken[k := h.log[k]] - h.taken.Keys == map[k := h.log[k]];
    assert c.took + map[k := h.log[k]] == c.took[k := h.log[k]];
    assert c.pushed + [] == c.pushed && More(h.log, h.log) == [];
  }

  lemma Begins(c: Call, h: History, t: nat, r: Request)
    requires t < |h.s.threads| && Shaped(h.s.m) && h.s.threads[t].Idle?
    ensures Watch(c, h, t, r) == Call(r, 0, [], map[])
    ensures Kept(Follow(h, t, r), Follow(h, t, r).s.threads[t], Watch(c, h, t, r))
  {
    assert h.taken - h.taken.Keys == map[];
    var none: map<nat, Val> := map[];
    assert none + none == none;
    assert [] + More(h.log, h.log) == [];
  }

  lemma PushKept(h: History, t: nat, r: Request, c: Call)
    requires Inv(h) && t < |h.s.threads| && Proper(r) && NotLapped(h.s, t)
    requires Pushes(h.s.threads[t]) && Kept(h, h.s.threads[t], c)
    ensures Kept(Follow(h, t, r), Follow(h, t, r).s.threads[t], Watch(c, h, t, r))
  {
    hide Inv, Tiles, InSlots, Copied, IsPow2, ProdSpans, ConsSpans, Slot, Wrap, Watch, Taken;
    InvThread(h, t);
    var h' := Follow(h, t, r);
    match h.s.threads[t]
    case PushCas(vals, at) =>
      if Wrap(h.s.m.prodHead) == Wrap(at) {
        LogEnds(h);
        Pushed(c, h, t, r, vals);
      } else {
        Quiet(c, h, t, r);
      }
    case _ => Quiet(c, h, t, r);
  }

  lemma LogEnds(h: History)
    requires Inv(h)
    ensures |h.log| == h.s.m.prodHead
  {
  }

  lemma PopKept(h: History, t: nat, r: Request, c: Call)
    requires Inv(h) && t < |h.s.threads| && Proper(r) && NotLapped(h.s, t)
    requires !Pushes(h.s.threads[t]) && !h.s.threads[t].Idle? && Kept(h, h.s.threads[t], c)
    ensures Kept(Follow(h, t, r), Follow(h, t, r).s.threads[t], Watch(c, h, t, r))
  {
    hide Inv, Tiles, InSlots, IsPow2, ProdSpans, ConsSpans, Slot, Wrap, Watch, Taken;
    InvThread(h, t);
    var h' := Follow(h, t, r);
    match h.s.threads[t]
    case PopCas(n, at) =>
      Quiet(c, h, t, r);
      NothingTaken(h, at);
    case PopCopy(n, at, got) => CopyKept(h, t, r, c);
    case PopTail(n, at, got) =>
      Quiet(c, h, t, r);
      assert Back(h', c, got, at);
    case PopCount(n, got) =>
      Quiet(c, h, t, r);
      EndsMore(h, h', c);
    case _ => Quiet(c, h, t, r);
  }

  lemma CopyKept(h: History, t: nat, r: Request, c: Call)
    requires Inv(h) && t < |h.s.threads| && Proper(r) && NotLapped(h.s, t)
    requires h.s.threads[t].PopCopy? && Kept(h, h.s.threads[t], c)
    ensures Kept(Follow(h, t, r), Follow(h, t, r).s.threads[t], Watch(c, h, t, r))
  {
    hide Inv, Tiles, InSlots, IsPow2, ProdSpans, ConsSpans, Slot, Wrap, Watch, Taken, Copied;
    InvThread(h, t);
    var th := h.s.threads[t];
    if |th.got| < th.n {
      TakesNext(h, t, r);
      CopiesNext(h, t, th.n, th.at, th.got);
      Took(c, h, t, r, th.got, th.at);
    } else {
      Quiet(c, h, t, r);
    }
  }

  lemma NothingTaken(h: History, at: nat)
    requires Inv(h)
    ensures at == h.s.m.consHead ==> Taken(h.log, map[], [], at)
  {
  }

  lemma CopiesNext(h: History, t: nat, n: nat, at: nat, got: seq<Val>)
    requires Inv(h) && t < |h.s.threads| && h.s.threads[t] == PopCopy(n, at, got) && |got| < n
    ensures at + |got| < |h.log| && h.s.m.data[Slot(h.s.m.max, Wrap(at + |got|))] == h.log[at + |got|]
  {
    LoadPop(h, t, n, at, got);
    SlotOfIndex(h.s.m.max, at + |got|);
  }

  /** Every step of every thread keeps what is known of all calls. */
  lemma CallsKept(h: History, cs: seq<Call>, t: nat, r: Request)
    requires Inv(h) && t < |h.s.threads| && Proper(r) && NotLapped(h.s, t) && |cs| == |h.s.threads|
    requires forall u :: 0 <= u < |cs| ==> Kept(h, h.s.threads[u], cs[u])
    ensures var h', cs' := Follow(h, t, r), cs[t := Watch(cs[t], h, t, r)];
      |cs'| == |h'.s.threads| && forall u :: 0 <= u < |cs'| ==> Kept(h', h'.s.threads[u], cs'[u])
  {
    hide Inv, Kept, Watch;
    InvThread(h, t);
    var h', cs' := Follow(h, t, r), cs[t := Watch(cs[t], h, t, r)];
    forall u | 0 <= u < |cs'| ensures Kept(h', h'.s.threads[u], cs'[u]) {
      if u == t {
        if h.s.threads[t].Idle? {
          Begins(cs[t], h, t, r);
        } else if Pushes(h.s.threads[t]) {
          PushKept(h, t, r, cs[t]);
        } else {
          PopKept(h, t, r, cs[t]);
        }
      } else {
        OthersKept(h, t, r, h.s.threads[u], cs[u]);
      }
    }
  }

  // ----- what was pushed and taken is what was asked for

  /** The log grows by whole requests: a step leaves it, or appends all that its thread was asked to push;
      what a step takes is the next value for a thread that was asked to pop. */
  lemma OnlyRequests(h: History, t: nat, r: Request, c: Call)
    requires Inv(h) && t < |h.s.threads| && Proper(r) && NotLapped(h.s, t) && Kept(h, h.s.threads[t], c)
    ensures var h' := Follow(h, t, r);
      && (h'.log == h.log || (c.Call? && c.asked.Push? && h'.log == h.log + c.asked.vals))
      && (h'.taken == h.taken ||
            (c.Call? && c.asked.Pop? &&
               exists k: nat :: k < |h.log| && k !in h.taken && h'.taken == h.taken[k := h.log[k]]))
  {
    hide Inv, Tiles, InSlots, Copied, IsPow2, ProdSpans, ConsSpans, Slot, Wrap, Taken;
    InvThread(h, t);
    TakesNext(h, t, r);
  }

  /** The head that the thread read is less than 2 to the 32nd indices behind. */
  ghost predicate Recent(h: History, th: Thread) {
    && (th.PushRoom? ==> h.s.m.consTail + h.s.m.max - th.at < WORD)
    && (th.PopRoom? ==> h.s.m.prodTail - th.at < WORD)
  }

  /** A call that ends with nothing done ends because there is no room, or too little to take, and changes
      nothing; so a lost compare-and-set ends no call, and neither does waiting. */
  lemma RefusedForRoom(h: History, t: nat, r: Request, c: Call)
    requires Inv(h) && t < |h.s.threads| && Proper(r) && NotLapped(h.s, t)
    requires Kept(h, h.s.threads[t], c) && c.Call? && !h.s.threads[t].Idle? && Recent(h, h.s.threads[t])
    ensures var m, h' := h.s.m, Follow(h, t, r);
      var th' := h'.s.threads[t];
      && (c.asked.Push? && th'.Idle? && th'.ret != 0 ==>
            h'.s.m == m && h'.log == h.log && h'.taken == h.taken && |c.asked.vals| > m.max - (m.prodHead - m.consTail))
      && (c.asked.Pop? && th'.Idle? && th'.ret == 0 && c.asked.n > 0 ==>
            h'.s.m == m && h'.log == h.log && h'.taken == h.taken && c.asked.n > m.prodTail - m.consHead)
  {
    hide Inv, Tiles, InSlots, Copied, IsPow2, ProdSpans, ConsSpans, Slot, Wrap, Taken;
    InvThread(h, t);
    RefusedExactly(h, t, r);
  }

  // ----- runs

  /** The calls after a run. */
  ghost function Calls(h: History, cs: seq<Call>, moves: seq<Move>): seq<Call>
    requires Legal(h, moves) && |cs| == |h.s.threads|
    decreases |moves|
  {
    if moves == [] then cs
    else
      var t, r := moves[0].t, moves[0].r;
      Calls(Follow(h, t, r), cs[t := Watch(cs[t], h, t, r)], moves[1..])
  }

  lemma {:induction false} CallsKeptInRuns(h: History, cs: seq<Call>, moves: seq<Move>)
    requires Inv(h) && Legal(h, moves) && |cs| == |h.s.threads|
    requires forall u :: 0 <= u < |cs| ==> Kept(h, h.s.threads[u], cs[u])
    ensures var h', cs' := Run(h, moves), Calls(h, cs, moves);
      |cs'| == |h'.s.threads| && forall u :: 0 <= u < |cs'| ==> Kept(h', h'.s.threads[u], cs'[u])
    decreases |moves|
  {
    hide Inv, Kept, Watch;
    if moves != [] {
      var t, r := moves[0].t, moves[0].r;
      StepKeeps(h, t, r);
      CallsKept(h, cs, t, r);
      CallsKeptInRuns(Follow(h, t, r), cs[t := Watch(cs[t], h, t, r)], moves[1..]);
    }
  }

  /** Over every run from an empty ring, whenever a thread is outside a call, its last call came to one of
      two ends.  A push of `vals` put all of them into the ring, at consecutive indices of its own and in
      order, and answered 0; or it put nothing there and answered -1.  A pop of n took n values that
      followed each other, answered n and handed out just these; or it took nothing and answered 0. */
  lemma RunAnswers(n: nat, max: nat, moves: seq<Move>, t: nat)
    requires IsPow2(max) && max <= 0x4000_0000 && t < n
    requires Legal(History(Empty(n, max), [], map[]), moves)
    ensures var h0 := History(Empty(n, max), [], map[]);
      var h, cs := Run(h0, moves), Calls(h0, seq(n, _ => Never), moves);
      |cs| == |h.s.threads| == n &&
      (h.s.threads[t].Idle? && cs[t].Call? ==>
         var (c, ret, got) := (cs[t], h.s.threads[t].ret, h.s.threads[t].got);
         match c.asked
         case Push(vals) =>
           || (ret == 0 && c.pushed == vals && c.at + |vals| <= |h.log| && h.log[c.at..c.at + |vals|] == vals)
           || (ret == -1 && c.pushed == [])
         case Pop(k) =>
           || (ret == k == |got| && exists at: nat :: Taken(h.log, c.took, got, at))
           || (ret == 0 && got == [] && c.took == map[]))
  {
    var h0 := History(Empty(n, max), [], map[]);
    EmptyInv(n, max);
    CallsKeptInRuns(h0, seq(n, _ => Never), moves);
    ThreadsStay(h0, moves);
    var h, cs := Run(h0, moves), Calls(h0, seq(n, _ => Never), moves);
    assert Kept(h, h.s.threads[t], cs[t]);
    if h.s.threads[t].Idle? && cs[t].Call? {
      WasTaken(h, cs[t], h.s.threads[t].got);
    }
  }

  lemma WasTaken(h: History, c: Call, got: seq<Val>)
    requires c.Call?
    ensures (exists at: nat :: Back(h, c, got, at)) ==> exists at: nat :: Taken(h.log, c.took, got, at)
  {
    if at: nat :| Back(h, c, got, at) {
      assert Taken(h.log, c.took, got, at);
    }
  }

  lemma {:induction false} ThreadsStay(h: History, moves: seq<Move>)
    requires Legal(h, moves)
    ensures |Run(h, moves).s.threads| == |h.s.threads|
    decreases |moves|
  {
    if moves != [] {
      ThreadsStay(Follow(h, moves[0].t, moves[0].r), moves[1..]);
    }
  }

  // ----- calls come to their end

  /** The thread whose turn it is to publish is not waiting for anybody: as long as something is reserved
      there is such a thread, and if it is at the wait it goes on. */
  lemma SomebodyGoesOn(h: History, r: Request) returns (t: nat)
    requires Inv(h) && h.s.m.prodTail < h.s.m.prodHead
    ensures t < |h.s.threads| && ProdSpan(h.s.threads[t]).Span? && ProdSpan(h.s.threads[t]).lo == h.s.m.prodTail
    ensures h.s.threads[t].PushWait? ==> Follow(h, t, r).s.threads[t].PushTail?
  {
    var spans := ProdSpans(h.s.threads);
    assert Owned(spans, h.s.m.prodTail);
    t :| 0 <= t < |spans| && Owns(spans[t], h.s.m.prodTail);
    TailEnds(spans, h.s.m.prodTail, h.s.m.prodHead, t);
  }

  lemma SomebodyGivesBack(h: History, r: Request) returns (t: nat)
    requires Inv(h) && h.s.m.consTail < h.s.m.consHead
    ensures t < |h.s.threads| && ConsSpan(h.s.threads[t]).Span? && ConsSpan(h.s.threads[t]).lo == h.s.m.consTail
    ensures h.s.threads[t].PopWait? ==> Follow(h, t, r).s.threads[t].PopTail?
  {
    var spans := ConsSpans(h.s.threads);
    assert Owned(spans, h.s.m.consTail);
    t :| 0 <= t < |spans| && Owns(spans[t], h.s.m.consTail);
    TailEnds(spans, h.s.m.consTail, h.s.m.consHead, t);
  }

  /** One thread moves, and nobody else. */
  ghost function Alone(t: nat, r: Request, k: nat): seq<Move> { seq(k, _ => Move(t, r)) }

  /** The run is possible, and this is where it leads. */
  ghost predicate Leads(h: History, t: nat, r: Request, k: nat, h': History) {
    Legal(h, Alone(t, r, k)) && Run(h, Alone(t, r, k)) == h'
  }

  lemma NoMoves(h: History, t: nat, r: Request)
    ensures Leads(h, t, r, 0, h)
  {
  }

  lemma OneFirst(h: History, t: nat, r: Request, k: nat, h': History)
    requires t < |h.s.threads| && Shaped(h.s.m) && Proper(r) && NotLapped(h.s, t)
    requires Leads(Follow(h, t, r), t, r, k, h')
    ensures Leads(h, t, r, k + 1, h')
  {
    assert Alone(t, r, k + 1)[1..] == Alone(t, r, k);
    assert Alone(t, r, k + 1)[0] == Move(t, r);
  }

  /** What a push that has reserved leaves behind when it is left alone. */
  ghost predicate PushedAlone(h: History, t: nat, n: nat, h': History)
    requires t < |h.s.threads|
  {
    && h'.log == h.log && h'.taken == h.taken && h'.s.threads == h.s.threads[t := Idle(0, [])]
    && h'.s.m.max == h.s.m.max && h'.s.m.prodHead == h.s.m.prodHead && h'.s.m.prodTail == h.s.m.prodTail + n
    && h'.s.m.consHead == h.s.m.consHead && h'.s.m.consTail == h.s.m.consTail && h'.s.m.num == h.s.m.num + n
  }

  /** From the end of the copy on. */
  lemma EndsAlone(h: History, t: nat, r: Request, vals: seq<Val>, at: nat) returns (h': History)
    requires Inv(h) && t < |h.s.threads| && Proper(r) && h.s.threads[t] == PushCopy(vals, at, |vals|)
    requires at == h.s.m.prodTail
    ensures Leads(h, t, r, 4, h') && PushedAlone(h, t, |vals|, h')
  {
    hide Inv, Leads;
    InvThread(h, t);
    var h1 := Follow(h, t, r);
    var h2 := Follow(h1, t, r);
    var h3 := Follow(h2, t, r);
    h' := Follow(h3, t, r);
    NoMoves(h', t, r);
    OneFirst(h3, t, r, 0, h');
    OneFirst(h2, t, r, 1, h');
    OneFirst(h1, t, r, 2, h');
    OneFirst(h, t, r, 3, h');
  }

  lemma {:induction false} CopiesAlone(h: History, t: nat, r: Request, vals: seq<Val>, at: nat, i: nat)
    returns (h': History)
    requires Inv(h) && t < |h.s.threads| && Proper(r) && h.s.threads[t] == PushCopy(vals, at, i) && i <= |vals|
    requires at == h.s.m.prodTail
    ensures Leads(h, t, r, |vals| - i + 4, h') && PushedAlone(h, t, |vals|, h')
    decreases |vals| - i
  {
    hide Inv, Leads, Slot;
    if i == |vals| {
      h' := EndsAlone(h, t, r, vals, at);
    } else {
      InvThread(h, t);
      StepKeeps(h, t, r);
      h' := CopiesAlone(Follow(h, t, r), t, r, vals, at, i + 1);
      OneFirst(h, t, r, |vals| - i + 3, h');
    }
  }

  ghost predicate AllIdle(h: History) { forall t :: 0 <= t < |h.s.threads| ==> h.s.threads[t].Idle? }

  /** With nobody inside a call, a push left alone ends after a number of steps that depends on its length
      only.  If there is room, all its values are in the ring, published and counted, and it answers 0;
      otherwise nothing has changed and it answers -1. */
  lemma PushAlone(h: History, t: nat, vals: seq<Val>) returns (h': History)
    requires Inv(h) && AllIdle(h) && t < |h.s.threads| && Proper(Push(vals))
    ensures var m := h.s.m; var room := |vals| <= m.max - (m.prodHead - m.consTail);
      && Leads(h, t, Push(vals), if room then |vals| + 8 else 3, h')
      && h'.s.threads == h.s.threads[t := Idle(if room then 0 else -1, [])] && h'.taken == h.taken
      && (if room
          then h'.log == h.log + vals && h'.s.m.num == m.num + |vals| && h'.s.m.prodTail == h'.s.m.prodHead == |h'.log|
          else h'.log == h.log && h'.s.m == m)
  {
    hide Inv, Leads, Slot;
    var r := Push(vals);
    InvThread(h, t);
    Settled(h);
    var h1 := Follow(h, t, r);
    var h2 := Follow(h1, t, r);
    var h3 := Follow(h2, t, r);
    StepKeeps(h, t, r);
    StepKeeps(h1, t, r);
    if |vals| <= h.s.m.max - (h.s.m.prodHead - h.s.m.consTail) {
      StepKeeps(h2, t, r);
      StepKeeps(h3, t, r);
      h' := CopiesAlone(Follow(h3, t, r), t, r, vals, h.s.m.prodHead, 0);
      OneFirst(h3, t, r, |vals| + 4, h');
      OneFirst(h2, t, r, |vals| + 5, h');
      OneFirst(h1, t, r, |vals| + 6, h');
      OneFirst(h, t, r, |vals| + 7, h');
    } else {
      h' := h3;
      NoMoves(h', t, r);
      OneFirst(h2, t, r, 0, h');
      OneFirst(h1, t, r, 1, h');
      OneFirst(h, t, r, 2, h');
    }
  }

  /** With nobody inside a call nothing is reserved. */
  lemma Settled(h: History)
    requires Inv(h) && AllIdle(h)
    ensures h.s.m.prodHead == h.s.m.prodTail == |h.log| && h.s.m.consHead == h.s.m.consTail
  {
    Quiescent(h);
  }

  /** What a pop that has reserved leaves behind when it is left alone. */
  ghost predicate PoppedAlone(h: History, t: nat, at: nat, n: nat, h': History)
    requires t < |h.s.threads|
  {
    && h'.log == h.log && at + n <= |h.log| && h'.s.threads == h.s.threads[t := Idle(n, h.log[at..at + n])]
    && h'.s.m == h.s.m.(consTail := h.s.m.consTail + n, num := h.s.m.num - n)
  }

  lemma GivesBackAlone(h: History, t: nat, r: Request, n: nat, at: nat, got: seq<Val>) returns (h': History)
    requires Inv(h) && t < |h.s.threads| && Proper(r) && h.s.threads[t] == PopCopy(n, at, got) && |got| == n
    requires at == h.s.m.consTail
    ensures Leads(h, t, r, 4, h') && PoppedAlone(h, t, at, n, h')
  {
    hide Inv, Leads;
    InvThread(h, t);
    assert got == h.log[at..at + n];
    var h1 := Follow(h, t, r);
    var h2 := Follow(h1, t, r);
    var h3 := Follow(h2, t, r);
    h' := Follow(h3, t, r);
    NoMoves(h', t, r);
    OneFirst(h3, t, r, 0, h');
    OneFirst(h2, t, r, 1, h');
    OneFirst(h1, t, r, 2, h');
    OneFirst(h, t, r, 3, h');
  }

  lemma {:induction false} TakesAlone(h: History, t: nat, r: Request, n: nat, at: nat, got: seq<Val>)
    returns (h': History)
    requires Inv(h) && t < |h.s.threads| && Proper(r) && h.s.threads[t] == PopCopy(n, at, got) && |got| <= n
    requires at == h.s.m.consTail
    ensures Leads(h, t, r, n - |got| + 4, h') && PoppedAlone(h, t, at, n, h')
    decreases n - |got|
  {
    hide Inv, Leads, Slot;
    if |got| == n {
      h' := GivesBackAlone(h, t, r, n, at, got);
    } else {
      InvThread(h, t);
      StepKeeps(h, t, r);
      CopiesNext(h, t, n, at, got);
      h' := TakesAlone(Follow(h, t, r), t, r, n, at, got + [h.log[at + |got|]]);
      OneFirst(h, t, r, n - |got| + 3, h');
    }
  }

  /** The same for a pop: it answers n and hands out the next n values, oldest first, or answers 0. */
  lemma PopAlone(h: History, t: nat, n: nat) returns (h': History)
    requires Inv(h) && AllIdle(h) && t < |h.s.threads| && Proper(Pop(n))
    ensures var m := h.s.m; var enough := n <= m.prodTail - m.consTail;
      && Leads(h, t, Pop(n), if enough then n + 8 else 3, h') && h'.log == h.log
      && (if enough
          then m.consTail + n <= |h.log|
               && h'.s.m == m.(consHead := m.consHead + n, consTail := m.consTail + n, num := m.num - n)
               && h'.s.threads == h.s.threads[t := Idle(n, h.log[m.consTail..m.consTail + n])]
          else h'.s.m == m && h'.s.threads == h.s.threads[t := Idle(0, [])])
  {
    hide Inv, Leads, Slot;
    var r := Pop(n);
    InvThread(h, t);
    Settled(h);
    var h1 := Follow(h, t, r);
    var h2 := Follow(h1, t, r);
    var h3 := Follow(h2, t, r);
    StepKeeps(h, t, r);
    StepKeeps(h1, t, r);
    if n <= h.s.m.prodTail - h.s.m.consTail {
      StepKeeps(h2, t, r);
      StepKeeps(h3, t, r);
      h' := TakesAlone(Follow(h3, t, r), t, r, n, h.s.m.consHead, []);
      OneFirst(h3, t, r, n + 4, h');
      OneFirst(h2, t, r, n + 5, h');
      OneFirst(h1, t, r, n + 6, h');
      OneFirst(h, t, r, n + 7, h');
    } else {
      h' := h3;
      NoMoves(h', t, r);
      OneFirst(h2, t, r, 0, h');
      OneFirst(h1, t, r, 1, h');
      OneFirst(h, t, r, 2, h');
    }
  }
}
