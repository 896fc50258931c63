/** The reference-count table of mref.c, as steps of any number of threads.

    A step is what one thread does under one hold of a bucket lock.  Under the read lock an entry
    cannot disappear, so a lookup and the atomic change of the count are one step; the re-check and
    the removal happen under one hold of the write lock. */
module Mref {
  type Addr = int

  datatype Thread =
    | Idle
    | Adding(a: Addr)       // mref_alloc has the block, mref_add looks it up
    | Inserting(a: Addr)    // not found: a new entry with count 1 is about to be inserted
    | Rechecking(a: Addr)   // mref_dec took the count to zero and is about to take the write lock
    | Freeing(a: Addr)      // the entry is out of the table, dealloc is about to be called

  /** What an idle thread does next.  `Alloc` carries the block the allocator answers with. */
  datatype Request = Alloc(a: Addr) | Inc(a: Addr) | Dec(a: Addr)

  /** `live` are the blocks the allocator has given out and not got back, `refs` the references that
      the clients hold, `allocs` and `deallocs` the calls of the allocator so far. */
  datatype State = State(
    table: map<Addr, int>,
    threads: seq<Thread>,
    live: set<Addr>,
    refs: multiset<Addr>,
    allocs: multiset<Addr>,
    deallocs: multiset<Addr>)

  /** The allocator never answers with a block that is in use, and clients only give up references
      they hold.  A client may ask for a reference to any address, held or not. */
  ghost predicate Proper(s: State, r: Request) {
    match r
    case Alloc(a) => a !in s.live
    case Inc(a) => true
    case Dec(a) => a in s.refs
  }

  /** An idle thread enters mref_alloc, mref_inc or mref_dec. */
  function Enter(s: State, t: nat, r: Request): State
    requires t < |s.threads|
  {
    match r
    case Alloc(a) => s.(live := s.live + {a}, allocs := s.allocs + multiset{a}, threads := s.threads[t := Adding(a)])
    case Inc(a) =>
      if a in s.table then s.(table := s.table[a := s.table[a] + 1], refs := s.refs + multiset{a}) else s
    case Dec(a) =>
      if a !in s.table then s
      else s.(table := s.table[a := s.table[a] - 1], refs := s.refs - multiset{a},
              threads := if s.table[a] - 1 == 0 then s.threads[t := Rechecking(a)] else s.threads)
  }

  function Step(s: State, t: nat, r: Request): State
    requires t < |s.threads|
  {
    match s.threads[t]
    case Idle => Enter(s, t, r)
    case Adding(a) =>
      if a in s.table
      then s.(table := s.table[a := s.table[a] + 1], refs := s.refs + multiset{a}, threads := s.threads[t := Idle])
      else s.(threads := s.threads[t := Inserting(a)])
    case Inserting(a) =>
      if a in s.table
      then s.(threads := s.threads[t := Adding(a)])
      else s.(table := s.table[a := 1], refs := s.refs + multiset{a}, threads := s.threads[t := Idle])
    case Rechecking(a) =>
      if a in s.table && s.table[a] == 0
      then s.(table := s.table - {a}, threads := s.threads[t := Freeing(a)])
      else s.(threads := s.threads[t := Idle])
    case Freeing(a) =>
      s.(live := s.live - {a}, deallocs := s.deallocs + multiset{a}, threads := s.threads[t := Idle])
  }

  // ----- the invariant

  /** The thread owns a block that is not in the table. */
  ghost predicate Outside(th: Thread, a: Addr) {
    th == Adding(a) || th == Inserting(a) || th == Freeing(a)
  }

  ghost predicate SomeOutside(threads: seq<Thread>, a: Addr) {
    exists t :: 0 <= t < |threads| && Outside(threads[t], a)
  }

  ghost predicate SomeRechecking(threads: seq<Thread>, a: Addr) {
    exists t :: 0 <= t < |threads| && threads[t] == Rechecking(a)
  }

  /** The count in the table is the number of references held. */
  ghost predicate Counted(table: map<Addr, int>, refs: multiset<Addr>) {
    forall a :: refs[a] == if a in table then table[a] else 0
  }

  ghost predicate TableIsLive(table: map<Addr, int>, live: set<Addr>) {
    forall a :: a in table ==> a in live
  }

  /** A live block is in the table, or a thread has it outside. */
  ghost predicate LiveIsSomewhere(table: map<Addr, int>, threads: seq<Thread>, live: set<Addr>) {
    forall a :: a in live && a !in table ==> SomeOutside(threads, a)
  }

  /** A block that a thread has outside is live and not in the table. */
  ghost predicate OutsideIsLive(table: map<Addr, int>, threads: seq<Thread>, live: set<Addr>) {
    forall t, a :: 0 <= t < |threads| && Outside(threads[t], a) ==> a in live && a !in table
  }

  /** No two threads have the same block outside. */
  ghost predicate OneOwner(threads: seq<Thread>) {
    forall t, u, a :: 0 <= t < u < |threads| && Outside(threads[t], a) ==> !Outside(threads[u], a)
  }

  /** Whoever took a count to zero is not gone: some thread is still going to look at it again. */
  ghost predicate Watched(table: map<Addr, int>, threads: seq<Thread>) {
    forall a :: a in table && table[a] == 0 ==> SomeRechecking(threads, a)
  }

  /** A block is live exactly if it was given out once more than it was given back. */
  ghost predicate Balanced(live: set<Addr>, allocs: multiset<Addr>, deallocs: multiset<Addr>) {
    forall a :: allocs[a] == deallocs[a] + if a in live then 1 else 0
  }

  ghost predicate Inv(s: State) {
    && Counted(s.table, s.refs)
    && TableIsLive(s.table, s.live)
    && LiveIsSomewhere(s.table, s.threads, s.live)
    && OutsideIsLive(s.table, s.threads, s.live)
    && OneOwner(s.threads)
    && Watched(s.table, s.threads) && Balanced(s.live, s.allocs, s.deallocs)
  }

  lemma StepKeeps(s: State, t: nat, r: Request)
    requires Inv(s) && t < |s.threads| && Proper(s, r)
    ensures Inv(Step(s, t, r))
  {
    CountedKeeps(s, t, r);
    TableKeeps(s, t, r);
    OutsideKeeps(s, t, r);
    OwnerKeeps(s, t, r);
    SomewhereKeeps(s, t, r);
    WatchedKeeps(s, t, r);
    BalancedKeeps(s, t, r);
  }

  lemma CountedKeeps(s: State, t: nat, r: Request)
    requires Counted(s.table, s.refs) && t < |s.threads| && Proper(s, r)
    ensures Counted(Step(s, t, r).table, Step(s, t, r).refs)
  {
  }

  lemma BalancedKeeps(s: State, t: nat, r: Request)
    requires Balanced(s.live, s.allocs, s.deallocs) && OutsideIsLive(s.table, s.threads, s.live)
    requires t < |s.threads| && Proper(s, r)
    ensures Balanced(Step(s, t, r).live, Step(s, t, r).allocs, Step(s, t, r).deallocs)
  {
    assert s.threads[t].Freeing? ==> Outside(s.threads[t], s.threads[t].a);
  }

  lemma TableKeeps(s: State, t: nat, r: Request)
    requires TableIsLive(s.table, s.live) && OutsideIsLive(s.table, s.threads, s.live)
    requires t < |s.threads| && Proper(s, r)
    ensures TableIsLive(Step(s, t, r).table, Step(s, t, r).live)
  {
    assert !s.threads[t].Idle? && !s.threads[t].Rechecking? ==> Outside(s.threads[t], s.threads[t].a);
  }

  lemma OutsideKeeps(s: State, t: nat, r: Request)
    requires TableIsLive(s.table, s.live) && OutsideIsLive(s.table, s.threads, s.live) && OneOwner(s.threads)
    requires t < |s.threads| && Proper(s, r)
    ensures OutsideIsLive(Step(s, t, r).table, Step(s, t, r).threads, Step(s, t, r).live)
  {
    var s' := Step(s, t, r);
    assert !s.threads[t].Idle? && !s.threads[t].Rechecking? ==> Outside(s.threads[t], s.threads[t].a);
    forall u, a | 0 <= u < |s'.threads| && Outside(s'.threads[u], a) ensures a in s'.live && a !in s'.table {
      if u != t {
        assert s'.threads[u] == s.threads[u];
        assert !(Outside(s.threads[t], a)) by {
          if u < t {} else {}
        }
      }
    }
  }

  lemma OwnerKeeps(s: State, t: nat, r: Request)
    requires TableIsLive(s.table, s.live) && OutsideIsLive(s.table, s.threads, s.live) && OneOwner(s.threads)
    requires t < |s.threads| && Proper(s, r)
    ensures OneOwner(Step(s, t, r).threads)
  {
    var s' := Step(s, t, r);
    forall u, v, a | 0 <= u < v < |s'.threads| && Outside(s'.threads[u], a) ensures !Outside(s'.threads[v], a) {
      assert u != t ==> s'.threads[u] == s.threads[u];
      assert v != t ==> s'.threads[v] == s.threads[v];
    }
  }

  lemma SomewhereKeeps(s: State, t: nat, r: Request)
    requires LiveIsSomewhere(s.table, s.threads, s.live)
    requires t < |s.threads| && Proper(s, r)
    ensures LiveIsSomewhere(Step(s, t, r).table, Step(s, t, r).threads, Step(s, t, r).live)
  {
    var s' := Step(s, t, r);
    forall a | a in s'.live && a !in s'.table ensures SomeOutside(s'.threads, a) {
      StaysOutside(s, t, r, a);
    }
  }

  lemma StaysOutside(s: State, t: nat, r: Request, a: Addr)
    requires a in s.live && a !in s.table ==> SomeOutside(s.threads, a)
    requires t < |s.threads| && Proper(s, r)
    requires a in Step(s, t, r).live && a !in Step(s, t, r).table
    ensures SomeOutside(Step(s, t, r).threads, a)
  {
    var s' := Step(s, t, r);
    if a in s.live && a !in s.table && !Outside(s.threads[t], a) {
      var u :| 0 <= u < |s.threads| && Outside(s.threads[u], a);
      assert s'.threads[u] == s.threads[u];
    } else {
      assert Outside(s'.threads[t], a);
    }
  }

  lemma WatchedKeeps(s: State, t: nat, r: Request)
    requires Watched(s.table, s.threads) && Counted(s.table, s.refs) && t < |s.threads| && Proper(s, r)
    ensures Watched(Step(s, t, r).table, Step(s, t, r).threads)
  {
    var s' := Step(s, t, r);
    forall a | a in s'.table && s'.table[a] == 0 ensures SomeRechecking(s'.threads, a) {
      if a in s.table && s.table[a] == 0 {
        assert SomeRechecking(s.threads, a);
        var u :| 0 <= u < |s.threads| && s.threads[u] == Rechecking(a);
        assert s'.threads[u] == Rechecking(a);
      } else {
        StartsWatching(s, t, r, a);
      }
    }
  }

  lemma StartsWatching(s: State, t: nat, r: Request, a: Addr)
    requires Counted(s.table, s.refs) && t < |s.threads| && Proper(s, r)
    requires a !in s.table || s.table[a] != 0
    requires a in Step(s, t, r).table && Step(s, t, r).table[a] == 0
    ensures Step(s, t, r).threads[t] == Rechecking(a)
  {
    assert a in s.table ==> s.table[a] == s.refs[a];
  }

  // ----- what the invariant says

  /** A block that somebody holds a reference to is live, counted, and no thread is about to free it. */
  lemma HeldIsSafe(s: State, a: Addr)
    requires Inv(s) && a in s.refs
    ensures a in s.live && a in s.table && s.table[a] == s.refs[a]
    ensures forall t :: 0 <= t < |s.threads| ==> s.threads[t] != Freeing(a)
  {
    assert forall t :: 0 <= t < |s.threads| && s.threads[t] == Freeing(a) ==> Outside(s.threads[t], a);
  }

  /** The allocator's dealloc is called by a step on a block that is live, that nobody references and
      that has left the table, and no other thread will call it for that block again. */
  lemma DeallocIsSafe(s: State, t: nat, r: Request)
    requires Inv(s) && t < |s.threads| && Proper(s, r)
    requires Step(s, t, r).deallocs != s.deallocs
    ensures s.threads[t].Freeing?
    ensures var a := s.threads[t].a;
      && a in s.live && a !in s.table && a !in s.refs
      && Step(s, t, r).deallocs == s.deallocs + multiset{a}
      && (forall u :: 0 <= u < |s.threads| && u != t ==> s.threads[u] != Freeing(a))
  {
    assert s.threads[t].Freeing?;
    var a := s.threads[t].a;
    assert Outside(s.threads[t], a);
    forall u | 0 <= u < |s.threads| && u != t ensures s.threads[u] != Freeing(a) {
      Alone(s.threads, t, u, a);
    }
  }

  lemma Alone(threads: seq<Thread>, t: nat, u: nat, a: Addr)
    requires OneOwner(threads) && t < |threads| && u < |threads| && t != u && Outside(threads[t], a)
    ensures !Outside(threads[u], a)
  {
  }

  /** A block goes on its way to dealloc by one step only: its count is zero, it leaves the table. */
  lemma FreedOnlyAtZero(s: State, t: nat, r: Request, u: nat, a: Addr)
    requires Inv(s) && t < |s.threads| && Proper(s, r) && u < |s.threads|
    requires s.threads[u] != Freeing(a) && Step(s, t, r).threads[u] == Freeing(a)
    ensures u == t && s.threads[t] == Rechecking(a)
    ensures a in s.table && s.table[a] == 0 && a !in s.refs
    ensures Step(s, t, r).table == s.table - {a} && Step(s, t, r).refs == s.refs
  {
  }

  /** The lookup in mref_add never finds an entry: a fresh block is inserted with count one. */
  lemma FreshIsNotCounted(s: State, t: nat, r: Request)
    requires Inv(s) && t < |s.threads| && Proper(s, r)
    requires s.threads[t].Adding? || s.threads[t].Inserting?
    ensures s.threads[t].a !in s.table && s.threads[t].a !in s.refs
    ensures Step(s, t, r).threads[t] != Adding(s.threads[t].a)
    ensures s.threads[t].Inserting? ==> Step(s, t, r).table == s.table[s.threads[t].a := 1]
  {
    assert Outside(s.threads[t], s.threads[t].a);
  }

  /** No thread inside a call: exactly the blocks with references are live, and every other block the
      allocator ever gave out has been given back, as often as it was given out. */
  lemma Quiescent(s: State)
    requires Inv(s) && forall t :: 0 <= t < |s.threads| ==> s.threads[t].Idle?
    ensures forall a :: a in s.live <==> a in s.refs
    ensures forall a :: a in s.table <==> a in s.refs
    ensures forall a :: s.deallocs[a] == s.allocs[a] - if a in s.refs then 1 else 0
  {
    forall a ensures a in s.live <==> a in s.refs ensures a in s.table <==> a in s.refs {
      assert !SomeOutside(s.threads, a) && !SomeRechecking(s.threads, a);
    }
  }

  // ----- what each call does

  /** mref_inc of a block in the table adds exactly one reference and one to its count; of any other
      address it does nothing. */
  lemma IncGives(s: State, t: nat, a: Addr)
    requires t < |s.threads| && s.threads[t].Idle?
    ensures var s' := Step(s, t, Inc(a));
      && (a !in s.table ==> s' == s)
      && (a in s.table ==>
            && (forall b :: s'.refs[b] == s.refs[b] + if b == a then 1 else 0)
            && s'.table.Keys == s.table.Keys
            && (forall b :: b in s.table ==> s'.table[b] == s.table[b] + if b == a then 1 else 0)
            && s'.threads == s.threads && s'.live == s.live
            && s'.allocs == s.allocs && s'.deallocs == s.deallocs)
  {
  }

  /** mref_dec takes exactly one reference and one of the count; the thread goes on to look at the entry
      again exactly if no reference is left, and is done otherwise. */
  lemma DecTakes(s: State, t: nat, a: Addr)
    requires Inv(s) && t < |s.threads| && s.threads[t].Idle? && a in s.refs
    ensures var s' := Step(s, t, Dec(a));
      && (forall b :: s'.refs[b] == s.refs[b] - if b == a then 1 else 0)
      && s'.table.Keys == s.table.Keys
      && (forall b :: b in s.table ==> s'.table[b] == s.table[b] - if b == a then 1 else 0)
      && s'.threads == s.threads[t := if s'.refs[a] == 0 then Rechecking(a) else Idle]
      && s'.live == s.live && s'.allocs == s.allocs && s'.deallocs == s.deallocs
  {
    HeldIsSafe(s, a);
  }

  /** mref_alloc: the block is given out, and two steps later it is in the table with its one reference. */
  lemma AllocGives(s: State, t: nat, a: Addr, r: Request)
    requires Inv(s) && t < |s.threads|
    ensures s.threads[t].Idle? && a !in s.live ==> var s' := Step(s, t, Alloc(a));
      && s'.live == s.live + {a} && s'.allocs == s.allocs + multiset{a} && s'.deallocs == s.deallocs
      && s'.table == s.table && s'.refs == s.refs && s'.threads == s.threads[t := Adding(a)]
    ensures s.threads[t] == Adding(a) ==> Step(s, t, r) == s.(threads := s.threads[t := Inserting(a)])
    ensures s.threads[t] == Inserting(a) ==> var s' := Step(s, t, r);
      && s'.table == s.table[a := 1] && s'.refs == s.refs + multiset{a} && s.refs[a] == 0
      && s'.threads == s.threads[t := Idle] && s'.live == s.live
      && s'.allocs == s.allocs && s'.deallocs == s.deallocs
  {
    assert !s.threads[t].Idle? && !s.threads[t].Rechecking? ==> Outside(s.threads[t], s.threads[t].a);
  }

  /** The second look at the entry: it is taken out exactly if it is still there without references;
      then the block is given back. */
  lemma FreesExactly(s: State, t: nat, a: Addr, r: Request)
    requires Inv(s) && t < |s.threads|
    ensures s.threads[t] == Rechecking(a) ==> var s' := Step(s, t, r);
      && s'.refs == s.refs && s'.live == s.live && s'.allocs == s.allocs && s'.deallocs == s.deallocs
      && (if a in s.table && s.refs[a] == 0
          then s'.table == s.table - {a} && s'.threads == s.threads[t := Freeing(a)]
          else s'.table == s.table && s'.threads == s.threads[t := Idle])
    ensures s.threads[t] == Freeing(a) ==> var s' := Step(s, t, r);
      && s'.live == s.live - {a} && s'.deallocs == s.deallocs + multiset{a} && s'.allocs == s.allocs
      && s'.table == s.table && s'.refs == s.refs && s'.threads == s.threads[t := Idle]
  {
  }

  /** The steps that a call has left. */
  function Left(th: Thread): nat {
    match th
    case Idle => 0
    case Inserting(_) => 1
    case Freeing(_) => 1
    case Adding(_) => 2
    case Rechecking(_) => 2
  }

  /** No call is ever held up: each of its steps is one less to go, whatever the other threads do. */
  lemma CallsEnd(s: State, t: nat, r: Request)
    requires Inv(s) && t < |s.threads| && Proper(s, r)
    ensures var s' := Step(s, t, r);
      && |s'.threads| == |s.threads| && (forall u :: 0 <= u < |s.threads| && u != t ==> s'.threads[u] == s.threads[u])
      && (!s.threads[t].Idle? ==> Left(s'.threads[t]) < Left(s.threads[t]))
      && Left(s'.threads[t]) <= 2
  {
    assert !s.threads[t].Idle? && !s.threads[t].Rechecking? ==> Outside(s.threads[t], s.threads[t].a);
  }

  // ----- runs

  datatype Move = Move(t: nat, r: Request)

  ghost predicate ProperRun(s: State, moves: seq<Move>)
    decreases |moves|
  {
    moves == [] ||
    (moves[0].t < |s.threads| && Proper(s, moves[0].r) && ProperRun(Step(s, moves[0].t, moves[0].r), moves[1..]))
  }

  function Run(s: State, moves: seq<Move>): State
    requires ProperRun(s, moves)
    decreases |moves|
  {
    if moves == [] then s else Run(Step(s, moves[0].t, moves[0].r), moves[1..])
  }

  function Start(n: nat): State {
    State(map[], seq(n, _ => Idle), {}, multiset{}, multiset{}, multiset{})
  }

  lemma {:induction false} RunKeeps(s: State, moves: seq<Move>)
    requires Inv(s) && ProperRun(s, moves)
    ensures Inv(Run(s, moves))
    decreases |moves|
  {
    if moves != [] {
      StepKeeps(s, moves[0].t, moves[0].r);
      RunKeeps(Step(s, moves[0].t, moves[0].r), moves[1..]);
    }
  }

  /** Every run of any number of threads: references keep a block alive, dealloc is called at most
      once for each time the allocator gave a block out, and once nobody is inside a call the blocks
      without references have all been freed. */
  lemma RunSafe(n: nat, moves: seq<Move>)
    requires ProperRun(Start(n), moves)
    ensures var s := Run(Start(n), moves);
      && (forall a :: a in s.refs ==> a in s.live && a in s.table && s.table[a] == s.refs[a])
      && (forall a :: s.deallocs[a] <= s.allocs[a] <= s.deallocs[a] + 1)
      && (forall a :: a in s.refs ==> s.deallocs[a] + 1 == s.allocs[a])
      && (forall a :: a in s.table && s.table[a] == 0 ==> SomeRechecking(s.threads, a))
      && ((forall t :: 0 <= t < |s.threads| ==> s.threads[t].Idle?) ==>
           forall a :: s.deallocs[a] == s.allocs[a] - if a in s.refs then 1 else 0)
  {
    RunKeeps(Start(n), moves);
    var s := Run(Start(n), moves);
    forall a | a in s.refs ensures a in s.live && a in s.table && s.table[a] == s.refs[a] { HeldIsSafe(s, a); }
    if forall t :: 0 <= t < |s.threads| ==> s.threads[t].Idle? { Quiescent(s); }
  }

  // ----- counting over runs

  /** An entry is inserted. */
  predicate Inserts(s: State, move: Move, a: Addr) {
    move.t < |s.threads| && s.threads[move.t] == Inserting(a) && a !in s.table
  }

  /** An mref_inc finds its entry. */
  predicate Incs(s: State, move: Move, a: Addr) {
    move.t < |s.threads| && s.threads[move.t].Idle? && move.r == Inc(a) && a in s.table
  }

  /** An mref_dec finds its entry. */
  predicate Decs(s: State, move: Move, a: Addr) {
    move.t < |s.threads| && s.threads[move.t].Idle? && move.r == Dec(a) && a in s.table
  }

  predicate Allocs(s: State, move: Move, a: Addr) {
    move.t < |s.threads| && s.threads[move.t].Idle? && move.r == Alloc(a)
  }

  predicate Frees(s: State, move: Move, a: Addr) {
    move.t < |s.threads| && s.threads[move.t] == Freeing(a)
  }

  /** How often it happens in a run. */
  ghost function Count(s: State, moves: seq<Move>, a: Addr, what: (State, Move, Addr) -> bool): nat
    requires ProperRun(s, moves)
    decreases |moves|
  {
    if moves == [] then 0
    else (if what(s, moves[0], a) then 1 else 0) + Count(Step(s, moves[0].t, moves[0].r), moves[1..], a, what)
  }

  lemma {:induction false} CountsFrom(s: State, moves: seq<Move>, a: Addr)
    requires Inv(s) && ProperRun(s, moves)
    ensures var s' := Run(s, moves);
      && s'.refs[a] == s.refs[a] + Count(s, moves, a, Inserts) + Count(s, moves, a, Incs) - Count(s, moves, a, Decs)
      && s'.allocs[a] == s.allocs[a] + Count(s, moves, a, Allocs)
      && s'.deallocs[a] == s.deallocs[a] + Count(s, moves, a, Frees)
    decreases |moves|
  {
    if moves != [] {
      StepKeeps(s, moves[0].t, moves[0].r);
      OneMove(s, moves[0], a);
      CountsFrom(Step(s, moves[0].t, moves[0].r), moves[1..], a);
    }
  }

  lemma OneMove(s: State, move: Move, a: Addr)
    requires Inv(s) && move.t < |s.threads| && Proper(s, move.r)
    ensures var s' := Step(s, move.t, move.r);
      && s'.refs[a] == s.refs[a] + (if Inserts(s, move, a) || Incs(s, move, a) then 1 else 0) -
           (if Decs(s, move, a) then 1 else 0)
      && s'.allocs[a] == s.allocs[a] + (if Allocs(s, move, a) then 1 else 0)
      && s'.deallocs[a] == s.deallocs[a] + (if Frees(s, move, a) then 1 else 0)
  {
    var th := s.threads[move.t];
    assert !th.Idle? && !th.Rechecking? ==> Outside(th, th.a);
  }

  /** Every run: the references held to a block are the entries inserted for it and the successful
      mref_incs, less the successful mref_decs; it was given out by as many mref_allocs, and given back
      by as many calls of dealloc, as the allocator says. */
  lemma RunCounts(n: nat, moves: seq<Move>, a: Addr)
    requires ProperRun(Start(n), moves)
    ensures var s := Run(Start(n), moves);
      && s.refs[a] ==
           Count(Start(n), moves, a, Inserts) + Count(Start(n), moves, a, Incs) - Count(Start(n), moves, a, Decs)
      && s.allocs[a] == Count(Start(n), moves, a, Allocs)
      && s.deallocs[a] == Count(Start(n), moves, a, Frees)
  {
    CountsFrom(Start(n), moves, a);
  }
}
