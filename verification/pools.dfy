/** The registry of database connection pools, as threads that interleave
    between atomic dictionary operations. */
module Pools {
  import opened Wrappers

  // Database names, pools, threads and pair objects are named by number.
  type Dsn = nat
  type Pool = nat
  type Thread = nat
  type PairId = nat

  /** The shared mutable list `[pool, timestamp]`. */
  datatype Pair = Pair(pool: Pool, stamp: int)

  const MAX_IDLE_SECONDS := 300

  /** Where a thread is inside its lookup of `dsn`; `keys` are those it has
      still to sweep. */
  datatype Local =
    | Idle
    | Sweeping(dsn: Dsn, keys: seq<Dsn>)
    | Popped(dsn: Dsn, keys: seq<Dsn>, key: Dsn, pair: PairId)
    | PuttingBack(dsn: Dsn, keys: seq<Dsn>, key: Dsn, pair: PairId)
    | Checking(dsn: Dsn, keys: seq<Dsn>, key: Dsn, pair: PairId)
    | Closing(dsn: Dsn, keys: seq<Dsn>, pool: Pool)
    | Looking(dsn: Dsn)
    | Touching(dsn: Dsn, pair: PairId)
    | Creating(dsn: Dsn)
    | Registering(dsn: Dsn, pool: Pool)
    | Discarding(dsn: Dsn, pool: Pool, bound: PairId)
    | Returned(pool: Pool)

  datatype State = State(
    registered: map<Dsn, PairId>,
    pairs: map<PairId, Pair>,
    created: set<Pool>,
    closed: set<Pool>,
    locals: map<Thread, Local>)

  /** One atomic step of thread `t`. The operands are what the step draws from
      outside: the order of dictionary keys, the clock, a new object. */
  datatype Action =
    | Begin(t: Thread, dsn: Dsn, keys: seq<Dsn>)
    | PopNext(t: Thread)
    | Judge(t: Thread, now: int)
    | PutBack(t: Thread)
    | Check(t: Thread)
    | CloseSwept(t: Thread)
    | LookUp(t: Thread)
    | Touch(t: Thread, now: int)
    | Create(t: Thread, pool: Pool)
    | Register(t: Thread, now: int, pair: PairId)
    | Discard(t: Thread)

  function LocalOf(s: State, t: Thread): Local {
    if t in s.locals then s.locals[t] else Idle
  }

  function At(s: State, t: Thread, l: Local): State {
    s.(locals := s.locals[t := l])
  }

  function PoolOf(s: State, p: PairId): Pool {
    if p in s.pairs then s.pairs[p].pool else 0
  }

  /** `dict.setdefault` */
  function SetDefault(s: State, key: Dsn, pair: PairId): State {
    if key in s.registered then s else s.(registered := s.registered[key := pair])
  }

  /** Closing a pool; one that is closed already raises an error, which ends
      the lookup. */
  function Close(s: State, t: Thread, pool: Pool, next: Local): State {
    if pool in s.closed then At(s, t, Idle) else At(s.(closed := s.closed + {pool}), t, next)
  }

  /** The state after an action, if the thread is where the action starts. */
  function Step(s: State, a: Action): Option<State> {
    var l := LocalOf(s, a.t);
    match a
    case Begin(t, dsn, keys) =>
      if (l.Idle? || l.Returned?) && (forall k | k in keys :: k in s.registered)
        && (forall k | k in s.registered :: k in keys) then Some(At(s, t, Sweeping(dsn, keys)))
      else None
    case PopNext(t) =>
      if !l.Sweeping? then None
      else if l.keys == [] then Some(At(s, t, Looking(l.dsn)))
      else
        var key := l.keys[0];
        if key in s.registered
        then Some(At(s.(registered := s.registered - {key}), t, Popped(l.dsn, l.keys[1..], key, s.registered[key])))
        else Some(At(s, t, Sweeping(l.dsn, l.keys[1..])))
    case Judge(t, now) =>
      if !l.Popped? || l.pair !in s.pairs then None
      else if now - s.pairs[l.pair].stamp < MAX_IDLE_SECONDS
        then Some(At(s, t, PuttingBack(l.dsn, l.keys, l.key, l.pair)))
      else Some(At(s, t, Checking(l.dsn, l.keys, l.key, l.pair)))
    case PutBack(t) =>
      if !l.PuttingBack? then None
      else Some(At(SetDefault(s, l.key, l.pair), t, Checking(l.dsn, l.keys, l.key, l.pair)))
    case Check(t) =>
      if !l.Checking? then None
      else if l.key in s.registered && PoolOf(s, s.registered[l.key]) == PoolOf(s, l.pair)
      then Some(At(s, t, Sweeping(l.dsn, l.keys)))
      else Some(At(s, t, Closing(l.dsn, l.keys, PoolOf(s, l.pair))))
    case CloseSwept(t) =>
      if !l.Closing? then None
      else Some(Close(s, t, l.pool, Sweeping(l.dsn, l.keys)))
    case LookUp(t) =>
      if !l.Looking? then None
      else if l.dsn in s.registered then Some(At(s, t, Touching(l.dsn, s.registered[l.dsn])))
      else Some(At(s, t, Creating(l.dsn)))
    case Touch(t, now) =>
      if !l.Touching? || l.pair !in s.pairs then None
      else Some(At(s.(pairs := s.pairs[l.pair := s.pairs[l.pair].(stamp := now)]), t, Returned(PoolOf(s, l.pair))))
    case Create(t, pool) =>
      if !l.Creating? || pool in s.created then None
      else Some(At(s.(created := s.created + {pool}), t, Registering(l.dsn, pool)))
    case Register(t, now, pair) =>
      if !l.Registering? || pair in s.pairs then None
      else
        var r := SetDefault(s.(pairs := s.pairs[pair := Pair(l.pool, now)]), l.dsn, pair);
        var bound := r.registered[l.dsn];
        Some(At(r, t, if PoolOf(r, bound) == l.pool then Returned(l.pool) else Discarding(l.dsn, l.pool, bound)))
    case Discard(t) =>
      if !l.Discarding? then None
      else Some(Close(s, t, l.pool, Returned(PoolOf(s, l.bound))))
  }

  /** A run: any interleaving of the threads' steps. */
  function Run(s: State, actions: seq<Action>): Option<State> {
    if actions == [] then Some(s)
    else
      match Run(s, actions[..|actions| - 1])
      case None => None
      case Some(r) => Step(r, actions[|actions| - 1])
  }

  const START := State(map[], map[], {}, {}, map[])

  // ---------------------------------------------------------------- no leak

  predicate Registered(s: State, p: Pool) {
    exists k | k in s.registered :: PoolOf(s, s.registered[k]) == p
  }

  /** The thread still has to decide what becomes of the pool. */
  predicate Holds(s: State, l: Local, p: Pool) {
    match l
    case Popped(_, _, _, pair) => PoolOf(s, pair) == p
    case PuttingBack(_, _, _, pair) => PoolOf(s, pair) == p
    case Checking(_, _, _, pair) => PoolOf(s, pair) == p
    case Closing(_, _, pool) => pool == p
    case Registering(_, pool) => pool == p
    case Discarding(_, pool, _) => pool == p
    case _ => false
  }

  predicate Held(s: State, p: Pool) {
    exists t | t in s.locals :: Holds(s, s.locals[t], p)
  }

  /** Pair references lead to pairs, and pairs to created pools. */
  ghost predicate References(s: State) {
    && (forall k | k in s.registered :: s.registered[k] in s.pairs)
    && (forall t | t in s.locals :: LocalRefs(s, s.locals[t]))
    && (forall p | p in s.pairs :: s.pairs[p].pool in s.created)
    && s.closed <= s.created
  }

  predicate LocalRefs(s: State, l: Local) {
    match l
    case Popped(_, _, _, pair) => pair in s.pairs
    case PuttingBack(_, _, _, pair) => pair in s.pairs
    case Checking(_, _, _, pair) => pair in s.pairs
    case Closing(_, _, pool) => pool in s.created
    case Touching(_, pair) => pair in s.pairs
    case Registering(_, pool) => pool in s.created
    case Discarding(_, pool, bound) => pool in s.created && bound in s.pairs
    case Returned(pool) => pool in s.created
    case _ => true
  }

  ghost predicate NoLeak(s: State) {
    forall p | p in s.created :: p in s.closed || Registered(s, p) || Held(s, p)
  }

  ghost predicate Safe(s: State) {
    References(s) && NoLeak(s)
  }

  lemma StepReferences(s: State, a: Action)
    requires References(s) && Step(s, a).Some?
    ensures References(Step(s, a).value)
  {
    var r := Step(s, a).value;
    PoolsStable(s, a);
    if a.t in s.locals { assert LocalRefs(s, s.locals[a.t]); }
    forall t | t in r.locals && t != a.t ensures LocalRefs(r, r.locals[t]) {
      OtherRefs(s, a, t);
    }
    OwnRefs(s, a);
    RegisteredRefs(s, a);
  }

  lemma OtherRefs(s: State, a: Action, t: Thread)
    requires References(s) && Step(s, a).Some? && t != a.t && t in Step(s, a).value.locals
    ensures LocalRefs(Step(s, a).value, Step(s, a).value.locals[t])
  {
    assert t in s.locals && LocalRefs(s, s.locals[t]);
  }

  lemma OwnRefs(s: State, a: Action)
    requires References(s) && Step(s, a).Some? && a.t in Step(s, a).value.locals
    ensures LocalRefs(Step(s, a).value, Step(s, a).value.locals[a.t])
  {
    if a.t in s.locals { assert LocalRefs(s, s.locals[a.t]); }
  }

  lemma RegisteredRefs(s: State, a: Action)
    requires References(s) && Step(s, a).Some?
    ensures var r := Step(s, a).value;
      && (forall k | k in r.registered :: r.registered[k] in r.pairs)
      && (forall p | p in r.pairs :: r.pairs[p].pool in r.created)
      && r.closed <= r.created
  {
    if a.t in s.locals { assert LocalRefs(s, s.locals[a.t]); }
  }

  lemma PoolsStable(s: State, a: Action)
    requires References(s) && Step(s, a).Some?
    ensures forall q | q in s.pairs :: q in Step(s, a).value.pairs && PoolOf(Step(s, a).value, q) == PoolOf(s, q)
  {
  }

  /** A step takes a pool out of the registry only by taking hold of it. */
  lemma RegisteredStays(s: State, a: Action, p: Pool)
    requires References(s) && Step(s, a).Some? && Registered(s, p)
    ensures var r := Step(s, a).value; Registered(r, p) || Held(r, p)
  {
    var r := Step(s, a).value;
    PoolsStable(s, a);
    var k :| k in s.registered && PoolOf(s, s.registered[k]) == p;
    if k in r.registered {
      assert r.registered[k] == s.registered[k];
    } else {
      assert Holds(r, r.locals[a.t], p);
    }
  }

  lemma OtherHolderStays(s: State, a: Action, t: Thread, p: Pool)
    requires References(s) && Step(s, a).Some? && t in s.locals && t != a.t && Holds(s, s.locals[t], p)
    ensures Held(Step(s, a).value, p)
  {
    var r := Step(s, a).value;
    PoolsStable(s, a);
    assert LocalRefs(s, s.locals[t]);
    assert r.locals[t] == s.locals[t] && Holds(r, r.locals[t], p);
  }

  /** A thread lets go of a pool only once it is registered or closed. */
  lemma OwnHolderStays(s: State, a: Action, p: Pool)
    requires References(s) && Step(s, a).Some? && a.t in s.locals && Holds(s, s.locals[a.t], p)
    ensures var r := Step(s, a).value; p in r.closed || Registered(r, p) || Held(r, p)
  {
    var r := Step(s, a).value;
    var l := s.locals[a.t];
    PoolsStable(s, a);
    assert LocalRefs(s, l);
    if a.Check? && r.locals[a.t].Sweeping? {
      assert r.registered[l.key] == s.registered[l.key];
      assert Registered(r, p);
    } else if a.Register? && r.locals[a.t].Returned? {
      assert Registered(r, p) by { assert PoolOf(r, r.registered[l.dsn]) == p; }
    } else if a.CloseSwept? || a.Discard? {
      assert p in r.closed;
    } else {
      assert Holds(r, r.locals[a.t], p);
    }
  }

  lemma StepKeepsTrack(s: State, a: Action, p: Pool)
    requires References(s) && Step(s, a).Some?
    requires p in Step(s, a).value.created
    requires p in s.created ==> p in s.closed || Registered(s, p) || Held(s, p)
    ensures var r := Step(s, a).value; p in r.closed || Registered(r, p) || Held(r, p)
  {
    var r := Step(s, a).value;
    if p !in s.created {
      assert Holds(r, r.locals[a.t], p);
    } else if Registered(s, p) {
      RegisteredStays(s, a, p);
    } else if Held(s, p) {
      var t :| t in s.locals && Holds(s, s.locals[t], p);
      if t == a.t {
        OwnHolderStays(s, a, p);
      } else {
        OtherHolderStays(s, a, t, p);
      }
    }
  }

  /** Over every interleaving each created pool is registered, held by a
      thread that will still check it, or closed. */
  lemma {:induction false} RunSafe(actions: seq<Action>)
    requires Run(START, actions).Some?
    ensures Safe(Run(START, actions).value)
    decreases |actions|
  {
    if actions != [] {
      var front, a := actions[..|actions| - 1], actions[|actions| - 1];
      RunSafe(front);
      var s := Run(START, front).value;
      StepReferences(s, a);
      forall p | p in Step(s, a).value.created
        ensures var r := Step(s, a).value; p in r.closed || Registered(r, p) || Held(r, p)
      {
        StepKeepsTrack(s, a, p);
      }
    }
  }

  predicate Quiet(l: Local) {
    l.Idle? || l.Returned?
  }

  ghost predicate Quiescent(s: State) {
    forall t | t in s.locals :: Quiet(s.locals[t])
  }

  /** When no lookup is under way nothing has leaked. */
  lemma QuiescentNoLeak(actions: seq<Action>, p: Pool)
    requires Run(START, actions).Some? && Quiescent(Run(START, actions).value)
    requires p in Run(START, actions).value.created
    ensures var s := Run(START, actions).value; Registered(s, p) || p in s.closed
  {
    RunSafe(actions);
  }

  // ------------------------------------------------- open while registered

  ghost predicate Reachable(s: State) {
    exists actions :: Run(START, actions) == Some(s)
  }

  lemma Reach(s: State, a: Action, r: State)
    requires Reachable(s) && Step(s, a) == Some(r)
    ensures Reachable(r)
  {
    var actions :| Run(START, actions) == Some(s);
    var more := actions + [a];
    assert more[..|more| - 1] == actions;
    assert Run(START, more) == Some(r);
  }

  /** Where a pool in a thread's hands may be registered meanwhile: nowhere,
      or under its own key once it was put back. What may still be put back or
      registered is open. */
  predicate Clear(s: State, l: Local) {
    match l
    case Popped(_, _, _, pair) => !Registered(s, PoolOf(s, pair)) && PoolOf(s, pair) !in s.closed
    case PuttingBack(_, _, _, pair) => !Registered(s, PoolOf(s, pair)) && PoolOf(s, pair) !in s.closed
    case Checking(_, _, key, pair) =>
      forall k | k in s.registered && PoolOf(s, s.registered[k]) == PoolOf(s, pair) :: k == key
    case Closing(_, _, pool) => !Registered(s, pool)
    case Registering(_, pool) => !Registered(s, pool) && pool !in s.closed
    case Discarding(_, pool, _) => !Registered(s, pool)
    case _ => true
  }

  /** Every registered pool is open, and under one key alone. */
  predicate RegisteredOpen(s: State) {
    && (forall k | k in s.registered :: PoolOf(s, s.registered[k]) !in s.closed)
    && (forall k, j | k in s.registered && j in s.registered ::
      PoolOf(s, s.registered[k]) == PoolOf(s, s.registered[j]) ==> k == j)
  }

  ghost predicate AllClear(s: State) {
    forall t | t in s.locals :: Clear(s, s.locals[t])
  }

  /** No two threads have the same pool in hand. */
  ghost predicate Apart(s: State) {
    forall t, u, p | t in s.locals && u in s.locals && Holds(s, s.locals[t], p) && Holds(s, s.locals[u], p) :: t == u
  }

  /** The step pops no pool that another thread put back and has yet to check. */
  predicate Uncontested(s: State, a: Action) {
    var l := LocalOf(s, a.t);
    a.PopNext? && l.Sweeping? && l.keys != [] && l.keys[0] in s.registered ==>
      forall u | u in s.locals && s.locals[u].Checking? ::
        PoolOf(s, s.locals[u].pair) != PoolOf(s, s.registered[l.keys[0]])
  }

  ghost predicate Ordered(s: State) {
    References(s) && RegisteredOpen(s) && AllClear(s) && Apart(s)
  }

  /** A step registers only the pool in the thread's own hand, ... */
  lemma RegistersOwn(s: State, a: Action, k: Dsn)
    requires References(s) && Step(s, a).Some? && k in Step(s, a).value.registered
    ensures
      var r := Step(s, a).value;
      (k in s.registered && r.registered[k] == s.registered[k]) || Holds(s, LocalOf(s, a.t), PoolOf(r, r.registered[k]))
  {
    PoolsStable(s, a);
    if a.t in s.locals { assert LocalRefs(s, s.locals[a.t]); }
  }

  /** ... and closes only one that is in its hand and is not registered. */
  lemma ClosesOwn(s: State, a: Action, p: Pool)
    requires Ordered(s) && Step(s, a).Some? && p in Step(s, a).value.closed && p !in s.closed
    ensures a.t in s.locals && Holds(s, s.locals[a.t], p) && !Registered(s, p) && !Registered(Step(s, a).value, p)
  {
    var r := Step(s, a).value;
    PoolsStable(s, a);
    assert Clear(s, s.locals[a.t]);
    assert r.registered == s.registered && r.pairs == s.pairs;
  }

  /** The pool that a step registers was open and not registered. */
  lemma NewlyRegistered(s: State, a: Action, k: Dsn)
    requires Ordered(s) && Step(s, a).Some? && k in Step(s, a).value.registered && k !in s.registered
    ensures PoolOf(Step(s, a).value, Step(s, a).value.registered[k]) !in s.closed
    ensures !Registered(s, PoolOf(Step(s, a).value, Step(s, a).value.registered[k]))
    ensures forall j | j in Step(s, a).value.registered && j != k :: j in s.registered
  {
    PoolsStable(s, a);
    assert Clear(s, s.locals[a.t]) && LocalRefs(s, s.locals[a.t]);
  }

  lemma OldRegistered(s: State, a: Action, k: Dsn)
    requires References(s) && Step(s, a).Some? && k in s.registered && k in Step(s, a).value.registered
    ensures PoolOf(Step(s, a).value, Step(s, a).value.registered[k]) == PoolOf(s, s.registered[k])
  {
    PoolsStable(s, a);
  }

  lemma StepRegisteredOpen(s: State, a: Action)
    requires Ordered(s) && Step(s, a).Some?
    ensures RegisteredOpen(Step(s, a).value)
  {
    var r := Step(s, a).value;
    forall k | k in r.registered
      ensures PoolOf(r, r.registered[k]) !in r.closed
      ensures if k in s.registered then PoolOf(r, r.registered[k]) == PoolOf(s, s.registered[k])
        else !Registered(s, PoolOf(r, r.registered[k]))
      ensures k in s.registered || forall j | j in r.registered && j != k :: j in s.registered
    {
      if k in s.registered {
        OldRegistered(s, a, k);
      } else {
        NewlyRegistered(s, a, k);
      }
      if PoolOf(r, r.registered[k]) in r.closed {
        ClosesOwn(s, a, PoolOf(r, r.registered[k]));
        assert false;
      }
    }
  }

  /** A pool in another thread's hand is neither registered nor closed. */
  lemma OtherUntouched(s: State, a: Action, t: Thread, p: Pool)
    requires Ordered(s) && Step(s, a).Some? && t in s.locals && t != a.t && Holds(s, s.locals[t], p)
    ensures p in Step(s, a).value.closed ==> p in s.closed
    ensures forall k | k in Step(s, a).value.registered
      && PoolOf(Step(s, a).value, Step(s, a).value.registered[k]) == p ::
      k in s.registered && PoolOf(s, s.registered[k]) == p
  {
    var r := Step(s, a).value;
    PoolsStable(s, a);
    if p in r.closed && p !in s.closed {
      ClosesOwn(s, a, p);
    }
    forall k | k in r.registered && PoolOf(r, r.registered[k]) == p
      ensures k in s.registered && PoolOf(s, s.registered[k]) == p {
      RegistersOwn(s, a, k);
    }
  }

  lemma OtherClear(s: State, a: Action, t: Thread)
    requires Ordered(s) && Step(s, a).Some? && t in s.locals && t != a.t
    ensures Clear(Step(s, a).value, s.locals[t])
  {
    var r, l := Step(s, a).value, s.locals[t];
    PoolsStable(s, a);
    assert Clear(s, l) && LocalRefs(s, l);
    if l.Popped? || l.PuttingBack? || l.Checking? {
      OtherUntouched(s, a, t, PoolOf(s, l.pair));
    } else if l.Closing? || l.Registering? || l.Discarding? {
      OtherUntouched(s, a, t, l.pool);
    }
  }

  lemma OwnClear(s: State, a: Action)
    requires Ordered(s) && Step(s, a).Some?
    ensures Clear(Step(s, a).value, Step(s, a).value.locals[a.t])
  {
    if a.PopNext? || a.PutBack? || a.Create? || a.Register? {
      OwnClearTaking(s, a);
    } else {
      OwnClearKeeping(s, a);
    }
  }

  lemma OwnClearTaking(s: State, a: Action)
    requires Ordered(s) && Step(s, a).Some? && (a.PopNext? || a.PutBack? || a.Create? || a.Register?)
    ensures Clear(Step(s, a).value, Step(s, a).value.locals[a.t])
  {
    PoolsStable(s, a);
    assert Clear(s, s.locals[a.t]) && LocalRefs(s, s.locals[a.t]);
  }

  /** The other steps leave the registry as it is. */
  lemma OwnClearKeeping(s: State, a: Action)
    requires Ordered(s) && Step(s, a).Some? && !(a.PopNext? || a.PutBack? || a.Create? || a.Register?)
    ensures Clear(Step(s, a).value, Step(s, a).value.locals[a.t])
  {
    PoolsStable(s, a);
    assert Step(s, a).value.registered == s.registered;
    if a.t in s.locals { assert Clear(s, s.locals[a.t]); }
  }

  /** What the thread has in hand after a step was in its hand before, or
      comes from the registry, or is new. */
  lemma TakesHold(s: State, a: Action, p: Pool)
    requires References(s) && Step(s, a).Some? && Holds(Step(s, a).value, Step(s, a).value.locals[a.t], p)
    ensures Holds(s, LocalOf(s, a.t), p) || p !in s.created || (a.PopNext? && Registered(s, p))
  {
    PoolsStable(s, a);
    if a.t in s.locals { assert LocalRefs(s, s.locals[a.t]); }
  }

  lemma StepApart(s: State, a: Action)
    requires Ordered(s) && Step(s, a).Some? && Uncontested(s, a)
    ensures Apart(Step(s, a).value)
  {
    var r := Step(s, a).value;
    PoolsStable(s, a);
    forall t, u, p | t in r.locals && u in r.locals && Holds(r, r.locals[t], p) && Holds(r, r.locals[u], p)
      ensures t == u {
      if t != u {
        var v := if t == a.t then u else t;
        OtherHeld(s, a, v, p);
        if t == a.t || u == a.t {
          TakesHold(s, a, p);
          NotTaken(s, a, v, p);
          assert false;
        } else {
          OtherHeld(s, a, u, p);
        }
      }
    }
  }

  lemma OtherHeld(s: State, a: Action, t: Thread, p: Pool)
    requires References(s) && Step(s, a).Some? && t in Step(s, a).value.locals && t != a.t
    requires Holds(Step(s, a).value, Step(s, a).value.locals[t], p)
    ensures t in s.locals && Holds(s, s.locals[t], p)
  {
    PoolsStable(s, a);
    assert LocalRefs(s, s.locals[t]);
  }

  /** A pool in another thread's hand is neither new nor taken. */
  lemma NotTaken(s: State, a: Action, t: Thread, p: Pool)
    requires Ordered(s) && Step(s, a).Some? && Uncontested(s, a) && t in s.locals && t != a.t
    requires Holds(s, s.locals[t], p)
    ensures !Holds(s, LocalOf(s, a.t), p) && p in s.created
    ensures a.PopNext? && Registered(s, p) ==> !Holds(Step(s, a).value, Step(s, a).value.locals[a.t], p)
  {
    assert LocalRefs(s, s.locals[t]) && Clear(s, s.locals[t]);
    PoolsStable(s, a);
  }

  lemma StepOrdered(s: State, a: Action)
    requires Ordered(s) && Step(s, a).Some? && Uncontested(s, a)
    ensures Ordered(Step(s, a).value)
  {
    StepReferences(s, a);
    StepRegisteredOpen(s, a);
    StepApart(s, a);
    var r := Step(s, a).value;
    forall t | t in r.locals ensures Clear(r, r.locals[t]) {
      if t == a.t { OwnClear(s, a); } else { OtherClear(s, a, t); }
    }
  }

  ghost predicate UncontestedRun(actions: seq<Action>) {
    forall n | 0 <= n < |actions| ::
      Run(START, actions[..n]).Some? ==> Uncontested(Run(START, actions[..n]).value, actions[n])
  }

  lemma {:induction false} OrderedRun(actions: seq<Action>)
    requires Run(START, actions).Some? && UncontestedRun(actions)
    ensures Ordered(Run(START, actions).value)
    decreases |actions|
  {
    if actions != [] {
      var front, a := actions[..|actions| - 1], actions[|actions| - 1];
      assert forall n | 0 <= n < |front| :: front[..n] == actions[..n] && front[n] == actions[n];
      OrderedRun(front);
      StepOrdered(Run(START, front).value, a);
    }
  }

  // ------------------------------------------- when a registered pool closes

  /** Some pool in the registry is closed. */
  ghost predicate Broken(s: State) {
    exists p :: Registered(s, p) && p in s.closed
  }

  predicate NoPops(actions: seq<Action>) {
    forall i | 0 <= i < |actions| :: !actions[i].PopNext?
  }

  /** The threads can get there by going on with what they have in hand. */
  ghost predicate Endangered(s: State) {
    exists cont :: NoPops(cont) && Run(s, cont).Some? && Broken(Run(s, cont).value)
  }

  lemma OrderedIntact(s: State)
    requires Ordered(s)
    ensures !Broken(s)
  {
  }

  lemma {:induction false} NoPopsOrdered(s: State, cont: seq<Action>)
    requires Ordered(s) && NoPops(cont) && Run(s, cont).Some?
    ensures Ordered(Run(s, cont).value)
    decreases |cont|
  {
    if cont != [] {
      var front, a := cont[..|cont| - 1], cont[|cont| - 1];
      NoPopsOrdered(s, front);
      StepOrdered(Run(s, front).value, a);
    }
  }

  lemma OrderedSafe(s: State)
    requires Ordered(s)
    ensures !Endangered(s)
  {
    if cont :| NoPops(cont) && Run(s, cont).Some? && Broken(Run(s, cont).value) {
      NoPopsOrdered(s, cont);
      OrderedIntact(Run(s, cont).value);
    }
  }

  function RunNext(s: Option<State>, a: Action): Option<State> {
    if s.None? then None else Step(s.value, a)
  }

  lemma RunLast(s: State, front: seq<Action>, last: Action)
    ensures Run(s, front + [last]) == RunNext(Run(s, front), last)
  {
    var all := front + [last];
    assert all[..|all| - 1] == front && all[|all| - 1] == last;
  }

  lemma RunFromMore(s: State, r: State, a: Action, front: seq<Action>, last: Action)
    requires Run(s, [a] + front) == Run(r, front)
    ensures Run(s, [a] + (front + [last])) == Run(r, front + [last])
  {
    RunLast(s, [a] + front, last);
    RunLast(r, front, last);
    assert [a] + (front + [last]) == ([a] + front) + [last];
  }

  /** A first step before a run. */
  lemma {:induction false} RunFrom(s: State, a: Action, r: State, cont: seq<Action>)
    requires Step(s, a) == Some(r)
    ensures Run(s, [a] + cont) == Run(r, cont)
    decreases |cont|
  {
    if cont == [] {
      RunLast(s, [], a);
      assert [a] + cont == [] + [a];
    } else {
      var front, last := cont[..|cont| - 1], cont[|cont| - 1];
      RunFrom(s, a, r, front);
      RunFromMore(s, r, a, front, last);
      assert cont == front + [last];
    }
  }

  lemma EndangeredBefore(s: State, a: Action, r: State)
    requires Step(s, a) == Some(r) && !a.PopNext? && Endangered(r)
    ensures Endangered(s)
  {
    var cont :| NoPops(cont) && Run(r, cont).Some? && Broken(Run(r, cont).value);
    RunFrom(s, a, r, cont);
    assert NoPops([a] + cont);
  }

  lemma BrokenEndangered(s: State)
    requires Broken(s)
    ensures Endangered(s)
  {
    var none: seq<Action> := [];
    assert NoPops(none) && Run(s, none) == Some(s);
  }

  /** A thread with a closed pool in hand that it has found active puts it back. */
  lemma ClosedPutBack(s: State, t: Thread)
    requires t in s.locals && s.locals[t].PuttingBack? && s.locals[t].key !in s.registered
    requires PoolOf(s, s.locals[t].pair) in s.closed
    ensures Endangered(s)
  {
    var l := s.locals[t];
    var r := At(SetDefault(s, l.key, l.pair), t, Checking(l.dsn, l.keys, l.key, l.pair));
    assert r.registered[l.key] == l.pair;
    assert Registered(r, PoolOf(s, l.pair));
    BrokenEndangered(r);
    EndangeredBefore(s, PutBack(t), r);
  }

  lemma ClosedJudged(s: State, t: Thread)
    requires t in s.locals && s.locals[t].Popped? && s.locals[t].pair in s.pairs && s.locals[t].key !in s.registered
    requires PoolOf(s, s.locals[t].pair) in s.closed
    ensures Endangered(s)
  {
    var l := s.locals[t];
    var r := At(s, t, PuttingBack(l.dsn, l.keys, l.key, l.pair));
    ClosedPutBack(r, t);
    EndangeredBefore(s, Judge(t, s.pairs[l.pair].stamp), r);
  }

  /** Two threads have the same pool in hand, and neither key is registered:
      `u` checks and closes it while `t` is still to put it back. */
  lemma CheckedWhilePopped(s: State, t: Thread, u: Thread)
    requires t != u && t in s.locals && u in s.locals && s.locals[t].Popped? && s.locals[u].Checking?
    requires s.locals[t].pair in s.pairs && s.locals[t].key !in s.registered && s.locals[u].key !in s.registered
    requires PoolOf(s, s.locals[u].pair) == PoolOf(s, s.locals[t].pair)
    ensures Endangered(s)
  {
    var l, p := s.locals[u], PoolOf(s, s.locals[t].pair);
    var r1 := At(s, u, Closing(l.dsn, l.keys, p));
    var r2 := Close(r1, u, p, Sweeping(l.dsn, l.keys));
    ClosedJudged(r2, t);
    EndangeredBefore(r1, CloseSwept(u), r2);
    EndangeredBefore(s, Check(u), r1);
  }

  lemma ContestedEndangers(s: State, a: Action)
    requires Ordered(s) && Step(s, a).Some? && !Uncontested(s, a)
    ensures Endangered(Step(s, a).value)
  {
    var r, l := Step(s, a).value, s.locals[a.t];
    var k := l.keys[0];
    var u :| u in s.locals && s.locals[u].Checking? && PoolOf(s, s.locals[u].pair) == PoolOf(s, s.registered[k]);
    assert Clear(s, s.locals[u]);
    assert s.locals[u].key == k;
    CheckedWhilePopped(r, a.t, u);
  }

  /** The one step that endangers a pool: after a step from a sound state the
      threads can go on, without popping anything more, to a registered pool
      that is closed if and only if the step popped a pool that another thread
      had put back and was still to check. */
  lemma EndangersExactly(s: State, a: Action)
    requires Ordered(s) && Step(s, a).Some?
    ensures Endangered(Step(s, a).value) <==> !Uncontested(s, a)
  {
    if Uncontested(s, a) {
      StepOrdered(s, a);
      OrderedSafe(Step(s, a).value);
    } else {
      ContestedEndangers(s, a);
    }
  }

  /** No state along the run can be carried on to a closed registered pool
      without a further pop. */
  ghost predicate NeverEndangered(actions: seq<Action>) {
    forall n | 0 <= n <= |actions| :: Run(START, actions[..n]).Some? && !Endangered(Run(START, actions[..n]).value)
  }

  lemma {:induction false} RunPrefix(s: State, actions: seq<Action>, n: nat)
    requires Run(s, actions).Some? && n <= |actions|
    ensures Run(s, actions[..n]).Some?
    decreases |actions|
  {
    if n == |actions| {
      assert actions[..n] == actions;
    } else {
      RunPrefix(s, actions[..|actions| - 1], n);
      assert actions[..|actions| - 1][..n] == actions[..n];
    }
  }

  lemma NextInRun(actions: seq<Action>, n: nat)
    requires Run(START, actions).Some? && n < |actions|
    ensures Run(START, actions[..n]).Some?
    ensures Step(Run(START, actions[..n]).value, actions[n]) == Run(START, actions[..n + 1])
  {
    RunPrefix(START, actions, n);
    RunPrefix(START, actions, n + 1);
    assert actions[..n + 1][..n] == actions[..n];
  }

  lemma UncontestedPrefix(actions: seq<Action>, n: nat)
    requires UncontestedRun(actions) && n <= |actions|
    ensures UncontestedRun(actions[..n])
  {
    forall m | 0 <= m < n
      ensures Run(START, actions[..n][..m]).Some? ==>
        Uncontested(Run(START, actions[..n][..m]).value, actions[..n][m])
    {
      assert actions[..n][..m] == actions[..m];
    }
  }

  lemma UncontestedNext(actions: seq<Action>, n: nat)
    requires n < |actions| && UncontestedRun(actions[..n])
    requires Run(START, actions[..n]).Some? ==> Uncontested(Run(START, actions[..n]).value, actions[n])
    ensures UncontestedRun(actions[..n + 1])
  {
    var front, more := actions[..n], actions[..n + 1];
    forall m | 0 <= m < n + 1
      ensures Run(START, more[..m]).Some? ==> Uncontested(Run(START, more[..m]).value, more[m])
    {
      assert more[..m] == actions[..m] && more[m] == actions[m];
      if m < n {
        assert front[..m] == actions[..m] && front[m] == actions[m];
      }
    }
  }

  lemma SafeStep(actions: seq<Action>, n: nat, s: State, r: State)
    requires n < |actions| && UncontestedRun(actions[..n])
    requires Run(START, actions[..n]) == Some(s) && Step(s, actions[n]) == Some(r) && !Endangered(r)
    ensures UncontestedRun(actions[..n + 1])
  {
    OrderedRun(actions[..n]);
    EndangersExactly(s, actions[n]);
    UncontestedNext(actions, n);
  }

  lemma SafePrefix(actions: seq<Action>, n: nat)
    requires Run(START, actions).Some? && NeverEndangered(actions) && n < |actions|
    requires UncontestedRun(actions[..n])
    ensures UncontestedRun(actions[..n + 1])
  {
    NextInRun(actions, n);
    SafeStep(actions, n, Run(START, actions[..n]).value, Run(START, actions[..n + 1]).value);
  }

  lemma {:induction false} NeverEndangeredUncontested(actions: seq<Action>, n: nat)
    requires Run(START, actions).Some? && NeverEndangered(actions) && n <= |actions|
    ensures UncontestedRun(actions[..n])
    decreases n
  {
    if n > 0 {
      NeverEndangeredUncontested(actions, n - 1);
      SafePrefix(actions, n - 1);
    }
  }

  /** Over whole runs: registered pools are open all along, and stay so without
      a further pop, if and only if no thread ever pops a pool that another put
      back and has yet to check. */
  lemma RegisteredStaysOpen(actions: seq<Action>)
    requires Run(START, actions).Some?
    ensures NeverEndangered(actions) <==> UncontestedRun(actions)
    ensures UncontestedRun(actions) ==>
      forall p | Registered(Run(START, actions).value, p) :: p !in Run(START, actions).value.closed
  {
    if UncontestedRun(actions) {
      forall n | 0 <= n <= |actions|
        ensures Run(START, actions[..n]).Some? && !Endangered(Run(START, actions[..n]).value)
      {
        RunPrefix(START, actions, n);
        UncontestedPrefix(actions, n);
        OrderedRun(actions[..n]);
        OrderedSafe(Run(START, actions[..n]).value);
      }
      OrderedRun(actions);
      OrderedIntact(Run(START, actions).value);
    }
    if NeverEndangered(actions) {
      NeverEndangeredUncontested(actions, |actions|);
      assert actions[..|actions|] == actions;
    }
  }

  /** Two threads, at most one pool. */
  function Two(registered: map<Dsn, PairId>, pairs: map<PairId, Pair>, created: set<Pool>, closed: set<Pool>,
      one: Local, two: Local): State {
    State(registered, pairs, created, closed, map[1 := one, 2 := two])
  }

  lemma Reach1(s: State, a: Action, r: State, one: Local, two: Local, l: Local)
    requires s.locals == map[1 := one, 2 := two] && Reachable(s) && Step(s, a) == Some(At(r, 1, l))
    requires r.locals == s.locals
    ensures Reachable(r.(locals := map[1 := l, 2 := two]))
  {
    assert s.locals[1 := l] == map[1 := l, 2 := two];
    Reach(s, a, At(r, 1, l));
  }

  lemma Reach2(s: State, a: Action, r: State, one: Local, two: Local, l: Local)
    requires s.locals == map[1 := one, 2 := two] && Reachable(s) && Step(s, a) == Some(At(r, 2, l))
    requires r.locals == s.locals
    ensures Reachable(r.(locals := map[1 := one, 2 := l]))
  {
    assert s.locals[2 := l] == map[1 := one, 2 := l];
    Reach(s, a, At(r, 2, l));
  }

  function NoPool(one: Local, two: Local): State {
    Two(map[], map[], {}, {}, one, two)
  }

  /** Pool 0 exists; it is registered, or held by some thread. */
  function InRegistry(db: Dsn, closed: set<Pool>, one: Local, two: Local): State {
    Two(map[db := 0], map[0 := Pair(0, 0)], {0}, closed, one, two)
  }

  function Popped0(db: Dsn, closed: set<Pool>, one: Local, two: Local): State {
    Two(map[], map[0 := Pair(0, 0)], {0}, closed, one, two)
  }

  lemma BothBegun(db: Dsn)
    ensures Reachable(NoPool(Sweeping(db, []), Sweeping(db, [])))
  {
    var over := Sweeping(db, []);
    assert Run(START, []) == Some(START);
    Reach(START, Begin(1, db, []), At(START, 1, over));
    Reach(At(START, 1, over), Begin(2, db, []), At(At(START, 1, over), 2, over));
    assert At(At(START, 1, over), 2, over).locals == map[1 := over, 2 := over];
  }

  lemma Opened(db: Dsn, over: Local)
    requires over == Sweeping(db, []) && Reachable(NoPool(over, over))
    ensures Reachable(InRegistry(db, {}, Returned(0), over))
  {
    var s := NoPool(over, over);
    Reach1(s, PopNext(1), s, over, over, Looking(db));
    var s1 := NoPool(Looking(db), over);
    Reach1(s1, LookUp(1), s1, Looking(db), over, Creating(db));
    var s2 := NoPool(Creating(db), over);
    CreateOne(db, s2, over);
    RegisterOne(db, over);
  }

  lemma CreateOne(db: Dsn, s: State, over: Local)
    requires s == NoPool(Creating(db), over) && Reachable(s)
    ensures Reachable(Two(map[], map[], {0}, {}, Registering(db, 0), over))
  {
    assert s.created + {0} == {0};
    Reach1(s, Create(1, 0), s.(created := {0}), Creating(db), over, Registering(db, 0));
  }

  lemma RegisterOne(db: Dsn, over: Local)
    requires Reachable(Two(map[], map[], {0}, {}, Registering(db, 0), over))
    ensures Reachable(InRegistry(db, {}, Returned(0), over))
  {
    var s := Two(map[], map[], {0}, {}, Registering(db, 0), over);
    assert s.pairs[0 := Pair(0, 0)] == map[0 := Pair(0, 0)];
    assert s.registered[db := 0] == map[db := 0];
    Reach1(s, Register(1, 0, 0), s.(registered := map[db := 0], pairs := map[0 := Pair(0, 0)]), Registering(db, 0),
      over, Returned(0));
  }

  /** A thread done sweeping finds the pool and returns it. */
  lemma FirstReturns(db: Dsn, closed: set<Pool>, two: Local)
    requires Reachable(InRegistry(db, closed, Sweeping(db, []), two))
    ensures Reachable(InRegistry(db, closed, Returned(0), two))
  {
    var s0, s1 := InRegistry(db, closed, Sweeping(db, []), two), InRegistry(db, closed, Looking(db), two);
    var s2 := InRegistry(db, closed, Touching(db, 0), two);
    Reach1(s0, PopNext(1), s0, Sweeping(db, []), two, Looking(db));
    Reach1(s1, LookUp(1), s1, Looking(db), two, Touching(db, 0));
    assert s2.pairs[0 := Pair(0, 0)] == s2.pairs;
    Reach1(s2, Touch(1, 0), s2, Touching(db, 0), two, Returned(0));
  }

  lemma SecondReturns(db: Dsn, closed: set<Pool>, one: Local)
    requires Reachable(InRegistry(db, closed, one, Sweeping(db, [])))
    ensures Reachable(InRegistry(db, closed, one, Returned(0)))
  {
    var s0, s1 := InRegistry(db, closed, one, Sweeping(db, [])), InRegistry(db, closed, one, Looking(db));
    var s2 := InRegistry(db, closed, one, Touching(db, 0));
    Reach2(s0, PopNext(2), s0, one, Sweeping(db, []), Looking(db));
    Reach2(s1, LookUp(2), s1, one, Looking(db), Touching(db, 0));
    assert s2.pairs[0 := Pair(0, 0)] == s2.pairs;
    Reach2(s2, Touch(2, 0), s2, one, Touching(db, 0), Returned(0));
  }

  lemma BothSweep(db: Dsn, done: Local, sweep: Local)
    requires done == Returned(0) && sweep == Sweeping(db, [db]) && Reachable(InRegistry(db, {}, done, done))
    ensures Reachable(InRegistry(db, {}, sweep, sweep))
  {
    var s0, s1 := InRegistry(db, {}, done, done), InRegistry(db, {}, sweep, done);
    Reach1(s0, Begin(1, db, [db]), s0, done, done, sweep);
    Reach2(s1, Begin(2, db, [db]), s1, sweep, done, sweep);
  }

  /** The first thread pops the pool, finds it active and puts it back. */
  lemma FirstPutsBack(db: Dsn, sweep: Local)
    requires sweep == Sweeping(db, [db]) && Reachable(InRegistry(db, {}, sweep, sweep))
    ensures Reachable(InRegistry(db, {}, Checking(db, [], db, 0), sweep))
  {
    assert [db][1..] == [];
    var s0 := InRegistry(db, {}, sweep, sweep);
    assert s0.registered - {db} == map[];
    Reach1(s0, PopNext(1), s0.(registered := map[]), sweep, sweep, Popped(db, [], db, 0));
    var s1, s2 := Popped0(db, {}, Popped(db, [], db, 0), sweep), Popped0(db, {}, PuttingBack(db, [], db, 0), sweep);
    Reach1(s1, Judge(1, 0), s1, Popped(db, [], db, 0), sweep, PuttingBack(db, [], db, 0));
    assert s2.registered[db := 0] == map[db := 0];
    Reach1(s2, PutBack(1), s2.(registered := map[db := 0]), PuttingBack(db, [], db, 0), sweep, Checking(db, [], db, 0));
  }

  /** The second pops it before the first has checked, so the first closes it. */
  lemma FirstCloses(db: Dsn, sweep: Local, check: Local)
    requires sweep == Sweeping(db, [db]) && check == Checking(db, [], db, 0)
    requires Reachable(InRegistry(db, {}, check, sweep))
    ensures Reachable(Popped0(db, {0}, Sweeping(db, []), Popped(db, [], db, 0)))
  {
    assert [db][1..] == [];
    var popped := Popped(db, [], db, 0);
    var s0 := InRegistry(db, {}, check, sweep);
    assert s0.registered - {db} == map[];
    Reach2(s0, PopNext(2), s0.(registered := map[]), check, sweep, popped);
    var s1, s2 := Popped0(db, {}, check, popped), Popped0(db, {}, Closing(db, [], 0), popped);
    Reach1(s1, Check(1), s1, check, popped, Closing(db, [], 0));
    assert s2.closed + {0} == {0};
    Reach1(s2, CloseSwept(1), s2.(closed := {0}), Closing(db, [], 0), popped, Sweeping(db, []));
  }

  /** The second puts the closed pool back and finds it registered. */
  lemma SecondRestores(db: Dsn, over: Local)
    requires over == Sweeping(db, []) && Reachable(Popped0(db, {0}, over, Popped(db, [], db, 0)))
    ensures Reachable(InRegistry(db, {0}, over, over))
  {
    var popped, back, check := Popped(db, [], db, 0), PuttingBack(db, [], db, 0), Checking(db, [], db, 0);
    var s0, s1, s2 := Popped0(db, {0}, over, popped), Popped0(db, {0}, over, back), InRegistry(db, {0}, over, check);
    Reach2(s0, Judge(2, 0), s0, over, popped, back);
    assert s1.registered[db := 0] == map[db := 0];
    Reach2(s1, PutBack(2), s1.(registered := map[db := 0]), over, back, check);
    Reach2(s2, Check(2), s2, over, check, over);
  }

  /** A registered pool can be closed, and returned to callers: it happens when
      one thread checks a pool it put back while another holds it. */
  lemma RegisteredPoolCanBeClosed(db: Dsn) returns (acts: seq<Action>)
    ensures Run(START, acts).Some?
    ensures var s := Run(START, acts).value;
      Quiescent(s) && exists p :: Registered(s, p) && p in s.closed
  {
    var over, sweep, done := Sweeping(db, []), Sweeping(db, [db]), Returned(0);
    BothBegun(db);
    Opened(db, over);
    SecondReturns(db, {}, done);
    BothSweep(db, done, sweep);
    FirstPutsBack(db, sweep);
    FirstCloses(db, sweep, Checking(db, [], db, 0));
    SecondRestores(db, over);
    FirstReturns(db, {0}, over);
    SecondReturns(db, {0}, done);
    var s := InRegistry(db, {0}, done, done);
    acts :| Run(START, acts) == Some(s);
    assert PoolOf(s, s.registered[db]) == 0;
    assert Registered(s, 0) && 0 in s.closed;
  }
}
