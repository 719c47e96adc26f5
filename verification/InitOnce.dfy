/** Once-initialisation and deinitialisation of handles, by any number of threads. */
module InitOnce {
  import opened Options

  // A step machine: any number of threads run double-checked initialisation and lock-free
  // deinitialisation of any number of handle addresses, one atomic step at a time in any order.

  type Tid = nat
  type Addr = nat

  /** What the user's init function does: fail with a nonzero code, succeed with null, or hand over a handle. */
  datatype InitOutcome = InitError(code: int) | NullResult | Handle(value: nat)

  /** Where a thread stands inside a call; Idle is outside any call. */
  datatype Pc =
    | Idle
    | Entered(h: Addr)                                   // before the acquire load
    | Waiting(h: Addr)                                   // saw null, wants the mutex
    | Locked(h: Addr)                                    // holds the mutex, before the second check
    | Initializing(h: Addr)                              // saw null again, inside init_func
    | Storing(h: Addr, value: nat)                       // before the release store
    | Unlocking(h: Addr, code: int, seen: Option<nat>)   // before leaving the locked scope
    | Exchanging(h: Addr)                                // before the exchange with null
    | Deinitializing(h: Addr, event: nat)                // inside deinit_func on a taken handle

  datatype Stored = Stored(h: Addr, value: nat)

  /** A finished init call: its code and, when it returned 0, the store whose handle it saw. */
  datatype Returned = Returned(t: Tid, h: Addr, code: int, seen: Option<nat>)

  /**
    The shared state.  `cells` holds the non-null handles, named by the store that put them there;
    the logs record every store, every exchange that took a handle, every deinit_func call and
    every return from an init call.
  */
  datatype State = State(cells: map<Addr, nat>, owner: Option<Tid>, pcs: map<Tid, Pc>,
                         stores: seq<Stored>, taken: seq<Addr>, freed: seq<nat>, finished: seq<Returned>)

  datatype Action =
    | CallInit(t: Tid, a: Addr) | CallDeinit(t: Tid, a: Addr)
    | Load(t: Tid) | Acquire(t: Tid) | Check(t: Tid) | RunInit(t: Tid, outcome: InitOutcome) | Store(t: Tid)
    | Unlock(t: Tid) | Exchange(t: Tid) | RunDeinit(t: Tid)

  function Pcs(s: State, t: Tid): Pc { if t in s.pcs then s.pcs[t] else Idle }

  function Goto(s: State, t: Tid, pc: Pc): State { s.(pcs := s.pcs[t := pc]) }

  predicate Enabled(s: State, a: Action) {
    match a
    case CallInit(t, _) => Pcs(s, t).Idle?
    case CallDeinit(t, _) => Pcs(s, t).Idle?
    case Load(t) => Pcs(s, t).Entered?
    case Acquire(t) => Pcs(s, t).Waiting? && s.owner.None?
    case Check(t) => Pcs(s, t).Locked?
    case RunInit(t, outcome) =>
      Pcs(s, t).Initializing? && (outcome.InitError? ==> outcome.code != 0) && (outcome.Handle? ==> outcome.value != 0)
    case Store(t) => Pcs(s, t).Storing?
    case Unlock(t) => Pcs(s, t).Unlocking?
    case Exchange(t) => Pcs(s, t).Exchanging?
    case RunDeinit(t) => Pcs(s, t).Deinitializing?
  }

  function Step(s: State, a: Action): State
    requires Enabled(s, a)
  {
    var pc := Pcs(s, a.t);
    match a
    case CallInit(t, h) => Goto(s, t, Entered(h))
    case CallDeinit(t, h) => Goto(s, t, Exchanging(h))
    case Load(t) =>
      if pc.h in s.cells then
        Goto(s, t, Idle).(finished := s.finished + [Returned(t, pc.h, 0, Some(s.cells[pc.h]))])
      else Goto(s, t, Waiting(pc.h))
    case Acquire(t) => Goto(s, t, Locked(pc.h)).(owner := Some(t))
    case Check(t) =>
      if pc.h in s.cells then Goto(s, t, Unlocking(pc.h, 0, Some(s.cells[pc.h])))
      else Goto(s, t, Initializing(pc.h))
    case RunInit(t, outcome) =>
      (match outcome
       case InitError(code) => Goto(s, t, Unlocking(pc.h, code, None))
       case NullResult => Goto(s, t, Unlocking(pc.h, -1, None))
       case Handle(value) => Goto(s, t, Storing(pc.h, value)))
    case Store(t) =>
      Goto(s, t, Unlocking(pc.h, 0, Some(|s.stores|)))
      .(cells := s.cells[pc.h := |s.stores|], stores := s.stores + [Stored(pc.h, pc.value)])
    case Unlock(t) =>
      Goto(s, t, Idle).(owner := None, finished := s.finished + [Returned(t, pc.h, pc.code, pc.seen)])
    case Exchange(t) =>
      if pc.h in s.cells then
        Goto(s, t, Deinitializing(pc.h, s.cells[pc.h])).(cells := s.cells - {pc.h}, taken := s.taken + [pc.h])
      else Goto(s, t, Idle)
    case RunDeinit(t) => Goto(s, t, Idle).(freed := s.freed + [pc.event])
  }

  function Start(): State { State(map[], None, map[], [], [], [], []) }

  predicate Possible(s: State, run: seq<Action>)
    decreases |run|
  {
    run == [] || (Enabled(s, run[0]) && Possible(Step(s, run[0]), run[1..]))
  }

  function After(s: State, run: seq<Action>): State
    requires Possible(s, run)
    decreases |run|
  {
    if run == [] then s else After(Step(s, run[0]), run[1..])
  }

  // ---------- the invariant ----------

  predicate HoldsMutex(pc: Pc) {
    pc.Locked? || pc.Initializing? || pc.Storing? || pc.Unlocking?
  }

  ghost predicate MutexOk(s: State) {
    forall t: Tid :: HoldsMutex(Pcs(s, t)) <==> s.owner == Some(t)
  }

  /** Between the second check and the store the handle stays null: only the mutex holder stores. */
  ghost predicate StillNull(s: State) {
    forall t: Tid :: Pcs(s, t).Initializing? || Pcs(s, t).Storing? ==> Pcs(s, t).h !in s.cells
  }

  ghost predicate Current(s: State, e: nat) {
    e < |s.stores| && s.stores[e].h in s.cells && s.cells[s.stores[e].h] == e
  }

  ghost predicate Pending(s: State, t: Tid, e: nat) {
    Pcs(s, t).Deinitializing? && Pcs(s, t).event == e
  }

  ghost predicate CellsOk(s: State) {
    forall h :: h in s.cells ==> s.cells[h] < |s.stores| && s.stores[s.cells[h]].h == h
  }

  /** Every stored handle is in one place only: current, taken by one thread, or deinitialised once. */
  ghost predicate OnePlace(s: State) {
    (forall i, j :: 0 <= i < j < |s.freed| ==> s.freed[i] != s.freed[j]) &&
    (forall e: nat :: e in s.freed ==> e < |s.stores| && !Current(s, e)) &&
    (forall t: Tid, e: nat :: Pending(s, t, e) ==> e < |s.stores| && !Current(s, e) && e !in s.freed) &&
    (forall t: Tid, u: Tid, e: nat :: Pending(s, t, e) && Pending(s, u, e) ==> t == u)
  }

  /** And nowhere lost. */
  ghost predicate SomePlace(s: State) {
    forall e :: 0 <= e < |s.stores| ==> Current(s, e) || e in s.freed || exists t: Tid :: Pending(s, t, e)
  }

  function Count(s: seq<Addr>, h: Addr): nat {
    if s == [] then 0 else Count(s[..|s| - 1], h) + if s[|s| - 1] == h then 1 else 0
  }

  function StoreAddrs(s: seq<Stored>): (r: seq<Addr>)
    ensures |r| == |s|
  {
    seq(|s|, i requires 0 <= i < |s| => s[i].h)
  }

  /** The balance of one handle. */
  predicate BalancedAt(s: State, h: Addr) {
    Count(StoreAddrs(s.stores), h) == Count(s.taken, h) + if h in s.cells then 1 else 0
  }

  /** Successful initialisations minus deinitialisations is one while the handle is set and zero while it is null. */
  ghost predicate Balanced(s: State) {
    forall h: Addr :: BalancedAt(s, h)
  }

  ghost predicate Invariant(s: State) {
    MutexOk(s) && StillNull(s) && CellsOk(s) && OnePlace(s) && SomePlace(s) && Balanced(s)
  }

  lemma {:induction false} StartInvariant()
    ensures Invariant(Start())
  {
  }

  lemma {:induction false} CountSnoc(s: seq<Addr>, a: Addr, h: Addr)
    ensures Count(s + [a], h) == Count(s, h) + if a == h then 1 else 0
  {
    assert (s + [a])[..|s|] == s;
  }

  lemma {:induction false} StepMutex(s: State, a: Action)
    requires MutexOk(s) && StillNull(s) && Enabled(s, a)
    ensures MutexOk(Step(s, a)) && StillNull(Step(s, a))
  {
    var s' := Step(s, a);
    forall t: Tid
      ensures HoldsMutex(Pcs(s', t)) <==> s'.owner == Some(t)
      ensures Pcs(s', t).Initializing? || Pcs(s', t).Storing? ==> Pcs(s', t).h !in s'.cells
    {
      assert HoldsMutex(Pcs(s, t)) <==> s.owner == Some(t);
      assert HoldsMutex(Pcs(s, a.t)) <==> s.owner == Some(a.t);
    }
  }

  lemma {:induction false} StepCells(s: State, a: Action)
    requires CellsOk(s) && Enabled(s, a)
    ensures CellsOk(Step(s, a))
  {
  }

  /** A step that neither stores nor takes leaves the logs and the handles alone. */
  lemma {:induction false} Untouched(s: State, a: Action)
    requires Enabled(s, a) && !a.Store? && !(a.Exchange? && Pcs(s, a.t).h in s.cells)
    ensures Step(s, a).stores == s.stores && Step(s, a).taken == s.taken && Step(s, a).cells == s.cells
  {
  }

  lemma {:induction false} StoreStep(s: State, a: Action)
    requires Enabled(s, a) && a.Store?
    ensures var s', k := Step(s, a), Pcs(s, a.t).h;
            StoreAddrs(s'.stores) == StoreAddrs(s.stores) + [k] && s'.taken == s.taken
            && s'.cells.Keys == s.cells.Keys + {k}
  {
  }

  lemma {:induction false} TakeStep(s: State, a: Action)
    requires Enabled(s, a) && a.Exchange? && Pcs(s, a.t).h in s.cells
    ensures var s', k := Step(s, a), Pcs(s, a.t).h;
            s'.stores == s.stores && s'.taken == s.taken + [k] && s'.cells.Keys == s.cells.Keys - {k}
  {
  }

  lemma {:induction false} StoreBalanced(s: State, a: Action, h: Addr)
    requires StillNull(s) && Enabled(s, a) && a.Store? && BalancedAt(s, h)
    ensures BalancedAt(Step(s, a), h)
  {
    var k := Pcs(s, a.t).h;
    assert k !in s.cells;
    StoreStep(s, a);
    CountSnoc(StoreAddrs(s.stores), k, h);
  }

  lemma {:induction false} TakeBalanced(s: State, a: Action, h: Addr)
    requires Enabled(s, a) && a.Exchange? && Pcs(s, a.t).h in s.cells && BalancedAt(s, h)
    ensures BalancedAt(Step(s, a), h)
  {
    TakeStep(s, a);
    CountSnoc(s.taken, Pcs(s, a.t).h, h);
  }

  lemma {:induction false} StepBalanced(s: State, a: Action)
    requires Invariant(s) && Enabled(s, a)
    ensures Balanced(Step(s, a))
  {
    forall h: Addr
      ensures BalancedAt(Step(s, a), h)
    {
      assert BalancedAt(s, h);
      if a.Store? {
        StoreBalanced(s, a, h);
      } else if a.Exchange? && Pcs(s, a.t).h in s.cells {
        TakeBalanced(s, a, h);
      } else {
        Untouched(s, a);
      }
    }
  }

  lemma {:induction false} StepPlaces(s: State, a: Action)
    requires Invariant(s) && Enabled(s, a)
    ensures OnePlace(Step(s, a)) && SomePlace(Step(s, a))
  {
    if a.Store? {
      StorePlaces(s, a);
    } else if a.Exchange? {
      ExchangePlaces(s, a);
    } else if a.RunDeinit? {
      DeinitPlaces(s, a);
    } else {
      OtherPlaces(s, a);
    }
  }

  /** A step that touches neither handles nor deinitialising threads moves no stored handle. */
  lemma {:induction false} OtherPlaces(s: State, a: Action)
    requires Invariant(s) && Enabled(s, a) && !a.Store? && !a.Exchange? && !a.RunDeinit?
    ensures OnePlace(Step(s, a)) && SomePlace(Step(s, a))
  {
    var s' := Step(s, a);
    assert forall t: Tid, e: nat :: Pending(s', t, e) <==> Pending(s, t, e);
    assert forall e: nat :: Current(s', e) <==> Current(s, e);
    forall e | 0 <= e < |s'.stores|
      ensures Current(s', e) || e in s'.freed || exists t: Tid :: Pending(s', t, e)
    {
      assert Current(s, e) || e in s.freed || exists t: Tid :: Pending(s, t, e);
    }
  }

  /** The release store always replaces null, so it makes a new handle current and displaces none. */
  lemma {:induction false} StorePlaces(s: State, a: Action)
    requires Invariant(s) && Enabled(s, a) && a.Store?
    ensures OnePlace(Step(s, a)) && SomePlace(Step(s, a))
  {
    var s', n := Step(s, a), |s.stores|;
    assert forall t: Tid, e: nat :: Pending(s', t, e) <==> Pending(s, t, e);
    forall e: nat
      ensures Current(s', e) <==> Current(s, e) || e == n
    {
      assert Pcs(s, a.t).h !in s.cells;
    }
    forall e | 0 <= e < |s'.stores|
      ensures Current(s', e) || e in s'.freed || exists t: Tid :: Pending(s', t, e)
    {
      assert e < n ==> Current(s, e) || e in s.freed || exists t: Tid :: Pending(s, t, e);
    }
  }

  /** The exchange moves the current handle to its thread. */
  lemma {:induction false} ExchangePlaces(s: State, a: Action)
    requires Invariant(s) && Enabled(s, a) && a.Exchange?
    ensures OnePlace(Step(s, a)) && SomePlace(Step(s, a))
  {
    var s', h := Step(s, a), Pcs(s, a.t).h;
    if h in s.cells {
      var x := s.cells[h];
      assert Current(s, x);
      assert forall t: Tid, e: nat :: Pending(s', t, e) <==> Pending(s, t, e) || (t == a.t && e == x);
      assert forall e: nat :: Current(s', e) <==> Current(s, e) && e != x;
      forall e | 0 <= e < |s'.stores|
        ensures Current(s', e) || e in s'.freed || exists t: Tid :: Pending(s', t, e)
      {
        assert Current(s, e) || e in s.freed || exists t: Tid :: Pending(s, t, e);
        assert Pending(s', a.t, x);
      }
    } else {
      assert forall t: Tid, e: nat :: Pending(s', t, e) <==> Pending(s, t, e);
      assert forall e: nat :: Current(s', e) <==> Current(s, e);
      forall e | 0 <= e < |s'.stores|
        ensures Current(s', e) || e in s'.freed || exists t: Tid :: Pending(s', t, e)
      {
        assert Current(s, e) || e in s.freed || exists t: Tid :: Pending(s, t, e);
      }
    }
  }

  /** deinit_func moves the taken handle into the deinitialised ones. */
  lemma {:induction false} DeinitPlaces(s: State, a: Action)
    requires Invariant(s) && Enabled(s, a) && a.RunDeinit?
    ensures OnePlace(Step(s, a)) && SomePlace(Step(s, a))
  {
    var s', x := Step(s, a), Pcs(s, a.t).event;
    assert Pending(s, a.t, x);
    assert forall t: Tid, e: nat :: Pending(s', t, e) <==> Pending(s, t, e) && t != a.t;
    assert forall e: nat :: Current(s', e) <==> Current(s, e);
    forall e | 0 <= e < |s'.stores|
      ensures Current(s', e) || e in s'.freed || exists t: Tid :: Pending(s', t, e)
    {
      if e != x && !Current(s, e) && e !in s.freed {
        var t: Tid :| Pending(s, t, e);
        assert Pending(s', t, e);
      }
    }
  }

  lemma {:induction false} StepInvariant(s: State, a: Action)
    requires Invariant(s) && Enabled(s, a)
    ensures Invariant(Step(s, a))
    ensures a.Store? ==> Pcs(s, a.t).h !in s.cells
  {
    StepMutex(s, a);
    StepCells(s, a);
    StepBalanced(s, a);
    StepPlaces(s, a);
  }

  /** The invariant holds after every interleaving of every set of calls. */
  lemma {:induction false} RunInvariant(s: State, run: seq<Action>)
    requires Invariant(s) && Possible(s, run)
    ensures Invariant(After(s, run))
    decreases |run|
  {
    if run != [] {
      StepInvariant(s, run[0]);
      RunInvariant(Step(s, run[0]), run[1..]);
    }
  }

  // ---------- what callers get ----------

  /** In every run from the start: the balance, the single deinitialisation, and no lost handle. */
  lemma {:induction false} EveryRun(run: seq<Action>)
    requires Possible(Start(), run)
    ensures var s := After(Start(), run);
            (forall h: Addr ::
               Count(StoreAddrs(s.stores), h) - Count(s.taken, h) == if h in s.cells then 1 else 0) &&
            (forall i, j :: 0 <= i < j < |s.freed| ==> s.freed[i] != s.freed[j]) &&
            (forall e: nat :: e in s.freed ==> e < |s.stores| && !Current(s, e))
  {
    StartInvariant();
    RunInvariant(Start(), run);
    var s := After(Start(), run);
    forall h: Addr
      ensures Count(StoreAddrs(s.stores), h) - Count(s.taken, h) == if h in s.cells then 1 else 0
    {
      assert BalancedAt(s, h);
    }
  }

  /** Once every thread is idle, each stored handle is current or has been deinitialised, and never both. */
  lemma {:induction false} QuiescentConservation(run: seq<Action>)
    requires Possible(Start(), run) && forall t: Tid :: Pcs(After(Start(), run), t).Idle?
    ensures var s := After(Start(), run);
            forall e :: 0 <= e < |s.stores| ==> (Current(s, e) <==> e !in s.freed)
  {
    StartInvariant();
    RunInvariant(Start(), run);
    var s := After(Start(), run);
    forall e | 0 <= e < |s.stores|
      ensures Current(s, e) <==> e !in s.freed
    {
      assert forall t: Tid :: !Pending(s, t, e);
    }
  }

  // ---------- initialisation without deinitialisation ----------

  predicate NeverDeinit(run: seq<Action>, h: Addr) {
    forall i :: 0 <= i < |run| ==> !(run[i].CallDeinit? && run[i].a == h)
  }

  ghost predicate NoDeinitOf(s: State, h: Addr) {
    forall t: Tid :: (Pcs(s, t).Exchanging? ==> Pcs(s, t).h != h)
  }

  /** At most one store to h, still current, and every successful return and every thread about to return saw it. */
  ghost predicate InitialisedOnce(s: State, h: Addr) {
    NoDeinitOf(s, h) && Count(s.taken, h) == 0 &&
    (forall i :: 0 <= i < |s.finished| && s.finished[i].h == h && s.finished[i].code == 0 ==>
       h in s.cells && s.finished[i].seen == Some(s.cells[h])) &&
    (forall t: Tid :: Pcs(s, t).Unlocking? && Pcs(s, t).h == h && Pcs(s, t).code == 0 ==>
       h in s.cells && Pcs(s, t).seen == Some(s.cells[h]))
  }

  lemma {:induction false} StillNoDeinit(s: State, a: Action, h: Addr)
    requires Enabled(s, a) && NoDeinitOf(s, h) && !(a.CallDeinit? && a.a == h)
    ensures NoDeinitOf(Step(s, a), h)
  {
    forall t: Tid
      ensures Pcs(Step(s, a), t).Exchanging? ==> Pcs(Step(s, a), t).h != h
    {
      assert t != a.t ==> Pcs(Step(s, a), t) == Pcs(s, t);
    }
  }

  /** What a step adds to the log of taken handles. */
  lemma {:induction false} TakenBy(s: State, a: Action)
    requires Enabled(s, a)
    ensures Step(s, a).taken == s.taken || (a.Exchange? && Step(s, a).taken == s.taken + [Pcs(s, a.t).h])
  {
  }

  lemma {:induction false} StillNotTaken(s: State, a: Action, h: Addr)
    requires Enabled(s, a) && NoDeinitOf(s, h) && Count(s.taken, h) == 0
    ensures Count(Step(s, a).taken, h) == 0
  {
    TakenBy(s, a);
    if a.Exchange? {
      CountSnoc(s.taken, Pcs(s, a.t).h, h);
    }
  }

  /** Without an exchange the handle only ever changes from null, so what was seen stays current. */
  lemma {:induction false} StaysCurrent(s: State, a: Action, h: Addr)
    requires StillNull(s) && Enabled(s, a) && NoDeinitOf(s, h) && h in s.cells
    ensures h in Step(s, a).cells && Step(s, a).cells[h] == s.cells[h]
  {
    if a.Store? {
      assert Pcs(s, a.t).h !in s.cells;
    }
  }

  lemma {:induction false} OnceStep(s: State, a: Action, h: Addr)
    requires Invariant(s) && Enabled(s, a) && InitialisedOnce(s, h) && !(a.CallDeinit? && a.a == h)
    ensures InitialisedOnce(Step(s, a), h)
  {
    var s' := Step(s, a);
    StillNoDeinit(s, a, h);
    StillNotTaken(s, a, h);
    if h in s.cells {
      StaysCurrent(s, a, h);
    }
    forall t: Tid | Pcs(s', t).Unlocking? && Pcs(s', t).h == h && Pcs(s', t).code == 0
      ensures h in s'.cells && Pcs(s', t).seen == Some(s'.cells[h])
    {
      assert t != a.t ==> Pcs(s', t) == Pcs(s, t);
    }
    forall i | 0 <= i < |s'.finished| && s'.finished[i].h == h && s'.finished[i].code == 0
      ensures h in s'.cells && s'.finished[i].seen == Some(s'.cells[h])
    {
      assert i < |s.finished| ==> s'.finished[i] == s.finished[i];
    }
  }

  lemma {:induction false} OnceRun(s: State, run: seq<Action>, h: Addr)
    requires Invariant(s) && Possible(s, run) && InitialisedOnce(s, h) && NeverDeinit(run, h)
    ensures InitialisedOnce(After(s, run), h)
    decreases |run|
  {
    if run != [] {
      OnceStep(s, run[0], h);
      StepInvariant(s, run[0]);
      assert NeverDeinit(run[1..], h) by {
        forall i | 0 <= i < |run| - 1
          ensures !(run[1..][i].CallDeinit? && run[1..][i].a == h)
        {
          assert run[1..][i] == run[i + 1];
        }
      }
      OnceRun(Step(s, run[0]), run[1..], h);
    }
  }

  // ---------- how often init_func hands over a handle ----------

  /** The user's init_func for `h` returns a non-null handle in this step. */
  predicate Succeeds(s: State, a: Action, h: Addr) {
    a.RunInit? && a.outcome.Handle? && Pcs(s, a.t).Initializing? && Pcs(s, a.t).h == h
  }

  function Successes(s: State, run: seq<Action>, h: Addr): nat
    requires Possible(s, run)
    decreases |run|
  {
    if run == [] then 0
    else (if Succeeds(s, run[0], h) then 1 else 0) + Successes(Step(s, run[0]), run[1..], h)
  }

  /** A handle for `h` is stored or on its way to the store. */
  ghost predicate Claimed(s: State, h: Addr) {
    h in s.cells || exists t: Tid :: Pcs(s, t).Storing? && Pcs(s, t).h == h
  }

  lemma {:induction false} StillClaimed(s: State, a: Action, h: Addr)
    requires Enabled(s, a) && NoDeinitOf(s, h) && Claimed(s, h)
    ensures Claimed(Step(s, a), h)
  {
    var s' := Step(s, a);
    if h !in s.cells && !(a.Store? && Pcs(s, a.t).h == h) {
      var t: Tid :| Pcs(s, t).Storing? && Pcs(s, t).h == h;
      assert t != a.t ==> Pcs(s', t) == Pcs(s, t);
    }
  }

  /** Only the mutex holder can be about to store, so nobody else has claimed the handle. */
  lemma {:induction false} SuccessClaims(s: State, a: Action, h: Addr)
    requires Invariant(s) && Enabled(s, a) && Succeeds(s, a, h)
    ensures !Claimed(s, h) && Claimed(Step(s, a), h)
  {
    forall t: Tid
      ensures !Pcs(s, t).Storing?
    {
      assert HoldsMutex(Pcs(s, t)) <==> s.owner == Some(t);
      assert HoldsMutex(Pcs(s, a.t)) <==> s.owner == Some(a.t);
    }
    assert Pcs(Step(s, a), a.t).Storing?;
  }

  lemma {:induction false} AtMostOneSuccess(s: State, run: seq<Action>, h: Addr)
    requires Invariant(s) && Possible(s, run) && InitialisedOnce(s, h) && NeverDeinit(run, h)
    ensures Successes(s, run, h) <= if Claimed(s, h) then 0 else 1
    decreases |run|
  {
    if run != [] {
      var a := run[0];
      StepInvariant(s, a);
      OnceStep(s, a, h);
      if Succeeds(s, a, h) {
        SuccessClaims(s, a, h);
      } else if Claimed(s, h) {
        StillClaimed(s, a, h);
      }
      AtMostOneSuccess(Step(s, a), run[1..], h);
    }
  }

  /**
    Without deinitialisation init_func hands over at most one handle, at most one is stored, and
    every call that returned 0 saw the one that is current.
  */
  lemma {:induction false} SingleInitialisation(run: seq<Action>, h: Addr)
    requires Possible(Start(), run) && NeverDeinit(run, h)
    ensures var s := After(Start(), run);
            Successes(Start(), run, h) <= 1 && Count(StoreAddrs(s.stores), h) <= 1 &&
            forall i :: 0 <= i < |s.finished| && s.finished[i].h == h && s.finished[i].code == 0 ==>
                          h in s.cells && s.finished[i].seen == Some(s.cells[h])
  {
    StartInvariant();
    RunInvariant(Start(), run);
    OnceRun(Start(), run, h);
    AtMostOneSuccess(Start(), run, h);
    assert BalancedAt(After(Start(), run), h);
  }
}
