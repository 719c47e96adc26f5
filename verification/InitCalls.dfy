/** What the calls of once-initialisation return and do, told by the history of their thread. */
module InitCalls {
  import opened Options
  import opened InitOnce

  // ---------- the call a thread is in ----------

  /** The latest call a thread made, and what init_func has returned to it so far. */
  datatype Call = NoCall | InitCall(h: Addr, told: Option<InitOutcome>) | DeinitCall(h: Addr)

  /** Read off the actions of a run alone. */
  function LastCall(run: seq<Action>, t: Tid): Call {
    if run == [] then NoCall
    else
      var a, before := run[|run| - 1], LastCall(run[..|run| - 1], t);
      if a.t != t then before
      else if a.CallInit? then InitCall(a.a, None)
      else if a.CallDeinit? then DeinitCall(a.a)
      else if a.RunInit? && before.InitCall? then InitCall(before.h, Some(a.outcome))
      else before
  }

  lemma {:induction false} LastCallSnoc(run: seq<Action>, a: Action, t: Tid)
    ensures var before := LastCall(run, t);
            LastCall(run + [a], t) ==
              if a.t != t then before
              else if a.CallInit? then InitCall(a.a, None)
              else if a.CallDeinit? then DeinitCall(a.a)
              else if a.RunInit? && before.InitCall? then InitCall(before.h, Some(a.outcome))
              else before
  {
    assert (run + [a])[..|run|] == run;
  }

  lemma {:induction false} RunSnoc(s: State, run: seq<Action>, a: Action)
    ensures Possible(s, run + [a]) <==> Possible(s, run) && Enabled(After(s, run), a)
    ensures Possible(s, run + [a]) ==> After(s, run + [a]) == Step(After(s, run), a)
    decreases |run|
  {
    if run == [] {
      assert (run + [a])[1..] == [];
    } else {
      assert (run + [a])[1..] == run[1..] + [a];
      if Enabled(s, run[0]) {
        RunSnoc(Step(s, run[0]), run[1..], a);
      }
    }
  }

  // ---------- what an init call returns ----------

  /**
    An init call returns 0 exactly when it names a handle stored at its address; the error code of
    init_func when that failed, -1 when it gave null, and otherwise 0, with the very handle init_func gave.
  */
  ghost predicate Reports(r: Returned, c: Call, stores: seq<Stored>) {
    && c.InitCall? && r.h == c.h
    && (r.code == 0 <==> r.seen.Some?)
    && (r.seen.Some? ==> r.seen.value < |stores| && stores[r.seen.value].h == r.h)
    && match c.told
       case None => r.code == 0
       case Some(InitError(code)) => r.code == code
       case Some(NullResult) => r.code == -1
       case Some(Handle(v)) => r.code == 0 && stores[r.seen.value].value == v
  }

  /** Where a thread stands agrees with the actions it took. */
  ghost predicate Follows(pc: Pc, c: Call, t: Tid, stores: seq<Stored>) {
    match pc
    case Idle => true
    case Entered(h) => c == InitCall(h, None)
    case Waiting(h) => c == InitCall(h, None)
    case Locked(h) => c == InitCall(h, None)
    case Initializing(h) => c == InitCall(h, None)
    case Storing(h, v) => c == InitCall(h, Some(Handle(v)))
    case Unlocking(h, code, seen) => Reports(Returned(t, h, code, seen), c, stores)
    case Exchanging(h) => c == DeinitCall(h)
    case Deinitializing(h, e) => c == DeinitCall(h) && e < |stores| && stores[e].h == h
  }

  ghost predicate AllFollow(run: seq<Action>, s: State) {
    forall t: Tid :: Follows(Pcs(s, t), LastCall(run, t), t, s.stores)
  }

  lemma {:induction false} StoresGrow(s: State, a: Action)
    requires Enabled(s, a)
    ensures |s.stores| <= |Step(s, a).stores| && Step(s, a).stores[..|s.stores|] == s.stores
  {
  }

  lemma {:induction false} ReportsStay(r: Returned, c: Call, stores: seq<Stored>, more: seq<Stored>)
    requires Reports(r, c, stores) && |stores| <= |more| && more[..|stores|] == stores
    ensures Reports(r, c, more)
  {
    if r.seen.Some? {
      assert more[..|stores|][r.seen.value] == more[r.seen.value];
    }
  }

  /** Other threads stay where they are. */
  lemma {:induction false} OtherFollows(s: State, run: seq<Action>, a: Action, t: Tid)
    requires Enabled(s, a) && t != a.t && Follows(Pcs(s, t), LastCall(run, t), t, s.stores)
    ensures Follows(Pcs(Step(s, a), t), LastCall(run + [a], t), t, Step(s, a).stores)
  {
    LastCallSnoc(run, a, t);
    StoresGrow(s, a);
    var pc := Pcs(s, t);
    assert Pcs(Step(s, a), t) == pc;
    if pc.Unlocking? {
      ReportsStay(Returned(t, pc.h, pc.code, pc.seen), LastCall(run, t), s.stores, Step(s, a).stores);
    }
    if pc.Deinitializing? {
      assert Step(s, a).stores[..|s.stores|][pc.event] == Step(s, a).stores[pc.event];
    }
  }

  lemma {:induction false} SelfFollows(s: State, run: seq<Action>, a: Action)
    requires Enabled(s, a) && CellsOk(s) && Follows(Pcs(s, a.t), LastCall(run, a.t), a.t, s.stores)
    ensures Follows(Pcs(Step(s, a), a.t), LastCall(run + [a], a.t), a.t, Step(s, a).stores)
  {
    LastCallSnoc(run, a, a.t);
  }

  lemma {:induction false} EveryoneFollows(run: seq<Action>)
    requires Possible(Start(), run)
    ensures Invariant(After(Start(), run)) && AllFollow(run, After(Start(), run))
    decreases |run|
  {
    if run == [] {
      StartInvariant();
    } else {
      var before, a := run[..|run| - 1], run[|run| - 1];
      assert run == before + [a];
      RunSnoc(Start(), before, a);
      EveryoneFollows(before);
      var s := After(Start(), before);
      StepInvariant(s, a);
      forall t: Tid
        ensures Follows(Pcs(Step(s, a), t), LastCall(run, t), t, Step(s, a).stores)
      {
        if t == a.t {
          SelfFollows(s, before, a);
        } else {
          OtherFollows(s, before, a, t);
        }
      }
    }
  }

  /** A thread leaves an init call in this step. */
  predicate Leaves(s: State, s': State, t: Tid, c: Call) {
    c.InitCall? && !Pcs(s, t).Idle? && Pcs(s', t).Idle?
  }

  /**
    In every run, a step that leaves an init call reports for it as its history demands, and no other
    step reports anything.
  */
  lemma {:induction false} EveryReturn(run: seq<Action>, a: Action)
    requires Possible(Start(), run + [a])
    ensures Possible(Start(), run)
    ensures var s, s', c := After(Start(), run), After(Start(), run + [a]), LastCall(run, a.t);
            if Leaves(s, s', a.t, c) then
              && |s'.finished| == |s.finished| + 1 && s'.finished[..|s.finished|] == s.finished
              && s'.finished[|s.finished|].t == a.t && Reports(s'.finished[|s.finished|], c, s'.stores)
            else s'.finished == s.finished
  {
    RunSnoc(Start(), run, a);
    EveryoneFollows(run);
    var s, c := After(Start(), run), LastCall(run, a.t);
    assert Follows(Pcs(s, a.t), c, a.t, s.stores);
  }

  /** Every report there is was made by such a step. */
  lemma {:induction false} EveryReport(run: seq<Action>, i: nat)
    requires Possible(Start(), run) && i < |After(Start(), run).finished|
    ensures var s := After(Start(), run);
            exists k: nat :: k < |run| && Reports(s.finished[i], LastCall(run[..k], s.finished[i].t), s.stores)
    decreases |run|
  {
    var n := |run| - 1;
    var before, a := run[..n], run[n];
    assert run == before + [a];
    RunSnoc(Start(), before, a);
    EveryReturn(before, a);
    var s, s' := After(Start(), before), After(Start(), run);
    if i < |s.finished| {
      EveryReport(before, i);
      var r := s.finished[i];
      var k: nat :| k < n && Reports(r, LastCall(before[..k], r.t), s.stores);
      assert s'.finished[i] == r by {
        assert s'.finished[..|s.finished|][i] == s'.finished[i];
      }
      StoresGrow(s, a);
      ReportsStay(r, LastCall(before[..k], r.t), s.stores, s'.stores);
      assert before[..k] == run[..k];
    } else {
      assert run[..n] == before;
    }
  }

  // ---------- what a deinit call does ----------

  /**
    In every run, the exchange of a deinit call empties its handle and no other; a handle that was
    there is then deinitialised by that thread.
  */
  lemma {:induction false} DeinitTakes(run: seq<Action>, t: Tid)
    requires Possible(Start(), run + [Exchange(t)])
    ensures Possible(Start(), run)
    ensures var s, s', c := After(Start(), run), After(Start(), run + [Exchange(t)]), LastCall(run, t);
            && c.DeinitCall? && c.h !in s'.cells
            && (forall h: Addr :: h != c.h ==> (h in s'.cells <==> h in s.cells))
            && (forall h: Addr :: h != c.h && h in s.cells ==> s'.cells[h] == s.cells[h])
            && s'.freed == s.freed && s'.stores == s.stores
            && (if c.h in s.cells then Pending(s', t, s.cells[c.h]) else Pcs(s', t).Idle?)
  {
    RunSnoc(Start(), run, Exchange(t));
    EveryoneFollows(run);
    var s := After(Start(), run);
    assert Follows(Pcs(s, t), LastCall(run, t), t, s.stores);
  }

  /** And deinit_func is called on exactly what the thread took, at the address it was called for. */
  lemma {:induction false} DeinitFrees(run: seq<Action>, t: Tid)
    requires Possible(Start(), run + [RunDeinit(t)])
    ensures Possible(Start(), run)
    ensures var s, s', c := After(Start(), run), After(Start(), run + [RunDeinit(t)]), LastCall(run, t);
            && Pcs(s', t).Idle? && s'.cells == s.cells && s'.stores == s.stores
            && exists e: nat :: Pending(s, t, e) && s'.freed == s.freed + [e]
                                && c.DeinitCall? && e < |s.stores| && s.stores[e].h == c.h
  {
    RunSnoc(Start(), run, RunDeinit(t));
    EveryoneFollows(run);
    var s := After(Start(), run);
    assert Follows(Pcs(s, t), LastCall(run, t), t, s.stores);
    assert Pending(s, t, Pcs(s, t).event);
  }

  // ---------- a call by itself ----------

  /** After the mutex is taken, with the handle still null. */
  function UnderMutex(t: Tid, outcome: InitOutcome): seq<Action> {
    if outcome.Handle? then [RunInit(t, outcome)] + ([Store(t)] + [Unlock(t)]) else [RunInit(t, outcome)] + [Unlock(t)]
  }

  /** The actions of an init call that no other thread disturbs. */
  function InitAlone(s: State, t: Tid, h: Addr, outcome: InitOutcome): seq<Action> {
    [CallInit(t, h)] + ([Load(t)] + if h in s.cells then [] else [Acquire(t)] + ([Check(t)] + UnderMutex(t, outcome)))
  }

  function DeinitAlone(s: State, t: Tid, h: Addr): seq<Action> {
    [CallDeinit(t, h)] + ([Exchange(t)] + if h in s.cells then [RunDeinit(t)] else [])
  }

  lemma {:induction false} Peel(s: State, a: Action, rest: seq<Action>)
    requires Enabled(s, a) && Possible(Step(s, a), rest)
    ensures Possible(s, [a] + rest) && After(s, [a] + rest) == After(Step(s, a), rest)
  {
    assert ([a] + rest)[1..] == rest;
  }

  lemma {:induction false} One(s: State, a: Action)
    requires Enabled(s, a)
    ensures Possible(s, [a]) && After(s, [a]) == Step(s, a)
  {
    assert [a] + [] == [a];
    Peel(s, a, []);
  }

  lemma {:induction false} UnderMutexRuns(s: State, t: Tid, outcome: InitOutcome)
    requires Pcs(s, t).Initializing? && s.owner == Some(t)
    requires (outcome.InitError? ==> outcome.code != 0) && (outcome.Handle? ==> outcome.value != 0)
    ensures Possible(s, UnderMutex(t, outcome))
    ensures var s', h, n := After(s, UnderMutex(t, outcome)), Pcs(s, t).h, |s.stores|;
            && Pcs(s', t).Idle? && s'.owner.None? && s'.freed == s.freed
            && s'.cells == (if outcome.Handle? then s.cells[h := n] else s.cells)
            && s'.stores == (if outcome.Handle? then s.stores + [Stored(h, outcome.value)] else s.stores)
            && s'.finished == s.finished + [match outcome
                                            case InitError(code) => Returned(t, h, code, None)
                                            case NullResult => Returned(t, h, -1, None)
                                            case Handle(_) => Returned(t, h, 0, Some(n))]
  {
    var s1 := Step(s, RunInit(t, outcome));
    if outcome.Handle? {
      var s2 := Step(s1, Store(t));
      One(s2, Unlock(t));
      Peel(s1, Store(t), [Unlock(t)]);
      Peel(s, RunInit(t, outcome), [Store(t)] + [Unlock(t)]);
    } else {
      One(s1, Unlock(t));
      Peel(s, RunInit(t, outcome), [Unlock(t)]);
    }
  }

  /** From any state with the thread idle and the mutex free, an init call can run alone to its end, and does this. */
  lemma {:induction false} InitRuns(s: State, t: Tid, h: Addr, outcome: InitOutcome)
    requires Pcs(s, t).Idle? && s.owner.None?
    requires (outcome.InitError? ==> outcome.code != 0) && (outcome.Handle? ==> outcome.value != 0)
    ensures Possible(s, InitAlone(s, t, h, outcome))
    ensures var s', n := After(s, InitAlone(s, t, h, outcome)), |s.stores|;
            && Pcs(s', t).Idle? && s'.owner.None? && s'.freed == s.freed
            && s'.cells == (if h !in s.cells && outcome.Handle? then s.cells[h := n] else s.cells)
            && s'.stores == (if h !in s.cells && outcome.Handle? then s.stores + [Stored(h, outcome.value)]
                             else s.stores)
            && s'.finished == s.finished + [if h in s.cells then Returned(t, h, 0, Some(s.cells[h]))
                                            else match outcome
                                            case InitError(code) => Returned(t, h, code, None)
                                            case NullResult => Returned(t, h, -1, None)
                                            case Handle(_) => Returned(t, h, 0, Some(n))]
  {
    var s1 := Step(s, CallInit(t, h));
    var s2 := Step(s1, Load(t));
    if h in s.cells {
      Peel(s1, Load(t), []);
      Peel(s, CallInit(t, h), [Load(t)] + []);
    } else {
      var s3 := Step(s2, Acquire(t));
      var s4 := Step(s3, Check(t));
      var rest := UnderMutex(t, outcome);
      UnderMutexRuns(s4, t, outcome);
      Peel(s3, Check(t), rest);
      Peel(s2, Acquire(t), [Check(t)] + rest);
      Peel(s1, Load(t), [Acquire(t)] + ([Check(t)] + rest));
      Peel(s, CallInit(t, h), [Load(t)] + ([Acquire(t)] + ([Check(t)] + rest)));
    }
  }

  /** A deinit call alone takes a handle that is there, deinitialises it and leaves null. */
  lemma {:induction false} DeinitRuns(s: State, t: Tid, h: Addr)
    requires Pcs(s, t).Idle?
    ensures Possible(s, DeinitAlone(s, t, h))
    ensures var s' := After(s, DeinitAlone(s, t, h));
            && Pcs(s', t).Idle? && s'.owner == s.owner && s'.stores == s.stores && s'.finished == s.finished
            && s'.cells == s.cells - {h}
            && s'.freed == if h in s.cells then s.freed + [s.cells[h]] else s.freed
  {
    var s1 := Step(s, CallDeinit(t, h));
    var s2 := Step(s1, Exchange(t));
    var rest := if h in s.cells then [RunDeinit(t)] else [];
    if h in s.cells {
      One(s2, RunDeinit(t));
    }
    Peel(s1, Exchange(t), rest);
    Peel(s, CallDeinit(t, h), [Exchange(t)] + rest);
  }
}
