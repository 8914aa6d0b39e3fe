/**
 What each guarded operation comes to when nobody else holds a lock: a callback, a
 Configure and a Close, from start to end (internal/routerosruntime/provider.go:
 86-117, internal/routerosruntime/cache.go:45-112).
 */
module GuardRuns {
  import opened Prelude
  import opened VersionGuard

  ghost function Once(s: State, t: Tid, c: Choice): State {
    if t in s.threads && Next(s, t, c).Some? then Next(s, t, c).value else s
  }

  /** One goroutine takes up to `n` steps by itself. */
  ghost function Alone(s: State, t: Tid, c: Choice, n: nat): State {
    if n == 0 then s else Once(Alone(s, t, c, n - 1), t, c)
  }

  /** That is one of the schedules. */
  lemma {:induction false} AloneIsRun(s: State, t: Tid, c: Choice, n: nat)
    ensures Alone(s, t, c, n) == RunAll(s, seq(n, _ => (t, c)))
  {
    hide Next;
    if n > 0 {
      AloneIsRun(s, t, c, n - 1);
      var fewer, all := seq(n - 1, _ => (t, c)), seq(n, _ => (t, c));
      assert all == fewer + [(t, c)];
      RunLast(s, fewer, t, c);
    }
  }

  lemma {:induction false} RunLast(s: State, schedule: seq<(Tid, Choice)>, t: Tid, c: Choice)
    ensures RunAll(s, schedule + [(t, c)]) == Once(RunAll(s, schedule), t, c)
    decreases |schedule|
  {
    hide Next;
    var all := schedule + [(t, c)];
    if schedule == [] {
      assert all[0] == (t, c) && all[1..] == [];
    } else {
      var (u, d) := schedule[0];
      assert all[0] == schedule[0] && all[1..] == schedule[1..] + [(t, c)];
      RunLast(Once(s, u, d), schedule[1..], t, c);
    }
  }

  /** Both locks are free. */
  predicate Free(s: State) {
    s.mu.None? && s.op.None?
  }

  lemma AloneNone(s: State, t: Tid, c: Choice)
    ensures Alone(s, t, c, 0) == s
  {
  }

  lemma AloneNext(s: State, t: Tid, c: Choice, n: nat, at: State, next: State)
    requires Alone(s, t, c, n) == at && t in at.threads && Next(at, t, c) == Some(next)
    ensures Alone(s, t, c, n + 1) == next
  {
    hide Next;
  }

  /** Done is done. */
  lemma {:induction false} AloneDone(s: State, t: Tid, c: Choice, n: nat, more: nat, at: State)
    requires Alone(s, t, c, n) == at && t in at.threads && at.threads[t].Done()
    ensures Alone(s, t, c, n + more) == at
    decreases more
  {
    hide *;
    if more > 0 {
      AloneDone(s, t, c, n, more - 1, at);
      DoneStays(at, t, c);
      AloneLast(s, t, c, n + more - 1);
    }
  }

  lemma AloneLast(s: State, t: Tid, c: Choice, n: nat)
    ensures Alone(s, t, c, n + 1) == Once(Alone(s, t, c, n), t, c)
  {
    hide Next;
  }

  lemma DoneStays(s: State, t: Tid, c: Choice)
    requires t in s.threads && s.threads[t].Done()
    ensures Once(s, t, c) == s
  {
  }

  /** The state with goroutine `t` at `pc`, the locks held as told, everything else as in `s`. */
  function Here(s: State, t: Tid, pc: Pc, mu: bool, op: bool): State {
    s.(threads := s.threads[t := pc], mu := if mu then Some(t) else None, op := if op then Some(t) else None)
  }

  lemma HereTwice(s: State, t: Tid, a: Pc, b: Pc)
    ensures s.threads[t := a][t := b] == s.threads[t := b]
  {
  }

  /** A callback runs its body, with the global set to its own version, and gives the lock back. */
  lemma CallRuns(s: State, t: Tid, c: Choice, m: Meta)
    requires t in s.threads && s.threads[t] == CallStart(Some(m)) && Free(s)
    ensures Alone(s, t, c, 2) == Here(s, t, CallBody(m), false, true).(version := m.version)
    ensures Alone(s, t, c, 3) == Here(s, t, Finished, false, false).(version := m.version)
  {
    HereTwice(s, t, CallLocked(m), CallBody(m));
    HereTwice(s, t, CallBody(m), Finished);
    hide Alone;
    AloneNone(s, t, c);
    var locked := Here(s, t, CallLocked(m), false, true);
    AloneNext(s, t, c, 0, s, locked);
    var body := Here(s, t, CallBody(m), false, true).(version := m.version);
    AloneNext(s, t, c, 1, locked, body);
    AloneNext(s, t, c, 2, body, Here(s, t, Finished, false, false).(version := m.version));
  }

  /** Without a client the callback is refused: it takes no lock and touches no version. */
  lemma CallRefused(s: State, t: Tid, c: Choice)
    requires t in s.threads && s.threads[t] == CallStart(None)
    ensures Alone(s, t, c, 1) == s.(threads := s.threads[t := Finished])
  {
    AloneNone(s, t, c);
    hide Alone;
    AloneNext(s, t, c, 0, s, s.(threads := s.threads[t := Finished]));
  }

  /** A Configure that gets as far as the checks. */
  lemma ConfHeldAlone(s: State, t: Tid, c: Choice, k: Key)
    requires t in s.threads && s.threads[t] == ConfStart(k) && Free(s)
    ensures Alone(s, t, c, 1) == Here(s, t, ConfHeld(k), true, false)
  {
    hide Alone;
    AloneNone(s, t, c);
    AloneNext(s, t, c, 0, s, Here(s, t, ConfHeld(k), true, false));
  }

  /** A Configure after Close is refused, and of a key already configured gets what was stored; neither asks the router. */
  lemma ConfigureAnswers(s: State, t: Tid, c: Choice, k: Key)
    requires t in s.threads && s.threads[t] == ConfStart(k) && Free(s) && (s.closed || k in s.clients)
    ensures
      Alone(s, t, c, 7) == Here(s, t, ConfEnd(k, if s.closed then Denied else Got(s.clients[k])), false, false)
  {
    hide Alone;
    var a := if s.closed then Denied else Got(s.clients[k]);
    HereTwice(s, t, ConfHeld(k), ConfDropMu(k, a));
    ConfHeldAlone(s, t, c, k);
    AloneNext(s, t, c, 1, Here(s, t, ConfHeld(k), true, false), Here(s, t, ConfDropMu(k, a), true, false));
    ConfAnswered(s, t, c, k, a);
  }

  lemma ConfAnswered(s: State, t: Tid, c: Choice, k: Key, a: Answer)
    requires Alone(s, t, c, 2) == Here(s, t, ConfDropMu(k, a), true, false)
    ensures Alone(s, t, c, 7) == Here(s, t, ConfEnd(k, a), false, false)
  {
    hide Alone;
    HereTwice(s, t, ConfDropMu(k, a), ConfEnd(k, a));
    AloneNext(s, t, c, 2, Here(s, t, ConfDropMu(k, a), true, false), Here(s, t, ConfEnd(k, a), false, false));
    AloneDone(s, t, c, 3, 4, Here(s, t, ConfEnd(k, a), false, false));
  }

  lemma ConfOpAlone(s: State, t: Tid, c: Choice, k: Key)
    requires t in s.threads && s.threads[t] == ConfStart(k) && Free(s) && !s.closed && k !in s.clients
    ensures Alone(s, t, c, 3) == Here(s, t, ConfOp(k), true, true)
  {
    var held, want, op := Here(s, t, ConfHeld(k), true, false), Here(s, t, ConfWantOp(k), true, false), Here(s, t, ConfOp(k), true, true);
    HereTwice(s, t, ConfHeld(k), ConfWantOp(k));
    HereTwice(s, t, ConfWantOp(k), ConfOp(k));
    ConfHeldAlone(s, t, c, k);
    hide Alone;
    AloneNext(s, t, c, 1, held, want);
    AloneNext(s, t, c, 2, want, op);
  }

  /** The first Configure of a key asks the router; when that works the client is stored with the version the router then had. */
  lemma ConfigureRuns(s: State, t: Tid, c: Choice, k: Key)
    requires t in s.threads && s.threads[t] == ConfStart(k) && Free(s) && !s.closed && k !in s.clients
    ensures
      var m := Meta(c.client, c.version);
      Alone(s, t, c, 7) ==
        if c.ok then
          Here(s, t, ConfEnd(k, Got(m)), false, false)
            .(version := c.version, clients := s.clients[k := m], issued := s.issued[k := m])
        else Here(s, t, ConfEnd(k, Denied), false, false).(version := c.version)
  {
    ConfOpAlone(s, t, c, k);
    hide Alone;
    if c.ok {
      ConfStores(s, t, c, k);
    } else {
      ConfFails(s, t, c, k);
    }
  }

  lemma ConfStores(s: State, t: Tid, c: Choice, k: Key)
    requires c.ok && Alone(s, t, c, 3) == Here(s, t, ConfOp(k), true, true)
    ensures
      var m := Meta(c.client, c.version);
      var w := s.(version := c.version, clients := s.clients[k := m], issued := s.issued[k := m]);
      Alone(s, t, c, 7) == Here(w, t, ConfEnd(k, Got(m)), false, false)
  {
    hide Alone;
    var m, w := Meta(c.client, c.version), s.(version := c.version);
    var stored := w.(clients := s.clients[k := m], issued := s.issued[k := m]);
    var asked := Here(w, t, ConfAsked(k, c.client), true, true);
    HereTwice(s, t, ConfOp(k), ConfAsked(k, c.client));
    HereTwice(s, t, ConfAsked(k, c.client), ConfDropOp(k, Got(m)));
    AloneNext(s, t, c, 3, Here(s, t, ConfOp(k), true, true), asked);
    AloneNext(s, t, c, 4, asked, Here(stored, t, ConfDropOp(k, Got(m)), true, true));
    EndAlone(s, t, c, k, 5, stored, Got(m));
  }

  lemma ConfFails(s: State, t: Tid, c: Choice, k: Key)
    requires !c.ok && Alone(s, t, c, 3) == Here(s, t, ConfOp(k), true, true)
    ensures Alone(s, t, c, 7) == Here(s.(version := c.version), t, ConfEnd(k, Denied), false, false)
  {
    hide Alone;
    var w := s.(version := c.version);
    HereTwice(s, t, ConfOp(k), ConfDropOp(k, Denied));
    AloneNext(s, t, c, 3, Here(s, t, ConfOp(k), true, true), Here(w, t, ConfDropOp(k, Denied), true, true));
    EndAlone(s, t, c, k, 4, w, Denied);
    AloneDone(s, t, c, 6, 1, Here(w, t, ConfEnd(k, Denied), false, false));
  }

  lemma EndAlone(s: State, t: Tid, c: Choice, k: Key, n: nat, w: State, a: Answer)
    requires Alone(s, t, c, n) == Here(w, t, ConfDropOp(k, a), true, true)
    ensures Alone(s, t, c, n + 2) == Here(w, t, ConfEnd(k, a), false, false)
  {
    HereTwice(w, t, ConfDropOp(k, a), ConfDropMu(k, a));
    HereTwice(w, t, ConfDropMu(k, a), ConfEnd(k, a));
    hide Alone;
    AloneNext(s, t, c, n, Here(w, t, ConfDropOp(k, a), true, true), Here(w, t, ConfDropMu(k, a), true, false));
    AloneNext(s, t, c, n + 1, Here(w, t, ConfDropMu(k, a), true, false), Here(w, t, ConfEnd(k, a), false, false));
  }

  /** A Close leaves the cache closed and empty; a second one changes nothing. */
  lemma CloseRuns(s: State, t: Tid, c: Choice)
    requires t in s.threads && s.threads[t] == CloseStart && Free(s)
    ensures
      Alone(s, t, c, 6) ==
        if s.closed then Here(s, t, Finished, false, false)
        else Here(s, t, Finished, false, false).(closed := true, clients := map[])
  {
    var held := Here(s, t, CloseHeld, true, false);
    AloneNone(s, t, c);
    hide Alone;
    AloneNext(s, t, c, 0, s, held);
    if s.closed {
      HereTwice(s, t, CloseHeld, CloseDropMu);
      HereTwice(s, t, CloseDropMu, Finished);
      AloneNext(s, t, c, 1, held, Here(s, t, CloseDropMu, true, false));
      AloneNext(s, t, c, 2, Here(s, t, CloseDropMu, true, false), Here(s, t, Finished, false, false));
      AloneDone(s, t, c, 3, 3, Here(s, t, Finished, false, false));
    } else {
      FirstClose(s, t, c);
    }
  }

  lemma FirstClose(s: State, t: Tid, c: Choice)
    requires t in s.threads && !s.closed && Alone(s, t, c, 1) == Here(s, t, CloseHeld, true, false)
    ensures Alone(s, t, c, 6) == Here(s, t, Finished, false, false).(closed := true, clients := map[])
  {
    hide Alone;
    var shut := s.(closed := true);
    HereTwice(s, t, CloseHeld, CloseWantOp);
    HereTwice(s, t, CloseWantOp, CloseOp);
    AloneNext(s, t, c, 1, Here(s, t, CloseHeld, true, false), Here(shut, t, CloseWantOp, true, false));
    AloneNext(s, t, c, 2, Here(shut, t, CloseWantOp, true, false), Here(shut, t, CloseOp, true, true));
    LastClose(s, t, c, shut);
  }

  lemma LastClose(s: State, t: Tid, c: Choice, shut: State)
    requires Alone(s, t, c, 3) == Here(shut, t, CloseOp, true, true)
    ensures Alone(s, t, c, 6) == Here(shut.(clients := map[]), t, Finished, false, false)
  {
    hide Alone;
    var empty := shut.(clients := map[]);
    HereTwice(shut, t, CloseOp, CloseDropOp);
    HereTwice(shut, t, CloseDropOp, CloseDropMu);
    HereTwice(shut, t, CloseDropMu, Finished);
    AloneNext(s, t, c, 3, Here(shut, t, CloseOp, true, true), Here(empty, t, CloseDropOp, true, true));
    AloneNext(s, t, c, 4, Here(empty, t, CloseDropOp, true, true), Here(empty, t, CloseDropMu, true, false));
    AloneNext(s, t, c, 5, Here(empty, t, CloseDropMu, true, false), Here(empty, t, Finished, false, false));
  }

  // ---- A closed cache is empty ----

  /** Until a Close has dropped the clients it holds the cache lock. */
  ghost predicate Dropping(s: State) {
    s.closed && s.clients != map[] ==>
      s.mu.Some? && s.mu.value in s.threads && (s.threads[s.mu.value].CloseWantOp? || s.threads[s.mu.value].CloseOp?)
  }

  lemma DroppingKept(s: State, t: Tid, c: Choice)
    requires Inv(s) && Dropping(s) && t in s.threads && Next(s, t, c).Some?
    ensures Dropping(Next(s, t, c).value)
  {
    assert Sound(s, s.threads[t]) && (s.threads[t].HoldsMu() <==> s.mu == Some(t));
    hide Inv, Next, Sound;
    StepGood(s, t, c);
    if s.mu == Some(t) {
      HolderDrops(s, t, c);
    } else {
      OtherDrops(s, t, c);
    }
  }

  /** A goroutine without the cache lock changes neither the clients nor whether the cache is closed. */
  lemma OtherDrops(s: State, t: Tid, c: Choice)
    requires t in s.threads && Next(s, t, c).Some? && !s.threads[t].HoldsMu() && s.mu != Some(t)
    ensures
      var n := Next(s, t, c).value;
      && n.closed == s.closed && n.clients == s.clients
      && (s.mu.Some? ==> n.mu == s.mu) && forall u | u in s.threads && u != t :: u in n.threads && n.threads[u] == s.threads[u]
  {
  }

  lemma HolderDrops(s: State, t: Tid, c: Choice)
    requires t in s.threads && Next(s, t, c).Some? && s.mu == Some(t) && s.threads[t].HoldsMu()
    requires Dropping(s) && Sound(s, s.threads[t])
    ensures Dropping(Next(s, t, c).value)
  {
    hide Pc.HoldsOp;
  }

  /** In every interleaving, once no Close or Configure is under way a closed cache holds no client. */
  lemma ClosedIsEmpty(s: State, schedule: seq<(Tid, Choice)>)
    requires Init(s)
    ensures var n := RunAll(s, schedule); n.closed && n.mu.None? ==> n.clients == map[]
  {
    assert Inv(s);
    hide Init, Inv;
    AllDropping(s, schedule);
  }

  lemma {:induction false} AllDropping(s: State, schedule: seq<(Tid, Choice)>)
    requires Inv(s) && Dropping(s)
    ensures Dropping(RunAll(s, schedule))
    decreases |schedule|
  {
    hide Inv, Next, Dropping;
    if schedule != [] {
      var (t, c) := schedule[0];
      if t in s.threads && Next(s, t, c).Some? {
        NextKeeps(s, t, c);
        DroppingKept(s, t, c);
        AllDropping(Next(s, t, c).value, schedule[1..]);
      } else {
        AllDropping(s, schedule[1..]);
      }
    }
  }
}
