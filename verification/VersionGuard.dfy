/**
 The guards of internal/routerosruntime as interleaved atomic steps: the mutex
 around every upstream callback with the package-global version it protects
 (provider.go:86-117), and the client cache that configures under both of its
 locks (cache.go:45-112).
 */
module VersionGuard {
  import opened Prelude

  type Tid = nat
  type Key = string

  /** A configured client, and the router version that was current when it was configured. */
  datatype Meta = Meta(client: nat, version: string)

  datatype Answer = Denied | Got(meta: Meta)

  /** Where a goroutine is: in a wrapped callback, in Configure, or in Close. */
  datatype Pc =
    | CallStart(meta: Option<Meta>)
    | CallLocked(m: Meta)
    | CallBody(m: Meta)
    | ConfStart(key: Key)
    | ConfHeld(key: Key)
    | ConfWantOp(key: Key)
    | ConfOp(key: Key)
    | ConfAsked(key: Key, client: nat)
    | ConfDropOp(key: Key, answer: Answer)
    | ConfDropMu(key: Key, answer: Answer)
    | ConfEnd(key: Key, answer: Answer)
    | CloseStart
    | CloseHeld
    | CloseWantOp
    | CloseOp
    | CloseDropOp
    | CloseDropMu
    | Finished
  {
    predicate HoldsOp() {
      CallLocked? || CallBody? || ConfOp? || ConfAsked? || ConfDropOp? || CloseOp? || CloseDropOp?
    }

    predicate HoldsMu() {
      ConfHeld? || ConfWantOp? || ConfOp? || ConfAsked? || ConfDropOp? || ConfDropMu?
      || CloseHeld? || CloseWantOp? || CloseOp? || CloseDropOp? || CloseDropMu?
    }

    predicate InCall() {
      CallStart? || CallLocked? || CallBody?
    }

    predicate InClose() {
      CloseStart? || CloseHeld? || CloseWantOp? || CloseOp? || CloseDropOp? || CloseDropMu?
    }

    predicate Done() {
      ConfEnd? || Finished?
    }

    /** Where a goroutine may begin. */
    predicate Start() {
      CallStart? || ConfStart? || CloseStart?
    }
  }

  /** `issued` remembers every client ever stored under a key. */
  datatype State = State(
    threads: map<Tid, Pc>,
    mu: Option<Tid>,
    op: Option<Tid>,
    version: string,
    clients: map<Key, Meta>,
    issued: map<Key, Meta>,
    closed: bool)

  /** What the router and the upstream provider decide: whether configuring works, with which client and version. */
  datatype Choice = Choice(ok: bool, client: nat, version: string)

  function At(s: State, t: Tid, pc: Pc): State {
    s.(threads := s.threads[t := pc])
  }

  function LockMu(s: State, t: Tid, pc: Pc): Option<State> {
    if s.mu.None? then Some(At(s, t, pc).(mu := Some(t))) else None
  }

  function LockOp(s: State, t: Tid, pc: Pc): Option<State> {
    if s.op.None? then Some(At(s, t, pc).(op := Some(t))) else None
  }

  /** provider.go: lock, write the version, run the body, unlock. */
  function NextCall(s: State, t: Tid): Option<State>
    requires t in s.threads
  {
    match s.threads[t]
    case CallStart(meta) => if meta.None? then Some(At(s, t, Finished)) else LockOp(s, t, CallLocked(meta.value))
    case CallLocked(m) => Some(At(s, t, CallBody(m)).(version := m.version))
    case CallBody(_) => Some(At(s, t, Finished).(op := None))
    case _ => None
  }

  /** cache.go, Configure: the cache lock, the closed and cached checks, then the operation lock to configure. */
  function NextConf(s: State, t: Tid, c: Choice): Option<State>
    requires t in s.threads
  {
    match s.threads[t]
    case ConfStart(k) => LockMu(s, t, ConfHeld(k))
    case ConfHeld(k) =>
      if s.closed then Some(At(s, t, ConfDropMu(k, Denied)))
      else if k in s.clients then Some(At(s, t, ConfDropMu(k, Got(s.clients[k]))))
      else Some(At(s, t, ConfWantOp(k)))
    case ConfWantOp(k) => LockOp(s, t, ConfOp(k))
    case ConfOp(k) =>
      if c.ok then Some(At(s, t, ConfAsked(k, c.client)).(version := c.version))
      else Some(At(s, t, ConfDropOp(k, Denied)).(version := c.version))
    case ConfAsked(k, client) =>
      var m := Meta(client, s.version);
      Some(At(s, t, ConfDropOp(k, Got(m))).(clients := s.clients[k := m], issued := s.issued[k := m]))
    case ConfDropOp(k, a) => Some(At(s, t, ConfDropMu(k, a)).(op := None))
    case ConfDropMu(k, a) => Some(At(s, t, ConfEnd(k, a)).(mu := None))
    case _ => None
  }

  /** cache.go, Close: mark closed under the cache lock, then drop the clients under both. */
  function NextClose(s: State, t: Tid): Option<State>
    requires t in s.threads
  {
    match s.threads[t]
    case CloseStart => LockMu(s, t, CloseHeld)
    case CloseHeld => if s.closed then Some(At(s, t, CloseDropMu)) else Some(At(s, t, CloseWantOp).(closed := true))
    case CloseWantOp => LockOp(s, t, CloseOp)
    case CloseOp => Some(At(s, t, CloseDropOp).(clients := map[]))
    case CloseDropOp => Some(At(s, t, CloseDropMu).(op := None))
    case CloseDropMu => Some(At(s, t, Finished).(mu := None))
    case _ => None
  }

  /** One atomic step of a goroutine; none while it waits for a lock or when it is done. */
  function Next(s: State, t: Tid, c: Choice): Option<State>
    requires t in s.threads
  {
    var pc := s.threads[t];
    if pc.InCall() then NextCall(s, t) else if pc.InClose() then NextClose(s, t) else NextConf(s, t, c)
  }

  ghost predicate Init(s: State) {
    && (forall t | t in s.threads :: s.threads[t].Start())
    && s.mu.None? && s.op.None? && s.clients == map[] && s.issued == map[] && !s.closed
  }

  /** What a goroutine may rely on where it is. */
  predicate Sound(s: State, pc: Pc) {
    match pc
    case CallBody(m) => s.version == m.version
    case ConfWantOp(k) => !s.closed && k !in s.clients
    case ConfOp(k) => !s.closed && k !in s.clients
    case ConfAsked(k, _) => !s.closed && k !in s.clients
    case ConfDropOp(k, Got(m)) => !s.closed && k in s.issued && s.issued[k] == m
    case ConfDropMu(k, Got(m)) => !s.closed && k in s.issued && s.issued[k] == m
    case ConfEnd(k, Got(m)) => k in s.issued && s.issued[k] == m
    case CloseWantOp => s.closed
    case CloseOp => s.closed
    case CloseDropOp => s.closed
    case CloseDropMu => s.closed
    case _ => true
  }

  ghost predicate Inv(s: State) {
    && (forall t | t in s.threads :: s.threads[t].HoldsOp() <==> s.op == Some(t))
    && (forall t | t in s.threads :: s.threads[t].HoldsMu() <==> s.mu == Some(t))
    && (s.op.Some? ==> s.op.value in s.threads) && (s.mu.Some? ==> s.mu.value in s.threads)
    && (forall t | t in s.threads :: Sound(s, s.threads[t]))
    && (forall k | k in s.clients :: k in s.issued && s.issued[k] == s.clients[k])
    && (!s.closed ==> s.clients == s.issued)
  }

  /** How a step of a goroutine treats a lock: it holds on to it, takes it while free, or drops its own. */
  predicate Fair(holder: Option<Tid>, after: Option<Tid>, t: Tid, held: bool, holds: bool) {
    if holds then after == Some(t) && (held || holder.None?)
    else if held then after.None?
    else after == holder
  }

  /** A step moves its own goroutine only, and treats both locks fairly. */
  ghost predicate Tidy(s: State, t: Tid, n: State)
    requires t in s.threads
  {
    && n.threads.Keys == s.threads.Keys
    && (forall u | u in s.threads && u != t :: n.threads[u] == s.threads[u])
    && Fair(s.op, n.op, t, s.threads[t].HoldsOp(), n.threads[t].HoldsOp())
    && Fair(s.mu, n.mu, t, s.threads[t].HoldsMu(), n.threads[t].HoldsMu())
  }

  /** The cache holds what was issued, all of it until it is closed, and issuing never replaces. */
  ghost predicate Cached(s: State, n: State) {
    && (forall k | k in n.clients :: k in n.issued && n.issued[k] == n.clients[k])
    && (!n.closed ==> n.clients == n.issued)
    && (forall k | k in s.issued :: k in n.issued && n.issued[k] == s.issued[k])
  }

  /** All a goroutine needs to know to take its step. */
  ghost predicate Ready(s: State, t: Tid) {
    && t in s.threads
    && (s.threads[t].HoldsOp() <==> s.op == Some(t)) && (s.threads[t].HoldsMu() <==> s.mu == Some(t))
    && Sound(s, s.threads[t]) && Cached(s, s)
  }

  ghost predicate Good(s: State, t: Tid, n: State)
    requires t in s.threads
  {
    Tidy(s, t, n) && Sound(n, n.threads[t]) && Cached(s, n)
  }

  lemma CallGood(s: State, t: Tid)
    requires Ready(s, t) && NextCall(s, t).Some?
    ensures Good(s, t, NextCall(s, t).value)
  {
    CallTidy(s, t);
    CallSound(s, t);
    hide Ready, Tidy, Sound, Cached, NextCall;
  }

  lemma CallTidy(s: State, t: Tid)
    requires Ready(s, t) && NextCall(s, t).Some?
    ensures Tidy(s, t, NextCall(s, t).value)
  {
    hide Sound, Cached;
  }

  lemma CallSound(s: State, t: Tid)
    requires Ready(s, t) && NextCall(s, t).Some?
    ensures var n := NextCall(s, t).value; t in n.threads && Sound(n, n.threads[t]) && Cached(s, n)
  {
    hide Pc.HoldsOp, Pc.HoldsMu;
  }

  lemma ConfGood(s: State, t: Tid, c: Choice)
    requires Ready(s, t) && NextConf(s, t, c).Some?
    ensures Good(s, t, NextConf(s, t, c).value)
  {
    ConfTidy(s, t, c);
    ConfSound(s, t, c);
    hide Ready, Tidy, Sound, Cached, NextConf;
  }

  lemma ConfTidy(s: State, t: Tid, c: Choice)
    requires Ready(s, t) && NextConf(s, t, c).Some?
    ensures Tidy(s, t, NextConf(s, t, c).value)
  {
    hide Sound, Cached;
  }

  lemma ConfSound(s: State, t: Tid, c: Choice)
    requires Ready(s, t) && NextConf(s, t, c).Some?
    ensures var n := NextConf(s, t, c).value; t in n.threads && Sound(n, n.threads[t]) && Cached(s, n)
  {
    ConfRelies(s, t, c);
    ConfCached(s, t, c);
    hide *;
  }

  lemma ConfRelies(s: State, t: Tid, c: Choice)
    requires Ready(s, t) && NextConf(s, t, c).Some?
    ensures var n := NextConf(s, t, c).value; t in n.threads && Sound(n, n.threads[t])
  {
    hide Pc.HoldsOp, Pc.HoldsMu;
    match s.threads[t]
    case ConfHeld(_) => assert !s.closed ==> s.clients == s.issued;
    case ConfAsked(_, _) =>
    case ConfDropMu(_, _) =>
    case _ =>
  }

  lemma ConfCached(s: State, t: Tid, c: Choice)
    requires Ready(s, t) && NextConf(s, t, c).Some?
    ensures Cached(s, NextConf(s, t, c).value)
  {
    hide Pc.HoldsOp, Pc.HoldsMu;
  }

  lemma CloseGood(s: State, t: Tid)
    requires Ready(s, t) && NextClose(s, t).Some?
    ensures Good(s, t, NextClose(s, t).value)
  {
    CloseTidy(s, t);
    CloseSound(s, t);
    hide Ready, Tidy, Sound, Cached, NextClose;
  }

  lemma CloseTidy(s: State, t: Tid)
    requires Ready(s, t) && NextClose(s, t).Some?
    ensures Tidy(s, t, NextClose(s, t).value)
  {
    hide Sound, Cached;
  }

  lemma CloseSound(s: State, t: Tid)
    requires Ready(s, t) && NextClose(s, t).Some?
    ensures var n := NextClose(s, t).value; t in n.threads && Sound(n, n.threads[t]) && Cached(s, n)
  {
    hide Pc.HoldsOp, Pc.HoldsMu;
    var n := NextClose(s, t).value;
    assert n.issued == s.issued;
    assert n.clients == s.clients || n.closed;
  }

  lemma StepGood(s: State, t: Tid, c: Choice)
    requires Inv(s) && t in s.threads && Next(s, t, c).Some?
    ensures Good(s, t, Next(s, t, c).value)
  {
    assert Ready(s, t);
    hide Inv, Ready, Good, NextCall, NextConf, NextClose;
    if s.threads[t].InCall() {
      CallGood(s, t);
    } else if s.threads[t].InClose() {
      CloseGood(s, t);
    } else {
      ConfGood(s, t, c);
    }
  }

  /** So every lock is held by exactly who is where it is held. */
  lemma LocksKept(s: State, t: Tid, c: Choice, u: Tid)
    requires Inv(s) && t in s.threads && u in s.threads && Next(s, t, c).Some?
    ensures
      var n := Next(s, t, c).value;
      && n.threads.Keys == s.threads.Keys && (u != t ==> n.threads[u] == s.threads[u])
      && (n.threads[u].HoldsOp() <==> n.op == Some(u))
      && (n.threads[u].HoldsMu() <==> n.mu == Some(u))
      && (n.op.Some? ==> n.op.value in n.threads) && (n.mu.Some? ==> n.mu.value in n.threads)
  {
    StepGood(s, t, c);
    hide Sound, Next, Cached;
  }

  /** What the others rely on is not taken from them: the locks they hold keep it. */
  lemma OthersSound(s: State, t: Tid, c: Choice, u: Tid)
    requires Inv(s) && t in s.threads && u in s.threads && u != t && Next(s, t, c).Some?
    ensures Sound(Next(s, t, c).value, s.threads[u])
  {
    assert Sound(s, s.threads[u]) && Sound(s, s.threads[t]);
    assert s.threads[t].HoldsOp() ==> !s.threads[u].HoldsOp();
    assert s.threads[t].HoldsMu() ==> !s.threads[u].HoldsMu();
  }

  /** Every atomic step keeps the invariant. */
  lemma NextKeeps(s: State, t: Tid, c: Choice)
    requires Inv(s) && t in s.threads && Next(s, t, c).Some?
    ensures Inv(Next(s, t, c).value)
  {
    var n := Next(s, t, c).value;
    StepGood(s, t, c);
    LocksKept(s, t, c, t);
    forall u | u in n.threads
      ensures n.threads[u].HoldsOp() <==> n.op == Some(u)
      ensures n.threads[u].HoldsMu() <==> n.mu == Some(u)
      ensures Sound(n, n.threads[u])
    {
      hide Inv, Next, Sound;
      LocksKept(s, t, c, u);
      if u != t {
        OthersSound(s, t, c, u);
      }
    }
    hide Next, Sound;
  }

  /** A schedule: who moves, and what is decided. */
  ghost function RunAll(s: State, schedule: seq<(Tid, Choice)>): State
    decreases |schedule|
  {
    if schedule == [] then s
    else
      var (t, c) := schedule[0];
      if t in s.threads && Next(s, t, c).Some? then RunAll(Next(s, t, c).value, schedule[1..]) else RunAll(s, schedule[1..])
  }

  lemma {:induction false} RunKeeps(s: State, schedule: seq<(Tid, Choice)>)
    requires Inv(s)
    ensures Inv(RunAll(s, schedule))
    decreases |schedule|
  {
    if schedule != [] {
      var (t, c) := schedule[0];
      if t in s.threads && Next(s, t, c).Some? {
        NextKeeps(s, t, c);
        RunKeeps(Next(s, t, c).value, schedule[1..]);
      } else {
        RunKeeps(s, schedule[1..]);
      }
    }
  }

  /**
   Safety over every interleaving: a callback body runs only while the global
   version is its own client's, and two goroutines are never in a body at once.
   */
  lemma BodySeesItsVersion(s: State, schedule: seq<(Tid, Choice)>, t: Tid)
    requires Init(s)
    ensures
      var n := RunAll(s, schedule);
      t in n.threads && n.threads[t].CallBody? ==>
        && n.version == n.threads[t].m.version
        && forall u | u in n.threads && n.threads[u].CallBody? :: u == t
  {
    RunKeeps(s, schedule);
  }

  /** What was issued under a key is never replaced. */
  lemma {:induction false} IssuedStays(s: State, schedule: seq<(Tid, Choice)>, k: Key)
    requires Inv(s) && k in s.issued
    ensures var n := RunAll(s, schedule); k in n.issued && n.issued[k] == s.issued[k]
    decreases |schedule|
  {
    if schedule != [] {
      var (t, c) := schedule[0];
      if t in s.threads && Next(s, t, c).Some? {
        NextKeeps(s, t, c);
        StepGood(s, t, c);
        hide Inv, Next;
        IssuedStays(Next(s, t, c).value, schedule[1..], k);
      } else {
        IssuedStays(s, schedule[1..], k);
      }
    }
  }

  /** Each key gets at most one client: all successful Configures of a key, ever, return the same one. */
  lemma OneClientPerKey(s: State, schedule: seq<(Tid, Choice)>, more: seq<(Tid, Choice)>, t: Tid, u: Tid, k: Key, a: Meta, b: Meta)
    requires Init(s)
    requires var m := RunAll(s, schedule); t in m.threads && m.threads[t] == ConfEnd(k, Got(a))
    requires var n := RunAll(RunAll(s, schedule), more); u in n.threads && n.threads[u] == ConfEnd(k, Got(b))
    ensures a == b
  {
    var m := RunAll(s, schedule);
    RunKeeps(s, schedule);
    assert Sound(m, m.threads[t]);
    IssuedStays(m, more, k);
    RunKeeps(m, more);
    var n := RunAll(m, more);
    assert Sound(n, n.threads[u]);
  }

  /** A Configure that has not got past the closed check when the cache is closed. */
  predicate Late(s: State, t: Tid) {
    && t in s.threads && s.closed
    && match s.threads[t]
       case ConfStart(_) => true
       case ConfHeld(_) => true
       case ConfDropMu(_, a) => a == Denied
       case ConfEnd(_, a) => a == Denied
       case _ => false
  }

  lemma LateStays(s: State, u: Tid, c: Choice, t: Tid)
    requires Late(s, t) && u in s.threads && Next(s, u, c).Some?
    ensures Late(Next(s, u, c).value, t)
  {
    hide Next;
    if u != t {
      OthersStay(s, u, c, t);
    } else {
      LateMoves(s, c, t);
    }
  }

  /** A step moves nobody else, and nothing opens a closed cache again. */
  ghost predicate Apart(s: State, u: Tid, t: Tid, n: State)
    requires t in s.threads
  {
    t in n.threads && (u != t ==> n.threads[t] == s.threads[t]) && (s.closed ==> n.closed)
  }

  lemma OthersStay(s: State, u: Tid, c: Choice, t: Tid)
    requires u in s.threads && t in s.threads && Next(s, u, c).Some?
    ensures Apart(s, u, t, Next(s, u, c).value)
  {
    CallStays(s, u, t);
    ConfStays(s, u, c, t);
    CloseStays(s, u, t);
    hide NextCall, NextConf, NextClose, Pc.InCall, Pc.InClose, Apart;
  }

  lemma CallStays(s: State, u: Tid, t: Tid)
    requires u in s.threads && t in s.threads
    ensures NextCall(s, u).Some? ==> Apart(s, u, t, NextCall(s, u).value)
  {
  }

  lemma ConfStays(s: State, u: Tid, c: Choice, t: Tid)
    requires u in s.threads && t in s.threads
    ensures NextConf(s, u, c).Some? ==> Apart(s, u, t, NextConf(s, u, c).value)
  {
  }

  lemma CloseStays(s: State, u: Tid, t: Tid)
    requires u in s.threads && t in s.threads
    ensures NextClose(s, u).Some? ==> Apart(s, u, t, NextClose(s, u).value)
  {
  }

  lemma LateMoves(s: State, c: Choice, t: Tid)
    requires Late(s, t) && Next(s, t, c).Some?
    ensures Late(Next(s, t, c).value, t)
  {
    hide Pc.HoldsOp, Pc.HoldsMu;
    assert !s.threads[t].InCall() && !s.threads[t].InClose();
    hide NextCall, NextClose;
  }

  /** After Close, a Configure that starts ends refused, however the run goes on. */
  lemma {:induction false} ConfigureAfterClose(s: State, schedule: seq<(Tid, Choice)>, t: Tid)
    requires Late(s, t)
    ensures Late(RunAll(s, schedule), t)
    decreases |schedule|
  {
    if schedule != [] {
      var (u, c) := schedule[0];
      hide Late, Next;
      if u in s.threads && Next(s, u, c).Some? {
        LateStays(s, u, c, t);
        ConfigureAfterClose(Next(s, u, c).value, schedule[1..], t);
      } else {
        ConfigureAfterClose(s, schedule[1..], t);
      }
    }
  }

  /** The two locks are always taken in the same order, so somebody can always move. */
  lemma NoDeadlock(s: State, schedule: seq<(Tid, Choice)>, c: Choice) returns (t: Tid)
    requires Init(s)
    requires exists u :: u in RunAll(s, schedule).threads && !RunAll(s, schedule).threads[u].Done()
    ensures var n := RunAll(s, schedule); t in n.threads && Next(n, t, c).Some?
  {
    RunKeeps(s, schedule);
    var n := RunAll(s, schedule);
    hide RunAll, Init, Sound;
    var u :| u in n.threads && !n.threads[u].Done();
    if n.op.Some? {
      t := n.op.value;
      assert n.threads[t].HoldsOp();
    } else if n.mu.Some? {
      t := n.mu.value;
      assert n.threads[t].HoldsMu() && !n.threads[t].HoldsOp();
    } else {
      t := u;
      assert !n.threads[t].HoldsMu() && !n.threads[t].HoldsOp();
    }
  }

  // ---- Where a client's version comes from ----

  /** What a step configures: a client under a key, with the version the router then had. */
  ghost function Made(s: State, t: Tid, c: Choice): set<(Key, Meta)>
    requires t in s.threads
  {
    if s.threads[t].ConfOp? && c.ok then {(s.threads[t].key, Meta(c.client, c.version))} else {}
  }

  ghost function AllMade(s: State, schedule: seq<(Tid, Choice)>): set<(Key, Meta)>
    decreases |schedule|
  {
    if schedule == [] then {}
    else
      var (t, c) := schedule[0];
      if t in s.threads && Next(s, t, c).Some? then Made(s, t, c) + AllMade(Next(s, t, c).value, schedule[1..])
      else AllMade(s, schedule[1..])
  }

  /** What is stored, or about to be, was made as it stands: until then the global is the version of that making. */
  ghost predicate Known(s: State, made: set<(Key, Meta)>) {
    && (forall t | t in s.threads && s.threads[t].ConfAsked? :: (s.threads[t].key, Meta(s.threads[t].client, s.version)) in made)
    && (forall k | k in s.issued :: (k, s.issued[k]) in made)
  }

  /** Only who holds the operation lock writes the version. */
  lemma VersionHeld(s: State, t: Tid, c: Choice)
    requires t in s.threads && Next(s, t, c).Some? && !s.threads[t].HoldsOp()
    ensures Next(s, t, c).value.version == s.version
  {
  }

  lemma IssuedMade(s: State, t: Tid, c: Choice, made: set<(Key, Meta)>)
    requires t in s.threads && Next(s, t, c).Some? && Known(s, made)
    ensures forall k | k in Next(s, t, c).value.issued :: (k, Next(s, t, c).value.issued[k]) in made
  {
    hide Pc.HoldsOp, Pc.HoldsMu;
  }

  lemma AskedMade(s: State, t: Tid, c: Choice)
    requires t in s.threads && Next(s, t, c).Some?
    ensures
      var n := Next(s, t, c).value;
      t in n.threads && n.threads[t].ConfAsked? ==> (n.threads[t].key, Meta(n.threads[t].client, n.version)) in Made(s, t, c)
  {
    hide Pc.HoldsOp, Pc.HoldsMu;
  }

  lemma KnownKept(s: State, t: Tid, c: Choice, made: set<(Key, Meta)>)
    requires Inv(s) && t in s.threads && Next(s, t, c).Some? && Known(s, made)
    ensures Known(Next(s, t, c).value, made + Made(s, t, c))
  {
    var n, now := Next(s, t, c).value, made + Made(s, t, c);
    IssuedMade(s, t, c, made);
    AskedMade(s, t, c);
    forall u | u in n.threads && n.threads[u].ConfAsked?
      ensures (n.threads[u].key, Meta(n.threads[u].client, n.version)) in now
    {
      if u != t {
        AskedStays(s, t, c, u);
      }
    }
    hide Next, Inv, Made;
  }

  lemma AskedStays(s: State, t: Tid, c: Choice, u: Tid)
    requires Inv(s) && t in s.threads && Next(s, t, c).Some? && u != t
    requires u in Next(s, t, c).value.threads && Next(s, t, c).value.threads[u].ConfAsked?
    ensures u in s.threads && s.threads[u] == Next(s, t, c).value.threads[u] && Next(s, t, c).value.version == s.version
  {
    StepGood(s, t, c);
    hide Next, Sound;
    assert s.op == Some(u);
    VersionHeld(s, t, c);
  }

  lemma {:induction false} KnownAll(s: State, schedule: seq<(Tid, Choice)>, made: set<(Key, Meta)>)
    requires Inv(s) && Known(s, made)
    ensures Known(RunAll(s, schedule), made + AllMade(s, schedule))
    decreases |schedule|
  {
    hide Inv, Next, Known, Made;
    if schedule == [] {
      assert made + {} == made;
    } else {
      var (t, c) := schedule[0];
      if t in s.threads && Next(s, t, c).Some? {
        NextKeeps(s, t, c);
        KnownKept(s, t, c, made);
        KnownAll(Next(s, t, c).value, schedule[1..], made + Made(s, t, c));
        assert made + Made(s, t, c) + AllMade(Next(s, t, c).value, schedule[1..]) == made + AllMade(s, schedule);
      } else {
        KnownAll(s, schedule[1..], made);
      }
    }
  }

  lemma {:induction false} MadeByChoice(s: State, schedule: seq<(Tid, Choice)>, k: Key, m: Meta)
    requires (k, m) in AllMade(s, schedule)
    ensures exists i :: 0 <= i < |schedule| && schedule[i].1.ok && m == Meta(schedule[i].1.client, schedule[i].1.version)
    decreases |schedule|
  {
    hide Next;
    var (t, c) := schedule[0];
    if t in s.threads && Next(s, t, c).Some? && (k, m) in Made(s, t, c) {
      assert schedule[0].1.ok && m == Meta(schedule[0].1.client, schedule[0].1.version);
    } else {
      var next := if t in s.threads && Next(s, t, c).Some? then Next(s, t, c).value else s;
      MadeByChoice(next, schedule[1..], k, m);
      var i :| 0 <= i < |schedule[1..]| && schedule[1..][i].1.ok && m == Meta(schedule[1..][i].1.client, schedule[1..][i].1.version);
      assert schedule[i + 1] == schedule[1..][i];
    }
  }

  /**
   In every interleaving, what a Configure returns was made for its key by a step
   that configured it: the client it was given there, and the version the router
   had there.
   */
  lemma VersionIsConfigured(s: State, schedule: seq<(Tid, Choice)>, t: Tid, k: Key, m: Meta)
    requires Init(s)
    requires var n := RunAll(s, schedule); t in n.threads && n.threads[t] == ConfEnd(k, Got(m))
    ensures (k, m) in AllMade(s, schedule)
    ensures exists i :: 0 <= i < |schedule| && schedule[i].1.ok && m == Meta(schedule[i].1.client, schedule[i].1.version)
  {
    RunKeeps(s, schedule);
    InitKnown(s);
    hide Init, RunAll, AllMade;
    KnownAll(s, schedule, {});
    var n := RunAll(s, schedule);
    assert Sound(n, n.threads[t]);
    assert {} + AllMade(s, schedule) == AllMade(s, schedule);
    MadeByChoice(s, schedule, k, m);
  }

  lemma InitKnown(s: State)
    requires Init(s)
    ensures Known(s, {})
  {
  }
}
