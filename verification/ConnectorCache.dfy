/**
 The connector's client cache (native/internal/connection/providerconfig.go:
 87-124): looked up under a lock, built outside it, checked again under it. Each
 critical section is one atomic step, since the map is touched nowhere else.
 */
module ConnectorCache {

  type Tid = nat
  type Key = string
  type Print = string
  type Http = nat

  /** A cached client: the fingerprint of the settings it was built from, and its HTTP client. */
  datatype Client = Client(mark: Print, http: Http)

  /** What Connect returns: an error, or a menu (named by its HTTP client) and a fingerprint. */
  datatype Answer = Failed | Connected(http: Http, mark: Print)

  /** Where one Connect is. `Built` holds a new client; `Closing` is about to close one. */
  datatype Pc =
    | Start(key: Key, mark: Print)
    | Build(key: Key, mark: Print)
    | Built(key: Key, mark: Print, http: Http)
    | Closing(key: Key, http: Http, answer: Answer)
    | Done(key: Key, answer: Answer)

  /** Where an HTTP client is: in the hands of a Connect, in the cache, or closed. */
  datatype Place = With(t: Tid) | In(key: Key) | Closed

  /** `origin` and `place` record, for every HTTP client ever built, its settings and where it is now. */
  datatype State = State(
    threads: map<Tid, Pc>,
    clients: map<Key, Client>,
    closed: set<Http>,
    origin: map<Http, Print>,
    place: map<Http, Place>)

  /** What is decided elsewhere: whether building works, and the new client's name. */
  datatype Choice = Choice(ok: bool, http: Http)

  function At(s: State, t: Tid, pc: Pc): State {
    s.(threads := s.threads[t := pc])
  }

  /** One atomic step of a Connect; none when it is done. */
  function Next(s: State, t: Tid, c: Choice): (n: State)
    requires t in s.threads
    ensures n.threads.Keys == s.threads.Keys
    ensures forall u | u in s.threads && u != t :: n.threads[u] == s.threads[u]
  {
    match s.threads[t]
    case Start(k, p) =>
      if k in s.clients && s.clients[k].mark == p then At(s, t, Done(k, Connected(s.clients[k].http, p)))
      else At(s, t, Build(k, p))
    case Build(k, p) =>
      if !c.ok || c.http in s.origin then At(s, t, Done(k, Failed))
      else At(s, t, Built(k, p, c.http)).(origin := s.origin[c.http := p], place := s.place[c.http := With(t)])
    case Built(k, p, h) =>
      if !c.ok then At(s, t, Closing(k, h, Failed))
      else if k in s.clients && s.clients[k].mark == p then At(s, t, Closing(k, h, Connected(s.clients[k].http, p)))
      else
        var stored := s.(clients := s.clients[k := Client(p, h)], place := s.place[h := In(k)]);
        if k in s.clients then
          var before := s.clients[k].http;
          At(stored, t, Closing(k, before, Connected(h, p))).(place := stored.place[before := With(t)])
        else At(stored, t, Done(k, Connected(h, p)))
    case Closing(k, h, a) => At(s, t, Done(k, a)).(closed := s.closed + {h}, place := s.place[h := Closed])
    case Done(_, _) => s
  }

  /** The HTTP client a Connect has in its hands. */
  predicate Holds(pc: Pc, h: Http) {
    (pc.Built? || pc.Closing?) && pc.http == h
  }

  /** The answer a Connect will give, or has given. */
  predicate Promises(pc: Pc, a: Answer) {
    (pc.Closing? || pc.Done?) && pc.answer == a
  }

  ghost predicate Init(s: State) {
    && (forall t | t in s.threads :: s.threads[t].Start?)
    && s.clients == map[] && s.closed == {} && s.origin == map[] && s.place == map[]
  }

  /** `h` really is at `w`. */
  predicate Located(s: State, h: Http, w: Place) {
    match w
    case With(t) => t in s.threads && Holds(s.threads[t], h)
    case In(k) => k in s.clients && s.clients[k].http == h
    case Closed => h in s.closed
  }

  /** The record says where. */
  predicate Recorded(s: State, h: Http, w: Place) {
    h in s.place && s.place[h] == w
  }

  /** Every HTTP client ever built has one place recorded, and is there and nowhere else. */
  ghost predicate Places(s: State) {
    && s.place.Keys == s.origin.Keys
    && (forall h, w :: Located(s, h, w) <==> Recorded(s, h, w))
  }

  /** `h` was built from settings whose fingerprint is `p`. */
  predicate Source(s: State, h: Http, p: Print) {
    h in s.origin && s.origin[h] == p
  }

  /** What is cached or promised was built from the settings it is filed under. */
  ghost predicate Sources(s: State) {
    && (forall k | k in s.clients :: Source(s, s.clients[k].http, s.clients[k].mark))
    && (forall t | t in s.threads && s.threads[t].Built? :: Source(s, s.threads[t].http, s.threads[t].mark))
    && (forall t, h, p | t in s.threads && Promises(s.threads[t], Connected(h, p)) :: Source(s, h, p))
  }

  ghost predicate Inv(s: State) {
    Places(s) && Sources(s)
  }

  /** One step moves at most the client a Connect holds or has built, and the one it takes out of the cache. */
  lemma PlaceKept(s: State, t: Tid, c: Choice, h: Http, w: Place)
    requires Places(s) && t in s.threads
    ensures Located(Next(s, t, c), h, w) <==> Recorded(Next(s, t, c), h, w)
  {
    var n, pc := Next(s, t, c), s.threads[t];
    assert Located(s, h, w) <==> Recorded(s, h, w);
    assert Located(s, h, With(t)) <==> Recorded(s, h, With(t));
    if pc.Built? || pc.Closing? {
      assert Located(s, pc.http, With(t)) && Recorded(s, pc.http, With(t));
    }
    if pc.Built? && pc.key in s.clients {
      assert Located(s, s.clients[pc.key].http, In(pc.key)) && Recorded(s, s.clients[pc.key].http, In(pc.key));
      assert Located(s, h, In(pc.key)) <==> Recorded(s, h, In(pc.key));
    }
  }

  lemma PlacesKept(s: State, t: Tid, c: Choice)
    requires Places(s) && t in s.threads
    ensures Places(Next(s, t, c))
  {
    var n := Next(s, t, c);
    assert n.place.Keys == n.origin.Keys by {
      RecordComplete(s, t, c);
    }
    hide Next, Located, Recorded;
    forall h, w
      ensures Located(n, h, w) <==> Recorded(n, h, w)
    {
      PlaceKept(s, t, c, h, w);
    }
  }

  lemma RecordComplete(s: State, t: Tid, c: Choice)
    requires Places(s) && t in s.threads
    ensures Next(s, t, c).place.Keys == Next(s, t, c).origin.Keys
  {
    var pc := s.threads[t];
    if pc.Built? || pc.Closing? {
      assert Located(s, pc.http, With(t)) && Recorded(s, pc.http, With(t));
    }
    if pc.Built? && pc.key in s.clients {
      assert Located(s, s.clients[pc.key].http, In(pc.key)) && Recorded(s, s.clients[pc.key].http, In(pc.key));
    }
  }

  lemma SourcesKept(s: State, t: Tid, c: Choice)
    requires Sources(s) && t in s.threads
    ensures Sources(Next(s, t, c))
  {
    var n := Next(s, t, c);
    assert forall h, p | Source(s, h, p) :: Source(n, h, p);
    forall u, h, p | u in n.threads && Promises(n.threads[u], Connected(h, p))
      ensures Source(n, h, p)
    {
      if u == t && s.threads[t].Closing? {
        assert Promises(s.threads[t], Connected(h, p));
      }
    }
  }

  lemma NextKeeps(s: State, t: Tid, c: Choice)
    requires Inv(s) && t in s.threads
    ensures Inv(Next(s, t, c))
  {
    hide Places, Sources, Next;
    PlacesKept(s, t, c);
    SourcesKept(s, t, c);
  }

  ghost function RunAll(s: State, schedule: seq<(Tid, Choice)>): State
    decreases |schedule|
  {
    if schedule == [] then s
    else
      var (t, c) := schedule[0];
      RunAll(if t in s.threads then Next(s, t, c) else s, schedule[1..])
  }

  lemma {:induction false} RunKeeps(s: State, schedule: seq<(Tid, Choice)>)
    requires Inv(s)
    ensures Inv(RunAll(s, schedule))
    decreases |schedule|
  {
    hide Inv, Next;
    if schedule != [] {
      var (t, c) := schedule[0];
      if t in s.threads {
        NextKeeps(s, t, c);
      }
      RunKeeps(if t in s.threads then Next(s, t, c) else s, schedule[1..]);
    }
  }

  ghost predicate InFlight(s: State, h: Http) {
    exists t :: Located(s, h, With(t))
  }

  ghost predicate IsCached(s: State, h: Http) {
    exists k :: Located(s, h, In(k))
  }

  /**
   In every interleaving, every HTTP client ever built is in exactly one place: in
   flight with one Connect, cached under one key, or closed. So a cached client is
   never a closed one; one already returned to a caller can still be closed, by a
   Connect that finds other settings under its key.
   */
  lemma OnePlacePerClient(s: State, schedule: seq<(Tid, Choice)>, h: Http)
    requires Init(s) && h in RunAll(s, schedule).origin
    ensures
      var n := RunAll(s, schedule);
      && (InFlight(n, h) || IsCached(n, h) || h in n.closed)
      && (forall v, w | Located(n, h, v) && Located(n, h, w) :: v == w)
  {
    RunKeeps(s, schedule);
    var n := RunAll(s, schedule);
    hide RunAll, Init, Sources;
    var w := n.place[h];
    assert Recorded(n, h, w);
    assert Located(n, h, w);
    match w
    case With(t) =>
    case In(k) =>
    case Closed =>
  }

  /** And every menu a Connect returns was built from settings with the fingerprint returned. */
  lemma AnswerMatchesSettings(s: State, schedule: seq<(Tid, Choice)>, t: Tid, h: Http, p: Print)
    requires Init(s)
    requires var n := RunAll(s, schedule); t in n.threads && n.threads[t].Done? && n.threads[t].answer == Connected(h, p)
    ensures var n := RunAll(s, schedule); h in n.origin && n.origin[h] == p
  {
    RunKeeps(s, schedule);
    var n := RunAll(s, schedule);
    hide RunAll, Init, Places;
    assert Promises(n.threads[t], Connected(h, p));
  }

  /** When every Connect has returned, one client per key is left open and all others are closed. */
  lemma QuietCache(s: State, schedule: seq<(Tid, Choice)>, h: Http)
    requires Init(s)
    requires var n := RunAll(s, schedule); forall t | t in n.threads :: n.threads[t].Done?
    ensures var n := RunAll(s, schedule); h in n.origin && h !in n.closed ==> IsCached(n, h)
  {
    if h in RunAll(s, schedule).origin {
      OnePlacePerClient(s, schedule, h);
    }
  }

  // ---- A key whose settings stay as they are ----

  /** Every Connect of the key that is not over sees the same settings. */
  ghost predicate SameSettings(s: State, k: Key, p: Print) {
    forall t | t in s.threads && s.threads[t].key == k && (s.threads[t].Start? || s.threads[t].Build? || s.threads[t].Built?) ::
      s.threads[t].mark == p
  }

  /** A Connect of the key sees these settings, or has the client that is cached for its answer. */
  predicate Fits(clients: map<Key, Client>, pc: Pc, k: Key, p: Print) {
    pc.key == k ==>
      if pc.Closing? || pc.Done? then
        pc.answer.Connected? ==> k in clients && pc.answer.http == clients[k].http
      else pc.mark == p
  }

  /** Then the key is filled once. */
  ghost predicate Steady(s: State, k: Key, p: Print) {
    && (k in s.clients ==> s.clients[k].mark == p)
    && (forall t | t in s.threads :: Fits(s.clients, s.threads[t], k, p))
  }

  ghost predicate FilledOnce(s: State, t: Tid, n: State, k: Key, p: Print) {
    && t in n.threads && Fits(n.clients, n.threads[t], k, p) && (k in n.clients ==> n.clients[k].mark == p)
    && (k in s.clients ==> k in n.clients && n.clients[k] == s.clients[k])
  }

  lemma StoreFillsOnce(s: State, t: Tid, c: Choice, k: Key, p: Print)
    requires t in s.threads && Fits(s.clients, s.threads[t], k, p) && (k in s.clients ==> s.clients[k].mark == p)
    requires s.threads[t].Built?
    ensures FilledOnce(s, t, Next(s, t, c), k, p)
  {
  }

  lemma OthersFillNothing(s: State, t: Tid, c: Choice, k: Key, p: Print)
    requires t in s.threads && Fits(s.clients, s.threads[t], k, p) && (k in s.clients ==> s.clients[k].mark == p)
    requires !s.threads[t].Built?
    ensures FilledOnce(s, t, Next(s, t, c), k, p)
  {
  }

  lemma SteadyKept(s: State, t: Tid, c: Choice, k: Key, p: Print)
    requires Steady(s, k, p) && t in s.threads
    ensures Steady(Next(s, t, c), k, p)
    ensures k in s.clients ==> k in Next(s, t, c).clients && Next(s, t, c).clients[k] == s.clients[k]
  {
    hide Next;
    if s.threads[t].Built? {
      StoreFillsOnce(s, t, c, k, p);
    } else {
      OthersFillNothing(s, t, c, k, p);
    }
  }

  lemma {:induction false} SteadyAll(s: State, schedule: seq<(Tid, Choice)>, k: Key, p: Print)
    requires Steady(s, k, p)
    ensures Steady(RunAll(s, schedule), k, p)
    ensures k in s.clients ==> k in RunAll(s, schedule).clients && RunAll(s, schedule).clients[k] == s.clients[k]
    decreases |schedule|
  {
    hide Steady, Next;
    if schedule != [] {
      var (t, c) := schedule[0];
      if t in s.threads {
        SteadyKept(s, t, c, k, p);
      }
      SteadyAll(if t in s.threads then Next(s, t, c) else s, schedule[1..], k, p);
    }
  }

  /**
   As long as the settings under a key stay the same, all its Connects return one
   client, in every interleaving and however the run goes on, and that client is
   never closed.
   */
  lemma OneClientPerSettings(s: State, schedule: seq<(Tid, Choice)>, more: seq<(Tid, Choice)>, t: Tid, u: Tid, k: Key, p: Print, h: Http, g: Http)
    requires Init(s) && SameSettings(s, k, p)
    requires var m := RunAll(s, schedule); t in m.threads && m.threads[t] == Done(k, Connected(h, p))
    requires var n := RunAll(RunAll(s, schedule), more); u in n.threads && n.threads[u] == Done(k, Connected(g, p))
    ensures g == h && h !in RunAll(RunAll(s, schedule), more).closed
  {
    hide Next;
    assert Inv(s);
    assert Steady(s, k, p);
    SteadyAll(s, schedule, k, p);
    var m := RunAll(s, schedule);
    SteadyAll(m, more, k, p);
    RunKeeps(s, schedule);
    RunKeeps(m, more);
    var n := RunAll(m, more);
    hide RunAll, Init, SameSettings, Sources;
    assert Located(n, g, In(k));
    assert Recorded(n, g, In(k));
    assert Located(n, h, Closed) <==> Recorded(n, h, Closed);
  }

  // ---- One Connect by itself ----

  /** One Connect takes four steps by itself. */
  ghost function Alone(s: State, t: Tid, c: Choice): State
    requires t in s.threads
  {
    Next(Next(Next(Next(s, t, c), t, c), t, c), t, c)
  }

  /** A client cached for these very settings is returned, and nothing is built, closed or replaced. */
  lemma ConnectReuses(s: State, t: Tid, c: Choice, k: Key, p: Print)
    requires t in s.threads && s.threads[t] == Start(k, p) && k in s.clients && s.clients[k].mark == p
    ensures Alone(s, t, c) == s.(threads := s.threads[t := Done(k, Connected(s.clients[k].http, p))])
  {
  }

  /** Otherwise a new one is built, cached under the key and returned, and the one it replaces, if any, is closed. */
  lemma ConnectReplaces(s: State, t: Tid, c: Choice, k: Key, p: Print)
    requires t in s.threads && s.threads[t] == Start(k, p) && !(k in s.clients && s.clients[k].mark == p)
    requires c.ok && c.http !in s.origin
    ensures
      var n := Alone(s, t, c);
      && n.threads == s.threads[t := Done(k, Connected(c.http, p))]
      && n.clients == s.clients[k := Client(p, c.http)]
      && n.closed == s.closed + (if k in s.clients then {s.clients[k].http} else {})
  {
    var built := Next(Next(s, t, c), t, c);
    assert built.threads == s.threads[t := Built(k, p, c.http)] && built.clients == s.clients && built.closed == s.closed;
    ConnectStores(built, t, c, k, p);
    var n := Alone(s, t, c);
    assert n.threads == s.threads[t := Done(k, Connected(c.http, p))];
  }

  lemma ConnectStores(s: State, t: Tid, c: Choice, k: Key, p: Print)
    requires t in s.threads && s.threads[t] == Built(k, p, c.http) && c.ok && !(k in s.clients && s.clients[k].mark == p)
    ensures
      var n := Next(Next(s, t, c), t, c);
      && n.threads == s.threads[t := Done(k, Connected(c.http, p))]
      && n.clients == s.clients[k := Client(p, c.http)]
      && n.closed == s.closed + (if k in s.clients then {s.clients[k].http} else {})
  {
    var one := Next(s, t, c);
    if k in s.clients {
      assert one.threads == s.threads[t := Closing(k, s.clients[k].http, Connected(c.http, p))];
    } else {
      assert one.threads == s.threads[t := Done(k, Connected(c.http, p))];
      assert s.closed + {} == s.closed;
    }
    hide Holds;
    assert Next(one, t, c).threads == s.threads[t := Done(k, Connected(c.http, p))];
  }

  /** When building fails nothing is cached, replaced or closed. */
  lemma ConnectFails(s: State, t: Tid, c: Choice, k: Key, p: Print)
    requires t in s.threads && s.threads[t] == Start(k, p) && !(k in s.clients && s.clients[k].mark == p) && !c.ok
    ensures Alone(s, t, c) == s.(threads := s.threads[t := Done(k, Failed)])
  {
    var one := Next(s, t, c);
    assert one == s.(threads := s.threads[t := Build(k, p)]);
    assert Next(one, t, c).threads == s.threads[t := Done(k, Failed)];
  }
}
