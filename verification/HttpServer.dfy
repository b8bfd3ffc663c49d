/**
 * The registry as the program holds it: the shared fields of http_server, and the functions of the
 * accept handler, the connection handlers, the co-worker and the manager that update them. Each is
 * run here without interruption, and is proved to be a run of the steps of Registry.
 */
module HttpServer {
  import opened Options
  import opened Bytes
  import opened Registry

  const CIRCLE := 0x1_0000_0000_0000_0000

  lemma RunAppend(s: Server, es: seq<Event>, e: Event)
    requires CanRun(s, es) && Enabled(Run(s, es), e)
    ensures CanRun(s, es + [e]) && Run(s, es + [e]) == Apply(Run(s, es), e)
    decreases |es|
  {
    if es == [] {
      assert CanRun(Apply(s, e), []);
    } else {
      assert (es + [e])[1..] == es[1..] + [e];
      RunAppend(Apply(s, es[0]), es[1..], e);
    }
  }

  lemma RunOfOne(s: Server, e: Event)
    requires Enabled(s, e)
    ensures CanRun(s, [e]) && Run(s, [e]) == Apply(s, e)
  {
    RunAppend(s, [], e);
    assert [] + [e] == [e];
  }

  lemma RunOfTwo(s: Server, e: Event, f: Event)
    requires Enabled(s, e) && Enabled(Apply(s, e), f)
    ensures CanRun(s, [e, f]) && Run(s, [e, f]) == Apply(Apply(s, e), f)
  {
    RunOfOne(s, e);
    RunAppend(s, [e], f);
    assert [e] + [f] == [e, f];
  }

  lemma RunOfThree(s: Server, e: Event, f: Event, g: Event)
    requires Enabled(s, e) && Enabled(Apply(s, e), f) && Enabled(Apply(Apply(s, e), f), g)
    ensures CanRun(s, [e, f, g]) && Run(s, [e, f, g]) == Apply(Apply(Apply(s, e), f), g)
  {
    RunOfTwo(s, e, f);
    RunAppend(s, [e, f], g);
    assert [e, f] + [g] == [e, f, g];
  }

  lemma NextIsNotRegistered(s: Server)
    requires Inv(s)
    ensures NextConn(s) !in s.front
  {
    assert s.cached == [] ==> !Held(s, s.created);
  }

  /**
   * A connection has been accepted: the oldest cached one, or a new one, is in the last slot, touched
   * and working.
   */
  ghost predicate Accepts(s: Server, t: Server) {
    var c := if s.cached != [] then s.cached[0] else s.created;
    && |s.wheel| == 10 && t.wheel == s.wheel[..9] + [s.wheel[9] + {c}]
    && t.cached == (if s.cached != [] then s.cached[1..] else []) && t.created == (if s.cached != [] then s.created else s.created + 1)
    && t.stats == s.stats[c := Working] && t.touched == s.touched[c := s.now]
  }

  lemma AcceptedConn(s: Server)
    requires |s.wheel| == SLOTS && s.accept == Listening && s.manager == Sleeping && s.count < s.maxConns
    ensures Accepts(s, Apply(Apply(Apply(s, AcceptCheck), AcceptCommit), Event.StartConn))
  {
    var s2 := Apply(Apply(s, AcceptCheck), AcceptCommit);
    assert s2.wheel == s.wheel[..9] + [s.wheel[9] + {NextConn(s)}];
  }

  /** push_back of a circular buffer of ten: a full one loses its front. */
  function PushBack(wheel: seq<set<Conn>>, slot: set<Conn>): seq<set<Conn>> {
    (if |wheel| == SLOTS then wheel[1..] else wheel) + [slot]
  }

  /** The tick finds no live connection in use under c: it was freed, or it was recycled. */
  predicate IsGone(s: Server, c: Conn) { !Exists(s, c) || s.stats[c] == Pending }

  predicate IsExpired(s: Server, c: Conn) { !IsGone(s, c) && IsIdle(s, c) }

  /** Those of a slot that the tick puts on the list to remove. */
  function Expired(s: Server, slot: set<Conn>): set<Conn> { set c | c in slot && IsExpired(s, c) }

  /** Those of a slot that go to the back of the wheel. */
  function Surviving(s: Server, slot: set<Conn>): set<Conn> {
    set c | c in slot && !IsGone(s, c) && !IsExpired(s, c)
  }

  function Marked(stats: map<Conn, Stats>, failed: set<Conn>): map<Conn, Stats> {
    map c | c in stats :: if c in failed then Error else stats[c]
  }

  /** The state of an undisturbed tick that began in s and has todo of the front slot before it. */
  function MidTick(s: Server, todo: set<Conn>): Server
    requires s.wheel != []
  {
    var done := s.wheel[0] - todo;
    s.(pending := s.pending + Expired(s, done), stats := Marked(s.stats, Expired(s, done)),
       tick := Ticking(todo, todo + Surviving(s, done), {}))
  }

  /** The assertion of the tick: what it finds pending is cached. */
  ghost predicate PendingIsCached(s: Server)
    requires s.wheel != []
  {
    forall c :: c in s.wheel[0] && Exists(s, c) && s.stats[c] == Pending ==> c in s.cached
  }

  lemma MidTickStart(s: Server)
    requires s.wheel != [] && s.tick == Waiting
    ensures Apply(s, TickCopy) == MidTick(s, s.wheel[0])
  {
    ProcessedNone(s);
    assert s.wheel[0] - s.wheel[0] == {};
    assert s.pending + {} == s.pending && s.wheel[0] + {} == s.wheel[0];
  }

  lemma ProcessedNone(s: Server)
    ensures Expired(s, {}) == {} && Surviving(s, {}) == {} && Marked(s.stats, {}) == s.stats
  {
  }

  lemma ProcessedOne(s: Server, done: set<Conn>, c: Conn)
    ensures Expired(s, done + {c}) == Expired(s, done) + if IsExpired(s, c) then {c} else {}
    ensures Surviving(s, done + {c}) == Surviving(s, done) + if IsGone(s, c) || IsExpired(s, c) then {} else {c}
  {
  }

  lemma MarkedOne(stats: map<Conn, Stats>, failed: set<Conn>, c: Conn)
    requires c in stats
    ensures Marked(stats, failed)[c := Error] == Marked(stats, failed + {c})
  {
  }

  /** One item of the tick, listed for removal or not, is one or two steps. */
  lemma MidTickStep(s: Server, todo: set<Conn>, c: Conn) returns (es: seq<Event>)
    requires s.wheel != [] && s.manager == Sleeping && PendingIsCached(s) && todo <= s.wheel[0] && c in todo
    ensures CanRun(MidTick(s, todo), es) && Run(MidTick(s, todo), es) == MidTick(s, todo - {c})
  {
    var m, m' := MidTick(s, todo), MidTick(s, todo - {c});
    var done := s.wheel[0] - todo;
    ProcessedOne(s, done, c);
    assert s.wheel[0] - (todo - {c}) == done + {c};
    if IsExpired(s, c) {
      es := [TickItem(c), TickPushToRemove];
      MarkedOne(s.stats, Expired(s, done), c);
      ExpiredStep(m, m', c);
    } else {
      es := [TickItem(c)];
      OtherStep(m, m', c);
    }
  }

  /** So a run of the tick so far goes on to the next item. */
  lemma MidTickGoesOn(s: Server, es: seq<Event>, todo: set<Conn>, c: Conn) returns (es': seq<Event>)
    requires s.wheel != [] && s.manager == Sleeping && PendingIsCached(s) && todo <= s.wheel[0] && c in todo
    requires CanRun(s, es) && Run(s, es) == MidTick(s, todo)
    ensures CanRun(s, es') && Run(s, es') == MidTick(s, todo - {c})
  {
    var step := MidTickStep(s, todo, c);
    RunConcat(s, es, step);
    es' := es + step;
  }

  lemma ExpiredStep(m: Server, m': Server, c: Conn)
    requires m.tick.Ticking? && c in m.tick.todo && m.tick.holding == {} && IsExpired(m, c) && m.manager == Sleeping
    requires m' == m.(pending := m'.pending, stats := m'.stats, tick := m'.tick)
    requires m'.stats == m.stats[c := Error] && m'.pending == m.pending + {c}
    requires m'.tick == Ticking(m.tick.todo - {c}, m.tick.copy - {c}, {})
    ensures CanRun(m, [TickItem(c), TickPushToRemove]) && Run(m, [TickItem(c), TickPushToRemove]) == m'
  {
    RunOfTwo(m, TickItem(c), TickPushToRemove);
  }

  lemma OtherStep(m: Server, m': Server, c: Conn)
    requires m.tick.Ticking? && c in m.tick.todo && m.tick.holding == {} && !IsExpired(m, c)
    requires Exists(m, c) && m.stats[c] == Pending ==> c in m.cached
    requires m' == m.(tick := m'.tick)
    requires m'.tick == Ticking(m.tick.todo - {c}, if IsGone(m, c) then m.tick.copy - {c} else m.tick.copy, {})
    ensures CanRun(m, [TickItem(c)]) && Run(m, [TickItem(c)]) == m'
  {
    RunOfOne(m, TickItem(c));
  }

  /** The state that an undisturbed tick leaves. */
  function Ticked(s: Server): Server
    requires s.wheel != []
  {
    s.(wheel := s.wheel[1..] + [Surviving(s, s.wheel[0])],
       pending := s.pending + Expired(s, s.wheel[0]),
       stats := Marked(s.stats, Expired(s, s.wheel[0])))
  }

  /** A live connection that is in use. */
  predicate InUse(s: Server, c: Conn) { c in s.stats && c in s.touched && s.stats[c] != Pending }

  /** It was last touched nine tenths of the expiry time ago, or longer. */
  predicate IsOverAge(s: Server, c: Conn) { InUse(s, c) && s.now - s.touched[c] >= s.expiry - s.expiry / 10 }

  /**
   * The wheel has turned by one slot. What of the front slot is in use has gone to the back if it is
   * younger than nine tenths of the expiry time, else to the list to remove, as an error; nothing
   * else has changed.
   */
  ghost predicate TurnsByAge(s: Server, t: Server) {
    && |s.wheel| == 10 && |t.wheel| == 10 && t.wheel[..9] == s.wheel[1..]
    && (forall c :: c in t.wheel[9] <==> c in s.wheel[0] && InUse(s, c) && s.now - s.touched[c] < s.expiry - s.expiry / 10)
    && (forall c :: c in t.pending <==> c in s.pending || (c in s.wheel[0] && IsOverAge(s, c)))
    && (forall c :: c in t.stats <==> c in s.stats)
    && (forall c :: c in s.stats ==> t.stats[c] == if c in s.wheel[0] && IsOverAge(s, c) then Error else s.stats[c])
    && t == s.(wheel := t.wheel, pending := t.pending, stats := t.stats)
  }

  lemma TickedByAge(s: Server)
    requires |s.wheel| == SLOTS
    ensures TurnsByAge(s, Ticked(s))
    ensures forall c :: c in s.wheel[0] ==> (IsExpired(s, c) <==> IsOverAge(s, c))
    ensures Expired(s, s.wheel[0]) != {} <==> exists c :: c in s.wheel[0] && IsOverAge(s, c)
  {
    assert forall c :: IsExpired(s, c) <==> IsOverAge(s, c);
    if c :| c in s.wheel[0] && IsOverAge(s, c) { assert c in Expired(s, s.wheel[0]); }
    if Expired(s, s.wheel[0]) != {} { var c :| c in Expired(s, s.wheel[0]); }
  }

  lemma MidTickEnd(s: Server)
    requires s.wheel != [] && s.tick == Waiting && s.manager == Sleeping
    ensures Enabled(MidTick(s, {}), TickRotate) && Apply(MidTick(s, {}), TickRotate) == Ticked(s)
    ensures MidTick(s, {}).tick.copy == Surviving(s, s.wheel[0])
  {
    assert s.wheel[0] - {} == s.wheel[0];
    assert {} + Surviving(s, s.wheel[0]) == Surviving(s, s.wheel[0]);
  }

  lemma MidTickEnds(s: Server, es: seq<Event>) returns (es': seq<Event>)
    requires Inv(s) && s.tick == Waiting && s.manager == Sleeping && CanRun(s, es) && Run(s, es) == MidTick(s, {})
    ensures CanRun(s, es') && Run(s, es') == Ticked(s) && Inv(Ticked(s))
    ensures MidTick(s, {}).tick.copy == Surviving(s, s.wheel[0])
    ensures MidTick(s, {}).pending == Ticked(s).pending && MidTick(s, {}).stats == Ticked(s).stats
  {
    MidTickEnd(s);
    RunAppend(s, es, TickRotate);
    es' := es + [TickRotate];
    RunKeepsInv(s, es');
  }

  lemma RunConcat(s: Server, es: seq<Event>, fs: seq<Event>)
    requires CanRun(s, es) && CanRun(Run(s, es), fs)
    ensures CanRun(s, es + fs) && Run(s, es + fs) == Run(Run(s, es), fs)
    decreases |es|
  {
    if es == [] {
      assert es + fs == fs;
    } else {
      assert (es + fs)[1..] == es[1..] + fs;
      RunConcat(Apply(s, es[0]), es[1..], fs);
    }
  }

  // ---- The manager's pass ----

  /** One item of the manager's pass: erased if registered, then kept in the cache if there is room. */
  function Removed(m: Server, c: Conn, busy: bool): (r: Server)
    requires m.manager.Passing? && m.wheel != []
    ensures r.manager.Passing? && r.wheel != []
  {
    var manager := Passing(m.manager.todo - {c}, {});
    if c !in m.front then m.(manager := manager) else
      var room := |m.cached| < CacheLimit(m);
      m.(front := m.front - {c}, count := m.count - 1, manager := manager,
         wheel := if busy then InsertAtBack(m.wheel, c) else m.wheel,
         cached := if room then m.cached + [c] else m.cached,
         stats := if room then m.stats[c := Pending] else m.stats)
  }

  /** The assertion of the manager, when it recycles what it erases: the connection is not working. */
  ghost predicate Recyclable(m: Server, c: Conn) {
    c in m.front && |m.cached| < CacheLimit(m) ==> c in m.stats && m.stats[c] != Working
  }

  /** The assertion holds wherever a pass in this order reaches it. */
  ghost predicate NoAbort(m: Server, order: seq<Conn>, busy: set<Conn>)
    requires m.manager.Passing? && m.wheel != []
    decreases |order|
  {
    order == [] || (Recyclable(m, order[0]) && NoAbort(Removed(m, order[0], order[0] in busy), order[1..], busy))
  }

  /** The order lists the set, each connection once. */
  ghost predicate Lists(order: seq<Conn>, conns: set<Conn>) {
    (forall i, j :: 0 <= i < j < |order| ==> order[i] != order[j]) && (forall c :: c in order <==> c in conns)
  }

  lemma ListsRest(order: seq<Conn>, conns: set<Conn>)
    requires order != [] && Lists(order, conns)
    ensures order[0] in conns && Lists(order[1..], conns - {order[0]})
  {
    forall c | c in order[1..] ensures c in order && c != order[0] {
      var i :| 0 <= i < |order[1..]| && order[1..][i] == c;
      assert order[i + 1] == c;
    }
    forall c | c in order && c != order[0] ensures c in order[1..] {
      var i :| 0 <= i < |order| && order[i] == c;
      assert order[1..][i - 1] == c;
    }
  }

  lemma RemovedIsRun(s: Server, es: seq<Event>, m: Server, c: Conn, busy: bool) returns (es': seq<Event>)
    requires CanRun(s, es) && Run(s, es) == m && m.manager.Passing? && c in m.manager.todo && m.manager.erased == {}
    requires m.wheel != [] && Recyclable(m, c) && (c in m.front ==> Exists(m, c))
    ensures CanRun(s, es') && Run(s, es') == Removed(m, c, busy)
  {
    RunAppend(s, es, ManagerErase(c, busy));
    es' := es + [ManagerErase(c, busy)];
    if c in m.front {
      RunAppend(s, es', ManagerCount(c));
      es' := es' + [ManagerCount(c)];
    }
  }

  /** What a pass that began in s and has todo before it has erased. */
  function ErasedSoFar(s: Server, todo: set<Conn>): set<Conn> { (s.pending - todo) * s.front.Keys }

  ghost predicate PassRegistry(s: Server, m: Server, erased: set<Conn>) {
    m == s.(front := s.front - erased, count := s.count - |erased|, wheel := m.wheel,
            cached := m.cached, stats := m.stats, manager := m.manager)
  }

  ghost predicate PassWheel(before: seq<set<Conn>>, after: seq<set<Conn>>, again: set<Conn>) {
    |after| == |before| == SLOTS && after[..SLOTS - 1] == before[..SLOTS - 1]
    && after[SLOTS - 1] == before[SLOTS - 1] + again
  }

  ghost predicate PassCache(before: seq<Conn>, after: seq<Conn>, erased: set<Conn>, limit: nat) {
    before <= after && |after| == Least(|before| + |erased|, limit)
    && forall k :: |before| <= k < |after| ==> after[k] in erased
  }

  /** What was put in the cache is no longer in use, and no other status has changed. */
  ghost predicate PassStats(before: map<Conn, Stats>, after: map<Conn, Stats>, recycled: seq<Conn>) {
    after.Keys == before.Keys && forall c :: c in before ==> after[c] == if c in recycled then Pending else before[c]
  }

  /** In the middle of an undisturbed pass that began in s, m is the state. */
  ghost predicate MidPass(s: Server, m: Server, busy: set<Conn>) {
    && m.manager.Passing? && m.manager.todo <= s.pending && m.manager.erased == {}
    && PassRegistry(s, m, ErasedSoFar(s, m.manager.todo))
    && PassWheel(s.wheel, m.wheel, busy * ErasedSoFar(s, m.manager.todo))
    && PassCache(s.cached, m.cached, ErasedSoFar(s, m.manager.todo), CacheLimit(s))
    && PassStats(s.stats, m.stats, m.cached[|s.cached|..])
    && PassGuard(m, s.front)
  }

  lemma PassRegistryStep(s: Server, m: Server, erased: set<Conn>, c: Conn, busy: bool)
    requires PassRegistry(s, m, erased) && m.manager.Passing? && m.wheel != [] && c in s.front && c !in erased
    ensures PassRegistry(s, Removed(m, c, busy), erased + {c})
  {
    assert s.front - erased - {c} == s.front - (erased + {c});
  }

  lemma PassWheelStep(before: seq<set<Conn>>, after: seq<set<Conn>>, again: set<Conn>, c: Conn)
    requires PassWheel(before, after, again)
    ensures PassWheel(before, InsertAtBack(after, c), again + {c})
  {
  }

  lemma PassCacheStep(before: seq<Conn>, after: seq<Conn>, erased: set<Conn>, limit: nat, c: Conn)
    requires PassCache(before, after, erased, limit) && c !in erased
    ensures PassCache(before, if |after| < limit then after + [c] else after, erased + {c}, limit)
  {
  }

  lemma PassStatsStep(s: Server, m: Server, c: Conn, busy: bool)
    requires s.cached <= m.cached && PassStats(s.stats, m.stats, m.cached[|s.cached|..])
    requires m.manager.Passing? && m.wheel != [] && c in m.front && c in m.stats
    ensures var r := Removed(m, c, busy); s.cached <= r.cached && PassStats(s.stats, r.stats, r.cached[|s.cached|..])
  {
    var r, n := Removed(m, c, busy), |s.cached|;
    if r.cached != m.cached {
      assert r.cached[n..] == m.cached[n..] + [c];
    }
  }

  lemma ErasedOneMore(s: Server, todo: set<Conn>, c: Conn, busy: set<Conn>)
    requires c in todo && todo <= s.pending
    ensures c !in ErasedSoFar(s, todo)
    ensures c in s.front ==> ErasedSoFar(s, todo - {c}) == ErasedSoFar(s, todo) + {c}
    ensures c !in s.front ==> ErasedSoFar(s, todo - {c}) == ErasedSoFar(s, todo)
    ensures busy * (ErasedSoFar(s, todo) + {c}) == busy * ErasedSoFar(s, todo) + if c in busy then {c} else {}
  {
  }

  ghost predicate PassGuard(m: Server, front: map<Conn, int>) {
    && m.manager.Passing?
    && forall c :: c in m.manager.todo && c in front ==> Exists(m, c)
  }

  lemma PassGuardStep(m: Server, c: Conn, busy: bool, front: map<Conn, int>)
    requires PassGuard(m, front) && m.wheel != []
    ensures PassGuard(Removed(m, c, busy), front)
  {
  }

  lemma MidPassSkip(s: Server, m: Server, c: Conn, busy: set<Conn>)
    requires MidPass(s, m, busy) && c in m.manager.todo && c !in s.front
    ensures MidPass(s, m.(manager := Passing(m.manager.todo - {c}, {})), busy)
  {
    ErasedOneMore(s, m.manager.todo, c, busy);
    PassRegistrySkip(s, m, ErasedSoFar(s, m.manager.todo), Passing(m.manager.todo - {c}, {}));
  }

  lemma PassRegistrySkip(s: Server, m: Server, erased: set<Conn>, manager: Manager)
    requires PassRegistry(s, m, erased)
    ensures PassRegistry(s, m.(manager := manager), erased)
  {
  }

  lemma MidPassErase(s: Server, m: Server, todo: set<Conn>, c: Conn, busy: set<Conn>)
    requires MidPass(s, m, busy) && m.manager.todo == todo && c in todo && c in s.front
    ensures MidPass(s, Removed(m, c, c in busy), busy)
  {
    PassGuardStep(m, c, c in busy, s.front);
    ErasedOneMore(s, todo, c, busy);
    PassRegistryStep(s, m, ErasedSoFar(s, todo), c, c in busy);
    PassWheelStep(s.wheel, m.wheel, busy * ErasedSoFar(s, todo), c);
    PassCacheStep(s.cached, m.cached, ErasedSoFar(s, todo), CacheLimit(s), c);
    PassStatsStep(s, m, c, c in busy);
  }

  lemma MidPassStep(s: Server, m: Server, c: Conn, busy: set<Conn>)
    requires MidPass(s, m, busy) && c in m.manager.todo
    ensures MidPass(s, Removed(m, c, c in busy), busy)
  {
    if c in s.front {
      MidPassErase(s, m, m.manager.todo, c, busy);
    } else {
      MidPassSkip(s, m, c, busy);
    }
  }

  lemma MidPassStart(s: Server, busy: set<Conn>)
    requires Inv(s) && s.manager == Sleeping && s.pending != {}
    ensures CanRun(s, [ManagerWake]) && Run(s, [ManagerWake]) == Apply(s, ManagerWake)
    ensures MidPass(s, Apply(s, ManagerWake), busy)
  {
    hide Covered, Referenced, PassPlaced, PassGuard, MidPass;
    RunOfOne(s, ManagerWake);
    AllListedExist(s);
    NothingErased(s, Apply(s, ManagerWake), busy);
  }

  lemma NothingErased(s: Server, m: Server, busy: set<Conn>)
    requires m == s.(manager := Passing(s.pending, {})) && |s.wheel| == SLOTS && |s.cached| <= CacheLimit(s)
    requires PassGuard(m, s.front)
    ensures MidPass(s, m, busy)
  {
    assert ErasedSoFar(s, s.pending) == {};
    assert s.front - {} == s.front;
  }

  lemma AllListedExist(s: Server)
    requires Inv(s) && s.manager == Sleeping && s.pending != {}
    ensures PassGuard(Apply(s, ManagerWake), s.front)
  {
    hide Covered, Consistent, WellPlaced;
    forall c | c in s.pending && c in s.front ensures Exists(s, c) {
      assert Held(s, c);
    }
  }

  /** As many of the erased connections go to the end of the cache as three tenths of the maximum leave room for. */
  ghost predicate FillsCache(before: seq<Conn>, after: seq<Conn>, erased: set<Conn>, max: nat) {
    && before <= after && 10 * |after| <= 3 * max && |after| <= |before| + |erased|
    && (|after| == |before| + |erased| || 10 * (|after| + 1) > 3 * max)
    && forall k :: |before| <= k < |after| ==> after[k] in erased
  }

  lemma CacheIsFilled(s: Server, after: seq<Conn>, erased: set<Conn>)
    requires PassCache(s.cached, after, erased, CacheLimit(s))
    ensures FillsCache(s.cached, after, erased, s.maxConns)
  {
  }

  /** The state t that an undisturbed pass over the connections to remove leaves. */
  ghost predicate Passed(s: Server, t: Server, busy: set<Conn>) {
    var erased := s.pending * s.front.Keys;
    && t == s.(front := s.front - s.pending, count := t.count, pending := {}, wheel := t.wheel, cached := t.cached,
               stats := t.stats)
    && t.count == |t.front| && PassWheel(s.wheel, t.wheel, busy * erased)
    && FillsCache(s.cached, t.cached, erased, s.maxConns) && PassStats(s.stats, t.stats, t.cached[|s.cached|..])
  }

  lemma PassedNothing(s: Server, busy: set<Conn>)
    requires Inv(s) && s.manager == Sleeping && s.pending == {}
    ensures Passed(s, s, busy) && CanRun(s, []) && Run(s, []) == s
  {
    assert s.pending * s.front.Keys == {} && busy * {} == {};
    assert s.front - {} == s.front;
    CacheIsFilled(s, s.cached, {});
  }

  lemma MidPassEnds(s: Server, m: Server, busy: set<Conn>)
    requires s.pending * s.front.Keys == ErasedSoFar(s, {}) && s.manager == Sleeping && MidPass(s, m, busy) && m.manager.todo == {}
    requires m.count == |m.front|
    ensures Passed(s, m.(pending := {}, manager := Sleeping), busy)
  {
    assert s.front - ErasedSoFar(s, {}) == s.front - s.pending;
    CacheIsFilled(s, m.cached, ErasedSoFar(s, {}));
  }

  lemma PassIsRun(s: Server, es: seq<Event>, m: Server, busy: set<Conn>) returns (es': seq<Event>)
    requires Inv(s) && s.manager == Sleeping && MidPass(s, m, busy) && m.manager.todo == {} && CanRun(s, es) && Run(s, es) == m
    ensures CanRun(s, es') && Run(s, es') == m.(pending := {}, manager := Sleeping)
    ensures Inv(m.(pending := {}, manager := Sleeping)) && Passed(s, m.(pending := {}, manager := Sleeping), busy)
  {
    RunAppend(s, es, ManagerDone);
    es' := es + [ManagerDone];
    RunKeepsInv(s, es');
    assert s.pending - {} == s.pending;
    MidPassEnds(s, m, busy);
  }

  class HttpServer {
    var front: map<Conn, int>
    var count: int
    var maxConns: nat
    var expiry: nat
    var pending: set<Conn>
    var wheel: seq<set<Conn>>
    var cached: seq<Conn>
    var stats: map<Conn, Stats>
    var touched: map<Conn, int>
    var created: nat
    var now: int
    var listening: bool

    ghost function At(marked: set<Conn>, accept: Accept, tick: Tick, manager: Manager): Server
      reads this
    {
      Server(front, count, maxConns, expiry, pending, wheel, cached, stats, touched, marked, created, now, accept, tick, manager)
    }

    /** The state when no handler is inside one of the functions below. */
    ghost function View(): Server
      reads this
    {
      At({}, if listening then Listening else Stopped, Waiting, Sleeping)
    }

    ghost predicate Valid()
      reads this
    {
      Inv(View())
    }

    /** The fields and the accept of the constructor, then the slots of run(). */
    constructor (maxConns: nat, expiry: nat, now: int)
      requires expiry > SLOTS
      ensures Init(View()) && Valid()
      ensures this.maxConns == maxConns && this.expiry == expiry
    {
      front, count, pending, cached, stats, touched, created := map[], 0, {}, [], map[], map[], 0;
      this.maxConns, this.expiry, this.now, this.wheel, this.listening := maxConns, expiry, now, [], true;
      new;
      for i := 0 to SLOTS
        invariant wheel == seq(i, _ => {})
        invariant front == map[] && count == 0 && pending == {} && cached == [] && stats == map[] && touched == map[]
        invariant created == 0 && this.maxConns == maxConns && this.expiry == expiry && listening
      {
        wheel := PushBack(wheel, {});
      }
      InitIsInv(View());
    }

    method SetConnExpiredTime(newTime: nat)
      requires Valid()
      modifies `expiry
      ensures expiry == if newTime > SLOTS then newTime else old(expiry)
      ensures expiry > SLOTS
    {
      if newTime > SLOTS {
        expiry := newTime;
      }
    }

    method GetConnCheckSpare() returns (spare: nat)
      requires Valid()
      ensures 1 <= spare && SLOTS * spare <= expiry < SLOTS * (spare + 1)
    {
      spare := expiry / SLOTS;
    }

    /**
     * One accept: refused when the server is full, else a cached or new connection is registered,
     * put in the back slot and started.
     */
    method AcceptHandler(ec: bool) returns (ghost es: seq<Event>)
      requires Valid() && listening
      modifies this
      ensures CanRun(old(View()), es) && View() == Run(old(View()), es) && Valid()
      ensures es == if ec then [AcceptError] else if old(count >= maxConns) then [AcceptCheck]
                    else [AcceptCheck, AcceptCommit, StartConn]
      ensures !ec && old(count < maxConns) ==> var c := old(NextConn(View()));
        c !in old(front) && front == old(front)[c := 0] && count == old(count) + 1 && c in stats && stats[c] == Working
      ensures !ec && old(count < maxConns) ==> Accepts(old(View()), View())
    {
      ghost var s := View();
      if ec {
        listening := false;
        KeepsInv(s, AcceptError);
        RunOfOne(s, AcceptError);
        es := [AcceptError];
      } else if count >= maxConns {
        RunOfOne(s, AcceptCheck);
        es := [AcceptCheck];
      } else {
        KeepsInv(s, AcceptCheck);
        var c := Register();
        KeepsInv(Apply(s, AcceptCheck), AcceptCommit);
        Start(c);
        RunOfThree(s, AcceptCheck, AcceptCommit, Event.StartConn);
        AcceptedConn(s);
        es := [AcceptCheck, AcceptCommit, Event.StartConn];
      }
    }

    method Start(c: Conn)
      requires listening && Inv(At({}, Accept.Starting(c), Waiting, Sleeping))
      modifies `stats, `touched
      ensures View() == Apply(old(At({}, Accept.Starting(c), Waiting, Sleeping)), Event.StartConn) && Valid()
    {
      KeepsInv(At({}, Accept.Starting(c), Waiting, Sleeping), Event.StartConn);
      stats, touched := stats[c := Working], touched[c := now];
    }

    /** What the accept handler does under the registry mutex. */
    method Register() returns (c: Conn)
      requires listening && Inv(At({}, Admitted, Waiting, Sleeping))
      modifies this
      ensures listening && c == old(NextConn(View())) && c !in old(front)
      ensures front == old(front)[c := 0] && count == old(count) + 1
      ensures At({}, Accept.Starting(c), Waiting, Sleeping) == Apply(old(At({}, Admitted, Waiting, Sleeping)), AcceptCommit)
    {
      hide Covered, Referenced, PassPlaced, Consistent;
      ghost var s := At({}, Admitted, Waiting, Sleeping);
      NextIsNotRegistered(s);
      c := TakeConn();
      front := if c in front then front else front[c := 0];
      count := count + 1;
      wheel := InsertAtBack(wheel, c);
    }

    /** The first cached connection, with its network reset, or a new one. */
    method TakeConn() returns (c: Conn)
      modifies `cached, `stats, `touched, `created
      ensures c == old(NextConn(View()))
      ensures old(cached) != [] ==> cached == old(cached)[1..] && stats == old(stats) && created == old(created)
      ensures old(cached) == [] ==> cached == [] && stats == old(stats)[c := Pending] && created == old(created) + 1
      ensures touched == old(touched)[c := now]
    {
      if cached != [] {
        c := cached[0];
        cached := cached[1..];
      } else {
        c := created;
        created := created + 1;
        stats := stats[c := Pending];
      }
      touched := touched[c := now];
    }

    method PushToRemove(c: Conn)
      modifies `pending
      ensures pending == old(pending) + {c}
    {
      pending := pending + {c};
    }

    /** The end of a failed read or write of c. */
    method NotifyConnError(c: Conn)
      requires Valid() && Exists(View(), c)
      modifies `stats, `pending
      ensures CanRun(old(View()), [Event.MarkError(c), Event.PushToRemove(c)])
      ensures View() == Run(old(View()), [Event.MarkError(c), Event.PushToRemove(c)]) && Valid()
      ensures pending == old(pending) + {c} && stats == old(stats)[c := Error]
    {
      ghost var s := View();
      stats := stats[c := Error];
      ghost var marked := At({c}, if listening then Listening else Stopped, Waiting, Sleeping);
      assert marked == Apply(s, Event.MarkError(c));
      KeepsInv(s, Event.MarkError(c));
      PushToRemove(c);
      assert View() == Apply(marked, Event.PushToRemove(c));
      KeepsInv(marked, Event.PushToRemove(c));
      RunOfTwo(s, Event.MarkError(c), Event.PushToRemove(c));
    }

    /** Whether c was registered; only then its session changes, and no other connection's does. */
    method SetSessionId(c: Conn, id: int) returns (ok: bool)
      requires Valid() && 0 <= id < CIRCLE
      modifies `front
      ensures ok == (c in old(front)) && Valid()
      ensures front.Keys == old(front).Keys
      ensures forall d :: d in front ==> front[d] == if d == c then id else old(front)[d]
      ensures if ok then Enabled(old(View()), SetSession(c, id)) && View() == Apply(old(View()), SetSession(c, id))
        else View() == old(View())
    {
      ok := c in front;
      if ok {
        KeepsInv(View(), SetSession(c, id));
        front := front[c := id];
      }
    }

    /** The connection with the session, if there is one; the program asserts that there are not two. */
    method RequestConnection(id: int) returns (r: Option<Conn>)
      requires 0 < id < CIRCLE - 1
      requires forall c, d :: c in front && d in front && front[c] == id && front[d] == id ==> c == d
      ensures r == None <==> id !in front.Values
      ensures r.Some? ==> r.value in front && front[r.value] == id
    {
      if id in front.Values {
        var c :| c in front && front[c] == id;
        r := Some(c);
      } else {
        r := None;
      }
    }

    /**
     * The wheel turns by one: of the front slot the connections idle for long enough are listed for
     * removal, and those still in use go to the back.
     */
    method TimingWheelCheck() returns (notify: bool, ghost es: seq<Event>)
      requires Valid() && PendingIsCached(View())
      modifies `pending, `stats, `wheel
      ensures CanRun(old(View()), es) && View() == Run(old(View()), es) && Valid()
      ensures View() == Ticked(old(View()))
      ensures TurnsByAge(old(View()), View())
      ensures notify <==> exists c :: c in old(wheel[0]) && IsOverAge(old(View()), c)
    {
      ghost var s := View();
      var copy;
      notify, copy, es := ExpireFront();
      es := MidTickEnds(s, es);
      Rotate(s, copy);
      TickedByAge(s);
    }

    method Rotate(ghost s: Server, copy: set<Conn>)
      requires s.tick == Waiting && |s.wheel| == SLOTS && copy == Surviving(s, s.wheel[0])
      requires View() == s.(pending := Ticked(s).pending, stats := Ticked(s).stats)
      modifies `wheel
      ensures View() == Ticked(s)
    {
      wheel := PushBack(wheel, copy);
    }

    /** The loop of the tick over the front slot; its caller then turns the wheel. */
    method ExpireFront() returns (notify: bool, copy: set<Conn>, ghost es: seq<Event>)
      requires Valid() && PendingIsCached(View())
      modifies `pending, `stats
      ensures CanRun(old(View()), es) && Run(old(View()), es) == MidTick(old(View()), {})
      ensures Follows(old(View()), {}, copy)
      ensures notify == (Expired(old(View()), wheel[0]) != {})
    {
      ghost var s := View();
      var todo := wheel[0];
      notify, copy, es := false, wheel[0], [TickCopy];
      MidTickStart(s);
      RunOfOne(s, TickCopy);
      while todo != {}
        invariant todo <= wheel[0]
        invariant CanRun(s, es) && Run(s, es) == MidTick(s, todo)
        invariant Follows(s, todo, copy)
        invariant notify == (Expired(s, wheel[0] - todo) != {})
      {
        var c :| c in todo;
        es := MidTickGoesOn(s, es, todo, c);
        var expired;
        copy, expired := CheckItem(c, copy, s, todo);
        todo := todo - {c};
        notify := notify || expired;
      }
      assert wheel[0] - todo == wheel[0];
    }

    /** In the middle of the tick that began in s, the fields it changes are those of MidTick. */
    ghost predicate Follows(s: Server, todo: set<Conn>, copy: set<Conn>)
      requires s.wheel != []
      reads this
    {
      && copy == MidTick(s, todo).tick.copy && pending == MidTick(s, todo).pending && stats == MidTick(s, todo).stats
      && touched == s.touched && expiry == s.expiry && now == s.now
    }

    /** What the tick does with one item of the front slot. */
    method CheckItem(c: Conn, copy: set<Conn>, ghost s: Server, ghost todo: set<Conn>)
      returns (copy': set<Conn>, expired: bool)
      requires s.wheel != [] && s.expiry > SLOTS && todo <= s.wheel[0] && c in todo && Follows(s, todo, copy)
      modifies `pending, `stats
      ensures Follows(s, todo - {c}, copy') && expired == IsExpired(s, c)
      ensures expired <==> c in old(stats) && c in touched && old(stats)[c] != Pending && now - touched[c] >= expiry - expiry / 10
      ensures copy' == if c in old(stats) && c in touched && old(stats)[c] != Pending && !expired then copy else copy - {c}
      ensures pending == old(pending) + (if expired then {c} else {})
      ensures stats == if expired then old(stats)[c := Error] else old(stats)
      ensures Expired(s, s.wheel[0] - (todo - {c})) == Expired(s, s.wheel[0] - todo) + if expired then {c} else {}
    {
      ghost var done := s.wheel[0] - todo;
      ProcessedOne(s, done, c);
      assert s.wheel[0] - (todo - {c}) == done + {c};
      copy', expired := copy, false;
      if c in stats && c in touched {
        if stats[c] == Pending {
          copy' := copy - {c};
        } else if touched[c] + (expiry - expiry / SLOTS) <= now {
          MarkedOne(s.stats, Expired(s, done), c);
          copy' := copy - {c};
          stats := stats[c := Error];
          PushToRemove(c);
          expired := true;
        }
      } else {
        copy' := copy - {c};
      }
    }

    ghost predicate Is(m: Server)
      reads this
    {
      m == At({}, if listening then Listening else Stopped, Waiting, m.manager)
    }

    /**
     * One pass of the manager over what is listed for removal, in the order of the set. busy says
     * which connections are also referred to from elsewhere; they go back to the wheel and are
     * removed all the same.
     */
    method ManagePass(order: seq<Conn>, busy: set<Conn>) returns (ghost es: seq<Event>)
      requires Valid() && Lists(order, pending)
      requires pending != {} ==> NoAbort(Apply(View(), ManagerWake), order, busy)
      modifies `front, `count, `pending, `wheel, `cached, `stats
      ensures CanRun(old(View()), es) && View() == Run(old(View()), es) && Valid()
      ensures Passed(old(View()), View(), busy)
    {
      hide Run, CanRun, Passed, MidPass, NoAbort;
      ghost var s := View();
      if pending == {} {
        PassedNothing(s, busy);
        es := [];
      } else {
        MidPassStart(s, busy);
        ghost var m;
        m, es := RemoveAll(s, order, busy);
        es := PassIsRun(s, es, m, busy);
        pending := {};
        assert View() == m.(pending := {}, manager := Sleeping);
      }
    }

    /** The loop of the pass. */
    method RemoveAll(ghost s: Server, order: seq<Conn>, busy: set<Conn>) returns (ghost m: Server, ghost es: seq<Event>)
      requires Enabled(s, ManagerWake) && Is(Apply(s, ManagerWake)) && MidPass(s, Apply(s, ManagerWake), busy)
      requires Lists(order, pending) && wheel != [] && NoAbort(Apply(s, ManagerWake), order, busy)
      modifies `front, `count, `wheel, `cached, `stats
      ensures Is(m) && MidPass(s, m, busy) && m.manager.todo == {}
      ensures CanRun(s, es) && Run(s, es) == m
    {
      m, es := Apply(s, ManagerWake), [ManagerWake];
      RunOfOne(s, ManagerWake);
      var todo := order;
      while todo != []
        invariant Is(m) && MidPass(s, m, busy) && Lists(todo, m.manager.todo) && m.wheel != [] && NoAbort(m, todo, busy)
        invariant CanRun(s, es) && Run(s, es) == m
        decreases |todo|
      {
        var c := todo[0];
        ListsRest(todo, m.manager.todo);
        es := RemovedIsRun(s, es, m, c, c in busy);
        MidPassStep(s, m, c, busy);
        RemoveItem(c, c in busy, m);
        m := Removed(m, c, c in busy);
        todo := todo[1..];
      }
    }

    method RemoveItem(c: Conn, busy: bool, ghost m: Server)
      requires Is(m) && m.manager.Passing? && m.wheel != []
      modifies `front, `count, `wheel, `cached, `stats
      ensures Is(Removed(m, c, busy))
    {
      if c in front {
        if busy {
          wheel := InsertAtBack(wheel, c);
        }
        front := front - {c};
        count := count - 1;
        if |cached| < maxConns * 3 / 10 {
          stats := stats[c := Pending];
          cached := cached + [c];
        }
      }
    }
  }
}
