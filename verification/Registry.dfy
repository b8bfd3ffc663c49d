/**
 * The front-connection registry as a concurrent protocol: the accept handler, the connection
 * handlers, the co-worker's timing wheel and the manager thread, interleaved step by step.
 * What holds a mutex in the program is a phase here, and a step that needs the mutex is not
 * enabled in that phase.
 */
module Registry {
  /** A front_conn object, by identity: a new one is never an old one. */
  type Conn = nat

  datatype Stats = Working | Pending | Error

  /** One accept is outstanding: do_accept is called again only at the end of the handler. */
  datatype Accept = Listening | Admitted | Starting(conn: Conn) | Stopped

  /** timing_wheel_check between its copy of the front slot and the push to the back. */
  datatype Tick = Waiting | Ticking(todo: set<Conn>, copy: set<Conn>, holding: set<Conn>)

  /** The manager inside its pass holds conn_notify_mutex and front_conns_mutex_. */
  datatype Manager = Sleeping | Passing(todo: set<Conn>, erased: set<Conn>)

  datatype Server = Server(
    front: map<Conn, int>,       // front_conns_ with the session ids
    count: int,                  // current_conns_cnt_
    maxConns: nat,               // max_serve_conns_cnt_
    expiry: nat,                 // conn_expired_time_
    pending: set<Conn>,          // pending_to_remove_
    wheel: seq<set<Conn>>,       // timing_wheel_, front slot first
    cached: seq<Conn>,           // cached_conns_
    stats: map<Conn, Stats>,     // stats_ of every connection object that exists
    touched: map<Conn, int>,     // touch_time_
    marked: set<Conn>,           // handlers between set_stats(conn_error) and push_to_remove
    created: nat,                // connection objects made so far
    now: int,
    accept: Accept,
    tick: Tick,
    manager: Manager)

  const SLOTS := 10

  function Spare(s: Server): nat { s.expiry / SLOTS }

  /** max_serve_conns_cnt_ * 0.3, rounded down. */
  function CacheLimit(s: Server): nat { s.maxConns * 3 / 10 }

  /** After run() has filled the wheel and before the first accept. */
  predicate Init(s: Server) {
    s.front == map[] && s.count == 0 && s.pending == {} && s.wheel == seq(SLOTS, _ => {}) && s.cached == []
    && s.stats == map[] && s.touched == map[] && s.marked == {} && s.created == 0 && s.accept == Listening
    && s.tick == Waiting && s.manager == Sleeping && s.expiry > SLOTS
  }

  /** The idle test of the wheel: touched at least expiry - spare seconds ago. */
  predicate IsIdle(s: Server, c: Conn)
    requires c in s.touched
  {
    s.touched[c] + (s.expiry - Spare(s)) <= s.now
  }

  datatype Event =
    | AcceptError | AcceptCheck | AcceptCommit | StartConn
    | Touch(c: Conn) | MarkError(c: Conn) | PushToRemove(c: Conn) | SetSession(c: Conn, id: int) | Destroy(c: Conn)
    | TickCopy | TickItem(c: Conn) | TickPushToRemove | TickRotate
    | ManagerWake | ManagerErase(c: Conn, busy: bool) | ManagerCount(c: Conn) | ManagerDone
    | Clock(now: int)

  /** The connection a commit takes: the first cached one, or a new one. */
  function NextConn(s: Server): Conn { if s.cached != [] then s.cached[0] else s.created }

  predicate Exists(s: Server, c: Conn) { c in s.stats && c in s.touched }

  /** Some shared_ptr in the server still holds the connection. */
  predicate Held(s: Server, c: Conn) {
    c in s.front || c in s.cached || c in s.pending || c in s.marked || s.accept == Starting(c)
    || (s.tick.Ticking? && c in s.tick.holding) || (s.manager.Passing? && c in s.manager.erased)
  }

  /**
   * When a step can happen: its thread is at that point, the mutexes it takes are free, and the
   * assertions it passes hold.
   */
  predicate Enabled(s: Server, e: Event) {
    match e
    case AcceptError => s.accept == Listening
    case AcceptCheck => s.accept == Listening
    case AcceptCommit => s.accept == Admitted && s.manager == Sleeping && s.wheel != []
    case StartConn => s.accept.Starting?
    case Touch(c) => Exists(s, c) && s.stats[c] == Working
    case MarkError(c) => Exists(s, c) && c !in s.marked
    case PushToRemove(c) => c in s.marked && s.manager == Sleeping
    case SetSession(c, _) => c in s.front && s.manager == Sleeping
    case Destroy(c) => Exists(s, c) && !Held(s, c)
    case TickCopy => s.tick == Waiting && s.wheel != []
    case TickItem(c) =>
      s.tick.Ticking? && c in s.tick.todo && s.tick.holding == {} && (Exists(s, c) && s.stats[c] == Pending ==> c in s.cached)
    case TickPushToRemove => s.tick.Ticking? && s.tick.holding != {} && s.manager == Sleeping
    case TickRotate => s.tick.Ticking? && s.tick.todo == {} && s.tick.holding == {} && s.manager == Sleeping && s.wheel != []
    case ManagerWake => s.manager == Sleeping && s.pending != {}
    case ManagerErase(c, _) => s.manager.Passing? && c in s.manager.todo && s.manager.erased == {} && s.wheel != []
    case ManagerCount(c) => s.manager.Passing? && s.manager.erased == {c}
      && (|s.cached| < CacheLimit(s) ==> Exists(s, c) && s.stats[c] != Working)
    case ManagerDone => s.manager.Passing? && s.manager.todo == {} && s.manager.erased == {}
    case Clock(now) => s.now <= now
  }

  /** timing_wheel_.back().insert(c). */
  function InsertAtBack(wheel: seq<set<Conn>>, c: Conn): (r: seq<set<Conn>>)
    requires wheel != []
  {
    wheel[|wheel| - 1 := wheel[|wheel| - 1] + {c}]
  }

  function Apply(s: Server, e: Event): (r: Server)
    requires Enabled(s, e)
  {
    match e
    case AcceptError => s.(accept := Stopped)
    case AcceptCheck => if s.count >= s.maxConns then s else s.(accept := Admitted)
    case AcceptCommit =>
      var c := NextConn(s);
      var isNew := s.cached == [];
      s.(cached := if isNew then [] else s.cached[1..],
         created := if isNew then s.created + 1 else s.created,
         stats := if isNew then s.stats[c := Pending] else s.stats,
         touched := s.touched[c := s.now],
         front := if c in s.front then s.front else s.front[c := 0],
         count := s.count + 1, wheel := InsertAtBack(s.wheel, c), accept := Starting(c))
    case StartConn =>
      var c := s.accept.conn;
      s.(stats := s.stats[c := Working], touched := s.touched[c := s.now], accept := Listening)
    case Touch(c) => s.(touched := s.touched[c := s.now])
    case MarkError(c) => s.(stats := s.stats[c := Error], marked := s.marked + {c})
    case PushToRemove(c) => s.(pending := s.pending + {c}, marked := s.marked - {c})
    case SetSession(c, id) => s.(front := s.front[c := id])
    case Destroy(c) => s.(stats := s.stats - {c}, touched := s.touched - {c})
    case TickCopy => s.(tick := Ticking(s.wheel[0], s.wheel[0], {}))
    case TickItem(c) =>
      var todo, copy := s.tick.todo - {c}, s.tick.copy;
      if !Exists(s, c) || s.stats[c] == Pending then s.(tick := Ticking(todo, copy - {c}, {}))
      else if IsIdle(s, c) then s.(tick := Ticking(todo, copy - {c}, {c}), stats := s.stats[c := Error])
      else s.(tick := Ticking(todo, copy, {}))
    case TickPushToRemove => s.(pending := s.pending + s.tick.holding, tick := s.tick.(holding := {}))
    case TickRotate => s.(wheel := s.wheel[1..] + [s.tick.copy], tick := Waiting)
    case ManagerWake => s.(manager := Passing(s.pending, {}))
    case ManagerErase(c, busy) =>
      var todo := s.manager.todo - {c};
      if c !in s.front then s.(manager := Passing(todo, {}))
      else s.(front := s.front - {c}, manager := Passing(todo, {c}), wheel := if busy then InsertAtBack(s.wheel, c) else s.wheel)
    case ManagerCount(c) =>
      var s1 := s.(count := s.count - 1, manager := s.manager.(erased := {}));
      if |s.cached| < CacheLimit(s) then s1.(cached := s.cached + [c], stats := s.stats[c := Pending]) else s1
    case ManagerDone => s.(pending := {}, manager := Sleeping)
    case Clock(now) => s.(now := now)
  }

  // ---- Runs ----

  predicate CanRun(s: Server, es: seq<Event>)
    decreases |es|
  {
    es == [] || (Enabled(s, es[0]) && CanRun(Apply(s, es[0]), es[1..]))
  }

  function Run(s: Server, es: seq<Event>): (r: Server)
    requires CanRun(s, es)
    decreases |es|
  {
    if es == [] then s else Run(Apply(s, es[0]), es[1..])
  }

  // ---- What every step keeps ----

  predicate NoDuplicates(cs: seq<Conn>) { forall i, j :: 0 <= i < j < |cs| ==> cs[i] != cs[j] }

  /** Connections erased from the map but not yet counted: the manager is between the two. */
  function Uncounted(s: Server): nat { if s.manager.Passing? then |s.manager.erased| else 0 }

  /** The counter, the cache and its limit, and the maximum. */
  ghost predicate Consistent(s: Server) {
    && s.count == |s.front| + Uncounted(s)
    && NoDuplicates(s.cached) && |s.cached| <= CacheLimit(s)
    && (forall c :: c in s.cached ==> c !in s.front)
    && s.count <= s.maxConns && (s.accept == Admitted ==> s.count < s.maxConns)
  }

  /** Everything the server refers to exists, and what it will make next is new. */
  ghost predicate Referenced(s: Server) {
    && (forall c: Conn :: Held(s, c) ==> Exists(s, c))
    && (forall c: Conn :: Exists(s, c) ==> c < s.created)
    && (forall c: Conn :: c in s.stats <==> c in s.touched)
  }

  /** The wheel has its ten slots, and a tick works on the front one. */
  ghost predicate TickPlaced(s: Server) {
    && |s.wheel| == SLOTS && s.expiry > SLOTS
    && (s.tick.Ticking? ==> s.tick.todo <= s.wheel[0] && s.tick.copy <= s.wheel[0] && |s.tick.holding| <= 1)
  }

  /** The manager works on pending, and on every registered connection that is listed there. */
  ghost predicate PassPlaced(s: Server) {
    s.manager.Passing? ==>
      && s.manager.todo <= s.pending && |s.manager.erased| <= 1
      && (forall c :: c in s.manager.erased ==> c !in s.front && c !in s.cached)
      && (forall c :: c in s.pending && c in s.front ==> c in s.manager.todo)
  }

  ghost predicate WellPlaced(s: Server) { TickPlaced(s) && PassPlaced(s) }

  /** Where the wheel, or the tick at work on it, will still look at c. */
  predicate Watched(s: Server, c: Conn)
    requires s.wheel != []
  {
    (exists k :: 1 <= k < |s.wheel| && c in s.wheel[k])
    || c in (if s.tick.Ticking? then s.tick.copy + s.tick.holding else s.wheel[0])
  }

  /** Every registered connection is in some slot, in the tick's surviving copy, or to be removed. */
  ghost predicate Covered(s: Server) {
    s.wheel != [] && forall c :: c in s.front ==> Watched(s, c) || c in s.pending
  }

  ghost predicate Inv(s: Server) { Consistent(s) && Referenced(s) && WellPlaced(s) && Covered(s) }

  lemma SizeAfterInsert(m: map<Conn, int>, c: Conn, id: int)
    ensures |m[c := id]| == |m| + (if c in m then 0 else 1)
  {
    if c in m {
      assert m[c := id].Keys == m.Keys;
    } else {
      assert m[c := id].Keys == m.Keys + {c};
    }
  }

  lemma SizeAfterRemove(m: map<Conn, int>, c: Conn)
    requires c in m
    ensures |m - {c}| == |m| - 1
  {
    assert (m - {c}).Keys == m.Keys - {c};
  }

  lemma TailOfCache(cs: seq<Conn>)
    requires NoDuplicates(cs) && cs != []
    ensures NoDuplicates(cs[1..]) && cs[0] in cs && cs[0] !in cs[1..]
    ensures forall c :: c in cs[1..] ==> c in cs
  {
  }

  /** The registry, the counter, the cache and the maximum are the same, and no accept was admitted. */
  ghost predicate SameCounts(s: Server, s': Server) {
    && s'.front.Keys == s.front.Keys && s'.count == s.count && Uncounted(s') == Uncounted(s)
    && s'.cached == s.cached && s'.maxConns == s.maxConns
    && (s'.accept == Admitted ==> s.accept == Admitted || s.count < s.maxConns)
  }

  lemma SameCountsAgree(s: Server, s': Server)
    requires Consistent(s) && SameCounts(s, s')
    ensures Consistent(s')
  {
    assert |s'.front| == |s'.front.Keys| == |s.front.Keys| == |s.front|;
  }

  /** Only a commit and the manager, erasing and counting, change what is counted. */
  lemma KeepsCounts(s: Server, e: Event)
    requires Enabled(s, e) && !e.AcceptCommit? && !e.ManagerErase? && !e.ManagerCount?
    ensures SameCounts(s, Apply(s, e))
  {
  }

  lemma KeepsConsistent(s: Server, e: Event)
    requires Inv(s) && Enabled(s, e)
    ensures Consistent(Apply(s, e))
  {
    hide Referenced, WellPlaced, Covered, Consistent, Apply, SameCounts;
    match e
    case AcceptCommit => CommitKeepsConsistent(s);
    case ManagerErase(c, busy) => EraseKeepsConsistent(s, c, busy);
    case ManagerCount(c) => CountKeepsConsistent(s, c);
    case _ =>
      KeepsCounts(s, e);
      SameCountsAgree(s, Apply(s, e));
  }

  lemma CommitKeepsConsistent(s: Server)
    requires Inv(s) && Enabled(s, AcceptCommit)
    ensures Consistent(Apply(s, AcceptCommit))
  {
    var c := NextConn(s);
    if s.cached != [] {
      TailOfCache(s.cached);
    } else {
      assert !Exists(s, c) && !Held(s, c);
    }
    SizeAfterInsert(s.front, c, 0);
  }

  lemma EraseKeepsConsistent(s: Server, c: Conn, busy: bool)
    requires Inv(s) && Enabled(s, ManagerErase(c, busy))
    ensures Consistent(Apply(s, ManagerErase(c, busy)))
  {
    hide Referenced, Covered, PassPlaced, TickPlaced, NoDuplicates;
    if c in s.front {
      SizeAfterRemove(s.front, c);
    } else {
      SameCountsAgree(s, Apply(s, ManagerErase(c, busy)));
    }
  }

  lemma CountKeepsConsistent(s: Server, c: Conn)
    requires Inv(s) && Enabled(s, ManagerCount(c))
    ensures Consistent(Apply(s, ManagerCount(c)))
  {
    hide Referenced, Covered;
    assert c in s.manager.erased && |s.manager.erased| == 1;
  }

  /** What is held after a step was held before it, or exists now. */
  lemma HeldBefore(s: Server, e: Event, c: Conn)
    requires Enabled(s, e) && Held(Apply(s, e), c)
    ensures Held(s, c) || Exists(Apply(s, e), c)
  {
  }

  lemma StaysReal(s: Server, e: Event, c: Conn)
    requires Enabled(s, e) && Exists(s, c) && e != Destroy(c)
    ensures Exists(Apply(s, e), c)
  {
  }

  /** A step touches, and gives a status to, what exists, or what it has made. */
  lemma RealIsOld(s: Server, e: Event, c: Conn)
    requires Referenced(s) && Enabled(s, e)
    ensures Exists(Apply(s, e), c) ==> c < Apply(s, e).created
    ensures c in Apply(s, e).stats <==> c in Apply(s, e).touched
  {
    assert Exists(s, c) ==> c < s.created;
    match e
    case AcceptCommit => assert s.cached != [] ==> Held(s, NextConn(s));
    case StartConn => assert Held(s, s.accept.conn);
    case ManagerCount(d) => assert Held(s, d);
    case _ =>
  }

  lemma HeldStaysReal(s: Server, e: Event, c: Conn)
    requires Referenced(s) && Enabled(s, e) && Held(Apply(s, e), c)
    ensures Exists(Apply(s, e), c)
  {
    hide Apply;
    HeldBefore(s, e, c);
    if !Exists(Apply(s, e), c) {
      StaysReal(s, e, c);
    }
  }

  lemma KeepsReferenced(s: Server, e: Event)
    requires Inv(s) && Enabled(s, e)
    ensures Referenced(Apply(s, e))
  {
    hide Apply, Enabled, Consistent, Covered, WellPlaced, Held;
    var s' := Apply(s, e);
    forall c: Conn | Held(s', c) ensures Exists(s', c) {
      HeldStaysReal(s, e, c);
    }
    forall c: Conn ensures Exists(s', c) ==> c < s'.created { RealIsOld(s, e, c); }
    forall c: Conn ensures c in s'.stats <==> c in s'.touched { RealIsOld(s, e, c); }
  }

  /** No step but the rotation moves a slot, and only an accept or the manager adds to one, at the back. */
  lemma KeepsSlots(s: Server, e: Event, k: nat)
    requires Enabled(s, e) && e != TickRotate && k < |s.wheel|
    ensures |Apply(s, e).wheel| == |s.wheel| && s.wheel[k] <= Apply(s, e).wheel[k]
    ensures k < |s.wheel| - 1 ==> Apply(s, e).wheel[k] == s.wheel[k]
  {
    match e
    case AcceptCommit =>
    case ManagerErase(_, _) =>
    case _ =>
  }

  lemma KeepsTickPlaced(s: Server, e: Event)
    requires TickPlaced(s) && Enabled(s, e)
    ensures TickPlaced(Apply(s, e))
  {
    if e != TickRotate {
      KeepsSlots(s, e, 0);
    }
  }

  lemma KeepsPassPlaced(s: Server, e: Event)
    requires PassPlaced(s) && Enabled(s, e) && forall c :: c in s.cached ==> c !in s.front
    ensures PassPlaced(Apply(s, e))
  {
  }

  lemma KeepsWellPlaced(s: Server, e: Event)
    requires Inv(s) && Enabled(s, e)
    ensures WellPlaced(Apply(s, e))
  {
    hide Referenced, Covered, TickPlaced, PassPlaced, Apply;
    KeepsTickPlaced(s, e);
    KeepsPassPlaced(s, e);
  }

  lemma KeepsWatched(s: Server, e: Event, c: Conn)
    requires Inv(s) && Enabled(s, e) && Watched(s, c) && c in s.front
    ensures Watched(Apply(s, e), c) || c in Apply(s, e).pending
  {
    var s' := Apply(s, e);
    assert Held(s, c);
    if e != TickRotate {
      KeepsSlots(s, e, 0);
    }
    if k: nat :| 1 <= k < |s.wheel| && c in s.wheel[k] {
      if e != TickRotate {
        KeepsSlots(s, e, k);
      }
      assert c in s'.wheel[if e == TickRotate then k - 1 else k];
    } else if e == TickRotate {
      assert s'.wheel[|s'.wheel| - 1] == s.tick.copy;
    }
  }

  lemma KeepsCovered(s: Server, e: Event)
    requires Inv(s) && Enabled(s, e)
    ensures Covered(Apply(s, e))
  {
    var s' := Apply(s, e);
    forall c | c in s'.front
      ensures Watched(s', c) || c in s'.pending
    {
      if c !in s.front {
        assert e == AcceptCommit && c in s'.wheel[|s.wheel| - 1];
      } else if c in s.pending {
        assert c in s'.pending;
      } else {
        KeepsWatched(s, e, c);
      }
    }
  }

  lemma KeepsInv(s: Server, e: Event)
    requires Inv(s) && Enabled(s, e)
    ensures Inv(Apply(s, e))
  {
    KeepsConsistent(s, e);
    KeepsReferenced(s, e);
    KeepsWellPlaced(s, e);
    KeepsCovered(s, e);
  }

  lemma {:induction false} RunKeepsInv(s: Server, es: seq<Event>)
    requires Inv(s) && CanRun(s, es)
    ensures Inv(Run(s, es))
    decreases |es|
  {
    if es != [] {
      KeepsInv(s, es[0]);
      RunKeepsInv(Apply(s, es[0]), es[1..]);
    }
  }

  lemma InitIsInv(s: Server)
    requires Init(s)
    ensures Inv(s)
  {
    assert s.front.Keys == {};
  }

  /** The invariant holds after every run from start-up. */
  lemma ReachableIsInv(s0: Server, es: seq<Event>)
    requires Init(s0) && CanRun(s0, es)
    ensures Inv(Run(s0, es))
  {
    InitIsInv(s0);
    RunKeepsInv(s0, es);
  }

  // ---- The main theorems, over every run from start-up ----

  /**
   * Whenever the registry mutex is free the counter is the number of registered connections, and
   * always the cache holds distinct, unregistered connections, at most three tenths of the maximum.
   */
  lemma RegistryIsConsistent(s0: Server, es: seq<Event>)
    requires Init(s0) && CanRun(s0, es)
    ensures Run(s0, es).manager == Sleeping ==> Run(s0, es).count == |Run(s0, es).front|
    ensures NoDuplicates(Run(s0, es).cached) && 10 * |Run(s0, es).cached| <= 3 * Run(s0, es).maxConns
    ensures forall c :: c in Run(s0, es).cached ==> c !in Run(s0, es).front
  {
    ReachableIsInv(s0, es);
  }

  /** The check against the maximum is outside the mutex and the commit is another step; still it holds. */
  lemma CapacityIsKept(s0: Server, es: seq<Event>)
    requires Init(s0) && CanRun(s0, es)
    ensures |Run(s0, es).front| <= Run(s0, es).count <= Run(s0, es).maxConns == s0.maxConns
    ensures Enabled(Run(s0, es), AcceptCommit) ==> Run(s0, es).count < s0.maxConns
  {
    ReachableIsInv(s0, es);
    RunKeepsMaximum(s0, es);
  }

  lemma {:induction false} RunKeepsMaximum(s: Server, es: seq<Event>)
    requires CanRun(s, es)
    ensures Run(s, es).maxConns == s.maxConns
    decreases |es|
  {
    if es != [] {
      RunKeepsMaximum(Apply(s, es[0]), es[1..]);
    }
  }

  /** No registered connection escapes: a slot, the tick's surviving copy, or the list to remove has it. */
  lemma WheelCoversRegistry(s0: Server, es: seq<Event>, c: Conn)
    requires Init(s0) && CanRun(s0, es) && c in Run(s0, es).front
    ensures |Run(s0, es).wheel| == SLOTS
    ensures Watched(Run(s0, es), c) || c in Run(s0, es).pending
  {
    ReachableIsInv(s0, es);
  }

  /** Between ticks, when nothing is to be removed, the ten slots alone have every registered connection. */
  lemma SlotsCoverRegistry(s0: Server, es: seq<Event>, c: Conn)
    requires Init(s0) && CanRun(s0, es) && c in Run(s0, es).front
    requires Run(s0, es).tick == Waiting && Run(s0, es).pending == {}
    ensures exists k :: 0 <= k < |Run(s0, es).wheel| && c in Run(s0, es).wheel[k]
  {
    WheelCoversRegistry(s0, es, c);
  }
}
