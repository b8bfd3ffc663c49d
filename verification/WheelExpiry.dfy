/**
 * How the wheel expires idle connections: never before nine tenths of the expiry time without a
 * touch, and always within ten rotations after that, so before twice the expiry time when the ticks keep time.
 */
module WheelExpiry {
  import opened Registry

  function Rotations(es: seq<Event>): nat {
    if es == [] then 0 else (if es[0] == TickRotate then 1 else 0) + Rotations(es[1..])
  }

  /** At some point of the run, ends included, the manager is to remove c. */
  ghost predicate Registered(s: Server, es: seq<Event>, c: Conn)
    requires CanRun(s, es)
    decreases |es|
  {
    c in s.pending || (es != [] && Registered(Apply(s, es[0]), es[1..], c))
  }

  /** At some point of the run the last touch of c is nine tenths of the expiry time ago, or longer. */
  ghost predicate SometimeIdle(s: Server, es: seq<Event>, c: Conn)
    requires CanRun(s, es)
    decreases |es|
  {
    (c in s.touched && s.now - s.touched[c] >= s.expiry - s.expiry / 10) || (es != [] && SometimeIdle(Apply(s, es[0]), es[1..], c))
  }

  /** No handler reports an error of c in the run. */
  predicate NoError(es: seq<Event>, c: Conn) { MarkError(c) !in es }

  /** The step e does not set the touch time of c: no read or write is started on it. */
  predicate Leaves(s: Server, e: Event, c: Conn) {
    e != Touch(c) && !(e == StartConn && s.accept == Starting(c)) && !(e == AcceptCommit && NextConn(s) == c)
  }

  /** No read or write is started on c in the run. */
  predicate Untouched(s: Server, es: seq<Event>, c: Conn)
    requires CanRun(s, es)
    decreases |es|
  {
    es == [] || (Leaves(s, es[0], c) && Untouched(Apply(s, es[0]), es[1..], c))
  }

  // ---- Not too early ----

  /** Neither the manager nor an error handler nor the tick has c. */
  predicate Unmarked(s: Server, c: Conn) {
    c !in s.pending && c !in s.marked && (s.tick.Ticking? ==> c !in s.tick.holding)
  }

  /**
   * Over every run: a connection that ends up listed for removal without an error of its own was
   * at some moment idle for at least the expiry time less a tenth of it, rounded down.
   */
  lemma {:induction false} ExpiredOnlyWhenIdle(s: Server, es: seq<Event>, c: Conn)
    requires CanRun(s, es) && Unmarked(s, c) && NoError(es, c)
    requires !Unmarked(Run(s, es), c)
    ensures SometimeIdle(s, es, c)
    decreases |es|
  {
    if !(c in s.touched && IsIdle(s, c)) {
      var s' := Apply(s, es[0]);
      assert Unmarked(s', c);
      ExpiredOnlyWhenIdle(s', es[1..], c);
    }
  }

  lemma {:induction false} ClockRuns(s: Server, es: seq<Event>)
    requires CanRun(s, es)
    ensures s.now <= Run(s, es).now && Run(s, es).expiry == s.expiry
    decreases |es|
  {
    if es != [] { ClockRuns(Apply(s, es[0]), es[1..]); }
  }

  /** Accepting and starting a connection, and a read or a write on it, set its touch time to the clock; nothing else does. */
  lemma TouchIsClock(s: Server, e: Event, c: Conn)
    requires Enabled(s, e)
    ensures !Leaves(s, e, c) ==> c in Apply(s, e).touched && Apply(s, e).touched[c] == s.now
    ensures Leaves(s, e, c) && c in Apply(s, e).touched ==> c in s.touched && Apply(s, e).touched[c] == s.touched[c]
  {
  }

  /**
   * Over every run, by the clock alone: from a touch on, nine tenths of the expiry time must pass
   * before a connection without an error of its own is listed for removal.
   */
  lemma NotBeforeNineTenths(s: Server, es: seq<Event>, c: Conn)
    requires CanRun(s, es) && es != [] && !Leaves(s, es[0], c) && Unmarked(Apply(s, es[0]), c) && NoError(es, c)
    requires Run(s, es).now - s.now < s.expiry - s.expiry / 10
    ensures Unmarked(Run(s, es), c)
  {
    TouchIsClock(s, es[0], c);
    StaysUnmarked(Apply(s, es[0]), es[1..], c, s.now);
  }

  lemma {:induction false} StaysUnmarked(s: Server, es: seq<Event>, c: Conn, t: int)
    requires CanRun(s, es) && Unmarked(s, c) && NoError(es, c)
    requires t <= s.now && (c in s.touched ==> t <= s.touched[c]) && Run(s, es).now - t < s.expiry - s.expiry / 10
    ensures Unmarked(Run(s, es), c)
    decreases |es|
  {
    if es != [] {
      ClockRuns(s, es);
      TouchIsClock(s, es[0], c);
      UnmarkedStep(s, es[0], c);
      ClockRuns(s, [es[0]]);
      StaysUnmarked(Apply(s, es[0]), es[1..], c, t);
    }
  }

  /** A step marks a connection only for an error of its own, or because it is idle. */
  lemma UnmarkedStep(s: Server, e: Event, c: Conn)
    requires Enabled(s, e) && Unmarked(s, c) && e != MarkError(c)
    requires c in s.touched ==> s.now - s.touched[c] < s.expiry - s.expiry / 10
    ensures Unmarked(Apply(s, e), c)
  {
  }

  // ---- Not too late ----

  /** c will have been looked at before k more rotations are over. */
  ghost predicate Due(s: Server, c: Conn, k: nat) {
    || (exists j :: 1 <= j < |s.wheel| && c in s.wheel[j] && j < k)
    || (s.tick.Waiting? && s.wheel != [] && c in s.wheel[0] && 0 < k)
    || (s.tick.Ticking? && c in s.tick.todo && c in s.tick.copy && 0 < k)
    || (s.tick.Ticking? && c in s.tick.holding && 0 < k)
    || (s.tick.Ticking? && c in s.tick.copy && SLOTS < k)
  }

  ghost predicate Overdue(s: Server, c: Conn, k: nat) {
    Inv(s) && c in s.front && c !in s.pending && c in s.touched && IsIdle(s, c) && Due(s, c, k)
  }

  /** Until it is listed for removal, a connection stays registered, and only a touch changes its time. */
  lemma StaysRegistered(s: Server, e: Event, c: Conn)
    requires Inv(s) && Enabled(s, e) && Leaves(s, e, c) && c in s.front && c !in s.pending && c in s.touched
    ensures Inv(Apply(s, e)) && c in Apply(s, e).front && Apply(s, e).expiry == s.expiry && s.now <= Apply(s, e).now
    ensures c in Apply(s, e).touched && Apply(s, e).touched[c] == s.touched[c]
  {
    hide Consistent, Covered;
    assert Held(s, c);
    KeepsInv(s, e);
  }

  /** What is left of k rotations after the step. */
  function Left(e: Event, k: nat): (r: int) { if e == TickRotate then k - 1 else k }

  /** In a slot behind the front one c waits for its turn, and a rotation brings it one slot nearer. */
  lemma SlotStep(s: Server, e: Event, c: Conn, k: nat, j: nat)
    requires Enabled(s, e) && 1 <= j < |s.wheel| && c in s.wheel[j] && j < k
    ensures Left(e, k) > 0 && Due(Apply(s, e), c, Left(e, k))
  {
    var s' := Apply(s, e);
    if e == TickRotate {
      assert c in s'.wheel[j - 1];
    } else {
      KeepsSlots(s, e, j);
    }
  }

  /** In the front slot c waits for the copy. */
  lemma FrontStep(s: Server, e: Event, c: Conn, k: nat)
    requires Enabled(s, e) && s.tick == Waiting && s.wheel != [] && c in s.wheel[0] && k > 0
    ensures e != TickRotate && Due(Apply(s, e), c, k)
  {
    KeepsSlots(s, e, 0);
  }

  /** The tick has c before it, and will find it idle. */
  lemma TodoStep(s: Server, e: Event, c: Conn, k: nat)
    requires Enabled(s, e) && s.tick.Ticking? && c in s.tick.todo && c in s.tick.copy && k > 0
    requires Exists(s, c) && IsIdle(s, c) && c !in s.cached
    ensures e != TickRotate && Due(Apply(s, e), c, k)
  {
  }

  /** The tick has found c idle, and is to list it. */
  lemma HoldingStep(s: Server, e: Event, c: Conn, k: nat)
    requires Enabled(s, e) && s.tick.Ticking? && c in s.tick.holding && k > 0
    ensures e != TickRotate && (c in Apply(s, e).pending || Due(Apply(s, e), c, k))
  {
  }

  /** c has outlived this tick, and goes to the back slot with the next rotation. */
  lemma CopyStep(s: Server, e: Event, c: Conn, k: nat)
    requires Enabled(s, e) && s.tick.Ticking? && c in s.tick.copy && c !in s.tick.todo && k > SLOTS == |s.wheel|
    ensures Due(Apply(s, e), c, Left(e, k))
  {
    var s' := Apply(s, e);
    if e == TickRotate {
      assert c in s'.wheel[SLOTS - 1];
    }
  }

  lemma WhileOverdue(s: Server, c: Conn, k: nat)
    requires Overdue(s, c, k)
    ensures Exists(s, c) && c !in s.cached && |s.wheel| == SLOTS
  {
    assert Held(s, c);
  }

  lemma DueStep(s: Server, e: Event, c: Conn, k: nat)
    requires Overdue(s, c, k) && Enabled(s, e) && Leaves(s, e, c)
    ensures Left(e, k) >= 0 && k > 0
    ensures c in Apply(s, e).pending || Overdue(Apply(s, e), c, Left(e, k))
  {
    StaysRegistered(s, e, c);
    WhileOverdue(s, c, k);
    StillDue(s, e, c, k);
  }

  lemma StillDue(s: Server, e: Event, c: Conn, k: nat)
    requires Due(s, c, k) && Enabled(s, e)
    requires Exists(s, c) && IsIdle(s, c) && c !in s.cached && |s.wheel| == SLOTS
    ensures Left(e, k) >= 0 && k > 0 && (c in Apply(s, e).pending || Due(Apply(s, e), c, Left(e, k)))
  {
    if j: nat :| 1 <= j < |s.wheel| && c in s.wheel[j] && j < k {
      SlotStep(s, e, c, k, j);
    } else if s.tick.Waiting? {
      FrontStep(s, e, c, k);
    } else if c in s.tick.holding {
      HoldingStep(s, e, c, k);
    } else if c in s.tick.todo {
      TodoStep(s, e, c, k);
    } else {
      CopyStep(s, e, c, k);
    }
  }

  lemma {:induction false} ExpiredInTime(s: Server, es: seq<Event>, c: Conn, k: nat)
    requires Overdue(s, c, k) && CanRun(s, es) && Untouched(s, es, c) && Rotations(es) >= k
    ensures Registered(s, es, c)
    decreases |es|
  {
    DueStep(s, es[0], c, k);
    var s' := Apply(s, es[0]);
    if c !in s'.pending {
      ExpiredInTime(s', es[1..], c, Left(es[0], k));
    }
  }

  /** Every registered connection is due within ten rotations, eleven when a tick is under way. */
  lemma RegisteredIsDue(s: Server, c: Conn)
    requires Inv(s) && c in s.front && c !in s.pending
    ensures Due(s, c, if s.tick == Waiting then SLOTS else SLOTS + 1)
  {
    assert Watched(s, c);
  }

  /**
   * Over every run: a registered connection that has been idle for the expiry time less a tenth of
   * it, and is not touched again, is listed for removal before ten whole ticks are over.
   */
  lemma TenTicksExpire(s: Server, es: seq<Event>, c: Conn)
    requires Inv(s) && c in s.front && c in s.touched && s.now - s.touched[c] >= s.expiry - s.expiry / 10
    requires CanRun(s, es) && Untouched(s, es, c)
    requires Rotations(es) >= if s.tick == Waiting then 10 else 11
    ensures Registered(s, es, c)
  {
    if c !in s.pending {
      RegisteredIsDue(s, c);
      ExpiredInTime(s, es, c, if s.tick == Waiting then SLOTS else SLOTS + 1);
    }
  }

  /** The clock moves second by second, and from every moment on a tick comes every tenth of the expiry time. */
  ghost predicate OnSchedule(s: Server, es: seq<Event>)
    requires CanRun(s, es) && s.expiry >= 10
    decreases |es|
  {
    && Rotations(es) >= (Run(s, es).now - s.now) / (s.expiry / 10) + (if s.tick == Waiting then 0 else 1)
    && (es == [] || (Apply(s, es[0]).now <= s.now + 1 && OnSchedule(Apply(s, es[0]), es[1..])))
  }

  lemma LessFactor(d: nat, x: nat, y: nat)
    requires d * x < d * y
    ensures x < y
  {
    assert d * (y - x) > 0;
  }

  lemma ExpiryCoversSlots(expiry: nat, elapsed: nat)
    requires expiry > SLOTS && elapsed >= expiry
    ensures elapsed / (expiry / SLOTS) >= SLOTS
  {
    var spare := expiry / SLOTS;
    var q := elapsed / spare;
    assert spare * SLOTS <= elapsed < spare * (q + 1);
    LessFactor(spare, SLOTS, q + 1);
  }

  /**
   * With ticks on schedule: a registered connection whose last touch was at time t is listed for
   * removal by t + 2 * expiry - expiry / 10.
   */
  lemma {:induction false} ExpiredByDeadline(s: Server, es: seq<Event>, c: Conn)
    requires Inv(s) && c in s.front && c in s.touched && s.now <= s.touched[c] + (s.expiry - s.expiry / 10)
    requires CanRun(s, es) && Untouched(s, es, c) && OnSchedule(s, es)
    requires Run(s, es).now >= s.touched[c] + 2 * s.expiry - s.expiry / 10
    ensures Registered(s, es, c)
    decreases |es|
  {
    if c in s.pending {
    } else if IsIdle(s, c) {
      ExpiryCoversSlots(s.expiry, Run(s, es).now - s.now);
      RegisteredIsDue(s, c);
      ExpiredInTime(s, es, c, if s.tick == Waiting then SLOTS else SLOTS + 1);
    } else {
      StaysRegistered(s, es[0], c);
      ExpiredByDeadline(Apply(s, es[0]), es[1..], c);
    }
  }

  /**
   * By the clock alone: a registered connection that is touched, and not again, is listed for removal
   * within twice the expiry time less a tenth of it.
   */
  lemma ListedAfterTouch(s: Server, es: seq<Event>, c: Conn)
    requires Inv(s) && CanRun(s, es) && es != [] && !Leaves(s, es[0], c)
    requires var s' := Apply(s, es[0]);
      Inv(s') && c in s'.front && Untouched(s', es[1..], c) && OnSchedule(s', es[1..])
    requires Run(s, es).now >= s.now + 2 * s.expiry - s.expiry / 10
    ensures Registered(s, es, c)
  {
    TouchIsClock(s, es[0], c);
    ExpiredByDeadline(Apply(s, es[0]), es[1..], c);
  }
}
