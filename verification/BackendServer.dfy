/** Which backend connection serves a site, and the timer that drops the failed ones. */
module BackendServer {
  import opened Options
  import opened Registry

  predicate AllIn(conns: seq<Conn>, status: map<Conn, Stats>) { forall c :: c in conns ==> c in status }

  /** The connections without an error, in order. */
  function Healthy(conns: seq<Conn>, status: map<Conn, Stats>): (r: seq<Conn>)
    requires AllIn(conns, status)
    ensures forall c :: c in r <==> c in conns && status[c] != Error
    ensures |r| <= |conns|
  {
    if conns == [] then []
    else
      var front := Healthy(conns[..|conns| - 1], status);
      if status[conns[|conns| - 1]] == Error then front else front + [conns[|conns| - 1]]
  }

  /** Each connection stays or goes by itself, in its place. */
  lemma {:induction false} HealthyConcat(a: seq<Conn>, b: seq<Conn>, status: map<Conn, Stats>)
    requires AllIn(a, status) && AllIn(b, status) && AllIn(a + b, status)
    ensures Healthy(a + b, status) == Healthy(a, status) + Healthy(b, status)
    decreases |b|
  {
    if b == [] {
      assert a + b == a && Healthy(b, status) == [];
    } else {
      hide Healthy, AllIn;
      var front, last := b[..|b| - 1], b[|b| - 1];
      AllInParts(a, front, last, a + b, b, status);
      HealthyConcat(a, front, status);
      HealthyLast(a + front, last, status);
      HealthyLast(front, last, status);
      Associates(Healthy(a, status), Healthy(front, status), if status[last] == Error then [] else [last]);
    }
  }

  lemma AllInParts(a: seq<Conn>, front: seq<Conn>, last: Conn, ab: seq<Conn>, b: seq<Conn>, status: map<Conn, Stats>)
    requires AllIn(a, status) && AllIn(b, status) && ab == a + b && b == front + [last]
    ensures ab == (a + front) + [last] && AllIn(front, status) && AllIn(a + front, status) && last in status
  {
    assert last in b && forall c :: c in front ==> c in b;
  }

  lemma Associates(a: seq<Conn>, b: seq<Conn>, c: seq<Conn>)
    ensures (a + b) + c == a + (b + c)
  {
  }

  lemma HealthyLast(a: seq<Conn>, c: Conn, status: map<Conn, Stats>)
    requires AllIn(a, status) && c in status
    ensures AllIn(a + [c], status) && Healthy(a + [c], status) == Healthy(a, status) + if status[c] == Error then [] else [c]
  {
    assert (a + [c])[..|a|] == a;
  }

  predicate Works(status: map<Conn, Stats>, c: Conn) { c in status && status[c] == Working }

  /** A site can be served when some connection works. */
  ghost predicate Serves(conns: seq<Conn>, status: map<Conn, Stats>) {
    exists c :: c in conns && Works(status, c)
  }

  /** How far index k is after index start, going round n places. */
  function Distance(start: nat, k: nat, n: nat): (d: nat)
    requires start < n && k < n
    ensures d < n
  {
    if k >= start then k - start else k + n - start
  }

  lemma NextAround(start: nat, k: nat, n: nat)
    requires start < n && k < n
    ensures (k + 1) % n < n
    ensures (k + 1) % n != start ==> Distance(start, (k + 1) % n, n) == Distance(start, k, n) + 1
    ensures (k + 1) % n == start ==> Distance(start, k, n) == n - 1
  {
    Remainder(k, n);
  }

  lemma Remainder(k: nat, n: nat)
    requires k < n
    ensures (k + 1) % n == if k + 1 < n then k + 1 else 0
  {
  }

  lemma SameDistance(start: nat, j: nat, k: nat, n: nat)
    requires start < n && j < n && k < n && Distance(start, j, n) == Distance(start, k, n)
    ensures j == k
  {
  }

  /** The index d places after the site's own, going round n places. */
  function PlaceAfter(site: nat, d: nat, n: nat): (k: nat)
    requires d < n
    ensures k < n
  {
    if site % n + d < n then site % n + d else site % n + d - n
  }

  /** c is the first working connection from the site's own on, going round. */
  ghost predicate IsNearest(conns: seq<Conn>, status: map<Conn, Stats>, site: nat, c: Conn) {
    exists d :: 0 <= d < |conns| && conns[PlaceAfter(site, d, |conns|)] == c && Works(status, c)
                && forall e :: 0 <= e < d ==> !Works(status, conns[PlaceAfter(site, e, |conns|)])
  }

  lemma NearestIsFirst(conns: seq<Conn>, status: map<Conn, Stats>, site: nat, k: nat)
    requires k < |conns| && Works(status, conns[k])
    requires forall j :: 0 <= j < |conns| && Distance(site % |conns|, j, |conns|) < Distance(site % |conns|, k, |conns|) ==>
      !Works(status, conns[j])
    ensures IsNearest(conns, status, site, conns[k])
  {
    var n := |conns|;
    var d := Distance(site % n, k, n);
    assert PlaceAfter(site, d, n) == k;
    forall e | 0 <= e < d ensures !Works(status, conns[PlaceAfter(site, e, n)]) {
      assert Distance(site % n, PlaceAfter(site, e, n), n) == e;
    }
  }

  /** The connections that a site can be served by, in order. */
  function WorkingOnes(conns: seq<Conn>, status: map<Conn, Stats>): (r: seq<Conn>)
    ensures forall c :: c in r <==> c in conns && Works(status, c)
  {
    if conns == [] then []
    else
      var front, last := WorkingOnes(conns[..|conns| - 1], status), conns[|conns| - 1];
      if Works(status, last) then front + [last] else front
  }

  /**
   * Pruning keeps the working connections, all of them and in their order, so it never changes
   * whether a site can be served.
   */
  lemma {:induction false} PruningKeepsWorking(conns: seq<Conn>, status: map<Conn, Stats>)
    requires AllIn(conns, status)
    ensures WorkingOnes(Healthy(conns, status), status) == WorkingOnes(conns, status)
    ensures Serves(Healthy(conns, status), status) <==> Serves(conns, status)
  {
    if conns != [] {
      PruningKeepsWorking(conns[..|conns| - 1], status);
      var front, last := Healthy(conns[..|conns| - 1], status), conns[|conns| - 1];
      assert (front + [last])[..|front|] == front;
    }
  }

  class BackendServer {
    var conns: seq<Conn>
    var status: map<Conn, Stats>

    predicate Valid()
      reads this
    {
      AllIn(conns, status)
    }

    constructor ()
      ensures Valid() && conns == []
    {
      conns, status := [], map[];
    }

    method AcceptHandler(ec: bool, c: Conn)
      requires Valid() && c !in status
      modifies this
      ensures Valid()
      ensures ec ==> conns == old(conns) && status == old(status)
      ensures !ec ==> conns == old(conns) + [c] && status == old(status)[c := Working]
    {
      if ec {
        return;
      }
      conns := conns + [c];
      status := status[c := Working];
    }

    method RequireBackendConn(siteId: nat) returns (r: Option<Conn>)
      requires Valid()
      ensures r.Some? ==> IsNearest(conns, status, siteId, r.value)
      ensures r.None? <==> !Serves(conns, status)
    {
      if |conns| == 0 {
        return None;
      }
      var n := |conns|;
      var index := siteId % n;
      if status[conns[index]] == Working {
        NearestIsFirst(conns, status, siteId, index);
        return Some(conns[index]);
      }
      var flag := index;
      ghost var seen := 0;
      while true
        invariant index < n && flag == siteId % n && seen == Distance(flag, index, n)
        invariant forall j :: 0 <= j < n && Distance(flag, j, n) <= seen ==> !Works(status, conns[j])
        decreases n - seen
      {
        NextAround(flag, index, n);
        index := (index + 1) % n;
        if status[conns[index]] == Working {
          NearestIsFirst(conns, status, siteId, index);
          return Some(conns[index]);
        }
        if index == flag {
          break;
        }
        seen := seen + 1;
        forall j | 0 <= j < n && Distance(flag, j, n) == seen ensures j == index { SameDistance(flag, j, index, n); }
      }
      return None;
    }

    /** Replaces the connections by those without an error, unless there is none with an error. */
    method OnCheckTimeout(aborted: bool)
      requires Valid()
      modifies `conns
      ensures conns == if aborted then old(conns) else Healthy(old(conns), status)
      ensures Valid()
    {
      if !aborted && conns != [] {
        var allOk := AllOk();
        if !allOk {
          var newStore := NewStore();
          conns := newStore;
        }
      }
    }

    method AllOk() returns (ok: bool)
      requires Valid()
      ensures ok ==> Healthy(conns, status) == conns
    {
      for i := 0 to |conns|
        invariant Healthy(conns[..i], status) == conns[..i]
      {
        if status[conns[i]] == Error {
          return false;
        }
        HealthyNext(conns, status, i);
      }
      assert conns[..|conns|] == conns;
      return true;
    }

    method NewStore() returns (store: seq<Conn>)
      requires Valid()
      ensures store == Healthy(conns, status)
    {
      store := [];
      for i := 0 to |conns|
        invariant store == Healthy(conns[..i], status)
      {
        HealthyNext(conns, status, i);
        if status[conns[i]] != Error {
          store := store + [conns[i]];
        }
      }
      assert conns[..|conns|] == conns;
    }
  }

  lemma HealthyNext(conns: seq<Conn>, status: map<Conn, Stats>, i: nat)
    requires i < |conns| && AllIn(conns, status)
    ensures Healthy(conns[..i + 1], status) ==
      Healthy(conns[..i], status) + if status[conns[i]] == Error then [] else [conns[i]]
    ensures conns[..i + 1] == conns[..i] + [conns[i]]
  {
    assert conns[..i + 1] == conns[..i] + [conns[i]];
    HealthyLast(conns[..i], conns[i], status);
  }
}
