/** The pool of database handles: leasing under a lock, a condition variable, and handles that die on a failed
    reconnect. */
module Pool {

  /** `waiting` threads sleep on the condition variable; `woken` ones have been notified and will look again.
      `created` counts the handles ever created, and numbers them; `lost` those that could not be reopened. */
  datatype Pool = Pool(
    size: nat, idle: seq<nat>, leased: set<nat>, alive: set<nat>, created: nat, lost: nat, initial: nat,
    waiting: nat, woken: nat)

  datatype Event =
    | Take(ping: bool, reconnect: bool)     // a thread finds the queue not empty and takes the front
    | Sleep                                 // a thread finds it empty and waits
    | WakeAndTake(ping: bool, reconnect: bool)
    | WakeAndSleep                          // a notified thread finds the queue empty again
    | Spurious                              // a thread wakes without having been notified
    | Release(handle: nat)                  // the deleter of a lease runs

  /** Taking the front handle: a dead one is closed and reopened, and when that fails the lease is of nothing, and
      nothing will be returned for it. */
  function TakeFront(p: Pool, ping: bool, reconnect: bool): Pool
    requires p.idle != []
  {
    var h, rest := p.idle[0], p.idle[1..];
    if ping then p.(idle := rest, leased := p.leased + {h})
    else if reconnect then
      p.(idle := rest, leased := p.leased + {p.created}, alive := p.alive - {h} + {p.created}, created := p.created + 1)
    else p.(idle := rest, alive := p.alive - {h}, lost := p.lost + 1)
  }

  /** `push` and `notify_one`. */
  function PutBack(p: Pool, h: nat): Pool {
    var q := p.(idle := p.idle + [h], leased := p.leased - {h});
    if q.waiting > 0 then q.(waiting := q.waiting - 1, woken := q.woken + 1) else q
  }

  function Step(p: Pool, e: Event): Pool {
    match e
    case Take(ping, reconnect) => if p.idle != [] then TakeFront(p, ping, reconnect) else p
    case Sleep => if p.idle == [] then p.(waiting := p.waiting + 1) else p
    case WakeAndTake(ping, reconnect) =>
      if p.woken > 0 && p.idle != [] then TakeFront(p.(woken := p.woken - 1), ping, reconnect) else p
    case WakeAndSleep =>
      if p.woken > 0 && p.idle == [] then p.(woken := p.woken - 1, waiting := p.waiting + 1) else p
    case Spurious => if p.waiting > 0 then p.(waiting := p.waiting - 1, woken := p.woken + 1) else p
    case Release(h) => if h in p.leased then PutBack(p, h) else p
  }

  function Run(p: Pool, es: seq<Event>): Pool {
    if es == [] then p else Step(Run(p, es[..|es| - 1]), es[|es| - 1])
  }

  predicate Distinct(s: seq<nat>) {
    forall i, j | 0 <= i < j < |s| :: s[i] != s[j]
  }

  /** Idle handles are distinct, and with the leased ones they are exactly the live ones; together with the lost
      ones they make up those first created. */
  predicate Handles(p: Pool) {
    && Distinct(p.idle)
    && (forall h | h in p.idle :: h !in p.leased && h in p.alive && h < p.created)
    && (forall h | h in p.leased :: h in p.alive && h < p.created)
    && (forall h | h in p.alive :: h in p.idle || h in p.leased)
    && |p.idle| + |p.leased| + p.lost == p.initial <= p.size
  }

  /** No wake-up is lost: as long as somebody sleeps, every idle handle has a notified thread coming for it. */
  predicate NoLostWakeup(p: Pool) {
    p.waiting > 0 ==> |p.idle| <= p.woken
  }

  lemma TakeFrontHandles(p: Pool, ping: bool, reconnect: bool)
    requires Handles(p) && p.idle != []
    ensures Handles(TakeFront(p, ping, reconnect))
  {
    var h, q := p.idle[0], TakeFront(p, ping, reconnect);
    FrontApart(p.idle);
    CountWith(p.leased, h);
    CountWith(p.leased, p.created);
    assert h !in p.leased && p.created !in p.leased;
  }

  lemma FrontApart(s: seq<nat>)
    requires s != [] && Distinct(s)
    ensures Distinct(s[1..]) && s[0] !in s[1..] && forall x :: x in s <==> x == s[0] || x in s[1..]
  {
    assert s == [s[0]] + s[1..];
    assert forall i | 0 <= i < |s[1..]| :: s[1..][i] == s[i + 1];
  }

  lemma CountWith(s: set<nat>, x: nat)
    ensures x !in s ==> |s + {x}| == |s| + 1
  {
  }

  lemma PutBackHandles(p: Pool, h: nat)
    requires Handles(p) && h in p.leased
    ensures Handles(PutBack(p, h))
  {
    assert |p.leased - {h}| == |p.leased| - 1;
  }

  lemma HandlesStep(p: Pool, e: Event)
    requires Handles(p)
    ensures Handles(Step(p, e))
  {
    hide TakeFront, PutBack;
    match e
    case Take(ping, reconnect) => if p.idle != [] { TakeFrontHandles(p, ping, reconnect); }
    case WakeAndTake(ping, reconnect) =>
      if p.woken > 0 && p.idle != [] { TakeFrontHandles(p.(woken := p.woken - 1), ping, reconnect); }
    case Release(h) => if h in p.leased { PutBackHandles(p, h); }
    case _ =>
  }

  lemma WakeupStep(p: Pool, e: Event)
    requires NoLostWakeup(p)
    ensures NoLostWakeup(Step(p, e))
  {
  }

  /** `results` tells, attempt by attempt, whether the constructor could connect. */
  function Successes(results: seq<bool>): (n: nat)
    ensures n <= |results|
  {
    if results == [] then 0 else Successes(results[..|results| - 1]) + if results[|results| - 1] then 1 else 0
  }

  function Upto(n: nat): (s: seq<nat>)
    ensures |s| == n && forall i | 0 <= i < n :: s[i] == i
  {
    seq(n, i requires 0 <= i < n => i)
  }

  function Initial(results: seq<bool>): Pool {
    var n := Successes(results);
    Pool(|results|, Upto(n), {}, (set h | h in Upto(n)), n, 0, n, 0, 0)
  }

  /** Conservation and wake-ups over all interleavings.  In particular the idle and the leased handles never exceed
      the pool size, and somebody waits in vain only if every handle has been lost or is leased. */
  lemma {:induction false} PoolOverRuns(results: seq<bool>, es: seq<Event>)
    ensures var p := Run(Initial(results), es);
      && Handles(p) && NoLostWakeup(p)
      && p.initial == Successes(results) && p.size == |results|
      && |p.idle| + |p.leased| <= |results|
      && (p.idle == [] && p.leased == {} ==> p.lost == Successes(results))
      && (p.waiting > 0 && p.woken == 0 ==> p.idle == [] && |p.leased| == Successes(results) - p.lost)
  {
    hide Step, Handles, NoLostWakeup, Successes;
    if es == [] {
      InitialHandles(results);
    } else {
      var before := Run(Initial(results), es[..|es| - 1]);
      PoolOverRuns(results, es[..|es| - 1]);
      HandlesStep(before, es[|es| - 1]);
      WakeupStep(before, es[|es| - 1]);
      SizesStay(before, es[|es| - 1]);
    }
    PoolMeans(Run(Initial(results), es));
  }

  lemma InitialHandles(results: seq<bool>)
    ensures Handles(Initial(results)) && NoLostWakeup(Initial(results))
  {
  }

  lemma SizesStay(p: Pool, e: Event)
    ensures Step(p, e).initial == p.initial && Step(p, e).size == p.size
  {
  }

  lemma PoolMeans(p: Pool)
    requires Handles(p) && NoLostWakeup(p)
    ensures |p.idle| + |p.leased| <= p.size
    ensures p.idle == [] && p.leased == {} ==> p.lost == p.initial
    ensures p.waiting > 0 && p.woken == 0 ==> p.idle == [] && |p.leased| == p.initial - p.lost
  {
  }

  lemma {:induction false} SuccessesExact(results: seq<bool>)
    ensures Successes(results) == |set i | 0 <= i < |results| && results[i]|
  {
    if results != [] {
      var n := |results| - 1;
      var first := results[..n];
      SuccessesExact(first);
      var before, all := set i | 0 <= i < n && first[i], set i | 0 <= i < |results| && results[i];
      assert all == before + if results[n] then {n} else {};
    }
  }

  // ---- Who gets which handle ----------------------------------------------------------------

  /** The handle at the front is leased if it is alive; if it is not it is closed for good, and a new handle is leased in
      its place, or none when the database cannot be reached. */
  lemma TakeFrontExact(p: Pool, ping: bool, reconnect: bool)
    requires Handles(p) && p.idle != []
    ensures var q, h := TakeFront(p, ping, reconnect), p.idle[0];
      && p.idle == [h] + q.idle
      && (ping ==> q.leased == p.leased + {h} && q.alive == p.alive && q.lost == p.lost)
      && (!ping ==> h !in q.alive && h !in q.leased && h !in q.idle)
      && (!ping && reconnect ==>
            q.leased == p.leased + {p.created} && p.created !in p.alive && p.created in q.alive && q.lost == p.lost)
      && (!ping && !reconnect ==> q.leased == p.leased && q.lost == p.lost + 1)
  {
  }

  /** The handles taken from the queue in a step, and those put into it. */
  function TakenIn(p: Pool, e: Event): seq<nat> {
    match e
    case Take(_, _) => if p.idle != [] then [p.idle[0]] else []
    case WakeAndTake(_, _) => if p.woken > 0 && p.idle != [] then [p.idle[0]] else []
    case _ => []
  }

  function ReturnedIn(p: Pool, e: Event): seq<nat> {
    match e
    case Release(h) => if h in p.leased then [h] else []
    case _ => []
  }

  function Taken(p: Pool, es: seq<Event>): seq<nat> {
    if es == [] then [] else Taken(p, es[..|es| - 1]) + TakenIn(Run(p, es[..|es| - 1]), es[|es| - 1])
  }

  function Returned(p: Pool, es: seq<Event>): seq<nat> {
    if es == [] then [] else Returned(p, es[..|es| - 1]) + ReturnedIn(Run(p, es[..|es| - 1]), es[|es| - 1])
  }

  lemma QueueStep(p: Pool, e: Event)
    ensures TakenIn(p, e) + Step(p, e).idle == p.idle + ReturnedIn(p, e)
  {
    if p.idle != [] {
      assert p.idle == [p.idle[0]] + p.idle[1..];
    }
  }

  /** Handles are handed out in the order in which they came back. */
  lemma {:induction false} QueueOrder(p: Pool, es: seq<Event>)
    ensures Taken(p, es) + Run(p, es).idle == p.idle + Returned(p, es)
  {
    hide Step, TakenIn, ReturnedIn;
    if es != [] {
      var first, e := es[..|es| - 1], es[|es| - 1];
      QueueOrder(p, first);
      QueueStep(Run(p, first), e);
      var t, r, now := Taken(p, first), Returned(p, first), Run(p, first);
      assert t + (TakenIn(now, e) + Step(now, e).idle) == (t + TakenIn(now, e)) + Step(now, e).idle;
      assert t + (now.idle + ReturnedIn(now, e)) == (t + now.idle) + ReturnedIn(now, e);
      assert (p.idle + r) + ReturnedIn(now, e) == p.idle + (r + ReturnedIn(now, e));
    }
  }

  lemma ClosedStep(p: Pool, e: Event, h: nat)
    requires h < p.created && h !in p.alive
    ensures h < Step(p, e).created && h !in Step(p, e).alive
  {
  }

  /** A handle that has been closed is never seen again. */
  lemma {:induction false} ClosedForGood(p: Pool, es: seq<Event>, h: nat)
    requires Handles(p) && h < p.created && h !in p.alive
    ensures var q := Run(p, es); Handles(q) && h < q.created && h !in q.alive && h !in q.leased && h !in q.idle
  {
    hide Step;
    if es != [] {
      ClosedForGood(p, es[..|es| - 1], h);
      HandlesStep(Run(p, es[..|es| - 1]), es[|es| - 1]);
      ClosedStep(Run(p, es[..|es| - 1]), es[|es| - 1], h);
    }
  }

  // ---- Everybody is served ------------------------------------------------------------------

  /** Threads enter by finding the queue empty and leave with a lease, or with none after a failed reconnect. */
  lemma ThreadsStep(p: Pool, e: Event)
    ensures var q := Step(p, e);
      q.waiting + q.woken == p.waiting + p.woken
        + (if e.Sleep? && p.idle == [] then 1 else 0) - (if e.WakeAndTake? && p.woken > 0 && p.idle != [] then 1 else 0)
    ensures e.WakeAndSleep? && p.woken > 0 && p.idle == [] ==> Step(p, e).waiting == p.waiting + 1
    ensures e.Release? && e.handle in p.leased && p.waiting > 0 ==> Step(p, e).woken == p.woken + 1
  {
  }

  lemma {:induction false} RunCons(p: Pool, e: Event, es: seq<Event>)
    ensures Run(p, [e] + es) == Run(Step(p, e), es)
  {
    hide Step;
    var all := [e] + es;
    if es == [] {
      assert all[..0] == [] && all[0] == e && Run(p, []) == p;
    } else {
      var n := |es| - 1;
      assert all[..|all| - 1] == [e] + es[..n];
      RunCons(p, e, es[..n]);
    }
  }

  /** A handle that is idle while threads are about goes to one of them. */
  lemma ServeNext(p: Pool)
    requires Handles(p) && NoLostWakeup(p) && p.idle != [] && p.waiting + p.woken > 0
    ensures p.woken > 0
    ensures var q := Step(p, WakeAndTake(true, true));
      && q.waiting + q.woken < p.waiting + p.woken && q.lost == p.lost && q.leased == p.leased + {p.idle[0]}
  {
  }

  /** As long as some handle is left, finitely many steps, returns and takes, serve every thread that is waiting. */
  lemma {:induction false} EverybodyServed(p: Pool) returns (es: seq<Event>)
    requires Handles(p) && NoLostWakeup(p) && |p.idle| + |p.leased| > 0
    ensures Run(p, es).waiting == 0 && Run(p, es).woken == 0 && Run(p, es).lost == p.lost
    decreases p.waiting + p.woken, |p.leased|
  {
    hide Step, Handles, NoLostWakeup;
    if p.waiting + p.woken == 0 {
      es := [];
      assert Run(p, []) == p;
    } else {
      var e := WakeAndTake(true, true);
      if p.idle == [] {
        var h :| h in p.leased;
        e := Release(h);
        ReleaseShrinks(p, h);
      } else {
        ServeNext(p);
      }
      HandlesStep(p, e);
      WakeupStep(p, e);
      SizesStay(p, e);
      HandlesCount(p);
      HandlesCount(Step(p, e));
      var more := EverybodyServed(Step(p, e));
      RunCons(p, e, more);
      es := [e] + more;
    }
  }

  lemma ReleaseShrinks(p: Pool, h: nat)
    requires Handles(p) && h in p.leased
    ensures var q := Step(p, Release(h));
      q.waiting + q.woken == p.waiting + p.woken && |q.leased| < |p.leased| && q.lost == p.lost
  {
    assert |p.leased - {h}| == |p.leased| - 1;
  }

  lemma HandlesCount(p: Pool)
    requires Handles(p)
    ensures |p.idle| + |p.leased| + p.lost == p.initial
  {
  }

  // ---- The object ---------------------------------------------------------------------------

  class DatabasePool {
    var connections: seq<nat>
    /** The number the next created handle gets. */
    var next: nat

    /** The object's part of a state: the queue and the numbering. */
    ghost predicate Shows(p: Pool)
      reads this
    {
      connections == p.idle && next == p.created
    }

    /** The constructor's loop keeps the handles it could open. */
    constructor (results: seq<bool>)
      ensures Shows(Initial(results))
    {
      connections := [];
      next := 0;
      new;
      for i := 0 to |results|
        invariant next == Successes(results[..i]) && connections == Upto(next)
      {
        assert results[..i + 1][..i] == results[..i];
        if results[i] {
          connections := connections + [next];
          next := next + 1;
        }
      }
      assert results[..|results|] == results;
    }

    /** `get_connection` once the queue is not empty; `None` is the null lease after a failed reconnect. */
    method GetConnection(ping: bool, reconnect: bool, ghost p: Pool) returns (lease: seq<nat>)
      requires Shows(p) && p.idle != []
      modifies this
      ensures Shows(TakeFront(p, ping, reconnect))
      ensures |lease| <= 1 && TakeFront(p, ping, reconnect).leased == p.leased + (set h | h in lease)
    {
      var conn := connections[0];
      connections := connections[1..];
      lease := [conn];
      if !ping {
        if reconnect {
          lease := [next];
          next := next + 1;
        } else {
          lease := [];
        }
      }
    }

    /** The deleter of a lease. */
    method Return(handle: nat, ghost p: Pool)
      requires Shows(p)
      modifies this
      ensures Shows(PutBack(p, handle))
    {
      connections := connections + [handle];
    }
  }
}
