/** Does `user_to_conn_` agree with the connections?  Exactly which steps keep it so, and what a second login on
    the same connection leaves behind. */
module Agreement {
  import opened ByteOrder
  import opened Grammar
  import opened Parsing
  import opened Session
  import Channel

  /** The index is the map from user to id over the live connections that have a user. */
  predicate Agree(s: State) {
    && (forall c | c in s.live :: c < |s.conns|)
    && (forall u | u in s.index :: u != 0 && s.index[u] in s.live && s.conns[s.index[u]].userId == u)
    && (forall c | c in s.live && s.conns[c].userId != 0 ::
          s.conns[c].userId in s.index && s.index[s.conns[c].userId] == c)
  }

  /** The two states differ at most in tables, counters and channels. */
  predicate SameSessions(s: State, t: State) {
    && s.live == t.live && s.index == t.index && |s.conns| == |t.conns|
    && forall c | 0 <= c < |s.conns| :: s.conns[c].userId == t.conns[c].userId && s.conns[c].reading == t.conns[c].reading
  }

  lemma ApplySessions(s: State, c: nat, e: Effect)
    requires c < |s.conns|
    ensures SameSessions(if e.login.Some? then Bind(s, c, e.login.value) else s, Apply(s, c, e))
  {
  }

  /** The user a step signs in: that of a login request whose name and password the tables accept, if the query goes
      through and the user is not in the index. */
  function LoginBy(s: State, e: Event): Option<i32> {
    match RequestOf(s, e)
    case Some(Login(name, password)) =>
      if e.env.ok0 && name in s.db.users && s.db.users[name].hash == s.sha(password) && s.db.users[name].id !in s.index
      then Some(s.db.users[name].id) else None
    case _ => None
  }

  /** These are the logins the handlers decide on. */
  lemma LoginByExact(s: State, e: Event)
    ensures match RequestOf(s, e)
      case None => LoginBy(s, e) == None
      case Some(r) => e.conn < |s.conns| && LoginBy(s, e) == Decide(s, e.conn, r, e.env).login
  {
    hide ParseRequest;
  }

  lemma LoginIsDispatch(s: State, e: Event)
    ensures LoginBy(s, e).Some? ==> e.Dispatch? && e.conn < |s.conns|
  {
    hide ParseRequest;
  }

  lemma LoginByFacts(s: State, e: Event)
    requires TablesInv(s.db)
    ensures LoginBy(s, e).Some? ==>
      e.Dispatch? && e.conn < |s.conns| && LoginBy(s, e).value > 0 && LoginBy(s, e).value !in s.index
  {
    hide ParseRequest;
  }

  /** Who is bound where after a step. */
  ghost predicate SessionsAfter(s: State, e: Event, t: State)
  {
    match e
    case Dispatch(c, _, _) =>
      (match LoginBy(s, e)
       case None => SameSessions(s, t)
       case Some(u) => c < |s.conns| && SameSessions(Bind(s, c, u), t))
    case Traffic(_, _) => SameSessions(s, t)
    case Accept => t == Step(s, e)
    case StopAll => t == Step(s, e)
    case ReadFail(c) =>
      if c < |s.conns| && s.conns[c].reading
      then SameSessions(Stop(s.(conns := s.conns[c := s.conns[c].(reading := false)]), c), t) else t == s
    case WriteFail(c) =>
      if c < |s.conns| && s.conns[c].chan.outstanding != [] then SameSessions(Stop(s, c), t) else t == s
  }

  lemma StepSessions(s: State, e: Event)
    ensures SessionsAfter(s, e, Step(s, e))
  {
    hide ParseRequest, Decide, Apply, Channel.Do, LoginBy;
    match e
    case Dispatch(c, _, env) =>
      RequestStep(s, e);
      LoginByExact(s, e);
      match RequestOf(s, e) {
        case None =>
        case Some(r) => ApplySessions(s, c, Decide(s, c, r, env));
      }
    case _ =>
  }

  lemma StopAllKeepsOthers(s: State)
    ensures Step(s, StopAll).conns == s.conns && Step(s, StopAll).index == map[]
  {
  }

  lemma AcceptKeepsOthers(s: State)
    ensures Step(s, Accept).index == s.index
    ensures forall c | 0 <= c < |s.conns| :: Step(s, Accept).conns[c] == s.conns[c]
    ensures |Step(s, Accept).conns| == |s.conns| + 1
  {
  }

  lemma UserOfStep(s: State, e: Event, c: nat)
    requires c < |s.conns|
    ensures c < |Step(s, e).conns|
    ensures Step(s, e).conns[c].userId == if LoginBy(s, e).Some? && e.conn == c then LoginBy(s, e).value else s.conns[c].userId
  {
    hide ParseRequest, LoginBy, Channel.Do, Step;
    StepSessions(s, e);
    LoginIsDispatch(s, e);
    match e
    case Accept => AcceptKeepsOthers(s);
    case StopAll => StopAllKeepsOthers(s);
    case _ =>
  }

  /** Does this step run a handler or a failure on connection `c`? */
  predicate ActsOn(s: State, e: Event, c: nat) {
    match e
    case Dispatch(d, _, _) => d == c && RequestOf(s, e).Some?
    case ReadFail(d) => d == c && c < |s.conns| && s.conns[c].reading
    case WriteFail(d) => d == c && c < |s.conns| && s.conns[c].chan.outstanding != []
    case _ => false
  }

  /** What a step must satisfy to keep the agreement: a successful login must come from a live connection that has
      no user yet; a failure must be of a live connection, or of one whose user is not in the index. */
  predicate Safe(s: State, e: Event) {
    match e
    case Dispatch(c, _, _) =>
      LoginBy(s, e).Some? ==> c in s.live && c < |s.conns| && s.conns[c].userId == 0
    case ReadFail(c) => ActsOn(s, e, c) ==> c in s.live || s.conns[c].userId == 0 || s.conns[c].userId !in s.index
    case WriteFail(c) => ActsOn(s, e, c) ==> c in s.live || s.conns[c].userId == 0 || s.conns[c].userId !in s.index
    case _ => true
  }

  lemma AgreeCongruent(s: State, t: State)
    requires SameSessions(s, t)
    ensures Agree(s) <==> Agree(t)
  {
  }

  lemma BindExact(s: State, c: nat, u: i32)
    requires Agree(s) && c < |s.conns| && u > 0 && u !in s.index
    ensures Agree(Bind(s, c, u)) <==> c in s.live && s.conns[c].userId == 0
  {
    var t := Bind(s, c, u);
    if c in s.live && s.conns[c].userId == 0 {
      forall d | d in t.live && t.conns[d].userId != 0
        ensures t.conns[d].userId in t.index && t.index[t.conns[d].userId] == d
      {
        if d != c { assert s.conns[d].userId in s.index; }
      }
    }
    if Agree(t) {
      assert u in t.index && t.index[u] == c;
      OldEntryStays(s, c, u);
    }
  }

  lemma OldEntryStays(s: State, c: nat, u: i32)
    requires Agree(s) && c in s.live && u !in s.index
    ensures var w, t := s.conns[c].userId, Bind(s, c, u);
      w != 0 ==> w != u && w in t.index && t.index[w] == c
  {
  }

  lemma StopExact(s: State, c: nat)
    requires Agree(s) && c < |s.conns|
    ensures Agree(Stop(s, c)) <==> c in s.live || s.conns[c].userId == 0 || s.conns[c].userId !in s.index
  {
    var u, t := s.conns[c].userId, Stop(s, c);
    if c in s.live {
      forall d | d in t.live && t.conns[d].userId != 0
        ensures t.conns[d].userId in t.index && t.index[t.conns[d].userId] == d
      {
        assert s.index[s.conns[d].userId] == d;
      }
    } else if u != 0 && u in s.index {
      var d := s.index[u];
      assert d in t.live && u !in t.index;
    }
  }

  /** From agreement, a step keeps agreement if and only if it is safe. */
  lemma StepAgreementExact(s: State, e: Event)
    requires Agree(s) && TablesInv(s.db)
    ensures Agree(Step(s, e)) <==> Safe(s, e)
  {
    hide ParseRequest, LoginBy, Channel.Do, Agree, SameSessions, Step;
    StepSessions(s, e);
    var t := Step(s, e);
    match e
    case Dispatch(c, _, _) =>
      LoginByFacts(s, e);
      match LoginBy(s, e) {
        case None => AgreeCongruent(s, t);
        case Some(u) =>
          BindExact(s, c, u);
          AgreeCongruent(Bind(s, c, u), t);
      }
    case Traffic(_, _) => AgreeCongruent(s, t);
    case Accept => AcceptAgrees(s);
    case StopAll => StopAllAgrees(s);
    case ReadFail(c) =>
      if ActsOn(s, e, c) {
        var s' := s.(conns := s.conns[c := s.conns[c].(reading := false)]);
        ReadingIrrelevant(s, c);
        StopExact(s', c);
        AgreeCongruent(Stop(s', c), t);
      }
    case WriteFail(c) =>
      if ActsOn(s, e, c) {
        StopExact(s, c);
        AgreeCongruent(Stop(s, c), t);
      }
  }

  lemma ReadingIrrelevant(s: State, c: nat)
    requires c < |s.conns| && Agree(s)
    ensures Agree(s.(conns := s.conns[c := s.conns[c].(reading := false)]))
  {
  }

  lemma AcceptAgrees(s: State)
    requires Agree(s)
    ensures Agree(Step(s, Accept))
  {
  }

  lemma StopAllAgrees(s: State)
    ensures Agree(Step(s, StopAll))
  {
  }

  // ---- Over runs --------------------------------------------------------------------------

  predicate SafeRun(s: State, es: seq<Event>) {
    es == [] || (SafeRun(s, es[..|es| - 1]) && Safe(Run(s, es[..|es| - 1]), es[|es| - 1]))
  }

  /** The index agrees in every state of the run. */
  predicate AgreesThroughout(s: State, es: seq<Event>) {
    Agree(Run(s, es)) && (es == [] || AgreesThroughout(s, es[..|es| - 1]))
  }

  lemma TablesInvStep(s: State, e: Event)
    requires TablesInv(s.db)
    ensures TablesInv(Step(s, e).db) && Step(s, e).sha == s.sha
  {
    hide ParseRequest, Decide, Channel.Do, TablesInv;
    if e.Dispatch? {
      RequestStep(s, e);
      match RequestOf(s, e) {
        case None =>
        case Some(r) =>
          ParseRequestExact(e.packet.command, e.packet.data, r);
          TablesStep(s, e.conn, r, e.env);
      }
    }
  }

  lemma {:induction false} TablesInvOverRuns(s: State, es: seq<Event>)
    requires TablesInv(s.db)
    ensures TablesInv(Run(s, es).db)
  {
    hide Step, TablesInv;
    if es != [] {
      TablesInvOverRuns(s, es[..|es| - 1]);
      TablesInvStep(Run(s, es[..|es| - 1]), es[|es| - 1]);
    }
  }

  /** The index agrees with the live connections all through a run if and only if every step of it was safe. */
  lemma {:induction false} AgreementOverRuns(db: Tables, sha: Bytes -> Bytes, es: seq<Event>)
    requires TablesInv(db)
    ensures AgreesThroughout(Init(db, sha), es) <==> SafeRun(Init(db, sha), es)
  {
    hide Step, Safe, TablesInv;
    if es != [] {
      var before := Run(Init(db, sha), es[..|es| - 1]);
      AgreementOverRuns(db, sha, es[..|es| - 1]);
      TablesInvOverRuns(Init(db, sha), es[..|es| - 1]);
      if SafeRun(Init(db, sha), es[..|es| - 1]) {
        LastAgrees(Init(db, sha), es[..|es| - 1]);
        StepAgreementExact(before, es[|es| - 1]);
      }
    }
  }

  lemma LastAgrees(s: State, es: seq<Event>)
    ensures AgreesThroughout(s, es) ==> Agree(Run(s, es))
  {
    hide Agree, Run;
  }

  lemma SafeRunAgrees(db: Tables, sha: Bytes -> Bytes, es: seq<Event>)
    requires TablesInv(db) && SafeRun(Init(db, sha), es)
    ensures Agree(Run(Init(db, sha), es)) && TablesInv(Run(Init(db, sha), es).db)
  {
    hide Step, SafeRun, AgreesThroughout, Agree, TablesInv;
    AgreementOverRuns(db, sha, es);
    LastAgrees(Init(db, sha), es);
    TablesInvOverRuns(Init(db, sha), es);
  }

  /** Nothing acts on a connection after its first stop. */
  predicate Orderly(s: State, e: Event) {
    forall c | 0 <= c < |s.conns| && ActsOn(s, e, c) :: c in s.live
  }

  /** A discipline that makes every step safe: nothing acts on a stopped connection, and a connection logs in at
      most once. */
  predicate Regular(s: State, e: Event) {
    && Orderly(s, e)
    && (LoginBy(s, e).Some? ==> e.conn < |s.conns| && s.conns[e.conn].userId == 0)
  }

  predicate RegularRun(s: State, es: seq<Event>) {
    es == [] || (RegularRun(s, es[..|es| - 1]) && Regular(Run(s, es[..|es| - 1]), es[|es| - 1]))
  }

  lemma RegularIsSafe(s: State, e: Event)
    requires Regular(s, e)
    ensures Safe(s, e)
  {
    hide ParseRequest, Decide;
    match e
    case Dispatch(c, _, _) => assert LoginBy(s, e).Some? ==> ActsOn(s, e, c) && c < |s.conns|;
    case _ =>
  }

  lemma {:induction false} RegularRunIsSafe(s: State, es: seq<Event>)
    requires RegularRun(s, es)
    ensures SafeRun(s, es)
  {
    hide Step, Run, Regular, Safe;
    if es != [] {
      RegularRunIsSafe(s, es[..|es| - 1]);
      RegularIsSafe(Run(s, es[..|es| - 1]), es[|es| - 1]);
    }
  }

  /** What agreement buys: no user has two live sessions, and `is_user_online` answers true exactly for the users
      `send_to_user` reaches, on a connection of that user. */
  lemma AgreementMeans(s: State, c: nat, d: nat, u: i32)
    requires Agree(s)
    ensures c in s.live && d in s.live && s.conns[c].userId == s.conns[d].userId != 0 ==> c == d
    ensures u in s.index <==> Target(s, u).Some?
    ensures Target(s, u).Some? ==> s.conns[Target(s, u).value].userId == u
  {
  }

  // ---- Logging in twice -------------------------------------------------------------------

  /** What survives when a connection may log in again as somebody else. */
  predicate Weak(s: State) {
    && (forall c | c in s.live :: c < |s.conns|)
    && (forall u | u in s.index :: u != 0 && s.index[u] < |s.conns|)
    && (forall c | c in s.live && s.conns[c].userId != 0 ::
          s.conns[c].userId in s.index && s.index[s.conns[c].userId] == c)
  }

  lemma WeakCongruent(s: State, t: State)
    requires SameSessions(s, t)
    ensures Weak(s) <==> Weak(t)
  {
  }

  lemma WeakBind(s: State, c: nat, u: i32)
    requires Weak(s) && c < |s.conns| && u > 0 && u !in s.index
    ensures Weak(Bind(s, c, u))
  {
    var t := Bind(s, c, u);
    forall d | d in t.live && t.conns[d].userId != 0
      ensures t.conns[d].userId in t.index && t.index[t.conns[d].userId] == d
    {
      if d != c { assert s.conns[d].userId in s.index; }
    }
  }

  /** Stopping `c` once more takes the entry of a session that is not its own. */
  predicate Steals(s: State, c: nat)
    requires c < |s.conns|
  {
    var u := s.conns[c].userId;
    c !in s.live && u != 0 && u in s.index
    && s.index[u] in s.live && s.index[u] < |s.conns| && s.conns[s.index[u]].userId == u
  }

  /** The one kind of step that breaks the weak agreement: a failure on a stopped connection whose user has a live
      session elsewhere. */
  predicate WeakSafe(s: State, e: Event) {
    match e
    case ReadFail(c) => ActsOn(s, e, c) ==> !Steals(s, c)
    case WriteFail(c) => ActsOn(s, e, c) ==> !Steals(s, c)
    case _ => true
  }

  lemma WeakStopExact(s: State, c: nat)
    requires Weak(s) && c < |s.conns|
    ensures Weak(Stop(s, c)) <==> !Steals(s, c)
  {
    var u, t := s.conns[c].userId, Stop(s, c);
    if Steals(s, c) {
      assert s.index[u] in t.live && u !in t.index;
    } else {
      forall d | d in t.live && s.conns[d].userId != 0
        ensures s.conns[d].userId in t.index
      {
        assert s.index[s.conns[d].userId] == d;
      }
    }
  }

  lemma WeakMinor(s: State, c: nat)
    requires Weak(s)
    ensures c < |s.conns| ==> Weak(s.(conns := s.conns[c := s.conns[c].(reading := false)]))
    ensures Weak(Step(s, Accept)) && Weak(Step(s, StopAll))
  {
  }

  /** A step keeps the weak agreement if and only if it is not that failure. */
  lemma WeakStepExact(s: State, e: Event)
    requires Weak(s) && TablesInv(s.db)
    ensures Weak(Step(s, e)) <==> WeakSafe(s, e)
  {
    hide ParseRequest, LoginBy, Channel.Do, Weak, SameSessions, Step, TablesInv;
    StepSessions(s, e);
    var t := Step(s, e);
    match e
    case Dispatch(c, _, _) =>
      LoginByFacts(s, e);
      match LoginBy(s, e) {
        case None => WeakCongruent(s, t);
        case Some(u) =>
          WeakBind(s, c, u);
          WeakCongruent(Bind(s, c, u), t);
      }
    case Traffic(_, _) => WeakCongruent(s, t);
    case Accept => WeakMinor(s, 0);
    case StopAll => WeakMinor(s, 0);
    case ReadFail(c) =>
      if ActsOn(s, e, c) {
        var s' := s.(conns := s.conns[c := s.conns[c].(reading := false)]);
        WeakMinor(s, c);
        WeakStopExact(s', c);
        WeakCongruent(Stop(s', c), t);
      }
    case WriteFail(c) =>
      if ActsOn(s, e, c) {
        WeakStopExact(s, c);
        WeakCongruent(Stop(s, c), t);
      }
  }

  predicate WeakSafeRun(s: State, es: seq<Event>) {
    es == [] || (WeakSafeRun(s, es[..|es| - 1]) && WeakSafe(Run(s, es[..|es| - 1]), es[|es| - 1]))
  }

  predicate WeakThroughout(s: State, es: seq<Event>) {
    Weak(Run(s, es)) && (es == [] || WeakThroughout(s, es[..|es| - 1]))
  }

  /** All through a run, second logins and `stop_all` included, every live connection's current user is indexed to it,
      if and only if no such failure occurs. */
  lemma {:induction false} WeakOverRuns(db: Tables, sha: Bytes -> Bytes, es: seq<Event>)
    requires TablesInv(db)
    ensures WeakThroughout(Init(db, sha), es) <==> WeakSafeRun(Init(db, sha), es)
  {
    hide Step, WeakSafe, TablesInv;
    if es != [] {
      WeakOverRuns(db, sha, es[..|es| - 1]);
      TablesInvOverRuns(Init(db, sha), es[..|es| - 1]);
      if WeakSafeRun(Init(db, sha), es[..|es| - 1]) {
        LastWeak(Init(db, sha), es[..|es| - 1]);
        WeakStepExact(Run(Init(db, sha), es[..|es| - 1]), es[|es| - 1]);
      }
    }
  }

  lemma LastWeak(s: State, es: seq<Event>)
    ensures WeakThroughout(s, es) ==> Weak(Run(s, es))
  {
    hide Weak, Run;
  }

  /** The entry of `u` names a connection that is now somebody else's. */
  predicate Stale(s: State, u: i32) {
    u != 0 && u in s.index && s.index[u] < |s.conns| && s.conns[s.index[u]].userId != u
  }

  /** A second login on the same connection leaves the first user's entry stale. */
  lemma SecondLoginLeavesStale(s: State, e: Event)
    requires Weak(s) && TablesInv(s.db) && e.Dispatch? && e.conn in s.live
    requires s.conns[e.conn].userId != 0 && LoginBy(s, e).Some?
    ensures Stale(Step(s, e), s.conns[e.conn].userId)
  {
    hide ParseRequest, LoginBy, Step, TablesInv;
    LoginByFacts(s, e);
    StepSessions(s, e);
  }

  /** What ends a stale entry of `u`: `stop_all`, or a failure on some connection of `u`. */
  predicate Keeps(s: State, e: Event, u: i32) {
    match e
    case StopAll => false
    case ReadFail(c) => ActsOn(s, e, c) ==> s.conns[c].userId != u
    case WriteFail(c) => ActsOn(s, e, c) ==> s.conns[c].userId != u
    case _ => true
  }

  /** Nothing else does, and as long as it lasts it does not move and its user does not log in. */
  lemma StaleStepExact(s: State, e: Event, u: i32)
    requires TablesInv(s.db) && Stale(s, u)
    ensures Stale(Step(s, e), u) <==> Keeps(s, e, u)
    ensures Keeps(s, e, u) ==> Step(s, e).index[u] == s.index[u]
    ensures LoginBy(s, e) != Some(u)
  {
    hide ParseRequest, LoginBy, Channel.Do, Step, TablesInv;
    StepSessions(s, e);
    LoginByFacts(s, e);
    match e
    case Accept => AcceptKeepsOthers(s);
    case StopAll => StopAllKeepsOthers(s);
    case _ =>
  }

  predicate KeepsRun(s: State, es: seq<Event>, u: i32) {
    es == [] || (KeepsRun(s, es[..|es| - 1], u) && Keeps(Run(s, es[..|es| - 1]), es[|es| - 1], u))
  }

  predicate StaleThroughout(s: State, es: seq<Event>, u: i32) {
    Stale(Run(s, es), u) && (es == [] || StaleThroughout(s, es[..|es| - 1], u))
  }

  /** So a stale entry stays stale through a run if and only if nothing in the run ends it; and then every attempt to
      log in as that user, with the right password, is answered that the user is already online. */
  lemma {:induction false} StaleForever(s: State, es: seq<Event>, u: i32)
    requires TablesInv(s.db) && Stale(s, u)
    ensures StaleThroughout(s, es, u) <==> KeepsRun(s, es, u)
    ensures KeepsRun(s, es, u) ==> var t := Run(s, es);
      && u in t.index && t.index[u] == s.index[u]
      && forall name: Bytes, password: Bytes, env: Env ::
           Verify(t.db, t.sha, name, password, env.ok0) == Some(u) ==>
             HandleLogin(t, name, password, env) == JustReply(t, LoginResp(USER_ALREADY_ONLINE, 0, []))
  {
    hide Step, Keeps, TablesInv, Verify;
    if es != [] {
      StaleForever(s, es[..|es| - 1], u);
      TablesInvOverRuns(s, es[..|es| - 1]);
      if KeepsRun(s, es[..|es| - 1], u) {
        LastStale(s, es[..|es| - 1], u);
        StaleStepExact(Run(s, es[..|es| - 1]), es[|es| - 1], u);
      }
    }
  }

  lemma LastStale(s: State, es: seq<Event>, u: i32)
    ensures StaleThroughout(s, es, u) ==> Stale(Run(s, es), u)
  {
    hide Stale, Run;
  }

  /** When nothing acts on a stopped connection, only `stop_all` ends a stale entry, and the weak agreement is safe. */
  lemma OrderlyKeeps(s: State, e: Event, u: i32)
    requires Weak(s) && Orderly(s, e)
    ensures WeakSafe(s, e)
    ensures Stale(s, u) ==> (Keeps(s, e, u) <==> !e.StopAll?)
  {
    match e
    case ReadFail(c) => assert ActsOn(s, e, c) ==> c in s.live;
    case WriteFail(c) => assert ActsOn(s, e, c) ==> c in s.live;
    case _ =>
  }
}
