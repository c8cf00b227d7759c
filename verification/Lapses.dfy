/** Runs, possible with any database that has the accounts they use, that leave the index, the mail or the friendship
    rows wrong. */
module Lapses {
  import opened ByteOrder
  import opened Grammar
  import opened Parsing
  import opened Framing
  import opened Session
  import opened Agreement
  import opened Accounts
  import opened Mailbox
  import Channel

  /** A name and a password that the tables accept. */
  predicate HasAccount(s: State, name: Bytes, password: Bytes) {
    && Short(name) && Short(password) && name in s.db.users && s.db.users[name].id > 0
    && s.db.users[name].hash == s.sha(password)
  }

  function LoginEvent(c: nat, name: Bytes, password: Bytes, env: Env): Event {
    Dispatch(c, RequestPacket(Login(name, password)), env)
  }

  lemma LoginStep(s: State, c: nat, name: Bytes, password: Bytes, env: Env)
    requires c < |s.conns| && s.conns[c].reading && env.ok0
    requires HasAccount(s, name, password) && s.db.users[name].id !in s.index
    ensures var e, id := LoginEvent(c, name, password, env), s.db.users[name].id;
      var t := Step(s, e);
      && LoginBy(s, e) == Some(id)
      && SameSessions(Bind(s, c, id), t) && t.db == s.db && t.sha == s.sha
      && t.conns[c].chan.pending != [] && t.conns[c].chan.queue == s.conns[c].chan.queue
      && t.conns[c].chan.outstanding == s.conns[c].chan.outstanding
      && forall d | 0 <= d < |s.conns| && d != c :: t.conns[d].chan == s.conns[d].chan
  {
    hide ParseRequest, ResponseBytes, Be16;
    var r := Login(name, password);
    var e := LoginEvent(c, name, password, env);
    RequestRoundTrip(r);
    assert InRange(|RequestBody(r)|);
    assert RequestOf(s, e) == Some(r);
    RequestStep(s, e);
    ApplySessions(s, c, Decide(s, c, r, env));
  }

  lemma RunSnoc(s: State, es: seq<Event>, e: Event)
    ensures Run(s, es + [e]) == Step(Run(s, es), e)
  {
    hide Step;
    assert (es + [e])[..|es|] == es;
  }

  lemma AcceptStep(s: State)
    ensures var t := Step(s, Accept);
      && t == s.(conns := t.conns, live := t.live)
      && |t.conns| == |s.conns| + 1 && t.conns[|s.conns|] == Conn(0, true, Channel.EMPTY)
      && (forall c | 0 <= c < |s.conns| :: t.conns[c] == s.conns[c])
      && t.live == s.live + {|s.conns|}
  {
  }

  /** A login, an accepted connection or the end of one brings nobody mail. */
  lemma NoMail(s: State, e: Event, c: nat, u: i32)
    requires LoginBy(s, e).Some? || e.Accept? || e.ReadFail?
    ensures UnreadCount(Step(s, e), u) == UnreadCount(s, u)
    ensures c < |s.conns| ==> c < |Step(s, e).conns| && MailOn(Step(s, e), c) == MailOn(s, c)
  {
    hide Step, MailOn, LoginBy, RequestOf, Decide, UnreadCount, Counted;
    NothingStored(s, e, c, u);
    UnreadOfStep(s, e, u);
    if c < |s.conns| {
      MailOnStep(s, e, c);
    }
  }

  lemma NothingStored(s: State, e: Event, c: nat, u: i32)
    requires LoginBy(s, e).Some? || e.Accept? || e.ReadFail?
    ensures NewMail(s, e, c) == [] && Counted(s, e, u) == 0
  {
    hide Step, ParseRequest, Decide;
    if e.Dispatch? {
      TablesOfStep(s, e);
    }
  }

  lemma NewConnMail(s: State, c: nat)
    requires c < |s.conns| && s.conns[c] == Conn(0, true, Channel.EMPTY)
    ensures MailOn(s, c) == []
  {
    hide MailIn;
    MailNone();
  }

  /** One connection, two logins: the first user's entry now names somebody else's session. */
  lemma SecondLogin(db: Tables, sha: Bytes -> Bytes, n1: Bytes, p1: Bytes, n2: Bytes, p2: Bytes, env: Env) returns (es: seq<Event>)
    requires TablesInv(db) && n1 != n2 && env.ok0
    requires HasAccount(Init(db, sha), n1, p1) && HasAccount(Init(db, sha), n2, p2)
    ensures var t := Run(Init(db, sha), es);
      && !Agree(t) && Stale(t, db.users[n1].id)
      && t.live == {0} && |t.conns| == 1 && t.conns[0].userId == db.users[n2].id
      && t.conns[0].reading && t.db == db && MailOn(t, 0) == [] && UnreadCount(t, db.users[n1].id) == 0
  {
    hide Step, ParseRequest, MailOn, UnreadCount, LoginBy;
    var s := Init(db, sha);
    var s1 := Step(s, Accept);
    var login1, login2 := LoginEvent(0, n1, p1, env), LoginEvent(0, n2, p2, env);
    AcceptStep(s);
    NewConnMail(s1, 0);
    NoMail(s, Accept, 0, db.users[n1].id);
    LoginStep(s1, 0, n1, p1, env);
    NoMail(s1, login1, 0, db.users[n1].id);
    var s2 := Step(s1, login1);
    LoginStep(s2, 0, n2, p2, env);
    NoMail(s2, login2, 0, db.users[n1].id);
    es := [] + [Accept] + [login1] + [login2];
    RunSnoc(s, [], Accept);
    RunSnoc(s, [] + [Accept], login1);
    RunSnoc(s, [] + [Accept] + [login1], login2);
    var s3 := Step(s2, login2);
    assert s3.live == {0};
    assert s3.index[db.users[n1].id] == 0 && s3.conns[0].userId != db.users[n1].id;
    NothingUnread(db, sha, db.users[n1].id);
  }

  lemma NothingUnread(db: Tables, sha: Bytes -> Bytes, u: i32)
    ensures UnreadCount(Init(db, sha), u) == 0
  {
  }

  /** After a second login, mail for the first user goes to the second one's session: the session has been given a
      message that was not stored for its user, and a stored message is neither on a session of its addressee nor
      unread. */
  lemma Misdelivered(db: Tables, sha: Bytes -> Bytes, n1: Bytes, p1: Bytes, n2: Bytes, p2: Bytes, content: Bytes, env: Env)
      returns (es: seq<Event>)
    requires TablesInv(db) && n1 != n2 && env.ok0 && InRange(8 + |content|)
    requires HasAccount(Init(db, sha), n1, p1) && HasAccount(Init(db, sha), n2, p2)
    ensures var t, a, b := Run(Init(db, sha), es), db.users[n1].id, db.users[n2].id;
      && |t.conns| == 1 && t.conns[0].userId == b
      && MailOn(t, 0) == [(b, content)] && StoredFor(t.db.messages, b) == StoredFor(db.messages, b)
      && !Conserved(t, db, a)
  {
    hide Step, MailOn, StoredFor, UnreadCount, Stale, Agree, Run;
    var first := SecondLogin(db, sha, n1, p1, n2, p2, env);
    var s := Run(Init(db, sha), first);
    var a, b := db.users[n1].id, db.users[n2].id;
    var chat := Dispatch(0, RequestPacket(SendMessage(a, content)), env);
    es := first + [chat];
    RunSnoc(Init(db, sha), first, chat);
    ChatMisdelivered(s, a, b, content, env);
    var m := Message(b, a, content);
    StoredForSnoc(db.messages, m, a);
    StoredForSnoc(db.messages, m, b);
    OneConn(Step(s, chat).conns, a);
  }

  lemma OneConn(conns: seq<Conn>, u: i32)
    requires |conns| == 1 && conns[0].userId != u
    ensures PostedTo(conns, u) == 0
  {
  }

  lemma ChatMisdelivered(s: State, a: i32, b: i32, content: Bytes, env: Env)
    requires s.live == {0} && |s.conns| == 1 && s.conns[0].userId == b && s.conns[0].reading && b != 0
    requires Stale(s, a) && IsUser(s.db, a) && IsUser(s.db, b) && env.ok0 && InRange(8 + |content|)
    ensures var t := Step(s, Dispatch(0, RequestPacket(SendMessage(a, content)), env));
      && |t.conns| == 1 && t.conns[0].userId == b
      && t.db.messages == s.db.messages + [Message(b, a, content)]
      && MailOn(t, 0) == MailOn(s, 0) + [(b, content)] && UnreadCount(t, a) == UnreadCount(s, a)
  {
    hide ParseRequest, Step, MailOn, UnreadCount, Apply;
    var r := SendMessage(a, content);
    var e := Dispatch(0, RequestPacket(r), env);
    RequestRoundTrip(r);
    BodySize(a, content);
    assert RequestOf(s, e) == Some(r);
    assert Stores(s, e) == Some(Message(b, a, content));
    TablesOfStep(s, e);
    UnreadOfStep(s, e, a);
    MailOnStep(s, e, 0);
    StepSessions(s, e);
  }

  /** When that connection is then stopped, messages for the first user vanish: the user counts as online, so nothing is
      counted as unread, but the entry names a connection that is gone, so nobody is given them either. */
  lemma Vanished(db: Tables, sha: Bytes -> Bytes, n1: Bytes, p1: Bytes, n2: Bytes, p2: Bytes, content: Bytes, env: Env)
      returns (es: seq<Event>)
    requires TablesInv(db) && n1 != n2 && env.ok0 && InRange(8 + |content|)
    requires HasAccount(Init(db, sha), n1, p1) && HasAccount(Init(db, sha), n2, p2)
    ensures var t, a, b := Run(Init(db, sha), es), db.users[n1].id, db.users[n2].id;
      && t.db.messages == db.messages + [Message(b, a, content)] && a in t.index
      && |t.conns| == 2 && MailOn(t, 0) == [] && MailOn(t, 1) == [] && UnreadCount(t, a) == 0
  {
    hide Step, MailOn, StoredFor, UnreadCount, Agree, Run, LoginBy;
    var first := SecondLogin(db, sha, n1, p1, n2, p2, env);
    var s1 := Run(Init(db, sha), first);
    var a, b := db.users[n1].id, db.users[n2].id;
    ShaOfRun(db, sha, first);
    var fail, login := ReadFail(0), LoginEvent(1, n2, p2, env);
    var s2 := Step(s1, fail);
    StopsFor(s1, a);
    NoMail(s1, fail, 0, a);
    var s3 := Step(s2, Accept);
    AcceptStep(s2);
    NoMail(s2, Accept, 0, a);
    NewConnMail(s3, 1);
    var s4 := Step(s3, login);
    LoginStep(s3, 1, n2, p2, env);
    NoMail(s3, login, 0, a);
    NoMail(s3, login, 1, a);
    var chat := Dispatch(1, RequestPacket(SendMessage(a, content)), env);
    ChatVanishes(s4, a, b, content, env);
    es := first + [fail] + [Accept] + [login] + [chat];
    RunSnoc(Init(db, sha), first, fail);
    RunSnoc(Init(db, sha), first + [fail], Accept);
    RunSnoc(Init(db, sha), first + [fail] + [Accept], login);
    RunSnoc(Init(db, sha), first + [fail] + [Accept] + [login], chat);
  }

  lemma ShaOfRun(db: Tables, sha: Bytes -> Bytes, es: seq<Event>)
    ensures Run(Init(db, sha), es).sha == sha
  {
    hide Step, Run;
    HashHistory(Init(db, sha), es, []);
  }

  /** Stopping the connection of somebody else leaves a stale entry. */
  lemma StopsFor(s: State, a: i32)
    requires |s.conns| == 1 && s.live == {0} && s.conns[0].reading && Stale(s, a) && s.conns[0].userId != 0
    ensures var t := Step(s, ReadFail(0));
      && |t.conns| == 1 && t.live == {} && Stale(t, a) && t.index[a] == 0
      && s.conns[0].userId !in t.index && t.db == s.db && t.sha == s.sha
  {
  }

  lemma ChatVanishes(s: State, a: i32, b: i32, content: Bytes, env: Env)
    requires s.live == {1} && |s.conns| == 2 && s.conns[1].userId == b && s.conns[1].reading && b != 0
    requires a in s.index && s.index[a] == 0
    requires IsUser(s.db, a) && IsUser(s.db, b) && env.ok0 && InRange(8 + |content|)
    ensures var t := Step(s, Dispatch(1, RequestPacket(SendMessage(a, content)), env));
      && |t.conns| == 2 && a in t.index && t.db.messages == s.db.messages + [Message(b, a, content)]
      && MailOn(t, 0) == MailOn(s, 0) && MailOn(t, 1) == MailOn(s, 1) && UnreadCount(t, a) == UnreadCount(s, a)
  {
    hide ParseRequest, Step, MailOn, UnreadCount, Apply;
    var r := SendMessage(a, content);
    var e := Dispatch(1, RequestPacket(r), env);
    RequestRoundTrip(r);
    BodySize(a, content);
    assert RequestOf(s, e) == Some(r);
    assert Stores(s, e) == Some(Message(b, a, content));
    TablesOfStep(s, e);
    UnreadOfStep(s, e, a);
    MailOnStep(s, e, 0);
    MailOnStep(s, e, 1);
    StepSessions(s, e);
  }

  lemma BodySize(to: i32, content: Bytes)
    ensures |RequestBody(SendMessage(to, content))| == 8 + |content|
  {
    hide Be32;
  }

  lemma RunPostedStep(s: State, c: nat)
    requires c < |s.conns| && s.conns[c].chan.pending != [] && s.conns[c].chan.queue == []
    ensures var t := Step(s, Traffic(c, Channel.RunPosted));
      && SameSessions(s, t) && t.db == s.db && t.sha == s.sha && t.conns[c].chan.outstanding != []
  {
  }

  /** A write error stops a connection; its user logs in on another; then the first connection's pending read
      fails, and stopping it a second time drops the new session's entry.  The user looks offline while a live
      session is theirs. */
  lemma DoubleStop(db: Tables, sha: Bytes -> Bytes, n: Bytes, p: Bytes, env: Env) returns (es: seq<Event>)
    requires TablesInv(db) && env.ok0 && HasAccount(Init(db, sha), n, p)
    ensures var t := Run(Init(db, sha), es);
      && !Agree(t) && !Weak(t) && t.live == {1} && |t.conns| == 2 && t.conns[1].userId == db.users[n].id && t.index == map[]
  {
    hide Step, ParseRequest;
    var s, id := Init(db, sha), db.users[n].id;
    var s1 := Step(s, Accept);
    AcceptStep(s);
    var s2 := Step(s1, Accept);
    AcceptStep(s1);
    var login0, run, fail := LoginEvent(0, n, p, env), Traffic(0, Channel.RunPosted), WriteFail(0);
    var s3 := Step(s2, login0);
    LoginStep(s2, 0, n, p, env);
    var s4 := Step(s3, run);
    RunPostedStep(s3, 0);
    var s5 := Step(s4, fail);
    StepSessions(s4, fail);
    FailKeepsTables(s4, fail);
    var login1 := LoginEvent(1, n, p, env);
    var s6 := Step(s5, login1);
    LoginStep(s5, 1, n, p, env);
    var s7 := Step(s6, ReadFail(0));
    StepSessions(s6, ReadFail(0));
    var e2 := [] + [Accept] + [Accept];
    var e5 := e2 + [login0] + [run] + [fail];
    es := e5 + [login1] + [ReadFail(0)];
    RunSnoc(s, [], Accept);
    RunSnoc(s, [] + [Accept], Accept);
    RunSnoc(s, e2, login0);
    RunSnoc(s, e2 + [login0], run);
    RunSnoc(s, e2 + [login0] + [run], fail);
    RunSnoc(s, e5, login1);
    RunSnoc(s, e5 + [login1], ReadFail(0));
    assert s7.live == {1};
    assert s7.index == map[];
  }

  lemma FailKeepsTables(s: State, e: Event)
    requires e.WriteFail? || e.ReadFail?
    ensures Step(s, e).db == s.db && Step(s, e).sha == s.sha
  {
  }

  /** A login, and an add-friend request of which the database takes only the first row. */
  lemma HalfAdded(db: Tables, sha: Bytes -> Bytes, n: Bytes, p: Bytes, f: i32, env: Env, half: Env) returns (es: seq<Event>)
    requires TablesInv(db) && env.ok0 && HasAccount(Init(db, sha), n, p)
    requires IsUser(db, f) && f != db.users[n].id && half.ok0 && half.ok1 && !half.ok2
    requires Symmetric(db.friends) && Irreflexive(db.friends)
    ensures !Symmetric(Run(Init(db, sha), es).db.friends)
  {
    hide Step, ParseRequest, Symmetric, Irreflexive;
    var s := Init(db, sha);
    var s1 := Step(s, Accept);
    AcceptStep(s);
    var login := LoginEvent(0, n, p, env);
    var s2 := Step(s1, login);
    LoginStep(s1, 0, n, p, env);
    var add := Dispatch(0, RequestPacket(AddFriend(f)), half);
    AddServed(s2, f, half);
    assert IsUser(s2.db, db.users[n].id);
    FriendsStepExact(s2, add);
    es := [] + [Accept] + [login] + [add];
    RunSnoc(s, [], Accept);
    RunSnoc(s, [] + [Accept], login);
    RunSnoc(s, [] + [Accept] + [login], add);
  }

  lemma AddServed(s: State, f: i32, env: Env)
    requires |s.conns| > 0 && s.conns[0].reading
    ensures RequestOf(s, Dispatch(0, RequestPacket(AddFriend(f)), env)) == Some(AddFriend(f))
  {
    hide ParseRequest;
    RequestRoundTrip(AddFriend(f));
  }
}
