/** Histories of the tables: passwords, authenticated senders, and friendship rows. */
module Accounts {
  import opened ByteOrder
  import opened Grammar
  import opened Parsing
  import opened Session
  import opened Agreement
  import opened Mailbox
  import Channel
  import Posting

  // ---- Passwords ----------------------------------------------------------------------------

  /** The password a request sets for `name`, judged by the reply its sender is given. */
  function SetBy(s: State, e: Event, name: Bytes): Option<Bytes> {
    match RequestOf(s, e)
    case None => None
    case Some(r) =>
      var reply := Decide(s, e.conn, r, e.env).reply;
      if r.Register? && r.username == name && reply.RegisterResp? && reply.error == SUCCESS then Some(r.password)
      else if r.ResetPassword? && r.username == name && reply.ResetPasswordResp? && reply.error == SUCCESS then Some(r.newPassword)
      else None
  }

  /** The hash of the password last set for `name` according to the replies, or the initial one. */
  function LastSet(s: State, es: seq<Event>, name: Bytes): Option<Bytes> {
    if es == [] then if name in s.db.users then Some(s.db.users[name].hash) else None
    else
      var before, e := Run(s, es[..|es| - 1]), es[|es| - 1];
      match SetBy(before, e, name)
      case Some(password) => Some(s.sha(password))
      case None => LastSet(s, es[..|es| - 1], name)
  }

  function HashOf(db: Tables, name: Bytes): Option<Bytes> {
    if name in db.users then Some(db.users[name].hash) else None
  }

  /** The stored hash changes exactly when the reply says so, and to the hash of the password in the request. */
  lemma HashOfStep(s: State, e: Event, name: Bytes)
    ensures HashOf(Step(s, e).db, name) ==
      match SetBy(s, e, name) case Some(password) => Some(s.sha(password)) case None => HashOf(s.db, name)
  {
    hide ParseRequest, Channel.Do, Decide;
    if e.Dispatch? {
      RequestStep(s, e);
      if RequestOf(s, e).Some? {
        HashOfDecision(s, e.conn, RequestOf(s, e).value, e.env, name);
      }
    }
  }

  lemma HashOfDecision(s: State, c: nat, r: Request, env: Env, name: Bytes)
    requires c < |s.conns|
    ensures var eff := Decide(s, c, r, env);
      HashOf(eff.db, name) ==
        if r.Register? && r.username == name && eff.reply.RegisterResp? && eff.reply.error == SUCCESS then Some(s.sha(r.password))
        else if r.ResetPassword? && r.username == name && eff.reply.ResetPasswordResp? && eff.reply.error == SUCCESS then Some(s.sha(r.newPassword))
        else HashOf(s.db, name)
  {
    hide Verify, IsUser;
  }

  lemma ShaConstant(s: State, e: Event)
    ensures Step(s, e).sha == s.sha
  {
    hide ParseRequest, Decide, Channel.Do;
  }

  lemma {:induction false} HashHistory(s: State, es: seq<Event>, name: Bytes)
    ensures HashOf(Run(s, es).db, name) == LastSet(s, es, name) && Run(s, es).sha == s.sha
  {
    hide Step, SetBy;
    if es != [] {
      var before, e := Run(s, es[..|es| - 1]), es[|es| - 1];
      HashHistory(s, es[..|es| - 1], name);
      HashOfStep(before, e, name);
      ShaConstant(before, e);
    }
  }

  /** In every run, database faults included: a password is accepted for a name (the query going through) exactly
      when its hash is that of the password in the last register or reset request for that name that was answered
      with success. */
  lemma PasswordsFollowReplies(s: State, es: seq<Event>, name: Bytes, password: Bytes)
    ensures var t := Run(s, es);
      Verify(t.db, t.sha, name, password, true).Some? <==> LastSet(s, es, name) == Some(t.sha(password))
  {
    HashHistory(s, es, name);
  }

  // ---- Senders ------------------------------------------------------------------------------

  /** At some step of the run, a login on connection `c` succeeded for user `u`. */
  ghost predicate LoggedIn(s: State, es: seq<Event>, c: nat, u: i32) {
    exists j :: 0 <= j < |es| && LoginAt(s, es, j, c, u)
  }

  predicate LoginAt(s: State, es: seq<Event>, j: nat, c: nat, u: i32)
    requires j < |es|
  {
    es[j].Dispatch? && es[j].conn == c && LoginBy(Run(s, es[..j]), es[j]) == Some(u)
  }

  lemma LoggedInGrows(s: State, es: seq<Event>, e: Event, c: nat, u: i32)
    requires LoggedIn(s, es, c, u)
    ensures LoggedIn(s, es + [e], c, u)
  {
    var j :| 0 <= j < |es| && LoginAt(s, es, j, c, u);
    assert (es + [e])[..j] == es[..j];
    assert LoginAt(s, es + [e], j, c, u);
  }

  /** A connection has a user only because of a successful login on it. */
  lemma {:induction false} UsersLoggedIn(db: Tables, sha: Bytes -> Bytes, es: seq<Event>, c: nat)
    requires c < |Run(Init(db, sha), es).conns|
    ensures var u := Run(Init(db, sha), es).conns[c].userId; u != 0 ==> LoggedIn(Init(db, sha), es, c, u)
  {
    hide Step, LoginBy, LoggedIn;
    if es != [] {
      var s := Init(db, sha);
      var first, e := es[..|es| - 1], es[|es| - 1];
      var before := Run(s, first);
      assert es == first + [e];
      if c < |before.conns| {
        UsersLoggedIn(db, sha, first, c);
        UserOfStep(before, e, c);
        LoginIsDispatch(before, e);
        var u := before.conns[c].userId;
        if LoginBy(before, e).Some? && e.conn == c {
          LoginIsLast(s, es, c);
        } else if u != 0 {
          LoggedInGrows(s, first, e, c, u);
        }
      } else {
        Posting.NewConnection(before, e, c);
      }
    }
  }

  lemma LoginIsLast(s: State, es: seq<Event>, c: nat)
    requires es != [] && es[|es| - 1].Dispatch? && es[|es| - 1].conn == c
    requires LoginBy(Run(s, es[..|es| - 1]), es[|es| - 1]).Some?
    ensures LoggedIn(s, es, c, LoginBy(Run(s, es[..|es| - 1]), es[|es| - 1]).value)
  {
    assert LoginAt(s, es, |es| - 1, c, LoginBy(Run(s, es[..|es| - 1]), es[|es| - 1]).value);
  }

  /** Step `i` of the run stores `m`, over a connection on which its sender had logged in before. */
  ghost predicate SentAt(s: State, es: seq<Event>, i: nat, m: Message)
    requires i < |es|
  {
    && es[i].Dispatch? && Stores(Run(s, es[..i]), es[i]) == Some(m)
    && LoggedIn(s, es[..i], es[i].conn, m.fromId)
  }

  ghost predicate Sent(s: State, es: seq<Event>, m: Message) {
    exists i :: 0 <= i < |es| && SentAt(s, es, i, m)
  }

  lemma SentGrows(s: State, es: seq<Event>, e: Event, m: Message)
    requires Sent(s, es, m)
    ensures Sent(s, es + [e], m)
  {
    hide LoggedIn, Stores;
    var i :| 0 <= i < |es| && SentAt(s, es, i, m);
    assert (es + [e])[..i] == es[..i];
    assert SentAt(s, es + [e], i, m);
  }

  /** Every message stored during a run was sent over a connection on which its sender had logged in. */
  lemma {:induction false} SendersLoggedIn(db: Tables, sha: Bytes -> Bytes, es: seq<Event>, k: nat)
    requires |db.messages| <= k < |Run(Init(db, sha), es).db.messages|
    ensures Sent(Init(db, sha), es, Run(Init(db, sha), es).db.messages[k])
  {
    hide Step, LoginBy, LoggedIn, Stores, Sent;
    if es != [] {
      var s := Init(db, sha);
      var first, e := es[..|es| - 1], es[|es| - 1];
      var before := Run(s, first);
      assert es == first + [e];
      TablesOfStep(before, e);
      if k < |before.db.messages| {
        SendersLoggedIn(db, sha, first, k);
        SentGrows(s, first, e, before.db.messages[k]);
      } else {
        UsersLoggedIn(db, sha, first, e.conn);
        SentLast(s, es, Stores(before, e).value);
      }
    }
  }

  lemma SentLast(s: State, es: seq<Event>, m: Message)
    requires es != [] && SentAt(s, es, |es| - 1, m)
    ensures Sent(s, es, m)
  {
  }

  // ---- Friendship rows ----------------------------------------------------------------------

  ghost predicate Symmetric(rows: multiset<(i32, i32)>) {
    forall a: i32, b: i32 :: rows[(a, b)] == rows[(b, a)]
  }

  ghost predicate Irreflexive(rows: multiset<(i32, i32)>) {
    forall a: i32 :: rows[(a, a)] == 0
  }

  /** An add-friend request whose first insert goes through and whose second one fails. */
  predicate HalfAdds(s: State, e: Event) {
    match RequestOf(s, e)
    case None => false
    case Some(r) => e.conn < |s.conns| && HalfAdd(s, s.conns[e.conn].userId, r, e.env)
  }

  predicate HalfAdd(s: State, user: i32, r: Request, env: Env) {
    && r.AddFriend? && user != 0 && user != r.friendId
    && env.ok0 && env.ok1 && !env.ok2 && IsUser(s.db, user) && IsUser(s.db, r.friendId)
  }

  lemma FriendsOfDecision(s: State, c: nat, r: Request, env: Env)
    requires c < |s.conns| && Irreflexive(s.db.friends)
    ensures var rows := Decide(s, c, r, env).db.friends;
      Irreflexive(rows) && (Symmetric(s.db.friends) ==> (Symmetric(rows) <==> !HalfAdd(s, s.conns[c].userId, r, env)))
  {
    if r.AddFriend? {
      FriendsOfAdd(s, s.conns[c].userId, r, env);
    }
  }

  lemma FriendsOfAdd(s: State, user: i32, r: Request, env: Env)
    requires r.AddFriend? && Irreflexive(s.db.friends)
    ensures var rows := HandleAddFriend(s, user, r.friendId, env).db.friends;
      Irreflexive(rows) && (Symmetric(s.db.friends) ==> (Symmetric(rows) <==> !HalfAdd(s, user, r, env)))
  {
    var f := r.friendId;
    var rows := HandleAddFriend(s, user, f, env).db.friends;
    if HalfAdd(s, user, r, env) {
      assert rows[(user, f)] == s.db.friends[(user, f)] + 1 && rows[(f, user)] == s.db.friends[(f, user)];
    }
  }

  /** Nobody ever becomes their own friend; and a step keeps the rows symmetric, counting duplicates, if and only if it
      is not such a half-completed request. */
  lemma FriendsStepExact(s: State, e: Event)
    requires Irreflexive(s.db.friends)
    ensures Irreflexive(Step(s, e).db.friends)
    ensures Symmetric(s.db.friends) ==> (Symmetric(Step(s, e).db.friends) <==> !HalfAdds(s, e))
  {
    hide ParseRequest, Decide, Channel.Do, Symmetric, Irreflexive, HalfAdd;
    if e.Dispatch? {
      RequestStep(s, e);
      if RequestOf(s, e).Some? {
        FriendsOfDecision(s, e.conn, RequestOf(s, e).value, e.env);
      }
    }
  }

  predicate NeverHalf(s: State, es: seq<Event>) {
    es == [] || (NeverHalf(s, es[..|es| - 1]) && !HalfAdds(Run(s, es[..|es| - 1]), es[|es| - 1]))
  }

  ghost predicate SymmetricThroughout(s: State, es: seq<Event>) {
    Symmetric(Run(s, es).db.friends) && (es == [] || SymmetricThroughout(s, es[..|es| - 1]))
  }

  /** The rows stay symmetric through a run if and only if no request in it was half completed. */
  lemma {:induction false} FriendsOverRuns(s: State, es: seq<Event>)
    requires Symmetric(s.db.friends) && Irreflexive(s.db.friends)
    ensures Irreflexive(Run(s, es).db.friends)
    ensures SymmetricThroughout(s, es) <==> NeverHalf(s, es)
  {
    hide Step, Symmetric, Irreflexive, HalfAdds;
    if es != [] {
      FriendsOverRuns(s, es[..|es| - 1]);
      FriendsStepExact(Run(s, es[..|es| - 1]), es[|es| - 1]);
      LastSymmetric(s, es[..|es| - 1]);
    }
  }

  lemma LastSymmetric(s: State, es: seq<Event>)
    ensures SymmetricThroughout(s, es) ==> Symmetric(Run(s, es).db.friends)
  {
    hide Symmetric, Run;
  }

  /** Without a unique key, adding the same friend again adds the same two rows again. */
  lemma FriendsRepeat(s: State, user: i32, friend: i32, env: Env)
    requires user != 0 && user != friend && IsUser(s.db, user) && IsUser(s.db, friend)
    requires env.ok0 && env.ok1 && env.ok2
    ensures var rows := HandleAddFriend(s, user, friend, env).db.friends;
      rows[(user, friend)] == s.db.friends[(user, friend)] + 1 && rows[(friend, user)] == s.db.friends[(friend, user)] + 1
  {
    var db1 := InsertFriend(s.db, user, friend, true).value;
    assert db1.users == s.db.users;
  }

  /** The rows the installation script seeds. */
  const SEED: multiset<(i32, i32)> := multiset{(1, 2), (1, 3), (2, 1), (3, 1)}

  lemma SeedSymmetric()
    ensures Symmetric(SEED) && Irreflexive(SEED)
  {
  }

  /** So also from the seeded start. */
  lemma FriendsFromSeed(db: Tables, sha: Bytes -> Bytes, es: seq<Event>)
    requires db.friends == SEED
    ensures Irreflexive(Run(Init(db, sha), es).db.friends)
    ensures SymmetricThroughout(Init(db, sha), es) <==> NeverHalf(Init(db, sha), es)
  {
    hide *;
    SeedSymmetric();
    InitTables(db, sha);
    FriendsOverRuns(Init(db, sha), es);
  }

  lemma InitTables(db: Tables, sha: Bytes -> Bytes)
    ensures Init(db, sha).db == db
  {
  }
}
