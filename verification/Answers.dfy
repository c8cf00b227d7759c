/** What the sender of each request is told, and what has then happened: exact conditions on the state before the step,
    for the callback of the packet that answers it. */
module Answers {
  import opened ByteOrder
  import opened Grammar
  import opened Parsing
  import opened Session
  import opened Agreement
  import opened Posting
  import opened Mailbox
  import opened Accounts
  import Channel
  import Client

  /** The callbacks of the packet a step owes its sender. */
  function Told(s: State, e: Event): seq<Response>
    requires e.Dispatch?
  {
    Client.Callbacks(OwedBy(s, e, e.conn))
  }

  /** The sender is owed this response, and nothing else. */
  predicate Owes(s: State, e: Event, r: Response) {
    e.Dispatch? && OwedBy(s, e, e.conn) == [ResponseBytes(r)]
  }

  /** The client's callback gets a reply as it was decided. */
  lemma ToldReply(s: State, e: Event)
    requires RequestOf(s, e).Some?
    ensures e.Dispatch? && e.conn < |s.conns|
    ensures var reply := Decide(s, e.conn, RequestOf(s, e).value, e.env).reply;
      && Owes(s, e, reply) && Step(s, e).db == Decide(s, e.conn, RequestOf(s, e).value, e.env).db
      && (Understood(reply) && ResponseFits(reply) && |ResponseBody(reply)| < TWO_TO_32 ==> Told(s, e) == [reply])
  {
    hide ParseRequest, Decide, ResponseBody, ResponseBytes, ResponseFits, Client.Callback, Client.Callbacks, Channel.Do;
    RequestStep(s, e);
    var reply := Decide(s, e.conn, RequestOf(s, e).value, e.env).reply;
    Client.CallbacksOne(ResponseBytes(reply));
    if Understood(reply) && ResponseFits(reply) && |ResponseBody(reply)| < TWO_TO_32 {
      Client.CallbackOfResponse(reply);
    }
  }

  lemma RequestIsFit(s: State, e: Event)
    requires RequestOf(s, e).Some?
    ensures RequestFits(RequestOf(s, e).value)
  {
    hide ParseRequest, RequestFits;
    ParseRequestExact(e.packet.command, e.packet.data, RequestOf(s, e).value);
  }

  /** Different replies of the two kinds without a callback are different packets. */
  lemma DistinctPackets(r: Response, q: Response)
    requires !Understood(r) && ResponseBytes(r) == ResponseBytes(q)
    requires r.MessageResp? == q.MessageResp? && r.AddFriendResp? == q.AddFriendResp?
    ensures r == q
  {
    hide Encode, Be16, Be32;
    EncodeFields(Packet(VERSION, ResponseCommand(r), ResponseBody(r)));
    EncodeFields(Packet(VERSION, ResponseCommand(q), ResponseBody(q)));
    var b := ResponseBody(r);
    assert b == ResponseBody(q);
    assert b[0..0 + 2] == Be16(r.error) == Be16(q.error);
    Read16Exact(b, 0, r.error);
    Read16Exact(b, 0, q.error);
    if r.MessageResp? {
      assert b[2..2 + 4] == Be32(ToU32(r.msgId)) == Be32(ToU32(q.msgId));
      ReadI32Exact(b, 2, r.msgId);
      ReadI32Exact(b, 2, q.msgId);
    }
  }

  // ---- Login --------------------------------------------------------------------------------

  predicate Accepts(s: State, env: Env, name: Bytes, password: Bytes) {
    env.ok0 && name in s.db.users && s.db.users[name].hash == s.sha(password)
  }

  /** A login is told success, with its user's id and name, exactly when it signs its connection in; that the user is
      online already exactly when name and password are right and the user is indexed; and that there is no such user
      exactly when they are not right. */
  lemma LoginAnswered(s: State, e: Event, name: Bytes, password: Bytes)
    requires RequestOf(s, e) == Some(Login(name, password))
    ensures e.Dispatch? && e.conn < |s.conns|
    ensures forall id: i32 :: Told(s, e) == [LoginResp(SUCCESS, id, name)] <==> LoginBy(s, e) == Some(id)
    ensures Told(s, e) == [LoginResp(USER_ALREADY_ONLINE, 0, [])]
      <==> Accepts(s, e.env, name, password) && s.db.users[name].id in s.index
    ensures Told(s, e) == [LoginResp(USER_NOT_FOUND, 0, [])] <==> !Accepts(s, e.env, name, password)
    ensures Step(s, e).db == s.db
    ensures match LoginBy(s, e)
      case None => SameSessions(s, Step(s, e))
      case Some(id) => SameSessions(Bind(s, e.conn, id), Step(s, e))
  {
    hide ParseRequest, ResponseBody, Step, Told, Owes;
    ToldReply(s, e);
    RequestIsFit(s, e);
    LoginReplySmall(s, e);
    StepSessions(s, e);
  }

  lemma LoginReplySmall(s: State, e: Event)
    requires RequestOf(s, e).Some? && RequestOf(s, e).value.Login?
    ensures e.Dispatch? && e.conn < |s.conns|
    ensures var reply := Decide(s, e.conn, RequestOf(s, e).value, e.env).reply;
      Understood(reply) && ResponseFits(reply) && |ResponseBody(reply)| < TWO_TO_32
  {
    hide ParseRequest, Be16, Be32;
    RequestIsFit(s, e);
  }

  lemma StatusReplySmall(r: Response)
    requires r.RegisterResp? || r.ResetPasswordResp?
    ensures Understood(r) && ResponseFits(r) && |ResponseBody(r)| < TWO_TO_32
  {
    hide Be16, Be32;
  }

  // ---- Accounts -----------------------------------------------------------------------------

  predicate Blank(fields: seq<Bytes>) {
    [] in fields
  }

  /** A registration is told success, with the generated key, exactly when no field is empty, the name is free (or
      seems so), and the row can be inserted; then there is one account more, with the hashes of its password and its
      answer; and otherwise nothing has changed. */
  lemma RegisterAnswered(s: State, e: Event, name: Bytes, password: Bytes, question: Bytes, answer: Bytes)
    requires RequestOf(s, e) == Some(Register(name, password, question, answer))
    ensures e.Dispatch?
    ensures var blank, taken := Blank([name, password, question, answer]), e.env.ok0 && name in s.db.users;
      var inserted := e.env.ok1 && name !in s.db.users && e.env.newId > 0 && !IsUser(s.db, e.env.newId);
      && (Told(s, e) == [RegisterResp(INVALID_REQUEST, 0)] <==> blank)
      && (Told(s, e) == [RegisterResp(USERNAME_EXISTS, 0)] <==> !blank && taken)
      && (Told(s, e) == [RegisterResp(DATABASE_ERROR, 0)] <==> !blank && !taken && !inserted)
      && (Told(s, e) == [RegisterResp(SUCCESS, e.env.newId)] <==> !blank && inserted)
      && Step(s, e).db == if blank || !inserted then s.db else
           s.db.(users := s.db.users[name := Account(e.env.newId, s.sha(password), question, s.sha(answer))])
  {
    hide ParseRequest, ResponseBody, ResponseFits, Step, Told, Owes, IsUser;
    ToldReply(s, e);
    StatusReplySmall(Decide(s, e.conn, RequestOf(s, e).value, e.env).reply);
    BlankOf4(name, password, question, answer);
  }

  lemma BlankOf4(a: Bytes, b: Bytes, c: Bytes, d: Bytes)
    ensures Blank([a, b, c, d]) <==> a == [] || b == [] || c == [] || d == []
    ensures Blank([a, b, c]) <==> a == [] || b == [] || c == []
  {
  }

  /** A password reset is told success exactly when no field is empty, both statements go through, the account exists
      and the answer has the stored hash; then the account's password hash has changed; and otherwise nothing has. */
  lemma ResetAnswered(s: State, e: Event, name: Bytes, password: Bytes, answer: Bytes)
    requires RequestOf(s, e) == Some(ResetPassword(name, password, answer))
    ensures e.Dispatch?
    ensures var blank, found := Blank([name, password, answer]), e.env.ok0 && name in s.db.users;
      var right := found && s.db.users[name].answerHash == s.sha(answer);
      && (Told(s, e) == [ResetPasswordResp(INVALID_REQUEST)] <==> blank)
      && (Told(s, e) == [ResetPasswordResp(USER_NOT_FOUND)] <==> !blank && !found)
      && (Told(s, e) == [ResetPasswordResp(INVALID_ANSWER)] <==> !blank && found && !right)
      && (Told(s, e) == [ResetPasswordResp(DATABASE_ERROR)] <==> !blank && right && !e.env.ok1)
      && (Told(s, e) == [ResetPasswordResp(SUCCESS)] <==> !blank && right && e.env.ok1)
      && Step(s, e).db == if blank || !right || !e.env.ok1 then s.db else
           s.db.(users := s.db.users[name := s.db.users[name].(hash := s.sha(password))])
  {
    hide ParseRequest, ResponseBody, ResponseFits, Step, Told, Owes;
    ToldReply(s, e);
    StatusReplySmall(Decide(s, e.conn, RequestOf(s, e).value, e.env).reply);
    BlankOf4(name, password, answer, answer);
  }

  /** A security question is told exactly when its account is found. */
  lemma QuestionAnswered(s: State, e: Event, name: Bytes)
    requires TablesInv(s.db) && RequestOf(s, e) == Some(SecurityQuestion(name))
    ensures e.Dispatch?
    ensures var found := e.env.ok0 && name in s.db.users;
      && (Told(s, e) == [SecurityQuestionResp(INVALID_REQUEST, [])] <==> name == [])
      && (Told(s, e) == [SecurityQuestionResp(USER_NOT_FOUND, [])] <==> name != [] && !found)
      && (forall q :: Told(s, e) == [SecurityQuestionResp(SUCCESS, q)] <==> name != [] && found && q == s.db.users[name].question)
      && Step(s, e).db == s.db
  {
    hide ParseRequest, ResponseBody, Step, Told, Owes;
    ToldReply(s, e);
    QuestionReplySmall(Decide(s, e.conn, RequestOf(s, e).value, e.env).reply);
  }

  lemma QuestionReplySmall(r: Response)
    requires r.SecurityQuestionResp? && Short(r.question)
    ensures Understood(r) && ResponseFits(r) && |ResponseBody(r)| < TWO_TO_32
  {
    hide Be16;
  }

  // ---- Friends, messages, versions ----------------------------------------------------------

  /** The codes with which an add-friend request is answered, and the rows it leaves. */
  lemma AddFriendAnswered(s: State, e: Event, friend: i32)
    requires RequestOf(s, e) == Some(AddFriend(friend))
    ensures e.Dispatch? && e.conn < |s.conns|
    ensures var user := s.conns[e.conn].userId;
      var known := e.env.ok0 && IsUser(s.db, friend);
      var added := known && e.env.ok1 && IsUser(s.db, user);
      && (Owes(s, e, AddFriendResp(PROTOCOL_ERROR)) <==> user == 0)
      && (Owes(s, e, AddFriendResp(CANNOT_ADD_SELF)) <==> user != 0 && user == friend)
      && (Owes(s, e, AddFriendResp(USER_NOT_FOUND)) <==> user != 0 && user != friend && !known)
      && (Owes(s, e, AddFriendResp(FRIEND_REQUEST_EXISTS)) <==> user != 0 && user != friend && known && !added)
      && (Owes(s, e, AddFriendResp(SUCCESS)) <==> user != 0 && user != friend && added)
      && Step(s, e).db == if user == 0 || user == friend || !added then s.db else
           s.db.(friends := s.db.friends + multiset{(user, friend)} + if e.env.ok2 then multiset{(friend, user)} else multiset{})
  {
    hide ParseRequest, ResponseBytes, Step, IsUser;
    ToldReply(s, e);
    var reply := Decide(s, e.conn, RequestOf(s, e).value, e.env).reply;
    forall code: u16 ensures Owes(s, e, AddFriendResp(code)) <==> reply == AddFriendResp(code) {
      if Owes(s, e, AddFriendResp(code)) {
        DistinctPackets(reply, AddFriendResp(code));
      }
    }
    SameUsers(s, s.conns[e.conn].userId, friend);
  }

  lemma SameUsers(s: State, user: i32, friend: i32)
    ensures forall rows :: IsUser(s.db.(friends := rows), user) == IsUser(s.db, user)
    ensures forall rows :: IsUser(s.db.(friends := rows), friend) == IsUser(s.db, friend)
  {
  }

  /** A message is answered with its key exactly when it is stored. */
  lemma MessageAnswered(s: State, e: Event, to: i32, content: Bytes)
    requires RequestOf(s, e) == Some(SendMessage(to, content))
    ensures e.Dispatch? && e.conn < |s.conns|
    ensures var user := s.conns[e.conn].userId;
      && (Owes(s, e, MessageResp(PROTOCOL_ERROR, 0)) <==> user == 0)
      && (Owes(s, e, MessageResp(DATABASE_ERROR, 0)) <==> user != 0 && Stores(s, e) == None)
      && (Owes(s, e, MessageResp(SUCCESS, e.env.newId)) <==> Stores(s, e) == Some(Message(user, to, content)))
      && Step(s, e).db == s.db.(messages := s.db.messages + if Stores(s, e).Some? then [Message(user, to, content)] else [])
  {
    hide ParseRequest, ResponseBytes, Step, IsUser;
    ToldReply(s, e);
    var reply := Decide(s, e.conn, RequestOf(s, e).value, e.env).reply;
    forall code: u16, id: i32 ensures Owes(s, e, MessageResp(code, id)) <==> reply == MessageResp(code, id) {
      if Owes(s, e, MessageResp(code, id)) {
        DistinctPackets(reply, MessageResp(code, id));
      }
    }
    assert s.db.messages + [] == s.db.messages;
  }

  /** A friend list is told, with the rows the query returns, exactly to a connection with a user; to others, and when
      the query fails, the client's decoder tells nothing. */
  lemma FriendListAnswered(s: State, e: Event)
    requires RequestOf(s, e) == Some(FriendList)
    ensures e.Dispatch? && e.conn < |s.conns|
    ensures var user := s.conns[e.conn].userId;
      && (user == 0 ==> Owes(s, e, FriendListResp(PROTOCOL_ERROR, [])))
      && (user != 0 && !e.env.ok0 ==> Owes(s, e, FriendListResp(DATABASE_ERROR, [])))
      && (user != 0 && e.env.ok0 ==> Owes(s, e, FriendListResp(SUCCESS, e.env.rows)))
      && (ResponseFits(FriendListResp(SUCCESS, e.env.rows)) && |Entries(e.env.rows)| < TWO_TO_32 - 6 ==>
            Told(s, e) == if user != 0 && e.env.ok0 then [FriendListResp(SUCCESS, e.env.rows)] else [])
      && Step(s, e).db == s.db
  {
    hide ParseRequest, ResponseBytes, Step, Be16, Be32, Entries, Client.Callbacks, Client.Callback;
    ToldReply(s, e);
    RefusedList(PROTOCOL_ERROR);
    RefusedList(DATABASE_ERROR);
  }

  lemma RefusedList(code: u16)
    requires code != SUCCESS
    ensures Client.Callbacks([ResponseBytes(FriendListResp(code, []))]) == []
  {
    hide ResponseBytes, Client.Callbacks, Client.Callback, Be16, Be32, Entries, EntriesFrom;
    var r := FriendListResp(code, []);
    var body := ResponseBody(r);
    assert body[0..0 + 2] == Be16(code);
    Read16Exact(body, 0, code);
    Client.CallbacksOne(ResponseBytes(r));
    Client.CallbackSound(r);
  }

  /** A version check is always told the same. */
  lemma VersionAnswered(s: State, e: Event, version: i32)
    requires RequestOf(s, e) == Some(VersionCheck(version))
    ensures e.Dispatch?
    ensures Told(s, e) == [VersionCheckResp(SUCCESS, 2, UPDATE_URL, UPDATE_DESC)] && Step(s, e).db == s.db
  {
    hide ParseRequest, Step, Told, Owes, Ascii, Be16, Be32;
    ToldReply(s, e);
  }

  // ---- Everything a step posts --------------------------------------------------------------

  /** A step posts the notification of a stored message to the session its addressee is reached on, and then what it owes
      its sender; and nothing else to anybody. */
  lemma PostedExact(s: State, e: Event, d: nat)
    requires d < |s.conns|
    ensures d < |Step(s, e).conns|
    ensures Step(s, e).conns[d].chan.posted == s.conns[d].chan.posted
      + (match Stores(s, e)
         case Some(m) => if Target(s, m.toId) == Some(d) then [ResponseBytes(Notify(m.fromId, m.content, e.env.now))] else []
         case None => [])
      + OwedBy(s, e, d)
  {
    hide ParseRequest, Decide, ResponseBytes, Step, RequestOf, Stores;
    PostedStep(s, e, d);
    StoresIsDispatch(s, e);
    if RequestOf(s, e).Some? {
      StoresExact(s, e);
    }
  }

  // ---- Histories ----------------------------------------------------------------------------

  /** The security question and the hash of its answer, as stored. */
  function SecretOf(db: Tables, name: Bytes): Option<(Bytes, Bytes)> {
    if name in db.users then Some((db.users[name].question, db.users[name].answerHash)) else None
  }

  /** Question and answer of a registration for `name` that is told success. */
  function RegisteredBy(s: State, e: Event, name: Bytes): Option<(Bytes, Bytes)> {
    match RequestOf(s, e)
    case Some(Register(n, _, question, answer)) =>
      if e.Dispatch? && n == name && Told(s, e) == [RegisterResp(SUCCESS, e.env.newId)] then Some((question, answer)) else None
    case _ => None
  }

  /** The last such, its answer hashed, or what there was at the start. */
  function Registered(s: State, es: seq<Event>, name: Bytes): Option<(Bytes, Bytes)> {
    if es == [] then SecretOf(s.db, name)
    else
      match RegisteredBy(Run(s, es[..|es| - 1]), es[|es| - 1], name)
      case Some(qa) => Some((qa.0, s.sha(qa.1)))
      case None => Registered(s, es[..|es| - 1], name)
  }

  lemma SecretOfStep(s: State, e: Event, name: Bytes)
    ensures SecretOf(Step(s, e).db, name) ==
      match RegisteredBy(s, e, name) case Some(qa) => Some((qa.0, s.sha(qa.1))) case None => SecretOf(s.db, name)
  {
    hide ParseRequest, Told, Step, RequestOf;
    match RequestOf(s, e)
    case Some(Register(n, p, q, a)) => RegisterAnswered(s, e, n, p, q, a);
    case Some(ResetPassword(n, p, a)) => ResetAnswered(s, e, n, p, a);
    case _ => OtherUsers(s, e);
  }

  /** Only these two requests touch the accounts. */
  lemma OtherUsers(s: State, e: Event)
    requires RequestOf(s, e).Some? ==> !RequestOf(s, e).value.Register? && !RequestOf(s, e).value.ResetPassword?
    ensures Step(s, e).db.users == s.db.users
  {
    hide ParseRequest, Decide, Channel.Do;
    if e.Dispatch? {
      RequestStep(s, e);
      if RequestOf(s, e).Some? {
        OtherDecisions(s, e.conn, RequestOf(s, e).value, e.env);
      }
    }
  }

  lemma OtherDecisions(s: State, c: nat, r: Request, env: Env)
    requires c < |s.conns| && !r.Register? && !r.ResetPassword?
    ensures Decide(s, c, r, env).db.users == s.db.users
  {
    hide IsUser;
  }

  /** Over every run: the stored question and answer of an account are those of the registration for its name that was
      told success, or the initial ones; nothing else changes them. */
  lemma {:induction false} SecretsFollowRegistrations(s: State, es: seq<Event>, name: Bytes)
    ensures SecretOf(Run(s, es).db, name) == Registered(s, es, name) && Run(s, es).sha == s.sha
  {
    hide Step, RegisteredBy;
    if es != [] {
      var before, e := Run(s, es[..|es| - 1]), es[|es| - 1];
      SecretsFollowRegistrations(s, es[..|es| - 1], name);
      SecretOfStep(before, e, name);
      ShaConstant(before, e);
    }
  }

  /** Over every run: a reset is told success exactly when no field is empty, both statements go through, and its answer
      has the hash of the answer given when the name was registered. */
  lemma ResetNeedsAnswer(s: State, es: seq<Event>, e: Event, name: Bytes, password: Bytes, answer: Bytes)
    requires RequestOf(Run(s, es), e) == Some(ResetPassword(name, password, answer))
    ensures e.Dispatch?
    ensures Told(Run(s, es), e) == [ResetPasswordResp(SUCCESS)] <==>
      && !Blank([name, password, answer]) && e.env.ok0 && e.env.ok1
      && Registered(s, es, name).Some? && Registered(s, es, name).value.1 == s.sha(answer)
  {
    hide ParseRequest, Told, Step, RequestOf, Run, Registered, Blank;
    SecretsFollowRegistrations(s, es, name);
    ResetAnswered(Run(s, es), e, name, password, answer);
  }

  /** Over every run: what an account's question request is told is the question of its registration. */
  lemma QuestionIsRegistered(db: Tables, sha: Bytes -> Bytes, es: seq<Event>, e: Event, name: Bytes, question: Bytes)
    requires TablesInv(db) && RequestOf(Run(Init(db, sha), es), e) == Some(SecurityQuestion(name))
    ensures e.Dispatch?
    ensures Told(Run(Init(db, sha), es), e) == [SecurityQuestionResp(SUCCESS, question)] <==>
      && name != [] && e.env.ok0
      && Registered(Init(db, sha), es, name).Some? && Registered(Init(db, sha), es, name).value.0 == question
  {
    hide ParseRequest, Told, Step, RequestOf, Run, Registered, TablesInv;
    TablesInvOverRuns(Init(db, sha), es);
    SecretsFollowRegistrations(Init(db, sha), es, name);
    QuestionAnswered(Run(Init(db, sha), es), e, name);
  }
}
