/** The server as a state machine: connections, the index from users to connections, the tables and the unread
    counters.  One thread runs every handler, so a handler is one step. */
module Session {
  import opened ByteOrder
  import opened Grammar
  import opened Parsing
  import opened Framing
  import Channel

  // ---- State ------------------------------------------------------------------------------

  /** Connection ids are the positions in `conns`: every accepted connection gets a new one. */
  datatype Conn = Conn(userId: i32, reading: bool, chan: Channel.Channel)

  datatype Account = Account(id: i32, hash: Bytes, question: Bytes, answerHash: Bytes)
  datatype Message = Message(fromId: i32, toId: i32, content: Bytes)

  datatype Tables = Tables(users: map<Bytes, Account>, messages: seq<Message>, friends: multiset<(i32, i32)>)

  /** `live` holds the keys of `connections_`; `index` is `user_to_conn_`; `sha` stands for SHA-256. */
  datatype State = State(
    conns: seq<Conn>, live: set<nat>, index: map<i32, nat>,
    db: Tables, unread: map<i32, nat>, sha: Bytes -> Bytes)

  /** What the outside world decides during one request: which of its database calls, in order, go through,
      whether the cache does, the clock, the key the database generates, and the rows a friend query returns. */
  datatype Env = Env(ok0: bool, ok1: bool, ok2: bool, cacheOk: bool, now: i64, newId: i32, rows: seq<Friend>)

  datatype Event =
    | Accept
    | Dispatch(conn: nat, packet: Packet, env: Env)   // the read chain has a whole packet
    | ReadFail(conn: nat)                             // a read error, end of file, or a length out of range
    | WriteFail(conn: nat)                            // the outstanding write fails
    | Traffic(conn: nat, step: Channel.Step)          // the channel makes progress
    | StopAll

  // ---- Tables -----------------------------------------------------------------------------

  predicate IsUser(db: Tables, id: i32) {
    exists name :: name in db.users && db.users[name].id == id
  }

  /** Generated keys are positive and unique, and a stored question fits its length field. */
  predicate TablesInv(db: Tables) {
    && (forall n | n in db.users :: db.users[n].id > 0 && Short(db.users[n].question))
    && (forall n, m | n in db.users && m in db.users && db.users[n].id == db.users[m].id :: n == m)
  }

  function Verify(db: Tables, sha: Bytes -> Bytes, name: Bytes, password: Bytes, ok: bool): Option<i32> {
    if ok && name in db.users && db.users[name].hash == sha(password) then Some(db.users[name].id) else None
  }

  /** The foreign keys make an insert naming an unknown user fail. */
  function InsertMessage(db: Tables, m: Message, ok: bool): Option<Tables> {
    if ok && IsUser(db, m.fromId) && IsUser(db, m.toId) then Some(db.(messages := db.messages + [m])) else None
  }

  function InsertFriend(db: Tables, user: i32, friend: i32, ok: bool): Option<Tables> {
    if ok && IsUser(db, user) && IsUser(db, friend) then Some(db.(friends := db.friends + multiset{(user, friend)})) else None
  }

  function InsertUser(db: Tables, name: Bytes, a: Account, ok: bool): Option<Tables> {
    if ok && name !in db.users && a.id > 0 && !IsUser(db, a.id) then Some(db.(users := db.users[name := a])) else None
  }

  function UpdateHash(db: Tables, name: Bytes, hash: Bytes): Tables {
    if name in db.users then db.(users := db.users[name := db.users[name].(hash := hash)]) else db
  }

  // ---- Handlers ---------------------------------------------------------------------------

  const SERVER_APP_VERSION: i32 := 2

  function Ascii(s: string): (r: Bytes)
    ensures |r| == |s|
  {
    seq(|s|, i requires 0 <= i < |s| => s[i] as int % 0x100)
  }

  const UPDATE_URL: Bytes := Ascii("https://github.com/lobster-xiaozhua/qq-copy/releases")

  /** The UTF-8 bytes of the sixteen-character update notice. */
  const UPDATE_DESC: Bytes := [
    0xE6, 0x96, 0xB0, 0xE7, 0x89, 0x88, 0xE6, 0x9C, 0xAC, 0xE5, 0x8F, 0xAF, 0xE7, 0x94, 0xA8, 0xEF,
    0xBC, 0x8C, 0xE8, 0xAF, 0xB7, 0xE4, 0xB8, 0x8B, 0xE8, 0xBD, 0xBD, 0xE6, 0x9C, 0x80, 0xE6, 0x96,
    0xB0, 0xE5, 0xAE, 0x89, 0xE8, 0xA3, 0x85, 0xE5, 0x8C, 0x85, 0xE6, 0x9B, 0xB4, 0xE6, 0x96, 0xB0]

  /** What one request makes the server do: possibly bind the connection to a user, change the tables, notify the
      connection of a user or bump that user's unread counter, and in every case reply. */
  datatype Effect = Effect(login: Option<i32>, db: Tables, notify: Option<(i32, Response)>, unread: Option<i32>, reply: Response)

  function JustReply(s: State, r: Response): Effect {
    Effect(None, s.db, None, None, r)
  }

  function HandleLogin(s: State, name: Bytes, password: Bytes, env: Env): Effect {
    match Verify(s.db, s.sha, name, password, env.ok0)
    case None => JustReply(s, LoginResp(USER_NOT_FOUND, 0, []))
    case Some(id) =>
      if id in s.index then JustReply(s, LoginResp(USER_ALREADY_ONLINE, 0, []))
      else Effect(Some(id), s.db, None, None, LoginResp(SUCCESS, id, name))
  }

  function HandleChat(s: State, from: i32, to: i32, content: Bytes, env: Env): Effect {
    if from == 0 then JustReply(s, MessageResp(PROTOCOL_ERROR, 0))
    else match InsertMessage(s.db, Message(from, to, content), env.ok0)
      case None => JustReply(s, MessageResp(DATABASE_ERROR, 0))
      case Some(db) =>
        var reply := MessageResp(SUCCESS, env.newId);
        if to in s.index then Effect(None, db, Some((to, Notify(from, content, env.now))), None, reply)
        else Effect(None, db, None, if env.cacheOk then Some(to) else None, reply)
  }

  function HandleFriendList(s: State, user: i32, env: Env): Effect {
    if user == 0 then JustReply(s, FriendListResp(PROTOCOL_ERROR, []))
    else if !env.ok0 then JustReply(s, FriendListResp(DATABASE_ERROR, []))
    else JustReply(s, FriendListResp(SUCCESS, env.rows))
  }

  /** Two rows, one in each direction; the result of the second insert is ignored. */
  function HandleAddFriend(s: State, user: i32, friend: i32, env: Env): Effect {
    if user == 0 then JustReply(s, AddFriendResp(PROTOCOL_ERROR))
    else if user == friend then JustReply(s, AddFriendResp(CANNOT_ADD_SELF))
    else if !(env.ok0 && IsUser(s.db, friend)) then JustReply(s, AddFriendResp(USER_NOT_FOUND))
    else match InsertFriend(s.db, user, friend, env.ok1)
      case None => JustReply(s, AddFriendResp(FRIEND_REQUEST_EXISTS))
      case Some(db1) =>
        var db2 := match InsertFriend(db1, friend, user, env.ok2) case None => db1 case Some(d) => d;
        Effect(None, db2, None, None, AddFriendResp(SUCCESS))
  }

  function HandleRegister(s: State, name: Bytes, password: Bytes, question: Bytes, answer: Bytes, env: Env): Effect {
    if name == [] || password == [] || question == [] || answer == [] then JustReply(s, RegisterResp(INVALID_REQUEST, 0))
    else if env.ok0 && name in s.db.users then JustReply(s, RegisterResp(USERNAME_EXISTS, 0))
    else match InsertUser(s.db, name, Account(env.newId, s.sha(password), question, s.sha(answer)), env.ok1)
      case None => JustReply(s, RegisterResp(DATABASE_ERROR, 0))
      case Some(db) => Effect(None, db, None, None, RegisterResp(SUCCESS, env.newId))
  }

  function HandleSecurityQuestion(s: State, name: Bytes, env: Env): Effect {
    if name == [] then JustReply(s, SecurityQuestionResp(INVALID_REQUEST, []))
    else if !(env.ok0 && name in s.db.users) then JustReply(s, SecurityQuestionResp(USER_NOT_FOUND, []))
    else JustReply(s, SecurityQuestionResp(SUCCESS, s.db.users[name].question))
  }

  function HandleResetPassword(s: State, name: Bytes, password: Bytes, answer: Bytes, env: Env): Effect {
    if name == [] || password == [] || answer == [] then JustReply(s, ResetPasswordResp(INVALID_REQUEST))
    else if !(env.ok0 && name in s.db.users) then JustReply(s, ResetPasswordResp(USER_NOT_FOUND))
    else if s.sha(answer) != s.db.users[name].answerHash then JustReply(s, ResetPasswordResp(INVALID_ANSWER))
    else if !env.ok1 then JustReply(s, ResetPasswordResp(DATABASE_ERROR))
    else Effect(None, UpdateHash(s.db, name, s.sha(password)), None, None, ResetPasswordResp(SUCCESS))
  }

  function Decide(s: State, c: nat, r: Request, env: Env): Effect
    requires c < |s.conns|
  {
    match r
    case Login(u, p) => HandleLogin(s, u, p, env)
    case SendMessage(to, content) => HandleChat(s, s.conns[c].userId, to, content, env)
    case FriendList => HandleFriendList(s, s.conns[c].userId, env)
    case AddFriend(f) => HandleAddFriend(s, s.conns[c].userId, f, env)
    case Register(u, p, q, a) => HandleRegister(s, u, p, q, a, env)
    case SecurityQuestion(u) => HandleSecurityQuestion(s, u, env)
    case ResetPassword(u, p, a) => HandleResetPassword(s, u, p, a, env)
    case VersionCheck(_) =>
      JustReply(s, VersionCheckResp(SUCCESS, SERVER_APP_VERSION, UPDATE_URL, UPDATE_DESC))
  }

  // ---- Steps ------------------------------------------------------------------------------

  /** `Connection::send` of a response on connection `c`. */
  function Send(conns: seq<Conn>, c: nat, r: Response): (next: seq<Conn>)
    requires c < |conns|
    ensures |next| == |conns|
  {
    conns[c := conns[c].(chan := Channel.Do(conns[c].chan, Channel.Post(ResponseBytes(r))))]
  }

  /** Where `send_to_user` delivers: nowhere when the user is not in the index, or when the index names a
      connection that has left `connections_`. */
  function Target(s: State, user: i32): Option<nat> {
    if user in s.index && s.index[user] in s.live && s.index[user] < |s.conns| then Some(s.index[user]) else None
  }

  function Bind(s: State, c: nat, user: i32): State
    requires c < |s.conns|
  {
    s.(conns := s.conns[c := s.conns[c].(userId := user)], index := s.index[user := c])
  }

  function NotifyUser(s: State, user: i32, r: Response): State {
    match Target(s, user)
    case None => s
    case Some(t) => s.(conns := Send(s.conns, t, r))
  }

  function UnreadCount(s: State, user: i32): nat {
    if user in s.unread then s.unread[user] else 0
  }

  function Apply(s: State, c: nat, e: Effect): (r: State)
    requires c < |s.conns|
    ensures |r.conns| == |s.conns|
  {
    var s1 := if e.login.Some? then Bind(s, c, e.login.value) else s;
    var s2 := s1.(db := e.db);
    var s3 := if e.notify.Some? then NotifyUser(s2, e.notify.value.0, e.notify.value.1) else s2;
    var s4 := if e.unread.Some? then s3.(unread := s3.unread[e.unread.value := UnreadCount(s3, e.unread.value) + 1]) else s3;
    s4.(conns := Send(s4.conns, c, e.reply))
  }

  /** `ConnectionManager::stop`. */
  function Stop(s: State, c: nat): State
    requires c < |s.conns|
  {
    var u := s.conns[c].userId;
    s.(live := s.live - {c}, index := if u != 0 then s.index - {u} else s.index)
  }

  predicate CanDispatch(s: State, e: Event)
    requires e.Dispatch?
  {
    e.conn < |s.conns| && s.conns[e.conn].reading && InRange(|e.packet.data|)
  }

  function Step(s: State, e: Event): State {
    match e
    case Accept =>
      s.(conns := s.conns + [Conn(0, true, Channel.EMPTY)], live := s.live + {|s.conns|})
    case Dispatch(c, packet, env) =>
      if !CanDispatch(s, e) then s
      else (match ParseRequest(packet.command, packet.data)
            case Accepted(r) => Apply(s, c, Decide(s, c, r, env))
            case Rejected => s
            case OverRead => s)
    case ReadFail(c) =>
      if c < |s.conns| && s.conns[c].reading then
        Stop(s.(conns := s.conns[c := s.conns[c].(reading := false)]), c)
      else s
    case WriteFail(c) =>
      if c < |s.conns| && s.conns[c].chan.outstanding != [] then
        Stop(s.(conns := s.conns[c := s.conns[c].(chan := Channel.Do(s.conns[c].chan, Channel.WriteError))]), c)
      else s
    case Traffic(c, step) =>
      if c < |s.conns| && !step.Post? && !step.WriteError? then
        s.(conns := s.conns[c := s.conns[c].(chan := Channel.Do(s.conns[c].chan, step))])
      else s
    case StopAll => s.(live := {}, index := map[])
  }

  function Run(s: State, es: seq<Event>): State {
    if es == [] then s else Step(Run(s, es[..|es| - 1]), es[|es| - 1])
  }

  function Init(db: Tables, sha: Bytes -> Bytes): State {
    State([], {}, map[], db, map[], sha)
  }

  // ---- What a request can do --------------------------------------------------------------

  /** The request a step serves, if it is a dispatch that decodes. */
  function RequestOf(s: State, e: Event): Option<Request> {
    if e.Dispatch? && CanDispatch(s, e) && ParseRequest(e.packet.command, e.packet.data).Accepted?
    then Some(ParseRequest(e.packet.command, e.packet.data).value) else None
  }

  lemma RequestStep(s: State, e: Event)
    ensures e.Dispatch? ==>
      match RequestOf(s, e)
      case None => Step(s, e) == s
      case Some(r) => e.conn < |s.conns| && Step(s, e) == Apply(s, e.conn, Decide(s, e.conn, r, e.env))
  {
    hide ParseRequest, Decide, Apply;
  }

  /** A decision binds only a verified user who is not in the index, and then does nothing else but reply. */
  lemma LoginFacts(s: State, c: nat, r: Request, env: Env)
    requires c < |s.conns| && TablesInv(s.db)
    ensures var e := Decide(s, c, r, env);
      e.login.Some? ==>
        && e.login.value > 0 && e.login.value !in s.index && r.Login?
        && r.username in s.db.users && s.db.users[r.username].id == e.login.value
        && s.db.users[r.username].hash == s.sha(r.password)
        && e.db == s.db && e.notify == None && e.unread == None
  {
  }

  /** Either the message table is untouched and nobody is notified or counted, or one message from the user of
      this connection is stored and its addressee is notified when in the index, and counted when not. */
  lemma ChatFacts(s: State, c: nat, r: Request, env: Env)
    requires c < |s.conns|
    ensures var e := Decide(s, c, r, env);
      || (e.db.messages == s.db.messages && e.notify == None && e.unread == None)
      || (&& r.SendMessage? && e.login == None && s.conns[c].userId != 0
          && e.db.messages == s.db.messages + [Message(s.conns[c].userId, r.toId, r.content)]
          && e.notify == (if r.toId in s.index then Some((r.toId, Notify(s.conns[c].userId, r.content, env.now))) else None)
          && e.unread == if r.toId !in s.index && env.cacheOk then Some(r.toId) else None)
  {
  }

  lemma ReplyCommand(s: State, c: nat, r: Request, env: Env)
    requires c < |s.conns|
    ensures ResponseCommand(Decide(s, c, r, env).reply) == RequestCommand(r) + 1
  {
  }

  lemma TablesStep(s: State, c: nat, r: Request, env: Env)
    requires c < |s.conns| && TablesInv(s.db) && RequestFits(r)
    ensures TablesInv(Decide(s, c, r, env).db)
  {
  }
}
