/** The message handler: one method per request, updating sessions, tables and counters step by step and sending
    the reply, and the read chain that feeds it. */
module Handlers {
  import opened ByteOrder
  import opened Grammar
  import opened Parsing
  import opened Framing
  import Session
  import opened Server
  import Channel
  import ServerCodec

  class MessageHandler {
    const manager: ConnectionManager
    const db: Database
    const cache: Cache
    const sha: Bytes -> Bytes
    /** Every connection ever accepted, in order of acceptance. */
    ghost var all: seq<Connection>

    constructor (t: Session.Tables, sha: Bytes -> Bytes)
      ensures Shows(Session.Init(t, sha))
      ensures fresh(manager) && fresh(db) && fresh(cache)
    {
      manager := new ConnectionManager();
      db := new Database(t);
      cache := new Cache();
      this.sha := sha;
      all := [];
    }

    /** The objects are in state `s`. */
    ghost predicate Shows(s: Session.State)
      reads this, manager, db, cache, all
    {
      && |all| == |s.conns| && (forall i | 0 <= i < |all| :: all[i].connId == i && all[i].Shows(s.conns[i]))
      && manager.connections.Keys == s.live && manager.userToConn == s.index
      && (forall k | k in manager.connections :: k < |all| && manager.connections[k] == all[k])
      && db.Contents() == s.db && cache.unread == s.unread && sha == s.sha
    }

    /** `conn` is connection number `c` of state `s`. */
    ghost predicate IsConn(s: Session.State, c: nat, conn: Connection)
      reads this, manager, db, cache, all
    {
      Shows(s) && c < |s.conns| && all[c] == conn
    }

    lemma ConnShown(s: Session.State, c: nat, conn: Connection)
      requires IsConn(s, c, conn)
      ensures Shows(s) && c < |s.conns| && conn in all && conn.connId == c
      ensures conn.reading == s.conns[c].reading && conn.userId == s.conns[c].userId
    {
    }

    method Accept(ghost s: Session.State, id: nat) returns (conn: Connection)
      requires Shows(s) && id == |s.conns|
      modifies this`all, manager
      ensures Shows(Session.Step(s, Session.Accept))
      ensures fresh(conn) && conn.reading && all == old(all) + [conn]
    {
      conn := new Connection(id);
      all := all + [conn];
      manager.Start(conn);
    }

    method SendResponse(conn: Connection, command: u16, data: Bytes, ghost s: Session.State, ghost c: nat, ghost r: Response)
      requires IsConn(s, c, conn) && command == ResponseCommand(r) && data == ResponseBody(r)
      modifies conn`pending
      ensures IsConn(s.(conns := Session.Send(s.conns, c, r)), c, conn)
    {
      hide ResponseBody, ResponseCommand, Encode;
      var encoded := ServerCodec.EncodePacket(Packet(VERSION, command, data));
      conn.Send(encoded);
    }

    method BindUser(conn: Connection, id: i32, ghost s: Session.State, ghost c: nat)
      requires IsConn(s, c, conn)
      modifies manager`userToConn, conn`userId
      ensures IsConn(Session.Bind(s, c, id), c, conn)
    {
      conn.SetUserId(id);
      manager.SetUserConnection(id, conn.connId);
    }

    method HandleLogin(conn: Connection, name: Bytes, password: Bytes, env: Session.Env, ghost s: Session.State, ghost c: nat)
      requires IsConn(s, c, conn)
      modifies manager`userToConn, conn`userId, conn`pending
      ensures IsConn(Session.Apply(s, c, Session.HandleLogin(s, name, password, env)), c, conn)
    {
      hide ResponseBody, Encode, Session.Send;
      var user := db.VerifyUser(name, password, sha, env.ok0);
      if user == None {
        var data := ServerCodec.EncodeLoginResponse(USER_NOT_FOUND, 0, []);
        SendResponse(conn, LOGIN_RESP, data, s, c, LoginResp(USER_NOT_FOUND, 0, []));
        return;
      }
      var id := user.value;
      var online := manager.IsUserOnline(id);
      if online {
        var data := ServerCodec.EncodeLoginResponse(USER_ALREADY_ONLINE, 0, []);
        SendResponse(conn, LOGIN_RESP, data, s, c, LoginResp(USER_ALREADY_ONLINE, 0, []));
        return;
      }
      BindUser(conn, id, s, c);
      ghost var s1 := Session.Bind(s, c, id);
      var data := ServerCodec.EncodeLoginResponse(SUCCESS, id, name);
      SendResponse(conn, LOGIN_RESP, data, s1, c, LoginResp(SUCCESS, id, name));
    }

    /** `send_to_user` as the state machine has it. */
    method NotifyUser(to: i32, encoded: Bytes, ghost r: Response, ghost s: Session.State)
      requires Shows(s) && encoded == ResponseBytes(r)
      modifies all`pending
      ensures Shows(Session.NotifyUser(s, to, r))
    {
      hide ResponseBytes;
      ghost var t := Session.Target(s, to);
      assert manager.Addressee(to) == if t.Some? then {all[t.value]} else {};
      var sent := manager.SendToUser(to, encoded);
    }

    method HandleChatMessage(conn: Connection, to: i32, content: Bytes, env: Session.Env, ghost s: Session.State, ghost c: nat)
      requires IsConn(s, c, conn)
      modifies db, cache, all`pending
      ensures IsConn(Session.Apply(s, c, Session.HandleChat(s, s.conns[c].userId, to, content, env)), c, conn)
    {
      hide ResponseBody, Encode, Session.Send, Session.IsUser;
      var from := conn.userId;
      if from == 0 {
        var data := ServerCodec.EncodeStatusAndId(PROTOCOL_ERROR, 0);
        SendResponse(conn, MESSAGE_RESP, data, s, c, MessageResp(PROTOCOL_ERROR, 0));
        return;
      }
      var stored := db.SendMessage(Session.Message(from, to, content), env.ok0);
      if !stored {
        var data := ServerCodec.EncodeStatusAndId(DATABASE_ERROR, 0);
        SendResponse(conn, MESSAGE_RESP, data, s, c, MessageResp(DATABASE_ERROR, 0));
        return;
      }
      ghost var s1 := s.(db := db.Contents());
      ChatApplied(s, c, to, content, env, s1.db);
      hide Delivered, Session.Apply, Session.HandleChat, Session.InsertMessage;
      Deliver(from, to, content, env, s1);
      ghost var s2 := Delivered(s1, from, to, content, env);
      var data := ServerCodec.EncodeStatusAndId(SUCCESS, env.newId);
      SendResponse(conn, MESSAGE_RESP, data, s2, c, MessageResp(SUCCESS, env.newId));
    }

    /** A stored message is pushed to the addressee's connection or counted as unread. */
    method Deliver(from: i32, to: i32, content: Bytes, env: Session.Env, ghost s: Session.State)
      requires Shows(s)
      modifies cache, all`pending
      ensures Shows(Delivered(s, from, to, content, env))
    {
      hide ResponseBody, Encode, Session.NotifyUser;
      var online := manager.IsUserOnline(to);
      if online {
        var notifyData := ServerCodec.EncodeMessageNotify(from, content, env.now);
        var encoded := ServerCodec.EncodePacket(Packet(VERSION, MESSAGE_NOTIFY, notifyData));
        NotifyUser(to, encoded, Notify(from, content, env.now), s);
      } else {
        cache.IncrementUnread(to, env.cacheOk);
      }
    }

    method HandleFriendList(conn: Connection, env: Session.Env, ghost s: Session.State, ghost c: nat)
      requires IsConn(s, c, conn)
      modifies conn`pending
      ensures IsConn(Session.Apply(s, c, Session.HandleFriendList(s, s.conns[c].userId, env)), c, conn)
    {
      hide ResponseBody, Encode, Session.Send;
      var user := conn.userId;
      if user == 0 {
        var data := ServerCodec.EncodeFriendListResponse(PROTOCOL_ERROR, []);
        SendResponse(conn, FRIEND_LIST_RESP, data, s, c, FriendListResp(PROTOCOL_ERROR, []));
        return;
      }
      if !env.ok0 {
        var data := ServerCodec.EncodeFriendListResponse(DATABASE_ERROR, []);
        SendResponse(conn, FRIEND_LIST_RESP, data, s, c, FriendListResp(DATABASE_ERROR, []));
        return;
      }
      var data := ServerCodec.EncodeFriendListResponse(SUCCESS, env.rows);
      SendResponse(conn, FRIEND_LIST_RESP, data, s, c, FriendListResp(SUCCESS, env.rows));
    }

    method HandleAddFriend(conn: Connection, friend: i32, env: Session.Env, ghost s: Session.State, ghost c: nat)
      requires IsConn(s, c, conn)
      modifies db, conn`pending
      ensures IsConn(Session.Apply(s, c, Session.HandleAddFriend(s, s.conns[c].userId, friend, env)), c, conn)
    {
      hide ResponseBody, Encode, Session.Send, Session.IsUser, Session.Apply, Session.InsertFriend;
      PlainEffects(s, c);
      var user := conn.userId;
      if user == 0 {
        var data := ServerCodec.EncodeStatus(PROTOCOL_ERROR);
        SendResponse(conn, ADD_FRIEND_RESP, data, s, c, AddFriendResp(PROTOCOL_ERROR));
        return;
      }
      if user == friend {
        var data := ServerCodec.EncodeStatus(CANNOT_ADD_SELF);
        SendResponse(conn, ADD_FRIEND_RESP, data, s, c, AddFriendResp(CANNOT_ADD_SELF));
        return;
      }
      var known := db.GetUserById(friend, env.ok0);
      if !known {
        var data := ServerCodec.EncodeStatus(USER_NOT_FOUND);
        SendResponse(conn, ADD_FRIEND_RESP, data, s, c, AddFriendResp(USER_NOT_FOUND));
        return;
      }
      var added := AddBothWays(user, friend, env, s);
      if !added {
        var data := ServerCodec.EncodeStatus(FRIEND_REQUEST_EXISTS);
        SendResponse(conn, ADD_FRIEND_RESP, data, s, c, AddFriendResp(FRIEND_REQUEST_EXISTS));
        return;
      }
      ghost var s1 := s.(db := db.Contents());
      var data := ServerCodec.EncodeStatus(SUCCESS);
      SendResponse(conn, ADD_FRIEND_RESP, data, s1, c, AddFriendResp(SUCCESS));
    }

    /** The two inserts; the second one's result is ignored. */
    method AddBothWays(user: i32, friend: i32, env: Session.Env, ghost s: Session.State) returns (added: bool)
      requires Shows(s)
      modifies db
      ensures Shows(s.(db := db.Contents()))
      ensures match Session.InsertFriend(s.db, user, friend, env.ok1)
        case None => !added && db.Contents() == s.db
        case Some(db1) =>
          var second := Session.InsertFriend(db1, friend, user, env.ok2);
          added && db.Contents() == if second.Some? then second.value else db1
    {
      hide Session.InsertFriend;
      added := db.AddFriend(user, friend, env.ok1);
      if added {
        var ignored := db.AddFriend(friend, user, env.ok2);
      }
    }

    method HandleRegister(conn: Connection, name: Bytes, password: Bytes, question: Bytes, answer: Bytes, env: Session.Env,
                          ghost s: Session.State, ghost c: nat)
      requires IsConn(s, c, conn)
      modifies db, conn`pending
      ensures IsConn(Session.Apply(s, c, Session.HandleRegister(s, name, password, question, answer, env)), c, conn)
    {
      hide ResponseBody, Encode, Session.Send, Session.IsUser, Session.Apply, Session.InsertUser;
      PlainEffects(s, c);
      if name == [] || password == [] || question == [] || answer == [] {
        var data := ServerCodec.EncodeStatusAndId(INVALID_REQUEST, 0);
        SendResponse(conn, REGISTER_RESP, data, s, c, RegisterResp(INVALID_REQUEST, 0));
        return;
      }
      var exists_ := db.UsernameExists(name, env.ok0);
      if exists_ {
        var data := ServerCodec.EncodeStatusAndId(USERNAME_EXISTS, 0);
        SendResponse(conn, REGISTER_RESP, data, s, c, RegisterResp(USERNAME_EXISTS, 0));
        return;
      }
      var passwordHash := sha(password);
      var answerHash := sha(answer);
      var added := db.RegisterUser(name, Session.Account(env.newId, passwordHash, question, answerHash), env.ok1);
      if !added {
        var data := ServerCodec.EncodeStatusAndId(DATABASE_ERROR, 0);
        SendResponse(conn, REGISTER_RESP, data, s, c, RegisterResp(DATABASE_ERROR, 0));
        return;
      }
      ghost var s1 := s.(db := db.Contents());
      assert Shows(s1);
      var data := ServerCodec.EncodeStatusAndId(SUCCESS, env.newId);
      SendResponse(conn, REGISTER_RESP, data, s1, c, RegisterResp(SUCCESS, env.newId));
    }

    method HandleSecurityQuestion(conn: Connection, name: Bytes, env: Session.Env, ghost s: Session.State, ghost c: nat)
      requires IsConn(s, c, conn)
      modifies conn`pending
      ensures IsConn(Session.Apply(s, c, Session.HandleSecurityQuestion(s, name, env)), c, conn)
    {
      hide ResponseBody, Encode, Session.Send;
      if name == [] {
        var data := ServerCodec.EncodeSecurityQuestionResponse(INVALID_REQUEST, []);
        SendResponse(conn, SECURITY_QUESTION_RESP, data, s, c, SecurityQuestionResp(INVALID_REQUEST, []));
        return;
      }
      var row := db.GetSecurityQuestion(name, env.ok0);
      if row == None {
        var data := ServerCodec.EncodeSecurityQuestionResponse(USER_NOT_FOUND, []);
        SendResponse(conn, SECURITY_QUESTION_RESP, data, s, c, SecurityQuestionResp(USER_NOT_FOUND, []));
        return;
      }
      var data := ServerCodec.EncodeSecurityQuestionResponse(SUCCESS, row.value.0);
      SendResponse(conn, SECURITY_QUESTION_RESP, data, s, c, SecurityQuestionResp(SUCCESS, row.value.0));
    }

    method HandleResetPassword(conn: Connection, name: Bytes, password: Bytes, answer: Bytes, env: Session.Env,
                               ghost s: Session.State, ghost c: nat)
      requires IsConn(s, c, conn)
      modifies db, conn`pending
      ensures IsConn(Session.Apply(s, c, Session.HandleResetPassword(s, name, password, answer, env)), c, conn)
    {
      hide ResponseBody, Encode, Session.Send;
      if name == [] || password == [] || answer == [] {
        var data := ServerCodec.EncodeStatus(INVALID_REQUEST);
        SendResponse(conn, RESET_PASSWORD_RESP, data, s, c, ResetPasswordResp(INVALID_REQUEST));
        return;
      }
      var row := db.GetSecurityQuestion(name, env.ok0);
      if row == None {
        var data := ServerCodec.EncodeStatus(USER_NOT_FOUND);
        SendResponse(conn, RESET_PASSWORD_RESP, data, s, c, ResetPasswordResp(USER_NOT_FOUND));
        return;
      }
      var inputAnswerHash := sha(answer);
      if inputAnswerHash != row.value.1 {
        var data := ServerCodec.EncodeStatus(INVALID_ANSWER);
        SendResponse(conn, RESET_PASSWORD_RESP, data, s, c, ResetPasswordResp(INVALID_ANSWER));
        return;
      }
      var newHash := sha(password);
      var done := db.ResetPassword(name, newHash, env.ok1);
      if !done {
        var data := ServerCodec.EncodeStatus(DATABASE_ERROR);
        SendResponse(conn, RESET_PASSWORD_RESP, data, s, c, ResetPasswordResp(DATABASE_ERROR));
        return;
      }
      ghost var s1 := s.(db := db.Contents());
      assert Shows(s1);
      var data := ServerCodec.EncodeStatus(SUCCESS);
      SendResponse(conn, RESET_PASSWORD_RESP, data, s1, c, ResetPasswordResp(SUCCESS));
    }

    method HandleVersionCheck(conn: Connection, ghost s: Session.State, ghost c: nat)
      requires IsConn(s, c, conn)
      modifies conn`pending
      ensures IsConn(Session.Apply(s, c, Session.JustReply(s,
        VersionCheckResp(SUCCESS, Session.SERVER_APP_VERSION, Session.UPDATE_URL, Session.UPDATE_DESC))), c, conn)
    {
      hide ResponseBody, Encode, Session.Send;
      var data := ServerCodec.EncodeVersionCheckResponse(
        SUCCESS, Session.SERVER_APP_VERSION, Session.UPDATE_URL, Session.UPDATE_DESC);
      SendResponse(conn, VERSION_CHECK_RESP, data, s, c,
        VersionCheckResp(SUCCESS, Session.SERVER_APP_VERSION, Session.UPDATE_URL, Session.UPDATE_DESC));
    }

    /** `handle_message`: decode by command and call the handler; what does not decode, or has an unknown command,
        changes nothing. */
    method HandleMessage(conn: Connection, packet: Packet, env: Session.Env, ghost s: Session.State, ghost c: nat)
      requires IsConn(s, c, conn) && conn.reading && InRange(|packet.data|)
      modifies manager, db, cache, all`pending, conn`userId
      ensures IsConn(Session.Step(s, Session.Dispatch(c, packet, env)), c, conn)
    {
      hide Shows, IsConn, ParseRequest, Session.Apply, Session.HandleLogin, Session.HandleChat, Session.HandleAddFriend,
        Session.HandleRegister, Session.HandleSecurityQuestion, Session.HandleResetPassword, Session.HandleFriendList;
      ConnShown(s, c, conn);
      var req := Rejected;
      if packet.command == LOGIN_REQ {
        req := ServerCodec.DecodeLoginRequest(packet.data);
      } else if packet.command == MESSAGE_REQ {
        req := ServerCodec.DecodeMessageRequest(packet.data);
      } else if packet.command == FRIEND_LIST_REQ {
        req := Accepted(FriendList);
      } else if packet.command == ADD_FRIEND_REQ {
        if |packet.data| >= 4 {
          req := Accepted(AddFriend(ReadI32(packet.data, 0)));
        }
      } else if packet.command == REGISTER_REQ {
        req := ServerCodec.DecodeRegisterRequest(packet.data);
      } else if packet.command == SECURITY_QUESTION_REQ {
        req := ServerCodec.DecodeSecurityQuestionRequest(packet.data);
      } else if packet.command == RESET_PASSWORD_REQ {
        req := ServerCodec.DecodeResetPasswordRequest(packet.data);
      } else if packet.command == VERSION_CHECK_REQ {
        req := ServerCodec.DecodeVersionCheckRequest(packet.data);
      }
      DispatchTable(packet.command, packet.data);
      assert req == ParseRequest(packet.command, packet.data);
      if !req.Accepted? {
        return;
      }
      match req.value {
        case Login(u, p) => HandleLogin(conn, u, p, env, s, c);
        case SendMessage(to, content) => HandleChatMessage(conn, to, content, env, s, c);
        case FriendList => HandleFriendList(conn, env, s, c);
        case AddFriend(f) => HandleAddFriend(conn, f, env, s, c);
        case Register(u, p, q, a) => HandleRegister(conn, u, p, q, a, env, s, c);
        case SecurityQuestion(u) => HandleSecurityQuestion(conn, u, env, s, c);
        case ResetPassword(u, p, a) => HandleResetPassword(conn, u, p, a, env, s, c);
        case VersionCheck(_) => HandleVersionCheck(conn, s, c);
      }
    }

    // ---- The read chain ---------------------------------------------------------------------

    /** A whole header has arrived.  The body buffer is sized when the announced length is in range. */
    method OnHeaderRead(conn: Connection, header: Bytes, ghost s: Session.State, ghost c: nat) returns (bodyLength: Option<nat>)
      requires IsConn(s, c, conn) && |header| == HEADER_SIZE
      modifies conn`headerBuffer, conn`bodyBuffer
      ensures IsConn(s, c, conn) && conn.headerBuffer == header
      ensures bodyLength.Some? ==> |conn.bodyBuffer| == bodyLength.value
      ensures bodyLength == if InRange(Read32(header, 3)) then Some(Read32(header, 3)) else None
    {
      hide Read32;
      conn.headerBuffer := header;
      var length := Read32(conn.headerBuffer, 3);
      if length > 0 && length < 1024 * 1024 {
        conn.bodyBuffer := seq(length, _ => 0);
        return Some(length);
      }
      return None;
    }

    /** A whole body has arrived. */
    method OnBodyRead(conn: Connection, body: Bytes, env: Session.Env, ghost s: Session.State, ghost c: nat)
      requires IsConn(s, c, conn) && conn.reading && InRange(|body|) && |conn.headerBuffer| == HEADER_SIZE
      modifies manager, db, cache, all`pending, conn`userId, conn`bodyBuffer
      ensures var packet := Packet(old(conn.headerBuffer)[0], Read16(old(conn.headerBuffer), 1), body);
        IsConn(Session.Step(s, Session.Dispatch(c, packet, env)), c, conn)
    {
      hide Session.Step, Read16;
      conn.bodyBuffer := body;
      var packet := Packet(conn.headerBuffer[0], Read16(conn.headerBuffer, 1), conn.bodyBuffer);
      HandleMessage(conn, packet, env, s, c);
    }

    /** The read chain ends: an error, the end of the stream, or a length out of range. */
    method OnReadEnd(conn: Connection, ghost s: Session.State, ghost c: nat)
      requires IsConn(s, c, conn) && conn.reading
      modifies manager, conn`reading
      ensures IsConn(Session.Step(s, Session.ReadFail(c)), c, conn) && !conn.reading
    {
      conn.reading := false;
      manager.Stop(conn);
    }

    /** The outstanding write fails: the buffer stays queued, and the connection is stopped. */
    method OnWriteError(conn: Connection, ghost s: Session.State, ghost c: nat)
      requires IsConn(s, c, conn) && conn.outstanding != []
      modifies manager, conn`outstanding
      ensures IsConn(Session.Step(s, Session.WriteFail(c)), c, conn)
    {
      conn.outstanding := conn.outstanding[1..];
      manager.Stop(conn);
    }

    /** The executor runs the oldest closure posted for a connection. */
    method OnPosted(conn: Connection, ghost s: Session.State, ghost c: nat)
      requires IsConn(s, c, conn) && conn.pending != []
      modifies conn`pending, conn`writeBuffer, conn`outstanding, conn`sent
      ensures IsConn(Session.Step(s, Session.Traffic(c, Channel.RunPosted)), c, conn)
    {
      hide Channel.Do;
      conn.RunPosted(s.conns[c]);
      TrafficStep(s, c, Channel.RunPosted);
    }

    /** The outstanding write completes. */
    method OnWritten(conn: Connection, ghost s: Session.State, ghost c: nat)
      requires IsConn(s, c, conn) && conn.outstanding != []
      requires Channel.QueueInv(s.conns[c].chan) && conn.sent == |conn.outstanding[0]|
      modifies conn`writeBuffer, conn`outstanding, conn`sent
      ensures IsConn(Session.Step(s, Session.Traffic(c, Channel.WriteDone)), c, conn)
    {
      hide Channel.Do, Channel.QueueInv;
      conn.OnWritten(s.conns[c]);
      TrafficStep(s, c, Channel.WriteDone);
    }

    method StopAll(ghost s: Session.State)
      requires Shows(s)
      modifies manager
      ensures Shows(Session.Step(s, Session.StopAll))
    {
      manager.StopAll();
    }

    /** The socket takes some bytes of the outstanding write. */
    method OnTransmit(conn: Connection, n: nat, ghost s: Session.State, ghost c: nat)
      requires IsConn(s, c, conn) && conn.outstanding != [] && conn.sent + n <= |conn.outstanding[0]|
      modifies conn`sent
      ensures IsConn(Session.Step(s, Session.Traffic(c, Channel.Transmit(n))), c, conn)
    {
      hide Channel.Do;
      conn.Transmit(n, s.conns[c]);
      TrafficStep(s, c, Channel.Transmit(n));
    }

    /** What a connection does not do leaves the objects as they are: a transport step that is not enabled, or one on
        the client's side. */
    lemma IdleShown(s: Session.State, c: nat, step: Channel.Step)
      requires Shows(s)
      requires c < |s.conns| ==> match step
        case RunPosted => all[c].pending == []
        case Transmit(n) => all[c].outstanding == [] || all[c].sent + n > |all[c].outstanding[0]|
        case WriteDone => all[c].outstanding == [] || all[c].sent != |all[c].outstanding[0]|
        case Receive(_) => true
        case _ => false
      ensures Shows(Session.Step(s, Session.Traffic(c, step)))
    {
      hide Drain;
      if c < |s.conns| {
        TrafficStep(s, c, step);
        assert all[c].Shows(s.conns[c]);
      }
    }

    /** The read chain of one connection over all the bytes its peer ever sends.  The packets handled are those of
        `Serve(stream)`, in order, and then the connection is stopped. */
    method ServeStream(conn: Connection, stream: Bytes, envs: nat -> Session.Env, ghost s: Session.State, ghost c: nat)
      requires IsConn(s, c, conn) && conn.reading
      modifies manager, db, cache, all
      ensures IsConn(Session.Run(s, StreamEvents(c, Serve(stream).packets, envs)), c, conn)
    {
      hide Shows, IsConn, Session.Step, Session.Run, Serve, Read32, Read16, CanServe;
      ConnShown(s, c, conn);
      ghost var packets: seq<Packet> := [];
      var pos, count := 0, 0;
      StreamStarts(s, c, stream, envs);
      while true
        invariant 0 <= pos <= |stream| && count == |packets|
        invariant conn in all && IsConn(Session.Run(s, Dispatches(c, packets, envs)), c, conn) && conn.reading
        invariant packets + Serve(stream[pos..]).packets == Serve(stream).packets
        decreases |stream| - pos
      {
        ghost var now := Session.Run(s, Dispatches(c, packets, envs));
        if |stream| - pos < HEADER_SIZE {
          ServeStops(stream, pos);
          break;
        }
        var header := stream[pos..pos + HEADER_SIZE];
        var bodyLength := OnHeaderRead(conn, header, now, c);
        if bodyLength == None || |stream| - pos - HEADER_SIZE < bodyLength.value {
          ServeStops(stream, pos);
          break;
        }
        var end := pos + HEADER_SIZE + bodyLength.value;
        var body := stream[pos + HEADER_SIZE..end];
        ServeOne(stream, pos);
        OnBodyRead(conn, body, envs(count), now, c);
        ghost var packet := Packet(header[0], Read16(header, 1), body);
        DispatchesSnoc(s, c, packets, packet, envs);
        ConnShown(Session.Run(s, Dispatches(c, packets + [packet], envs)), c, conn);
        assert packets + ([packet] + Serve(stream[end..]).packets) == (packets + [packet]) + Serve(stream[end..]).packets;
        packets := packets + [packet];
        pos := end;
        count := count + 1;
      }
      assert packets + [] == packets;
      StreamEnds(s, c, packets, envs);
      OnReadEnd(conn, Session.Run(s, Dispatches(c, packets, envs)), c);
    }
  }

  lemma TrafficStep(s: Session.State, c: nat, step: Channel.Step)
    requires c < |s.conns| && !step.Post? && !step.WriteError?
    ensures Session.Step(s, Session.Traffic(c, step))
      == s.(conns := s.conns[c := s.conns[c].(chan := Channel.Do(s.conns[c].chan, step))])
  {
    hide Channel.Do;
  }

  /** An effect that only changes tables and replies. */
  lemma PlainEffects(s: Session.State, c: nat)
    requires c < |s.conns|
    ensures forall db, reply ::
              Session.Apply(s, c, Session.Effect(None, db, None, None, reply))
                == s.(db := db, conns := Session.Send(s.conns, c, reply))
  {
    hide Session.Send;
  }

  lemma ChatApplied(s: Session.State, c: nat, to: i32, content: Bytes, env: Session.Env, db: Session.Tables)
    requires c < |s.conns| && s.conns[c].userId != 0
    requires Session.InsertMessage(s.db, Session.Message(s.conns[c].userId, to, content), env.ok0) == Some(db)
    ensures var from := s.conns[c].userId;
      var s2 := Delivered(s.(db := db), from, to, content, env);
      c < |s2.conns| &&
      Session.Apply(s, c, Session.HandleChat(s, from, to, content, env))
        == s2.(conns := Session.Send(s2.conns, c, MessageResp(SUCCESS, env.newId)))
  {
    hide Session.Send, Session.InsertMessage;
  }

  predicate Known(command: u16) {
    command in {LOGIN_REQ, MESSAGE_REQ, FRIEND_LIST_REQ, ADD_FRIEND_REQ, REGISTER_REQ, SECURITY_QUESTION_REQ,
                RESET_PASSWORD_REQ, VERSION_CHECK_REQ}
  }

  ghost function Delivered(s: Session.State, from: i32, to: i32, content: Bytes, env: Session.Env): Session.State {
    if to in s.index then Session.NotifyUser(s, to, Notify(from, content, env.now))
    else if env.cacheOk then s.(unread := s.unread[to := Session.UnreadCount(s, to) + 1])
    else s
  }

  /** The dispatch by command code. */
  lemma DispatchTable(command: u16, data: Bytes)
    ensures command == FRIEND_LIST_REQ ==> ParseRequest(command, data) == Accepted(FriendList)
    ensures command == ADD_FRIEND_REQ ==>
      ParseRequest(command, data) == if |data| >= 4 then Accepted(AddFriend(ReadI32(data, 0))) else Rejected
    ensures !Known(command) ==> ParseRequest(command, data) == Rejected
  {
  }

  function Dispatches(c: nat, packets: seq<Packet>, envs: nat -> Session.Env): seq<Session.Event> {
    seq(|packets|, i requires 0 <= i < |packets| => Session.Dispatch(c, packets[i], envs(i)))
  }

  /** The events one connection's stream amounts to: its packets, then the end of the read chain. */
  function StreamEvents(c: nat, packets: seq<Packet>, envs: nat -> Session.Env): seq<Session.Event> {
    Dispatches(c, packets, envs) + [Session.ReadFail(c)]
  }

  lemma DispatchesSnoc(s: Session.State, c: nat, packets: seq<Packet>, packet: Packet, envs: nat -> Session.Env)
    ensures Session.Run(s, Dispatches(c, packets + [packet], envs))
      == Session.Step(Session.Run(s, Dispatches(c, packets, envs)), Session.Dispatch(c, packet, envs(|packets|)))
  {
    hide Session.Step;
    var es := Dispatches(c, packets + [packet], envs);
    assert es[..|es| - 1] == Dispatches(c, packets, envs);
  }

  lemma StreamEnds(s: Session.State, c: nat, packets: seq<Packet>, envs: nat -> Session.Env)
    ensures Session.Run(s, StreamEvents(c, packets, envs))
      == Session.Step(Session.Run(s, Dispatches(c, packets, envs)), Session.ReadFail(c))
  {
    hide Session.Step;
    var es := StreamEvents(c, packets, envs);
    assert es[..|es| - 1] == Dispatches(c, packets, envs);
  }

  lemma StreamStarts(s: Session.State, c: nat, stream: Bytes, envs: nat -> Session.Env)
    ensures Session.Run(s, Dispatches(c, [], envs)) == s
    ensures [] + Serve(stream[0..]).packets == Serve(stream).packets
  {
    hide Serve;
    assert stream[0..] == stream;
  }

  lemma ServeStops(stream: Bytes, pos: nat)
    requires pos <= |stream|
    requires |stream| - pos >= HEADER_SIZE ==>
      var length := Read32(stream[pos..pos + HEADER_SIZE], 3);
      !InRange(length) || |stream| - pos - HEADER_SIZE < length
    ensures Serve(stream[pos..]).packets == []
  {
    if |stream| - pos >= HEADER_SIZE {
      assert Read32(stream[pos..pos + HEADER_SIZE], 3) == Read32(stream[pos..], 3);
    }
  }

  lemma ServeOne(stream: Bytes, pos: nat)
    requires pos + HEADER_SIZE <= |stream|
    requires var length := Read32(stream[pos..pos + HEADER_SIZE], 3);
      InRange(length) && pos + HEADER_SIZE + length <= |stream|
    ensures var header := stream[pos..pos + HEADER_SIZE];
      var end := pos + HEADER_SIZE + Read32(header, 3) as int;
      Serve(stream[pos..]).packets ==
        [Packet(header[0], Read16(header, 1), stream[pos + HEADER_SIZE..end])] + Serve(stream[end..]).packets
  {
    var header, rest := stream[pos..pos + HEADER_SIZE], stream[pos..];
    SameHeader(stream, pos);
    hide Read16, Read32;
    var n := FrameLength(rest);
    assert rest[n..] == stream[pos + n..];
    assert rest[HEADER_SIZE..n] == stream[pos + HEADER_SIZE..pos + n];
  }

  lemma SameHeader(stream: Bytes, pos: nat)
    requires pos + HEADER_SIZE <= |stream|
    ensures var header, rest := stream[pos..pos + HEADER_SIZE], stream[pos..];
      header[0] == rest[0] && Read32(header, 3) == Read32(rest, 3) && Read16(header, 1) == Read16(rest, 1)
  {
  }
}
