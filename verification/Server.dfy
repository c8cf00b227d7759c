/** The server's objects, updated in place: connections, the connection manager, the database and the cache behind
    their pools, and the message handler.  Every method is related to the state machine of module `Session`: if the
    objects show a state before, they show that state's successor after. */
module Server {
  import opened ByteOrder
  import opened Session
  import Channel

  class Connection {
    const connId: nat
    var userId: i32
    /** False once the read chain has ended. */
    var reading: bool
    var headerBuffer: Bytes
    var bodyBuffer: Bytes
    /** Closures posted to the executor by `Send` and not yet run. */
    var pending: seq<Bytes>
    var writeBuffer: seq<Bytes>
    /** Buffers of the asynchronous writes in progress. */
    var outstanding: seq<Bytes>
    /** How many bytes of the outstanding write the socket has taken. */
    var sent: nat

    constructor (id: nat)
      ensures connId == id && Shows(Conn(0, true, Channel.EMPTY))
    {
      connId := id;
      userId := 0;
      reading := true;
      headerBuffer := [];
      bodyBuffer := [];
      pending := [];
      writeBuffer := [];
      outstanding := [];
      sent := 0;
    }

    /** The object's part of an abstract connection; the wire and the client's side are not in it. */
    ghost predicate Shows(conn: Conn)
      reads this
    {
      && userId == conn.userId && reading == conn.reading
      && pending == conn.chan.pending && writeBuffer == conn.chan.queue
      && outstanding == conn.chan.outstanding && sent == conn.chan.sent
    }

    method SetUserId(u: i32)
      modifies this`userId
      ensures userId == u
    {
      userId := u;
    }

    method Send(data: Bytes)
      modifies this`pending
      ensures pending == old(pending) + [data]
    {
      pending := pending + [data];
    }

    method DoWrite(data: Bytes)
      modifies this`outstanding, this`sent
      ensures outstanding == old(outstanding) + [data] && sent == 0
    {
      outstanding := outstanding + [data];
      sent := 0;
    }

    /** The body of the closure that `send` posts. */
    method RunPosted(ghost conn: Conn)
      requires Shows(conn) && pending != []
      modifies this`pending, this`writeBuffer, this`outstanding, this`sent
      ensures Shows(conn.(chan := Channel.Do(conn.chan, Channel.RunPosted)))
    {
      var data := pending[0];
      pending := pending[1..];
      var writeInProgress := |writeBuffer| > 0;
      writeBuffer := writeBuffer + [data];
      if !writeInProgress {
        DoWrite(writeBuffer[0]);
      }
    }

    /** The socket takes `n` more bytes of the outstanding write. */
    method Transmit(n: nat, ghost conn: Conn)
      requires Shows(conn) && outstanding != [] && sent + n <= |outstanding[0]|
      modifies this`sent
      ensures Shows(conn.(chan := Channel.Do(conn.chan, Channel.Transmit(n))))
    {
      sent := sent + n;
    }

    /** The completion handler of a write, without error. */
    method OnWritten(ghost conn: Conn)
      requires Shows(conn) && Channel.QueueInv(conn.chan) && outstanding != [] && sent == |outstanding[0]|
      modifies this`writeBuffer, this`outstanding, this`sent
      ensures Shows(conn.(chan := Channel.Do(conn.chan, Channel.WriteDone)))
    {
      outstanding := outstanding[1..];
      sent := 0;
      writeBuffer := writeBuffer[1..];
      if |writeBuffer| > 0 {
        DoWrite(writeBuffer[0]);
      }
    }
  }

  class ConnectionManager {
    var connections: map<nat, Connection>
    var userToConn: map<i32, nat>

    constructor ()
      ensures connections == map[] && userToConn == map[]
    {
      connections := map[];
      userToConn := map[];
    }

    method Start(conn: Connection)
      modifies this`connections
      ensures connections == old(connections)[conn.connId := conn]
    {
      connections := connections[conn.connId := conn];
    }

    method Stop(conn: Connection)
      modifies this
      ensures connections == old(connections) - {conn.connId}
      ensures userToConn == if conn.userId != 0 then old(userToConn) - {conn.userId} else old(userToConn)
    {
      if conn.userId != 0 {
        userToConn := userToConn - {conn.userId};
      }
      connections := connections - {conn.connId};
    }

    method StopAll()
      modifies this
      ensures connections == map[] && userToConn == map[]
    {
      connections := map[];
      userToConn := map[];
    }

    /** The connection a user is reached on, if any. */
    ghost function Addressee(userId: i32): set<Connection>
      reads this
    {
      if userId in userToConn && userToConn[userId] in connections then {connections[userToConn[userId]]} else {}
    }

    /** False, and nothing sent, when the user is not in the index or its connection is gone. */
    method SendToUser(userId: i32, data: Bytes) returns (sent: bool)
      modifies Addressee(userId)`pending
      ensures sent <==> Addressee(userId) != {}
      ensures forall c | c in Addressee(userId) :: c.pending == old(c.pending) + [data]
    {
      if userId !in userToConn {
        return false;
      }
      if userToConn[userId] !in connections {
        return false;
      }
      var conn := connections[userToConn[userId]];
      conn.Send(data);
      return true;
    }

    method IsUserOnline(userId: i32) returns (online: bool)
      ensures online <==> userId in userToConn
    {
      online := userId in userToConn;
    }

    method SetUserConnection(userId: i32, connId: nat)
      modifies this`userToConn
      ensures userToConn == old(userToConn)[userId := connId]
    {
      userToConn := userToConn[userId := connId];
    }
  }

  // ---- The database and the cache -----------------------------------------------------------

  /** The tables behind the pool.  `ok` says whether the statement goes through. */
  class Database {
    var users: map<Bytes, Account>
    var messages: seq<Message>
    var friends: multiset<(i32, i32)>

    constructor (t: Tables)
      ensures Contents() == t
    {
      users, messages, friends := t.users, t.messages, t.friends;
    }

    ghost function Contents(): Tables
      reads this
    {
      Tables(users, messages, friends)
    }

    method VerifyUser(name: Bytes, password: Bytes, sha: Bytes -> Bytes, ok: bool) returns (id: Option<i32>)
      ensures id == Verify(Contents(), sha, name, password, ok)
    {
      if !ok || name !in users {
        return None;
      }
      var storedHash := users[name].hash;
      var inputHash := sha(password);
      if storedHash != inputHash {
        return None;
      }
      return Some(users[name].id);
    }

    method UsernameExists(name: Bytes, ok: bool) returns (found: bool)
      ensures found <==> ok && name in users
    {
      found := ok && name in users;
    }

    method GetUserById(id: i32, ok: bool) returns (found: bool)
      ensures found <==> ok && IsUser(Contents(), id)
    {
      found := ok && exists name :: name in users && users[name].id == id;
    }

    method GetSecurityQuestion(name: Bytes, ok: bool) returns (r: Option<(Bytes, Bytes)>)
      ensures r == if ok && name in users then Some((users[name].question, users[name].answerHash)) else None
    {
      if !ok || name !in users {
        return None;
      }
      return Some((users[name].question, users[name].answerHash));
    }

    method SendMessage(m: Message, ok: bool) returns (stored: bool)
      modifies this`messages
      ensures match InsertMessage(old(Contents()), m, ok)
        case None => !stored && Contents() == old(Contents())
        case Some(t) => stored && Contents() == t
    {
      var from := GetUserById(m.fromId, ok);
      var to := GetUserById(m.toId, ok);
      stored := from && to;
      if stored {
        messages := messages + [m];
      }
    }

    method AddFriend(user: i32, friend: i32, ok: bool) returns (added: bool)
      modifies this`friends
      ensures match InsertFriend(old(Contents()), user, friend, ok)
        case None => !added && Contents() == old(Contents())
        case Some(t) => added && Contents() == t
    {
      var first := GetUserById(user, ok);
      var second := GetUserById(friend, ok);
      added := first && second;
      if added {
        friends := friends + multiset{(user, friend)};
      }
    }

    method RegisterUser(name: Bytes, a: Account, ok: bool) returns (added: bool)
      modifies this`users
      ensures match InsertUser(old(Contents()), name, a, ok)
        case None => !added && Contents() == old(Contents())
        case Some(t) => added && Contents() == t
    {
      var taken := GetUserById(a.id, ok);
      added := ok && name !in users && a.id > 0 && !taken;
      if added {
        users := users[name := a];
      }
    }

    method ResetPassword(name: Bytes, hash: Bytes, ok: bool) returns (done: bool)
      modifies this`users
      ensures done == ok
      ensures Contents() == if ok then UpdateHash(old(Contents()), name, hash) else old(Contents())
    {
      if ok && name in users {
        users := users[name := users[name].(hash := hash)];
      }
      done := ok;
    }
  }

  class Cache {
    var unread: map<i32, nat>

    constructor ()
      ensures unread == map[]
    {
      unread := map[];
    }

    method IncrementUnread(u: i32, ok: bool)
      modifies this
      ensures unread == if ok then old(unread)[u := (if u in old(unread) then old(unread)[u] else 0) + 1] else old(unread)
    {
      if ok {
        unread := unread[u := (if u in unread then unread[u] else 0) + 1];
      }
    }
  }
}
