/** The wire format: packets, requests and responses as values, and the bytes each of them stands for. */
module Grammar {
  import opened ByteOrder

  const VERSION: byte := 1
  const HEADER_SIZE: nat := 7

  // Command codes.  A received command is any sixteen-bit number.
  const LOGIN_REQ: u16 := 0x0001
  const LOGIN_RESP: u16 := 0x0002
  const MESSAGE_REQ: u16 := 0x0003
  const MESSAGE_RESP: u16 := 0x0004
  const MESSAGE_NOTIFY: u16 := 0x0005
  const FRIEND_LIST_REQ: u16 := 0x0006
  const FRIEND_LIST_RESP: u16 := 0x0007
  const ADD_FRIEND_REQ: u16 := 0x0008
  const ADD_FRIEND_RESP: u16 := 0x0009
  const REGISTER_REQ: u16 := 0x000A
  const REGISTER_RESP: u16 := 0x000B
  const SECURITY_QUESTION_REQ: u16 := 0x000C
  const SECURITY_QUESTION_RESP: u16 := 0x000D
  const RESET_PASSWORD_REQ: u16 := 0x000E
  const RESET_PASSWORD_RESP: u16 := 0x000F
  const VERSION_CHECK_REQ: u16 := 0x0010
  const VERSION_CHECK_RESP: u16 := 0x0011

  const SUCCESS: u16 := 0x0000
  const USER_NOT_FOUND: u16 := 0x0001
  const USER_ALREADY_ONLINE: u16 := 0x0003
  const PROTOCOL_ERROR: u16 := 0x0005
  const DATABASE_ERROR: u16 := 0x0006
  const FRIEND_REQUEST_EXISTS: u16 := 0x0007
  const CANNOT_ADD_SELF: u16 := 0x0008
  const USERNAME_EXISTS: u16 := 0x0009
  const INVALID_ANSWER: u16 := 0x000A
  const INVALID_REQUEST: u16 := 0x000C

  // ---- Packets ----------------------------------------------------------------------------

  datatype Packet = Packet(version: byte, command: u16, data: Bytes)

  /** The header carries the size modulo 2^32. */
  function Encode(p: Packet): Bytes {
    [p.version] + Be16(p.command) + Be32(Low32(|p.data|)) + p.data
  }

  function Decode(d: Bytes): Option<Packet> {
    if |d| < HEADER_SIZE then None
    else if |d| != HEADER_SIZE + Read32(d, 3) then None
    else Some(Packet(d[0], Read16(d, 1), d[HEADER_SIZE..]))
  }

  lemma EncodeFields(p: Packet)
    ensures var e := Encode(p);
      && |e| == HEADER_SIZE + |p.data|
      && e[0] == p.version && Read16(e, 1) == p.command
      && Read32(e, 3) == Low32(|p.data|)
      && e[HEADER_SIZE..] == p.data
  {
    hide Be16, Be32;
    var e := Encode(p);
    assert e[1..1 + 2] == Be16(p.command);
    Read16Exact(e, 1, p.command);
    assert e[3..3 + 4] == Be32(Low32(|p.data|));
    Read32Exact(e, 3, Low32(|p.data|));
  }

  /** `Decode` and `Encode` are mutually inverse between packets of less than 4 GiB and accepted strings. */
  lemma DecodeExact(d: Bytes, p: Packet)
    ensures Decode(d) == Some(p) <==> |p.data| < TWO_TO_32 && d == Encode(p)
  {
    hide Be16, Be32, Read16, Read32;
    EncodeFields(p);
    if Decode(d) == Some(p) {
      Read16Exact(d, 1, p.command);
      Read32Exact(d, 3, |p.data|);
      assert Low32(|p.data|) == |p.data|;
      assert d == [d[0]] + d[1..1 + 2] + d[3..3 + 4] + d[HEADER_SIZE..];
    }
    if |p.data| < TWO_TO_32 && d == Encode(p) {
      assert Low32(|p.data|) == |p.data|;
    }
  }

  /** No encoding is a proper prefix of another one. */
  lemma EncodePrefixFree(p: Packet, q: Packet)
    requires |p.data| < TWO_TO_32 && |q.data| < TWO_TO_32
    ensures Encode(p) <= Encode(q) <==> p == q
  {
    hide Be16, Be32, Encode;
    EncodeFields(p);
    EncodeFields(q);
    if Encode(p) <= Encode(q) {
      assert Read32(Encode(p), 3) == Read32(Encode(q), 3);
      assert Encode(p) == Encode(q);
      DecodeExact(Encode(p), p);
      DecodeExact(Encode(q), q);
    }
  }

  // ---- Length-prefixed strings ------------------------------------------------------------

  function Str(s: Bytes): Bytes {
    Be16(Low16(|s|)) + s
  }

  function Strs(ss: seq<Bytes>): Bytes {
    if ss == [] then [] else Str(ss[0]) + Strs(ss[1..])
  }

  predicate Short(s: Bytes) {
    |s| < TWO_TO_16
  }

  predicate AllShort(ss: seq<Bytes>) {
    forall i | 0 <= i < |ss| :: Short(ss[i])
  }

  // ---- Requests ---------------------------------------------------------------------------

  datatype Request =
    | Login(username: Bytes, password: Bytes)
    | SendMessage(toId: i32, content: Bytes)
    | FriendList
    | AddFriend(friendId: i32)
    | Register(username: Bytes, password: Bytes, question: Bytes, answer: Bytes)
    | SecurityQuestion(username: Bytes)
    | ResetPassword(username: Bytes, newPassword: Bytes, answer: Bytes)
    | VersionCheck(clientVersion: i32)

  function RequestCommand(r: Request): u16 {
    match r
    case Login(_, _) => LOGIN_REQ
    case SendMessage(_, _) => MESSAGE_REQ
    case FriendList => FRIEND_LIST_REQ
    case AddFriend(_) => ADD_FRIEND_REQ
    case Register(_, _, _, _) => REGISTER_REQ
    case SecurityQuestion(_) => SECURITY_QUESTION_REQ
    case ResetPassword(_, _, _) => RESET_PASSWORD_REQ
    case VersionCheck(_) => VERSION_CHECK_REQ
  }

  function RequestBody(r: Request): Bytes {
    match r
    case Login(u, p) => Str(u) + Str(p)
    case SendMessage(to, content) => Be32(ToU32(to)) + Be32(Low32(|content|)) + content
    case FriendList => []
    case AddFriend(f) => Be32(ToU32(f))
    case Register(u, p, q, a) => Str(u) + Str(p) + Str(q) + Str(a)
    case SecurityQuestion(u) => Str(u)
    case ResetPassword(u, p, a) => Str(u) + Str(p) + Str(a)
    case VersionCheck(v) => Be32(ToU32(v))
  }

  /** Every string is small enough for its length field. */
  predicate RequestFits(r: Request) {
    match r
    case Login(u, p) => Short(u) && Short(p)
    case SendMessage(_, content) => |content| < TWO_TO_32
    case FriendList => true
    case AddFriend(_) => true
    case Register(u, p, q, a) => Short(u) && Short(p) && Short(q) && Short(a)
    case SecurityQuestion(u) => Short(u)
    case ResetPassword(u, p, a) => Short(u) && Short(p) && Short(a)
    case VersionCheck(_) => true
  }

  // ---- Responses --------------------------------------------------------------------------

  datatype Friend = Friend(id: i32, name: Bytes)

  datatype Response =
    | LoginResp(error: u16, userId: i32, name: Bytes)
    | MessageResp(error: u16, msgId: i32)
    | Notify(fromId: i32, content: Bytes, timestamp: i64)
    | FriendListResp(error: u16, friends: seq<Friend>)
    | AddFriendResp(error: u16)
    | RegisterResp(error: u16, userId: i32)
    | SecurityQuestionResp(error: u16, question: Bytes)
    | ResetPasswordResp(error: u16)
    | VersionCheckResp(error: u16, version: i32, url: Bytes, desc: Bytes)

  function ResponseCommand(r: Response): u16 {
    match r
    case LoginResp(_, _, _) => LOGIN_RESP
    case MessageResp(_, _) => MESSAGE_RESP
    case Notify(_, _, _) => MESSAGE_NOTIFY
    case FriendListResp(_, _) => FRIEND_LIST_RESP
    case AddFriendResp(_) => ADD_FRIEND_RESP
    case RegisterResp(_, _) => REGISTER_RESP
    case SecurityQuestionResp(_, _) => SECURITY_QUESTION_RESP
    case ResetPasswordResp(_) => RESET_PASSWORD_RESP
    case VersionCheckResp(_, _, _, _) => VERSION_CHECK_RESP
  }

  function Entry(f: Friend): Bytes {
    Be32(ToU32(f.id)) + Str(f.name)
  }

  function Entries(fs: seq<Friend>): Bytes {
    if fs == [] then [] else Entry(fs[0]) + Entries(fs[1..])
  }

  function ResponseBody(r: Response): Bytes {
    match r
    case LoginResp(e, id, name) => Be16(e) + Be32(ToU32(id)) + Str(name)
    case MessageResp(e, id) => Be16(e) + Be32(ToU32(id))
    case Notify(from, content, ts) =>
      Be32(ToU32(from)) + Be32(Low32(|content|)) + content + Be64(ts)
    case FriendListResp(e, fs) => Be16(e) + Be32(Low32(|fs|)) + Entries(fs)
    case AddFriendResp(e) => Be16(e)
    case RegisterResp(e, id) => Be16(e) + Be32(ToU32(id))
    case SecurityQuestionResp(e, q) => Be16(e) + Str(q)
    case ResetPasswordResp(e) => Be16(e)
    case VersionCheckResp(e, v, url, desc) => Be16(e) + Be32(ToU32(v)) + Str(url) + Str(desc)
  }

  /** Bounds under which a response survives the wire.  The notify bound comes from the 32-bit sum
      `8 + content_len + 8`; a friend list is understood only when it reports success. */
  predicate ResponseFits(r: Response) {
    match r
    case LoginResp(_, _, name) => Short(name)
    case MessageResp(_, _) => true
    case Notify(_, content, _) => |content| < TWO_TO_32 - 16
    case FriendListResp(e, fs) =>
      e == SUCCESS && |fs| < TWO_TO_32 && forall i | 0 <= i < |fs| :: Short(fs[i].name)
    case AddFriendResp(_) => true
    case RegisterResp(_, _) => true
    case SecurityQuestionResp(_, q) => Short(q)
    case ResetPasswordResp(_) => true
    case VersionCheckResp(_, _, url, desc) => Short(url) && Short(desc)
  }

  /** A packet as either side builds it. */
  function RequestBytes(r: Request): Bytes {
    Encode(Packet(VERSION, RequestCommand(r), RequestBody(r)))
  }

  function ResponseBytes(r: Response): Bytes {
    Encode(Packet(VERSION, ResponseCommand(r), ResponseBody(r)))
  }
}
