/** The client's codec: the mirror image, with its own, less careful, bounds checks. */
module ClientCodec {
  import opened ByteOrder
  import opened Grammar
  import opened Parsing

  /** The client's framing of a command and a body.  It writes the bytes the server writes for the same packet
      at version 1. */
  method EncodeCommand(command: u16, data: Bytes) returns (r: Bytes)
    ensures r == Encode(Packet(VERSION, command, data))
  {
    var buffer := new ByteBuffer();
    buffer.PushBack(VERSION);
    buffer.WriteUint16(command);
    buffer.WriteUint32(Low32(|data|));
    buffer.Insert(data);
    r := buffer.bytes;
  }

  /** As the server's, but the version byte is dropped. */
  method DecodeCommand(buffer: Bytes) returns (r: Option<(u16, Bytes)>)
    ensures r == match Decode(buffer) case None => None case Some(p) => Some((p.command, p.data))
  {
    if |buffer| < HEADER_SIZE {
      return None;
    }
    var command := Read16(buffer, 1);
    var length := Read32(buffer, 3);
    if |buffer| != HEADER_SIZE + length {
      return None;
    }
    return Some((command, buffer[HEADER_SIZE..]));
  }

  // ---- Request encoders -------------------------------------------------------------------

  method EncodeLoginRequest(username: Bytes, password: Bytes) returns (r: Bytes)
    ensures r == RequestBytes(Login(username, password))
  {
    var data := new ByteBuffer();
    data.WriteString(username);
    data.WriteString(password);
    assert data.bytes == Str(username) + Str(password);
    r := EncodeCommand(LOGIN_REQ, data.bytes);
  }

  method EncodeMessageRequest(toId: i32, content: Bytes) returns (r: Bytes)
    ensures r == RequestBytes(SendMessage(toId, content))
  {
    var data := new ByteBuffer();
    data.WriteInt32(toId);
    data.WriteUint32(Low32(|content|));
    data.Insert(content);
    r := EncodeCommand(MESSAGE_REQ, data.bytes);
  }

  method EncodeFriendListRequest() returns (r: Bytes)
    ensures r == RequestBytes(FriendList)
  {
    r := EncodeCommand(FRIEND_LIST_REQ, []);
  }

  method EncodeAddFriendRequest(friendId: i32) returns (r: Bytes)
    ensures r == RequestBytes(AddFriend(friendId))
  {
    var data := new ByteBuffer();
    data.WriteInt32(friendId);
    r := EncodeCommand(ADD_FRIEND_REQ, data.bytes);
  }

  method EncodeRegisterRequest(username: Bytes, password: Bytes, question: Bytes, answer: Bytes) returns (r: Bytes)
    ensures r == RequestBytes(Register(username, password, question, answer))
  {
    var data := new ByteBuffer();
    data.WriteString(username);
    data.WriteString(password);
    assert data.bytes == Str(username) + Str(password);
    data.WriteString(question);
    assert data.bytes == Str(username) + Str(password) + Str(question);
    data.WriteString(answer);
    assert data.bytes == Str(username) + Str(password) + Str(question) + Str(answer);
    r := EncodeCommand(REGISTER_REQ, data.bytes);
  }

  method EncodeSecurityQuestionRequest(username: Bytes) returns (r: Bytes)
    ensures r == RequestBytes(SecurityQuestion(username))
  {
    var data := new ByteBuffer();
    data.WriteString(username);
    assert data.bytes == Str(username);
    r := EncodeCommand(SECURITY_QUESTION_REQ, data.bytes);
  }

  method EncodeResetPasswordRequest(username: Bytes, newPassword: Bytes, answer: Bytes) returns (r: Bytes)
    ensures r == RequestBytes(ResetPassword(username, newPassword, answer))
  {
    var data := new ByteBuffer();
    data.WriteString(username);
    data.WriteString(newPassword);
    assert data.bytes == Str(username) + Str(newPassword);
    data.WriteString(answer);
    assert data.bytes == Str(username) + Str(newPassword) + Str(answer);
    r := EncodeCommand(RESET_PASSWORD_REQ, data.bytes);
  }

  method EncodeVersionCheckRequest(clientVersion: i32) returns (r: Bytes)
    ensures r == RequestBytes(VersionCheck(clientVersion))
  {
    var data := new ByteBuffer();
    data.WriteInt32(clientVersion);
    r := EncodeCommand(VERSION_CHECK_REQ, data.bytes);
  }

  // ---- Response decoders ------------------------------------------------------------------

  /** The username is read only when bytes follow the id, but the check is for one byte and the read is of two. */
  method DecodeLoginResponse(data: Bytes) returns (r: Decoded<Response>)
    ensures r == ParseResponse(LOGIN_RESP, data)
  {
    if |data| < 6 {
      return Rejected;
    }
    var error := Read16(data, 0);
    var userId := ReadI32(data, 2);
    var username: Bytes := [];
    var offset := 6;
    if offset < |data| {
      if offset + 2 > |data| {
        return OverRead;
      }
      var nameLen := Read16(data, offset);
      offset := offset + 2;
      if offset + nameLen <= |data| {
        username := data[offset..offset + nameLen];
      }
    }
    return Accepted(LoginResp(error, userId, username));
  }

  method DecodeMessageNotify(data: Bytes) returns (r: Decoded<Response>)
    ensures r == ParseResponse(MESSAGE_NOTIFY, data)
  {
    if |data| < 16 {
      return Rejected;
    }
    var fromId := ReadI32(data, 0);
    var contentLen := Read32(data, 4);
    if Low32(8 + contentLen + 8) > |data| {
      return Rejected;
    }
    if 8 + contentLen > |data| || Low32(8 + contentLen) + 8 > |data| {
      return OverRead;
    }
    var content := data[8..8 + contentLen];
    var timestamp := ReadInt64(data, Low32(8 + contentLen));
    return Accepted(Notify(fromId, content, timestamp));
  }

  lemma NoEntry(d: Bytes, at: nat, count: nat)
    requires count > 0 ==> at + 6 > |d| || at + 6 + Read16(d, at + 4) > |d|
    ensures EntriesFrom(d, at, count) == []
  {
  }

  lemma OneEntry(d: Bytes, at: nat, count: nat)
    requires count > 0 && at + 6 <= |d| && at + 6 + Read16(d, at + 4) <= |d|
    ensures var end := at + 6 + Read16(d, at + 4) as int;
      EntriesFrom(d, at, count) == [Friend(ReadI32(d, at), d[at + 6..end])] + EntriesFrom(d, end, count - 1)
  {
  }

  method DecodeFriendListResponse(data: Bytes) returns (r: Decoded<Response>)
    ensures r == ParseResponse(FRIEND_LIST_RESP, data)
  {
    hide Read16, Read32, ReadI32, EntriesFrom;
    if |data| < 6 {
      return Rejected;
    }
    var error := Read16(data, 0);
    if error != SUCCESS {
      return Rejected;
    }
    var count := Read32(data, 2);
    var offset := 6;
    var friends: seq<Friend> := [];
    var i := 0;
    ghost var all := EntriesFrom(data, 6, count);
    assert friends + all == all;
    while i < count
      invariant 0 <= i <= count && 6 <= offset <= |data|
      invariant friends + EntriesFrom(data, offset, count - i) == all
    {
      ghost var at, todo := offset, count - i;
      if offset + 4 > |data| {
        NoEntry(data, at, todo);
        break;
      }
      var friendId := ReadI32(data, offset);
      offset := offset + 4;
      if offset + 2 > |data| {
        NoEntry(data, at, todo);
        break;
      }
      var nameLen := Read16(data, offset);
      offset := offset + 2;
      if offset + nameLen > |data| {
        NoEntry(data, at, todo);
        break;
      }
      var info := Friend(friendId, data[offset..offset + nameLen]);
      offset := offset + nameLen;
      OneEntry(data, at, todo);
      ghost var more := EntriesFrom(data, offset, todo - 1);
      assert friends + ([info] + more) == (friends + [info]) + more;
      friends := friends + [info];
      i := i + 1;
    }
    NoEntry(data, offset, 0);
    assert friends + [] == friends;
    return Accepted(FriendListResp(SUCCESS, friends));
  }

  method DecodeRegisterResponse(data: Bytes) returns (r: Decoded<Response>)
    ensures r == ParseResponse(REGISTER_RESP, data)
  {
    if |data| < 6 {
      return Rejected;
    }
    return Accepted(RegisterResp(Read16(data, 0), ReadI32(data, 2)));
  }

  method DecodeSecurityQuestionResponse(data: Bytes) returns (r: Decoded<Response>)
    ensures r == ParseResponse(SECURITY_QUESTION_RESP, data)
  {
    if |data| < 2 {
      return Rejected;
    }
    var error := Read16(data, 0);
    var question: Bytes := [];
    var offset := 2;
    if offset < |data| {
      if offset + 2 > |data| {
        return OverRead;
      }
      var questionLen := Read16(data, offset);
      offset := offset + 2;
      if offset + questionLen <= |data| {
        question := data[offset..offset + questionLen];
      }
    }
    return Accepted(SecurityQuestionResp(error, question));
  }

  method DecodeResetPasswordResponse(data: Bytes) returns (r: Decoded<Response>)
    ensures r == ParseResponse(RESET_PASSWORD_RESP, data)
  {
    if |data| < 2 {
      return Rejected;
    }
    return Accepted(ResetPasswordResp(Read16(data, 0)));
  }

  method DecodeVersionCheckResponse(data: Bytes) returns (r: Decoded<Response>)
    ensures r == ParseResponse(VERSION_CHECK_RESP, data)
  {
    if |data| < 6 {
      return Rejected;
    }
    var error := Read16(data, 0);
    var version := ReadI32(data, 2);
    var url: Bytes, desc: Bytes := [], [];
    var offset := 6;
    if offset + 2 <= |data| {
      var urlLen := Read16(data, offset);
      offset := offset + 2;
      if offset + urlLen <= |data| {
        url := data[offset..offset + urlLen];
        offset := offset + urlLen;
      }
    }
    assert (url, offset) == OptionalStr(data, 6);
    if offset + 2 <= |data| {
      var descLen := Read16(data, offset);
      offset := offset + 2;
      if offset + descLen <= |data| {
        desc := data[offset..offset + descLen];
      }
    }
    return Accepted(VersionCheckResp(error, version, url, desc));
  }
}
