/** The server's codec: decoders that walk an offset through the received bytes, encoders that append to a buffer. */
module ServerCodec {
  import opened ByteOrder
  import opened Grammar
  import opened Parsing

  method EncodePacket(packet: Packet) returns (r: Bytes)
    ensures r == Encode(packet)
  {
    var buffer := new ByteBuffer();
    buffer.PushBack(packet.version);
    buffer.WriteUint16(packet.command);
    buffer.WriteUint32(Low32(|packet.data|));
    buffer.Insert(packet.data);
    r := buffer.bytes;
  }

  method DecodePacket(data: Bytes) returns (r: Option<Packet>)
    ensures r == Decode(data)
  {
    if |data| < HEADER_SIZE {
      return None;
    }
    var version := data[0];
    var command := Read16(data, 1);
    var length := Read32(data, 3);
    if |data| != HEADER_SIZE + length {
      return None;
    }
    return Some(Packet(version, command, data[HEADER_SIZE..]));
  }

  // ---- Request decoders -------------------------------------------------------------------

  /** One step of the field parser, at an offset into the whole buffer. */
  lemma FieldAt(n: nat, d: Bytes, at: nat)
    requires n > 0 && at <= |d|
    ensures at + 2 > |d| || at + 2 + Read16(d, at) > |d| ==> ParseStrs(n, d[at..]) == None
    ensures at + 2 <= |d| && at + 2 + Read16(d, at) <= |d| ==>
      var end := at + 2 + Read16(d, at) as int;
      ParseStrs(n, d[at..]) ==
        match ParseStrs(n - 1, d[end..]) case None => None case Some(rest) => Some([d[at + 2..end]] + rest)
    ensures forall t: Bytes {:trigger ParseStrs(0, t)} :: ParseStrs(0, t) == Some([])
  {
    var t := d[at..];
    if at + 2 <= |d| {
      var len := Read16(d, at) as int;
      assert Read16(t, 0) == len;
      if at + 2 + len <= |d| {
        assert t[2 + len..] == d[at + 2 + len..];
        assert t[2..2 + len] == d[at + 2..at + 2 + len];
      }
    }
  }

  lemma {:induction false} FieldsNeedRoom(n: nat, d: Bytes)
    ensures ParseStrs(n, d).Some? ==> |d| >= 2 * n
  {
    if n > 0 && |d| >= 2 && |d| >= 2 + Read16(d, 0) {
      FieldsNeedRoom(n - 1, d[2 + Read16(d, 0) as int..]);
    }
  }

  method DecodeLoginRequest(data: Bytes) returns (r: Decoded<Request>)
    ensures r == ParseRequest(LOGIN_REQ, data)
  {
    hide ParseStrs, Read16;
    FieldsNeedRoom(2, data);
    if |data| < 4 {
      return Rejected;
    }
    assert data[0..] == data;
    FieldAt(2, data, 0);
    var offset := 0;
    var usernameLen := Read16(data, offset);
    offset := offset + 2;
    if offset + usernameLen > |data| {
      return Rejected;
    }
    var username := data[offset..offset + usernameLen];
    offset := offset + usernameLen;

    FieldAt(1, data, offset);
    if offset + 2 > |data| {
      return Rejected;
    }
    var passwordLen := Read16(data, offset);
    offset := offset + 2;
    if offset + passwordLen > |data| {
      return Rejected;
    }
    var password := data[offset..offset + passwordLen];
    return Accepted(Login(username, password));
  }

  method DecodeMessageRequest(data: Bytes) returns (r: Decoded<Request>)
    ensures r == ParseRequest(MESSAGE_REQ, data)
  {
    if |data| < 8 {
      return Rejected;
    }
    var toId := ReadI32(data, 0);
    var contentLen := Read32(data, 4);
    if Low32(4 + 4 + contentLen) > |data| {
      return Rejected;
    }
    if 8 + contentLen > |data| {
      return OverRead;
    }
    return Accepted(SendMessage(toId, data[8..8 + contentLen]));
  }

  method DecodeRegisterRequest(data: Bytes) returns (r: Decoded<Request>)
    ensures r == ParseRequest(REGISTER_REQ, data)
  {
    hide ParseStrs, Read16;
    FieldsNeedRoom(4, data);
    if |data| < 6 {
      return Rejected;
    }
    assert data[0..] == data;
    FieldAt(4, data, 0);
    var offset := 0;
    var usernameLen := Read16(data, offset);
    offset := offset + 2;
    if offset + usernameLen > |data| {
      return Rejected;
    }
    var username := data[offset..offset + usernameLen];
    offset := offset + usernameLen;

    FieldAt(3, data, offset);
    if offset + 2 > |data| {
      return Rejected;
    }
    var passwordLen := Read16(data, offset);
    offset := offset + 2;
    if offset + passwordLen > |data| {
      return Rejected;
    }
    var password := data[offset..offset + passwordLen];
    offset := offset + passwordLen;

    FieldAt(2, data, offset);
    if offset + 2 > |data| {
      return Rejected;
    }
    var questionLen := Read16(data, offset);
    offset := offset + 2;
    if offset + questionLen > |data| {
      return Rejected;
    }
    var question := data[offset..offset + questionLen];
    offset := offset + questionLen;

    FieldAt(1, data, offset);
    if offset + 2 > |data| {
      return Rejected;
    }
    var answerLen := Read16(data, offset);
    offset := offset + 2;
    if offset + answerLen > |data| {
      return Rejected;
    }
    var answer := data[offset..offset + answerLen];
    return Accepted(Register(username, password, question, answer));
  }

  method DecodeSecurityQuestionRequest(data: Bytes) returns (r: Decoded<Request>)
    ensures r == ParseRequest(SECURITY_QUESTION_REQ, data)
  {
    hide ParseStrs, Read16;
    FieldsNeedRoom(1, data);
    if |data| < 2 {
      return Rejected;
    }
    assert data[0..] == data;
    FieldAt(1, data, 0);
    var usernameLen := Read16(data, 0);
    if 2 + usernameLen > |data| {
      return Rejected;
    }
    return Accepted(SecurityQuestion(data[2..2 + usernameLen]));
  }

  method DecodeResetPasswordRequest(data: Bytes) returns (r: Decoded<Request>)
    ensures r == ParseRequest(RESET_PASSWORD_REQ, data)
  {
    hide ParseStrs, Read16;
    FieldsNeedRoom(3, data);
    if |data| < 6 {
      return Rejected;
    }
    assert data[0..] == data;
    FieldAt(3, data, 0);
    var offset := 0;
    var usernameLen := Read16(data, offset);
    offset := offset + 2;
    if offset + usernameLen > |data| {
      return Rejected;
    }
    var username := data[offset..offset + usernameLen];
    offset := offset + usernameLen;

    FieldAt(2, data, offset);
    if offset + 2 > |data| {
      return Rejected;
    }
    var passwordLen := Read16(data, offset);
    offset := offset + 2;
    if offset + passwordLen > |data| {
      return Rejected;
    }
    var newPassword := data[offset..offset + passwordLen];
    offset := offset + passwordLen;

    FieldAt(1, data, offset);
    if offset + 2 > |data| {
      return Rejected;
    }
    var answerLen := Read16(data, offset);
    offset := offset + 2;
    if offset + answerLen > |data| {
      return Rejected;
    }
    var answer := data[offset..offset + answerLen];
    return Accepted(ResetPassword(username, newPassword, answer));
  }

  method DecodeVersionCheckRequest(data: Bytes) returns (r: Decoded<Request>)
    ensures r == ParseRequest(VERSION_CHECK_REQ, data)
  {
    if |data| < 4 {
      return Rejected;
    }
    return Accepted(VersionCheck(ReadI32(data, 0)));
  }

  // ---- Response encoders ------------------------------------------------------------------

  method EncodeLoginResponse(error: u16, userId: i32, name: Bytes) returns (r: Bytes)
    ensures r == ResponseBody(LoginResp(error, userId, name))
  {
    var buffer := new ByteBuffer();
    buffer.WriteUint16(error);
    buffer.WriteInt32(userId);
    buffer.WriteString(name);
    r := buffer.bytes;
    assert r == Be16(error) + Be32(ToU32(userId)) + Str(name);
  }

  /** `encode_message_response` and `encode_register_response`: a status and an id. */
  method EncodeStatusAndId(error: u16, id: i32) returns (r: Bytes)
    ensures r == ResponseBody(MessageResp(error, id)) == ResponseBody(RegisterResp(error, id))
  {
    var buffer := new ByteBuffer();
    buffer.WriteUint16(error);
    buffer.WriteInt32(id);
    r := buffer.bytes;
  }

  /** `encode_add_friend_response` and `encode_reset_password_response`: a status alone. */
  method EncodeStatus(error: u16) returns (r: Bytes)
    ensures r == ResponseBody(AddFriendResp(error)) == ResponseBody(ResetPasswordResp(error))
  {
    var buffer := new ByteBuffer();
    buffer.WriteUint16(error);
    r := buffer.bytes;
  }

  method EncodeMessageNotify(fromId: i32, content: Bytes, timestamp: i64) returns (r: Bytes)
    ensures r == ResponseBody(Notify(fromId, content, timestamp))
  {
    var buffer := new ByteBuffer();
    buffer.WriteInt32(fromId);
    buffer.WriteUint32(Low32(|content|));
    buffer.Insert(content);
    buffer.WriteInt64(timestamp);
    r := buffer.bytes;
  }

  lemma {:induction false} EntriesSnoc(fs: seq<Friend>, f: Friend)
    ensures Entries(fs + [f]) == Entries(fs) + Entry(f)
  {
    if fs == [] {
      assert [f][1..] == [] && fs + [f] == [f];
      assert Entries([f]) == Entry(f) + [];
    } else {
      assert (fs + [f])[1..] == fs[1..] + [f];
      EntriesSnoc(fs[1..], f);
      assert Entry(fs[0]) + (Entries(fs[1..]) + Entry(f)) == Entries(fs) + Entry(f);
    }
  }

  lemma EntriesStep(fs: seq<Friend>, i: nat)
    requires i < |fs|
    ensures Entries(fs[..i + 1]) == Entries(fs[..i]) + Be32(ToU32(fs[i].id)) + Be16(Low16(|fs[i].name|)) + fs[i].name
  {
    hide Be16, Be32;
    assert fs[..i + 1] == fs[..i] + [fs[i]];
    EntriesSnoc(fs[..i], fs[i]);
  }

  method EncodeFriendListResponse(error: u16, friends: seq<Friend>) returns (r: Bytes)
    ensures r == ResponseBody(FriendListResp(error, friends))
  {
    hide Be16, Be32, Entries;
    var buffer := new ByteBuffer();
    buffer.WriteUint16(error);
    buffer.WriteUint32(Low32(|friends|));
    ghost var head := buffer.bytes;
    EntriesOfNone();
    for i := 0 to |friends|
      invariant fresh(buffer)
      invariant buffer.bytes == head + Entries(friends[..i])
    {
      EntriesStep(friends, i);
      buffer.WriteInt32(friends[i].id);
      buffer.WriteString(friends[i].name);
    }
    assert friends[..|friends|] == friends;
    r := buffer.bytes;
  }

  lemma EntriesOfNone()
    ensures Entries([]) == []
  {
  }

  method EncodeSecurityQuestionResponse(error: u16, question: Bytes) returns (r: Bytes)
    ensures r == ResponseBody(SecurityQuestionResp(error, question))
  {
    var buffer := new ByteBuffer();
    buffer.WriteUint16(error);
    buffer.WriteString(question);
    r := buffer.bytes;
    assert r == Be16(error) + Str(question);
  }

  method EncodeVersionCheckResponse(error: u16, version: i32, url: Bytes, desc: Bytes) returns (r: Bytes)
    ensures r == ResponseBody(VersionCheckResp(error, version, url, desc))
  {
    hide Be16, Be32;
    var buffer := new ByteBuffer();
    buffer.WriteUint16(error);
    buffer.WriteInt32(version);
    buffer.WriteString(url);
    assert buffer.bytes == Be16(error) + Be32(ToU32(version)) + Str(url);
    buffer.WriteString(desc);
    r := buffer.bytes;
    assert r == Be16(error) + Be32(ToU32(version)) + Str(url) + Str(desc);
  }
}
