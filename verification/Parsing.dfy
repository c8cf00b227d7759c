/** What the decoders of both codecs compute, and exactly which byte strings they accept.

    A decoder accepts a value, rejects the data, or (because a size check was computed in 32 bits, or tests
    for one byte and reads two) reads past the end of the buffer.  The last case is undefined behaviour in
    the source and is kept apart as `OverRead`. */
module Parsing {
  import opened ByteOrder
  import opened Grammar

  datatype Decoded<+T> = Accepted(value: T) | Rejected | OverRead

  // ---- Length-prefixed strings ------------------------------------------------------------

  /** `n` length-prefixed strings from the front of `d`; bytes after them are ignored. */
  function ParseStrs(n: nat, d: Bytes): Option<seq<Bytes>> {
    if n == 0 then Some([])
    else if |d| < 2 || |d| < 2 + Read16(d, 0) then None
    else
      var len := Read16(d, 0) as int;
      match ParseStrs(n - 1, d[2 + len..])
      case None => None
      case Some(rest) => Some([d[2..2 + len]] + rest)
  }

  /** The decoder accepts precisely the strings that start with the encoding of `ss`, and then it returns `ss`;
      so the value is unique and nothing outside the encoding is looked at. */
  lemma {:induction false} ParseStrsExact(n: nat, d: Bytes, ss: seq<Bytes>)
    ensures ParseStrs(n, d) == Some(ss) <==> |ss| == n && AllShort(ss) && Strs(ss) <= d
  {
    hide Str, AllShort, Short, Read16;
    if n == 0 || ss == [] {
      NoStrs(n, d, ss);
    } else {
      var s, more := ss[0], ss[1..];
      assert ss == [s] + more;
      AllShortCons(s, more);
      ParseStep(n, d, s, more);
      ConcatPrefix(Str(s), Strs(more), d);
      if Short(s) && Str(s) <= d {
        StrLength(s);
        ParseStrsExact(n - 1, d[2 + |s|..], more);
      }
    }
  }

  lemma AllShortCons(s: Bytes, more: seq<Bytes>)
    ensures AllShort([s] + more) <==> Short(s) && AllShort(more)
  {
    var ss := [s] + more;
    assert ss[0] == s && forall i | 0 <= i < |more| :: ss[i + 1] == more[i];
    if AllShort(ss) {
      forall i | 0 <= i < |more| ensures Short(more[i]) { assert Short(ss[i + 1]); }
    }
  }

  lemma NoStrs(n: nat, d: Bytes, ss: seq<Bytes>)
    requires n == 0 || ss == []
    ensures ParseStrs(n, d) == Some(ss) <==> |ss| == n && AllShort(ss) && Strs(ss) <= d
  {
  }

  /** The parser's first step succeeds with `s` exactly when `s` is the string at the front. */
  lemma ParseStep(n: nat, d: Bytes, s: Bytes, more: seq<Bytes>)
    requires n > 0
    ensures ParseStrs(n, d) == Some([s] + more) <==>
      Short(s) && Str(s) <= d && 2 + |s| <= |d| && ParseStrs(n - 1, d[2 + |s|..]) == Some(more)
  {
    StrPrefix(d, s);
    hide Str, Short, Strs;
    if ParseStrs(n, d) == Some([s] + more) {
      var len := Read16(d, 0) as int;
      var rest := ParseStrs(n - 1, d[2 + len..]).value;
      assert ([d[2..2 + len]] + rest)[0] == s && ([d[2..2 + len]] + rest)[1..] == rest && ([s] + more)[1..] == more;
    }
  }

  /** A string field sits at the front of `d` exactly when the length field announces it. */
  lemma StrPrefix(d: Bytes, s: Bytes)
    ensures Short(s) && Str(s) <= d
      <==> |d| >= 2 && |d| >= 2 + Read16(d, 0) && Read16(d, 0) == |s| && d[2..2 + |s|] == s
  {
    hide Be16, Be32, Be64;
    if |d| >= 2 && |s| < TWO_TO_16 {
      Read16Exact(d, 0, |s|);
      assert d[..2] == d[0..0 + 2];
      ConcatPrefix(Be16(|s|), s, d);
      if |d| >= 2 + |s| {
        assert d[2..2 + |s|] == d[2..][..|s|];
      }
    }
  }

  /** A concatenation is a prefix of `d` exactly when its parts lie one after the other at the front of `d`. */
  lemma ConcatPrefix(a: Bytes, b: Bytes, d: Bytes)
    ensures a + b <= d <==> a <= d && b <= d[|a|..]
  {
    if a + b <= d {
      assert d[..|a|] == (a + b)[..|a|] == a;
      assert d[|a|..][..|b|] == (a + b)[|a|..] == b;
    }
    if a <= d && b <= d[|a|..] {
      assert d == d[..|a|] + d[|a|..];
    }
  }

  lemma StrsOf2(a: Bytes, b: Bytes)
    ensures Strs([a, b]) == Str(a) + Str(b)
  {
    assert [a, b][1..] == [b] && [b][1..] == [];
    assert Strs([b]) == Str(b) + Strs([]) == Str(b);
  }

  lemma StrsOf1(a: Bytes)
    ensures Strs([a]) == Str(a)
  {
    assert [a][1..] == [];
    assert Strs([a]) == Str(a) + [];
  }

  lemma StrsOf3(a: Bytes, b: Bytes, c: Bytes)
    ensures Strs([a, b, c]) == Str(a) + Str(b) + Str(c)
  {
    assert [a, b, c][1..] == [b, c];
    StrsOf2(b, c);
    assert Str(a) + (Str(b) + Str(c)) == Str(a) + Str(b) + Str(c);
  }

  lemma StrsOf4(a: Bytes, b: Bytes, c: Bytes, e: Bytes)
    ensures Strs([a, b, c, e]) == Str(a) + Str(b) + Str(c) + Str(e)
  {
    assert [a, b, c, e][1..] == [b, c, e];
    StrsOf3(b, c, e);
    assert Str(a) + (Str(b) + Str(c) + Str(e)) == Str(a) + Str(b) + Str(c) + Str(e);
  }

  // ---- Requests ---------------------------------------------------------------------------

  function ParseMessageRequest(d: Bytes): Decoded<Request> {
    if |d| < 8 then Rejected
    else
      var len := Read32(d, 4) as int;
      if Low32(8 + len) > |d| then Rejected
      else if 8 + len > |d| then OverRead
      else Accepted(SendMessage(ReadI32(d, 0), d[8..8 + len]))
  }

  /** The server's dispatch: the decoder that belongs to `command`, or rejection of an unknown command. */
  function ParseRequest(command: u16, d: Bytes): Decoded<Request> {
    if command == LOGIN_REQ then
      match ParseStrs(2, d) case None => Rejected case Some(ss) =>
        ParseStrsCount(2, d); Accepted(Login(ss[0], ss[1]))
    else if command == MESSAGE_REQ then ParseMessageRequest(d)
    else if command == FRIEND_LIST_REQ then Accepted(FriendList)
    else if command == ADD_FRIEND_REQ then
      if |d| >= 4 then Accepted(AddFriend(ReadI32(d, 0))) else Rejected
    else if command == REGISTER_REQ then
      match ParseStrs(4, d) case None => Rejected case Some(ss) =>
        ParseStrsCount(4, d); Accepted(Register(ss[0], ss[1], ss[2], ss[3]))
    else if command == SECURITY_QUESTION_REQ then
      match ParseStrs(1, d) case None => Rejected case Some(ss) =>
        ParseStrsCount(1, d); Accepted(SecurityQuestion(ss[0]))
    else if command == RESET_PASSWORD_REQ then
      match ParseStrs(3, d) case None => Rejected case Some(ss) =>
        ParseStrsCount(3, d); Accepted(ResetPassword(ss[0], ss[1], ss[2]))
    else if command == VERSION_CHECK_REQ then
      if |d| >= 4 then Accepted(VersionCheck(ReadI32(d, 0))) else Rejected
    else Rejected
  }

  lemma {:induction false} ParseStrsCount(n: nat, d: Bytes)
    ensures ParseStrs(n, d).Some? ==> |ParseStrs(n, d).value| == n
  {
    if n > 0 && |d| >= 2 && |d| >= 2 + Read16(d, 0) {
      ParseStrsCount(n - 1, d[2 + Read16(d, 0) as int..]);
    }
  }

  lemma I32Prefix(d: Bytes, v: i32)
    ensures Be32(ToU32(v)) <= d <==> |d| >= 4 && ReadI32(d, 0) == v
  {
    if |d| >= 4 {
      ReadI32Exact(d, 0, v);
      assert d[..4] == d[0..0 + 4];
    }
  }

  lemma U32Prefix(d: Bytes, v: u32)
    ensures Be32(v) <= d <==> |d| >= 4 && Read32(d, 0) == v
  {
    if |d| >= 4 {
      Read32Exact(d, 0, v);
      assert d[..4] == d[0..0 + 4];
    }
  }

  /** An id, a 32-bit length and that many bytes, at the front of `d`. */
  predicate Sized(d: Bytes, id: i32, content: Bytes) {
    |d| >= 8 + |content| && ReadI32(d, 0) == id && Read32(d, 4) == |content| && d[8..8 + |content|] == content
  }

  lemma SizedPrefix(d: Bytes, id: i32, content: Bytes)
    requires |content| < TWO_TO_32
    ensures Be32(ToU32(id)) + Be32(|content|) + content <= d <==> Sized(d, id, content)
  {
    hide Be16, Be32, Be64;
    var n := |content|;
    var a, b := Be32(ToU32(id)), Be32(n);
    if |d| >= 8 + n {
      assert a + b + content == a + (b + content);
      ConcatPrefix(a, b + content, d);
      I32Prefix(d, id);
      ConcatPrefix(b, content, d[4..]);
      U32Prefix(d[4..], n);
      assert Read32(d[4..], 0) == Read32(d, 4);
      assert d[4..][4..] == d[8..];
      assert d[8..][..n] == d[8..8 + n];
    }
  }

  lemma MessageRequestExact(d: Bytes, to: i32, content: Bytes)
    ensures ParseMessageRequest(d) == Accepted(SendMessage(to, content))
      <==> |content| < TWO_TO_32 && RequestBody(SendMessage(to, content)) <= d
  {
    hide Be16, Be32, Be64;
    if ParseMessageRequest(d) == Accepted(SendMessage(to, content)) {
      SizedPrefix(d, to, content);
    }
    if |content| < TWO_TO_32 && RequestBody(SendMessage(to, content)) <= d {
      SizedPrefix(d, to, content);
    }
  }

  lemma LoginExact(d: Bytes, u: Bytes, p: Bytes)
    ensures ParseRequest(LOGIN_REQ, d) == Accepted(Login(u, p)) <==> Short(u) && Short(p) && Str(u) + Str(p) <= d
  {
    hide ParseStrs, Str, Strs, Short;
    ParseStrsExact(2, d, [u, p]);
    ParseStrsCount(2, d);
    StrsOf2(u, p);
    AllShortOf([u, p]);
    if ParseRequest(LOGIN_REQ, d) == Accepted(Login(u, p)) {
      assert ParseStrs(2, d).value == [u, p];
    }
  }

  lemma RegisterExact(d: Bytes, u: Bytes, p: Bytes, q: Bytes, a: Bytes)
    ensures ParseRequest(REGISTER_REQ, d) == Accepted(Register(u, p, q, a))
      <==> Short(u) && Short(p) && Short(q) && Short(a) && Str(u) + Str(p) + Str(q) + Str(a) <= d
  {
    hide ParseStrs, Str, Strs, Short;
    ParseStrsExact(4, d, [u, p, q, a]);
    ParseStrsCount(4, d);
    StrsOf4(u, p, q, a);
    AllShortOf([u, p, q, a]);
    if ParseRequest(REGISTER_REQ, d) == Accepted(Register(u, p, q, a)) {
      assert ParseStrs(4, d).value == [u, p, q, a];
    }
  }

  lemma SecurityQuestionExact(d: Bytes, u: Bytes)
    ensures ParseRequest(SECURITY_QUESTION_REQ, d) == Accepted(SecurityQuestion(u)) <==> Short(u) && Str(u) <= d
  {
    hide ParseStrs, Str, Strs, Short;
    ParseStrsExact(1, d, [u]);
    ParseStrsCount(1, d);
    StrsOf1(u);
    AllShortOf([u]);
    if ParseRequest(SECURITY_QUESTION_REQ, d) == Accepted(SecurityQuestion(u)) {
      assert ParseStrs(1, d).value == [u];
    }
  }

  lemma ResetPasswordExact(d: Bytes, u: Bytes, p: Bytes, a: Bytes)
    ensures ParseRequest(RESET_PASSWORD_REQ, d) == Accepted(ResetPassword(u, p, a))
      <==> Short(u) && Short(p) && Short(a) && Str(u) + Str(p) + Str(a) <= d
  {
    hide ParseStrs, Str, Strs, Short;
    ParseStrsExact(3, d, [u, p, a]);
    ParseStrsCount(3, d);
    StrsOf3(u, p, a);
    AllShortOf([u, p, a]);
    if ParseRequest(RESET_PASSWORD_REQ, d) == Accepted(ResetPassword(u, p, a)) {
      assert ParseStrs(3, d).value == [u, p, a];
    }
  }

  lemma AllShortOf(ss: seq<Bytes>)
    requires 0 < |ss| <= 4
    ensures AllShort(ss) <==>
      Short(ss[0]) && (|ss| > 1 ==> Short(ss[1])) && (|ss| > 2 ==> Short(ss[2])) && (|ss| > 3 ==> Short(ss[3]))
  {
  }

  /** Exactly which request bodies every server decoder accepts: those that begin with what the client writes
      for some request whose strings fit their length fields, and that request is what is returned. */
  lemma ParseRequestExact(command: u16, d: Bytes, r: Request)
    ensures ParseRequest(command, d) == Accepted(r)
      <==> command == RequestCommand(r) && RequestFits(r) && RequestBody(r) <= d
  {
    hide ParseStrs, Str, Short, Be32, ParseMessageRequest;
    MessageRequestOnly(d);
    match r
    case Login(u, p) => LoginExact(d, u, p);
    case SendMessage(to, content) => MessageRequestExact(d, to, content);
    case FriendList =>
    case AddFriend(f) => I32Prefix(d, f);
    case Register(u, p, q, a) => RegisterExact(d, u, p, q, a);
    case SecurityQuestion(u) => SecurityQuestionExact(d, u);
    case ResetPassword(u, p, a) => ResetPasswordExact(d, u, p, a);
    case VersionCheck(v) => I32Prefix(d, v);
  }

  lemma MessageRequestOnly(d: Bytes)
    ensures ParseMessageRequest(d).Accepted? ==> ParseMessageRequest(d).value.SendMessage?
  {
  }

  /** What the client encodes, the server decodes, if and only if every string fits its length field. */
  lemma RequestRoundTrip(r: Request)
    ensures ParseRequest(RequestCommand(r), RequestBody(r)) == Accepted(r) <==> RequestFits(r)
  {
    ParseRequestExact(RequestCommand(r), RequestBody(r), r);
  }

  /** The 32-bit sum `4 + 4 + content_len` lets the message decoder run off the buffer precisely when the
      announced length is within eight of 2^32 and the data is not really that long. */
  lemma RequestOverReadExact(command: u16, d: Bytes)
    ensures ParseRequest(command, d).OverRead?
      <==> command == MESSAGE_REQ && |d| >= 8 && TWO_TO_32 - 8 <= Read32(d, 4) && |d| < 8 + Read32(d, 4)
  {
    if |d| >= 8 && TWO_TO_32 - 8 <= Read32(d, 4) {
      assert Low32(8 + Read32(d, 4)) == 8 + Read32(d, 4) - TWO_TO_32;
    }
  }

  // ---- Responses --------------------------------------------------------------------------

  function ParseLoginResp(d: Bytes): Decoded<Response> {
    if |d| < 6 then Rejected
    else
      var e, id := Read16(d, 0), ReadI32(d, 2);
      if |d| == 6 then Accepted(LoginResp(e, id, []))
      else if |d| == 7 then OverRead
      else
        var len := Read16(d, 6) as int;
        Accepted(LoginResp(e, id, if 8 + len <= |d| then d[8..8 + len] else []))
  }

  /** Both the bound and the offset of the timestamp are 32-bit sums. */
  function ParseNotify(d: Bytes): Decoded<Response> {
    if |d| < 16 then Rejected
    else
      var len := Read32(d, 4) as int;
      if Low32(16 + len) > |d| then Rejected
      else if 8 + len > |d| || Low32(8 + len) + 8 > |d| then OverRead
      else Accepted(Notify(ReadI32(d, 0), d[8..8 + len], ReadI64(d, Low32(8 + len))))
  }

  /** The entry at `at`, when all of it is inside `d`. */
  function EntryAt(d: Bytes, at: nat): Option<Friend> {
    if at + 6 > |d| then None
    else
      var len := Read16(d, at + 4) as int;
      if at + 6 + len > |d| then None
      else Some(Friend(ReadI32(d, at), d[at + 6..at + 6 + len]))
  }

  /** Entries from `at` on, at most `count` of them, stopping at the first that is not wholly inside `d`. */
  function EntriesFrom(d: Bytes, at: nat, count: nat): seq<Friend>
    decreases count
  {
    if count == 0 then []
    else match EntryAt(d, at)
      case None => []
      case Some(f) => [f] + EntriesFrom(d, at + 6 + |f.name|, count - 1)
  }

  function ParseFriendListResp(d: Bytes): Decoded<Response> {
    if |d| < 6 then Rejected
    else if Read16(d, 0) != SUCCESS then Rejected
    else Accepted(FriendListResp(SUCCESS, EntriesFrom(d, 6, Read32(d, 2))))
  }

  function ParseSecurityQuestionResp(d: Bytes): Decoded<Response> {
    if |d| < 2 then Rejected
    else
      var e := Read16(d, 0);
      if |d| == 2 then Accepted(SecurityQuestionResp(e, []))
      else if |d| == 3 then OverRead
      else
        var len := Read16(d, 2) as int;
        Accepted(SecurityQuestionResp(e, if 4 + len <= |d| then d[4..4 + len] else []))
  }

  /** A length-prefixed string at `at`: when the length field is there the offset moves past it, and past the
      text only if the text is there too. */
  function OptionalStr(d: Bytes, at: nat): (r: (Bytes, nat))
    requires at <= |d|
    ensures at <= r.1 <= |d|
  {
    if at + 2 > |d| then ([], at)
    else
      var len := Read16(d, at) as int;
      if at + 2 + len <= |d| then (d[at + 2..at + 2 + len], at + 2 + len) else ([], at + 2)
  }

  function ParseVersionCheckResp(d: Bytes): Decoded<Response> {
    if |d| < 6 then Rejected
    else
      var (url, mid) := OptionalStr(d, 6);
      var (desc, end) := OptionalStr(d, mid);
      Accepted(VersionCheckResp(Read16(d, 0), ReadI32(d, 2), url, desc))
  }

  /** The client's dispatch.  It has no case for the replies to a message and to an add-friend request. */
  function ParseResponse(command: u16, d: Bytes): Decoded<Response> {
    if command == LOGIN_RESP then ParseLoginResp(d)
    else if command == MESSAGE_NOTIFY then ParseNotify(d)
    else if command == FRIEND_LIST_RESP then ParseFriendListResp(d)
    else if command == REGISTER_RESP then
      if |d| < 6 then Rejected else Accepted(RegisterResp(Read16(d, 0), ReadI32(d, 2)))
    else if command == SECURITY_QUESTION_RESP then ParseSecurityQuestionResp(d)
    else if command == RESET_PASSWORD_RESP then
      if |d| < 2 then Rejected else Accepted(ResetPasswordResp(Read16(d, 0)))
    else if command == VERSION_CHECK_RESP then ParseVersionCheckResp(d)
    else Rejected
  }

  lemma I64Prefix(d: Bytes, at: nat, v: i64)
    requires at <= |d|
    ensures Be64(v) <= d[at..] <==> at + 8 <= |d| && ReadI64(d, at) == v
  {
    if at + 8 <= |d| {
      ReadI64Exact(d, at, v);
      assert d[at..][..8] == d[at..at + 8];
    }
  }

  /** The fields of a notification; the offset of the timestamp is a 32-bit sum. */
  predicate NotifyFields(d: Bytes, from: i32, content: Bytes, ts: i64) {
    |d| >= 16 && Sized(d, from, content)
    && Low32(8 + |content|) + 8 <= |d| && ReadI64(d, Low32(8 + |content|)) == ts
  }

  lemma Low32AtMost(n: nat)
    ensures Low32(n) <= n
    ensures Low32(8 + n) <= Low32(n) + 8
    ensures n < TWO_TO_32 ==> Low32(n) == n
    ensures TWO_TO_32 <= n < 2 * TWO_TO_32 ==> Low32(n) == n - TWO_TO_32
  {
  }

  lemma NotifyParsed(d: Bytes, from: i32, content: Bytes, ts: i64)
    ensures ParseNotify(d) == Accepted(Notify(from, content, ts)) <==> |content| < TWO_TO_32 && NotifyFields(d, from, content, ts)
  {
    hide Be16, Be32, Be64, Read32, ReadI32, ReadI64, Low32;
    Low32AtMost(16 + |content|);
    Low32AtMost(8 + |content|);
  }

  lemma NotifyPrefix(d: Bytes, from: i32, content: Bytes, ts: i64)
    requires |content| < TWO_TO_32 - 8
    ensures ResponseBody(Notify(from, content, ts)) <= d <==> NotifyFields(d, from, content, ts)
  {
    hide Be16, Be32, Be64, ReadI64, Low32, Sized;
    var n := |content|;
    Low32AtMost(n);
    Low32AtMost(8 + n);
    SizedPrefix(d, from, content);
    ConcatPrefix(Be32(ToU32(from)) + Be32(n) + content, Be64(ts), d);
    if 8 + n <= |d| {
      I64Prefix(d, 8 + n, ts);
    }
    SizedLength(d, from, content);
  }

  lemma SizedLength(d: Bytes, id: i32, content: Bytes)
    ensures Sized(d, id, content) ==> 8 + |content| <= |d|
  {
  }

  /** Where the 32-bit sum has wrapped, the timestamp is read from among the first sixteen bytes. */
  predicate WrappedNotify(d: Bytes, from: i32, content: Bytes, ts: i64)
    requires TWO_TO_32 - 8 <= |content| < TWO_TO_32
  {
    var at := |content| + 8 - TWO_TO_32;
    |d| >= 8 + |content| && Be32(ToU32(from)) + Be32(|content|) + content <= d && d[at..at + 8] == Be64(ts)
  }

  lemma NotifyWrapped(d: Bytes, from: i32, content: Bytes, ts: i64)
    requires TWO_TO_32 - 8 <= |content| < TWO_TO_32
    ensures WrappedNotify(d, from, content, ts) <==> NotifyFields(d, from, content, ts)
  {
    hide Be16, Be32, Be64, ReadI64, Low32;
    Low32AtMost(8 + |content|);
    SizedPrefix(d, from, content);
    if |d| >= 8 + |content| {
      ReadI64Exact(d, |content| + 8 - TWO_TO_32, ts);
    }
  }

  /** Exactly which bodies decode to a given notification: below the length at which the offset of the timestamp
      wraps, those that begin with its encoding. */
  lemma NotifyExact(d: Bytes, from: i32, content: Bytes, ts: i64)
    ensures ParseNotify(d) == Accepted(Notify(from, content, ts)) <==>
      if |content| < TWO_TO_32 - 8 then ResponseBody(Notify(from, content, ts)) <= d
      else |content| < TWO_TO_32 && WrappedNotify(d, from, content, ts)
  {
    hide *;
    NotifyParsed(d, from, content, ts);
    if |content| < TWO_TO_32 - 8 {
      NotifyPrefix(d, from, content, ts);
    } else if |content| < TWO_TO_32 {
      NotifyWrapped(d, from, content, ts);
    }
  }

  /** Exactly when a client decoder reads past its buffer: a login reply of seven bytes, a security-question reply of
      three, or a notification whose announced length is within sixteen of 2^32 and that lacks the content or, while
      its offset has not wrapped to the front, the timestamp. */
  lemma ResponseOverReadExact(command: u16, d: Bytes)
    ensures ParseResponse(command, d).OverRead? <==>
      || (command == LOGIN_RESP && |d| == 7)
      || (command == SECURITY_QUESTION_RESP && |d| == 3)
      || (command == MESSAGE_NOTIFY && |d| >= 16 && TWO_TO_32 - 16 <= Read32(d, 4)
          && |d| < Read32(d, 4) as int + if Read32(d, 4) < TWO_TO_32 - 8 then 16 else 8)
  {
    if |d| >= 16 {
      Low32AtMost(8 + Read32(d, 4));
      Low32AtMost(16 + Read32(d, 4));
    }
  }

  // ---- The friend list under truncation ---------------------------------------------------

  lemma EntriesCons(f: Friend, rest: seq<Friend>)
    ensures Entries([f] + rest) == Entry(f) + Entries(rest)
    ensures |Entry(f)| == 6 + |f.name|
  {
    assert ([f] + rest)[1..] == rest;
  }

  /** On arbitrary data the decoded entries are what the bytes after the header begin with, and decoding stopped
      because the count was reached or because no whole entry was left. */
  lemma {:induction false} EntriesFromExact(d: Bytes, at: nat, count: nat)
    requires at <= |d|
    ensures var fs := EntriesFrom(d, at, count);
      && |fs| <= count
      && at + |Entries(fs)| <= |d|
      && Entries(fs) <= d[at..]
      && 6 * |fs| <= |Entries(fs)|
      && (|fs| == count || EntryAt(d, at + |Entries(fs)|) == None)
    decreases count
  {
    hide EntryAt, Entry;
    if count > 0 && EntryAt(d, at).Some? {
      var f := EntryAt(d, at).value;
      EntryAtExact(d, at, f);
      EntriesCons(f, []);
      var next := at + 6 + |f.name|;
      EntriesFromExact(d, next, count - 1);
      var rest := EntriesFrom(d, next, count - 1);
      EntriesCons(f, rest);
      ConcatPrefix(Entry(f), Entries(rest), d[at..]);
      assert d[at..][|Entry(f)|..] == d[next..];
      assert EntriesFrom(d, at, count) == [f] + rest;
    }
  }

  lemma EntryAtExact(d: Bytes, at: nat, f: Friend)
    requires at <= |d|
    ensures EntryAt(d, at) == Some(f) <==> Short(f.name) && Entry(f) <= d[at..]
  {
    hide Be16, Be32, Be64;
    var t := d[at..];
    ConcatPrefix(Be32(ToU32(f.id)), Str(f.name), t);
    if |t| >= 4 {
      I32Prefix(t, f.id);
      StrPrefix(t[4..], f.name);
      assert ReadI32(t, 0) == ReadI32(d, at);
      if |t| >= 6 {
        var len := Read16(d, at + 4) as int;
        assert Read16(t[4..], 0) == len;
        if at + 6 + len <= |d| {
          assert t[4..][2..2 + len] == d[at + 6..at + 6 + len];
        }
      }
    }
  }

  lemma {:induction false} EntriesLength(fs: seq<Friend>, k: nat)
    requires k <= |fs|
    ensures |Entries(fs[..k])| <= |Entries(fs)|
    ensures k < |fs| ==> |Entries(fs[..k + 1])| == |Entries(fs[..k])| + 6 + |fs[k].name|
  {
    if k > 0 {
      assert fs[..k][1..] == fs[1..][..k - 1];
      EntriesLength(fs[1..], k - 1);
      if k < |fs| {
        assert fs[..k + 1][1..] == fs[1..][..k];
      }
    } else if k < |fs| {
      assert fs[..1] == [fs[0]] && fs[..1][1..] == [];
      assert Entries(fs[..1]) == Entry(fs[0]) + [];
    }
  }

  lemma DropEntry(d: Bytes, at: nat, fs: seq<Friend>)
    requires fs != [] && at + |Entry(fs[0])| <= |d| && d[at..] <= Entries(fs)
    ensures d[at + |Entry(fs[0])|..] <= Entries(fs[1..])
  {
    var n := |Entry(fs[0])|;
    var all, t := Entries(fs), d[at..];
    assert all[n..] == Entries(fs[1..]);
    assert t == all[..|t|];
    assert d[at + n..] == t[n..] == all[n..][..|t| - n];
  }

  /** Decoding from a buffer that holds a prefix of the encoded entries gives the longest run of entries that
      lies wholly inside it. */
  lemma {:induction false} EntriesFromPrefix(d: Bytes, at: nat, fs: seq<Friend>) returns (k: nat)
    requires at <= |d| && d[at..] <= Entries(fs)
    requires forall i | 0 <= i < |fs| :: Short(fs[i].name)
    ensures k <= |fs| && EntriesFrom(d, at, |fs|) == fs[..k]
    ensures at + |Entries(fs[..k])| <= |d|
    ensures k < |fs| ==> |d| < at + |Entries(fs[..k + 1])|
    decreases |fs|
  {
    hide EntryAt, Entry, Entries;
    k := 0;
    assert fs[..0] == [];
    NoEntries(d, at);
    if fs != [] {
      var f, more := fs[0], fs[1..];
      EntriesCons(f, more);
      assert fs == [f] + more;
      var n := |Entry(f)|;
      if at + n <= |d| {
        assert d[at..][..n] == Entries(fs)[..n] == Entry(f);
        EntryAtExact(d, at, f);
        DropEntry(d, at, fs);
        var j := EntriesFromPrefix(d, at + n, more);
        k := j + 1;
        assert EntriesFrom(d, at, |fs|) == [f] + EntriesFrom(d, at + n, |more|);
        assert fs[..k] == [f] + more[..j];
        EntriesCons(f, more[..j]);
        if k < |fs| {
          assert fs[..k + 1] == [f] + more[..j + 1];
          EntriesCons(f, more[..j + 1]);
        }
      } else {
        ShortEntry(d, at, f, fs);
        assert fs[..1] == [f] + [];
        EntriesCons(f, []);
      }
    }
  }

  lemma NoEntries(d: Bytes, at: nat)
    ensures |Entries([])| == 0
    ensures EntryAt(d, at) == None ==> forall n: nat :: EntriesFrom(d, at, n) == []
  {
  }

  /** A buffer that ends inside the first entry has no entry to offer. */
  lemma ShortEntry(d: Bytes, at: nat, f: Friend, fs: seq<Friend>)
    requires fs != [] && fs[0] == f && Short(f.name)
    requires at <= |d| < at + 6 + |f.name| && d[at..] <= Entries(fs)
    ensures EntryAt(d, at) == None
  {
    hide Be16, Be32, Be64;
    var t := d[at..];
    if |t| >= 6 {
      assert t == Entries(fs)[..|t|] == Entry(f)[..|t|];
      assert d[at + 4..at + 6] == t[4..6] == Entry(f)[4..6] == Be16(|f.name|);
      Read16Exact(d, at + 4, |f.name|);
    }
  }

  /** The client's view of a friend list cut off anywhere after its header: the longest run of entries wholly
      inside the cut; the whole list when nothing is cut. */
  lemma FriendListTruncated(fs: seq<Friend>, cut: nat) returns (k: nat)
    requires ResponseFits(FriendListResp(SUCCESS, fs))
    requires 6 <= cut <= |ResponseBody(FriendListResp(SUCCESS, fs))|
    ensures k <= |fs|
    ensures ParseFriendListResp(ResponseBody(FriendListResp(SUCCESS, fs))[..cut]) == Accepted(FriendListResp(SUCCESS, fs[..k]))
    ensures 6 + |Entries(fs[..k])| <= cut
    ensures k < |fs| ==> cut < 6 + |Entries(fs[..k + 1])|
    ensures cut == |ResponseBody(FriendListResp(SUCCESS, fs))| ==> k == |fs|
  {
    hide Be16, Be32, Be64;
    var body := ResponseBody(FriendListResp(SUCCESS, fs));
    var d := body[..cut];
    assert d[0..0 + 2] == Be16(SUCCESS);
    Read16Exact(d, 0, SUCCESS);
    assert d[2..2 + 4] == body[2..6] == Be32(|fs|);
    Read32Exact(d, 2, |fs|);
    assert d[6..] == Entries(fs)[..cut - 6];
    k := EntriesFromPrefix(d, 6, fs);
    if k < |fs| {
      EntriesLength(fs, k + 1);
    }
  }

  /** Whatever the count field says, the result is bounded by the bytes received. */
  lemma FriendListBounded(d: Bytes)
    requires ParseFriendListResp(d).Accepted?
    ensures |ParseFriendListResp(d).value.friends| <= (|d| - 6) / 6
  {
    EntriesFromExact(d, 6, Read32(d, 2));
  }

  // ---- Round trips of the responses the client understands ---------------------------------

  predicate Understood(r: Response) {
    !r.MessageResp? && !r.AddFriendResp?
  }

  lemma OptionalStrAt(d: Bytes, at: nat, s: Bytes)
    requires at <= |d| && Short(s) && Str(s) <= d[at..]
    ensures OptionalStr(d, at) == (s, at + 2 + |s|)
  {
    StrPrefix(d[at..], s);
    assert Read16(d[at..], 0) == Read16(d, at);
    assert d[at..][2..2 + |s|] == d[at + 2..at + 2 + |s|];
  }

  lemma HeadOfBody(d: Bytes, e: u16, id: i32)
    requires |d| >= 6 && d[..6] == Be16(e) + Be32(ToU32(id))
    ensures Read16(d, 0) == e && ReadI32(d, 2) == id
  {
    hide Be16, Be32, Be64;
    assert d[0..0 + 2] == d[..6][0..2] == Be16(e);
    assert d[2..2 + 4] == d[..6][2..6] == Be32(ToU32(id));
    Read16Exact(d, 0, e);
    ReadI32Exact(d, 2, id);
  }

  /** Below its bounds, what the server encodes the client decodes. */
  lemma ResponseDecodes(r: Response)
    requires ResponseFits(r) && Understood(r)
    ensures ParseResponse(ResponseCommand(r), ResponseBody(r)) == Accepted(r)
  {
    var d := ResponseBody(r);
    match r
    case LoginResp(e, id, name) => LoginRespRoundTrip(e, id, name);
    case Notify(from, content, ts) => NotifyExact(d, from, content, ts);
    case FriendListResp(e, fs) =>
      assert d[..|d|] == d;
      var k := FriendListTruncated(fs, |d|);
      assert fs[..k] == fs;
    case RegisterResp(e, id) =>
      assert d[..6] == d;
      HeadOfBody(d, e, id);
    case SecurityQuestionResp(e, q) => SecurityQuestionRespRoundTrip(e, q);
    case ResetPasswordResp(e) =>
      assert d[0..0 + 2] == Be16(e);
      Read16Exact(d, 0, e);
    case VersionCheckResp(e, v, url, desc) => VersionCheckRespRoundTrip(e, v, url, desc);
  }

  lemma {:induction false} EntriesShort(d: Bytes, at: nat, count: nat)
    ensures var fs := EntriesFrom(d, at, count);
      |fs| <= count && forall i | 0 <= i < |fs| :: Short(fs[i].name)
    decreases count
  {
    if count > 0 && EntryAt(d, at).Some? {
      EntriesShort(d, at + 6 + |EntryAt(d, at).value.name|, count - 1);
    }
  }

  lemma OptionalStrShort(d: Bytes, at: nat)
    requires at <= |d|
    ensures Short(OptionalStr(d, at).0)
  {
  }

  /** Whatever the client decodes, from any data under any command, it could have been sent. */
  lemma DecodedFits(command: u16, d: Bytes, r: Response)
    requires ParseResponse(command, d) == Accepted(r)
    ensures command == ResponseCommand(r) && Understood(r)
    ensures if r.Notify? then |r.content| < TWO_TO_32 else ResponseFits(r)
  {
    if command == FRIEND_LIST_RESP {
      EntriesShort(d, 6, Read32(d, 2));
    } else if command == VERSION_CHECK_RESP {
      hide OptionalStr;
      OptionalStrShort(d, 6);
      OptionalStrShort(d, OptionalStr(d, 6).1);
    }
  }

  /** The client decodes exactly those responses to themselves that it has a decoder for and whose strings, entry
      count and status its format can express. */
  lemma ResponseRoundTrip(r: Response)
    requires !r.Notify?
    ensures ParseResponse(ResponseCommand(r), ResponseBody(r)) == Accepted(r) <==> ResponseFits(r) && Understood(r)
  {
    hide ParseResponse, ResponseFits, ResponseCommand, ResponseBody;
    if ResponseFits(r) && Understood(r) {
      ResponseDecodes(r);
    }
    if ParseResponse(ResponseCommand(r), ResponseBody(r)) == Accepted(r) {
      DecodedFits(ResponseCommand(r), ResponseBody(r), r);
    }
  }

  /** The body of a notification decodes to itself exactly when its content is eight bytes or more short of 2^32 or,
      up to 2^32, the bytes the timestamp is then read from happen to be those of the timestamp.  (The length field
      of a packet allows no more than 2^32 - 17 bytes of content.) */
  lemma NotifyRoundTrip(from: i32, content: Bytes, ts: i64)
    ensures var d := ResponseBody(Notify(from, content, ts));
      ParseNotify(d) == Accepted(Notify(from, content, ts)) <==>
        || |content| < TWO_TO_32 - 8
        || (|content| < TWO_TO_32 && var at := |content| + 8 - TWO_TO_32; d[at..at + 8] == Be64(ts))
  {
    hide Be16, Be32, Be64, ParseNotify;
    NotifyExact(ResponseBody(Notify(from, content, ts)), from, content, ts);
  }

  lemma LoginRespRoundTrip(e: u16, id: i32, name: Bytes)
    requires Short(name)
    ensures ParseLoginResp(ResponseBody(LoginResp(e, id, name))) == Accepted(LoginResp(e, id, name))
  {
    hide Be16, Be32;
    var d := ResponseBody(LoginResp(e, id, name));
    assert d[..6] == Be16(e) + Be32(ToU32(id));
    HeadOfBody(d, e, id);
    assert d[6..] == Str(name);
    OptionalStrAt(d, 6, name);
  }

  lemma SecurityQuestionRespRoundTrip(e: u16, q: Bytes)
    requires Short(q)
    ensures ParseSecurityQuestionResp(ResponseBody(SecurityQuestionResp(e, q))) == Accepted(SecurityQuestionResp(e, q))
  {
    hide Be16, Be32;
    var d := ResponseBody(SecurityQuestionResp(e, q));
    assert d[0..0 + 2] == Be16(e);
    Read16Exact(d, 0, e);
    assert d[2..] == Str(q);
    OptionalStrAt(d, 2, q);
  }

  lemma VersionCheckRespRoundTrip(e: u16, v: i32, url: Bytes, desc: Bytes)
    requires Short(url) && Short(desc)
    ensures ParseVersionCheckResp(ResponseBody(VersionCheckResp(e, v, url, desc))) == Accepted(VersionCheckResp(e, v, url, desc))
  {
    hide Be16, Be32, Str, OptionalStr;
    var d := ResponseBody(VersionCheckResp(e, v, url, desc));
    StrLength(url);
    StrLength(desc);
    assert d[..6] == Be16(e) + Be32(ToU32(v));
    HeadOfBody(d, e, v);
    assert d[6..] == Str(url) + Str(desc);
    OptionalStrAt(d, 6, url);
    assert d[8 + |url|..] == Str(desc);
    OptionalStrAt(d, 8 + |url|, desc);
  }

  lemma StrLength(s: Bytes)
    ensures |Str(s)| == 2 + |s|
  {
  }

  // ---- The responses' decoders on arbitrary data --------------------------------------------

  /** The length field of a string at `at` is there, but not all of the string. */
  predicate CutShort(d: Bytes, at: nat) {
    at + 2 <= |d| < at + 2 + Read16(d, at) as int
  }

  /** A string at `at` that a decoder may leave empty: because nothing is there, or not all of it. */
  predicate Tail(d: Bytes, at: nat, s: Bytes)
    requires at <= |d|
  {
    (Short(s) && Str(s) <= d[at..]) || (s == [] && (|d| == at || CutShort(d, at)))
  }

  lemma TailExact(d: Bytes, at: nat, s: Bytes)
    requires at <= |d| && |d| != at + 1
    ensures Tail(d, at, s) <==>
      s == if |d| == at then []
           else if at + 2 + Read16(d, at) as int <= |d| then d[at + 2..at + 2 + Read16(d, at) as int] else []
  {
    StrPrefix(d[at..], s);
    hide Str, Short;
    if |d| >= at + 2 {
      assert Read16(d[at..], 0) == Read16(d, at);
      var len := Read16(d, at) as int;
      if at + 2 + len <= |d| {
        assert d[at..][2..2 + len] == d[at + 2..at + 2 + len];
      }
    }
  }

  /** A status and an id at the front of `d`. */
  lemma HeadExact(d: Bytes, e: u16, id: i32)
    ensures Be16(e) + Be32(ToU32(id)) <= d <==> |d| >= 6 && Read16(d, 0) == e && ReadI32(d, 2) == id
  {
    hide Be16, Be32;
    StatusExact(d, e);
    ConcatPrefix(Be16(e), Be32(ToU32(id)), d);
    if |d| >= 2 {
      I32Prefix(d[2..], id);
      if |d| >= 6 {
        assert ReadI32(d[2..], 0) == ReadI32(d, 2);
      }
    }
  }

  lemma StatusExact(d: Bytes, e: u16)
    ensures Be16(e) <= d <==> |d| >= 2 && Read16(d, 0) == e
  {
    hide Be16;
    if |d| >= 2 {
      Read16Exact(d, 0, e);
      assert d[..2] == d[0..0 + 2];
    }
  }

  /** Which data decode to a given login reply: its status and id in front, and then its name, where a name that is not
      there, or not all there, is read as empty. */
  lemma LoginRespExact(d: Bytes, e: u16, id: i32, name: Bytes)
    ensures ParseLoginResp(d) == Accepted(LoginResp(e, id, name))
      <==> |d| != 7 && Be16(e) + Be32(ToU32(id)) <= d && Tail(d, 6, name)
  {
    hide Be16, Be32, Tail;
    HeadExact(d, e, id);
    if |d| >= 6 && |d| != 7 {
      TailExact(d, 6, name);
    }
  }

  lemma SecurityQuestionRespExact(d: Bytes, e: u16, question: Bytes)
    ensures ParseSecurityQuestionResp(d) == Accepted(SecurityQuestionResp(e, question))
      <==> |d| != 3 && Be16(e) <= d && Tail(d, 2, question)
  {
    hide Be16, Tail;
    StatusExact(d, e);
    if |d| >= 2 && |d| != 3 {
      TailExact(d, 2, question);
    }
  }

  lemma RegisterRespExact(d: Bytes, e: u16, id: i32)
    ensures ParseResponse(REGISTER_RESP, d) == Accepted(RegisterResp(e, id)) <==> Be16(e) + Be32(ToU32(id)) <= d
  {
    hide Be16, Be32;
    HeadExact(d, e, id);
  }

  lemma ResetPasswordRespExact(d: Bytes, e: u16)
    ensures ParseResponse(RESET_PASSWORD_RESP, d) == Accepted(ResetPasswordResp(e)) <==> Be16(e) <= d
  {
    hide Be16;
    StatusExact(d, e);
  }

  /** A string field of a version reply at `at`, and where the next one is looked for: behind the string; or where it
      was, when not even its length is there; or behind its length, when only that is. */
  predicate Optional(d: Bytes, at: nat, s: Bytes, next: nat)
    requires at <= |d|
  {
    || (Short(s) && Str(s) <= d[at..] && next == at + 2 + |s|)
    || (s == [] && |d| < at + 2 && next == at)
    || (s == [] && CutShort(d, at) && next == at + 2)
  }

  lemma OptionalExact(d: Bytes, at: nat, s: Bytes, next: nat)
    requires at <= |d|
    ensures Optional(d, at, s, next) <==> OptionalStr(d, at) == (s, next)
  {
    StrPrefix(d[at..], s);
    hide Str, Short;
    if |d| >= at + 2 {
      assert Read16(d[at..], 0) == Read16(d, at);
      var len := Read16(d, at) as int;
      if at + 2 + len <= |d| {
        assert d[at..][2..2 + len] == d[at + 2..at + 2 + len];
      }
    }
  }

  /** Which data decode to a given version reply. */
  lemma VersionCheckRespExact(d: Bytes, e: u16, v: i32, url: Bytes, desc: Bytes) returns (mid: nat, end: nat)
    ensures ParseVersionCheckResp(d) == Accepted(VersionCheckResp(e, v, url, desc)) <==>
      && Be16(e) + Be32(ToU32(v)) <= d && |d| >= 6
      && mid <= |d| && Optional(d, 6, url, mid) && Optional(d, mid, desc, end)
  {
    hide Be16, Be32, Optional, OptionalStr;
    HeadExact(d, e, v);
    mid, end := 0, 0;
    if |d| >= 6 {
      mid := OptionalStr(d, 6).1;
      end := OptionalStr(d, mid).1;
      OptionalExact(d, 6, url, mid);
      OptionalExact(d, mid, desc, end);
    }
  }

  /** Any entries in front that stop where the decoder must are what it finds. */
  lemma {:induction false} EntriesUnique(d: Bytes, at: nat, count: nat, fs: seq<Friend>)
    requires at <= |d| && |fs| <= count && Entries(fs) <= d[at..]
    requires forall i | 0 <= i < |fs| :: Short(fs[i].name)
    requires |fs| == count || EntryAt(d, at + |Entries(fs)|) == None
    ensures EntriesFrom(d, at, count) == fs
    decreases count
  {
    hide EntryAt, Entry, Entries;
    if fs == [] {
      NoEntries(d, at);
    } else {
      var f, more := fs[0], fs[1..];
      assert fs == [f] + more;
      EntriesCons(f, more);
      EntriesCons(f, []);
      ConcatPrefix(Entry(f), Entries(more), d[at..]);
      EntryAtExact(d, at, f);
      var next := at + 6 + |f.name|;
      assert d[at..][|Entry(f)|..] == d[next..];
      EntriesUnique(d, next, count - 1, more);
    }
  }

  /** Which data decode to a given friend list: success, and then the longest run of whole entries in front that the
      count allows. */
  lemma FriendListExact(d: Bytes, fs: seq<Friend>)
    ensures ParseFriendListResp(d) == Accepted(FriendListResp(SUCCESS, fs)) <==>
      && |d| >= 6 && Be16(SUCCESS) <= d && |fs| <= Read32(d, 2) && Entries(fs) <= d[6..]
      && (forall i | 0 <= i < |fs| :: Short(fs[i].name))
      && (|fs| == Read32(d, 2) || EntryAt(d, 6 + |Entries(fs)|) == None)
  {
    hide Be16, EntriesFrom, Entries, EntryAt, Read32;
    StatusExact(d, SUCCESS);
    if |d| >= 6 {
      EntriesFromExact(d, 6, Read32(d, 2));
      EntriesShort(d, 6, Read32(d, 2));
      if |fs| <= Read32(d, 2) && Entries(fs) <= d[6..] && (forall i | 0 <= i < |fs| :: Short(fs[i].name))
        && (|fs| == Read32(d, 2) || EntryAt(d, 6 + |Entries(fs)|) == None)
      {
        EntriesUnique(d, 6, Read32(d, 2), fs);
      }
    }
  }
}
