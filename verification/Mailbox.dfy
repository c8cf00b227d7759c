/** What happens to a stored message: it reaches the addressee's session or the unread counter, and what a session
    receives is a gapless run of the messages stored for its user. */
module Mailbox {
  import opened ByteOrder
  import opened Grammar
  import opened Parsing
  import opened Framing
  import opened Session
  import opened Agreement
  import opened Posting
  import Channel
  import Client

  type Mail = (i32, Bytes)

  // ---- Messages in tables and on connections ------------------------------------------------

  /** Sender and content of the stored messages addressed to `u`, in store order. */
  function StoredFor(ms: seq<Message>, u: i32): seq<Mail> {
    if ms == [] then []
    else
      var m := ms[|ms| - 1];
      StoredFor(ms[..|ms| - 1], u) + if m.toId == u then [(m.fromId, m.content)] else []
  }

  lemma StoredForSnoc(ms: seq<Message>, m: Message, u: i32)
    ensures StoredFor(ms + [m], u) == StoredFor(ms, u) + if m.toId == u then [(m.fromId, m.content)] else []
  {
    assert (ms + [m])[..|ms|] == ms;
  }

  /** What the message callback is given for a sequence of callbacks. */
  function MessagesOf(rs: seq<Response>): seq<Mail> {
    if rs == [] then []
    else (if rs[0].Notify? then [(rs[0].fromId, rs[0].content)] else []) + MessagesOf(rs[1..])
  }

  lemma {:induction false} MessagesSplit(a: seq<Response>, b: seq<Response>)
    ensures MessagesOf(a + b) == MessagesOf(a) + MessagesOf(b)
  {
    if a == [] {
      assert a + b == b;
    } else {
      MessagesCons(a + b);
      MessagesCons(a);
      assert (a + b)[1..] == a[1..] + b;
      hide MessagesOf;
      MessagesSplit(a[1..], b);
    }
  }

  lemma MessagesCons(rs: seq<Response>)
    requires rs != []
    ensures MessagesOf(rs) == (if rs[0].Notify? then [(rs[0].fromId, rs[0].content)] else []) + MessagesOf(rs[1..])
  {
  }

  /** The messages a client finds in a sequence of frames. */
  function MailIn(frames: seq<Bytes>): seq<Mail> {
    MessagesOf(Client.Callbacks(frames))
  }

  lemma MailSplit(fs: seq<Bytes>, gs: seq<Bytes>)
    ensures MailIn(fs + gs) == MailIn(fs) + MailIn(gs)
  {
    hide Client.Callbacks, MessagesOf;
    Client.CallbacksSplit(fs, gs);
    MessagesSplit(Client.Callbacks(fs), Client.Callbacks(gs));
  }

  lemma MailNone()
    ensures MailIn([]) == [] && MessagesOf([]) == []
  {
  }

  lemma MessagesOfOne(r: Response)
    ensures MessagesOf([r]) == if r.Notify? then [(r.fromId, r.content)] else []
  {
    assert [r][1..] == [];
    assert MessagesOf([]) == [];
  }

  /** Only a notification carries mail, whatever else the other frames contain. */
  lemma MailOfResponse(r: Response)
    requires r.Notify? ==> |r.content| < TWO_TO_32 - 16
    ensures MailIn([ResponseBytes(r)]) == if r.Notify? then [(r.fromId, r.content)] else []
  {
    hide Client.Callbacks, MessagesOf, Client.Callback, ResponseBytes;
    var f := ResponseBytes(r);
    Client.CallbacksOne(f);
    if r.Notify? {
      NotifySize(r);
      Client.CallbackOfResponse(r);
      MessagesOfOne(r);
    } else {
      OtherCallback(r);
      if Client.Callback(f) != [] {
        assert Client.Callback(f) == [Client.Callback(f)[0]];
        MessagesOfOne(Client.Callback(f)[0]);
      } else {
        MailNone();
      }
    }
  }

  lemma NotifySize(r: Response)
    requires r.Notify? && |r.content| < TWO_TO_32 - 16
    ensures ResponseFits(r) && |ResponseBody(r)| < TWO_TO_32
  {
    hide Be32, Be64;
  }

  lemma OtherCallback(r: Response)
    requires !r.Notify?
    ensures |Client.Callback(ResponseBytes(r))| <= 1
    ensures Client.Callback(ResponseBytes(r)) != [] ==> !Client.Callback(ResponseBytes(r))[0].Notify?
  {
    hide Encode, ResponseBody;
    EncodeFields(Packet(VERSION, ResponseCommand(r), ResponseBody(r)));
  }

  // ---- What one step does ------------------------------------------------------------------

  /** The message a step stores, if any: that of a chat request from a connection with a user to a user there is, if
      the statement goes through. */
  function Stores(s: State, e: Event): Option<Message> {
    match RequestOf(s, e)
    case Some(SendMessage(to, content)) =>
      if e.conn < |s.conns| && s.conns[e.conn].userId != 0 && e.env.ok0
         && IsUser(s.db, s.conns[e.conn].userId) && IsUser(s.db, to)
      then Some(Message(s.conns[e.conn].userId, to, content)) else None
    case _ => None
  }

  /** These are the messages the handlers store, and this is what they do with them. */
  lemma StoresExact(s: State, e: Event)
    requires RequestOf(s, e).Some?
    ensures e.Dispatch? && e.conn < |s.conns|
    ensures var eff := Decide(s, e.conn, RequestOf(s, e).value, e.env);
      match Stores(s, e)
      case None => eff.db.messages == s.db.messages && eff.notify == None && eff.unread == None
      case Some(m) =>
        && eff.login == None && m.fromId == s.conns[e.conn].userId != 0 && eff.db.messages == s.db.messages + [m]
        && eff.notify == (if m.toId in s.index then Some((m.toId, Notify(m.fromId, m.content, e.env.now))) else None)
        && eff.unread == if m.toId !in s.index && e.env.cacheOk then Some(m.toId) else None
  {
    hide ParseRequest, IsUser;
  }

  lemma StoresIsDispatch(s: State, e: Event)
    ensures Stores(s, e).Some? ==> e.Dispatch? && e.conn < |s.conns| && RequestOf(s, e).Some? && LoginBy(s, e) == None
    ensures Stores(s, e).Some? ==>
      RequestOf(s, e).value.SendMessage? && Stores(s, e).value.content == RequestOf(s, e).value.content
  {
    hide ParseRequest, IsUser;
  }

  function MailTo(s: State, m: Message, d: nat): seq<Mail> {
    if Target(s, m.toId) == Some(d) then [(m.fromId, m.content)] else []
  }

  function NewMail(s: State, e: Event, d: nat): seq<Mail> {
    match Stores(s, e) case None => [] case Some(m) => MailTo(s, m, d)
  }

  function Counted(s: State, e: Event, u: i32): nat {
    match Stores(s, e)
    case None => 0
    case Some(m) => if m.toId == u && u !in s.index && e.env.cacheOk then 1 else 0
  }

  lemma ContentSmall(s: State, e: Event)
    requires RequestOf(s, e).Some?
    ensures var r := RequestOf(s, e).value; RequestFits(r) && |RequestBody(r)| < MAX_BODY
    ensures var r := RequestOf(s, e).value; r.SendMessage? ==> |r.content| < MAX_BODY
  {
    hide RequestFits, ParseRequest, Be32;
    ParseRequestExact(e.packet.command, e.packet.data, RequestOf(s, e).value);
  }

  /** A step stores at most one message, from the user of the acting connection; the frames it posts carry that
      message to the connection the index names, and nothing else. */
  lemma MailOfStep(s: State, e: Event, d: nat)
    requires d < |s.conns|
    ensures MailIn(NewFrames(s, e, d)) == NewMail(s, e, d)
  {
    hide ParseRequest, Decide, ResponseBytes, MailIn, Stores, RequestOf;
    MailNone();
    StoresIsDispatch(s, e);
    if RequestOf(s, e).Some? {
      ContentSmall(s, e);
      StoresExact(s, e);
      var r := RequestOf(s, e).value;
      var eff := Decide(s, e.conn, r, e.env);
      ReplyCommand(s, e.conn, r, e.env);
      NotNotify(r, eff.reply);
      var n := if eff.notify.Some? && Target(s, eff.notify.value.0) == Some(d) then [ResponseBytes(eff.notify.value.1)] else [];
      var a := if d == e.conn then [ResponseBytes(eff.reply)] else [];
      MailSplit(n, a);
      if n != [] {
        MailOfResponse(eff.notify.value.1);
      }
      MailOfResponse(eff.reply);
    }
  }

  lemma TablesOfStep(s: State, e: Event)
    ensures Step(s, e).db.messages == s.db.messages + match Stores(s, e) case None => [] case Some(m) => [m]
    ensures Stores(s, e).Some? ==> e.Dispatch? && e.conn < |s.conns| && Stores(s, e).value.fromId == s.conns[e.conn].userId != 0
    ensures Stores(s, e).Some? ==> LoginBy(s, e) == None
  {
    hide ParseRequest, Decide, Channel.Do, Stores, RequestOf, LoginBy;
    StoresIsDispatch(s, e);
    if e.Dispatch? {
      RequestStep(s, e);
      if RequestOf(s, e).Some? {
        StoresExact(s, e);
      }
    }
  }

  lemma UnreadOfStep(s: State, e: Event, u: i32)
    ensures UnreadCount(Step(s, e), u) == UnreadCount(s, u) + Counted(s, e, u)
  {
    hide ParseRequest, Decide, Channel.Do, Send, Stores, RequestOf;
    StoresIsDispatch(s, e);
    if e.Dispatch? {
      RequestStep(s, e);
      if RequestOf(s, e).Some? {
        StoresExact(s, e);
      }
    }
  }

  function MailOn(s: State, c: nat): seq<Mail>
    requires c < |s.conns|
  {
    MailIn(s.conns[c].chan.posted)
  }

  lemma MailOnStep(s: State, e: Event, d: nat)
    requires d < |s.conns|
    ensures d < |Step(s, e).conns| && MailOn(Step(s, e), d) == MailOn(s, d) + NewMail(s, e, d)
  {
    hide Step, NewMail, MailIn, NewFrames;
    PostedStep(s, e, d);
    MailSplit(s.conns[d].chan.posted, NewFrames(s, e, d));
    MailOfStep(s, e, d);
  }

  // ---- A session's mail is a gapless run of its user's messages ------------------------------

  /** The index names connection `c`. */
  predicate Named(s: State, c: nat)
    requires c < |s.conns|
  {
    var u := s.conns[c].userId;
    u != 0 && u in s.index && s.index[u] == c
  }

  /** The mail posted to connection `c` is what was stored for its user from the `lo`-th message on and before the
      `hi`-th, which is the end of the store while the index names the connection; a connection without a user has
      no mail. */
  predicate Segment(s: State, c: nat, lo: nat, hi: nat)
    requires c < |s.conns|
  {
    var u := s.conns[c].userId;
    if u == 0 then MailOn(s, c) == []
    else
      var all := StoredFor(s.db.messages, u);
      lo <= hi <= |all| && MailOn(s, c) == all[lo..hi] && (Named(s, c) ==> hi == |all|)
  }

  /** How many messages were stored for the user of connection `c` when it last logged in. */
  function Base(s: State, es: seq<Event>, c: nat): nat {
    if es == [] then 0
    else
      var before, e := Run(s, es[..|es| - 1]), es[|es| - 1];
      BaseAfter(before, e, c, Base(s, es[..|es| - 1], c))
  }

  function BaseAfter(s: State, e: Event, c: nat, lo: nat): nat {
    if LoginBy(s, e).Some? && e.conn == c then |StoredFor(s.db.messages, LoginBy(s, e).value)| else lo
  }

  /** How many messages were stored for the user of connection `c` when the index last named the connection. */
  function Top(s: State, es: seq<Event>, c: nat): nat {
    if es == [] then 0 else TopAfter(Run(s, es), c, Top(s, es[..|es| - 1], c))
  }

  function TopAfter(t: State, c: nat, hi: nat): nat {
    if c < |t.conns| && Named(t, c) then |StoredFor(t.db.messages, t.conns[c].userId)| else hi
  }

  /** The index after a step: a connection gets named only by a login on it, and no message is stored while the index
      changes. */
  lemma IndexAfter(s: State, e: Event, c: nat)
    requires c < |s.conns| && TablesInv(s.db)
    ensures var t := Step(s, e);
      c < |t.conns|
      && (LoginBy(s, e).Some? && e.conn == c ==>
            t.conns[c].userId == LoginBy(s, e).value != 0 && Named(t, c) && Stores(s, e) == None)
      && (!(LoginBy(s, e).Some? && e.conn == c) ==>
            t.conns[c].userId == s.conns[c].userId && (Named(t, c) ==> Named(s, c)))
      && (Stores(s, e).Some? ==> t.index == s.index)
  {
    hide ParseRequest, LoginBy, Stores, RequestOf, Channel.Do, Step, TablesInv;
    StepSessions(s, e);
    LoginByFacts(s, e);
    StoresIsDispatch(s, e);
    match e
    case Accept => AcceptKeepsOthers(s);
    case StopAll => StopAllKeepsOthers(s);
    case _ =>
  }

  lemma Slices(before: seq<Mail>, more: seq<Mail>, lo: nat, hi: nat)
    requires lo <= hi <= |before|
    ensures (before + more)[lo..hi] == before[lo..hi]
    ensures hi == |before| ==> before[lo..hi] + more == (before + more)[lo..|before + more|]
    ensures more == [] ==> before + more == before
  {
  }

  /** What a step must satisfy for the mail of connection `c`: a message that is stored goes to `c` if and only if it
      is for the user of `c` and the index names `c`; and `c` has had no mail when a login on it succeeds. */
  predicate OkOn(s: State, e: Event, c: nat)
    requires c < |s.conns|
  {
    match Stores(s, e)
    case Some(m) => Target(s, m.toId) == Some(c) <==> m.toId == s.conns[c].userId && Named(s, c)
    case None => LoginBy(s, e).Some? && e.conn == c ==> MailOn(s, c) == []
  }

  /** A step keeps the mail of a connection such a run of messages if and only if it satisfies this. */
  lemma SegmentStepExact(s: State, e: Event, c: nat, lo: nat, hi: nat)
    requires TablesInv(s.db) && c < |s.conns| && Segment(s, c, lo, hi)
    ensures c < |Step(s, e).conns|
    ensures Segment(Step(s, e), c, BaseAfter(s, e, c, lo), TopAfter(Step(s, e), c, hi)) <==> OkOn(s, e, c)
  {
    hide Step, MailOn, LoginBy, Target, Named, StoredFor, Stores;
    var t := Step(s, e);
    IndexAfter(s, e, c);
    MailOnStep(s, e, c);
    TablesOfStep(s, e);
    var v := t.conns[c].userId;
    var before, after := StoredFor(s.db.messages, v), StoredFor(t.db.messages, v);
    if Stores(s, e).Some? {
      var m := Stores(s, e).value;
      StoredForSnoc(s.db.messages, m, v);
      SameName(s, t, c);
      NamedUser(s, c);
      var more := if m.toId == v then [(m.fromId, m.content)] else [];
      if v != 0 {
        Slices(before, more, lo, hi);
        SuffixSame(before[lo..hi], more, MailTo(s, m, c));
      }
    } else {
      assert t.db.messages == s.db.messages;
      assert after[|after|..|after|] == [];
    }
  }

  lemma SuffixSame(a: seq<Mail>, x: seq<Mail>, y: seq<Mail>)
    ensures a + x == a + y <==> x == y
    ensures a + x == a <==> x == []
  {
    if a + x == a + y {
      assert (a + x)[|a|..] == x && (a + y)[|a|..] == y;
    }
    assert a + [] == a;
    assert |a + x| == |a| + |x|;
  }

  lemma NamedUser(s: State, c: nat)
    requires c < |s.conns|
    ensures Named(s, c) ==> s.conns[c].userId != 0
  {
  }

  lemma SameName(s: State, t: State, c: nat)
    requires c < |s.conns| && c < |t.conns| && s.index == t.index && s.conns[c].userId == t.conns[c].userId
    ensures Named(s, c) <==> Named(t, c)
  {
  }

  predicate OkRun(s: State, es: seq<Event>, c: nat) {
    es == [] ||
    var before := Run(s, es[..|es| - 1]);
    OkRun(s, es[..|es| - 1], c) && (c < |before.conns| ==> OkOn(before, es[|es| - 1], c))
  }

  /** In every state of the run, the mail of connection `c` is a run of its user's messages. */
  predicate SegmentThroughout(s: State, es: seq<Event>, c: nat) {
    && (c < |Run(s, es).conns| ==> Segment(Run(s, es), c, Base(s, es, c), Top(s, es, c)))
    && (es == [] || SegmentThroughout(s, es[..|es| - 1], c))
  }

  /** All through a run, a connection's mail is exactly what was stored for its user between its login and the moment
      the index last named it, if and only if every step of the run is right for that connection. */
  lemma {:induction false} SegmentsOverRuns(db: Tables, sha: Bytes -> Bytes, es: seq<Event>, c: nat)
    requires TablesInv(db)
    ensures SegmentThroughout(Init(db, sha), es, c) <==> OkRun(Init(db, sha), es, c)
  {
    hide Step, TablesInv, Segment, OkOn, BaseAfter, TopAfter;
    if es != [] {
      var s, first := Init(db, sha), es[..|es| - 1];
      var before, e := Run(s, first), es[|es| - 1];
      SegmentsOverRuns(db, sha, first, c);
      TablesInvOverRuns(s, first);
      ConnsGrow(before, e);
      if c >= |before.conns| {
        if c < |Step(before, e).conns| {
          NewConnection(before, e, c);
          NewSegment(Step(before, e), c, Base(s, es, c), Top(s, es, c));
        }
      } else if OkRun(s, first, c) {
        LastSegment(s, first, c);
        SegmentStepExact(before, e, c, Base(s, first, c), Top(s, first, c));
      }
    }
  }

  lemma LastSegment(s: State, es: seq<Event>, c: nat)
    ensures SegmentThroughout(s, es, c) && c < |Run(s, es).conns| ==> Segment(Run(s, es), c, Base(s, es, c), Top(s, es, c))
  {
    hide Segment, Run, Base, Top;
  }

  /** In particular at the end of the run. */
  lemma SegmentAtEnd(db: Tables, sha: Bytes -> Bytes, es: seq<Event>, c: nat)
    requires TablesInv(db) && OkRun(Init(db, sha), es, c) && c < |Run(Init(db, sha), es).conns|
    ensures Segment(Run(Init(db, sha), es), c, Base(Init(db, sha), es, c), Top(Init(db, sha), es, c))
  {
    hide *;
    SegmentsOverRuns(db, sha, es, c);
    LastSegment(Init(db, sha), es, c);
  }

  lemma NewSegment(s: State, c: nat, lo: nat, hi: nat)
    requires c < |s.conns| && s.conns[c] == Conn(0, true, Channel.EMPTY)
    ensures Segment(s, c, lo, hi)
  {
    hide MailIn;
    MailNone();
  }

  /** Under agreement mail for `m` goes to `c` only if `c` is the addressee's, and then the index names `c`. */
  lemma MailOnlyToUser(s: State, m: Message, c: nat)
    requires Agree(s) && c < |s.conns|
    ensures Target(s, m.toId) == Some(c) ==> s.conns[c].userId == m.toId != 0
    ensures Target(s, m.toId) == Some(c) <==> m.toId in s.index && s.index[m.toId] == c
    ensures Target(s, m.toId) == Some(c) <==> m.toId == s.conns[c].userId && Named(s, c)
  {
  }

  /** A connection without a user has no mail. */
  predicate Quiet(s: State, c: nat)
    requires c < |s.conns|
  {
    s.conns[c].userId == 0 ==> MailOn(s, c) == []
  }

  lemma SegmentQuiet(s: State, c: nat, lo: nat, hi: nat)
    requires c < |s.conns| && Segment(s, c, lo, hi)
    ensures Quiet(s, c)
  {
    hide MailOn;
  }

  lemma SafeIsOk(s: State, e: Event, c: nat)
    requires Agree(s) && Safe(s, e) && c < |s.conns| && Quiet(s, c)
    ensures OkOn(s, e, c)
  {
    hide Stores, Agree, Target, Named, MailOn, LoginBy;
    LoginIsDispatch(s, e);
    if Stores(s, e).Some? {
      MailOnlyToUser(s, Stores(s, e).value, c);
    }
  }

  /** Agreement is enough: a run of safe steps is right for every connection. */
  lemma {:induction false} SafeRunIsOk(db: Tables, sha: Bytes -> Bytes, es: seq<Event>, c: nat)
    requires TablesInv(db) && SafeRun(Init(db, sha), es)
    ensures OkRun(Init(db, sha), es, c)
    ensures c < |Run(Init(db, sha), es).conns| ==> Quiet(Run(Init(db, sha), es), c)
  {
    hide Step, TablesInv, Segment, OkOn, Safe, Agree, Quiet, Base, Top;
    var s := Init(db, sha);
    if es != [] {
      var first := es[..|es| - 1];
      SafeRunIsOk(db, sha, first, c);
      SafeRunAgrees(db, sha, first);
      if c < |Run(s, first).conns| {
        SafeIsOk(Run(s, first), es[|es| - 1], c);
      }
    }
    if c < |Run(s, es).conns| {
      SegmentAtEnd(db, sha, es, c);
      SegmentQuiet(Run(s, es), c, Base(s, es, c), Top(s, es, c));
    }
  }

  // ---- Conservation -------------------------------------------------------------------------

  /** How much mail has been posted to connections of user `u`. */
  function PostedTo(conns: seq<Conn>, u: i32): nat {
    if conns == [] then 0
    else PostedTo(conns[..|conns| - 1], u) + Share(conns[|conns| - 1], u)
  }

  function Share(conn: Conn, u: i32): nat {
    if conn.userId == u then |MailIn(conn.chan.posted)| else 0
  }

  /** If only one connection's share changes, the total changes by as much. */
  lemma {:induction false} PostedDelta(a: seq<Conn>, b: seq<Conn>, u: i32, d: nat)
    requires |a| == |b| && forall i | 0 <= i < |a| && i != d :: Share(b[i], u) == Share(a[i], u)
    ensures d < |a| ==> PostedTo(b, u) + Share(a[d], u) == PostedTo(a, u) + Share(b[d], u)
    ensures d >= |a| ==> PostedTo(b, u) == PostedTo(a, u)
  {
    hide Share;
    if a != [] {
      var n := |a| - 1;
      PostedDelta(a[..n], b[..n], u, d);
    }
  }

  lemma ShareOfStep(s: State, e: Event, c: nat, u: i32)
    requires c < |s.conns|
    ensures c < |Step(s, e).conns|
    ensures Share(s.conns[c], u) == if s.conns[c].userId == u then |MailOn(s, c)| else 0
    ensures Share(Step(s, e).conns[c], u) ==
      var user := if LoginBy(s, e).Some? && e.conn == c then LoginBy(s, e).value else s.conns[c].userId;
      if user == u then |MailOn(s, c)| + |NewMail(s, e, c)| else 0
  {
    hide Step, MailIn, NewMail, LoginBy;
    UserOfStep(s, e, c);
    MailOnStep(s, e, c);
  }

  /** The connection whose share a step may change. */
  function Touched(s: State, e: Event): Option<nat> {
    match Stores(s, e)
    case Some(m) => Target(s, m.toId)
    case None => if LoginBy(s, e).Some? && e.conn < |s.conns| then Some(e.conn) else None
  }

  lemma OthersKeepShare(s: State, e: Event, c: nat, u: i32)
    requires c < |s.conns| && Touched(s, e) != Some(c)
    ensures c < |Step(s, e).conns| && Share(Step(s, e).conns[c], u) == Share(s.conns[c], u)
  {
    hide Step, MailOn, Stores, LoginBy, Share, Target;
    StoresIsDispatch(s, e);
    ShareOfStep(s, e, c, u);
  }

  lemma PostedOfStep(s: State, e: Event, u: i32)
    ensures match Touched(s, e)
      case None => PostedTo(Step(s, e).conns, u) == PostedTo(s.conns, u)
      case Some(d) =>
        d < |s.conns| && d < |Step(s, e).conns|
        && PostedTo(Step(s, e).conns, u) + Share(s.conns[d], u) == PostedTo(s.conns, u) + Share(Step(s, e).conns[d], u)
  {
    hide Step, Share, PostedTo, Stores, LoginBy;
    var t := Step(s, e);
    NewShares(s, e, u);
    var kept := t.conns[..|s.conns|];
    var d := if Touched(s, e).Some? then Touched(s, e).value else |s.conns|;
    forall i | 0 <= i < |s.conns| && i != d ensures Share(kept[i], u) == Share(s.conns[i], u) {
      OthersKeepShare(s, e, i, u);
    }
    PostedDelta(s.conns, kept, u, d);
  }

  lemma NewShares(s: State, e: Event, u: i32)
    ensures |s.conns| <= |Step(s, e).conns| <= |s.conns| + 1
    ensures PostedTo(Step(s, e).conns, u) == PostedTo(Step(s, e).conns[..|s.conns|], u)
  {
    hide Share;
    var t := Step(s, e);
    OneAtATime(s, e);
    if |t.conns| == |s.conns| {
      assert t.conns[..|s.conns|] == t.conns;
    } else {
      NewConnection(s, e, |s.conns|);
      NewShare(u);
    }
  }

  lemma OneAtATime(s: State, e: Event)
    ensures |s.conns| <= |Step(s, e).conns| <= |s.conns| + 1
  {
    hide ParseRequest, Decide, Channel.Do;
  }

  lemma NewShare(u: i32)
    ensures Share(Conn(0, true, Channel.EMPTY), u) == 0
  {
    MailNone();
  }

  /** Stored messages, mail posted to sessions, and the unread counter, for one user. */
  predicate Conserved(s: State, db: Tables, u: i32) {
    |StoredFor(s.db.messages, u)| == |StoredFor(db.messages, u)| + PostedTo(s.conns, u) + UnreadCount(s, u)
  }

  /** What a step must satisfy for the account of user `u`: of a message that is stored, either a session of `u` is
      given it or the counter of `u` is bumped if it is for `u`, and neither if it is not; and a login takes no mail
      that was posted to `u` to another user, nor another user's to `u`. */
  predicate Accounted(s: State, e: Event, u: i32) {
    match Stores(s, e)
    case Some(m) =>
      var given := Target(s, m.toId).Some? && s.conns[Target(s, m.toId).value].userId == u;
      var counted := m.toId == u && u !in s.index && e.env.cacheOk;
      m.toId == u <==> given || counted
    case None =>
      LoginBy(s, e).Some? && e.conn < |s.conns| ==>
        var old_, new_ := s.conns[e.conn].userId, LoginBy(s, e).value;
        MailOn(s, e.conn) == [] || (old_ == u <==> new_ == u)
  }

  /** A step keeps a user's account straight if and only if it satisfies this. */
  lemma ConservedStepExact(s: State, db: Tables, e: Event, u: i32)
    requires Conserved(s, db, u)
    ensures Conserved(Step(s, e), db, u) <==> Accounted(s, e, u)
  {
    hide Step, Stores, LoginBy, MailOn, PostedTo, UnreadCount, Share, StoredFor;
    PostedOfStep(s, e, u);
    UnreadOfStep(s, e, u);
    TablesOfStep(s, e);
    LoginIsDispatch(s, e);
    if Touched(s, e).Some? {
      ShareOfStep(s, e, Touched(s, e).value, u);
    }
    if Stores(s, e).Some? {
      StoredForSnoc(s.db.messages, Stores(s, e).value, u);
    } else {
      assert s.db.messages + [] == s.db.messages;
    }
  }

  predicate AccountedRun(s: State, es: seq<Event>, u: i32) {
    es == [] || (AccountedRun(s, es[..|es| - 1], u) && Accounted(Run(s, es[..|es| - 1]), es[|es| - 1], u))
  }

  predicate ConservedThroughout(s: State, db: Tables, es: seq<Event>, u: i32) {
    Conserved(Run(s, es), db, u) && (es == [] || ConservedThroughout(s, db, es[..|es| - 1], u))
  }

  /** All through a run, the messages stored for a user are those posted to sessions of that user plus the unread
      counter, if and only if every step of the run keeps the account of that user straight. */
  lemma {:induction false} ConservationOverRuns(db: Tables, sha: Bytes -> Bytes, es: seq<Event>, u: i32)
    ensures ConservedThroughout(Init(db, sha), db, es, u) <==> AccountedRun(Init(db, sha), es, u)
  {
    hide Step, Accounted, StoredFor;
    if es != [] {
      var s, first := Init(db, sha), es[..|es| - 1];
      ConservationOverRuns(db, sha, first, u);
      if AccountedRun(s, first, u) {
        LastConserved(s, db, first, u);
        ConservedStepExact(Run(s, first), db, es[|es| - 1], u);
      }
    }
  }

  lemma LastConserved(s: State, db: Tables, es: seq<Event>, u: i32)
    ensures ConservedThroughout(s, db, es, u) ==> Conserved(Run(s, es), db, u)
  {
    hide Conserved, Run;
  }

  predicate CacheWorks(es: seq<Event>) {
    forall i | 0 <= i < |es| && es[i].Dispatch? :: es[i].env.cacheOk
  }

  lemma SafeIsAccounted(s: State, e: Event, u: i32)
    requires Agree(s) && Safe(s, e) && (e.Dispatch? ==> e.env.cacheOk)
    requires e.Dispatch? && e.conn < |s.conns| ==> Quiet(s, e.conn)
    ensures Accounted(s, e, u)
  {
    hide Stores, Agree, LoginBy, MailOn, Target;
    LoginIsDispatch(s, e);
    StoresIsDispatch(s, e);
    if Stores(s, e).Some? {
      AgreementMeans(s, 0, 0, Stores(s, e).value.toId);
    }
  }

  /** Agreement and a working cache are enough, for all users. */
  lemma {:induction false} Conservation(db: Tables, sha: Bytes -> Bytes, es: seq<Event>, u: i32)
    requires TablesInv(db) && SafeRun(Init(db, sha), es) && CacheWorks(es)
    ensures AccountedRun(Init(db, sha), es, u) && Conserved(Run(Init(db, sha), es), db, u)
  {
    hide Step, Safe, TablesInv, Agree, Accounted, Conserved;
    if es != [] {
      var s, first, e := Init(db, sha), es[..|es| - 1], es[|es| - 1];
      SafeRunAgrees(db, sha, first);
      if e.Dispatch? {
        SafeRunIsOk(db, sha, first, e.conn);
      }
      assert CacheWorks(first);
      Conservation(db, sha, first, u);
      SafeIsAccounted(Run(s, first), e, u);
    }
    ConservationOverRuns(db, sha, es, u);
    LastConserved(Init(db, sha), db, es, u);
  }
}
