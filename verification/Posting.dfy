/** What each step gives each connection to send, and the order of replies. */
module Posting {
  import opened ByteOrder
  import opened Grammar
  import opened Parsing
  import opened Framing
  import opened Session
  import Channel

  /** The frames an effect decided on connection `c` posts to connection `d`: a notification first, then the reply. */
  function EffectFrames(s: State, c: nat, e: Effect, d: nat): seq<Bytes> {
    (if e.notify.Some? && Target(s, e.notify.value.0) == Some(d) then [ResponseBytes(e.notify.value.1)] else [])
    + (if d == c then [ResponseBytes(e.reply)] else [])
  }

  function NewFrames(s: State, e: Event, d: nat): seq<Bytes> {
    match RequestOf(s, e)
    case None => []
    case Some(r) => EffectFrames(s, e.conn, Decide(s, e.conn, r, e.env), d)
  }

  lemma RequestConn(s: State, e: Event)
    ensures RequestOf(s, e).Some? ==> e.conn < |s.conns|
  {
  }

  lemma SendPosts(conns: seq<Conn>, c: nat, r: Response, d: nat)
    requires c < |conns| && d < |conns|
    ensures Send(conns, c, r)[d].chan.posted == conns[d].chan.posted + if c == d then [ResponseBytes(r)] else []
  {
    hide Encode;
  }

  lemma ApplyPosts(s: State, c: nat, e: Effect, d: nat)
    requires c < |s.conns| && d < |s.conns| && (e.login == None || e.notify == None)
    ensures Apply(s, c, e).conns[d].chan.posted == s.conns[d].chan.posted + EffectFrames(s, c, e, d)
  {
    hide ResponseBytes, Send;
    var s1 := if e.login.Some? then Bind(s, c, e.login.value) else s;
    var s2 := s1.(db := e.db);
    var s3 := if e.notify.Some? then NotifyUser(s2, e.notify.value.0, e.notify.value.1) else s2;
    if e.notify.Some? && Target(s2, e.notify.value.0).Some? {
      SendPosts(s2.conns, Target(s2, e.notify.value.0).value, e.notify.value.1, d);
    }
    SendPosts(s3.conns, c, e.reply, d);
  }

  /** A step extends what a connection has posted by exactly these frames. */
  lemma PostedStep(s: State, e: Event, d: nat)
    requires d < |s.conns|
    ensures d < |Step(s, e).conns|
    ensures Step(s, e).conns[d].chan.posted == s.conns[d].chan.posted + NewFrames(s, e, d)
  {
    hide ParseRequest, Decide, Apply, EffectFrames;
    match e
    case Dispatch(c, _, env) =>
      RequestStep(s, e);
      match RequestOf(s, e) {
        case None =>
        case Some(r) =>
          ChatFacts(s, c, r, env);
          ApplyPosts(s, c, Decide(s, c, r, env), d);
      }
    case Traffic(c, step) => if c < |s.conns| && !step.Post? { QuietStep(s.conns[c].chan, step); }
    case WriteFail(c) => if c < |s.conns| { QuietStep(s.conns[c].chan, Channel.WriteError); }
    case _ =>
  }

  lemma QuietStep(ch: Channel.Channel, step: Channel.Step)
    requires !step.Post?
    ensures Channel.Do(ch, step).posted == ch.posted
  {
    hide Drain;
  }

  /** A new connection has posted nothing. */
  lemma NewConnection(s: State, e: Event, d: nat)
    requires |s.conns| <= d < |Step(s, e).conns|
    ensures Step(s, e).conns[d] == Conn(0, true, Channel.EMPTY)
  {
    hide ParseRequest, Decide;
  }

  lemma ConnsGrow(s: State, e: Event)
    ensures |s.conns| <= |Step(s, e).conns|
  {
    hide ParseRequest, Decide;
  }

  // ---- Reply order ------------------------------------------------------------------------

  /** The frames other than notifications. */
  function ReplyFrames(frames: seq<Bytes>): seq<Bytes> {
    if frames == [] then []
    else ReplyFrames(frames[..|frames| - 1]) + IfReply(frames[|frames| - 1])
  }

  function IfReply(frame: Bytes): seq<Bytes> {
    if |frame| >= HEADER_SIZE && Read16(frame, 1) == MESSAGE_NOTIFY then [] else [frame]
  }

  lemma RepliesSplit(fs: seq<Bytes>, gs: seq<Bytes>)
    ensures ReplyFrames(fs + gs) == ReplyFrames(fs) + ReplyFrames(gs)
  {
    hide IfReply;
    if gs == [] {
      assert fs + gs == fs;
    } else {
      var all := fs + gs;
      assert all[..|all| - 1] == fs + gs[..|gs| - 1];
      RepliesSplit(fs, gs[..|gs| - 1]);
    }
  }

  lemma RepliesOne(f: Bytes)
    ensures ReplyFrames([f]) == IfReply(f)
  {
    hide IfReply;
    assert [f][..0] == [];
    NoReplies();
  }

  lemma NoReplies()
    ensures ReplyFrames([]) == []
  {
  }

  lemma IfReplyResponse(r: Response)
    ensures IfReply(ResponseBytes(r)) == if r.Notify? then [] else [ResponseBytes(r)]
  {
    hide Encode;
    EncodeFields(Packet(VERSION, ResponseCommand(r), ResponseBody(r)));
  }

  /** The answers a run owes connection `c`: for every request served on it, in order, the packet of the reply decided
      for that request in the state in which it was served. */
  function Owed(s: State, es: seq<Event>, c: nat): seq<Bytes> {
    if es == [] then []
    else
      var before, e := Run(s, es[..|es| - 1]), es[|es| - 1];
      Owed(s, es[..|es| - 1], c) + OwedBy(before, e, c)
  }

  function OwedBy(s: State, e: Event, c: nat): seq<Bytes> {
    match RequestOf(s, e)
    case None => []
    case Some(r) => if e.conn == c then [ResponseBytes(Decide(s, e.conn, r, e.env).reply)] else []
  }

  lemma RepliesOfStep(s: State, e: Event, d: nat)
    requires d < |s.conns|
    ensures ReplyFrames(NewFrames(s, e, d)) == OwedBy(s, e, d)
  {
    hide ParseRequest, Decide, ResponseBytes, IfReply, ReplyFrames, ResponseCommand, RequestCommand;
    NoReplies();
    if RequestOf(s, e).Some? {
      RequestConn(s, e);
      var r := RequestOf(s, e).value;
      var eff := Decide(s, e.conn, r, e.env);
      ChatFacts(s, e.conn, r, e.env);
      ReplyCommand(s, e.conn, r, e.env);
      NotNotify(r, eff.reply);
      var n := if eff.notify.Some? && Target(s, eff.notify.value.0) == Some(d) then [ResponseBytes(eff.notify.value.1)] else [];
      var a := if d == e.conn then [ResponseBytes(eff.reply)] else [];
      RepliesSplit(n, a);
      if n != [] {
        RepliesOne(n[0]);
        IfReplyResponse(eff.notify.value.1);
      }
      RepliesOne(ResponseBytes(eff.reply));
      IfReplyResponse(eff.reply);
    }
  }

  lemma NotNotify(r: Request, reply: Response)
    requires ResponseCommand(reply) == RequestCommand(r) + 1
    ensures !reply.Notify?
  {
  }

  /** On every run and every connection: leaving notifications aside, the packets posted are the replies to the
      requests served on it, one for one, in order, byte for byte. */
  lemma {:induction false} ReplyOrder(db: Tables, sha: Bytes -> Bytes, es: seq<Event>, c: nat)
    ensures var s := Run(Init(db, sha), es);
      (c < |s.conns| ==> ReplyFrames(s.conns[c].chan.posted) == Owed(Init(db, sha), es, c))
      && (c >= |s.conns| ==> Owed(Init(db, sha), es, c) == [])
  {
    hide Step, ReplyFrames, OwedBy, NewFrames, RequestOf;
    NoReplies();
    if es != [] {
      var before, e := Run(Init(db, sha), es[..|es| - 1]), es[|es| - 1];
      ReplyOrder(db, sha, es[..|es| - 1], c);
      ConnsGrow(before, e);
      if c < |before.conns| {
        PostedStep(before, e, c);
        RepliesOfStep(before, e, c);
        RepliesSplit(before.conns[c].chan.posted, NewFrames(before, e, c));
      } else {
        NothingOwed(before, e, c);
        if c < |Step(before, e).conns| {
          NewConnection(before, e, c);
        }
      }
    }
  }

  lemma NothingOwed(s: State, e: Event, c: nat)
    requires c >= |s.conns|
    ensures OwedBy(s, e, c) == []
  {
    RequestConn(s, e);
  }

  /** The packet owed to a request carries its command code plus one. */
  lemma OwedCode(s: State, e: Event)
    requires RequestOf(s, e).Some?
    ensures |OwedBy(s, e, e.conn)| == 1
    ensures var frame := OwedBy(s, e, e.conn)[0];
      |frame| >= HEADER_SIZE && Read16(frame, 1) == RequestCommand(RequestOf(s, e).value) + 1 == e.packet.command + 1
  {
    hide ParseRequest, Decide, Encode, ResponseBody;
    RequestConn(s, e);
    var r := RequestOf(s, e).value;
    var reply := Decide(s, e.conn, r, e.env).reply;
    ReplyCommand(s, e.conn, r, e.env);
    ParseRequestExact(e.packet.command, e.packet.data, r);
    EncodeFields(Packet(VERSION, ResponseCommand(reply), ResponseBody(reply)));
  }
}
