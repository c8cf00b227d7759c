/** From the tables to the message callback: the session machine, the channels and the client put together. */
module EndToEnd {
  import opened ByteOrder
  import opened Grammar
  import opened Parsing
  import opened Framing
  import opened Session
  import opened Agreement
  import opened Posting
  import opened Mailbox
  import Channel

  predicate ChannelsInv(s: State) {
    forall c | 0 <= c < |s.conns| :: Channel.Inv(s.conns[c].chan)
  }

  lemma SendKeepsChannels(conns: seq<Conn>, c: nat, r: Response)
    requires c < |conns|
    requires forall d | 0 <= d < |conns| :: Channel.Inv(conns[d].chan)
    ensures forall d | 0 <= d < |conns| :: Channel.Inv(Send(conns, c, r)[d].chan)
  {
    hide Channel.Inv, Channel.Do, ResponseBytes;
    Channel.InvStep(conns[c].chan, Channel.Post(ResponseBytes(r)));
  }

  lemma ApplyKeepsChannels(s: State, c: nat, e: Effect)
    requires c < |s.conns| && ChannelsInv(s)
    ensures ChannelsInv(Apply(s, c, e))
  {
    hide Channel.Inv, Send;
    var s1 := if e.login.Some? then Bind(s, c, e.login.value) else s;
    var s2 := s1.(db := e.db);
    var s3 := if e.notify.Some? then NotifyUser(s2, e.notify.value.0, e.notify.value.1) else s2;
    if e.notify.Some? && Target(s2, e.notify.value.0).Some? {
      SendKeepsChannels(s2.conns, Target(s2, e.notify.value.0).value, e.notify.value.1);
    }
    SendKeepsChannels(s3.conns, c, e.reply);
  }

  /** Every step of the server is, on every connection, a number of steps of its channel. */
  lemma ChannelsStep(s: State, e: Event)
    requires ChannelsInv(s)
    ensures ChannelsInv(Step(s, e))
  {
    hide ParseRequest, Decide, Apply, Channel.Inv, Channel.Do;
    match e
    case Dispatch(c, _, env) =>
      RequestStep(s, e);
      match RequestOf(s, e) {
        case None =>
        case Some(r) => ApplyKeepsChannels(s, c, Decide(s, c, r, env));
      }
    case Accept => Channel.EmptyInv();
    case Traffic(c, step) => if c < |s.conns| { Channel.InvStep(s.conns[c].chan, step); }
    case WriteFail(c) => if c < |s.conns| { Channel.InvStep(s.conns[c].chan, Channel.WriteError); }
    case _ =>
  }

  lemma {:induction false} ChannelsOverRuns(db: Tables, sha: Bytes -> Bytes, es: seq<Event>)
    ensures ChannelsInv(Run(Init(db, sha), es))
  {
    hide Step;
    if es != [] {
      ChannelsOverRuns(db, sha, es[..|es| - 1]);
      ChannelsStep(Run(Init(db, sha), es[..|es| - 1]), es[|es| - 1]);
    }
  }

  // ---- Everything posted is a frame ---------------------------------------------------------

  /** Friend lists small enough for the 32-bit length of a packet. */
  predicate RowsFit(e: Event) {
    e.Dispatch? ==> |Entries(e.env.rows)| < TWO_TO_32 - 6
  }

  lemma ResponseIsFrame(r: Response)
    requires |ResponseBody(r)| < TWO_TO_32
    ensures IsFrame(ResponseBytes(r))
  {
    hide Encode, ResponseBody;
    PacketIsFrame(Packet(VERSION, ResponseCommand(r), ResponseBody(r)));
  }

  lemma ReplySize(s: State, c: nat, r: Request, env: Env)
    requires c < |s.conns| && TablesInv(s.db) && RequestFits(r)
    requires |Entries(env.rows)| < TWO_TO_32 - 6
    ensures |ResponseBody(Decide(s, c, r, env).reply)| < TWO_TO_32
  {
    hide Be16, Be32, Be64, Verify, InsertMessage, InsertFriend, InsertUser, UpdateHash;
    NoEntriesAtAll();
  }

  lemma NoEntriesAtAll()
    ensures Entries([]) == []
  {
  }

  lemma FramesOfStep(s: State, e: Event, d: nat)
    requires d < |s.conns| && TablesInv(s.db) && RowsFit(e)
    ensures AllFrames(NewFrames(s, e, d))
  {
    hide ParseRequest, Decide, IsFrame, ResponseBytes, ResponseBody, Entries, TablesInv;
    if RequestOf(s, e).Some? {
      RequestConn(s, e);
      ContentSmall(s, e);
      var r := RequestOf(s, e).value;
      var eff := Decide(s, e.conn, r, e.env);
      ReplySize(s, e.conn, r, e.env);
      ResponseIsFrame(eff.reply);
      ChatFacts(s, e.conn, r, e.env);
      if eff.notify.Some? {
        NotifySize(eff.notify.value.1);
        ResponseIsFrame(eff.notify.value.1);
      }
    }
  }

  predicate RunFits(es: seq<Event>) {
    forall i | 0 <= i < |es| :: RowsFit(es[i])
  }

  lemma {:induction false} FramesOverRuns(db: Tables, sha: Bytes -> Bytes, es: seq<Event>, c: nat)
    requires TablesInv(db) && RunFits(es)
    ensures var s := Run(Init(db, sha), es);
      TablesInv(s.db) && (c < |s.conns| ==> AllFrames(s.conns[c].chan.posted))
  {
    hide Step, NewFrames, TablesInv, RowsFit, IsFrame;
    if es != [] {
      var before, e := Run(Init(db, sha), es[..|es| - 1]), es[|es| - 1];
      assert RunFits(es[..|es| - 1]);
      FramesOverRuns(db, sha, es[..|es| - 1], c);
      TablesInvStep(before, e);
      if c < |before.conns| {
        PostedStep(before, e, c);
        FramesOfStep(before, e, c);
      } else if c < |Step(before, e).conns| {
        NewConnection(before, e, c);
      }
    }
  }

  // ---- The theorems -------------------------------------------------------------------------

  /** In every run at all, whatever the peers send and however steps interleave and bytes are chunked: the packets a
      client handles are a prefix of those posted to its connection, and all of them once nothing is on its way. */
  lemma EveryChannelIsFifo(db: Tables, sha: Bytes -> Bytes, es: seq<Event>, c: nat)
    requires TablesInv(db) && RunFits(es) && c < |Run(Init(db, sha), es).conns|
    ensures var ch := Run(Init(db, sha), es).conns[c].chan;
      ch.frames <= ch.posted && (Channel.Quiescent(ch) ==> ch.frames == ch.posted)
  {
    hide Channel.Inv, AllFrames, TablesInv, RunFits;
    ChannelsOverRuns(db, sha, es);
    FramesOverRuns(db, sha, es, c);
    Channel.Fifo(Run(Init(db, sha), es).conns[c].chan);
  }

  lemma MailPrefix(fs: seq<Bytes>, gs: seq<Bytes>)
    requires fs <= gs
    ensures MailIn(fs) <= MailIn(gs)
  {
    hide MailIn;
    assert gs == fs + gs[|fs|..];
    MailSplit(fs, gs[|fs|..]);
  }

  /** What the message callback of a session's client has been given, in every run whose steps are right for that
      session, whatever happens to others: nothing before the session has a user; after that an initial part, in store
      order, of the messages stored for that user from the login on and until the index ceased to name the session; and
      exactly those once nothing is on its way. */
  lemma MailboxRefinement(db: Tables, sha: Bytes -> Bytes, es: seq<Event>, c: nat)
    requires TablesInv(db) && OkRun(Init(db, sha), es, c) && RunFits(es)
    requires c < |Run(Init(db, sha), es).conns|
    ensures var s, lo, hi := Run(Init(db, sha), es), Base(Init(db, sha), es, c), Top(Init(db, sha), es, c);
      var ch, u := s.conns[c].chan, s.conns[c].userId;
      var all := StoredFor(s.db.messages, u);
      && (u == 0 ==> MailIn(ch.frames) == [])
      && (u != 0 ==>
            && lo <= hi <= |all| && (Named(s, c) ==> hi == |all|)
            && MailIn(ch.frames) <= all[lo..hi]
            && (Channel.Quiescent(ch) ==> MailIn(ch.frames) == all[lo..hi]))
  {
    hide TablesInv, OkRun, RunFits, MailIn, StoredFor, Channel.Quiescent, Base, Top, Named;
    EveryChannelIsFifo(db, sha, es, c);
    SegmentAtEnd(db, sha, es, c);
    var ch := Run(Init(db, sha), es).conns[c].chan;
    MailPrefix(ch.frames, ch.posted);
  }

  // ---- Everything arrives -------------------------------------------------------------------

  /** The server's events for steps of the channel of connection `c`. */
  function OnConn(c: nat, steps: seq<Channel.Step>): (es: seq<Event>)
    ensures |es| == |steps| && forall i | 0 <= i < |es| :: es[i] == Traffic(c, steps[i])
  {
    seq(|steps|, i requires 0 <= i < |steps| => Traffic(c, steps[i]))
  }

  lemma {:induction false} TrafficRun(s: State, c: nat, steps: seq<Channel.Step>)
    requires c < |s.conns| && Channel.Ordinary(steps)
    ensures Run(s, OnConn(c, steps)) == s.(conns := s.conns[c := s.conns[c].(chan := Channel.Run(s.conns[c].chan, steps))])
  {
    hide Channel.Do;
    if steps == [] {
      assert s.conns[c := s.conns[c].(chan := Channel.Run(s.conns[c].chan, []))] == s.conns;
      assert OnConn(c, steps) == [];
    } else {
      var n := |steps| - 1;
      assert OnConn(c, steps)[..n] == OnConn(c, steps[..n]);
      TrafficRun(s, c, steps[..n]);
    }
  }

  lemma {:induction false} RunConcat(s: State, es: seq<Event>, more: seq<Event>)
    ensures Run(s, es + more) == Run(Run(s, es), more)
  {
    hide Step;
    if more == [] {
      assert es + more == es;
    } else {
      var n := |more| - 1;
      assert (es + more)[..|es| + n] == es + more[..n];
      RunConcat(s, es, more[..n]);
    }
  }

  /** After every run, on every connection without a write failure, finitely many steps of its channel alone bring
      everything posted so far to the client. */
  lemma EverythingArrives(db: Tables, sha: Bytes -> Bytes, es: seq<Event>, c: nat) returns (steps: seq<Channel.Step>)
    requires TablesInv(db) && RunFits(es)
    requires c < |Run(Init(db, sha), es).conns| && !Run(Init(db, sha), es).conns[c].chan.failed
    ensures Channel.Ordinary(steps)
    ensures var s, t := Run(Init(db, sha), es), Run(Init(db, sha), es + OnConn(c, steps));
      && |t.conns| == |s.conns| && t == s.(conns := s.conns[c := t.conns[c]])
      && t.conns[c] == s.conns[c].(chan := t.conns[c].chan)
      && Channel.Quiescent(t.conns[c].chan) && t.conns[c].chan.posted == t.conns[c].chan.frames == s.conns[c].chan.posted
  {
    hide Channel.Inv, Channel.Quiescent, Channel.Run, TablesInv, RunFits, AllFrames, Run, Channel.Ordinary;
    var s := Run(Init(db, sha), es);
    ChannelsOverRuns(db, sha, es);
    FramesOverRuns(db, sha, es, c);
    steps := Channel.Finish(s.conns[c].chan);
    TrafficRun(s, c, steps);
    RunConcat(Init(db, sha), es, OnConn(c, steps));
    Channel.Fifo(Channel.Run(s.conns[c].chan, steps));
  }

  /** In particular the message callback is then given all the messages stored for the session's user while the index
      named the session. */
  lemma MailArrives(db: Tables, sha: Bytes -> Bytes, es: seq<Event>, c: nat) returns (steps: seq<Channel.Step>)
    requires TablesInv(db) && OkRun(Init(db, sha), es, c) && RunFits(es)
    requires c < |Run(Init(db, sha), es).conns| && !Run(Init(db, sha), es).conns[c].chan.failed
    requires Run(Init(db, sha), es).conns[c].userId != 0
    ensures Channel.Ordinary(steps)
    ensures var s, t := Run(Init(db, sha), es), Run(Init(db, sha), es + OnConn(c, steps));
      var lo, hi := Base(Init(db, sha), es, c), Top(Init(db, sha), es, c);
      var all := StoredFor(s.db.messages, s.conns[c].userId);
      lo <= hi <= |all| && c < |t.conns| && MailIn(t.conns[c].chan.frames) == all[lo..hi]
  {
    hide Channel.Quiescent, TablesInv, RunFits, OkRun, Run, MailIn, StoredFor, Base, Top, Named, Channel.Ordinary;
    steps := EverythingArrives(db, sha, es, c);
    SegmentAtEnd(db, sha, es, c);
  }

  // ---- The server's steps are steps of its channels -----------------------------------------

  function Posts(frames: seq<Bytes>): (steps: seq<Channel.Step>)
    ensures |steps| == |frames| && forall i | 0 <= i < |frames| :: steps[i] == Channel.Post(frames[i])
  {
    seq(|frames|, i requires 0 <= i < |frames| => Channel.Post(frames[i]))
  }

  lemma SendIsPost(conns: seq<Conn>, c: nat, r: Response, d: nat)
    requires c < |conns| && d < |conns|
    ensures Send(conns, c, r)[d].chan == Channel.Run(conns[d].chan, Posts(if c == d then [ResponseBytes(r)] else []))
  {
    hide ResponseBytes, Channel.Do;
    var steps := Posts(if c == d then [ResponseBytes(r)] else []);
    if c == d {
      assert steps == [Channel.Post(ResponseBytes(r))];
      Channel.RunOne(conns[d].chan, steps[0]);
    } else {
      assert steps == [] && Channel.Run(conns[d].chan, []) == conns[d].chan;
    }
  }

  lemma ApplyIsPosts(s: State, c: nat, e: Effect, d: nat)
    requires c < |s.conns| && d < |s.conns| && (e.login == None || e.notify == None)
    ensures Apply(s, c, e).conns[d].chan == Channel.Run(s.conns[d].chan, Posts(EffectFrames(s, c, e, d)))
  {
    hide ResponseBytes, Send, Channel.Run;
    var s1 := if e.login.Some? then Bind(s, c, e.login.value) else s;
    var s2 := s1.(db := e.db);
    var s3 := if e.notify.Some? then NotifyUser(s2, e.notify.value.0, e.notify.value.1) else s2;
    var n := if e.notify.Some? && Target(s, e.notify.value.0) == Some(d) then [ResponseBytes(e.notify.value.1)] else [];
    var a := if d == c then [ResponseBytes(e.reply)] else [];
    NoPosts(s.conns[d].chan);
    if e.notify.Some? && Target(s2, e.notify.value.0).Some? {
      SendIsPost(s2.conns, Target(s2, e.notify.value.0).value, e.notify.value.1, d);
    }
    SendIsPost(s3.conns, c, e.reply, d);
    Channel.RunConcat(s.conns[d].chan, Posts(n), Posts(a));
    assert Posts(n + a) == Posts(n) + Posts(a);
  }

  lemma NoPosts(ch: Channel.Channel)
    ensures Channel.Run(ch, Posts([])) == ch
  {
  }

  /** What a step of the server does to each channel is a number of steps of it. */
  lemma ChannelOfStep(s: State, e: Event, d: nat) returns (steps: seq<Channel.Step>)
    requires d < |s.conns|
    ensures d < |Step(s, e).conns| && Step(s, e).conns[d].chan == Channel.Run(s.conns[d].chan, steps)
    ensures e == WriteFail(d) && s.conns[d].chan.outstanding != [] ==> steps == [Channel.WriteError]
  {
    hide ParseRequest, Decide, Apply, Channel.Do, Channel.Run, EffectFrames, LoginBy;
    NoPosts(s.conns[d].chan);
    steps := Posts([]);
    match e
    case Dispatch(c, _, env) =>
      RequestStep(s, e);
      if RequestOf(s, e).Some? {
        ChatFacts(s, c, RequestOf(s, e).value, env);
        ApplyIsPosts(s, c, Decide(s, c, RequestOf(s, e).value, env), d);
        steps := Posts(EffectFrames(s, c, Decide(s, c, RequestOf(s, e).value, env), d));
      }
    case Traffic(c, step) =>
      if c == d && !step.Post? && !step.WriteError? {
        steps := [step];
        Channel.RunOne(s.conns[d].chan, step);
      }
    case WriteFail(c) =>
      if c == d && s.conns[d].chan.outstanding != [] {
        steps := [Channel.WriteError];
        Channel.RunOne(s.conns[d].chan, Channel.WriteError);
      }
    case _ =>
  }

  /** When a write fails, the connection is stopped, its queue is left as it is, and no write is outstanding. */
  lemma WriteFailExact(s: State, c: nat)
    requires ChannelsInv(s) && c < |s.conns| && s.conns[c].chan.outstanding != []
    ensures var t := Step(s, WriteFail(c));
      && c < |t.conns| && t.conns[c].chan.failed && t.conns[c].chan.outstanding == []
      && t.conns[c].chan.queue == s.conns[c].chan.queue && t.conns[c].chan.wire == s.conns[c].chan.wire
      && t.conns[c].reading == s.conns[c].reading && c !in t.live
      && (s.conns[c].userId != 0 ==> s.conns[c].userId !in t.index)
  {
    var ch := s.conns[c].chan;
    Channel.InvParts(ch);
    Channel.WriteErrorExact(ch);
  }

  /** And from then on, whatever the server does, nothing more is put on that wire. */
  lemma {:induction false} FailedForGood(s: State, es: seq<Event>, c: nat)
    requires ChannelsInv(s) && c < |s.conns| && s.conns[c].chan.failed
    ensures var t := Run(s, es);
      && ChannelsInv(t) && c < |t.conns| && t.conns[c].chan.failed && t.conns[c].chan.outstanding == []
      && t.conns[c].chan.wire == s.conns[c].chan.wire && t.conns[c].chan.written == s.conns[c].chan.written
  {
    hide Step, Channel.Run, Channel.Inv, Channel.QueueInv;
    Channel.InvParts(s.conns[c].chan);
    Channel.ErrorIsFinal(s.conns[c].chan, []);
    Channel.RunNone(s.conns[c].chan);
    if es != [] {
      var before, e := Run(s, es[..|es| - 1]), es[|es| - 1];
      FailedForGood(s, es[..|es| - 1], c);
      ChannelsStep(before, e);
      var steps := ChannelOfStep(before, e, c);
      Channel.InvParts(before.conns[c].chan);
      Channel.ErrorIsFinal(before.conns[c].chan, steps);
    }
  }
}
