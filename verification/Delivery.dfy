/** The order in which one client's requests take effect and are answered, from the bytes it sends to the callbacks it
    and others are given. */
module Delivery {
  import opened ByteOrder
  import opened Grammar
  import opened Parsing
  import opened Framing
  import opened Session
  import opened Agreement
  import opened Posting
  import opened Mailbox
  import opened EndToEnd
  import opened EventLoop
  import Channel
  import Client

  // ---- Replies at the client ----------------------------------------------------------------

  /** The callbacks other than those of messages. */
  function ReplyCallbacks(rs: seq<Response>): seq<Response> {
    if rs == [] then []
    else (if rs[0].Notify? then [] else [rs[0]]) + ReplyCallbacks(rs[1..])
  }

  lemma {:induction false} ReplyCallbacksSplit(a: seq<Response>, b: seq<Response>)
    ensures ReplyCallbacks(a + b) == ReplyCallbacks(a) + ReplyCallbacks(b)
  {
    if a == [] {
      assert a + b == b;
    } else {
      assert (a + b)[0] == a[0] && (a + b)[1..] == a[1..] + b;
      var first := if a[0].Notify? then [] else [a[0]];
      ReplyCallbacksSplit(a[1..], b);
      assert first + (ReplyCallbacks(a[1..]) + ReplyCallbacks(b)) == (first + ReplyCallbacks(a[1..])) + ReplyCallbacks(b);
    }
  }

  /** A frame leads to the callback of a reply only if it is one. */
  lemma KindOfFrame(f: Bytes)
    ensures ReplyCallbacks(Client.Callback(f)) == Client.Callbacks(IfReply(f))
  {
    hide ParseResponse;
    Client.CallbacksNone();
    Client.CallbacksOne(f);
    if Client.Callback(f) != [] {
      var p, r := Decode(f).value, Client.Callback(f)[0];
      DecodedFits(p.command, p.data, r);
      assert [r][1..] == [] && ReplyCallbacks([]) == [];
    }
  }

  lemma {:induction false} KindOfFrames(fs: seq<Bytes>)
    ensures ReplyCallbacks(Client.Callbacks(fs)) == Client.Callbacks(ReplyFrames(fs))
  {
    hide Client.Callbacks, Client.Callback, IfReply, ReplyCallbacks;
    if fs == [] {
      NothingBack();
    } else {
      var first, last := fs[..|fs| - 1], fs[|fs| - 1];
      assert fs == first + [last];
      KindOfFrames(first);
      KindOfFrame(last);
      Client.CallbacksSplit(first, [last]);
      Client.CallbacksOne(last);
      ReplyCallbacksSplit(Client.Callbacks(first), Client.Callback(last));
      Client.CallbacksSplit(ReplyFrames(first), IfReply(last));
    }
  }

  lemma NothingBack()
    ensures Client.Callbacks([]) == [] && ReplyCallbacks([]) == [] && ReplyFrames([]) == []
  {
  }

  /** In every run: the callbacks a client is given, other than those of messages, are an initial part, in order, of
      those of the replies to its served requests, and all of them once nothing is on its way. */
  lemma RepliesArrive(db: Tables, sha: Bytes -> Bytes, es: seq<Event>, c: nat)
    requires TablesInv(db) && RunFits(es) && c < |Run(Init(db, sha), es).conns|
    ensures var ch, owed := Run(Init(db, sha), es).conns[c].chan, Client.Callbacks(Owed(Init(db, sha), es, c));
      && ReplyCallbacks(Client.Callbacks(ch.frames)) <= owed
      && (Channel.Quiescent(ch) ==> ReplyCallbacks(Client.Callbacks(ch.frames)) == owed)
  {
    hide Client.Callbacks, ReplyCallbacks, Owed, TablesInv, RunFits, Channel.Quiescent;
    EveryChannelIsFifo(db, sha, es, c);
    ReplyOrder(db, sha, es, c);
    var ch := Run(Init(db, sha), es).conns[c].chan;
    var rest := ch.posted[|ch.frames|..];
    assert ch.posted == ch.frames + rest;
    Client.CallbacksSplit(ch.frames, rest);
    ReplyCallbacksSplit(Client.Callbacks(ch.frames), Client.Callbacks(rest));
    KindOfFrames(ch.posted);
  }

  // ---- What is sent, what is stored ---------------------------------------------------------

  /** Addressee and content. */
  type Letter = (i32, Bytes)

  /** A message a client asks to be sent, and whether the answer was success. */
  datatype Attempt = Attempt(to: i32, content: Bytes, success: bool)

  function AttemptOf(s: State, e: Event, d: nat): seq<Attempt> {
    match RequestOf(s, e)
    case Some(SendMessage(to, content)) =>
      if e.conn == d && d < |s.conns| then
        var reply := Decide(s, d, SendMessage(to, content), e.env).reply;
        [Attempt(to, content, reply.MessageResp? && reply.error == SUCCESS)]
      else []
    case _ => []
  }

  /** The attempts served on connection `d`, in order. */
  function Attempts(s: State, es: seq<Event>, d: nat): seq<Attempt> {
    if es == [] then []
    else Attempts(s, es[..|es| - 1], d) + AttemptOf(Run(s, es[..|es| - 1]), es[|es| - 1], d)
  }

  /** The messages stored, in order, each with the connection it was sent on. */
  function Log(s: State, es: seq<Event>): seq<(nat, Message)> {
    if es == [] then []
    else Log(s, es[..|es| - 1]) + LogOf(Run(s, es[..|es| - 1]), es[|es| - 1])
  }

  function LogOf(s: State, e: Event): seq<(nat, Message)> {
    match Stores(s, e) case Some(m) => [(e.conn, m)] case None => []
  }

  function Messages(log: seq<(nat, Message)>): (ms: seq<Message>)
    ensures |ms| == |log| && forall i | 0 <= i < |log| :: ms[i] == log[i].1
  {
    seq(|log|, i requires 0 <= i < |log| => log[i].1)
  }

  /** Addressee and content of the messages stored over connection `d`. */
  function StoredOver(log: seq<(nat, Message)>, d: nat): seq<Letter> {
    if log == [] then []
    else StoredOver(log[..|log| - 1], d) + EntryOver(log[|log| - 1], d)
  }

  function EntryOver(entry: (nat, Message), d: nat): seq<Letter> {
    if entry.0 == d then [(entry.1.toId, entry.1.content)] else []
  }

  function Successes(attempts: seq<Attempt>): seq<Letter> {
    if attempts == [] then []
    else
      var last := attempts[|attempts| - 1];
      Successes(attempts[..|attempts| - 1]) + if last.success then [(last.to, last.content)] else []
  }

  function Asked(attempts: seq<Attempt>): (ms: seq<Letter>)
    ensures |ms| == |attempts|
    ensures forall i | 0 <= i < |attempts| :: ms[i] == (attempts[i].to, attempts[i].content)
  {
    seq(|attempts|, i requires 0 <= i < |attempts| => (attempts[i].to, attempts[i].content))
  }

  lemma SuccessesSnoc(attempts: seq<Attempt>, more: seq<Attempt>)
    requires |more| <= 1
    ensures Successes(attempts + more) ==
      Successes(attempts) + if more != [] && more[0].success then [(more[0].to, more[0].content)] else []
  {
    if more == [] {
      assert attempts + more == attempts;
    } else {
      assert (attempts + more)[..|attempts|] == attempts;
    }
  }

  lemma StoredOverSnoc(log: seq<(nat, Message)>, more: seq<(nat, Message)>, d: nat)
    requires |more| <= 1
    ensures StoredOver(log + more, d) == StoredOver(log, d) + if more != [] then EntryOver(more[0], d) else []
  {
    if more == [] {
      assert log + more == log;
    } else {
      assert (log + more)[..|log|] == log;
    }
  }

  /** A message is stored exactly when its sender is answered with success. */
  lemma StoredIsAnswered(s: State, e: Event, d: nat)
    ensures |AttemptOf(s, e, d)| <= 1 && |LogOf(s, e)| <= 1
    ensures (if LogOf(s, e) != [] then EntryOver(LogOf(s, e)[0], d) else [])
      == var a := AttemptOf(s, e, d); if a != [] && a[0].success then [(a[0].to, a[0].content)] else []
  {
    hide ParseRequest, IsUser;
  }

  /** In every run: the messages stored over a connection are, in order, those its client asked to be sent and was
      answered success for; and these, over all connections, are what is added to the store. */
  lemma {:induction false} StoredInOrder(s: State, es: seq<Event>, d: nat)
    ensures StoredOver(Log(s, es), d) == Successes(Attempts(s, es, d))
    ensures Run(s, es).db.messages == s.db.messages + Messages(Log(s, es))
  {
    hide Step, AttemptOf, LogOf, Successes, EntryOver, StoredOver, Messages, Stores;
    if es == [] {
      NothingYet();
      assert s.db.messages + [] == s.db.messages;
    } else {
      var first, e := es[..|es| - 1], es[|es| - 1];
      var before := Run(s, first);
      StoredInOrder(s, first, d);
      StoredIsAnswered(before, e, d);
      SuccessesSnoc(Attempts(s, first, d), AttemptOf(before, e, d));
      StoredOverSnoc(Log(s, first), LogOf(before, e), d);
      TablesOfStep(before, e);
      MessagesOfLog(before, e, Log(s, first));
      var more := match Stores(before, e) case None => [] case Some(m) => [m];
      assert (s.db.messages + Messages(Log(s, first))) + more == s.db.messages + (Messages(Log(s, first)) + more);
    }
  }

  lemma NothingYet()
    ensures Successes([]) == [] && Messages([]) == [] && forall d: nat :: StoredOver([], d) == []
  {
  }

  lemma MessagesOfLog(s: State, e: Event, log: seq<(nat, Message)>)
    ensures Messages(log + LogOf(s, e)) == Messages(log) + match Stores(s, e) case None => [] case Some(m) => [m]
  {
    hide Stores;
  }

  // ---- What the bytes of a stream ask for ---------------------------------------------------

  function SendIn(p: Packet): seq<Letter> {
    match ParseRequest(p.command, p.data)
    case Accepted(SendMessage(to, content)) => [(to, content)]
    case _ => []
  }

  /** The messages a sequence of packets asks to be sent. */
  function SendsIn(ps: seq<Packet>): seq<Letter> {
    if ps == [] then [] else SendsIn(ps[..|ps| - 1]) + SendIn(ps[|ps| - 1])
  }

  lemma {:induction false} SendsSplit(ps: seq<Packet>, qs: seq<Packet>)
    ensures SendsIn(ps + qs) == SendsIn(ps) + SendsIn(qs)
  {
    hide SendIn;
    if qs == [] {
      assert ps + qs == ps;
    } else {
      var n := |qs| - 1;
      assert (ps + qs)[..|ps| + n] == ps + qs[..n];
      SendsSplit(ps, qs[..n]);
    }
  }

  /** Every packet dispatched on connection `d` found it reading. */
  predicate AllServed(s: State, es: seq<Event>, d: nat) {
    es == [] ||
    var before, e := Run(s, es[..|es| - 1]), es[|es| - 1];
    AllServed(s, es[..|es| - 1], d) && (e.Dispatch? && e.conn == d ==> CanDispatch(before, e))
  }

  lemma AskedOfStep(s: State, e: Event, d: nat)
    requires e.Dispatch? && e.conn == d ==> CanDispatch(s, e)
    ensures Asked(AttemptOf(s, e, d)) == SendsIn(PacketOn(e, d))
  {
    hide ParseRequest, Decide;
    if e.Dispatch? && e.conn == d {
      assert [e.packet][..0] == [] && SendsIn([]) == [];
      assert SendsIn([e.packet]) == SendsIn([]) + SendIn(e.packet);
    }
  }

  lemma {:induction false} AskedOverRuns(s: State, es: seq<Event>, d: nat)
    requires AllServed(s, es, d)
    ensures Asked(Attempts(s, es, d)) == SendsIn(PacketsOn(es, d))
  {
    hide Step, AttemptOf, PacketOn, CanDispatch;
    if es != [] {
      var first, e := es[..|es| - 1], es[|es| - 1];
      AskedOverRuns(s, first, d);
      AskedOfStep(Run(s, first), e, d);
      SendsSplit(PacketsOn(first, d), PacketOn(e, d));
      AskedSplit(Attempts(s, first, d), AttemptOf(Run(s, first), e, d));
    }
  }

  lemma AskedSplit(a: seq<Attempt>, b: seq<Attempt>)
    ensures Asked(a + b) == Asked(a) + Asked(b)
  {
  }

  // ---- The server at work -------------------------------------------------------------------

  /** A connection is reading exactly until its chain ends. */
  predicate Tracks(l: Loop) {
    |l.chains| == |l.s.conns| && forall c | 0 <= c < |l.chains| :: Sound(l.chains[c]) && (l.s.conns[c].reading <==> !l.chains[c].Ended?)
  }

  lemma ReadingOfStep(s: State, e: Event, c: nat)
    requires c < |s.conns|
    ensures c < |Step(s, e).conns|
    ensures Step(s, e).conns[c].reading == (s.conns[c].reading && e != ReadFail(c))
  {
    hide ParseRequest, LoginBy, Channel.Do, Step;
    StepSessions(s, e);
    AcceptReads(s);
    StopAllKeepsOthers(s);
  }

  lemma AcceptReads(s: State)
    ensures forall c | 0 <= c < |s.conns| :: Step(s, Accept).conns[c] == s.conns[c]
    ensures |Step(s, Accept).conns| == |s.conns| + 1 && Step(s, Accept).conns[|s.conns|].reading
  {
  }

  lemma ConnsOfStep(s: State, e: Event)
    ensures |Step(s, e).conns| == |s.conns| + if e.Accept? then 1 else 0
  {
    hide ParseRequest, Decide, Channel.Do;
  }

  lemma ChainStep(c: nat, chain: Chain, env: Env)
    requires Sound(chain)
    ensures Sound(Advance(chain))
    ensures match ReadEvent(c, chain, env)
      case None => Advance(chain).Ended? == chain.Ended?
      case Some(e) =>
        !chain.Ended? && (e == ReadFail(c) || (e.Dispatch? && e.conn == c)) && (Advance(chain).Ended? <==> e == ReadFail(c))
  {
    hide Read32, Read16, Serve;
    YetStep(c, chain, env);
  }

  lemma TracksStep(l: Loop, turn: Turn, env: Env, streams: nat -> Bytes)
    requires Tracks(l)
    ensures Tracks(After(l, turn, env, streams))
  {
    hide Step, ReadEvent, Advance, Sound;
    var e, next := EventOf(l, turn, env), After(l, turn, env, streams);
    if turn.Reading? && turn.conn < |l.chains| {
      ChainStep(turn.conn, l.chains[turn.conn], env);
    }
    NewChain(streams(|l.chains|));
    if e.Some? {
      ConnsOfStep(l.s, e.value);
      AcceptReads(l.s);
      forall c | 0 <= c < |l.chains|
        ensures next.s.conns[c].reading == (l.s.conns[c].reading && e.value != ReadFail(c))
      {
        ReadingOfStep(l.s, e.value, c);
      }
    }
  }

  lemma TurnServed(l: Loop, turn: Turn, env: Env, d: nat)
    requires Tracks(l)
    ensures var e := EventOf(l, turn, env); e.Some? && e.value.Dispatch? && e.value.conn == d ==> CanDispatch(l.s, e.value)
  {
    hide Read32, Read16;
  }

  lemma AllServedAppend(s: State, es: seq<Event>, e: Option<Event>, d: nat)
    requires AllServed(s, es, d)
    requires e.Some? && e.value.Dispatch? && e.value.conn == d ==> CanDispatch(Run(s, es), e.value)
    ensures AllServed(s, es + AsSeq(e), d)
  {
    hide CanDispatch, Run;
    if e.Some? {
      assert (es + [e.value])[..|es|] == es;
    } else {
      assert es + [] == es;
    }
  }

  lemma {:induction false} ServedOverTurns(db: Tables, sha: Bytes -> Bytes, turns: seq<Turn>, envs: nat -> Env,
                                           streams: nat -> Bytes, d: nat)
    ensures var l, es := AfterAll(Start(db, sha), turns, envs, streams), Events(Start(db, sha), turns, envs, streams);
      Tracks(l) && AllServed(Init(db, sha), es, d)
  {
    hide After, EventOf, AsSeq, Tracks, CanDispatch;
    if turns == [] {
      StartTracks(db, sha);
    } else {
      var n := |turns| - 1;
      var before, es := AfterAll(Start(db, sha), turns[..n], envs, streams), Events(Start(db, sha), turns[..n], envs, streams);
      ServedOverTurns(db, sha, turns[..n], envs, streams, d);
      LoopIsRun(Start(db, sha), turns[..n], envs, streams);
      TracksStep(before, turns[n], envs(n), streams);
      TurnServed(before, turns[n], envs(n), d);
      AllServedAppend(Init(db, sha), es, EventOf(before, turns[n], envs(n)), d);
    }
  }

  lemma StartTracks(db: Tables, sha: Bytes -> Bytes)
    ensures Tracks(Start(db, sha))
  {
  }

  /** The server at work, in any order of turns.  The messages a connection's stream asks to be sent are attempted in
      the order they stand in it, all of them once the stream is read; those answered with success are stored, in that
      order, and nothing else is; so what a session is given of them, a run of the store, is in the order sent. */
  lemma SentInOrder(db: Tables, sha: Bytes -> Bytes, turns: seq<Turn>, envs: nat -> Env, streams: nat -> Bytes, d: nat)
    ensures var l, es := AfterAll(Start(db, sha), turns, envs, streams), Events(Start(db, sha), turns, envs, streams);
      var attempts, log := Attempts(Init(db, sha), es, d), Log(Init(db, sha), es);
      && l.s == Run(Init(db, sha), es)
      && l.s.db.messages == db.messages + Messages(log)
      && StoredOver(log, d) == Successes(attempts)
      && (d < |l.chains| ==> Asked(attempts) <= SendsIn(Serve(streams(d)).packets))
      && (d < |l.chains| && l.chains[d].Ended? ==> Asked(attempts) == SendsIn(Serve(streams(d)).packets))
  {
    hide AfterAll, Events, Attempts, Log, Asked, StoredOver, Successes, PacketsOn, SendsIn, Serve, Tracks, AllServed, Run;
    var es := Events(Start(db, sha), turns, envs, streams);
    LoopIsRun(Start(db, sha), turns, envs, streams);
    StoredInOrder(Init(db, sha), es, d);
    ServedOverTurns(db, sha, turns, envs, streams, d);
    AskedOverRuns(Init(db, sha), es, d);
    ReadsOverTurns(db, sha, turns, envs, streams, d);
    if d < |AfterAll(Start(db, sha), turns, envs, streams).chains| {
      var read, all := PacketsOn(es, d), Serve(streams(d)).packets;
      assert all == read + all[|read|..];
      SendsSplit(read, all[|read|..]);
    }
  }

  // ---- One answer for each request ----------------------------------------------------------

  function CodeOf(frame: Bytes): int {
    if |frame| < HEADER_SIZE then -1 else Read16(frame, 1) as int
  }

  function CodesOf(frames: seq<Bytes>): (codes: seq<int>)
    ensures |codes| == |frames| && forall i | 0 <= i < |frames| :: codes[i] == CodeOf(frames[i])
  {
    seq(|frames|, i requires 0 <= i < |frames| => CodeOf(frames[i]))
  }

  /** The codes of the answers to the packets that are requests. */
  function Expected(ps: seq<Packet>): seq<int> {
    if ps == [] then [] else Expected(ps[..|ps| - 1]) + ExpectedFor(ps[|ps| - 1])
  }

  function ExpectedFor(p: Packet): seq<int> {
    if ParseRequest(p.command, p.data).Accepted? then [p.command as int + 1] else []
  }

  lemma {:induction false} ExpectedSplit(ps: seq<Packet>, qs: seq<Packet>)
    ensures Expected(ps + qs) == Expected(ps) + Expected(qs)
  {
    hide ExpectedFor;
    if qs == [] {
      assert ps + qs == ps;
    } else {
      var n := |qs| - 1;
      assert (ps + qs)[..|ps| + n] == ps + qs[..n];
      ExpectedSplit(ps, qs[..n]);
    }
  }

  lemma AnswerOfStep(s: State, e: Event, d: nat)
    requires e.Dispatch? && e.conn == d ==> CanDispatch(s, e)
    ensures CodesOf(OwedBy(s, e, d)) == Expected(PacketOn(e, d))
  {
    hide ParseRequest, Decide, ResponseBytes;
    if e.Dispatch? && e.conn == d {
      assert [e.packet][..0] == [] && Expected([]) == [];
      assert Expected([e.packet]) == Expected([]) + ExpectedFor(e.packet);
      if RequestOf(s, e).Some? {
        OwedCode(s, e);
      }
    }
  }

  lemma {:induction false} AnswersOverRuns(s: State, es: seq<Event>, d: nat)
    requires AllServed(s, es, d)
    ensures CodesOf(Owed(s, es, d)) == Expected(PacketsOn(es, d))
  {
    hide Step, OwedBy, PacketOn, CanDispatch, CodeOf;
    if es != [] {
      var first, e := es[..|es| - 1], es[|es| - 1];
      AnswersOverRuns(s, first, d);
      AnswerOfStep(Run(s, first), e, d);
      ExpectedSplit(PacketsOn(first, d), PacketOn(e, d));
      CodesSplit(Owed(s, first, d), OwedBy(Run(s, first), e, d));
    }
  }

  lemma CodesSplit(a: seq<Bytes>, b: seq<Bytes>)
    ensures CodesOf(a + b) == CodesOf(a) + CodesOf(b)
  {
    hide CodeOf;
  }

  /** The server at work, in any order of turns: the replies owed to a connection answer, one for one and in order, the
      requests its stream holds, an initial part of them while it is being read and all of them once it is. */
  lemma OneAnswerEach(db: Tables, sha: Bytes -> Bytes, turns: seq<Turn>, envs: nat -> Env, streams: nat -> Bytes, d: nat)
    requires d < |AfterAll(Start(db, sha), turns, envs, streams).chains|
    ensures var l, es := AfterAll(Start(db, sha), turns, envs, streams), Events(Start(db, sha), turns, envs, streams);
      var codes, expected := CodesOf(Owed(Init(db, sha), es, d)), Expected(Serve(streams(d)).packets);
      codes <= expected && (l.chains[d].Ended? ==> codes == expected)
  {
    hide AfterAll, Events, Owed, CodesOf, PacketsOn, Expected, Serve, Tracks, AllServed;
    var es := Events(Start(db, sha), turns, envs, streams);
    ServedOverTurns(db, sha, turns, envs, streams, d);
    AnswersOverRuns(Init(db, sha), es, d);
    ReadsOverTurns(db, sha, turns, envs, streams, d);
    var read, all := PacketsOn(es, d), Serve(streams(d)).packets;
    assert all == read + all[|read|..];
    ExpectedSplit(read, all[|read|..]);
  }

  // ---- Everything is read and answered ------------------------------------------------------

  function ReadTurns(c: nat, k: nat): (turns: seq<Turn>)
    ensures |turns| == k && forall i | 0 <= i < k :: turns[i] == Reading(c)
  {
    seq(k, i requires 0 <= i < k => Reading(c))
  }

  /** How many bytes a chain has still to read. */
  function Unread(chain: Chain): nat {
    if chain.Ended? then 0 else |chain.rest|
  }

  lemma AdvanceShrinks(chain: Chain)
    requires Sound(chain)
    ensures Sound(Advance(chain)) && (Advance(chain).Ended? || Unread(Advance(chain)) < Unread(chain))
    ensures chain.Ended? ==> Advance(chain).Ended?
  {
    hide Read32;
    match chain
    case AtHeader(rest) => HeaderLengths(rest);
    case _ =>
  }

  lemma FailedOfSend(conns: seq<Conn>, d: nat, r: Response, c: nat)
    requires d < |conns| && c < |conns|
    ensures Send(conns, d, r)[c].chan.failed == conns[c].chan.failed
  {
    hide ResponseBytes;
  }

  lemma FailedOfApply(s: State, d: nat, eff: Effect, c: nat)
    requires d < |s.conns| && c < |s.conns|
    ensures Apply(s, d, eff).conns[c].chan.failed == s.conns[c].chan.failed
  {
    hide Send, ResponseBytes;
    var s1 := if eff.login.Some? then Bind(s, d, eff.login.value) else s;
    var s2 := s1.(db := eff.db);
    var s3 := if eff.notify.Some? then NotifyUser(s2, eff.notify.value.0, eff.notify.value.1) else s2;
    if eff.notify.Some? && Target(s2, eff.notify.value.0).Some? {
      FailedOfSend(s2.conns, Target(s2, eff.notify.value.0).value, eff.notify.value.1, c);
    }
    FailedOfSend(s3.conns, d, eff.reply, c);
  }

  lemma FailedOfRead(s: State, e: Event, c: nat)
    requires c < |s.conns| && (e.Dispatch? || e.ReadFail?)
    ensures c < |Step(s, e).conns| && Step(s, e).conns[c].chan.failed == s.conns[c].chan.failed
  {
    hide ParseRequest, Decide, Apply, Channel.Do;
    if e.Dispatch? {
      RequestStep(s, e);
      if RequestOf(s, e).Some? {
        FailedOfApply(s, e.conn, Decide(s, e.conn, RequestOf(s, e).value, e.env), c);
      }
    }
  }

  lemma AfterAppend(l: Loop, turns: seq<Turn>, turn: Turn, envs: nat -> Env, streams: nat -> Bytes)
    ensures AfterAll(l, turns + [turn], envs, streams) == After(AfterAll(l, turns, envs, streams), turn, envs(|turns|), streams)
    ensures Events(l, turns + [turn], envs, streams)
      == Events(l, turns, envs, streams) + AsSeq(EventOf(AfterAll(l, turns, envs, streams), turn, envs(|turns|)))
  {
    hide After, EventOf, AsSeq;
    assert (turns + [turn])[..|turns|] == turns;
  }

  /** What turns of the read chain of `c` keep, and how they get on. */
  predicate Progress(l: Loop, now: Loop, c: nat, k: nat) {
    && Tracks(now) && |now.chains| == |l.chains| && c < |l.s.conns| && c < |now.chains|
    && c < |l.chains| && now.s.conns[c].chan.failed == l.s.conns[c].chan.failed
    && (now.chains[c].Ended? || Unread(now.chains[c]) + k <= Unread(l.chains[c]))
  }

  lemma ReadingTurn(l: Loop, now: Loop, c: nat, k: nat, env: Env, streams: nat -> Bytes)
    requires Progress(l, now, c, k)
    ensures Progress(l, After(now, Reading(c), env, streams), c, k + 1)
  {
    hide Step, Advance, ReadEvent, Sound;
    TracksStep(now, Reading(c), env, streams);
    AdvanceShrinks(now.chains[c]);
    var e := EventOf(now, Reading(c), env);
    if e.Some? {
      ChainStep(c, now.chains[c], env);
      FailedOfRead(now.s, e.value, c);
    }
  }

  /** Every turn of a read chain that has not ended takes bytes from its stream. */
  lemma {:induction false} ReadsShrink(l: Loop, turns: seq<Turn>, envs: nat -> Env, streams: nat -> Bytes, c: nat, k: nat)
    requires Tracks(AfterAll(l, turns, envs, streams)) && c < |AfterAll(l, turns, envs, streams).chains|
    ensures Progress(AfterAll(l, turns, envs, streams), AfterAll(l, turns + ReadTurns(c, k), envs, streams), c, k)
  {
    hide After, AfterAll, Sound;
    if k == 0 {
      assert turns + ReadTurns(c, 0) == turns;
    } else {
      var before := turns + ReadTurns(c, k - 1);
      ReadsShrink(l, turns, envs, streams, c, k - 1);
      assert turns + ReadTurns(c, k) == before + [Reading(c)];
      AfterAppend(l, before, Reading(c), envs, streams);
      ReadingTurn(AfterAll(l, turns, envs, streams), AfterAll(l, before, envs, streams), c, k - 1, envs(|before|), streams);
    }
  }

  /** The turns of a connection's write queue, and of its client, for steps of its channel. */
  function WriteTurns(c: nat, steps: seq<Channel.Step>): (turns: seq<Turn>)
    ensures |turns| == |steps| && forall i | 0 <= i < |steps| :: turns[i] == TurnFor(c, steps[i])
  {
    seq(|steps|, i requires 0 <= i < |steps| => TurnFor(c, steps[i]))
  }

  function TurnFor(c: nat, step: Channel.Step): Turn {
    match step
    case RunPosted => Posted(c)
    case Transmit(n) => Transmitting(c, n)
    case WriteDone => Written(c)
    case Receive(n) => Receiving(c, n)
    case _ => Failing(c)
  }

  lemma {:induction false} WritesAreTraffic(l: Loop, turns: seq<Turn>, envs: nat -> Env, streams: nat -> Bytes, c: nat,
                                            steps: seq<Channel.Step>)
    requires Channel.Ordinary(steps)
    ensures var all := turns + WriteTurns(c, steps);
      && AfterAll(l, all, envs, streams).chains == AfterAll(l, turns, envs, streams).chains
      && Events(l, all, envs, streams) == Events(l, turns, envs, streams) + OnConn(c, steps)
  {
    hide Step, AfterAll, Events;
    if steps == [] {
      assert turns + WriteTurns(c, steps) == turns;
      assert Events(l, turns, envs, streams) + OnConn(c, steps) == Events(l, turns, envs, streams);
    } else {
      var n := |steps| - 1;
      var before := turns + WriteTurns(c, steps[..n]);
      WritesAreTraffic(l, turns, envs, streams, c, steps[..n]);
      assert turns + WriteTurns(c, steps) == before + [TurnFor(c, steps[n])];
      AfterAppend(l, before, TurnFor(c, steps[n]), envs, streams);
      assert Events(l, turns, envs, streams) + OnConn(c, steps)
        == (Events(l, turns, envs, streams) + OnConn(c, steps[..n])) + [Traffic(c, steps[n])];
    }
  }

  predicate EnvFits(env: Env) {
    |Entries(env.rows)| < TWO_TO_32 - 6
  }

  lemma {:induction false} EventsFit(l: Loop, turns: seq<Turn>, envs: nat -> Env, streams: nat -> Bytes)
    requires forall i | 0 <= i < |turns| :: EnvFits(envs(i))
    ensures RunFits(Events(l, turns, envs, streams))
  {
    hide AfterAll, After, Entries, EnvFits;
    if turns != [] {
      var n := |turns| - 1;
      EventsFit(l, turns[..n], envs, streams);
      EventFits(AfterAll(l, turns[..n], envs, streams), turns[n], envs(n));
    }
  }

  lemma EventFits(l: Loop, turn: Turn, env: Env)
    requires EnvFits(env)
    ensures EventOf(l, turn, env).Some? ==> RowsFit(EventOf(l, turn, env).value)
  {
    hide Entries;
  }

  /** After any turns, as long as no write to connection `c` has failed, finitely many turns of its read chain, its write
      queue and its client are enough: all the packets its stream holds have then been dispatched, and all the replies
      to them have reached the client's callbacks. */
  lemma EverythingIsAnswered(db: Tables, sha: Bytes -> Bytes, turns: seq<Turn>, envs: nat -> Env, streams: nat -> Bytes,
                             c: nat) returns (more: seq<Turn>)
    requires TablesInv(db) && forall i: nat :: EnvFits(envs(i))
    requires c < |AfterAll(Start(db, sha), turns, envs, streams).chains|
    requires c < |AfterAll(Start(db, sha), turns, envs, streams).s.conns| ==>
      !AfterAll(Start(db, sha), turns, envs, streams).s.conns[c].chan.failed
    ensures var l, es := AfterAll(Start(db, sha), turns + more, envs, streams), Events(Start(db, sha), turns + more, envs, streams);
      && c < |l.chains| && c < |l.s.conns| && l.chains[c].Ended?
      && PacketsOn(es, c) == Serve(streams(c)).packets
      && Channel.Quiescent(l.s.conns[c].chan)
      && ReplyCallbacks(Client.Callbacks(l.s.conns[c].chan.frames)) == Client.Callbacks(Owed(Init(db, sha), es, c))
  {
    hide AfterAll, Events, TablesInv, EnvFits, RunFits, Run, Owed, Serve, PacketsOn, Channel.Quiescent, ReplyCallbacks,
      Client.Callbacks, Channel.Ordinary;
    var start := Start(db, sha);
    var k := Unread(AfterAll(start, turns, envs, streams).chains[c]) + 1;
    var read := turns + ReadTurns(c, k);
    ServedOverTurns(db, sha, turns, envs, streams, c);
    ReadsShrink(start, turns, envs, streams, c, k);
    LoopIsRun(start, read, envs, streams);
    EventsFit(start, read, envs, streams);
    var steps := EverythingArrives(db, sha, Events(start, read, envs, streams), c);
    more := ReadTurns(c, k) + WriteTurns(c, steps);
    assert turns + more == read + WriteTurns(c, steps);
    WritesAreTraffic(start, read, envs, streams, c, steps);
    LoopIsRun(start, turns + more, envs, streams);
    EventsFit(start, turns + more, envs, streams);
    ReadsOverTurns(db, sha, turns + more, envs, streams, c);
    RepliesArrive(db, sha, Events(start, turns + more, envs, streams), c);
  }

  // ---- What a client's requests ask for -----------------------------------------------------

  function LettersOf(rs: seq<Request>): seq<Letter> {
    if rs == [] then [] else LettersOf(rs[..|rs| - 1]) + LetterOf(rs[|rs| - 1])
  }

  function LetterOf(r: Request): seq<Letter> {
    if r.SendMessage? then [(r.toId, r.content)] else []
  }

  lemma LetterSent(r: Request)
    requires InRange(|RequestBody(r)|)
    ensures SendIn(RequestPacket(r)) == LetterOf(r)
  {
    hide RequestBody, ParseRequest, RequestFits;
    var p := RequestPacket(r);
    RequestRoundTrip(r);
    if r.SendMessage? {
      ContentFits(r);
    } else if ParseRequest(p.command, p.data).Accepted? {
      ParseRequestExact(p.command, p.data, ParseRequest(p.command, p.data).value);
    }
  }

  lemma ContentFits(r: Request)
    requires r.SendMessage? && InRange(|RequestBody(r)|)
    ensures RequestFits(r)
  {
    hide Be32;
  }

  lemma {:induction false} LettersSent(rs: seq<Request>)
    requires forall i | 0 <= i < |rs| :: InRange(|RequestBody(rs[i])|)
    ensures SendsIn(RequestPackets(rs)) == LettersOf(rs)
  {
    hide RequestBody, SendIn, LetterOf;
    if rs != [] {
      var n := |rs| - 1;
      assert RequestPackets(rs)[..n] == RequestPackets(rs[..n]);
      LettersSent(rs[..n]);
      LetterSent(rs[n]);
    }
  }

  /** What the stream of a client that writes `rs` asks to be sent: the messages among the requests before the first
      whose body is out of range. */
  lemma StreamOfRequests(rs: seq<Request>)
    requires RefusalReadable(rs)
    ensures SendsIn(Serve(Flatten(EncodeAll(RequestPackets(rs)))).packets) == LettersOf(rs[..ServedCount(rs)])
  {
    hide Serve, Encode, SendsIn, LettersOf;
    var k, ps := ServedCount(rs), Serve(Flatten(EncodeAll(RequestPackets(rs)))).packets;
    RequestsReachServer(rs);
    LettersSent(rs[..k]);
    assert ps == ps[..k] && RequestPackets(rs)[..k] == RequestPackets(rs[..k]);
  }
}
