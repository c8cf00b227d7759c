/** The whole server at work: one thread that runs completion handlers in any order the outside world makes them due.
    Every connection has its own read chain; the chains, the write queues and the handlers interleave. */
module EventLoop {
  import opened ByteOrder
  import opened Grammar
  import opened Framing
  import opened Server
  import opened Handlers
  import Session
  import Channel
  import EndToEnd

  type Header = h: Bytes | |h| == HEADER_SIZE witness [0, 0, 0, 0, 0, 0, 0]

  /** Where a read chain stands, and what its peer has yet to be read. */
  datatype Chain = AtHeader(rest: Bytes) | AtBody(header: Header, rest: Bytes) | Ended

  /** The handler that is due next. */
  datatype Turn =
    | Accepting                       // a connection is accepted
    | Reading(conn: nat)              // the read in progress on a connection completes or fails
    | Posted(conn: nat)               // the oldest closure posted for it runs
    | Transmitting(conn: nat, n: nat) // its outstanding write makes progress
    | Written(conn: nat)              // the write completes
    | Failing(conn: nat)              // the write fails
    | Receiving(conn: nat, n: nat)    // its client reads
    | Stopping                        // `stop_all`

  datatype Loop = Loop(s: Session.State, chains: seq<Chain>)

  // ---- One turn -----------------------------------------------------------------------------

  /** A header asks for a body that the server accepts. */
  predicate Asks(rest: Bytes) {
    |rest| >= HEADER_SIZE && InRange(Read32(rest, 3))
  }

  function Advance(chain: Chain): Chain {
    match chain
    case AtHeader(rest) => if Asks(rest) then AtBody(rest[..HEADER_SIZE], rest[HEADER_SIZE..]) else Ended
    case AtBody(header, rest) =>
      var length := Read32(header, 3);
      if |rest| < length then Ended else AtHeader(rest[length..])
    case Ended => Ended
  }

  function PacketRead(header: Header, body: Bytes): Packet {
    Packet(header[0], Read16(header, 1), body)
  }

  /** What a completed or failed read means to the server. */
  function ReadEvent(c: nat, chain: Chain, env: Session.Env): Option<Session.Event> {
    match chain
    case AtHeader(rest) => if Asks(rest) then None else Some(Session.ReadFail(c))
    case AtBody(header, rest) =>
      var length := Read32(header, 3);
      if |rest| < length then Some(Session.ReadFail(c)) else Some(Session.Dispatch(c, PacketRead(header, rest[..length]), env))
    case Ended => None
  }

  function EventOf(l: Loop, turn: Turn, env: Session.Env): Option<Session.Event> {
    match turn
    case Accepting => Some(Session.Accept)
    case Reading(c) => if c < |l.chains| then ReadEvent(c, l.chains[c], env) else None
    case Posted(c) => Some(Session.Traffic(c, Channel.RunPosted))
    case Transmitting(c, n) => Some(Session.Traffic(c, Channel.Transmit(n)))
    case Written(c) => Some(Session.Traffic(c, Channel.WriteDone))
    case Failing(c) => Some(Session.WriteFail(c))
    case Receiving(c, n) => Some(Session.Traffic(c, Channel.Receive(n)))
    case Stopping => Some(Session.StopAll)
  }

  function ChainsAfter(chains: seq<Chain>, turn: Turn, streams: nat -> Bytes): seq<Chain> {
    match turn
    case Accepting => chains + [AtHeader(streams(|chains|))]
    case Reading(c) => if c < |chains| then chains[c := Advance(chains[c])] else chains
    case _ => chains
  }

  function StateAfter(s: Session.State, e: Option<Session.Event>): Session.State {
    match e case None => s case Some(event) => Session.Step(s, event)
  }

  function After(l: Loop, turn: Turn, env: Session.Env, streams: nat -> Bytes): Loop {
    Loop(StateAfter(l.s, EventOf(l, turn, env)), ChainsAfter(l.chains, turn, streams))
  }

  // ---- All turns ----------------------------------------------------------------------------

  /** `streams(c)` is everything the peer of connection `c` ever sends; `envs(i)` is what the world decides in turn
      `i`. */
  function AfterAll(l: Loop, turns: seq<Turn>, envs: nat -> Session.Env, streams: nat -> Bytes): Loop {
    if turns == [] then l
    else
      var n := |turns| - 1;
      After(AfterAll(l, turns[..n], envs, streams), turns[n], envs(n), streams)
  }

  function AsSeq(e: Option<Session.Event>): seq<Session.Event> {
    match e case None => [] case Some(event) => [event]
  }

  function Events(l: Loop, turns: seq<Turn>, envs: nat -> Session.Env, streams: nat -> Bytes): seq<Session.Event> {
    if turns == [] then []
    else
      var n := |turns| - 1;
      Events(l, turns[..n], envs, streams) + AsSeq(EventOf(AfterAll(l, turns[..n], envs, streams), turns[n], envs(n)))
  }

  function Start(db: Session.Tables, sha: Bytes -> Bytes): Loop {
    Loop(Session.Init(db, sha), [])
  }

  lemma RunAppend(s: Session.State, es: seq<Session.Event>, e: Option<Session.Event>)
    ensures Session.Run(s, es + AsSeq(e)) == StateAfter(Session.Run(s, es), e)
  {
    hide Session.Step;
    if e.Some? {
      assert (es + [e.value])[..|es|] == es;
    } else {
      assert es + [] == es;
    }
  }

  /** Whatever the order of turns, the server goes through a run of the state machine. */
  lemma {:induction false} LoopIsRun(l: Loop, turns: seq<Turn>, envs: nat -> Session.Env, streams: nat -> Bytes)
    ensures AfterAll(l, turns, envs, streams).s == Session.Run(l.s, Events(l, turns, envs, streams))
  {
    hide EventOf, ChainsAfter, StateAfter, AsSeq;
    if turns == [] {
      EmptyRun(l.s);
    } else {
      var n := |turns| - 1;
      LoopIsRun(l, turns[..n], envs, streams);
      var before := AfterAll(l, turns[..n], envs, streams);
      RunAppend(l.s, Events(l, turns[..n], envs, streams), EventOf(before, turns[n], envs(n)));
    }
  }

  lemma EmptyRun(s: Session.State)
    ensures Session.Run(s, []) == s
  {
  }

  // ---- Each connection's packets ------------------------------------------------------------

  /** The packets dispatched on connection `c`. */
  function PacketsOn(es: seq<Session.Event>, c: nat): seq<Packet> {
    if es == [] then []
    else PacketsOn(es[..|es| - 1], c) + PacketOn(es[|es| - 1], c)
  }

  function PacketOn(e: Session.Event, c: nat): seq<Packet> {
    if e.Dispatch? && e.conn == c then [e.packet] else []
  }

  lemma PacketsOnAppend(es: seq<Session.Event>, e: Option<Session.Event>, c: nat)
    ensures PacketsOn(es + AsSeq(e), c) == PacketsOn(es, c) + match e case None => [] case Some(event) => PacketOn(event, c)
  {
    hide PacketOn;
    if e.Some? {
      assert (es + [e.value])[..|es|] == es;
    } else {
      assert es + [] == es;
    }
  }

  /** The packets a chain has still to dispatch. */
  function Yet(chain: Chain): seq<Packet> {
    match chain
    case AtHeader(rest) => Serve(rest).packets
    case AtBody(header, rest) => Serve(header + rest).packets
    case Ended => []
  }

  /** A chain waits only for bodies in range. */
  predicate Sound(chain: Chain) {
    chain.AtBody? ==> InRange(Read32(chain.header, 3))
  }

  lemma YetStep(c: nat, chain: Chain, env: Session.Env)
    requires Sound(chain)
    ensures Sound(Advance(chain))
    ensures Yet(chain) == (match ReadEvent(c, chain, env) case None => [] case Some(e) => PacketOn(e, c)) + Yet(Advance(chain))
  {
    hide Serve, Read32, Read16;
    match chain
    case AtHeader(rest) =>
      HeaderLengths(rest);
      if !Asks(rest) {
        ServeStops(rest, 0);
        assert rest[0..] == rest;
      }
    case AtBody(header, rest) => BodyStep(header, rest);
    case Ended =>
  }

  lemma HeaderLengths(rest: Bytes)
    ensures |rest| >= HEADER_SIZE ==>
      rest == rest[..HEADER_SIZE] + rest[HEADER_SIZE..] && rest[0..HEADER_SIZE] == rest[..HEADER_SIZE]
      && Read32(rest[..HEADER_SIZE], 3) == Read32(rest, 3)
  {
  }

  lemma BodyStep(header: Header, rest: Bytes)
    requires InRange(Read32(header, 3))
    ensures var n := Read32(header, 3) as int;
      Serve(header + rest).packets ==
        if |rest| < n then [] else [PacketRead(header, rest[..n])] + Serve(rest[n..]).packets
  {
    hide Serve, Read32, Read16;
    var n := Read32(header, 3) as int;
    var stream := header + rest;
    assert stream[0..HEADER_SIZE] == header && stream[0..] == stream;
    if |rest| < n {
      ServeStops(stream, 0);
    } else {
      ServeOne(stream, 0);
      assert stream[HEADER_SIZE..HEADER_SIZE + n] == rest[..n] && stream[HEADER_SIZE + n..] == rest[n..];
    }
  }

  /** What connection `c` has dispatched and will dispatch make up what its stream holds. */
  predicate ReadsOn(chains: seq<Chain>, es: seq<Session.Event>, streams: nat -> Bytes, c: nat) {
    if c < |chains| then Sound(chains[c]) && PacketsOn(es, c) + Yet(chains[c]) == Serve(streams(c)).packets
    else PacketsOn(es, c) == []
  }

  ghost predicate Reads(chains: seq<Chain>, es: seq<Session.Event>, streams: nat -> Bytes) {
    forall c: nat :: ReadsOn(chains, es, streams, c)
  }

  lemma ReadsStep(l: Loop, es: seq<Session.Event>, turn: Turn, env: Session.Env, streams: nat -> Bytes)
    requires Reads(l.chains, es, streams)
    ensures Reads(After(l, turn, env, streams).chains, es + AsSeq(EventOf(l, turn, env)), streams)
  {
    hide Serve, ReadEvent, Advance, Yet, Sound, StateAfter, AsSeq, EventOf, PacketsOn, ChainsAfter;
    forall c: nat
      ensures ReadsOn(After(l, turn, env, streams).chains, es + AsSeq(EventOf(l, turn, env)), streams, c)
    {
      ReadsStepOn(l, es, turn, env, streams, c);
    }
  }

  lemma ReadsStepOn(l: Loop, es: seq<Session.Event>, turn: Turn, env: Session.Env, streams: nat -> Bytes, c: nat)
    requires ReadsOn(l.chains, es, streams, c)
    ensures ReadsOn(After(l, turn, env, streams).chains, es + AsSeq(EventOf(l, turn, env)), streams, c)
  {
    hide Serve, ReadEvent, Advance, Yet, Sound, StateAfter, AsSeq, PacketsOn;
    var e := EventOf(l, turn, env);
    var chains := After(l, turn, env, streams).chains;
    PacketsOnAppend(es, e, c);
    var more := match e case None => [] case Some(event) => PacketOn(event, c);
    if turn == Reading(c) && c < |l.chains| {
      YetStep(c, l.chains[c], env);
      assert PacketsOn(es, c) + (more + Yet(chains[c])) == (PacketsOn(es, c) + more) + Yet(chains[c]);
    } else {
      OtherPackets(l, turn, env, c);
      assert PacketsOn(es, c) + [] == PacketsOn(es, c);
      if c == |l.chains| < |chains| {
        NewChain(streams(c));
        assert [] + Yet(chains[c]) == Yet(chains[c]);
      }
    }
  }

  lemma NewChain(stream: Bytes)
    ensures Sound(AtHeader(stream)) && Yet(AtHeader(stream)) == Serve(stream).packets
  {
    hide Serve;
  }

  lemma OtherPackets(l: Loop, turn: Turn, env: Session.Env, c: nat)
    requires turn != Reading(c) || c >= |l.chains|
    ensures EventOf(l, turn, env).Some? ==> PacketOn(EventOf(l, turn, env).value, c) == []
  {
  }

  /** However the chains interleave with each other and with everything else: on every connection the packets
      dispatched are, in order, those its own stream holds, an initial part of them while it is being read and all of
      them when its chain has ended. */
  lemma {:induction false} ReadsOverTurns(db: Session.Tables, sha: Bytes -> Bytes, turns: seq<Turn>,
                                          envs: nat -> Session.Env, streams: nat -> Bytes, c: nat)
    ensures var l, es := AfterAll(Start(db, sha), turns, envs, streams), Events(Start(db, sha), turns, envs, streams);
      Reads(l.chains, es, streams)
      && (c < |l.chains| ==> PacketsOn(es, c) <= Serve(streams(c)).packets)
      && (c < |l.chains| && l.chains[c].Ended? ==> PacketsOn(es, c) == Serve(streams(c)).packets)
  {
    hide Serve, Sound, After, EventOf, AsSeq, ReadsOn;
    if turns != [] {
      var n := |turns| - 1;
      ReadsOverTurns(db, sha, turns[..n], envs, streams, c);
      var before := AfterAll(Start(db, sha), turns[..n], envs, streams);
      ReadsStep(before, Events(Start(db, sha), turns[..n], envs, streams), turns[n], envs(n), streams);
    } else {
      NothingRead(streams);
    }
    var l, es := AfterAll(Start(db, sha), turns, envs, streams), Events(Start(db, sha), turns, envs, streams);
    if c < |l.chains| {
      ReadsMean(l.chains, es, streams, c);
    }
  }

  lemma NothingRead(streams: nat -> Bytes)
    ensures Reads([], [], streams)
  {
  }

  lemma ReadsMean(chains: seq<Chain>, es: seq<Session.Event>, streams: nat -> Bytes, c: nat)
    requires Reads(chains, es, streams) && c < |chains|
    ensures PacketsOn(es, c) <= Serve(streams(c)).packets
    ensures chains[c].Ended? ==> PacketsOn(es, c) == Serve(streams(c)).packets
  {
    assert ReadsOn(chains, es, streams, c);
  }

  // ---- The objects --------------------------------------------------------------------------

  class EventLoop {
    const handler: MessageHandler
    const streams: nat -> Bytes
    /** All connections, in order of acceptance. */
    var conns: seq<Connection>
    /** The transport's view of each connection's read. */
    var chains: seq<Chain>

    constructor (db: Session.Tables, sha: Bytes -> Bytes, streams: nat -> Bytes)
      ensures Shows(Start(db, sha)) && conns == [] && this.streams == streams
      ensures fresh(handler) && fresh(handler.manager) && fresh(handler.db) && fresh(handler.cache)
    {
      handler := new MessageHandler(db, sha);
      this.streams := streams;
      conns := [];
      chains := [];
    }

    /** A connection's buffers hold what its chain says: the header of a body that is being read, and room for the
        body. */
    ghost predicate ChainShown(conn: Connection, chain: Chain)
      reads conn
    {
      && (conn.reading <==> !chain.Ended?)
      && (chain.AtBody? ==> conn.headerBuffer == chain.header && |conn.bodyBuffer| == Read32(chain.header, 3) && Sound(chain))
    }

    ghost predicate Shows(l: Loop)
      reads this, handler, handler.manager, handler.db, handler.cache, handler.all, conns
    {
      && handler.Shows(l.s) && conns == handler.all
      && chains == l.chains && |chains| == |conns|
      && EndToEnd.ChannelsInv(l.s)
      && forall c | 0 <= c < |conns| :: ChainShown(conns[c], chains[c])
    }

    /** What holds of the connections between turns. */
    lemma Connections(l: Loop)
      requires Shows(l)
      ensures |conns| == |l.s.conns| && forall c | 0 <= c < |conns| :: handler.IsConn(l.s, c, conns[c])
      ensures forall c, d | 0 <= c < d < |conns| :: conns[c] != conns[d]
    {
    }

    /** A read for a header completes or fails. */
    method ReadHeader(conn: Connection, c: nat, rest: Bytes, env: Session.Env, ghost l: Loop)
      requires Shows(l) && c < |conns| && conns[c] == conn && chains[c] == AtHeader(rest)
      modifies this`chains, handler.manager, conn`headerBuffer, conn`bodyBuffer, conn`reading
      ensures Shows(After(l, Reading(c), env, streams))
    {
      hide Session.Step, EndToEnd.ChannelsInv, MessageHandler.Shows;
      Connections(l);
      EndToEnd.ChannelsStep(l.s, Session.ReadFail(c));
      if |rest| >= HEADER_SIZE {
        HeaderLengths(rest);
        var bodyLength := handler.OnHeaderRead(conn, rest[..HEADER_SIZE], l.s, c);
        if bodyLength.Some? {
          chains := chains[c := AtBody(rest[..HEADER_SIZE], rest[HEADER_SIZE..])];
          return;
        }
      }
      handler.OnReadEnd(conn, l.s, c);
      chains := chains[c := Ended];
    }

    /** A read for a body, of the size of the body buffer, completes or fails. */
    method ReadBody(conn: Connection, c: nat, header: Header, rest: Bytes, env: Session.Env, ghost l: Loop)
      requires Shows(l) && c < |conns| && conns[c] == conn && chains[c] == AtBody(header, rest)
      modifies this`chains, handler.manager, handler.db, handler.cache
      modifies conns`pending, conn`userId, conn`bodyBuffer, conn`reading
      ensures Shows(After(l, Reading(c), env, streams))
    {
      hide Session.Step, EndToEnd.ChannelsInv, MessageHandler.Shows, Read16, Read32;
      Connections(l);
      var length := |conn.bodyBuffer|;
      if |rest| < length {
        EndToEnd.ChannelsStep(l.s, Session.ReadFail(c));
        handler.OnReadEnd(conn, l.s, c);
        chains := chains[c := Ended];
      } else {
        ghost var packet := PacketRead(header, rest[..length]);
        EndToEnd.ChannelsStep(l.s, Session.Dispatch(c, packet, env));
        handler.OnBodyRead(conn, rest[..length], env, l.s, c);
        chains := chains[c := AtHeader(rest[length..])];
      }
    }

    method AcceptOne(env: Session.Env, ghost l: Loop)
      requires Shows(l)
      modifies this`conns, this`chains, handler`all, handler.manager
      ensures Shows(After(l, Accepting, env, streams))
      ensures |conns| == |old(conns)| + 1 && conns[..|old(conns)|] == old(conns) && fresh(conns[|old(conns)|])
    {
      hide Session.Step, EndToEnd.ChannelsInv, MessageHandler.Shows;
      Connections(l);
      EndToEnd.ChannelsStep(l.s, Session.Accept);
      var id := |conns|;
      var conn := handler.Accept(l.s, id);
      conns := conns + [conn];
      chains := chains + [AtHeader(streams(id))];
    }

    /** A turn of a connection's write queue. */
    method TurnWriting(conn: Connection, c: nat, turn: Turn, env: Session.Env, ghost l: Loop)
      requires Shows(l) && c < |conns| && conns[c] == conn
      requires turn in {Posted(c), Written(c), Failing(c)} || (turn.Transmitting? && turn.conn == c)
      modifies handler.manager, conn`pending, conn`writeBuffer, conn`outstanding, conn`sent
      ensures Shows(After(l, turn, env, streams))
    {
      hide Session.Step, EndToEnd.ChannelsInv, MessageHandler.Shows, Channel.QueueInv;
      Connections(l);
      QueueShown(l, c);
      EndToEnd.ChannelsStep(l.s, EventOf(l, turn, env).value);
      match turn {
        case Posted(_) =>
          if conn.pending != [] {
            handler.OnPosted(conn, l.s, c);
          } else {
            handler.IdleShown(l.s, c, Channel.RunPosted);
          }
        case Transmitting(_, n) =>
          if conn.outstanding != [] && conn.sent + n <= |conn.outstanding[0]| {
            handler.OnTransmit(conn, n, l.s, c);
          } else {
            handler.IdleShown(l.s, c, Channel.Transmit(n));
          }
        case Written(_) =>
          if conn.outstanding != [] && conn.sent == |conn.outstanding[0]| {
            handler.OnWritten(conn, l.s, c);
          } else {
            handler.IdleShown(l.s, c, Channel.WriteDone);
          }
        case Failing(_) =>
          if conn.outstanding != [] {
            handler.OnWriteError(conn, l.s, c);
          } else {
            NoFailure(l, c);
          }
      }
    }

    lemma QueueShown(l: Loop, c: nat)
      requires Shows(l) && c < |conns|
      ensures Channel.QueueInv(l.s.conns[c].chan)
    {
    }

    lemma NoFailure(l: Loop, c: nat)
      requires Shows(l) && (c < |conns| ==> conns[c].outstanding == [])
      ensures Session.Step(l.s, Session.WriteFail(c)) == l.s
    {
    }

    method TakeTurn(turn: Turn, env: Session.Env, ghost l: Loop)
      requires Shows(l)
      modifies this`conns, this`chains, handler`all, handler.manager, handler.db, handler.cache, conns
      ensures Shows(After(l, turn, env, streams))
      ensures forall k | 0 <= k < |conns| :: conns[k] in old(conns) || fresh(conns[k])
    {
      hide Session.Step, EndToEnd.ChannelsInv, MessageHandler.Shows;
      Connections(l);
      match turn {
        case Accepting => AcceptOne(env, l);
        case Reading(c) =>
          if c < |conns| {
            match chains[c] {
              case AtHeader(rest) => ReadHeader(conns[c], c, rest, env, l);
              case AtBody(header, rest) => ReadBody(conns[c], c, header, rest, env, l);
              case Ended => assert chains[c := Ended] == chains;
            }
          }
        case Receiving(c, n) =>
          handler.IdleShown(l.s, c, Channel.Receive(n));
          EndToEnd.ChannelsStep(l.s, EventOf(l, turn, env).value);
        case Stopping =>
          handler.StopAll(l.s);
          EndToEnd.ChannelsStep(l.s, Session.StopAll);
        case _ =>
          var c := turn.conn;
          if c < |conns| {
            TurnWriting(conns[c], c, turn, env, l);
          } else {
            NoConnection(l, c, turn, env);
          }
      }
    }

    lemma NoConnection(l: Loop, c: nat, turn: Turn, env: Session.Env)
      requires Shows(l) && c >= |conns|
      requires turn in {Posted(c), Written(c), Failing(c)} || (turn.Transmitting? && turn.conn == c)
      ensures After(l, turn, env, streams) == l
    {
    }
  }

  /** A server from its start: whatever handlers become due in whatever order, the objects end up in the state the
      state machine reaches by the events the turns amount to. */
  method ServeAll(db: Session.Tables, sha: Bytes -> Bytes, turns: seq<Turn>, envs: nat -> Session.Env,
                  streams: nat -> Bytes) returns (server: EventLoop)
    ensures fresh(server) && server.Shows(AfterAll(Start(db, sha), turns, envs, streams))
    ensures server.handler.Shows(Session.Run(Session.Init(db, sha), Events(Start(db, sha), turns, envs, streams)))
  {
    server := new EventLoop(db, sha, streams);
    ghost var start := Start(db, sha);
    for i := 0 to |turns|
      invariant server.Shows(AfterAll(start, turns[..i], envs, streams))
      invariant fresh(server) && fresh(server.handler) && fresh(server.handler.manager)
      invariant fresh(server.handler.db) && fresh(server.handler.cache)
      invariant forall k | 0 <= k < |server.conns| :: fresh(server.conns[k])
      invariant server.streams == streams
    {
      hide After;
      assert turns[..i + 1][..i] == turns[..i];
      server.TakeTurn(turns[i], envs(i), AfterAll(start, turns[..i], envs, streams));
    }
    assert turns[..|turns|] == turns;
    LoopIsRun(start, turns, envs, streams);
  }
}
