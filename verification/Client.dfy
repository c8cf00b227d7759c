/** The chat client's receiving side: `read_loop` and the dispatch of `handle_packet`. */
module Client {
  import opened ByteOrder
  import opened Grammar
  import opened Parsing
  import opened Framing
  import ClientCodec

  /** The callback a frame leads to, as the response it carries; none when the frame is not understood.  An
      over-read is undefined behaviour: `ResponseOverReadExact` says when it can happen. */
  function Callback(frame: Bytes): seq<Response> {
    match Decode(frame)
    case None => []
    case Some(p) =>
      match ParseResponse(p.command, p.data)
      case Accepted(r) => [r]
      case Rejected => []
      case OverRead => []
  }

  function Callbacks(frames: seq<Bytes>): seq<Response> {
    if frames == [] then [] else Callback(frames[0]) + Callbacks(frames[1..])
  }

  lemma CallbacksSplit(fs: seq<Bytes>, gs: seq<Bytes>)
    ensures Callbacks(fs + gs) == Callbacks(fs) + Callbacks(gs)
  {
    hide Callback;
    if fs == [] {
      assert fs + gs == gs;
    } else {
      assert (fs + gs)[1..] == fs[1..] + gs;
      CallbacksSplit(fs[1..], gs);
    }
  }

  lemma CallbacksOne(f: Bytes)
    ensures Callbacks([f]) == Callback(f)
  {
    hide Callback;
    assert [f][1..] == [];
    assert Callbacks([f]) == Callback(f) + [];
  }

  /** A response the server sends reaches its callback unchanged; the replies to a message and to an add-friend
      request reach none. */
  lemma CallbackOfResponse(r: Response)
    requires ResponseFits(r) && |ResponseBody(r)| < TWO_TO_32
    ensures Callback(ResponseBytes(r)) == if Understood(r) then [r] else []
  {
    hide Encode, Decode, ResponseBody;
    PacketIsFrame(Packet(VERSION, ResponseCommand(r), ResponseBody(r)));
    if Understood(r) {
      ResponseDecodes(r);
    }
  }

  /** A response reaches its callback unchanged if and only if the client has a case for it, its fields are in their
      bounds, and its body is short enough for the length field of a packet. */
  lemma CallbackExact(r: Response)
    ensures Callback(ResponseBytes(r)) == [r] <==> Understood(r) && ResponseFits(r) && |ResponseBody(r)| < TWO_TO_32
  {
    hide Encode, Decode, ParseResponse;
    if Understood(r) && ResponseFits(r) && |ResponseBody(r)| < TWO_TO_32 {
      CallbackOfResponse(r);
    }
    if Callback(ResponseBytes(r)) == [r] {
      var p := Packet(VERSION, ResponseCommand(r), ResponseBody(r));
      var q := Decode(Encode(p)).value;
      SamePacket(p, q);
      DecodedFits(q.command, q.data, r);
    }
  }

  /** Whatever callback the packet of a response leads to, it is of its command. */
  lemma CallbackSound(r: Response)
    ensures |Callback(ResponseBytes(r))| <= 1
    ensures Callback(ResponseBytes(r)) != [] ==>
      ParseResponse(ResponseCommand(r), ResponseBody(r)) == Accepted(Callback(ResponseBytes(r))[0])
  {
    hide Encode, Decode, ParseResponse;
    if Callback(ResponseBytes(r)) != [] {
      var p := Packet(VERSION, ResponseCommand(r), ResponseBody(r));
      SamePacket(p, Decode(Encode(p)).value);
    }
  }

  lemma SamePacket(p: Packet, q: Packet)
    requires Decode(Encode(p)) == Some(q)
    ensures p == q && |p.data| < TWO_TO_32
  {
    hide Encode, Decode;
    DecodeExact(Encode(p), q);
    EncodeFields(p);
    EncodeFields(q);
  }

  /** The successive results of `recv` up to the one that ends the loop. */
  function Live(received: seq<Bytes>): seq<Bytes> {
    if received == [] || received[0] == [] then [] else [received[0]] + Live(received[1..])
  }

  /** The chunks up to the first empty one, or all of them. */
  lemma {:induction false} LiveExact(received: seq<Bytes>, k: nat)
    requires k <= |received| && (forall i | 0 <= i < k :: received[i] != []) && (k < |received| ==> received[k] == [])
    ensures Live(received) == received[..k]
  {
    if k > 0 {
      LiveExact(received[1..], k - 1);
      assert received[..k] == [received[0]] + received[1..][..k - 1];
    }
  }

  class ChatClient {
    var readBuffer: Bytes
    var connected: bool
    /** The arguments of the callbacks made so far. */
    var delivered: seq<Response>

    constructor ()
      ensures readBuffer == [] && delivered == [] && !HasFrame(readBuffer)
    {
      readBuffer := [];
      connected := true;
      delivered := [];
    }

    method HandlePacket(packet: Bytes)
      modifies this`delivered
      ensures delivered == old(delivered) + Callback(packet)
    {
      hide ParseResponse;
      var decoded := ClientCodec.DecodeCommand(packet);
      if decoded == None {
        return;
      }
      var (command, data) := decoded.value;
      var response := Rejected;
      if command == LOGIN_RESP {
        response := ClientCodec.DecodeLoginResponse(data);
      } else if command == MESSAGE_NOTIFY {
        response := ClientCodec.DecodeMessageNotify(data);
      } else if command == FRIEND_LIST_RESP {
        response := ClientCodec.DecodeFriendListResponse(data);
      } else if command == REGISTER_RESP {
        response := ClientCodec.DecodeRegisterResponse(data);
      } else if command == SECURITY_QUESTION_RESP {
        response := ClientCodec.DecodeSecurityQuestionResponse(data);
      } else if command == RESET_PASSWORD_RESP {
        response := ClientCodec.DecodeResetPasswordResponse(data);
      } else if command == VERSION_CHECK_RESP {
        response := ClientCodec.DecodeVersionCheckResponse(data);
      } else {
        UnknownCommand(command, data);
      }
      if response.Accepted? {
        delivered := delivered + [response.value];
      }
    }

    /** The inner loop. */
    method DrainBuffer()
      modifies this`readBuffer, this`delivered
      ensures readBuffer == Drain(old(readBuffer)).rest
      ensures delivered == old(delivered) + Callbacks(Drain(old(readBuffer)).frames)
    {
      hide Drain, Callbacks, Callback, Read32;
      ghost var all := Drain(readBuffer);
      ghost var done: seq<Bytes> := [];
      assert done + all.frames == all.frames;
      CallbacksNone();
      while |readBuffer| >= HEADER_SIZE
        invariant all == Drained(done + Drain(readBuffer).frames, Drain(readBuffer).rest)
        invariant delivered == old(delivered) + Callbacks(done)
        decreases |readBuffer|
      {
        var length := Read32(readBuffer, 3);
        if |readBuffer| >= HEADER_SIZE + length {
          DrainOne(readBuffer);
          var packet := readBuffer[..HEADER_SIZE + length];
          ghost var more := Drain(readBuffer[HEADER_SIZE + length..]).frames;
          readBuffer := readBuffer[HEADER_SIZE + length..];
          HandlePacket(packet);
          CallbacksSplit(done, [packet]);
          CallbacksOne(packet);
          assert done + ([packet] + more) == (done + [packet]) + more;
          done := done + [packet];
        } else {
          break;
        }
      }
      DrainNothing(readBuffer);
      assert done + [] == done;
    }

    /** `received` holds what the successive `recv` calls return; an empty one ends the loop.  The callbacks and
        the leftover are those of the concatenation cut once, so the chunk boundaries do not matter. */
    method ReadLoop(received: seq<Bytes>)
      requires !HasFrame(readBuffer)
      modifies this
      ensures !HasFrame(readBuffer) && !connected
      ensures readBuffer == Drain(old(readBuffer) + Flatten(Live(received))).rest
      ensures delivered == old(delivered) + Callbacks(Drain(old(readBuffer) + Flatten(Live(received))).frames)
    {
      hide HasFrame, Drain, Callbacks, Live, DrainChunks;
      ghost var all := DrainChunks(readBuffer, Live(received));
      ChunkingIrrelevant(readBuffer, Live(received));
      ghost var frames: seq<Bytes> := [];
      var i := 0;
      assert received[0..] == received;
      assert frames + all.frames == all.frames;
      CallbacksNone();
      while i < |received|
        invariant 0 <= i <= |received|
        invariant !HasFrame(readBuffer)
        invariant Pending(all, frames, readBuffer, Live(received[i..]))
        invariant delivered == old(delivered) + Callbacks(frames)
      {
        var chunk := received[i];
        if |chunk| <= 0 {
          break;
        }
        LiveCons(received, i);
        PendingStep(all, frames, readBuffer, chunk, Live(received[i + 1..]));
        ghost var now := Drain(readBuffer + chunk);
        readBuffer := readBuffer + chunk;
        DrainSound(readBuffer);
        DrainBuffer();
        CallbacksSplit(frames, now.frames);
        frames := frames + now.frames;
        i := i + 1;
      }
      LiveEnds(received, i);
      PendingNone(all, frames, readBuffer);
      connected := false;
    }
  }

  /** Of everything a stream will yield, `frames` have been handled and `chunks` are still to come. */
  ghost predicate Pending(all: Drained, frames: seq<Bytes>, buf: Bytes, chunks: seq<Bytes>) {
    all == Drained(frames + DrainChunks(buf, chunks).frames, DrainChunks(buf, chunks).rest)
  }

  lemma PendingStep(all: Drained, frames: seq<Bytes>, buf: Bytes, chunk: Bytes, chunks: seq<Bytes>)
    requires Pending(all, frames, buf, [chunk] + chunks)
    ensures var now := Drain(buf + chunk); Pending(all, frames + now.frames, now.rest, chunks)
  {
    hide Drain;
    var now := Drain(buf + chunk);
    var more := DrainChunks(now.rest, chunks);
    assert ([chunk] + chunks)[1..] == chunks;
    assert frames + (now.frames + more.frames) == (frames + now.frames) + more.frames;
  }

  lemma PendingNone(all: Drained, frames: seq<Bytes>, buf: Bytes)
    ensures Pending(all, frames, buf, []) <==> all == Drained(frames, buf)
  {
    assert frames + [] == frames;
  }

  lemma LiveCons(received: seq<Bytes>, i: nat)
    requires i < |received| && received[i] != []
    ensures Live(received[i..]) == [received[i]] + Live(received[i + 1..])
  {
    assert received[i..][1..] == received[i + 1..];
  }

  lemma LiveEnds(received: seq<Bytes>, i: nat)
    requires i <= |received| && (i < |received| ==> received[i] == [])
    ensures Live(received[i..]) == []
  {
  }

  lemma CallbacksNone()
    ensures Callbacks([]) == []
  {
  }

  lemma DrainOne(buf: Bytes)
    requires |buf| >= HEADER_SIZE && |buf| >= HEADER_SIZE + Read32(buf, 3)
    ensures var n := HEADER_SIZE + Read32(buf, 3);
      Drain(buf) == Drained([buf[..n]] + Drain(buf[n..]).frames, Drain(buf[n..]).rest)
  {
    hide Read32;
    assert HasFrame(buf) && FrameLength(buf) == HEADER_SIZE + Read32(buf, 3);
    hide HasFrame, FrameLength;
    DrainFrame(buf);
  }

  lemma DrainFrame(buf: Bytes)
    requires HasFrame(buf)
    ensures |buf| >= FrameLength(buf) >= HEADER_SIZE
    ensures var n := FrameLength(buf);
      Drain(buf) == Drained([buf[..n]] + Drain(buf[n..]).frames, Drain(buf[n..]).rest)
  {
    CutHead(buf);
    hide HasFrame, FrameLength;
  }

  lemma UnknownCommand(command: u16, data: Bytes)
    requires command !in {LOGIN_RESP, MESSAGE_NOTIFY, FRIEND_LIST_RESP, REGISTER_RESP, SECURITY_QUESTION_RESP,
                          RESET_PASSWORD_RESP, VERSION_CHECK_RESP}
    ensures ParseResponse(command, data) == Rejected
  {
  }
}
