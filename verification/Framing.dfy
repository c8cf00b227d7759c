/** Cutting a byte stream back into packets: the client's buffer-and-drain loop and the server's
    header-then-body reads, against one notion of a sequence of frames. */
module Framing {
  import opened ByteOrder
  import opened Grammar
  import opened Parsing

  function Flatten(fs: seq<Bytes>): Bytes {
    if fs == [] then [] else fs[0] + Flatten(fs[1..])
  }

  function FrameLength(buf: Bytes): nat
    requires |buf| >= HEADER_SIZE
  {
    HEADER_SIZE + Read32(buf, 3)
  }

  predicate HasFrame(buf: Bytes) {
    |buf| >= HEADER_SIZE && |buf| >= FrameLength(buf)
  }

  predicate IsFrame(f: Bytes) {
    |f| >= HEADER_SIZE && |f| == FrameLength(f)
  }

  predicate AllFrames(fs: seq<Bytes>) {
    forall i | 0 <= i < |fs| :: IsFrame(fs[i])
  }

  lemma FlattenSplit(fs: seq<Bytes>, gs: seq<Bytes>)
    ensures Flatten(fs + gs) == Flatten(fs) + Flatten(gs)
  {
    if fs == [] {
      assert fs + gs == gs;
    } else {
      assert (fs + gs)[1..] == fs[1..] + gs;
      FlattenSplit(fs[1..], gs);
    }
  }

  lemma FlattenOne(f: Bytes)
    ensures Flatten([f]) == f
  {
    assert [f][1..] == [];
    assert Flatten([f]) == f + [];
  }

  /** A frame is precisely a string that `Decode` accepts. */
  lemma FrameIsPacket(f: Bytes)
    ensures IsFrame(f) <==> Decode(f).Some?
    ensures IsFrame(f) ==> f == Encode(Decode(f).value) && |Decode(f).value.data| == Read32(f, 3)
  {
    if Decode(f).Some? {
      DecodeExact(f, Decode(f).value);
    }
  }

  lemma PacketIsFrame(p: Packet)
    requires |p.data| < TWO_TO_32
    ensures IsFrame(Encode(p)) && Decode(Encode(p)) == Some(p)
  {
    DecodeExact(Encode(p), p);
  }

  // ---- The client's reassembly ------------------------------------------------------------

  datatype Drained = Drained(frames: seq<Bytes>, rest: Bytes)

  /** One run of the inner loop: complete frames are cut off the front until none is left. */
  function Drain(buf: Bytes): Drained
    decreases |buf|
  {
    if HasFrame(buf) then
      var n := FrameLength(buf);
      var r := Drain(buf[n..]);
      Drained([buf[..n]] + r.frames, r.rest)
    else Drained([], buf)
  }

  lemma HeadFrame(f: Bytes, t: Bytes)
    requires IsFrame(f)
    ensures HasFrame(f + t) && FrameLength(f + t) == |f|
    ensures (f + t)[..|f|] == f && (f + t)[|f|..] == t
  {
    assert Read32(f + t, 3) == Read32(f, 3);
  }

  lemma CutHead(buf: Bytes)
    requires HasFrame(buf)
    ensures |buf| >= HEADER_SIZE && HEADER_SIZE <= FrameLength(buf) <= |buf|
    ensures IsFrame(buf[..FrameLength(buf)])
    ensures buf == buf[..FrameLength(buf)] + buf[FrameLength(buf)..]
  {
    assert Read32(buf[..FrameLength(buf)], 3) == Read32(buf, 3);
  }

  lemma FlattenCons(f: Bytes, fs: seq<Bytes>)
    ensures Flatten([f] + fs) == f + Flatten(fs)
  {
    assert ([f] + fs)[1..] == fs;
  }

  /** Frames in front of `t` come off whole, whatever `t` is. */
  lemma {:induction false} DrainPrepend(fs: seq<Bytes>, t: Bytes)
    requires AllFrames(fs)
    ensures Drain(Flatten(fs) + t) == Drained(fs + Drain(t).frames, Drain(t).rest)
  {
    hide IsFrame, HasFrame, FrameLength;
    if fs == [] {
      assert Flatten(fs) + t == t;
    } else {
      var f, gs := fs[0], fs[1..];
      var more := Flatten(gs) + t;
      assert Flatten(fs) + t == f + more;
      HeadFrame(f, more);
      DrainPrepend(gs, t);
      assert [f] + (gs + Drain(t).frames) == fs + Drain(t).frames;
    }
  }

  lemma {:induction false} DrainSound(buf: Bytes)
    ensures var r := Drain(buf);
      AllFrames(r.frames) && !HasFrame(r.rest) && Flatten(r.frames) + r.rest == buf
    decreases |buf|
  {
    hide *;
    if HasFrame(buf) {
      var f, t := DrainHead(buf);
      DrainSound(t);
      var r := Drain(t);
      FlattenCons(f, r.frames);
      assert (f + Flatten(r.frames)) + r.rest == f + (Flatten(r.frames) + r.rest);
      AllFramesCons(f, r.frames);
    } else {
      DrainNothing(buf);
    }
  }

  lemma DrainNothing(buf: Bytes)
    requires !HasFrame(buf)
    ensures Drain(buf) == Drained([], buf)
    ensures AllFrames([]) && Flatten([]) + buf == buf
  {
  }

  lemma DrainHead(buf: Bytes) returns (f: Bytes, t: Bytes)
    requires HasFrame(buf)
    ensures IsFrame(f) && buf == f + t && |t| < |buf|
    ensures Drain(buf) == Drained([f] + Drain(t).frames, Drain(t).rest)
  {
    CutHead(buf);
    f, t := buf[..FrameLength(buf)], buf[FrameLength(buf)..];
  }

  lemma AllFramesCons(f: Bytes, fs: seq<Bytes>)
    requires IsFrame(f) && AllFrames(fs)
    ensures AllFrames([f] + fs)
  {
  }

  /** Draining finds the one way to cut the buffer into whole frames and a rest that holds no whole frame. */
  lemma DrainExact(buf: Bytes, fs: seq<Bytes>, rest: Bytes)
    ensures Drain(buf) == Drained(fs, rest) <==> AllFrames(fs) && !HasFrame(rest) && Flatten(fs) + rest == buf
  {
    DrainSound(buf);
    if AllFrames(fs) && !HasFrame(rest) && Flatten(fs) + rest == buf {
      DrainPrepend(fs, rest);
      assert fs + [] == fs;
    }
  }

  /** Draining twice, around the arrival of `b`, is draining the whole. */
  lemma ChunkIndependence(a: Bytes, b: Bytes)
    ensures var first := Drain(a);
      var second := Drain(first.rest + b);
      Drain(a + b) == Drained(first.frames + second.frames, second.rest)
  {
    DrainSound(a);
    var first := Drain(a);
    assert a + b == Flatten(first.frames) + (first.rest + b);
    DrainPrepend(first.frames, first.rest + b);
  }

  /** The outer loop: a drain after every chunk. */
  function DrainChunks(buf: Bytes, chunks: seq<Bytes>): Drained
    decreases |chunks|
  {
    if chunks == [] then Drained([], buf)
    else
      var first := Drain(buf + chunks[0]);
      var more := DrainChunks(first.rest, chunks[1..]);
      Drained(first.frames + more.frames, more.rest)
  }

  /** However the stream is chunked, the frames and the leftover are those of the stream drained once. */
  lemma {:induction false} ChunkingIrrelevant(buf: Bytes, chunks: seq<Bytes>)
    requires !HasFrame(buf)
    ensures DrainChunks(buf, chunks) == Drain(buf + Flatten(chunks))
    decreases |chunks|
  {
    hide HasFrame, FrameLength;
    hide Drain;
    if chunks == [] {
      assert buf + [] == buf;
      DrainNothing(buf);
    } else {
      var here := buf + chunks[0];
      DrainSound(here);
      ChunkingIrrelevant(Drain(here).rest, chunks[1..]);
      ChunkIndependence(here, Flatten(chunks[1..]));
      assert buf + Flatten(chunks) == here + Flatten(chunks[1..]);
    }
  }

  /** From a stream cut off anywhere, the frames that lie wholly before the cut, and nothing else. */
  lemma {:induction false} PrefixFrames(w: Bytes, fs: seq<Bytes>)
    requires AllFrames(fs) && w <= Flatten(fs)
    ensures var got := Drain(w).frames;
      got <= fs && (|got| < |fs| ==> |w| < |Flatten(fs[..|got| + 1])|)
    ensures w == Flatten(fs) ==> Drain(w) == Drained(fs, [])
  {
    hide Drain, IsFrame;
    if w == Flatten(fs) {
      DrainNone();
      DrainPrepend(fs, []);
      assert Flatten(fs) + [] == w && fs + [] == fs;
    } else {
      var f, more := fs[0], fs[1..];
      assert fs == [f] + more;
      FlattenOne(f);
      if |f| <= |w| {
        var t := w[|f|..];
        TailOfPrefix(w, f, Flatten(more));
        PrefixFrames(t, more);
        DrainPrepend([f], t);
        var got := Drain(t).frames;
        if |got| < |more| {
          assert fs[..|got| + 2] == [f] + more[..|got| + 1];
          FlattenCons(f, more[..|got| + 1]);
        }
      } else {
        CutFrame(w, f, Flatten(fs));
        assert fs[..1] == [f];
      }
    }
  }

  lemma DrainNone()
    ensures Drain([]) == Drained([], [])
  {
  }

  lemma TailOfPrefix(w: Bytes, f: Bytes, rest: Bytes)
    requires w <= f + rest && |f| <= |w|
    ensures w == f + w[|f|..] && w[|f|..] <= rest
  {
    var all := f + rest;
    assert w == all[..|w|];
    assert w[..|f|] == all[..|f|] == f;
    assert w[|f|..] == all[|f|..][..|w| - |f|];
    assert all[|f|..] == rest;
  }

  lemma CutFrame(w: Bytes, f: Bytes, all: Bytes)
    requires IsFrame(f) && f <= all && w <= all && |w| < |f|
    ensures Drain(w) == Drained([], w)
  {
    if |w| >= HEADER_SIZE {
      assert Read32(w, 3) == Read32(f, 3);
    }
  }

  // ---- Concatenations of packets ----------------------------------------------------------

  function EncodeAll(ps: seq<Packet>): (r: seq<Bytes>)
    ensures |r| == |ps| && forall i | 0 <= i < |ps| :: r[i] == Encode(ps[i])
  {
    seq(|ps|, i requires 0 <= i < |ps| => Encode(ps[i]))
  }

  predicate Sendable(ps: seq<Packet>) {
    forall i | 0 <= i < |ps| :: |ps[i].data| < TWO_TO_32
  }

  lemma EncodedFrames(ps: seq<Packet>)
    requires Sendable(ps)
    ensures AllFrames(EncodeAll(ps))
  {
    forall i | 0 <= i < |ps| ensures IsFrame(EncodeAll(ps)[i]) {
      PacketIsFrame(ps[i]);
    }
  }

  /** A concatenation of packets parses in one way only. */
  lemma ConcatenationUnique(ps: seq<Packet>, qs: seq<Packet>)
    requires Sendable(ps) && Sendable(qs)
    ensures Flatten(EncodeAll(ps)) == Flatten(EncodeAll(qs)) <==> ps == qs
  {
    var w := Flatten(EncodeAll(ps));
    EncodedFrames(ps);
    EncodedFrames(qs);
    if w == Flatten(EncodeAll(qs)) {
      PrefixFrames(w, EncodeAll(ps));
      PrefixFrames(w, EncodeAll(qs));
      forall i | 0 <= i < |ps| ensures ps[i] == qs[i] {
        assert EncodeAll(ps)[i] == EncodeAll(qs)[i];
        PacketIsFrame(ps[i]);
        PacketIsFrame(qs[i]);
      }
    }
  }

  // ---- The server's reads -----------------------------------------------------------------

  const MAX_BODY: nat := 0x10_0000

  predicate InRange(len: nat) {
    0 < len < MAX_BODY
  }

  /** What the server makes of everything a peer sends: the packets it dispatches, the bytes it is left with,
      and whether it gave up on a header announcing a length out of range. */
  datatype Served = Served(packets: seq<Packet>, rest: Bytes, refused: bool)

  function Serve(stream: Bytes): Served
    decreases |stream|
  {
    if |stream| < HEADER_SIZE then Served([], stream, false)
    else if !InRange(Read32(stream, 3)) then Served([], stream, true)
    else
      var n := FrameLength(stream);
      if |stream| < n then Served([], stream, false)
      else
        var r := Serve(stream[n..]);
        Served([Packet(stream[0], Read16(stream, 1), stream[HEADER_SIZE..n])] + r.packets, r.rest, r.refused)
  }

  predicate AllInRange(ps: seq<Packet>) {
    forall i | 0 <= i < |ps| :: InRange(|ps[i].data|)
  }

  /** The server can go no further: too few bytes for the header or the body, or (only then it refuses) a
      complete header with a length out of range. */
  predicate Halted(rest: Bytes, refused: bool) {
    if |rest| < HEADER_SIZE then !refused
    else if InRange(Read32(rest, 3)) then !refused && |rest| < FrameLength(rest)
    else refused
  }

  lemma ServeStep(p: Packet, t: Bytes)
    requires InRange(|p.data|)
    ensures Serve(Encode(p) + t) == Served([p] + Serve(t).packets, Serve(t).rest, Serve(t).refused)
  {
    hide Be16, Be32;
    EncodeFields(p);
    var e := Encode(p);
    PacketIsFrame(p);
    HeadFrame(e, t);
    var s := e + t;
    assert s[..|e|] == e;
    assert s[0] == e[0] && Read16(s, 1) == Read16(e, 1) && Read32(s, 3) == Read32(e, 3);
    assert s[HEADER_SIZE..|e|] == e[HEADER_SIZE..];
  }

  lemma EncodeAllCons(p: Packet, ps: seq<Packet>)
    ensures EncodeAll([p] + ps) == [Encode(p)] + EncodeAll(ps)
    ensures Flatten(EncodeAll([p] + ps)) == Encode(p) + Flatten(EncodeAll(ps))
  {
    FlattenCons(Encode(p), EncodeAll(ps));
  }

  lemma {:induction false} ServePrepend(ps: seq<Packet>, t: Bytes)
    requires AllInRange(ps)
    ensures Serve(Flatten(EncodeAll(ps)) + t) == Served(ps + Serve(t).packets, Serve(t).rest, Serve(t).refused)
  {
    hide Encode, Serve;
    if ps == [] {
      assert Flatten(EncodeAll(ps)) + t == t;
    } else {
      var p, more := ps[0], ps[1..];
      assert ps == [p] + more;
      EncodeAllCons(p, more);
      var tail := Flatten(EncodeAll(more)) + t;
      assert Flatten(EncodeAll(ps)) + t == Encode(p) + tail;
      ServePrepend(more, t);
      ServeStep(p, tail);
      assert [p] + (more + Serve(t).packets) == ps + Serve(t).packets;
    }
  }

  predicate CanServe(stream: Bytes) {
    |stream| >= HEADER_SIZE && InRange(Read32(stream, 3)) && |stream| >= FrameLength(stream)
  }

  /** Cutting one packet off the front. */
  lemma ServeHead(stream: Bytes) returns (p: Packet, t: Bytes)
    requires CanServe(stream)
    ensures InRange(|p.data|) && stream == Encode(p) + t && |t| < |stream|
  {
    hide Encode, Decode;
    CutHead(stream);
    var f := stream[..FrameLength(stream)];
    FrameIsPacket(f);
    p, t := Decode(f).value, stream[FrameLength(stream)..];
    assert Read32(f, 3) == Read32(stream, 3);
  }

  lemma {:induction false} ServeSound(stream: Bytes)
    ensures var r := Serve(stream);
      AllInRange(r.packets) && Halted(r.rest, r.refused) && Flatten(EncodeAll(r.packets)) + r.rest == stream
    decreases |stream|
  {
    hide *;
    if CanServe(stream) {
      var p, t := ServeHead(stream);
      ServeSound(t);
      ServeStep(p, t);
      ServeSoundStep(p, Serve(t), t);
    } else {
      ServeNothing(stream);
    }
  }

  lemma ServeNothing(stream: Bytes)
    requires !CanServe(stream)
    ensures var r := Serve(stream);
      AllInRange(r.packets) && Halted(r.rest, r.refused) && Flatten(EncodeAll(r.packets)) + r.rest == stream
  {
    assert EncodeAll([]) == [];
  }

  lemma ServeSoundStep(p: Packet, r: Served, t: Bytes)
    requires InRange(|p.data|) && AllInRange(r.packets) && Flatten(EncodeAll(r.packets)) + r.rest == t
    ensures AllInRange([p] + r.packets)
    ensures Flatten(EncodeAll([p] + r.packets)) + r.rest == Encode(p) + t
  {
    hide Encode, Flatten;
    EncodeAllCons(p, r.packets);
    assert (Encode(p) + Flatten(EncodeAll(r.packets))) + r.rest == Encode(p) + (Flatten(EncodeAll(r.packets)) + r.rest);
  }

  /** The dispatched packets are exactly the longest run of whole packets with a body length in range, each the
      decoding of its own bytes; nothing behind the first header out of range is looked at. */
  lemma ServeExact(stream: Bytes, ps: seq<Packet>, rest: Bytes, refused: bool)
    ensures Serve(stream) == Served(ps, rest, refused)
      <==> AllInRange(ps) && Halted(rest, refused) && Flatten(EncodeAll(ps)) + rest == stream
  {
    ServeSound(stream);
    if AllInRange(ps) && Halted(rest, refused) && Flatten(EncodeAll(ps)) + rest == stream {
      ServePrepend(ps, rest);
      assert ps + [] == ps;
    }
  }

  /** The two framers against each other, on any stream: the server dispatches the client's frames up to the
      first whose length is out of range; when there is none, all of them, and both keep the same bytes. */
  lemma FramersAgree(stream: Bytes)
    ensures var s, c := Serve(stream), Drain(stream);
      var k := |s.packets|;
      && EncodeAll(s.packets) <= c.frames
      && (k < |c.frames| ==> IsFrame(c.frames[k]) && !InRange(Read32(c.frames[k], 3)))
      && (k == |c.frames| ==> s.rest == c.rest)
  {
    ServeSound(stream);
    var s := Serve(stream);
    EncodedFrames(s.packets);
    DrainPrepend(EncodeAll(s.packets), s.rest);
    DrainSound(s.rest);
    var tail := Drain(s.rest);
    if HasFrame(s.rest) {
      CutHead(s.rest);
      assert tail.frames[0] == s.rest[..FrameLength(s.rest)];
    }
  }

  lemma DispatchedPacket(stream: Bytes, i: nat)
    requires i < |Serve(stream).packets|
    ensures i < |Drain(stream).frames| && Decode(Drain(stream).frames[i]) == Some(Serve(stream).packets[i])
  {
    FramersAgree(stream);
    ServeSound(stream);
    var p := Serve(stream).packets[i];
    assert EncodeAll(Serve(stream).packets)[i] == Encode(p);
    PacketIsFrame(p);
  }

  // ---- From the client's requests to the server's dispatch --------------------------------

  function RequestPacket(r: Request): Packet {
    Packet(VERSION, RequestCommand(r), RequestBody(r))
  }

  function RequestPackets(rs: seq<Request>): (ps: seq<Packet>)
    ensures |ps| == |rs| && forall i | 0 <= i < |rs| :: ps[i] == RequestPacket(rs[i])
  {
    seq(|rs|, i requires 0 <= i < |rs| => RequestPacket(rs[i]))
  }

  /** The number of requests before the first whose body is empty or a mebibyte or more. */
  function ServedCount(rs: seq<Request>): (k: nat)
    ensures k <= |rs|
    ensures forall i | 0 <= i < k :: InRange(|RequestBody(rs[i])|)
    ensures k < |rs| ==> !InRange(|RequestBody(rs[k])|)
  {
    if rs == [] || !InRange(|RequestBody(rs[0])|) then 0
    else
      1 + ServedCount(rs[1..])
  }

  /** The header of the first request with a body out of range says so too.  (It does unless the body has 4 GiB or
      more: the length field is modulo 2^32.) */
  predicate RefusalReadable(rs: seq<Request>) {
    ServedCount(rs) < |rs| ==> !InRange(Low32(|RequestBody(rs[ServedCount(rs)])|))
  }

  /** Requests written by the client's encoders are dispatched one for one up to the first body out of range; each
      decodes to itself if and only if its strings fit their length fields.  Nothing more is dispatched, and the server
      gives up there, if and only if the header of that request gives it away. */
  lemma RequestsReachServer(rs: seq<Request>)
    ensures var s, k := Serve(Flatten(EncodeAll(RequestPackets(rs)))), ServedCount(rs);
      && k <= |s.packets| && s.packets[..k] == RequestPackets(rs)[..k]
      && (forall i | 0 <= i < k ::
            ParseRequest(s.packets[i].command, s.packets[i].data) == Accepted(rs[i]) <==> RequestFits(rs[i]))
      && (|s.packets| == k <==> RefusalReadable(rs))
      && (RefusalReadable(rs) ==> (s.refused <==> k < |rs|))
  {
    hide Encode, Serve, RequestBody;
    var k := ServedCount(rs);
    var ps := RequestPackets(rs);
    var good, bad := ps[..k], ps[k..];
    assert EncodeAll(ps) == EncodeAll(good) + EncodeAll(bad);
    FlattenSplit(EncodeAll(good), EncodeAll(bad));
    var t := Flatten(EncodeAll(bad));
    ServePrepend(good, t);
    FirstServed(bad);
    var s := Serve(Flatten(EncodeAll(ps)));
    assert s.packets == good + Serve(t).packets;
    forall i | 0 <= i < k
      ensures ParseRequest(s.packets[i].command, s.packets[i].data) == Accepted(rs[i]) <==> RequestFits(rs[i])
    {
      RequestRoundTrip(rs[i]);
    }
  }

  /** What becomes of packets that start with one whose body is out of range. */
  lemma FirstServed(ps: seq<Packet>)
    requires ps != [] ==> !InRange(|ps[0].data|)
    ensures Serve(Flatten(EncodeAll(ps))).packets == [] <==> (ps != [] ==> !InRange(Low32(|ps[0].data|)))
    ensures Serve(Flatten(EncodeAll(ps))).packets == [] ==> (Serve(Flatten(EncodeAll(ps))).refused <==> ps != [])
  {
    if ps != [] {
      hide *;
      var p, more := ps[0], Flatten(EncodeAll(ps[1..]));
      assert ps == [p] + ps[1..];
      EncodeAllCons(p, ps[1..]);
      ServeByHeader(p, more);
    }
  }

  lemma ServeByHeader(p: Packet, t: Bytes)
    ensures Serve(Encode(p) + t).packets == [] <==> !InRange(Low32(|p.data|))
    ensures !InRange(Low32(|p.data|)) ==> Serve(Encode(p) + t).refused
  {
    hide Encode, Low32;
    EncodeFields(p);
    Low32AtMost(|p.data|);
    assert Read32(Encode(p) + t, 3) == Read32(Encode(p), 3);
  }

  lemma AtMostServed(rs: seq<Request>, i: nat)
    requires i < |rs| && !InRange(|RequestBody(rs[i])|)
    ensures ServedCount(rs) <= i
  {
  }

  /** Of requests sent back to back, none from the first friend-list request on is served: the server gives up there
      at the latest. */
  lemma FriendListEndsSession(rs: seq<Request>, i: nat)
    requires RefusalReadable(rs) && i < |rs| && rs[i] == FriendList
    ensures var s := Serve(Flatten(EncodeAll(RequestPackets(rs))));
      s.refused && |s.packets| <= i
  {
    RequestsReachServer(rs);
    AtMostServed(rs, i);
  }
}
