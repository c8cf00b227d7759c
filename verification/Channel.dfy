/** One server-to-client channel: the posted sends, the one-in-flight write queue of `Connection`, the byte
    stream, and the client's reassembly.  A step that is not enabled changes nothing, so a run over an arbitrary
    sequence of steps covers every schedule and every chunking. */
module Channel {
  import opened ByteOrder
  import opened Framing
  import opened Client

  datatype Channel = Channel(
    posted: seq<Bytes>,       // everything ever given to `send`
    pending: seq<Bytes>,      // closures posted to the executor and not yet run
    queue: seq<Bytes>,        // `write_buffer_`
    outstanding: seq<Bytes>,  // buffers of the `async_write` operations in progress
    failed: bool,             // a write has completed with an error
    written: seq<Bytes>,      // buffers popped after a complete write
    sent: nat,                // bytes of the outstanding write already on the wire
    wire: Bytes,              // all bytes put on the wire
    taken: nat,               // how many of them the client has received
    buffer: Bytes,            // the client's `read_buffer_`
    frames: seq<Bytes>)       // packets handed to `handle_packet`

  const EMPTY: Channel := Channel([], [], [], [], false, [], 0, [], 0, [], [])

  datatype Step =
    | Post(data: Bytes)     // a handler calls `send`
    | RunPosted             // the executor runs the oldest posted closure
    | Transmit(n: nat)      // the socket accepts `n` more bytes of the outstanding write
    | WriteDone             // the write completes without error
    | WriteError            // the write completes with an error
    | Receive(n: nat)       // `recv` returns the next `n` bytes

  /** `do_write` starts a write of the buffer it is given, whatever is going on already. */
  function DoWrite(ch: Channel, data: Bytes): Channel {
    ch.(outstanding := ch.outstanding + [data], sent := 0)
  }

  function Enqueue(ch: Channel, data: Bytes): Channel {
    ch.(posted := ch.posted + [data], pending := ch.pending + [data])
  }

  function RunClosure(ch: Channel): Channel {
    if ch.pending == [] then ch
    else
      var data := ch.pending[0];
      var writeInProgress := ch.queue != [];
      var next := ch.(pending := ch.pending[1..], queue := ch.queue + [data]);
      if writeInProgress then next else DoWrite(next, next.queue[0])
  }

  function CompleteWrite(ch: Channel): Channel {
    if ch.outstanding == [] || ch.sent != |ch.outstanding[0]| || ch.queue == [] then ch
    else
      var next := ch.(outstanding := ch.outstanding[1..], written := ch.written + [ch.outstanding[0]],
                      queue := ch.queue[1..], sent := 0);
      if next.queue == [] then next else DoWrite(next, next.queue[0])
  }

  /** The failed buffer is not popped. */
  function FailWrite(ch: Channel): Channel {
    if ch.outstanding == [] then ch
    else ch.(outstanding := ch.outstanding[1..], failed := true)
  }

  function TransmitBytes(ch: Channel, n: nat): Channel {
    if ch.outstanding == [] || ch.sent + n > |ch.outstanding[0]| then ch
    else ch.(wire := ch.wire + ch.outstanding[0][ch.sent..ch.sent + n], sent := ch.sent + n)
  }

  function ReceiveBytes(ch: Channel, n: nat): Channel {
    if ch.taken + n > |ch.wire| then ch
    else
      var r := Drain(ch.buffer + ch.wire[ch.taken..ch.taken + n]);
      ch.(taken := ch.taken + n, buffer := r.rest, frames := ch.frames + r.frames)
  }

  function Do(ch: Channel, step: Step): Channel {
    match step
    case Post(data) => Enqueue(ch, data)
    case RunPosted => RunClosure(ch)
    case Transmit(n) => TransmitBytes(ch, n)
    case WriteDone => CompleteWrite(ch)
    case WriteError => FailWrite(ch)
    case Receive(n) => ReceiveBytes(ch, n)
  }

  function Run(ch: Channel, steps: seq<Step>): Channel {
    if steps == [] then ch else Do(Run(ch, steps[..|steps| - 1]), steps[|steps| - 1])
  }

  // ---- The write queue --------------------------------------------------------------------

  /** At most one write is outstanding, and it is of the front of the queue; before an error there is one exactly
      when the queue is not empty, after an error there is none and the queue keeps the buffer that failed; what
      was written, what is queued and what is still posted make up, in this order, everything ever sent. */
  predicate QueueInv(ch: Channel) {
    && (ch.outstanding == [] || (ch.queue != [] && ch.outstanding == [ch.queue[0]]))
    && (!ch.failed ==> (ch.outstanding == [] <==> ch.queue == []))
    && (ch.failed ==> ch.outstanding == [] && ch.queue != [])
    && ch.written + ch.queue + ch.pending == ch.posted
  }

  /** The wire holds the completed buffers followed by a part of the one being (or last) written. */
  predicate WireInv(ch: Channel) {
    && (ch.queue == [] ==> ch.sent == 0)
    && (ch.queue != [] ==> ch.sent <= |ch.queue[0]|)
    && ch.wire == Flatten(ch.written) + (if ch.queue == [] then [] else ch.queue[0][..ch.sent])
  }

  predicate ReceiveInv(ch: Channel) {
    ch.taken <= |ch.wire| && Drain(ch.wire[..ch.taken]) == Drained(ch.frames, ch.buffer)
  }

  predicate Inv(ch: Channel) {
    QueueInv(ch) && WireInv(ch) && ReceiveInv(ch)
  }

  lemma QueueStep(ch: Channel, step: Step)
    requires QueueInv(ch)
    ensures QueueInv(Do(ch, step))
  {
    hide Drain;
    match step
    case Post(data) =>
      assert ch.written + ch.queue + (ch.pending + [data]) == ch.posted + [data];
    case RunPosted =>
      if ch.pending != [] {
        assert ch.pending == [ch.pending[0]] + ch.pending[1..];
        assert ch.written + (ch.queue + [ch.pending[0]]) + ch.pending[1..] == ch.posted;
      }
    case WriteDone =>
      if ch.outstanding != [] {
        assert ch.queue == [ch.queue[0]] + ch.queue[1..];
        assert (ch.written + [ch.queue[0]]) + ch.queue[1..] + ch.pending == ch.posted;
      }
    case Transmit(_) =>
    case WriteError =>
    case Receive(_) =>
  }

  lemma WireStep(ch: Channel, step: Step)
    requires QueueInv(ch) && WireInv(ch)
    ensures WireInv(Do(ch, step)) && ch.wire <= Do(ch, step).wire
  {
    hide Drain;
    match step
    case Post(_) =>
    case RunPosted =>
      if ch.pending != [] {
        var next := Do(ch, step);
        assert ch.queue == [] ==> next.queue[0][..0] == [];
      }
    case WriteDone =>
      if ch.outstanding != [] && ch.sent == |ch.outstanding[0]| {
        var b := ch.queue[0];
        var next := Do(ch, step);
        FlattenSplit(ch.written, [b]);
        FlattenOne(b);
        assert b[..|b|] == b;
        assert next.queue != [] ==> next.queue[0][..0] == [];
        assert next.wire == Flatten(next.written) + [];
      }
    case Transmit(n) =>
      if ch.outstanding != [] && ch.sent + n <= |ch.outstanding[0]| {
        var b := ch.queue[0];
        assert b[..ch.sent + n] == b[..ch.sent] + b[ch.sent..ch.sent + n];
      }
    case WriteError =>
    case Receive(_) =>
  }

  lemma ReceiveStep(ch: Channel, step: Step)
    requires QueueInv(ch) && WireInv(ch) && ReceiveInv(ch)
    ensures ReceiveInv(Do(ch, step))
  {
    hide Drain, Flatten, QueueInv, WireInv;
    WireStep(ch, step);
    var next := Do(ch, step);
    match step
    case Receive(n) =>
      if ch.taken + n <= |ch.wire| {
        ChunkIndependence(ch.wire[..ch.taken], ch.wire[ch.taken..ch.taken + n]);
        assert ch.wire[..ch.taken + n] == ch.wire[..ch.taken] + ch.wire[ch.taken..ch.taken + n];
      }
    case _ =>
      assert next.wire[..ch.taken] == ch.wire[..ch.taken];
  }

  lemma InvStep(ch: Channel, step: Step)
    requires Inv(ch)
    ensures Inv(Do(ch, step))
  {
    hide Do, QueueInv, WireInv, ReceiveInv;
    QueueStep(ch, step);
    WireStep(ch, step);
    ReceiveStep(ch, step);
  }

  lemma EmptyInv()
    ensures Inv(EMPTY)
  {
  }

  lemma {:induction false} InvRun(steps: seq<Step>)
    ensures Inv(Run(EMPTY, steps))
  {
    hide Do, Inv;
    if steps == [] {
      EmptyInv();
    } else {
      InvRun(steps[..|steps| - 1]);
      InvStep(Run(EMPTY, steps[..|steps| - 1]), steps[|steps| - 1]);
    }
  }

  /** After a write error no step starts a write, and nothing more reaches the wire. */
  lemma {:induction false} ErrorIsFinal(ch: Channel, steps: seq<Step>)
    requires QueueInv(ch) && ch.failed
    ensures var end := Run(ch, steps);
      end.failed && end.outstanding == [] && end.wire == ch.wire && end.written == ch.written && QueueInv(end)
  {
    hide Do;
    if steps != [] {
      var before := Run(ch, steps[..|steps| - 1]);
      ErrorIsFinal(ch, steps[..|steps| - 1]);
      QueueStep(before, steps[|steps| - 1]);
      ErrorStep(before, steps[|steps| - 1]);
    }
  }

  lemma ErrorStep(ch: Channel, step: Step)
    requires QueueInv(ch) && ch.failed
    ensures var next := Do(ch, step);
      next.failed && next.outstanding == [] && next.wire == ch.wire && next.written == ch.written
  {
    hide Drain;
  }

  // ---- What each step achieves --------------------------------------------------------------

  /** Running the oldest closure moves its buffer to the back of the queue; if nothing has failed, the front of the
      queue is then being written. */
  lemma RunPostedExact(ch: Channel)
    requires QueueInv(ch) && ch.pending != []
    ensures var next := Do(ch, RunPosted);
      && next.queue == ch.queue + [ch.pending[0]] && ch.pending == [ch.pending[0]] + next.pending
      && next.written == ch.written && next.wire == ch.wire && next.posted == ch.posted && next.failed == ch.failed
      && (!ch.failed ==> next.outstanding == [next.queue[0]])
      && next.sent == if ch.queue == [] then 0 else ch.sent
  {
  }

  /** A write that has put all its bytes on the wire completes: its buffer, and no other, moves from the queue to the
      written ones, and the next one is being written from its first byte on. */
  lemma WriteDoneExact(ch: Channel)
    requires QueueInv(ch) && ch.outstanding != [] && ch.sent == |ch.queue[0]|
    ensures var next := Do(ch, WriteDone);
      && ch.queue == [ch.queue[0]] + next.queue && next.written == ch.written + [ch.queue[0]]
      && next.pending == ch.pending && next.wire == ch.wire && next.posted == ch.posted && next.failed == ch.failed
      && next.outstanding == (if next.queue == [] then [] else [next.queue[0]]) && next.sent == 0
  {
  }

  /** A write error ends the write and leaves every buffer where it is. */
  lemma WriteErrorExact(ch: Channel)
    requires QueueInv(ch) && ch.outstanding != []
    ensures var next := Do(ch, WriteError);
      next.failed && next.outstanding == [] && next.queue == ch.queue && next.written == ch.written && next.pending == ch.pending
  {
  }

  /** The next bytes of the buffer being written go on the wire, and the next bytes on the wire to the client. */
  lemma BytesExact(ch: Channel, n: nat)
    requires QueueInv(ch)
    ensures ch.outstanding != [] && ch.sent + n <= |ch.queue[0]| ==>
      var next := Do(ch, Transmit(n));
      next == ch.(wire := ch.wire + ch.queue[0][ch.sent..ch.sent + n], sent := ch.sent + n)
    ensures ch.taken + n <= |ch.wire| ==> Do(ch, Receive(n)).taken == ch.taken + n
  {
    hide Drain;
  }

  // ---- Everything arrives -------------------------------------------------------------------

  /** Nothing posted is still on its way. */
  predicate Quiescent(ch: Channel) {
    !ch.failed && ch.pending == [] && ch.queue == [] && ch.taken == |ch.wire|
  }

  /** Steps of the executor, the socket and the client, without errors. */
  predicate Ordinary(steps: seq<Step>) {
    forall i | 0 <= i < |steps| :: !steps[i].Post? && !steps[i].WriteError?
  }

  lemma {:induction false} RunCons(ch: Channel, step: Step, steps: seq<Step>)
    ensures Run(ch, [step] + steps) == Run(Do(ch, step), steps)
  {
    hide Do;
    var all := [step] + steps;
    if steps == [] {
      assert all[..0] == [] && all[0] == step;
      assert Run(ch, []) == ch;
    } else {
      var n := |steps| - 1;
      assert all[..|all| - 1] == [step] + steps[..n];
      RunCons(ch, step, steps[..n]);
    }
  }

  /** What a step of a continuation keeps. */
  predicate Continues(ch: Channel, next: Channel) {
    Inv(next) && next.failed == ch.failed && next.posted == ch.posted
  }

  lemma OrdinaryStep(ch: Channel, step: Step)
    requires Inv(ch) && !step.Post? && !step.WriteError?
    ensures Continues(ch, Do(ch, step))
  {
    hide Inv;
    InvStep(ch, step);
    KeepsPosted(ch, step);
  }

  lemma KeepsPosted(ch: Channel, step: Step)
    requires !step.Post? && !step.WriteError?
    ensures Do(ch, step).failed == ch.failed && Do(ch, step).posted == ch.posted
  {
    hide Drain;
  }

  /** One step ahead of a continuation. */
  lemma StepFirst(ch: Channel, step: Step, more: seq<Step>) returns (steps: seq<Step>)
    requires Inv(ch) && !step.Post? && !step.WriteError? && Ordinary(more)
    requires Continues(Do(ch, step), Run(Do(ch, step), more))
    ensures Ordinary(steps) && Run(ch, steps) == Run(Do(ch, step), more) && Continues(ch, Run(ch, steps))
  {
    hide Do, Inv;
    OrdinaryStep(ch, step);
    RunCons(ch, step, more);
    steps := [step] + more;
  }

  lemma NoStep(ch: Channel)
    requires Inv(ch)
    ensures Run(ch, []) == ch && Ordinary([]) && Continues(ch, ch)
  {
  }

  /** All the closures can be run. */
  lemma RunAll(ch: Channel) returns (steps: seq<Step>)
    requires Inv(ch)
    ensures Ordinary(steps) && Continues(ch, Run(ch, steps)) && Run(ch, steps).pending == []
    decreases |ch.pending|
  {
    hide Do, Run, QueueInv, WireInv, ReceiveInv, Continues, Ordinary;
    if ch.pending == [] {
      NoStep(ch);
      steps := [];
    } else {
      OrdinaryStep(ch, RunPosted);
      InvParts(ch);
      RunPostedExact(ch);
      ContinuesInv(ch, Do(ch, RunPosted));
      var more := RunAll(Do(ch, RunPosted));
      steps := StepFirst(ch, RunPosted, more);
    }
  }

  lemma InvParts(ch: Channel)
    requires Inv(ch)
    ensures QueueInv(ch) && WireInv(ch)
  {
  }

  lemma ContinuesInv(ch: Channel, next: Channel)
    requires Continues(ch, next)
    ensures Inv(next) && next.failed == ch.failed && next.posted == ch.posted
  {
  }

  /** With nothing left to run, all the buffers in the queue can be written. */
  lemma WriteAll(ch: Channel) returns (steps: seq<Step>)
    requires Inv(ch) && !ch.failed && ch.pending == []
    ensures Ordinary(steps) && Continues(ch, Run(ch, steps))
    ensures Run(ch, steps).pending == [] && Run(ch, steps).queue == []
    decreases |ch.queue|
  {
    hide Do, Run, WireInv, ReceiveInv, QueueInv, Continues, Ordinary;
    if ch.queue == [] {
      NoStep(ch);
      steps := [];
    } else {
      Writable(ch);
      var left := |ch.queue[0]| - ch.sent;
      var sent := Do(ch, Transmit(left));
      OrdinaryStep(ch, Transmit(left));
      ContinuesInv(ch, sent);
      InvParts(ch);
      BytesExact(ch, left);
      InvParts(sent);
      WriteDoneExact(sent);
      OrdinaryStep(sent, WriteDone);
      ContinuesInv(sent, Do(sent, WriteDone));
      var more := WriteAll(Do(sent, WriteDone));
      steps := StepFirst(sent, WriteDone, more);
      steps := StepFirst(ch, Transmit(left), steps);
    }
  }

  /** A queue that is not empty is being written. */
  lemma Writable(ch: Channel)
    requires Inv(ch) && !ch.failed && ch.queue != []
    ensures ch.outstanding != [] && ch.sent <= |ch.queue[0]|
  {
  }

  /** From every state without a failure, finitely many steps of the executor, the socket and the client bring
      everything posted to the client. */
  lemma Finish(ch: Channel) returns (steps: seq<Step>)
    requires Inv(ch) && !ch.failed
    ensures Ordinary(steps)
    ensures var end := Run(ch, steps); Inv(end) && end.posted == ch.posted && Quiescent(end)
  {
    hide Do, Run, Inv, Continues, Ordinary;
    var first := RunAll(ch);
    var ready := Run(ch, first);
    ContinuesInv(ch, ready);
    var second := WriteAll(ready);
    var written := Run(ready, second);
    ContinuesInv(ready, written);
    var left := |written.wire| - written.taken;
    TakenSome(written);
    OrdinaryStep(written, Receive(left));
    ContinuesInv(written, Do(written, Receive(left)));
    ReceivesRest(written, left);
    RunOne(written, Receive(left));
    RunConcat(ready, second, [Receive(left)]);
    RunConcat(ch, first, second + [Receive(left)]);
    steps := first + (second + [Receive(left)]);
    OrdinaryConcat(first, second, left);
  }

  lemma TakenSome(ch: Channel)
    requires Inv(ch)
    ensures ch.taken <= |ch.wire|
  {
  }

  lemma ReceivesRest(ch: Channel, n: nat)
    requires ch.taken + n == |ch.wire|
    ensures var next := Do(ch, Receive(n));
      next.taken == |next.wire| && next.pending == ch.pending && next.queue == ch.queue && next.failed == ch.failed
  {
    hide Drain;
  }

  lemma RunNone(ch: Channel)
    ensures Run(ch, []) == ch
  {
  }

  lemma RunOne(ch: Channel, step: Step)
    ensures Run(ch, [step]) == Do(ch, step)
  {
    hide Do;
    assert [step][..0] == [];
    assert Run(ch, []) == ch;
  }

  lemma {:induction false} RunConcat(ch: Channel, first: seq<Step>, second: seq<Step>)
    ensures Run(ch, first + second) == Run(Run(ch, first), second)
  {
    hide Do;
    if second == [] {
      assert first + second == first;
    } else {
      var n := |second| - 1;
      assert (first + second)[..|first| + n] == first + second[..n];
      RunConcat(ch, first, second[..n]);
    }
  }

  lemma OrdinaryConcat(first: seq<Step>, second: seq<Step>, n: nat)
    requires Ordinary(first) && Ordinary(second)
    ensures Ordinary(first + (second + [Receive(n)]))
  {
  }

  // ---- The FIFO theorem -------------------------------------------------------------------

  /** The bytes on the wire are a prefix of the posted buffers, laid end to end. */
  lemma WirePrefix(ch: Channel)
    requires QueueInv(ch) && WireInv(ch)
    ensures ch.wire <= Flatten(ch.posted)
    ensures !ch.failed && ch.pending == [] && ch.queue == [] ==> ch.wire == Flatten(ch.posted)
  {
    FlattenSplit(ch.written + ch.queue, ch.pending);
    FlattenSplit(ch.written, ch.queue);
    if ch.queue == [] {
      assert ch.written + ch.queue == ch.written;
      assert ch.wire == Flatten(ch.written);
      if ch.pending == [] {
        assert ch.written + ch.pending == ch.written;
      }
    } else {
      var b := ch.queue[0];
      assert Flatten(ch.queue) == b + Flatten(ch.queue[1..]);
      assert b[..ch.sent] <= Flatten(ch.queue);
      assert ch.wire <= Flatten(ch.written) + Flatten(ch.queue);
    }
  }

  /** In every state of every schedule: what the client handles is a prefix of what was posted, namely all the
      packets whose bytes have arrived in full; and once everything has been written and received, everything. */
  lemma Fifo(ch: Channel)
    requires Inv(ch) && AllFrames(ch.posted)
    ensures ch.frames <= ch.posted
    ensures |ch.frames| < |ch.posted| ==> ch.taken < |Flatten(ch.posted[..|ch.frames| + 1])|
    ensures Quiescent(ch) ==> ch.frames == ch.posted && ch.buffer == []
  {
    hide Drain, Flatten, IsFrame;
    WirePrefix(ch);
    var w := ch.wire[..ch.taken];
    assert w <= Flatten(ch.posted);
    PrefixFrames(w, ch.posted);
  }

  lemma FifoOverRuns(steps: seq<Step>)
    requires AllFrames(Run(EMPTY, steps).posted)
    ensures var ch := Run(EMPTY, steps);
      && ch.frames <= ch.posted
      && Callbacks(ch.frames) <= Callbacks(ch.posted)
      && (Quiescent(ch) ==> ch.frames == ch.posted)
  {
    hide Inv, Callbacks;
    InvRun(steps);
    var ch := Run(EMPTY, steps);
    Fifo(ch);
    CallbacksPrefix(ch.frames, ch.posted);
  }

  lemma CallbacksPrefix(fs: seq<Bytes>, gs: seq<Bytes>)
    requires fs <= gs
    ensures Callbacks(fs) <= Callbacks(gs)
  {
    hide Callbacks;
    assert gs == fs + gs[|fs|..];
    CallbacksSplit(fs, gs[|fs|..]);
  }
}
