/** Receiving one kernel message and splitting it into header, argument and payload: through a
    splice pipe with a tracked length, or into a fixed buffer. */
module Framing {
  import opened Prelude
  import opened Wire

  /** `size_of::<fuse_in_header>()`, `size_of::<fuse_write_in>()` and
      `size_of::<fuse_notify_retrieve_in>()`. */
  const IN_HEADER: nat := 40
  const WRITE_IN: nat := 40
  const RETRIEVE_IN: nat := 40

  const FUSE_WRITE: nat := 16
  const FUSE_NOTIFY_REPLY: nat := 41
  const CUSE_INIT: nat := 4096

  predicate KnownOpcode(op: nat) {
    1 <= op <= 6 || 8 <= op <= 18 || 20 <= op <= 52 || op == CUSE_INIT
  }

  function LenField(header: seq<byte>): nat
    requires |header| == IN_HEADER
  {
    FromLE(header[..4])
  }

  function OpcodeField(header: seq<byte>): nat
    requires |header| == IN_HEADER
  {
    FromLE(header[4..8])
  }

  /** How many bytes after the header belong to the argument. */
  function ArgLen(header: seq<byte>): nat
    requires |header| == IN_HEADER
  {
    var op := OpcodeField(header);
    if op == FUSE_WRITE then WRITE_IN
    else if op == FUSE_NOTIFY_REPLY then RETRIEVE_IN
    else if KnownOpcode(op) then SaturatingSub(LenField(header), IN_HEADER)
    else 0
  }

  /** What the device answers to one read: a whole message, or an error. */
  datatype DeviceRead = Message(bytes: seq<byte>) | DeviceError(errno: Errno)

  /** A message the kernel sends: the length field is exact and the argument is all there. */
  predicate WellFormed(msg: seq<byte>) {
    && |msg| >= IN_HEADER
    && LenField(msg[..IN_HEADER]) == |msg|
    && |msg| >= IN_HEADER + ArgLen(msg[..IN_HEADER])
  }

  // The pipe buffer. `data` is what the pipe holds, `len` what the library believes it holds.

  datatype PipeState = PipeState(header: seq<byte>, arg: seq<byte>, len: nat, data: seq<byte>)

  predicate PipeOk(st: PipeState) {
    |st.header| == IN_HEADER && st.len == |st.data|
  }

  function NewPipeState(): PipeState {
    PipeState(seq(IN_HEADER, _ => 0), [], 0, [])
  }

  /** `read_exact` of `n` bytes: on a pipe that runs dry it fails, having consumed what there was;
      the rest of the destination keeps its zeros. */
  function ReadExact(data: seq<byte>, n: nat): (seq<byte>, seq<byte>, bool) {
    if n <= |data| then (data[..n], data[n..], true)
    else (data + seq(n - |data|, _ => 0), [], false)
  }

  /** `reset`: the argument is emptied, and a pipe believed to be non-empty is replaced. `pipeOk`
      says whether the system could create a new pipe. */
  function PipeReset(st: PipeState, pipeOk: bool): (PipeState, bool) {
    if st.len == 0 then (st.(arg := []), true)
    else if pipeOk then (st.(arg := [], len := 0, data := []), true)
    else (st.(arg := []), false)
  }

  /** Cutting the argument off the pipe, once the header is read. */
  function PipeCutArg(st: PipeState): (PipeState, Result<(), Errno>)
    requires |st.header| == IN_HEADER
  {
    var (arg, rest, whole) := ReadExact(st.data, ArgLen(st.header));
    (st.(arg := arg, len := SaturatingSub(st.len, |st.data| - |rest|), data := rest),
     if whole then Ok(()) else Err(AGAIN))
  }

  /** Cutting header and argument off a pipe into which `n` bytes were spliced. */
  function PipeCut(st: PipeState, n: nat): (PipeState, Result<(), Errno>)
    requires |st.header| == IN_HEADER
  {
    if n < IN_HEADER then (st, Err(INVAL))
    else
      var (header, rest, _) := ReadExact(st.data, IN_HEADER);
      var st := st.(header := header, data := rest, len := SaturatingSub(st.len, |st.data| - |rest|));
      if n != LenField(header) then (st, Err(INVAL)) else PipeCutArg(st)
  }

  /** `try_receive`. */
  function PipeReceive(st: PipeState, read: DeviceRead, pipeOk: bool): (PipeState, Result<(), Errno>)
    requires |st.header| == IN_HEADER
  {
    var (st, ready) := PipeReset(st, pipeOk);
    if !ready then (st, Err(IO))
    else if read.DeviceError? then (st, Err(read.errno))
    else PipeCut(st.(data := st.data + read.bytes, len := st.len + |read.bytes|), |read.bytes|)
  }

  /** Reading `n` bytes of the payload. */
  function PipeRead(st: PipeState, n: nat): PipeState {
    var k := Min(n, |st.data|);
    st.(data := st.data[k..], len := SaturatingSub(st.len, k))
  }

  lemma PipeCutIsolates(st: PipeState, msg: seq<byte>)
    requires PipeOk(st) && st.data == msg
    ensures var (st', r) := PipeCut(st, |msg|);
            && PipeOk(st')
            && (r.Ok? <==> WellFormed(msg))
            && (r.Ok? ==> st'.header + st'.arg + st'.data == msg && |st'.arg| == ArgLen(st'.header))
  {
    if |msg| >= IN_HEADER {
      var header, body := msg[..IN_HEADER], msg[IN_HEADER..];
      assert msg == header + body;
      var n := ArgLen(header);
      if n <= |body| {
        assert header + body[..n] + body[n..] == msg;
      }
    }
  }

  /** The pipe buffer accepts exactly the well-formed messages, whatever came before, and then holds
      that message and nothing else; in every case its length stays the true one. */
  lemma PipeReceiveIsolates(st: PipeState, read: DeviceRead, pipeOk: bool)
    requires PipeOk(st)
    ensures var (st', r) := PipeReceive(st, read, pipeOk);
            && PipeOk(st')
            && (r.Ok? <==> (st.len == 0 || pipeOk) && read.Message? && WellFormed(read.bytes))
            && (r.Ok? ==> st'.header + st'.arg + st'.data == read.bytes
                          && |st'.arg| == ArgLen(st'.header))
  {
    var (st1, ready) := PipeReset(st, pipeOk);
    if ready && read.Message? {
      assert st1.data + read.bytes == read.bytes;
      PipeCutIsolates(st1.(data := read.bytes, len := |read.bytes|), read.bytes);
    }
  }

  lemma PipeParts(pipe: PipeState, msg: seq<byte>, pipeOk: bool)
    requires PipeOk(pipe) && WellFormed(msg) && (pipe.len == 0 || pipeOk)
    ensures var (p, r) := PipeReceive(pipe, Message(msg), pipeOk);
            var n := IN_HEADER + ArgLen(msg[..IN_HEADER]);
            r.Ok? && p.header == msg[..IN_HEADER] && p.arg == msg[IN_HEADER..n] && p.data == msg[n..]
  {
    PipeReceiveIsolates(pipe, Message(msg), pipeOk);
    var p := PipeReceive(pipe, Message(msg), pipeOk).0;
    var whole := p.header + p.arg + p.data;
    assert whole[..IN_HEADER] == p.header;
    assert whole[IN_HEADER..IN_HEADER + |p.arg|] == p.arg;
    assert whole[IN_HEADER + |p.arg|..] == p.data;
  }

  // The cut, by the opcode alone.

  /** The numbers of the `fuse_opcode` enumeration, one by one. */
  predicate IsOpcode(op: nat) {
    op == 1 || op == 2 || op == 3 || op == 4 || op == 5 || op == 6 || op == 8 || op == 9 || op == 10 || op == 11
    || op == 12 || op == 13 || op == 14 || op == 15 || op == 16 || op == 17 || op == 18 || op == 20 || op == 21
    || op == 22 || op == 23 || op == 24 || op == 25 || op == 26 || op == 27 || op == 28 || op == 29 || op == 30
    || op == 31 || op == 32 || op == 33 || op == 34 || op == 35 || op == 36 || op == 37 || op == 38 || op == 39
    || op == 40 || op == 41 || op == 42 || op == 43 || op == 44 || op == 45 || op == 46 || op == 47 || op == 48
    || op == 49 || op == 50 || op == 51 || op == 52 || op == 4096
  }

  lemma ArgLenByOpcode(header: seq<byte>)
    requires |header| == IN_HEADER
    ensures var op := FromLE(header[4..8]);
            && (op in {16, 41} ==> ArgLen(header) == 40)
            && (IsOpcode(op) && op !in {16, 41} ==> ArgLen(header) == Max(0, FromLE(header[..4]) - 40))
            && (!IsOpcode(op) ==> ArgLen(header) == 0)
  {
  }

  /** How a message is to be cut: 40 bytes of header; for WRITE and NOTIFY_REPLY 40 bytes of argument and
      then the payload; for every other opcode of the enumeration the whole body as argument; for
      anything else no argument. */
  predicate CutAs(msg: seq<byte>, header: seq<byte>, arg: seq<byte>, payload: seq<byte>)
    requires |msg| >= 40
  {
    var op := FromLE(msg[4..8]);
    && header == msg[..40]
    && (op in {16, 41} ==> |msg| >= 80 && arg == msg[40..80] && payload == msg[80..])
    && (IsOpcode(op) && op !in {16, 41} ==> arg == msg[40..] && payload == [])
    && (!IsOpcode(op) ==> arg == [] && payload == msg[40..])
  }

  /** A message that tells its length and is long enough for its argument. */
  predicate Complete(msg: seq<byte>) {
    |msg| >= 40 && FromLE(msg[..4]) == |msg| && (FromLE(msg[4..8]) in {16, 41} ==> |msg| >= 80)
  }

  lemma HeadOf(msg: seq<byte>)
    requires |msg| >= 40
    ensures msg[..40][..4] == msg[..4] && msg[..40][4..8] == msg[4..8]
  {
  }

  lemma CompleteIsWellFormed(msg: seq<byte>)
    ensures Complete(msg) <==> WellFormed(msg)
  {
    if |msg| >= 40 {
      HeadOf(msg);
      ArgLenByOpcode(msg[..40]);
    }
  }

  lemma CutAtArgLen(msg: seq<byte>)
    requires Complete(msg)
    ensures var n := 40 + ArgLen(msg[..40]);
            n <= |msg| && CutAs(msg, msg[..40], msg[40..n], msg[n..])
  {
    HeadOf(msg);
    ArgLenByOpcode(msg[..40]);
  }

  /** The pipe buffer accepts exactly the complete messages, and cuts them by their opcode. */
  lemma PipeCutsByOpcode(st: PipeState, msg: seq<byte>, pipeOk: bool)
    requires PipeOk(st) && (st.len == 0 || pipeOk)
    ensures var (st', r) := PipeReceive(st, Message(msg), pipeOk);
            (r.Ok? <==> Complete(msg)) && (r.Ok? ==> CutAs(msg, st'.header, st'.arg, st'.data))
  {
    PipeReceiveIsolates(st, Message(msg), pipeOk);
    CompleteIsWellFormed(msg);
    if Complete(msg) {
      CutAtArgLen(msg);
      PipeParts(st, msg, pipeOk);
    }
  }

  /** So does the vector buffer with every complete message that it can hold; behind the payload may
      stand bytes of an earlier message. */
  lemma VecCutsByOpcode(vec: VecState, bufsize: nat, msg: seq<byte>)
    requires VecOk(vec, bufsize) && Complete(msg) && |msg| <= bufsize
    ensures var (v, r) := VecReceive(vec, Message(msg));
            && r.Ok? && v.pos <= |v.arg|
            && exists payload :: CutAs(msg, v.header, VecArg(v), payload) && payload <= VecRest(v)
  {
    CompleteIsWellFormed(msg);
    CutAtArgLen(msg);
    VecParts(vec, bufsize, msg);
    assert CutAs(msg, VecReceive(vec, Message(msg)).0.header, VecArg(VecReceive(vec, Message(msg)).0),
                 msg[40 + ArgLen(msg[..40])..]);
  }

  /** A device error comes through, and so does the failure to create a pipe. */
  lemma PipeErrors(st: PipeState, read: DeviceRead, pipeOk: bool)
    requires PipeOk(st)
    ensures var r := PipeReceive(st, read, pipeOk).1;
            && (st.len > 0 && !pipeOk ==> r == Err(IO))
            && ((st.len == 0 || pipeOk) && read.DeviceError? ==> r == Err(read.errno))
  {
  }

  // Runs of the pipe buffer.

  datatype Event = Receive(read: DeviceRead, pipeOk: bool) | ReadPayload(n: nat)

  /** A run: the state, the message last accepted if the last receive accepted one, and what has
      been read of its payload. */
  datatype PipeRun = PipeRun(st: PipeState, last: Option<seq<byte>>, taken: seq<byte>)

  function PipeNext(run: PipeRun, event: Event): (r: PipeRun)
    requires |run.st.header| == IN_HEADER
  {
    match event
    case Receive(read, pipeOk) =>
      var (st, r) := PipeReceive(run.st, read, pipeOk);
      PipeRun(st, if r.Ok? && read.Message? then Some(read.bytes) else None, [])
    case ReadPayload(n) =>
      PipeRun(PipeRead(run.st, n), run.last, run.taken + run.st.data[..Min(n, |run.st.data|)])
  }

  function PipeExec(events: seq<Event>): (r: PipeRun)
    ensures |r.st.header| == IN_HEADER
  {
    if events == [] then PipeRun(NewPipeState(), None, [])
    else PipeNext(PipeExec(events[..|events| - 1]), events[|events| - 1])
  }

  /** Header, argument, what was read of the payload and what is left in the pipe are exactly the
      message last accepted, in order. */
  ghost predicate Isolated(run: PipeRun) {
    && PipeOk(run.st)
    && (run.last.Some? ==>
          && WellFormed(run.last.value)
          && run.st.header + run.st.arg + run.taken + run.st.data == run.last.value
          && |run.st.arg| == ArgLen(run.st.header))
  }

  lemma ReceiveKeepsIsolated(run: PipeRun, read: DeviceRead, pipeOk: bool)
    requires Isolated(run)
    ensures Isolated(PipeNext(run, Receive(read, pipeOk)))
  {
    PipeReceiveIsolates(run.st, read, pipeOk);
    var st := PipeReceive(run.st, read, pipeOk).0;
    assert st.header + st.arg + [] == st.header + st.arg;
  }

  lemma ReadKeepsIsolated(run: PipeRun, n: nat)
    requires Isolated(run)
    ensures Isolated(PipeNext(run, ReadPayload(n)))
  {
    var data := run.st.data;
    var k := Min(n, |data|);
    var front := run.st.header + run.st.arg;
    assert data == data[..k] + data[k..];
    assert front + (run.taken + data[..k]) + data[k..] == front + run.taken + data;
  }

  /** Over any run of receives, failed receives and partial payload reads, no byte of another
      message ever gets in, and the tracked length is the true one. */
  lemma {:induction false} FramingIsolation(events: seq<Event>)
    ensures Isolated(PipeExec(events))
  {
    if events != [] {
      var before := PipeExec(events[..|events| - 1]);
      FramingIsolation(events[..|events| - 1]);
      match events[|events| - 1] {
        case Receive(read, pipeOk) => ReceiveKeepsIsolated(before, read, pipeOk);
        case ReadPayload(n) => ReadKeepsIsolated(before, n);
      }
    }
  }

  // The vector buffer.

  datatype VecState = VecState(header: seq<byte>, arg: seq<byte>, pos: nat)

  predicate VecOk(st: VecState, bufsize: nat) {
    |st.header| == IN_HEADER && bufsize >= IN_HEADER && |st.arg| == bufsize - IN_HEADER
  }

  /** The front of `dst` replaced by `src`. */
  function Overlay(dst: seq<byte>, src: seq<byte>): (r: seq<byte>)
    requires |src| <= |dst|
    ensures |r| == |dst|
  {
    src + dst[|src|..]
  }

  function VecReceive(st: VecState, read: DeviceRead): (r: (VecState, Result<(), Errno>))
    requires |st.header| == IN_HEADER
    requires read.Message? ==> |read.bytes| <= IN_HEADER + |st.arg|
    ensures |r.0.header| == IN_HEADER && |r.0.arg| == |st.arg|
  {
    var st := st.(pos := 0);
    if read.DeviceError? then (st, Err(read.errno))
    else
      var n := |read.bytes|;
      var inHeader := Min(n, IN_HEADER);
      var st := st.(header := Overlay(st.header, read.bytes[..inHeader]),
                    arg := Overlay(st.arg, read.bytes[inHeader..]));
      if n != LenField(st.header) then (st, Err(INVAL)) else (st.(pos := ArgLen(st.header)), Ok(()))
  }

  /** `to_parts` of the vector buffer: the argument, and everything behind it. */
  function VecArg(st: VecState): seq<byte>
    requires st.pos <= |st.arg|
  {
    st.arg[..st.pos]
  }

  function VecRest(st: VecState): seq<byte>
    requires st.pos <= |st.arg|
  {
    st.arg[st.pos..]
  }

  /** Whenever the vector buffer accepts, `split_at` is in range, provided the buffer can hold a
      header and a `fuse_write_in`, as every request buffer can. */
  lemma VecSplitInRange(st: VecState, bufsize: nat, read: DeviceRead)
    requires VecOk(st, bufsize) && bufsize >= IN_HEADER + WRITE_IN
    requires read.Message? ==> |read.bytes| <= bufsize
    ensures VecReceive(st, read).1.Ok? ==> VecReceive(st, read).0.pos <= bufsize - IN_HEADER
  {
  }

  lemma VecParts(vec: VecState, bufsize: nat, msg: seq<byte>)
    requires VecOk(vec, bufsize) && WellFormed(msg) && |msg| <= bufsize
    ensures var (v, r) := VecReceive(vec, Message(msg));
            var n := IN_HEADER + ArgLen(msg[..IN_HEADER]);
            && r.Ok? && v.pos <= |v.arg| && v.header == msg[..IN_HEADER]
            && VecArg(v) == msg[IN_HEADER..n] && msg[n..] <= VecRest(v)
  {
    var (v, r) := VecReceive(vec, Message(msg));
    var header, body := msg[..IN_HEADER], msg[IN_HEADER..];
    assert v.header == Overlay(vec.header, header) == header;
    assert v.arg == body + vec.arg[|body|..];
    var n := ArgLen(header);
    assert v.arg[..n] == body[..n] == msg[IN_HEADER..IN_HEADER + n];
    assert v.arg[n..] == body[n..] + vec.arg[|body|..];
    assert body[n..] == msg[IN_HEADER + n..];
  }

  /** On a well-formed message both buffers, whatever they held before, yield the same header and
      argument, and the pipe's remaining data is a prefix of the vector's. */
  lemma BuffersAgree(pipe: PipeState, vec: VecState, bufsize: nat, msg: seq<byte>)
    requires PipeOk(pipe) && VecOk(vec, bufsize)
    requires WellFormed(msg) && |msg| <= bufsize
    ensures var (p, rp) := PipeReceive(pipe, Message(msg), true);
            var (v, rv) := VecReceive(vec, Message(msg));
            && rp.Ok? && rv.Ok? && v.pos <= |v.arg|
            && p.header == v.header && p.arg == VecArg(v) && p.data <= VecRest(v)
  {
    PipeParts(pipe, msg, true);
    VecParts(vec, bufsize, msg);
  }

  /** A short message shows how the two differ: when the vector buffer accepts, its header and
      argument consist of the message's own bytes if and only if the message is well formed.
      Otherwise the vector buffer completes them with bytes of an earlier message, where the pipe
      buffer rejects. */
  lemma VecIsolatesIff(vec: VecState, bufsize: nat, msg: seq<byte>)
    requires VecOk(vec, bufsize) && bufsize >= IN_HEADER + WRITE_IN && |msg| <= bufsize
    requires VecReceive(vec, Message(msg)).1.Ok?
    ensures var v := VecReceive(vec, Message(msg)).0;
            v.pos <= |v.arg| && (v.header + VecArg(v) <= msg <==> WellFormed(msg))
  {
    VecSplitInRange(vec, bufsize, Message(msg));
    var v := VecReceive(vec, Message(msg)).0;
    if |msg| >= IN_HEADER {
      var header, body := msg[..IN_HEADER], msg[IN_HEADER..];
      assert v.header == header;
      assert v.arg == body + vec.arg[|body|..];
      if |body| >= v.pos {
        assert VecArg(v) == body[..v.pos];
        assert header + body[..v.pos] == msg[..IN_HEADER + v.pos];
      }
    }
  }

  /** A request header with the given length and opcode, zero elsewhere. */
  function HeaderFor(len: nat, op: nat): seq<byte> {
    LE32(len) + LE32(op) + seq(32, _ => 0)
  }

  lemma HeaderFields(len: nat, op: nat)
    requires len < U32 && op < U32
    ensures var msg := HeaderFor(len, op);
            && |msg| == IN_HEADER && msg[..IN_HEADER] == msg && msg[IN_HEADER..] == []
            && LenField(msg) == len && OpcodeField(msg) == op
  {
    var msg := HeaderFor(len, op);
    assert msg[..4] == LE32(len) && msg[4..8] == LE32(op);
    RoundTrip32(len);
    RoundTrip32(op);
  }

  lemma OverlayWhole(dst: seq<byte>, src: seq<byte>)
    requires |src| == |dst|
    ensures Overlay(dst, src) == src && Overlay(dst, []) == dst
  {
  }

  lemma HeaderOnlyInVector(vec: VecState, msg: seq<byte>)
    requires |vec.header| == IN_HEADER && |vec.arg| >= WRITE_IN
    requires |msg| == IN_HEADER && msg[..IN_HEADER] == msg && msg[IN_HEADER..] == []
    requires LenField(msg) == IN_HEADER && OpcodeField(msg) == FUSE_WRITE
    ensures VecReceive(vec, Message(msg)) == (VecState(msg, vec.arg, WRITE_IN), Ok(()))
  {
    OverlayWhole(vec.header, msg);
    OverlayWhole(vec.arg, vec.arg);
  }

  /** A write request that consists of its header only: the vector buffer accepts it and hands out 40 bytes
      of whatever it held; the pipe buffer refuses it. */
  lemma HeaderOnlyWriteAccepted(pipe: PipeState, vec: VecState, bufsize: nat)
    requires PipeOk(pipe) && VecOk(vec, bufsize) && bufsize >= IN_HEADER + WRITE_IN
    ensures PipeReceive(pipe, Message(HeaderFor(IN_HEADER, FUSE_WRITE)), true).1.Err?
    ensures var (v, r) := VecReceive(vec, Message(HeaderFor(IN_HEADER, FUSE_WRITE)));
            r.Ok? && v.pos == WRITE_IN && VecArg(v) == vec.arg[..WRITE_IN]
  {
    HeaderFields(IN_HEADER, FUSE_WRITE);
    PipeReceiveIsolates(pipe, Message(HeaderFor(IN_HEADER, FUSE_WRITE)), true);
    HeaderOnlyInVector(vec, HeaderFor(IN_HEADER, FUSE_WRITE));
  }

  /** The vector buffer after a run; reading the payload leaves it alone. */
  function VecExec(bufsize: nat, events: seq<Event>): (st: VecState)
    requires bufsize >= IN_HEADER + WRITE_IN && Deliverable(bufsize, events)
    ensures VecOk(st, bufsize)
  {
    if events == [] then VecState(seq(IN_HEADER, _ => 0), seq(bufsize - IN_HEADER, _ => 0), 0)
    else
      var before := VecExec(bufsize, events[..|events| - 1]);
      match events[|events| - 1]
      case Receive(read, _) => VecReceive(before, read).0
      case ReadPayload(_) => before
  }

  /** The device hands out no message larger than the buffer. */
  predicate Deliverable(bufsize: nat, events: seq<Event>) {
    forall k :: 0 <= k < |events| && events[k].Receive? && events[k].read.Message? ==>
      |events[k].read.bytes| <= bufsize
  }

  /** Two buffers driven by the same history agree after every well-formed message. */
  lemma HistoriesAgree(bufsize: nat, events: seq<Event>, msg: seq<byte>)
    requires bufsize >= IN_HEADER + WRITE_IN && Deliverable(bufsize, events)
    requires WellFormed(msg) && |msg| <= bufsize
    ensures var history := events + [Receive(Message(msg), true)];
            && Deliverable(bufsize, history)
            && var p, v := PipeExec(history).st, VecExec(bufsize, history);
               && p.header == v.header && v.pos <= |v.arg| && p.arg == VecArg(v) && p.data <= VecRest(v)
  {
    var history := events + [Receive(Message(msg), true)];
    assert history[..|history| - 1] == events;
    FramingIsolation(events);
    BuffersAgree(PipeExec(events).st, VecExec(bufsize, events), bufsize, msg);
  }
}
