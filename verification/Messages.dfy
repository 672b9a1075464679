/** Replies and notifications: the message header, and what the kernel reads back from a message
    that was written. */
module Messages {
  import opened Prelude
  import opened Wire
  import opened ByteTree

  /** `size_of::<fuse_out_header>()`. */
  const OUT_HEADER: nat := 16

  const NOTIFY_INVAL_ENTRY: nat := 3
  const NOTIFY_STORE: nat := 4
  const NOTIFY_DELETE: nat := 6

  /** Error numbers are positive 32-bit integers. */
  type ErrnoCode = e: int | 0 < e < 0x8000_0000 witness 1

  datatype MessageKind = Reply(unique: nat, error: Option<ErrnoCode>) | Notify(code: nat)

  predicate KindOk(kind: MessageKind) {
    match kind
    case Reply(unique, _) => unique < U64
    case Notify(code) => 1 <= code <= 8
  }

  /** The signed value of the header's `error` field. */
  function ErrorOf(kind: MessageKind): int {
    match kind
    case Reply(_, None) => 0
    case Reply(_, Some(e)) => -(e as int)
    case Notify(code) => code
  }

  function UniqueOf(kind: MessageKind): nat {
    match kind
    case Reply(unique, _) => unique
    case Notify(_) => 0
  }

  /** The two's complement of a signed 32-bit integer. */
  function Unsigned32(e: int): nat
    requires -0x8000_0000 <= e < 0x8000_0000
  {
    if e < 0 then e + U32 else e
  }

  function Signed32(n: nat): int {
    if n < 0x8000_0000 then n else n - U32
  }

  function OutHeader(len: nat, kind: MessageKind): (s: seq<byte>)
    requires KindOk(kind)
    ensures |s| == OUT_HEADER
  {
    LE32(len) + LE32(Unsigned32(ErrorOf(kind))) + LE64(UniqueOf(kind))
  }

  /** What the kernel reads from a message written to the device: it insists on an exact length. */
  datatype Parsed = Parsed(error: int, unique: nat, body: seq<byte>)

  function ParseMessage(msg: seq<byte>): Option<Parsed> {
    if |msg| < OUT_HEADER || FromLE(msg[..4]) != |msg| then None
    else Some(Parsed(Signed32(FromLE(msg[4..8])), FromLE(msg[8..16]), msg[16..]))
  }

  /** The kernel reads a reply under the number of its request, with the negated error number or 0; it
      reads a notification under number 0, with its code. */
  predicate ReadAs(msg: seq<byte>, kind: MessageKind, body: seq<byte>) {
    match kind
    case Reply(unique, None) => ParseMessage(msg) == Some(Parsed(0, unique, body))
    case Reply(unique, Some(e)) => ParseMessage(msg) == Some(Parsed(-(e as int), unique, body))
    case Notify(code) => ParseMessage(msg) == Some(Parsed(code, 0, body))
  }

  lemma SmallNumbers()
    ensures LE32(16) == [0x10, 0, 0, 0] && LE64(42) == [0x2a, 0, 0, 0, 0, 0, 0, 0]
  {
    assert LE(0, 4) == [0, 0, 0, 0];
    assert LE64(42) == [42] + LE(0, 7) && LE(0, 7) == [0, 0, 0] + LE(0, 4);
  }

  lemma MinusFour()
    ensures LE32(0xffff_fffc) == [0xfc, 0xff, 0xff, 0xff]
  {
  }

  /** The reply to request 42 with EINTR, byte by byte. */
  lemma InterruptedReply()
    ensures OutHeader(16, Reply(42, Some(4)))
         == [0x10, 0, 0, 0, 0xfc, 0xff, 0xff, 0xff, 0x2a, 0, 0, 0, 0, 0, 0, 0]
  {
    SmallNumbers();
    MinusFour();
  }

  /** The whole message, as `send_msg` hands it to the writer. */
  function MessageBytes(kind: MessageKind, arg: Bytes): Bytes
    requires KindOk(kind)
  {
    Group([Pod(OutHeader(OUT_HEADER + Size(arg), kind)), arg])
  }

  lemma FlatMessage(kind: MessageKind, arg: Bytes)
    requires KindOk(kind)
    ensures Flat(MessageBytes(kind, arg)) == OutHeader(OUT_HEADER + Size(arg), kind) + Flat(arg)
    ensures Count(MessageBytes(kind, arg)) == 1 + Count(arg)
  {
    FlatTwo(Pod(OutHeader(OUT_HEADER + Size(arg), kind)), arg);
  }

  lemma ParseBack(len: nat, kind: MessageKind, body: seq<byte>)
    requires KindOk(kind) && len == OUT_HEADER + |body| < U32
    ensures ParseMessage(OutHeader(len, kind) + body) == Some(Parsed(ErrorOf(kind), UniqueOf(kind), body))
  {
    var a, b, c := LE32(len), LE32(Unsigned32(ErrorOf(kind))), LE64(UniqueOf(kind));
    var msg := a + b + c + body;
    assert msg[..4] == a;
    assert msg[4..8] == b;
    assert msg[8..16] == c;
    assert msg[16..] == body;
    RoundTrip32(len);
    RoundTrip32(Unsigned32(ErrorOf(kind)));
    RoundTrip64(UniqueOf(kind));
  }

  /** A message whose total length fits the header is read back as it was meant. */
  lemma MessageRoundTrip(kind: MessageKind, arg: Bytes)
    requires KindOk(kind) && OUT_HEADER + Size(arg) < U32
    ensures ReadAs(Flat(MessageBytes(kind, arg)), kind, Flat(arg))
  {
    FlatMessage(kind, arg);
    SizeIsLength(arg);
    ParseBack(OUT_HEADER + Size(arg), kind, Flat(arg));
  }

  lemma MessageFacts(kind: MessageKind, arg: Bytes)
    requires KindOk(kind) && OUT_HEADER + |Flat(arg)| < U32
    ensures var msg := MessageBytes(kind, arg);
            && Count(msg) > 0 && |Flat(msg)| == OUT_HEADER + |Flat(arg)|
            && ReadAs(Flat(msg), kind, Flat(arg))
  {
    SizeIsLength(arg);
    FlatMessage(kind, arg);
    MessageRoundTrip(kind, arg);
  }

  /** `send_msg`: a body that does not fit the 32-bit length is refused before anything is written;
      otherwise there is exactly one vectored write, and the kernel reads from it the kind and the
      body that were sent. */
  method SendMsg(conn: Writer, kind: MessageKind, arg: Bytes, answer: Result<nat, Errno>) returns (r: Result<(), Errno>)
    requires KindOk(kind)
    modifies conn
    ensures OUT_HEADER + |Flat(arg)| >= U32 ==> r == Err(INVAL) && conn.log == old(conn.log)
    ensures OUT_HEADER + |Flat(arg)| < U32 ==>
              OneMore(old(conn.log), conn.log) && ReadAs(Concat(Last(conn.log)), kind, Flat(arg))
    ensures OUT_HEADER + |Flat(arg)| < U32 ==> r == WriteResult(answer, OUT_HEADER + |Flat(arg)|)
  {
    SizeIsLength(arg);
    if OUT_HEADER + Size(arg) >= U32 {
      return Err(INVAL);
    }
    MessageFacts(kind, arg);
    var msg := MessageBytes(kind, arg);
    r := WriteBytes(conn, msg, answer);
  }

  // Errors of sending.

  /** The system took all of `len` bytes, or says that there is nobody to read them. */
  predicate Settles(answer: Result<nat, Errno>, len: nat) {
    match answer
    case Ok(taken) => taken >= len
    case Err(e) => e == NOENT || e == NODEV
  }

  class Session {
    var exited: bool

    constructor ()
      ensures !exited
    {
      exited := false;
    }

    method HandleReplyError(err: Errno) returns (r: Result<(), Errno>)
      modifies this
      ensures err == NOENT || err == NODEV ==> r == Ok(())
      ensures err != NOENT && err != NODEV ==> r == Err(err)
      ensures exited <==> old(exited) || err == NODEV
    {
      match err {
        case NODEV =>
          exited := true;
          return Ok(());
        case NOENT =>
          return Ok(());
        case _ =>
          return Err(err);
      }
    }

    /** Sending and handling the error: success means that the kernel has the whole message, or that
        there is nobody left to read it. */
    method Send(conn: Writer, kind: MessageKind, arg: Bytes, answer: Result<nat, Errno>) returns (r: Result<(), Errno>)
      requires KindOk(kind)
      modifies this, conn
      ensures OUT_HEADER + |Flat(arg)| >= U32 ==>
                r == Err(INVAL) && conn.log == old(conn.log) && exited == old(exited)
      ensures OUT_HEADER + |Flat(arg)| < U32 ==>
                && OneMore(old(conn.log), conn.log) && ReadAs(Concat(Last(conn.log)), kind, Flat(arg))
                && (r.Ok? <==> Settles(answer, OUT_HEADER + |Flat(arg)|))
                && (exited <==> old(exited) || answer == Err(NODEV))
    {
      r := SendMsg(conn, kind, arg, answer);
      if r.Err? {
        r := HandleReplyError(r.error);
      }
    }
  }

  // Notifications with a variable part. The length fields are cast with `as u32`.

  function Truncated32(n: nat): nat {
    n % U32
  }

  function InvalEntry(parent: nat, name: seq<byte>): Bytes {
    Group([Pod(LE64(parent) + LE32(Truncated32(|name|)) + LE32(0)), Raw(name), Raw([0])])
  }

  function Delete(parent: nat, child: nat, name: seq<byte>): Bytes {
    Group([Pod(LE64(parent) + LE64(child) + LE32(Truncated32(|name|)) + LE32(0)), Raw(name), Raw([0])])
  }

  function Store(ino: nat, offset: nat, content: Bytes): Bytes {
    Group([Pod(LE64(ino) + LE64(offset) + LE32(Truncated32(Size(content))) + LE32(0)), content])
  }

  /** The kernel's reading of a `fuse_notify_inval_entry_out` body: the name must fill it. */
  function ReadInvalEntry(body: seq<byte>): Option<(nat, seq<byte>)> {
    if |body| < 16 then None
    else
      var namelen := FromLE(body[8..12]);
      if |body| != 16 + namelen + 1 || body[|body| - 1] != 0 then None
      else Some((FromLE(body[..8]), body[16..16 + namelen]))
  }

  function ReadDelete(body: seq<byte>): Option<(nat, nat, seq<byte>)> {
    if |body| < 24 then None
    else
      var namelen := FromLE(body[16..20]);
      if |body| != 24 + namelen + 1 || body[|body| - 1] != 0 then None
      else Some((FromLE(body[..8]), FromLE(body[8..16]), body[24..24 + namelen]))
  }

  function ReadStore(body: seq<byte>): Option<(nat, nat, seq<byte>)> {
    if |body| < 24 then None
    else
      var size := FromLE(body[16..20]);
      if |body| != 24 + size then None
      else Some((FromLE(body[..8]), FromLE(body[8..16]), body[24..]))
  }

  lemma ReadInvalEntryBack(parent: nat, name: seq<byte>)
    requires parent < U64 && |name| < U32
    ensures ReadInvalEntry(LE64(parent) + LE32(|name|) + LE32(0) + (name + [0])) == Some((parent, name))
  {
    var body := LE64(parent) + LE32(|name|) + LE32(0) + (name + [0]);
    assert body[..8] == LE64(parent);
    assert body[8..12] == LE32(|name|);
    assert body[16..16 + |name|] == name;
    RoundTrip64(parent);
    RoundTrip32(|name|);
  }

  /** Whatever the length of the name: if the notification is written at all, the kernel reads the
      full name from it; the cast of the name's length does not truncate. */
  lemma InvalEntryArrivesWhole(parent: nat, name: seq<byte>)
    requires parent < U64 && OUT_HEADER + |Flat(InvalEntry(parent, name))| < U32
    ensures ReadInvalEntry(Flat(InvalEntry(parent, name))) == Some((parent, name))
  {
    FlatThree(InvalEntry(parent, name).parts[0], Raw(name), Raw([0]));
    assert Truncated32(|name|) == |name|;
    ReadInvalEntryBack(parent, name);
  }

  lemma ReadDeleteBack(parent: nat, child: nat, name: seq<byte>)
    requires parent < U64 && child < U64 && |name| < U32
    ensures ReadDelete(LE64(parent) + LE64(child) + LE32(|name|) + LE32(0) + (name + [0]))
         == Some((parent, child, name))
  {
    var body := LE64(parent) + LE64(child) + LE32(|name|) + LE32(0) + (name + [0]);
    assert body[..8] == LE64(parent);
    assert body[8..16] == LE64(child);
    assert body[16..20] == LE32(|name|);
    assert body[24..24 + |name|] == name;
    RoundTrip64(parent);
    RoundTrip64(child);
    RoundTrip32(|name|);
  }

  lemma DeleteArrivesWhole(parent: nat, child: nat, name: seq<byte>)
    requires parent < U64 && child < U64 && OUT_HEADER + |Flat(Delete(parent, child, name))| < U32
    ensures ReadDelete(Flat(Delete(parent, child, name))) == Some((parent, child, name))
  {
    FlatThree(Delete(parent, child, name).parts[0], Raw(name), Raw([0]));
    assert Truncated32(|name|) == |name|;
    ReadDeleteBack(parent, child, name);
  }

  lemma ReadStoreBack(ino: nat, offset: nat, content: seq<byte>)
    requires ino < U64 && offset < U64 && |content| < U32
    ensures ReadStore(LE64(ino) + LE64(offset) + LE32(|content|) + LE32(0) + content)
         == Some((ino, offset, content))
  {
    var body := LE64(ino) + LE64(offset) + LE32(|content|) + LE32(0) + content;
    assert body[..8] == LE64(ino);
    assert body[8..16] == LE64(offset);
    assert body[16..20] == LE32(|content|);
    assert body[24..] == content;
    RoundTrip64(ino);
    RoundTrip64(offset);
    RoundTrip32(|content|);
  }

  lemma StoreArrivesWhole(ino: nat, offset: nat, content: Bytes)
    requires ino < U64 && offset < U64 && OUT_HEADER + |Flat(Store(ino, offset, content))| < U32
    ensures ReadStore(Flat(Store(ino, offset, content))) == Some((ino, offset, Flat(content)))
  {
    FlatTwo(Store(ino, offset, content).parts[0], content);
    SizeIsLength(content);
    assert Truncated32(Size(content)) == |Flat(content)|;
    ReadStoreBack(ino, offset, Flat(content));
  }

  /** The notifiers: one message from which the kernel reads the notification back in full, unless
      its total length does not fit 32 bits; then nothing is written. Success means that the kernel has
      all of it, or that there is nobody left to read it. */
  method NotifyInvalEntry(session: Session, conn: Writer, parent: nat, name: seq<byte>, answer: Result<nat, Errno>)
    returns (r: Result<(), Errno>)
    requires parent < U64
    modifies session, conn
    ensures OUT_HEADER + 16 + |name| + 1 >= U32 ==> r == Err(INVAL) && conn.log == old(conn.log)
    ensures OUT_HEADER + 16 + |name| + 1 < U32 ==>
              && OneMore(old(conn.log), conn.log) && ParseMessage(Concat(Last(conn.log))).Some?
              && var p := ParseMessage(Concat(Last(conn.log))).value;
              && p.error == NOTIFY_INVAL_ENTRY && p.unique == 0
              && ReadInvalEntry(p.body) == Some((parent, name))
    ensures OUT_HEADER + 16 + |name| + 1 < U32 ==> (r.Ok? <==> Settles(answer, OUT_HEADER + 16 + |name| + 1))
  {
    var body := InvalEntry(parent, name);
    FlatThree(body.parts[0], body.parts[1], body.parts[2]);
    r := session.Send(conn, Notify(NOTIFY_INVAL_ENTRY), body, answer);
    if OUT_HEADER + |Flat(body)| < U32 {
      InvalEntryArrivesWhole(parent, name);
    }
  }

  method NotifyStore(session: Session, conn: Writer, ino: nat, offset: nat, content: Bytes, answer: Result<nat, Errno>)
    returns (r: Result<(), Errno>)
    requires ino < U64 && offset < U64
    modifies session, conn
    ensures OUT_HEADER + 24 + |Flat(content)| >= U32 ==> r == Err(INVAL) && conn.log == old(conn.log)
    ensures OUT_HEADER + 24 + |Flat(content)| < U32 ==>
              && OneMore(old(conn.log), conn.log) && ParseMessage(Concat(Last(conn.log))).Some?
              && var p := ParseMessage(Concat(Last(conn.log))).value;
              && p.error == NOTIFY_STORE && p.unique == 0
              && ReadStore(p.body) == Some((ino, offset, Flat(content)))
    ensures OUT_HEADER + 24 + |Flat(content)| < U32 ==> (r.Ok? <==> Settles(answer, OUT_HEADER + 24 + |Flat(content)|))
  {
    var body := Store(ino, offset, content);
    FlatTwo(body.parts[0], body.parts[1]);
    r := session.Send(conn, Notify(NOTIFY_STORE), body, answer);
    if OUT_HEADER + |Flat(body)| < U32 {
      StoreArrivesWhole(ino, offset, content);
    }
  }

  method NotifyDelete(session: Session, conn: Writer, parent: nat, child: nat, name: seq<byte>,
                      answer: Result<nat, Errno>)
    returns (r: Result<(), Errno>)
    requires parent < U64 && child < U64
    modifies session, conn
    ensures OUT_HEADER + 24 + |name| + 1 >= U32 ==> r == Err(INVAL) && conn.log == old(conn.log)
    ensures OUT_HEADER + 24 + |name| + 1 < U32 ==>
              && OneMore(old(conn.log), conn.log) && ParseMessage(Concat(Last(conn.log))).Some?
              && var p := ParseMessage(Concat(Last(conn.log))).value;
              && p.error == NOTIFY_DELETE && p.unique == 0
              && ReadDelete(p.body) == Some((parent, child, name))
    ensures OUT_HEADER + 24 + |name| + 1 < U32 ==> (r.Ok? <==> Settles(answer, OUT_HEADER + 24 + |name| + 1))
  {
    var body := Delete(parent, child, name);
    FlatThree(body.parts[0], body.parts[1], body.parts[2]);
    r := session.Send(conn, Notify(NOTIFY_DELETE), body, answer);
    if OUT_HEADER + |Flat(body)| < U32 {
      DeleteArrivesWhole(parent, child, name);
    }
  }
}
