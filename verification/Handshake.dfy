/** The connection handshake: reading INIT requests until one is accepted. */
module Handshake {
  import opened Prelude
  import opened Wire
  import opened Init

  const FUSE_INIT: nat := 26

  // The INIT request on the wire.

  /** How a kernel of the given version lays out its INIT argument. */
  function EncodeInit(i: InitIn): seq<byte> {
    match i
    case Compat3(major, minor) => LE32(major) + LE32(minor)
    case Compat35(major, minor, ra, flags) => LE32(major) + LE32(minor) + LE32(ra) + LE32(flags)
    case Current(major, minor, ra, flags, flags2) =>
      LE32(major) + LE32(minor) + LE32(ra) + LE32(flags) + LE32(flags2) + seq(44, _ => 0)
  }

  function WordAt(bytes: seq<byte>, at: nat): nat
    requires at + 4 <= |bytes|
  {
    FromLE(bytes[at..at + 4])
  }

  /** `InitIn::from_bytes`: the minor version selects the layout; longer arguments are accepted. */
  function FromBytes(bytes: seq<byte>): Option<InitIn> {
    if |bytes| < 8 then None
    else
      var major, minor := WordAt(bytes, 0), WordAt(bytes, 4);
      if minor <= 3 then Some(Compat3(major, minor))
      else if minor <= 35 then
        if |bytes| < 16 then None else Some(Compat35(major, minor, WordAt(bytes, 8), WordAt(bytes, 12)))
      else
        if |bytes| < 64 then None
        else Some(Current(major, minor, WordAt(bytes, 8), WordAt(bytes, 12), WordAt(bytes, 16)))
  }

  lemma WordIsRead(front: seq<byte>, n: nat, back: seq<byte>)
    requires n < U32
    ensures WordAt(front + LE32(n) + back, |front|) == n
  {
    var bytes := front + LE32(n) + back;
    assert bytes[|front|..|front| + 4] == LE32(n);
    RoundTrip32(n);
  }

  /** The INIT of every kernel but those of 7.4 and 7.5 is read back as that kernel meant it, whatever
      follows. */
  lemma FromBytesInvertsEncode(i: InitIn, rest: seq<byte>)
    requires InitInOk(i) && i.minor != 4 && i.minor != 5
    ensures FromBytes(EncodeInit(i) + rest) == Some(i)
  {
    var bytes := EncodeInit(i) + rest;
    var a, b := LE32(i.major), LE32(i.minor);
    assert bytes == [] + a + bytes[4..];
    WordIsRead([], i.major, bytes[4..]);
    assert bytes == a + b + bytes[8..];
    WordIsRead(a, i.minor, bytes[8..]);
    if !i.Compat3? {
      var c, d := LE32(i.maxReadahead), LE32(i.flags);
      assert bytes == (a + b) + c + bytes[12..];
      WordIsRead(a + b, i.maxReadahead, bytes[12..]);
      assert bytes == (a + b + c) + d + bytes[16..];
      WordIsRead(a + b + c, i.flags, bytes[16..]);
      if i.Current? {
        assert bytes == (a + b + c + d) + LE32(i.flags2) + bytes[20..];
        WordIsRead(a + b + c + d, i.flags2, bytes[20..]);
      }
    }
  }

  /** Kernels of 7.4 and 7.5 send 8 bytes where `from_bytes` wants 16: an INIT is read back if and only
      if it is of another version, and otherwise not at all. */
  lemma FromBytesIff(i: InitIn)
    requires InitInOk(i)
    ensures FromBytes(EncodeInit(i)) == Some(i) <==> i.minor != 4 && i.minor != 5
    ensures FromBytes(EncodeInit(i)).None? <==> i.minor == 4 || i.minor == 5
  {
    assert EncodeInit(i) + [] == EncodeInit(i);
    if i.minor != 4 && i.minor != 5 {
      FromBytesInvertsEncode(i, []);
    } else {
      WordIsRead(LE32(i.major), i.minor, []);
      assert EncodeInit(i) == LE32(i.major) + LE32(i.minor) + [];
    }
  }

  // The loop.

  /** One turn of the loop: what the device delivers, and whether a reply could be written. */
  datatype Turn =
    | Request(opcode: nat, unique: nat, arg: seq<byte>, writeOk: bool)
    | ReadError(errno: Errno)

  /** `Refuse` is an empty reply with EPROTO; the other two carry an INIT reply. */
  datatype Answer = Accept(unique: nat, out: InitOut) | Downgrade(unique: nat, out: InitOut) | Refuse(unique: nat)

  /** The version the library speaks, in a reply that is zero otherwise. */
  const DOWNGRADE_OUT: InitOut := OutCurrent(KERNEL_VERSION, KERNEL_MINOR_VERSION, 0, 0, 0, 0, 0, 0, 0, 0, 0, 0)

  datatype Outcome = Connected(config: Config) | Failed(errno: Errno) | Waiting

  /** The loop over the turns; the second part is what was written to the device. */
  function Shake(c: Config, pageSize: nat, turns: seq<Turn>): (Outcome, seq<Answer>) {
    if turns == [] then (Waiting, [])
    else
      var t := turns[0];
      if t.ReadError? then (Failed(t.errno), [])
      else if t.opcode != FUSE_INIT then Shake(c, pageSize, turns[1..])
      else
        var init := FromBytes(t.arg);
        if init.None? then (Failed(INVAL), [])
        else if !t.writeOk then (Failed(IO), [])
        else
          match Negotiate(c, init.value, pageSize)
          case Ok(c') => (Connected(c'), [Accept(t.unique, ToOut(c'))])
          case Err(TooLargeProtocolVersion) =>
            var (o, answers) := Shake(c, pageSize, turns[1..]);
            (o, [Downgrade(t.unique, DOWNGRADE_OUT)] + answers)
          case Err(TooSmallProtocolVersion) =>
            var (o, answers) := Shake(c, pageSize, turns[1..]);
            (o, [Refuse(t.unique)] + answers)
  }

  predicate IsInit(t: Turn) {
    t.Request? && t.opcode == FUSE_INIT && FromBytes(t.arg).Some?
  }

  /** An INIT the library speaks. */
  predicate Matches(t: Turn) {
    IsInit(t) && FromBytes(t.arg).value.major == 7 && t.writeOk
  }

  /** A request the loop passes over: not an INIT, or an INIT of another major version. */
  predicate Passes(t: Turn) {
    t.Request? && (t.opcode == FUSE_INIT ==>
      FromBytes(t.arg).Some? && FromBytes(t.arg).value.major != 7 && t.writeOk)
  }

  function AnswerTo(t: Turn): Answer
    requires IsInit(t)
  {
    if FromBytes(t.arg).value.major > 7 then Downgrade(t.unique, DOWNGRADE_OUT) else Refuse(t.unique)
  }

  /** One answer per INIT among the turns passed over, in order, and none to other requests. */
  function AnswersTo(turns: seq<Turn>): seq<Answer> {
    if turns == [] then []
    else (if IsInit(turns[0]) then [AnswerTo(turns[0])] else []) + AnswersTo(turns[1..])
  }

  /** `k` is the first INIT with major version 7, and nothing before it stops the loop. */
  ghost predicate SettlesAt(turns: seq<Turn>, k: nat) {
    k < |turns| && Matches(turns[k]) && forall j :: 0 <= j < k ==> Passes(turns[j])
  }

  /** The session's configuration is the initial one negotiated with the first INIT of major version
      7: rejected INITs leave no trace in it, each got exactly one answer carrying its own unique, and
      other requests got none. */
  lemma {:induction false} HandshakeSettles(c: Config, pageSize: nat, turns: seq<Turn>, k: nat)
    requires SettlesAt(turns, k)
    ensures var c' := Negotiate(c, FromBytes(turns[k].arg).value, pageSize);
            && c'.Ok?
            && Shake(c, pageSize, turns)
               == (Connected(c'.value), AnswersTo(turns[..k]) + [Accept(turns[k].unique, ToOut(c'.value))])
  {
    VersionRule(c, FromBytes(turns[k].arg).value, pageSize);
    var c' := Negotiate(c, FromBytes(turns[k].arg).value, pageSize);
    if k == 0 {
      assert AnswersTo(turns[..0]) + [Accept(turns[0].unique, ToOut(c'.value))]
          == [Accept(turns[0].unique, ToOut(c'.value))];
    } else {
      assert Passes(turns[0]);
      assert forall j :: 0 <= j < k - 1 ==> turns[1..][j] == turns[j + 1];
      HandshakeSettles(c, pageSize, turns[1..], k - 1);
      assert turns[..k][0] == turns[0] && turns[..k][1..] == turns[1..][..k - 1];
      var rest, last := AnswersTo(turns[1..][..k - 1]), [Accept(turns[k].unique, ToOut(c'.value))];
      if IsInit(turns[0]) {
        VersionRule(c, FromBytes(turns[0].arg).value, pageSize);
        assert AnswersTo(turns[..k]) == [AnswerTo(turns[0])] + rest;
        assert ([AnswerTo(turns[0])] + rest) + last == [AnswerTo(turns[0])] + (rest + last);
      } else {
        assert AnswersTo(turns[..k]) == rest;
      }
    }
  }

  /** So the connection to such a kernel fails with EINVAL, and nothing is answered. */
  lemma UnreadInitFails(c: Config, pageSize: nat, i: InitIn, unique: nat, rest: seq<Turn>)
    requires InitInOk(i) && (i.minor == 4 || i.minor == 5)
    ensures Shake(c, pageSize, [Request(FUSE_INIT, unique, EncodeInit(i), true)] + rest) == (Failed(INVAL), [])
  {
    FromBytesIff(i);
  }

  /** And only so: a handshake that connects does so at such an INIT. */
  lemma {:induction false} ConnectedSettled(c: Config, pageSize: nat, turns: seq<Turn>) returns (k: nat)
    requires Shake(c, pageSize, turns).0.Connected?
    ensures SettlesAt(turns, k)
  {
    if Matches(turns[0]) {
      k := 0;
    } else {
      if IsInit(turns[0]) {
        VersionRule(c, FromBytes(turns[0].arg).value, pageSize);
      }
      k := ConnectedSettled(c, pageSize, turns[1..]);
      forall j | 0 <= j < k + 1 ensures Passes(turns[j]) {
        if j > 0 {
          assert turns[1..][j - 1] == turns[j];
        }
      }
      k := k + 1;
    }
  }

  /** The first turn that the loop does not pass over and that is no INIT it speaks ends it: with the
      device's error, with EINVAL for an INIT that cannot be read, with EIO when the answer cannot be
      written; the INITs before it have been answered. */
  lemma {:induction false} HandshakeFails(c: Config, pageSize: nat, turns: seq<Turn>, k: nat)
    requires k < |turns| && !Passes(turns[k]) && !Matches(turns[k]) && forall j :: 0 <= j < k ==> Passes(turns[j])
    ensures Shake(c, pageSize, turns)
         == (Failed(match turns[k]
                    case ReadError(errno) => errno
                    case Request(_, _, arg, _) => if FromBytes(arg).None? then INVAL else IO),
             AnswersTo(turns[..k]))
  {
    if k > 0 {
      assert Passes(turns[0]);
      assert forall j :: 0 <= j < k - 1 ==> turns[1..][j] == turns[j + 1];
      HandshakeFails(c, pageSize, turns[1..], k - 1);
      assert turns[..k][0] == turns[0] && turns[..k][1..] == turns[1..][..k - 1];
      assert [] + AnswersTo(turns[1..][..k - 1]) == AnswersTo(turns[1..][..k - 1]);
      if IsInit(turns[0]) {
        VersionRule(c, FromBytes(turns[0].arg).value, pageSize);
      }
    } else {
      if IsInit(turns[0]) {
        VersionRule(c, FromBytes(turns[0].arg).value, pageSize);
      }
      assert AnswersTo(turns[..0]) == [];
    }
  }

  /** While every turn is passed over, the loop goes on, having answered each INIT. */
  lemma {:induction false} HandshakeWaits(c: Config, pageSize: nat, turns: seq<Turn>)
    requires forall j :: 0 <= j < |turns| ==> Passes(turns[j])
    ensures Shake(c, pageSize, turns) == (Waiting, AnswersTo(turns))
  {
    if turns != [] {
      assert Passes(turns[0]);
      assert forall j :: 0 <= j < |turns| - 1 ==> turns[1..][j] == turns[j + 1];
      HandshakeWaits(c, pageSize, turns[1..]);
      assert [] + AnswersTo(turns[1..]) == AnswersTo(turns[1..]);
      if IsInit(turns[0]) {
        VersionRule(c, FromBytes(turns[0].arg).value, pageSize);
      }
    }
  }

  /** Whatever the outcome, the answers written are to INIT requests of the script, each at most once
      and in order. */
  lemma {:induction false} AnswersAreInOrder(c: Config, pageSize: nat, turns: seq<Turn>)
    ensures Uniques(Shake(c, pageSize, turns).1) <= InitUniques(turns)
  {
    if turns != [] {
      AnswersAreInOrder(c, pageSize, turns[1..]);
    }
  }

  function Uniques(answers: seq<Answer>): seq<nat> {
    if answers == [] then [] else [answers[0].unique] + Uniques(answers[1..])
  }

  function InitUniques(turns: seq<Turn>): seq<nat> {
    if turns == [] then [] else (if IsInit(turns[0]) then [turns[0].unique] else []) + InitUniques(turns[1..])
  }

  // The code as the source writes it.

  /** `KernelConfig`, updated field by field. */
  class KernelConfig {
    var major: nat
    var minor: nat
    var maxReadahead: nat
    var maxBackground: nat
    var congestionThreshold: nat
    var maxWrite: nat
    var timeGran: nat
    var maxPages: nat
    var maxStackDepth: nat
    var requestTimeout: nat
    var flags: Flags

    function Value(): Config
      reads this
    {
      Config(major, minor, maxReadahead, maxBackground, congestionThreshold, maxWrite, timeGran,
             maxPages, maxStackDepth, requestTimeout, flags)
    }

    constructor (c: Config)
      ensures Value() == c
    {
      major, minor, maxReadahead := c.major, c.minor, c.maxReadahead;
      maxBackground, congestionThreshold, maxWrite := c.maxBackground, c.congestionThreshold, c.maxWrite;
      timeGran, maxPages, maxStackDepth := c.timeGran, c.maxPages, c.maxStackDepth;
      requestTimeout, flags := c.requestTimeout, c.flags;
    }

    /** Read-ahead and write size, both since 7.6. */
    method ClampIo(i: InitIn, pageSize: nat)
      modifies this`maxReadahead, this`maxWrite
      ensures maxReadahead == Max(Min(old(maxReadahead), OfferedReadahead(i)), 4096)
      ensures maxWrite == ClampedMaxWrite(old(maxWrite), pageSize)
    {
      maxReadahead := Min(maxReadahead, OfferedReadahead(i));
      maxReadahead := Max(maxReadahead, 4096);
      maxWrite := Max(maxWrite, MIN_MAX_WRITE);
      maxWrite := Min(maxWrite, MAX_MAX_PAGES * pageSize % U32);
    }

    /** Background limits and time granularity, both since 7.13. */
    method ClampTiming()
      modifies this`maxBackground, this`congestionThreshold, this`timeGran
      ensures maxBackground == if minor >= 13 then old(maxBackground) else 0
      ensures congestionThreshold
           == if minor >= 13 then ClampedThreshold(old(congestionThreshold), old(maxBackground)) else 0
      ensures timeGran == if minor >= 13 then RoundedTimeGran(old(timeGran)) else 0
    {
      if minor >= 13 {
        if congestionThreshold == 0 {
          congestionThreshold := DefaultThreshold(maxBackground);
        }
        congestionThreshold := Min(congestionThreshold, maxBackground);
      } else {
        maxBackground := 0;
        congestionThreshold := 0;
      }
      if minor >= 13 {
        timeGran := Pow10(Ilog10(Max(timeGran, 1)));
        timeGran := Min(timeGran, 1_000_000_000);
      } else {
        timeGran := 0;
      }
    }

    /** The page limit, since 7.28, and backing-file passthrough, since 7.40. */
    method SettleOptional()
      modifies this`maxPages, this`flags, this`maxStackDepth
      ensures maxPages
           == if minor >= 28 && MAX_PAGES in old(flags) then Min(Max(old(maxPages), 1), MAX_MAX_PAGES)
              else DEFAULT_MAX_PAGES_PER_REQ
      ensures maxStackDepth
           == if KeepsPassthrough(minor, old(flags)) then Min(old(maxStackDepth), MAX_STACK_DEPTH) else 0
      ensures flags == if KeepsPassthrough(minor, old(flags)) then old(flags) else old(flags) - {PASSTHROUGH}
    {
      if minor >= 28 && MAX_PAGES in flags {
        maxPages := Max(maxPages, 1);
        maxPages := Min(maxPages, MAX_MAX_PAGES);
      } else {
        maxPages := DEFAULT_MAX_PAGES_PER_REQ;
      }
      if minor >= 40 && PASSTHROUGH in flags && WRITEBACK_CACHE !in flags {
        maxStackDepth := Min(maxStackDepth, MAX_STACK_DEPTH);
      } else {
        flags := flags - {PASSTHROUGH};
        maxStackDepth := 0;
      }
    }

    /** The negotiation, assignment by assignment. A refused INIT leaves the configuration alone. */
    method Update(i: InitIn, pageSize: nat) returns (r: Result<(), NegotiationError>)
      modifies this
      ensures match Init.Negotiate(old(Value()), i, pageSize)
              case Ok(c) => r == Ok(()) && Value() == c
              case Err(e) => r == Err(e) && Value() == old(Value())
    {
      if i.major > 7 {
        return Err(TooLargeProtocolVersion);
      }
      if i.major < 7 {
        return Err(TooSmallProtocolVersion);
      }
      major := i.major;
      minor := Min(minor, i.minor);
      if i.Compat3? {
        return Ok(());
      }
      flags := (flags + READ_ONLY) * OfferedFlags(i);
      ClampIo(i, pageSize);
      ClampTiming();
      SettleOptional();
      requestTimeout := 0;
      return Ok(());
    }
  }

  /** The loop of `connect` over what the device delivers; `sent` is what it wrote. */
  method Connect(config: KernelConfig, pageSize: nat, turns: seq<Turn>) returns (o: Outcome, sent: seq<Answer>)
    modifies config
    ensures (o, sent) == Shake(old(config.Value()), pageSize, turns)
    ensures o.Connected? ==> config.Value() == o.config
    ensures !o.Connected? && !o.Failed? ==> config.Value() == old(config.Value())
  {
    sent := [];
    ghost var c := config.Value();
    var k := 0;
    assert turns[0..] == turns;
    while k < |turns|
      invariant k <= |turns| && config.Value() == c
      invariant Shake(c, pageSize, turns[k..]).0 == Shake(c, pageSize, turns).0
      invariant sent + Shake(c, pageSize, turns[k..]).1 == Shake(c, pageSize, turns).1
    {
      var t := turns[k];
      assert turns[k..][0] == t && turns[k..][1..] == turns[k + 1..];
      ghost var rest := Shake(c, pageSize, turns[k + 1..]).1;
      assert sent + [] == sent;
      k := k + 1;
      if t.ReadError? {
        return Failed(t.errno), sent;
      }
      if t.opcode != FUSE_INIT {
        continue;
      }
      var init := FromBytes(t.arg);
      if init.None? {
        return Failed(INVAL), sent;
      }
      var r := config.Update(init.value, pageSize);
      if !t.writeOk {
        return Failed(IO), sent;
      }
      match r {
        case Ok(_) =>
          return Connected(config.Value()), sent + [Accept(t.unique, ToOut(config.Value()))];
        case Err(TooLargeProtocolVersion) =>
          var answer := Downgrade(t.unique, DOWNGRADE_OUT);
          assert sent + ([answer] + rest) == (sent + [answer]) + rest;
          sent := sent + [answer];
        case Err(TooSmallProtocolVersion) =>
          assert sent + ([Refuse(t.unique)] + rest) == (sent + [Refuse(t.unique)]) + rest;
          sent := sent + [Refuse(t.unique)];
      }
    }
    assert turns[k..] == [] && sent + [] == sent;
    return Waiting, sent;
  }
}
