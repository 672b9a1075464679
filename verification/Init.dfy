/** The INIT negotiation: what the kernel offers, what the library settles on, and what the kernel
    reads back from the reply. */
module Init {
  import opened Prelude
  import opened Wire

  const KERNEL_VERSION: nat := 7
  const KERNEL_MINOR_VERSION: nat := 44
  const MIN_READ_BUFFER: nat := 8192
  const HEADERS: nat := 80  // fuse_in_header and fuse_write_in
  const MIN_MAX_WRITE: nat := MIN_READ_BUFFER - HEADERS
  const DEFAULT_MAX_PAGES_PER_REQ: nat := 32
  const MAX_MAX_PAGES: nat := 256
  const MAX_STACK_DEPTH: nat := 2

  /** A set of flags, by bit position. */
  type Flags = set<nat>

  const WRITEBACK_CACHE: nat := 16
  const MAX_PAGES: nat := 22
  const SETXATTR_EXT: nat := 29
  const INIT_EXT: nat := 30
  const PASSTHROUGH: nat := 37

  /** The bits `KernelFlags` declares; others are dropped on reading. */
  function Known(): Flags {
    set k | 0 <= k < 43 && k !in UNDECLARED
  }

  const UNDECLARED: Flags := {2, 11, 26, 27, 31, 33}

  /** The flags that are always switched on. */
  const READ_ONLY: Flags := {5, 7, 8, 9, 21, 22, 29, 30, 35, 39}

  const DEFAULT_FLAGS: Flags := {3, 12, 17, 24}

  // Flag words on the wire.

  predicate Bit(word: nat, k: nat) {
    if k == 0 then word % 2 == 1 else Bit(word / 2, k - 1)
  }

  function BitsOf(word: nat): Flags {
    set k | 0 <= k < 32 && Bit(word, k)
  }

  /** The number whose lowest `width` bits are the positions in `s` from `at` on. */
  function WordFrom(s: Flags, at: nat, width: nat): (w: nat)
    decreases width
  {
    if width == 0 then 0 else (if at in s then 1 else 0) + 2 * WordFrom(s, at + 1, width - 1)
  }

  lemma {:induction false} BitOfWord(s: Flags, at: nat, width: nat, k: nat)
    requires k < width
    ensures Bit(WordFrom(s, at, width), k) <==> at + k in s
    decreases k
  {
    if k > 0 {
      BitOfWord(s, at + 1, width - 1, k - 1);
    }
  }

  /** The low and the high 32 flags as words, and back. */
  function LowWord(s: Flags): nat {
    WordFrom(s, 0, 32)
  }

  function HighWord(s: Flags): nat {
    WordFrom(s, 32, 32)
  }

  function Raised(s: Flags): Flags {
    set k | k in s :: k + 32
  }

  lemma LowWordRoundTrip(s: Flags)
    ensures BitsOf(LowWord(s)) == set k | k in s && k < 32
  {
    forall k: nat | k < 32 ensures Bit(LowWord(s), k) <==> k in s {
      BitOfWord(s, 0, 32, k);
    }
  }

  lemma HighWordRoundTrip(s: Flags)
    requires forall k :: k in s ==> k < 64
    ensures Raised(BitsOf(HighWord(s))) == set k | k in s && k >= 32
  {
    forall k: nat | k < 32 ensures k in BitsOf(HighWord(s)) <==> k + 32 in s {
      BitOfWord(s, 32, 32, k);
    }
    forall k | k in s && k >= 32 ensures k in Raised(BitsOf(HighWord(s))) {
      assert k - 32 in BitsOf(HighWord(s));
    }
  }

  lemma {:induction false} WordBound(s: Flags, at: nat, width: nat)
    ensures WordFrom(s, at, width) < Pow2(width)
    decreases width
  {
    if width > 0 {
      WordBound(s, at + 1, width - 1);
    }
  }

  function Pow2(k: nat): nat {
    if k == 0 then 1 else 2 * Pow2(k - 1)
  }

  datatype Config = Config(
    major: nat, minor: nat, maxReadahead: nat, maxBackground: nat, congestionThreshold: nat,
    maxWrite: nat, timeGran: nat, maxPages: nat, maxStackDepth: nat, requestTimeout: nat, flags: Flags)

  /** The fields fit the integer types of `KernelConfig`. */
  predicate ConfigOk(c: Config) {
    && c.major < U32 && c.minor < U32 && c.maxReadahead < U32 && c.maxWrite < U32
    && c.timeGran < U32 && c.maxStackDepth < U32
    && c.maxBackground < U16 && c.congestionThreshold < U16 && c.maxPages < U16 && c.requestTimeout < U16
  }

  function DefaultConfig(): Config {
    Config(KERNEL_VERSION, KERNEL_MINOR_VERSION, U32 - 1, 0, 0, MIN_MAX_WRITE, 1,
           DEFAULT_MAX_PAGES_PER_REQ, 0, 0, DEFAULT_FLAGS)
  }

  datatype InitIn =
    | Compat3(major: nat, minor: nat)
    | Compat35(major: nat, minor: nat, maxReadahead: nat, flags: nat)
    | Current(major: nat, minor: nat, maxReadahead: nat, flags: nat, flags2: nat)

  /** What a kernel sends, by the change log of its header: the read-ahead and the flags since 7.6, the
      second flag word since 7.36. (`from_bytes` goes by other bounds.) */
  predicate InitInOk(i: InitIn) {
    && i.major < U32 && i.minor < U32
    && match i
       case Compat3(_, minor) => minor <= 5
       case Compat35(_, minor, ra, flags) => 5 < minor <= 35 && ra < U32 && flags < U32
       case Current(_, minor, ra, flags, flags2) => 35 < minor && ra < U32 && flags < U32 && flags2 < U32
  }

  function OfferedFlags(i: InitIn): Flags {
    match i
    case Compat3(_, _) => {}
    case Compat35(_, _, _, flags) => BitsOf(flags) * Known()
    case Current(_, _, _, flags, flags2) => (BitsOf(flags) + Raised(BitsOf(flags2))) * Known()
  }

  function OfferedReadahead(i: InitIn): nat {
    if i.Compat3? then 0 else i.maxReadahead
  }

  // Powers of ten.

  function Pow10(k: nat): (p: nat)
    ensures p > 0
  {
    if k == 0 then 1 else 10 * Pow10(k - 1)
  }

  function Ilog10(n: nat): nat
    requires n >= 1
  {
    if n < 10 then 0 else 1 + Ilog10(n / 10)
  }

  lemma {:induction false} Ilog10Bounds(n: nat)
    requires n >= 1
    ensures Pow10(Ilog10(n)) <= n < Pow10(Ilog10(n) + 1)
  {
    if n >= 10 {
      Ilog10Bounds(n / 10);
    } else {
      assert Pow10(1) == 10 * Pow10(0);
    }
  }

  lemma {:induction false} Pow10Monotone(a: nat, b: nat)
    requires a <= b
    ensures Pow10(a) <= Pow10(b)
  {
    if a < b {
      Pow10Monotone(a, b - 1);
    }
  }

  /** A power of ten is its own rounding. */
  lemma Ilog10OfPow10(k: nat)
    ensures Ilog10(Pow10(k)) == k
  {
    var j := Ilog10(Pow10(k));
    Ilog10Bounds(Pow10(k));
    if j < k {
      Pow10Monotone(j + 1, k);
    }
    if k < j {
      Pow10Monotone(k + 1, j);
    }
  }

  function RoundedTimeGran(requested: nat): nat {
    Min(Pow10(Ilog10(Max(requested, 1))), 1_000_000_000)
  }

  /** `max_background * 3 / 4` in 16-bit arithmetic. */
  function DefaultThreshold(maxBackground: nat): nat {
    maxBackground * 3 % U16 / 4
  }

  function ClampedThreshold(threshold: nat, maxBackground: nat): nat {
    Min(if threshold == 0 then DefaultThreshold(maxBackground) else threshold, maxBackground)
  }

  function ClampedMaxWrite(maxWrite: nat, pageSize: nat): nat {
    Min(Max(maxWrite, MIN_MAX_WRITE), MAX_MAX_PAGES * pageSize % U32)
  }

  datatype NegotiationError = TooLargeProtocolVersion | TooSmallProtocolVersion

  predicate KeepsPassthrough(minor: nat, flags: Flags) {
    minor >= 40 && PASSTHROUGH in flags && WRITEBACK_CACHE !in flags
  }

  /** The negotiated configuration. */
  function Negotiate(c: Config, i: InitIn, pageSize: nat): Result<Config, NegotiationError> {
    if i.major > 7 then Err(TooLargeProtocolVersion)
    else if i.major < 7 then Err(TooSmallProtocolVersion)
    else
      var minor := Min(c.minor, i.minor);
      if i.Compat3? then Ok(c.(major := i.major, minor := minor))
      else
        var flags := (c.flags + READ_ONLY) * OfferedFlags(i);
        var keeps := KeepsPassthrough(minor, flags);
        Ok(Config(
          i.major,
          minor,
          Max(Min(c.maxReadahead, OfferedReadahead(i)), 4096),
          if minor >= 13 then c.maxBackground else 0,
          if minor >= 13 then ClampedThreshold(c.congestionThreshold, c.maxBackground) else 0,
          ClampedMaxWrite(c.maxWrite, pageSize),
          if minor >= 13 then RoundedTimeGran(c.timeGran) else 0,
          if minor >= 28 && MAX_PAGES in flags then Min(Max(c.maxPages, 1), MAX_MAX_PAGES)
          else DEFAULT_MAX_PAGES_PER_REQ,
          if keeps then Min(c.maxStackDepth, MAX_STACK_DEPTH) else 0,
          0,
          if keeps then flags else flags - {PASSTHROUGH}))
  }

  // The negotiated values.

  /** The time granularity is the largest power of ten not above the request (0 counts as 1). */
  lemma TimeGranIsLargestPower(c: Config, i: InitIn, pageSize: nat, k: nat)
    requires ConfigOk(c) && Negotiate(c, i, pageSize).Ok? && !i.Compat3?
    requires Negotiate(c, i, pageSize).value.minor >= 13
    ensures var gran := Negotiate(c, i, pageSize).value.timeGran;
            && (exists j :: gran == Pow10(j))
            && gran <= Max(c.timeGran, 1)
            && (Pow10(k) <= Max(c.timeGran, 1) ==> Pow10(k) <= gran)
  {
    var n := Max(c.timeGran, 1);
    Ilog10Bounds(n);
    SmallPowers();
    if Ilog10(n) >= 10 {
      Pow10Monotone(10, Ilog10(n));
    }
    Pow10Monotone(Ilog10(n), 9);
    if Pow10(k) <= n && Ilog10(n) < k {
      Pow10Monotone(Ilog10(n) + 1, k);
    }
    if k <= Ilog10(n) {
      Pow10Monotone(k, Ilog10(n));
    }
  }

  lemma SmallPowers()
    ensures Pow10(9) == 1_000_000_000 && Pow10(10) == 10_000_000_000
  {
    assert Pow10(3) == 1000;
    assert Pow10(6) == 1000 * Pow10(3);
    assert Pow10(9) == 1000 * Pow10(6);
  }

  /** `size_of` both headers plus `max_write`. */
  function RequestBufferSize(c: Config): nat {
    HEADERS + c.maxWrite
  }

  /** The limits: each stays as asked for within the bounds that the version and the kernel allow, and is
      moved to the nearest bound otherwise; before the version that introduced it, it has its default. */
  lemma LimitsRespected(c: Config, i: InitIn, pageSize: nat)
    requires Negotiate(c, i, pageSize).Ok? && !i.Compat3?
    ensures var c' := Negotiate(c, i, pageSize).value;
            && Clamped(c.maxReadahead, 4096, Max(4096, i.maxReadahead), c'.maxReadahead)
            && (if MAX_PAGES in c'.flags && c'.minor >= 28 then Clamped(c.maxPages, 1, MAX_MAX_PAGES, c'.maxPages)
                else c'.maxPages == DEFAULT_MAX_PAGES_PER_REQ)
            && (if PASSTHROUGH in c'.flags then Clamped(c.maxStackDepth, 0, MAX_STACK_DEPTH, c'.maxStackDepth)
                else c'.maxStackDepth == 0)
            && (c'.minor < 13 ==> c'.maxBackground == c'.congestionThreshold == c'.timeGran == 0)
            && (c'.minor >= 13 ==> c'.maxBackground == c.maxBackground)
            && (c'.minor >= 13 && c.congestionThreshold > 0 ==>
                  Clamped(c.congestionThreshold, 0, c.maxBackground, c'.congestionThreshold))
            && c'.requestTimeout == 0
    ensures MIN_MAX_WRITE <= MAX_MAX_PAGES * pageSize < U32 ==>
              Clamped(c.maxWrite, MIN_MAX_WRITE, MAX_MAX_PAGES * pageSize, Negotiate(c, i, pageSize).value.maxWrite)
  {
  }

  /** `r` is the number between `lo` and `hi` that is nearest to `n`. */
  predicate Clamped(n: int, lo: int, hi: int, r: int) {
    && lo <= r <= hi
    && (lo <= n <= hi ==> r == n) && (n < lo ==> r == lo) && (n > hi ==> r == hi)
  }

  /** Before 7.4 only the version is settled. */
  lemma OldKernelKeepsConfig(c: Config, i: InitIn, pageSize: nat)
    requires Negotiate(c, i, pageSize).Ok? && i.Compat3?
    ensures var c' := Negotiate(c, i, pageSize).value;
            c' == c.(major := c'.major, minor := c'.minor)
  {
  }

  /** The documented cap of 32 pages without MAX_PAGES is not applied: it holds if and only if the
      requested size, raised to the minimum, is within it anyway. */
  lemma DocumentedWriteCapIff(c: Config, i: InitIn, pageSize: nat)
    requires Negotiate(c, i, pageSize).Ok? && !i.Compat3?
    requires 32 <= pageSize < 0x100_0000
    ensures Negotiate(c, i, pageSize).value.maxWrite <= DEFAULT_MAX_PAGES_PER_REQ * pageSize
            <==> Max(c.maxWrite, MIN_MAX_WRITE) <= DEFAULT_MAX_PAGES_PER_REQ * pageSize
  {
  }

  /** A request for 64 pages of 4096 bytes is granted to a kernel that does not offer MAX_PAGES. */
  lemma WriteCapExceeded()
    ensures var c' := Negotiate(DefaultConfig().(maxWrite := 64 * 4096), Compat35(7, 27, 65536, 0), 4096);
            c'.Ok? && MAX_PAGES !in c'.value.flags && c'.value.maxWrite == 64 * 4096
  {
    ZeroHasNoBits(MAX_PAGES);
  }

  /** For a kernel older than 7.4 nothing is clamped: the buffer reaches the minimum if and only if
      the caller configured it so. */
  lemma OldKernelBufferIff(c: Config, i: InitIn, pageSize: nat)
    requires Negotiate(c, i, pageSize).Ok? && i.Compat3?
    ensures RequestBufferSize(Negotiate(c, i, pageSize).value) >= MIN_READ_BUFFER <==> c.maxWrite >= MIN_MAX_WRITE
  {
  }

  /** Both counters of background requests: the threshold never exceeds the maximum, and an
      unspecified threshold becomes three quarters of it if and only if the 16-bit multiplication
      does not wrap. */
  lemma DefaultThresholdIff(c: Config, i: InitIn, pageSize: nat)
    requires ConfigOk(c) && Negotiate(c, i, pageSize).Ok? && !i.Compat3?
    requires Negotiate(c, i, pageSize).value.minor >= 13
    ensures var c' := Negotiate(c, i, pageSize).value;
            && c'.congestionThreshold <= c'.maxBackground == c.maxBackground
            && (c.congestionThreshold == 0 ==>
                  (c'.congestionThreshold == c.maxBackground * 3 / 4 <==> c.maxBackground <= 21845))
  {
  }

  /** The largest 16-bit maximum gets a default threshold of 16383 instead of 49151. */
  lemma ThresholdWraps()
    ensures DefaultThreshold(65535) == 16383 && 65535 * 3 / 4 == 49151
  {
  }

  /** The two sides use the smaller of the two minor versions, under major version 7. */
  lemma VersionRule(c: Config, i: InitIn, pageSize: nat)
    ensures Negotiate(c, i, pageSize).Ok? <==> i.major == 7
    ensures Negotiate(c, i, pageSize) == Err(TooLargeProtocolVersion) <==> i.major > 7
    ensures Negotiate(c, i, pageSize) == Err(TooSmallProtocolVersion) <==> i.major < 7
    ensures Negotiate(c, i, pageSize).Ok? ==>
              && Negotiate(c, i, pageSize).value.major == KERNEL_VERSION
              && Negotiate(c, i, pageSize).value.minor <= i.minor
              && Negotiate(c, i, pageSize).value.minor <= c.minor
              && Negotiate(c, i, pageSize).value.minor in {i.minor, c.minor}
  {
  }

  // Flags.

  lemma SettledMask(asked: Flags, offered: Flags)
    ensures var f := (asked + READ_ONLY) * offered;
            && (f + READ_ONLY) * offered == f
            && ((f - {PASSTHROUGH}) + READ_ONLY) * offered == f - {PASSTHROUGH}
            && (f - {PASSTHROUGH}) - {PASSTHROUGH} == f - {PASSTHROUGH}
  {
  }

  lemma ThresholdStable(threshold: nat, maxBackground: nat)
    ensures ClampedThreshold(ClampedThreshold(threshold, maxBackground), maxBackground)
         == ClampedThreshold(threshold, maxBackground)
  {
  }

  lemma TimeGranStable(requested: nat)
    ensures RoundedTimeGran(RoundedTimeGran(requested)) == RoundedTimeGran(requested)
  {
    SmallPowers();
    Ilog10OfPow10(Ilog10(Max(requested, 1)));
    Ilog10OfPow10(9);
  }

  /** The default configuration against a newer kernel that offers everything and 8000 bytes of
      read-ahead. */
  lemma DefaultNegotiated(i: InitIn, pageSize: nat)
    requires i.Current? && i.major == 7 && i.minor >= 44 && i.maxReadahead == 8000 && OfferedFlags(i) == Known()
    requires 32 <= pageSize < 0x100_0000
    ensures Negotiate(DefaultConfig(), i, pageSize)
         == Ok(Config(7, 44, 8000, 0, 0, 8192 - 80, 1, 32, 0, 0,
                      {3, 12, 17, 24} + {5, 7, 8, 9, 21, 22, 29, 30, 35, 39}))
  {
    var flags := DEFAULT_FLAGS + READ_ONLY;
    assert flags * Known() == flags && flags - {PASSTHROUGH} == flags;
    assert RoundedTimeGran(1) == 1 by {
      assert Ilog10(1) == 0 && Pow10(0) == 1;
    }
  }

  /** Negotiating the settled configuration again with the same INIT changes nothing. */
  lemma NegotiateIdempotent(c: Config, i: InitIn, pageSize: nat)
    requires Negotiate(c, i, pageSize).Ok?
    ensures Negotiate(Negotiate(c, i, pageSize).value, i, pageSize) == Negotiate(c, i, pageSize)
  {
    if !i.Compat3? {
      SettledMask(c.flags, OfferedFlags(i));
      ThresholdStable(c.congestionThreshold, c.maxBackground);
      TimeGranStable(c.timeGran);
      MaxWriteStable(c.maxWrite, pageSize);
    }
  }

  lemma MaxWriteStable(maxWrite: nat, pageSize: nat)
    ensures ClampedMaxWrite(ClampedMaxWrite(maxWrite, pageSize), pageSize) == ClampedMaxWrite(maxWrite, pageSize)
  {
  }

  /** The session's flags are the offered ones that were asked for or are always on, except
      PASSTHROUGH, which needs 7.40 and no write-back cache. */
  lemma FlagsAreAgreed(c: Config, i: InitIn, pageSize: nat, k: nat)
    requires Negotiate(c, i, pageSize).Ok? && !i.Compat3?
    ensures var c' := Negotiate(c, i, pageSize).value;
            k in c'.flags <==>
              && k in OfferedFlags(i) && (k in c.flags || k in READ_ONLY)
              && (k == PASSTHROUGH ==> c'.minor >= 40 && WRITEBACK_CACHE !in c'.flags)
  {
  }

  // The reply.

  datatype InitOut =
    | OutCompat3(major: nat, minor: nat)
    | OutCompat22(major: nat, minor: nat, maxReadahead: nat, flags: nat, maxBackground: nat,
                  congestionThreshold: nat, maxWrite: nat)
    | OutCurrent(major: nat, minor: nat, maxReadahead: nat, flags: nat, maxBackground: nat,
                 congestionThreshold: nat, maxWrite: nat, timeGran: nat, maxPages: nat, flags2: nat,
                 maxStackDepth: nat, requestTimeout: nat)

  function ToOut(c: Config): InitOut {
    if c.minor <= 3 then OutCompat3(c.major, c.minor)
    else if c.minor <= 22 then
      OutCompat22(c.major, c.minor, c.maxReadahead, LowWord(c.flags), c.maxBackground,
                  c.congestionThreshold, c.maxWrite)
    else
      OutCurrent(c.major, c.minor, c.maxReadahead, LowWord(c.flags), c.maxBackground,
                 c.congestionThreshold, c.maxWrite, c.timeGran, c.maxPages,
                 if INIT_EXT in c.flags then HighWord(c.flags) else 0,
                 c.maxStackDepth, c.requestTimeout)
  }

  // The reply on the wire.

  function OutBytes(out: InitOut): seq<byte> {
    match out
    case OutCompat3(major, minor) => LE32(major) + LE32(minor)
    case OutCompat22(major, minor, ra, flags, background, threshold, write) =>
      HeadBytes(major, minor, ra, flags, background, threshold, write)
    case OutCurrent(major, minor, ra, flags, background, threshold, write, gran, pages, flags2, depth, timeout) =>
      HeadBytes(major, minor, ra, flags, background, threshold, write)
      + TailBytes(gran, pages, flags2, depth, timeout)
  }

  function HeadBytes(major: nat, minor: nat, ra: nat, flags: nat, background: nat, threshold: nat, write: nat)
    : (s: seq<byte>)
    ensures |s| == 24
  {
    LE32(major) + LE32(minor) + LE32(ra) + LE32(flags) + LE16(background) + LE16(threshold) + LE32(write)
  }

  function TailBytes(gran: nat, pages: nat, flags2: nat, depth: nat, timeout: nat): (s: seq<byte>)
    ensures |s| == 40
  {
    LE32(gran) + LE16(pages) + LE16(0) + LE32(flags2) + LE32(depth) + LE16(timeout) + seq(22, _ => 0)
  }

  /** The number the kernel finds at an offset of `fuse_init_out`; 0 beyond the end of the reply. */
  function Told(reply: seq<byte>, at: nat, width: nat): nat {
    if at + width <= |reply| then FromLE(reply[at..at + width]) else 0
  }

  lemma HeadIsTold(major: nat, minor: nat, ra: nat, flags: nat, background: nat, threshold: nat, write: nat,
                   tail: seq<byte>)
    requires major < U32 && minor < U32 && ra < U32 && flags < U32 && write < U32
    requires background < U16 && threshold < U16
    ensures var reply := HeadBytes(major, minor, ra, flags, background, threshold, write) + tail;
            && Told(reply, 0, 4) == major && Told(reply, 4, 4) == minor && Told(reply, 8, 4) == ra
            && Told(reply, 12, 4) == flags && Told(reply, 16, 2) == background && Told(reply, 18, 2) == threshold
            && Told(reply, 20, 4) == write
  {
    var reply := HeadBytes(major, minor, ra, flags, background, threshold, write) + tail;
    assert reply[0..4] == LE32(major) && reply[4..8] == LE32(minor) && reply[8..12] == LE32(ra);
    assert reply[12..16] == LE32(flags) && reply[16..18] == LE16(background) && reply[18..20] == LE16(threshold);
    assert reply[20..24] == LE32(write);
    RoundTrip32(major);
    RoundTrip32(minor);
    RoundTrip32(ra);
    RoundTrip32(flags);
    RoundTrip16(background);
    RoundTrip16(threshold);
    RoundTrip32(write);
  }

  lemma TailIsTold(head: seq<byte>, gran: nat, pages: nat, flags2: nat, depth: nat, timeout: nat)
    requires |head| == 24 && gran < U32 && flags2 < U32 && depth < U32 && pages < U16 && timeout < U16
    ensures var reply := head + TailBytes(gran, pages, flags2, depth, timeout);
            && |reply| == 64
            && Told(reply, 24, 4) == gran && Told(reply, 28, 2) == pages && Told(reply, 32, 4) == flags2
            && Told(reply, 36, 4) == depth && Told(reply, 40, 2) == timeout
  {
    var reply := head + TailBytes(gran, pages, flags2, depth, timeout);
    assert reply[24..28] == LE32(gran) && reply[28..30] == LE16(pages) && reply[32..36] == LE32(flags2);
    assert reply[36..40] == LE32(depth) && reply[40..42] == LE16(timeout);
    RoundTrip32(gran);
    RoundTrip16(pages);
    RoundTrip32(flags2);
    RoundTrip32(depth);
    RoundTrip16(timeout);
  }

  lemma WordsFit(s: Flags)
    ensures LowWord(s) < U32 && HighWord(s) < U32
  {
    WordBound(s, 0, 32);
    WordBound(s, 32, 32);
    Pow2Of32();
  }

  lemma Pow2Of32()
    ensures Pow2(32) == U32
  {
    assert Pow2(8) == 256;
    assert Pow2(16) == 256 * Pow2(8);
    assert Pow2(24) == 256 * Pow2(16);
    assert Pow2(32) == 256 * Pow2(24);
  }

  /** Field by field the kernel is told the session's configuration: the version always, read-ahead,
      flags, background limits and write size since 7.4, and the rest since 7.23. */
  lemma ReplyTellsConfig(c: Config)
    requires ConfigOk(c)
    ensures var reply := OutBytes(ToOut(c));
            && |reply| == (if c.minor <= 3 then 8 else if c.minor <= 22 then 24 else 64)
            && Told(reply, 0, 4) == c.major && Told(reply, 4, 4) == c.minor
            && (c.minor > 3 ==>
                  && Told(reply, 8, 4) == c.maxReadahead
                  && BitsOf(Told(reply, 12, 4)) == (set k | k in c.flags && k < 32)
                  && Told(reply, 16, 2) == c.maxBackground && Told(reply, 18, 2) == c.congestionThreshold
                  && Told(reply, 20, 4) == c.maxWrite)
            && (c.minor > 22 ==>
                  && Told(reply, 24, 4) == c.timeGran && Told(reply, 28, 2) == c.maxPages
                  && Told(reply, 36, 4) == c.maxStackDepth && Told(reply, 40, 2) == c.requestTimeout
                  && Told(reply, 32, 4) == if INIT_EXT in c.flags then HighWord(c.flags) else 0)
  {
    LowWordRoundTrip(c.flags);
    WordsFit(c.flags);
    if c.minor <= 3 {
      var reply := LE32(c.major) + LE32(c.minor);
      assert reply[0..4] == LE32(c.major) && reply[4..8] == LE32(c.minor);
      RoundTrip32(c.major);
      RoundTrip32(c.minor);
    } else {
      var head := HeadBytes(c.major, c.minor, c.maxReadahead, LowWord(c.flags), c.maxBackground,
                            c.congestionThreshold, c.maxWrite);
      if c.minor <= 22 {
        HeadIsTold(c.major, c.minor, c.maxReadahead, LowWord(c.flags), c.maxBackground, c.congestionThreshold,
                   c.maxWrite, []);
        assert head + [] == head;
      } else {
        var flags2 := if INIT_EXT in c.flags then HighWord(c.flags) else 0;
        HeadIsTold(c.major, c.minor, c.maxReadahead, LowWord(c.flags), c.maxBackground, c.congestionThreshold,
                   c.maxWrite, TailBytes(c.timeGran, c.maxPages, flags2, c.maxStackDepth, c.requestTimeout));
        TailIsTold(head, c.timeGran, c.maxPages, flags2, c.maxStackDepth, c.requestTimeout);
      }
    }
  }

  lemma NegotiatedFits(c: Config, i: InitIn, pageSize: nat)
    requires ConfigOk(c) && InitInOk(i) && Negotiate(c, i, pageSize).Ok?
    ensures ConfigOk(Negotiate(c, i, pageSize).value)
  {
    if !i.Compat3? {
      LimitsRespected(c, i, pageSize);
    }
  }

  /** The request buffer is never below the kernel's minimum and holds a write of any size up to what the
      kernel was told; that stays within 256 pages. */
  lemma RequestBufferFits(c: Config, i: InitIn, pageSize: nat, payload: nat)
    requires ConfigOk(c) && InitInOk(i) && Negotiate(c, i, pageSize).Ok? && !i.Compat3?
    requires 32 <= pageSize < 0x100_0000
    ensures var c' := Negotiate(c, i, pageSize).value;
            var told := Told(OutBytes(ToOut(c')), 20, 4);
            && RequestBufferSize(c') >= MIN_READ_BUFFER
            && MIN_MAX_WRITE <= c'.maxWrite <= MAX_MAX_PAGES * pageSize
            && (payload <= told ==> 40 + 40 + payload <= RequestBufferSize(c'))
            && (c'.minor > 3 ==> told == c'.maxWrite)
  {
    NegotiatedFits(c, i, pageSize);
    ReplyTellsConfig(Negotiate(c, i, pageSize).value);
  }

  /** The flags the kernel takes from the reply: none before 7.5, and the second word counts only under
      INIT_EXT. */
  function FlagsRead(out: InitOut): Flags {
    match out
    case OutCompat3(_, _) => {}
    case OutCompat22(_, minor, _, flags, _, _, _) => if minor <= 4 then {} else BitsOf(flags)
    case OutCurrent(_, _, _, flags, _, _, _, _, _, flags2, _, _) =>
      if INIT_EXT in BitsOf(flags) then BitsOf(flags) + Raised(BitsOf(flags2)) else BitsOf(flags)
  }

  predicate HasHighFlags(s: Flags) {
    exists k :: k in s && k >= 32
  }

  /** The kernel reads the session's flags from the reply if and only if the reply's layout can carry
      them: there are no high flags, or there are and the reply is long enough and marked INIT_EXT;
      before 7.5 there must be no flags at all. */
  lemma FlagsReadIff(c: Config)
    requires forall k :: k in c.flags ==> k < 64
    ensures FlagsRead(ToOut(c)) == c.flags <==>
              if c.minor <= 4 then c.flags == {}
              else HasHighFlags(c.flags) ==> c.minor > 22 && INIT_EXT in c.flags
  {
    LowWordRoundTrip(c.flags);
    HighWordRoundTrip(c.flags);
    var low, high := set k | k in c.flags && k < 32, set k | k in c.flags && k >= 32;
    assert c.flags == low + high;
    if HasHighFlags(c.flags) {
      var k :| k in c.flags && k >= 32;
      assert k in high && k !in low;
    } else {
      assert high == {};
    }
  }

  lemma OfferedWithoutHighWord(i: InitIn, k: nat)
    requires i.Compat35? || (i.Current? && i.flags2 == 0)
    requires k in OfferedFlags(i)
    ensures k < 32
  {
    if i.Current? {
      forall j: nat | j < 32 ensures !Bit(0, j) {
        ZeroHasNoBits(j);
      }
      assert BitsOf(0) == {};
    }
  }

  lemma {:induction false} ZeroHasNoBits(k: nat)
    ensures !Bit(0, k)
  {
    if k > 0 {
      ZeroHasNoBits(k - 1);
    }
  }

  /** With the default minor version and a kernel that uses the second flag word only together with
      INIT_EXT, the flags in force on the two sides are the same. */
  lemma FlagsAgree(c: Config, i: InitIn, pageSize: nat)
    requires c.minor == KERNEL_MINOR_VERSION && InitInOk(i) && !i.Compat3?
    requires Negotiate(c, i, pageSize).Ok?
    requires i.Current? ==> i.flags2 == 0 || INIT_EXT in BitsOf(i.flags)
    ensures FlagsRead(ToOut(Negotiate(c, i, pageSize).value)) == Negotiate(c, i, pageSize).value.flags
  {
    var c' := Negotiate(c, i, pageSize).value;
    FlagsReadIff(c');
    if HasHighFlags(c'.flags) {
      var k :| k in c'.flags && k >= 32;
      if i.Compat35? || i.flags2 == 0 {
        OfferedWithoutHighWord(i, k);
      }
    }
  }
}
