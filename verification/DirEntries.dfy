/** The packed directory buffer of a READDIR reply (`DirEntryBuf`) and the kernel's walk over it. */
module DirEntries {
  import opened Prelude
  import opened Wire

  const DOT: Name := [46]
  const DOT_DOT: Name := [46, 46]

  datatype FileType = Regular | Directory | CharacterDevice | BlockDevice | SymbolicLink | Fifo | Socket

  datatype DirEntry = DirEntry(name: Name, ino: nat, typ: Option<FileType>, off: nat)

  /** `size_of::<fuse_dirent>()`, also FUSE_NAME_OFFSET. */
  const DIRENT_HEADER: nat := 24

  /** The source's alignment of a record length to 64 bits. */
  function AlignedBits(len: bv64): bv64 {
    (len + 7) & !7
  }

  /** The same on natural numbers: the least multiple of 8 that is at least `len`. */
  function Aligned(len: nat): (r: nat)
    ensures r % 8 == 0 && len <= r < len + 8
  {
    (len + 7) / 8 * 8
  }

  lemma AlignedBitsIsRounding(len: bv64)
    requires len <= 0xFFFF_FFFF_FFFF_FFF0
    ensures AlignedBits(len) % 8 == 0
    ensures len <= AlignedBits(len) < len + 8
  {
  }

  /** The `d_type` code of a file type. */
  function TypeCode(typ: Option<FileType>): nat {
    match typ
    case None => 0
    case Some(Fifo) => 1
    case Some(CharacterDevice) => 2
    case Some(Directory) => 4
    case Some(BlockDevice) => 6
    case Some(Regular) => 8
    case Some(SymbolicLink) => 10
    case Some(Socket) => 12
  }

  /** What the kernel reads from a `d_type` code. */
  function TypeOfCode(code: nat): Option<FileType> {
    if code == 1 then Some(Fifo)
    else if code == 2 then Some(CharacterDevice)
    else if code == 4 then Some(Directory)
    else if code == 6 then Some(BlockDevice)
    else if code == 8 then Some(Regular)
    else if code == 10 then Some(SymbolicLink)
    else if code == 12 then Some(Socket)
    else None
  }

  /** The `d_type` numbers of the C library. */
  lemma TypeCodes()
    ensures TypeCode(Some(Regular)) == 8 && TypeCode(Some(Directory)) == 4 && TypeCode(Some(SymbolicLink)) == 10
    ensures TypeCode(Some(CharacterDevice)) == 2 && TypeCode(Some(BlockDevice)) == 6
    ensures TypeCode(Some(Fifo)) == 1 && TypeCode(Some(Socket)) == 12 && TypeCode(None) == 0
  {
  }

  function Zeros(n: nat): (s: seq<byte>)
    ensures |s| == n
  {
    seq(n, _ => 0)
  }

  function RecordSize(e: DirEntry): (r: nat)
    ensures r % 8 == 0 && r >= DIRENT_HEADER
  {
    Aligned(DIRENT_HEADER + |e.name|)
  }

  function Header(e: DirEntry): (s: seq<byte>)
    ensures |s| == DIRENT_HEADER
  {
    LE64(e.ino) + LE64(e.off) + LE32(|e.name|) + LE32(TypeCode(e.typ))
  }

  function Record(e: DirEntry): (s: seq<byte>)
    ensures |s| == RecordSize(e)
  {
    Header(e) + e.name + Zeros(RecordSize(e) - DIRENT_HEADER - |e.name|)
  }

  function Packed(es: seq<DirEntry>): seq<byte> {
    if es == [] then [] else Packed(es[..|es| - 1]) + Record(es[|es| - 1])
  }

  lemma Mod8Sum(a: nat, b: nat)
    requires a % 8 == 0 && b % 8 == 0
    ensures (a + b) % 8 == 0
  {
  }

  lemma {:induction false} PackedAligned(es: seq<DirEntry>)
    ensures |Packed(es)| % 8 == 0
  {
    if es != [] {
      PackedAligned(es[..|es| - 1]);
      Mod8Sum(|Packed(es[..|es| - 1])|, RecordSize(es[|es| - 1]));
    }
  }

  /** The fields of the record fit their wire widths. */
  predicate Encodable(e: DirEntry) {
    e.ino < U64 && e.off < U64 && |e.name| < U32
  }

  predicate AllEncodable(es: seq<DirEntry>) {
    forall k :: 0 <= k < |es| ==> Encodable(es[k])
  }

  /** The kernel's walk over a directory reply, by the FUSE_DIRENT_SIZE rule of linux/fuse.h. */
  function Walk(buf: seq<byte>): seq<DirEntry> {
    if |buf| < DIRENT_HEADER then []
    else
      var namelen := FromLE(buf[16..20]);
      var reclen := Aligned(DIRENT_HEADER + namelen);
      if reclen > |buf| then []
      else
        var e := DirEntry(buf[24..24 + namelen], FromLE(buf[..8]), TypeOfCode(FromLE(buf[20..24])), FromLE(buf[8..16]));
        [e] + Walk(buf[reclen..])
  }

  lemma HeaderFields(e: DirEntry)
    requires Encodable(e)
    ensures FromLE(Header(e)[..8]) == e.ino
    ensures FromLE(Header(e)[8..16]) == e.off
    ensures FromLE(Header(e)[16..20]) == |e.name|
    ensures TypeOfCode(FromLE(Header(e)[20..24])) == e.typ
  {
    var h := Header(e);
    assert h[..8] == LE64(e.ino);
    assert h[8..16] == LE64(e.off);
    assert h[16..20] == LE32(|e.name|);
    assert h[20..24] == LE32(TypeCode(e.typ));
    RoundTrip64(e.ino);
    RoundTrip64(e.off);
    RoundTrip32(|e.name|);
    RoundTrip32(TypeCode(e.typ));
  }

  lemma WalkOneRecord(e: DirEntry, rest: seq<byte>)
    requires Encodable(e)
    ensures Walk(Record(e) + rest) == [e] + Walk(rest)
  {
    var buf := Record(e) + rest;
    HeaderFields(e);
    assert buf[..8] == Header(e)[..8];
    assert buf[8..16] == Header(e)[8..16];
    assert buf[16..20] == Header(e)[16..20];
    assert buf[20..24] == Header(e)[20..24];
    assert buf[24..24 + |e.name|] == e.name;
    assert buf[RecordSize(e)..] == rest;
  }

  lemma {:induction false} PackedCons(es: seq<DirEntry>)
    requires es != []
    ensures Packed(es) == Record(es[0]) + Packed(es[1..])
  {
    if |es| > 1 {
      var front, last := es[..|es| - 1], es[|es| - 1];
      PackedCons(front);
      assert front[0] == es[0] && front[1..] == es[1..][..|es[1..]| - 1];
      Assoc(Record(es[0]), Packed(front[1..]), Record(last));
    } else {
      assert es[..0] == [] && es[1..] == [];
    }
  }

  /** Walking the packed buffer gives back exactly the packed entries, in order. */
  lemma {:induction false} WalkOfPacked(es: seq<DirEntry>)
    requires AllEncodable(es)
    ensures Walk(Packed(es)) == es
  {
    if es != [] {
      PackedCons(es);
      WalkOneRecord(es[0], Packed(es[1..]));
      WalkOfPacked(es[1..]);
    }
  }

  /** `es[..Fitting(es, cap)]` is what a reader that stops at the first refusal gets into a buffer
      of `cap` bytes. */
  function Fitting(es: seq<DirEntry>, cap: nat): (n: nat)
    ensures n <= |es|
  {
    if es == [] || RecordSize(es[0]) > cap then 0
    else 1 + Fitting(es[1..], cap - RecordSize(es[0]))
  }

  /** It is as many as fit: a front of the entries fits if and only if it is no longer. */
  lemma {:induction false} FittingIsMaximal(es: seq<DirEntry>, cap: nat, n: nat)
    requires n <= |es|
    ensures |Packed(es[..n])| <= cap <==> n <= Fitting(es, cap)
  {
    if n > 0 {
      var front := es[..n];
      PackedCons(front);
      assert front[0] == es[0] && front[1..] == es[1..][..n - 1];
      if RecordSize(es[0]) <= cap {
        FittingIsMaximal(es[1..], cap - RecordSize(es[0]), n - 1);
      }
    }
  }

  /** The entries accepted from any sequence of pushes, refused ones simply skipped. */
  function Accepted(pushes: seq<DirEntry>, cap: nat): seq<DirEntry> {
    if pushes == [] then []
    else
      var before := Accepted(pushes[..|pushes| - 1], cap);
      var e := pushes[|pushes| - 1];
      if |Packed(before)| + RecordSize(e) <= cap then before + [e] else before
  }

  /** After any sequence of pushes the buffer is within its capacity and 8-aligned, and the kernel
      recovers exactly the accepted entries, in order. */
  lemma {:induction false} AnyPushesWalkBack(pushes: seq<DirEntry>, cap: nat)
    requires AllEncodable(pushes)
    ensures |Packed(Accepted(pushes, cap))| <= cap && |Packed(Accepted(pushes, cap))| % 8 == 0
    ensures AllEncodable(Accepted(pushes, cap))
    ensures Walk(Packed(Accepted(pushes, cap))) == Accepted(pushes, cap)
  {
    if pushes != [] {
      AnyPushesWalkBack(pushes[..|pushes| - 1], cap);
      var before := Accepted(pushes[..|pushes| - 1], cap);
      var e := pushes[|pushes| - 1];
      assert (before + [e])[..|before|] == before;
    }
    WalkOfPacked(Accepted(pushes, cap));
    PackedAligned(Accepted(pushes, cap));
  }

  class DirEntryBuf {
    var buf: seq<byte>
    const capacity: nat
    /** The entries accepted so far. */
    ghost var entries: seq<DirEntry>

    ghost predicate Valid()
      reads this
    {
      && buf == Packed(entries)
      && |buf| <= capacity
    }

    constructor (capacity: nat)
      ensures Valid() && this.capacity == capacity && entries == []
    {
      this.capacity := capacity;
      buf := [];
      entries := [];
    }

    /** Returns true when the entry was refused. The only demand on the caller is that a name
        that does fit has a length that fits `namelen`. */
    method PushEntry(e: DirEntry) returns (full: bool)
      requires Valid()
      requires |buf| + RecordSize(e) <= capacity ==> |e.name| < U32
      modifies this
      ensures Valid()
      ensures full <==> |old(buf)| + RecordSize(e) > capacity
      ensures entries == if full then old(entries) else old(entries) + [e]
      ensures buf == if full then old(buf) else old(buf) + Record(e)
    {
      var remaining := capacity - |buf|;
      var entrySize := DIRENT_HEADER + |e.name|;
      var alignedEntrySize := Aligned(entrySize);
      if remaining < alignedEntrySize {
        return true;
      }
      var lenBefore := |buf|;
      ghost var before := buf;
      buf := buf + Header(e);
      buf := buf + e.name;
      buf := buf + Zeros(lenBefore + alignedEntrySize - |buf|);
      entries := entries + [e];
      assert entries[..|entries| - 1] == old(entries);
      assert buf == before + Record(e);
      return false;
    }
  }

  /** Pushing entry after entry, whatever is refused on the way, accepts what `Accepted` says. */
  method PushAll(pushes: seq<DirEntry>, capacity: nat) returns (out: DirEntryBuf)
    requires capacity < U32
    ensures out.Valid() && out.capacity == capacity && out.entries == Accepted(pushes, capacity)
    ensures out.buf == Packed(Accepted(pushes, capacity))
  {
    out := new DirEntryBuf(capacity);
    for k := 0 to |pushes|
      invariant out.Valid() && out.capacity == capacity && fresh(out)
      invariant out.entries == Accepted(pushes[..k], capacity)
    {
      assert pushes[..k + 1][..k] == pushes[..k];
      var _ := out.PushEntry(pushes[k]);
    }
    assert pushes[..|pushes|] == pushes;
  }
}
