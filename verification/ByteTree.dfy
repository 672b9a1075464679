/** Scattered reply data: a tree of byte chunks that must be written in a single vectored write. */
module ByteTree {
  import opened Prelude
  import opened Wire

  /** The values built from the crate's `Bytes` implementations. */
  datatype Bytes =
    | Unit                      // ()
    | Raw(bytes: seq<byte>)     // [u8], [u8; N], str, String, Vec<u8>, Cow, OsStr, OsString
    | CString(text: seq<byte>)  // CStr, CString: the text and its terminator
    | Pod(bytes: seq<byte>)     // POD<T>
    | Group(parts: seq<Bytes>)  // tuples, arrays, slices, Vec<R>
    | Absent                    // None
    | Present(inner: Bytes)     // Some
    | Left(inner: Bytes)        // Either
    | Right(inner: Bytes)
    | Ref(inner: Bytes)         // &R, &mut R, Box, Rc, Arc

  /** The data itself, as one byte string. */
  function Flat(b: Bytes): seq<byte> {
    match b
    case Unit => []
    case Raw(bytes) => bytes
    case CString(text) => text + [0]
    case Pod(bytes) => bytes
    case Group(parts) => FlatAll(parts)
    case Absent => []
    case Present(inner) => Flat(inner)
    case Left(inner) => Flat(inner)
    case Right(inner) => Flat(inner)
    case Ref(inner) => Flat(inner)
  }

  function FlatAll(parts: seq<Bytes>): seq<byte> {
    if parts == [] then [] else Flat(parts[0]) + FlatAll(parts[1..])
  }

  /** `size()`. */
  function Size(b: Bytes): nat {
    match b
    case Unit => 0
    case Raw(bytes) => |bytes|
    case CString(text) => |text| + 1
    case Pod(bytes) => |bytes|
    case Group(parts) => SizeAll(parts)
    case Absent => 0
    case Present(inner) => Size(inner)
    case Left(inner) => Size(inner)
    case Right(inner) => Size(inner)
    case Ref(inner) => Size(inner)
  }

  function SizeAll(parts: seq<Bytes>): nat {
    if parts == [] then 0 else Size(parts[0]) + SizeAll(parts[1..])
  }

  /** `count()`: empty raw data counts no chunk, plain structs and C strings always one. */
  function Count(b: Bytes): nat {
    match b
    case Unit => 0
    case Raw(bytes) => if bytes == [] then 0 else 1
    case CString(_) => 1
    case Pod(_) => 1
    case Group(parts) => CountAll(parts)
    case Absent => 0
    case Present(inner) => Count(inner)
    case Left(inner) => Count(inner)
    case Right(inner) => Count(inner)
    case Ref(inner) => Count(inner)
  }

  function CountAll(parts: seq<Bytes>): nat {
    if parts == [] then 0 else Count(parts[0]) + CountAll(parts[1..])
  }

  function Concat(chunks: seq<seq<byte>>): seq<byte> {
    if chunks == [] then [] else chunks[0] + Concat(chunks[1..])
  }

  lemma {:induction false} ConcatAppend(a: seq<seq<byte>>, b: seq<seq<byte>>)
    ensures Concat(a + b) == Concat(a) + Concat(b)
  {
    if a == [] {
      assert a + b == b;
    } else {
      ConcatAppend(a[1..], b);
      TailOfConcat(a, b);
      Assoc(a[0], Concat(a[1..]), Concat(b));
    }
  }

  /** `size()` is the length of the data. */
  lemma {:induction false} SizeIsLength(b: Bytes)
    ensures Size(b) == |Flat(b)|
  {
    match b {
      case Group(parts) => SizeAllIsLength(parts);
      case Present(inner) => SizeIsLength(inner);
      case Left(inner) => SizeIsLength(inner);
      case Right(inner) => SizeIsLength(inner);
      case Ref(inner) => SizeIsLength(inner);
      case _ =>
    }
  }

  lemma {:induction false} SizeAllIsLength(parts: seq<Bytes>)
    ensures SizeAll(parts) == |FlatAll(parts)|
  {
    if parts != [] {
      SizeIsLength(parts[0]);
      SizeAllIsLength(parts[1..]);
    }
  }

  /** The zero-count shortcut of `write_bytes` skips only empty data. */
  lemma {:induction false} ZeroCountIsEmpty(b: Bytes)
    requires Count(b) == 0
    ensures Flat(b) == []
  {
    match b {
      case Group(parts) => ZeroCountAllEmpty(parts);
      case Present(inner) => ZeroCountIsEmpty(inner);
      case Left(inner) => ZeroCountIsEmpty(inner);
      case Right(inner) => ZeroCountIsEmpty(inner);
      case Ref(inner) => ZeroCountIsEmpty(inner);
      case _ =>
    }
  }

  lemma {:induction false} ZeroCountAllEmpty(parts: seq<Bytes>)
    requires CountAll(parts) == 0
    ensures FlatAll(parts) == []
  {
    if parts != [] {
      ZeroCountIsEmpty(parts[0]);
      ZeroCountAllEmpty(parts[1..]);
    }
  }

  lemma {:induction false} FlatAllAppend(a: seq<Bytes>, b: seq<Bytes>)
    ensures FlatAll(a + b) == FlatAll(a) + FlatAll(b)
  {
    if a == [] {
      assert a + b == b;
    } else {
      FlatAllAppend(a[1..], b);
      TailOfConcat(a, b);
      Assoc(Flat(a[0]), FlatAll(a[1..]), FlatAll(b));
    }
  }

  lemma {:induction false} CountAllAppend(a: seq<Bytes>, b: seq<Bytes>)
    ensures CountAll(a + b) == CountAll(a) + CountAll(b)
  {
    if a == [] {
      assert a + b == b;
    } else {
      CountAllAppend(a[1..], b);
      TailOfConcat(a, b);
    }
  }

  lemma OnePart(a: Bytes)
    ensures FlatAll([a]) == Flat(a) && CountAll([a]) == Count(a)
  {
    assert [a][1..] == [];
    assert FlatAll([a]) == Flat(a) + FlatAll([]);
    assert Flat(a) + [] == Flat(a);
  }

  lemma FlatTwo(a: Bytes, b: Bytes)
    ensures Flat(Group([a, b])) == Flat(a) + Flat(b)
    ensures Count(Group([a, b])) == Count(a) + Count(b)
  {
    OnePart(b);
    assert [a, b][1..] == [b];
  }

  lemma FlatThree(a: Bytes, b: Bytes, c: Bytes)
    ensures Flat(Group([a, b, c])) == Flat(a) + (Flat(b) + Flat(c))
  {
    FlatTwo(b, c);
    assert [a, b, c][1..] == [b, c];
  }

  // Filling the uninitialised slot array.

  /** The slots `[from, to)` are initialised. */
  ghost predicate Filled(vec: seq<Option<seq<byte>>>, from: nat, to: nat) {
    from <= to <= |vec| && forall k :: from <= k < to ==> vec[k].Some?
  }

  /** The chunks in the slots `[from, to)`. */
  ghost function Slots(vec: seq<Option<seq<byte>>>, from: nat, to: nat): (r: seq<seq<byte>>)
    requires Filled(vec, from, to)
    ensures |r| == to - from
  {
    seq(to - from, k requires 0 <= k < to - from => vec[from + k].value)
  }

  lemma SlotsSplit(vec: seq<Option<seq<byte>>>, from: nat, mid: nat, to: nat)
    requires Filled(vec, from, mid) && Filled(vec, mid, to)
    ensures Filled(vec, from, to)
    ensures Concat(Slots(vec, from, to)) == Concat(Slots(vec, from, mid)) + Concat(Slots(vec, mid, to))
  {
    assert Slots(vec, from, to) == Slots(vec, from, mid) + Slots(vec, mid, to);
    ConcatAppend(Slots(vec, from, mid), Slots(vec, mid, to));
  }

  /** `FillWriteBytes`: `None` is an uninitialised slot. */
  class FillWriteBytes {
    const vec: array<Option<seq<byte>>>
    var offset: nat

    constructor (vec: array<Option<seq<byte>>>)
      ensures this.vec == vec && offset == 0
    {
      this.vec := vec;
      offset := 0;
    }

    /** The index has to be in range: the source would panic otherwise. */
    method Put(chunk: seq<byte>)
      requires offset < vec.Length
      modifies this, vec
      ensures offset == old(offset) + 1
      ensures vec[..] == old(vec[..])[old(offset) := Some(chunk)]
    {
      vec[offset] := Some(chunk);
      offset := offset + 1;
    }
  }

  lemma OneSlot(vec: seq<Option<seq<byte>>>, k: nat)
    requires k < |vec| && vec[k].Some?
    ensures Filled(vec, k, k + 1) && Concat(Slots(vec, k, k + 1)) == vec[k].value
  {
    assert Slots(vec, k, k + 1) == [vec[k].value];
    assert Concat([vec[k].value]) == vec[k].value + Concat([]);
  }

  /** `fill_bytes`: exactly `count()` puts, in order, whose chunks make up the data. No other slot is
      touched, and no index is out of range as long as `count()` slots are left. */
  method FillBytes(b: Bytes, dst: FillWriteBytes)
    requires dst.offset + Count(b) <= dst.vec.Length
    modifies dst, dst.vec
    ensures dst.offset == old(dst.offset) + Count(b)
    ensures dst.vec[..old(dst.offset)] == old(dst.vec[..dst.offset])
    ensures Filled(dst.vec[..], old(dst.offset), dst.offset)
    ensures Concat(Slots(dst.vec[..], old(dst.offset), dst.offset)) == Flat(b)
    decreases b
  {
    match b {
      case Unit =>
      case Absent =>
      case Raw(bytes) =>
        if bytes != [] {
          dst.Put(bytes);
          OneSlot(dst.vec[..], old(dst.offset));
        }
      case Pod(bytes) =>
        dst.Put(bytes);
        OneSlot(dst.vec[..], old(dst.offset));
      case CString(text) =>
        dst.Put(text + [0]);
        OneSlot(dst.vec[..], old(dst.offset));
      case Present(inner) => FillBytes(inner, dst);
      case Left(inner) => FillBytes(inner, dst);
      case Right(inner) => FillBytes(inner, dst);
      case Ref(inner) => FillBytes(inner, dst);
      case Group(parts) => FillParts(parts, dst);
    }
  }

  /** The slots `[from, to)` are initialised and their chunks make up `flat`. */
  ghost predicate Carries(vec: seq<Option<seq<byte>>>, from: nat, to: nat, flat: seq<byte>) {
    Filled(vec, from, to) && Concat(Slots(vec, from, to)) == flat
  }

  /** The loop over the parts of a tuple, slice or vector. */
  method FillParts(parts: seq<Bytes>, dst: FillWriteBytes)
    requires dst.offset + CountAll(parts) <= dst.vec.Length
    modifies dst, dst.vec
    ensures dst.offset == old(dst.offset) + CountAll(parts)
    ensures dst.vec[..old(dst.offset)] == old(dst.vec[..dst.offset])
    ensures Filled(dst.vec[..], old(dst.offset), dst.offset)
    ensures Concat(Slots(dst.vec[..], old(dst.offset), dst.offset)) == FlatAll(parts)
    decreases parts
  {
    var k := 0;
    while k < |parts|
      invariant k <= |parts|
      invariant dst.offset == old(dst.offset) + CountAll(parts[..k])
      invariant dst.offset + CountAll(parts[k..]) <= dst.vec.Length
      invariant dst.vec[..old(dst.offset)] == old(dst.vec[..dst.offset])
      invariant Carries(dst.vec[..], old(dst.offset), dst.offset, FlatAll(parts[..k]))
    {
      PartsStep(parts, k);
      ghost var before, mid := dst.vec[..], dst.offset;
      FillBytes(parts[k], dst);
      Extended(before, dst.vec[..], old(dst.offset), mid, dst.offset, FlatAll(parts[..k]), Flat(parts[k]));
      k := k + 1;
    }
    assert parts[..k] == parts;
  }

  lemma Extended(before: seq<Option<seq<byte>>>, after: seq<Option<seq<byte>>>, from: nat, mid: nat, to: nat,
                 front: seq<byte>, back: seq<byte>)
    requires Carries(before, from, mid, front) && Carries(after, mid, to, back)
    requires |before| == |after| && after[..mid] == before[..mid]
    ensures Carries(after, from, to, front + back)
    ensures after[..from] == before[..from]
  {
    forall k | 0 <= k < mid ensures after[k] == before[k] {
      assert after[..mid][k] == before[..mid][k];
    }
    assert Slots(after, from, mid) == Slots(before, from, mid);
    SlotsSplit(after, from, mid, to);
  }

  lemma PartsStep(parts: seq<Bytes>, k: nat)
    requires k < |parts|
    ensures FlatAll(parts[..k + 1]) == FlatAll(parts[..k]) + Flat(parts[k])
    ensures CountAll(parts[..k + 1]) == CountAll(parts[..k]) + Count(parts[k])
    ensures CountAll(parts[k..]) == Count(parts[k]) + CountAll(parts[k + 1..])
  {
    assert parts[..k + 1] == parts[..k] + [parts[k]];
    FlatAllAppend(parts[..k], [parts[k]]);
    CountAllAppend(parts[..k], [parts[k]]);
    OnePart(parts[k]);
  }

  /** A writer logs the vectored writes it gets; `answer` is what the system says to each. */
  class Writer {
    var log: seq<seq<seq<byte>>>

    constructor ()
      ensures log == []
    {
      log := [];
    }

    method WriteVectored(slices: seq<seq<byte>>, answer: Result<nat, Errno>) returns (r: Result<nat, Errno>)
      modifies this
      ensures log == old(log) + [slices] && r == answer
    {
      log := log + [slices];
      return answer;
    }
  }

  /** What becomes of a write of `len` bytes: the system's error, an error of its own when not all was
      taken, or success. */
  function WriteResult(answer: Result<nat, Errno>, len: nat): Result<(), Errno> {
    match answer
    case Err(e) => Err(e)
    case Ok(n) => if n < len then Err(IO) else Ok(())
  }

  /** The log has grown by one write. */
  predicate OneMore(before: seq<seq<seq<byte>>>, after: seq<seq<seq<byte>>>) {
    |after| == |before| + 1 && after[..|before|] == before
  }

  function Last(log: seq<seq<seq<byte>>>): seq<seq<byte>>
    requires log != []
  {
    log[|log| - 1]
  }

  /** `write_bytes`: one vectored write whose slices make up the data, or none at all when there is
      nothing to write. Every slot handed to the system is initialised. */
  method WriteBytes(writer: Writer, b: Bytes, answer: Result<nat, Errno>) returns (r: Result<(), Errno>)
    modifies writer
    ensures Count(b) == 0 ==> writer.log == old(writer.log) && r == Ok(()) && Flat(b) == []
    ensures Count(b) > 0 ==>
              && OneMore(old(writer.log), writer.log)
              && Concat(Last(writer.log)) == Flat(b) && |Last(writer.log)| == Count(b)
    ensures Count(b) > 0 ==> r == WriteResult(answer, |Flat(b)|)
  {
    SizeIsLength(b);
    var size := Size(b);
    var count := Count(b);
    if count == 0 {
      ZeroCountIsEmpty(b);
      return Ok(());
    }
    var vec := new Option<seq<byte>>[count](_ => None);
    var dst := new FillWriteBytes(vec);
    FillBytes(b, dst);
    var filled := vec[..];
    assert Filled(filled, 0, count);
    var slices := seq(count, k requires 0 <= k < |filled| && filled[k].Some? => filled[k].value);
    assert slices == Slots(filled, 0, count);
    var written := writer.WriteVectored(slices, answer);
    if written.Err? {
      return Err(written.error);
    }
    if written.value < size {
      return Err(IO);
    }
    return Ok(());
  }
}
