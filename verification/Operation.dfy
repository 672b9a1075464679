/** Decoding requests: the argument layouts, the kernel's encoding of them, and the choice of layout
    on both sides after the negotiation. */
module Operation {
  import opened Prelude
  import opened Wire
  import opened Forgets
  import opened Init
  import Framing

  datatype DecodeError = UnexpectedEof | MissingNulCharacter | InvalidNodeID

  // The cursor.

  /** The next `n` bytes and the bytes after them. */
  function TakeBytes(bytes: seq<byte>, n: nat): Result<(seq<byte>, seq<byte>), DecodeError> {
    if |bytes| < n then Err(UnexpectedEof) else Ok((bytes[..n], bytes[n..]))
  }

  /** The position of the first NUL, or the length. */
  function NulAt(bytes: seq<byte>): (k: nat)
    ensures k <= |bytes|
  {
    if bytes == [] || bytes[0] == 0 then 0 else 1 + NulAt(bytes[1..])
  }

  function TakeStr(bytes: seq<byte>): Result<(Name, seq<byte>), DecodeError> {
    var k := NulAt(bytes);
    if k == |bytes| then Err(MissingNulCharacter) else Ok((bytes[..k], bytes[k + 1..]))
  }

  lemma {:induction false} NulAtIsFirst(bytes: seq<byte>)
    ensures 0 !in bytes[..NulAt(bytes)]
    ensures NulAt(bytes) < |bytes| ==> bytes[NulAt(bytes)] == 0
  {
    if bytes != [] && bytes[0] != 0 {
      NulAtIsFirst(bytes[1..]);
      var k := NulAt(bytes);
      assert bytes[..k] == [bytes[0]] + bytes[1..][..k - 1];
    }
  }

  lemma {:induction false} NulAfterName(name: Name, rest: seq<byte>)
    requires 0 !in name
    ensures NulAt(name + [0] + rest) == |name|
  {
    var bytes := name + [0] + rest;
    if name != [] {
      assert name[0] in name;
      assert bytes[1..] == name[1..] + [0] + rest;
      NulAfterName(name[1..], rest);
    }
  }

  /** A string is fetched exactly when it is there: NUL-free, terminated, and the cursor stands right
      behind the terminator. */
  lemma TakeStrIff(bytes: seq<byte>, name: Name, rest: seq<byte>)
    ensures TakeStr(bytes) == Ok((name, rest)) <==> bytes == name + [0] + rest && 0 !in name
  {
    if bytes == name + [0] + rest && 0 !in name {
      NulAfterName(name, rest);
      assert bytes[..|name|] == name && bytes[|name| + 1..] == rest;
    }
    if TakeStr(bytes) == Ok((name, rest)) {
      NulAtIsFirst(bytes);
      var k := NulAt(bytes);
      assert bytes == bytes[..k] + [bytes[k]] + bytes[k + 1..];
    }
  }

  /** `Decoder`: a cursor over the argument bytes. */
  class Decoder {
    var bytes: seq<byte>

    constructor (bytes: seq<byte>)
      ensures this.bytes == bytes
    {
      this.bytes := bytes;
    }

    method FetchBytes(count: nat) returns (r: Result<seq<byte>, DecodeError>)
      modifies this
      ensures match TakeBytes(old(bytes), count)
              case Ok((taken, rest)) => r == Ok(taken) && bytes == rest
              case Err(e) => r == Err(e) && bytes == old(bytes)
    {
      if |bytes| < count {
        return Err(UnexpectedEof);
      }
      var taken := bytes[..count];
      bytes := bytes[count..];
      return Ok(taken);
    }

    /** Finds the terminator by scanning; the string is everything before it. */
    method FetchStr() returns (r: Result<Name, DecodeError>)
      modifies this
      ensures r.Ok? <==> 0 in old(bytes)
      ensures r.Ok? ==> old(bytes) == r.value + [0] + bytes && 0 !in r.value
      ensures r.Err? ==> r.error == MissingNulCharacter && bytes == old(bytes)
      ensures match TakeStr(old(bytes))
              case Ok((name, rest)) => r == Ok(name) && bytes == rest
              case Err(e) => r == Err(e)
    {
      var len := 0;
      while len < |bytes| && bytes[len] != 0
        invariant len <= |bytes| && bytes == old(bytes)
        invariant 0 !in bytes[..len]
      {
        assert bytes[..len + 1] == bytes[..len] + [bytes[len]];
        len := len + 1;
      }
      NulAtIsFirst(bytes);
      if len == |bytes| {
        assert bytes[..len] == bytes;
        return Err(MissingNulCharacter);
      }
      var name := bytes[..len];
      TakeStrIff(bytes, name, bytes[len + 1..]);
      assert bytes == name + [0] + bytes[len + 1..];
      var taken := FetchBytes(len + 1);
      assert taken.value[..len] == name;
      return Ok(name);
    }
  }

  // Requests.

  const FUSE_LOOKUP: nat := 1
  const FUSE_FORGET: nat := 2
  const FUSE_SYMLINK: nat := 6
  const FUSE_MKNOD: nat := 8
  const FUSE_MKDIR: nat := 9
  const FUSE_UNLINK: nat := 10
  const FUSE_RMDIR: nat := 11
  const FUSE_RENAME: nat := 12
  const FUSE_LINK: nat := 13
  const FUSE_SETXATTR: nat := 21
  const FUSE_GETXATTR: nat := 22
  const FUSE_REMOVEXATTR: nat := 24
  const FUSE_CREATE: nat := 35
  const FUSE_BATCH_FORGET: nat := 42
  const FUSE_RENAME2: nat := 45

  /** The flag bits each operation declares; others are dropped on decoding. */
  const RENAME_FLAGS: Flags := {0, 1, 2}
  const WRITE_FLAGS: Flags := {0, 2}
  const SETXATTR_FLAGS: Flags := {0}
  const WRITE_LOCKOWNER: nat := 1

  /** The permission bits 0o777, and with the set-id and sticky bits 0o7777. */
  const PERMISSIONS: Flags := {0, 1, 2, 3, 4, 5, 6, 7, 8}
  const MODE_BITS: Flags := PERMISSIONS + {9, 10, 11}

  /** The decoded requests whose argument holds names or items, or depends on the negotiated version. */
  datatype Op =
    | Lookup(parent: nat, name: Name)
    | Forget1(forget: Forget)
    | BatchForget(forgets: seq<Forget>)
    | Symlink(parent: nat, name: Name, link: Name)
    | Mknod(parent: nat, name: Name, mode: nat, rdev: nat, umask: Flags)
    | Mkdir(parent: nat, name: Name, permissions: Flags, umask: Flags)
    | Unlink(parent: nat, name: Name)
    | Rmdir(parent: nat, name: Name)
    | Rename(parent: nat, name: Name, newparent: nat, newname: Name)
    | Rename2(parent: nat, name: Name, newparent: nat, newname: Name, flags: Flags)
    | Link(ino: nat, newparent: nat, newname: Name)
    | Write(ino: nat, fh: nat, offset: nat, size: nat, options: nat, lockOwner: Option<nat>, flags: Flags)
    | Setxattr(ino: nat, name: Name, value: seq<byte>, xattrFlags: nat, extraFlags: Flags)
    | Getxattr(ino: nat, name: Name, size: nat)
    | Removexattr(ino: nat, name: Name)
    | Create(parent: nat, name: Name, mode: nat, umask: Flags, options: nat)

  /** What selects a layout: the minor version in use, and whether setxattr is extended. */
  datatype Layout = Layout(minor: nat, setxattrExt: bool)

  function OpcodeOf(op: Op): nat {
    match op
    case Lookup(_, _) => FUSE_LOOKUP
    case Forget1(_) => FUSE_FORGET
    case BatchForget(_) => FUSE_BATCH_FORGET
    case Symlink(_, _, _) => FUSE_SYMLINK
    case Mknod(_, _, _, _, _) => FUSE_MKNOD
    case Mkdir(_, _, _, _) => FUSE_MKDIR
    case Unlink(_, _) => FUSE_UNLINK
    case Rmdir(_, _) => FUSE_RMDIR
    case Rename(_, _, _, _) => FUSE_RENAME
    case Rename2(_, _, _, _, _) => FUSE_RENAME2
    case Link(_, _, _) => FUSE_LINK
    case Write(_, _, _, _, _, _, _) => Framing.FUSE_WRITE
    case Setxattr(_, _, _, _, _) => FUSE_SETXATTR
    case Getxattr(_, _, _) => FUSE_GETXATTR
    case Removexattr(_, _) => FUSE_REMOVEXATTR
    case Create(_, _, _, _, _) => FUSE_CREATE
  }

  /** The node id in the request header; a batch forget has none. */
  function NodeOf(op: Op): nat {
    match op
    case Lookup(parent, _) => parent
    case Forget1(forget) => forget.ino
    case BatchForget(_) => 0
    case Symlink(parent, _, _) => parent
    case Mknod(parent, _, _, _, _) => parent
    case Mkdir(parent, _, _, _) => parent
    case Unlink(parent, _) => parent
    case Rmdir(parent, _) => parent
    case Rename(parent, _, _, _) => parent
    case Rename2(parent, _, _, _, _) => parent
    case Link(_, newparent, _) => newparent
    case Write(ino, _, _, _, _, _, _) => ino
    case Setxattr(ino, _, _, _, _) => ino
    case Getxattr(ino, _, _) => ino
    case Removexattr(ino, _) => ino
    case Create(parent, _, _, _, _) => parent
  }

  function CStr(name: Name): seq<byte> {
    name + [0]
  }

  function EncodeForgets(forgets: seq<Forget>): (s: seq<byte>)
    ensures |s| == 16 * |forgets|
  {
    if forgets == [] then [] else LE64(forgets[0].ino) + LE64(forgets[0].nlookup) + EncodeForgets(forgets[1..])
  }

  /** The fixed-size struct in front of the kernel's argument. */
  function EncodeHead(layout: Layout, op: Op): seq<byte> {
    match op
    case Forget1(forget) => LE64(forget.nlookup)
    case BatchForget(forgets) => LE32(|forgets|) + LE32(0)
    case Mknod(_, _, mode, rdev, umask) =>
      if layout.minor <= 11 then LE32(mode) + LE32(rdev)
      else LE32(mode) + LE32(rdev) + LE32(LowWord(umask)) + LE32(0)
    case Mkdir(_, _, permissions, umask) => LE32(LowWord(permissions)) + LE32(LowWord(umask))
    case Rename(_, _, newparent, _) => LE64(newparent)
    case Rename2(_, _, newparent, _, flags) => LE64(newparent) + LE32(LowWord(flags)) + LE32(0)
    case Link(ino, _, _) => LE64(ino)
    case Write(_, fh, offset, size, options, lockOwner, flags) =>
      if layout.minor <= 8 then LE64(fh) + LE64(offset) + LE32(size) + LE32(0)
      else
        LE64(fh) + LE64(offset) + LE32(size)
        + LE32(LowWord(if lockOwner.Some? then flags + {WRITE_LOCKOWNER} else flags))
        + LE64(if lockOwner.Some? then lockOwner.value else 0) + LE32(options) + LE32(0)
    case Setxattr(_, _, value, flags, extraFlags) =>
      if !layout.setxattrExt then LE32(|value|) + LE32(flags)
      else LE32(|value|) + LE32(flags) + LE32(LowWord(extraFlags)) + LE32(0)
    case Getxattr(_, _, size) => LE32(size) + LE32(0)
    case Create(_, _, mode, umask, options) =>
      if layout.minor <= 11 then LE32(options) + LE32(mode)
      else LE32(options) + LE32(mode) + LE32(LowWord(umask)) + LE32(0)
    case _ => []
  }

  /** The variable part behind it. The payload of a write is not part of the argument. */
  function EncodeTail(op: Op): seq<byte> {
    match op
    case Lookup(_, name) => CStr(name)
    case Forget1(_) => []
    case BatchForget(forgets) => EncodeForgets(forgets)
    case Symlink(_, name, link) => CStr(name) + CStr(link)
    case Mknod(_, name, _, _, _) => CStr(name)
    case Mkdir(_, name, _, _) => CStr(name)
    case Unlink(_, name) => CStr(name)
    case Rmdir(_, name) => CStr(name)
    case Rename(_, name, _, newname) => CStr(name) + CStr(newname)
    case Rename2(_, name, _, newname, _) => CStr(name) + CStr(newname)
    case Link(_, _, newname) => CStr(newname)
    case Write(_, _, _, _, _, _, _) => []
    case Setxattr(_, name, value, _, _) => CStr(name) + value
    case Getxattr(_, name, _) => CStr(name)
    case Removexattr(_, name) => CStr(name)
    case Create(_, name, _, _, _) => CStr(name)
  }

  function Encode(layout: Layout, op: Op): seq<byte> {
    EncodeHead(layout, op) + EncodeTail(op)
  }

  // Decoding.

  /** The layout a session decodes with. */
  function SessionLayout(c: Config): Layout {
    Layout(c.minor, c.minor > 32 && SETXATTR_EXT in c.flags)
  }

  function Field(s: seq<byte>, at: nat, width: nat): nat
    requires at + width <= |s|
  {
    FromLE(s[at..at + width])
  }

  function NodeId(raw: nat): Result<nat, DecodeError> {
    if raw == 0 then Err(InvalidNodeID) else Ok(raw)
  }

  /** `count` items of `fuse_forget_one`. */
  function DecodeForgets(s: seq<byte>, count: nat): seq<Forget>
    requires |s| == 16 * count
    decreases count
  {
    if count == 0 then [] else [Forget(Field(s, 0, 8), Field(s, 8, 8))] + DecodeForgets(s[16..], count - 1)
  }

  type Decoded = Result<Op, DecodeError>

  /** Requests that consist of names only. */
  function NamedOp(opcode: nat, nodeid: nat, arg: seq<byte>): Decoded {
    var (name, rest) :- TakeStr(arg);
    if opcode == FUSE_SYMLINK then
      var (link, _) :- TakeStr(rest);
      var parent :- NodeId(nodeid);
      Ok(Symlink(parent, name, link))
    else
      var parent :- NodeId(nodeid);
      Ok(if opcode == FUSE_LOOKUP then Lookup(parent, name)
         else if opcode == FUSE_UNLINK then Unlink(parent, name)
         else if opcode == FUSE_REMOVEXATTR then Removexattr(parent, name)
         else Rmdir(parent, name))
  }

  function ForgetOp(opcode: nat, nodeid: nat, arg: seq<byte>): Decoded {
    var (h, rest) :- TakeBytes(arg, 8);
    if opcode == FUSE_FORGET then
      var ino :- NodeId(nodeid);
      Ok(Forget1(Forget(ino, Field(h, 0, 8))))
    else
      var count := Field(h, 0, 4);
      var (items, _) :- TakeBytes(rest, 16 * count);
      Ok(BatchForget(DecodeForgets(items, count)))
  }

  function MknodOp(layout: Layout, nodeid: nat, arg: seq<byte>): Decoded {
    var (h, rest) :- TakeBytes(arg, if layout.minor <= 11 then 8 else 16);
    var (name, _) :- TakeStr(rest);
    var parent :- NodeId(nodeid);
    var umask := if layout.minor <= 11 then {} else BitsOf(Field(h, 8, 4)) * PERMISSIONS;
    Ok(Mknod(parent, name, Field(h, 0, 4), Field(h, 4, 4), umask))
  }

  function MkdirOp(nodeid: nat, arg: seq<byte>): Decoded {
    var (h, rest) :- TakeBytes(arg, 8);
    var (name, _) :- TakeStr(rest);
    var parent :- NodeId(nodeid);
    Ok(Mkdir(parent, name, BitsOf(Field(h, 0, 4)) * MODE_BITS, BitsOf(Field(h, 4, 4)) * PERMISSIONS))
  }

  function RenameOp(opcode: nat, nodeid: nat, arg: seq<byte>): Decoded {
    var (h, rest) :- TakeBytes(arg, if opcode == FUSE_RENAME then 8 else 16);
    var (name, rest) :- TakeStr(rest);
    var (newname, _) :- TakeStr(rest);
    var parent :- NodeId(nodeid);
    var newparent :- NodeId(Field(h, 0, 8));
    Ok(if opcode == FUSE_RENAME then Rename(parent, name, newparent, newname)
       else Rename2(parent, name, newparent, newname, BitsOf(Field(h, 8, 4)) * RENAME_FLAGS))
  }

  function LinkOp(nodeid: nat, arg: seq<byte>): Decoded {
    var (h, rest) :- TakeBytes(arg, 8);
    var (newname, _) :- TakeStr(rest);
    var ino :- NodeId(Field(h, 0, 8));
    var newparent :- NodeId(nodeid);
    Ok(Link(ino, newparent, newname))
  }

  function WriteOp(layout: Layout, nodeid: nat, arg: seq<byte>): Decoded {
    if layout.minor <= 8 then
      var (h, _) :- TakeBytes(arg, 24);
      var ino :- NodeId(nodeid);
      Ok(Write(ino, Field(h, 0, 8), Field(h, 8, 8), Field(h, 16, 4), 0, None, {}))
    else
      var (h, _) :- TakeBytes(arg, 40);
      var ino :- NodeId(nodeid);
      var flags := BitsOf(Field(h, 20, 4));
      var lockOwner := if WRITE_LOCKOWNER in flags then Some(Field(h, 24, 8)) else None;
      Ok(Write(ino, Field(h, 0, 8), Field(h, 8, 8), Field(h, 16, 4), Field(h, 32, 4), lockOwner, flags * WRITE_FLAGS))
  }

  function SetxattrOp(layout: Layout, nodeid: nat, arg: seq<byte>): Decoded {
    var (h, rest) :- TakeBytes(arg, if layout.setxattrExt then 16 else 8);
    var (name, rest) :- TakeStr(rest);
    var (value, _) :- TakeBytes(rest, Field(h, 0, 4));
    var ino :- NodeId(nodeid);
    var extra := if layout.setxattrExt then BitsOf(Field(h, 8, 4)) * SETXATTR_FLAGS else {};
    Ok(Setxattr(ino, name, value, Field(h, 4, 4), extra))
  }

  function GetxattrOp(nodeid: nat, arg: seq<byte>): Decoded {
    var (h, rest) :- TakeBytes(arg, 8);
    var (name, _) :- TakeStr(rest);
    var ino :- NodeId(nodeid);
    Ok(Getxattr(ino, name, Field(h, 0, 4)))
  }

  function CreateOp(nodeid: nat, arg: seq<byte>): Decoded {
    var (h, rest) :- TakeBytes(arg, 16);
    var (name, _) :- TakeStr(rest);
    var parent :- NodeId(nodeid);
    Ok(Create(parent, name, Field(h, 4, 4), BitsOf(Field(h, 8, 4)) * PERMISSIONS, Field(h, 0, 4)))
  }

  /** `Operation::decode`; `None` for the opcodes that are not part of this model. */
  function Decode(layout: Layout, opcode: nat, nodeid: nat, arg: seq<byte>): Option<Decoded> {
    if opcode == FUSE_FORGET || opcode == FUSE_BATCH_FORGET then Some(ForgetOp(opcode, nodeid, arg))
    else if opcode in {FUSE_LOOKUP, FUSE_SYMLINK, FUSE_UNLINK, FUSE_RMDIR, FUSE_REMOVEXATTR} then
      Some(NamedOp(opcode, nodeid, arg))
    else if opcode == FUSE_MKNOD then Some(MknodOp(layout, nodeid, arg))
    else if opcode == FUSE_MKDIR then Some(MkdirOp(nodeid, arg))
    else if opcode == FUSE_RENAME || opcode == FUSE_RENAME2 then Some(RenameOp(opcode, nodeid, arg))
    else if opcode == FUSE_LINK then Some(LinkOp(nodeid, arg))
    else if opcode == Framing.FUSE_WRITE then Some(WriteOp(layout, nodeid, arg))
    else if opcode == FUSE_SETXATTR then Some(SetxattrOp(layout, nodeid, arg))
    else if opcode == FUSE_GETXATTR then Some(GetxattrOp(nodeid, arg))
    else if opcode == FUSE_CREATE then Some(CreateOp(nodeid, arg))
    else None
  }

  // Malformed arguments.

  /** The opcodes of the modelled requests. */
  predicate Modelled(opcode: nat) {
    || opcode == FUSE_LOOKUP || opcode == FUSE_FORGET || opcode == FUSE_SYMLINK || opcode == FUSE_MKNOD
    || opcode == FUSE_MKDIR || opcode == FUSE_UNLINK || opcode == FUSE_RMDIR || opcode == FUSE_RENAME
    || opcode == FUSE_LINK || opcode == Framing.FUSE_WRITE || opcode == FUSE_SETXATTR || opcode == FUSE_GETXATTR
    || opcode == FUSE_REMOVEXATTR || opcode == FUSE_CREATE || opcode == FUSE_BATCH_FORGET || opcode == FUSE_RENAME2
  }

  /** The size of the struct in front. */
  function HeadSize(layout: Layout, opcode: nat): nat {
    if opcode == FUSE_MKNOD then if layout.minor <= 11 then 8 else 16
    else if opcode == Framing.FUSE_WRITE then if layout.minor <= 8 then 24 else 40
    else if opcode == FUSE_SETXATTR then if layout.setxattrExt then 16 else 8
    else if opcode == FUSE_RENAME2 || opcode == FUSE_CREATE then 16
    else if opcode == FUSE_LOOKUP || opcode == FUSE_SYMLINK || opcode == FUSE_UNLINK || opcode == FUSE_RMDIR
            || opcode == FUSE_REMOVEXATTR then 0
    else 8
  }

  /** How many names follow it. */
  function NamesIn(opcode: nat): nat {
    if opcode == FUSE_FORGET || opcode == FUSE_BATCH_FORGET || opcode == Framing.FUSE_WRITE then 0
    else if opcode == FUSE_SYMLINK || opcode == FUSE_RENAME || opcode == FUSE_RENAME2 then 2
    else 1
  }

  function Nuls(s: seq<byte>): nat {
    if s == [] then 0 else (if s[0] == 0 then 1 else 0) + Nuls(s[1..])
  }

  lemma {:induction false} NulsAndNulAt(s: seq<byte>)
    ensures NulAt(s) < |s| <==> Nuls(s) > 0
    ensures NulAt(s) < |s| ==> Nuls(s[NulAt(s) + 1..]) == Nuls(s) - 1
  {
    if s != [] && s[0] != 0 {
      NulsAndNulAt(s[1..]);
      if NulAt(s) < |s| {
        assert s[NulAt(s) + 1..] == s[1..][NulAt(s[1..]) + 1..];
      }
    }
  }

  /** A name can be fetched if and only if there is a NUL left, and fetching it takes one. */
  lemma TakeStrOutcome(s: seq<byte>)
    ensures if Nuls(s) == 0 then TakeStr(s) == Err(MissingNulCharacter)
            else TakeStr(s).Ok? && |TakeStr(s).value.1| == |s| - NulAt(s) - 1
                 && Nuls(TakeStr(s).value.1) == Nuls(s) - 1
  {
    NulsAndNulAt(s);
  }

  /** What the kernel's counts ask for behind struct and names is not all there. */
  predicate TailMissing(layout: Layout, opcode: nat, arg: seq<byte>)
    requires |arg| >= HeadSize(layout, opcode)
  {
    var rest := arg[HeadSize(layout, opcode)..];
    if opcode == FUSE_BATCH_FORGET then |rest| < 16 * FromLE(arg[..4])
    else opcode == FUSE_SETXATTR && |rest| - NulAt(rest) - 1 < FromLE(arg[..4])
  }

  /** The struct names node 0. */
  predicate NamesNoNode(opcode: nat, arg: seq<byte>) {
    (opcode == FUSE_RENAME || opcode == FUSE_RENAME2 || opcode == FUSE_LINK) && |arg| >= 8 && FromLE(arg[..8]) == 0
  }

  /** The outcome for any argument at all, by what is missing first: the struct, then a name, then what it
      counts, then a node id. */
  ghost predicate OutcomeFits(layout: Layout, opcode: nat, nodeid: nat, arg: seq<byte>, d: Decoded) {
    if |arg| < HeadSize(layout, opcode) then d == Err(UnexpectedEof)
    else if Nuls(arg[HeadSize(layout, opcode)..]) < NamesIn(opcode) then d == Err(MissingNulCharacter)
    else if TailMissing(layout, opcode, arg) then d == Err(UnexpectedEof)
    else if (nodeid == 0 && opcode != FUSE_BATCH_FORGET) || NamesNoNode(opcode, arg) then d == Err(InvalidNodeID)
    else
      && d.Ok? && OpcodeOf(d.value) == opcode
      && (opcode != FUSE_BATCH_FORGET ==> NodeOf(d.value) == nodeid)
  }

  lemma NamedOutcome(layout: Layout, opcode: nat, nodeid: nat, arg: seq<byte>)
    requires opcode == FUSE_LOOKUP || opcode == FUSE_SYMLINK || opcode == FUSE_UNLINK || opcode == FUSE_RMDIR
             || opcode == FUSE_REMOVEXATTR
    ensures OutcomeFits(layout, opcode, nodeid, arg, NamedOp(opcode, nodeid, arg))
  {
    assert arg[0..] == arg;
    TakeStrOutcome(arg);
    if TakeStr(arg).Ok? {
      TakeStrOutcome(TakeStr(arg).value.1);
    }
  }

  lemma ForgetOutcome(layout: Layout, opcode: nat, nodeid: nat, arg: seq<byte>)
    requires opcode == FUSE_FORGET || opcode == FUSE_BATCH_FORGET
    ensures OutcomeFits(layout, opcode, nodeid, arg, ForgetOp(opcode, nodeid, arg))
  {
    if |arg| >= 8 {
      assert arg[..8][0..4] == arg[..4];
    }
  }

  lemma StructAndName(arg: seq<byte>, n: nat)
    requires |arg| >= n
    ensures TakeBytes(arg, n) == Ok((arg[..n], arg[n..]))
    ensures if Nuls(arg[n..]) == 0 then TakeStr(arg[n..]) == Err(MissingNulCharacter) else TakeStr(arg[n..]).Ok?
    ensures n >= 8 ==> arg[..n][0..8] == arg[..8]
  {
    TakeStrOutcome(arg[n..]);
  }

  lemma MknodOutcome(layout: Layout, nodeid: nat, arg: seq<byte>)
    ensures OutcomeFits(layout, FUSE_MKNOD, nodeid, arg, MknodOp(layout, nodeid, arg))
  {
    var n := if layout.minor <= 11 then 8 else 16;
    if |arg| >= n {
      StructAndName(arg, n);
    }
  }

  lemma MkdirOutcome(layout: Layout, nodeid: nat, arg: seq<byte>)
    ensures OutcomeFits(layout, FUSE_MKDIR, nodeid, arg, MkdirOp(nodeid, arg))
  {
    if |arg| >= 8 {
      StructAndName(arg, 8);
    }
  }

  lemma LinkOutcome(layout: Layout, nodeid: nat, arg: seq<byte>)
    ensures OutcomeFits(layout, FUSE_LINK, nodeid, arg, LinkOp(nodeid, arg))
  {
    if |arg| >= 8 {
      StructAndName(arg, 8);
    }
  }

  lemma GetxattrOutcome(layout: Layout, nodeid: nat, arg: seq<byte>)
    ensures OutcomeFits(layout, FUSE_GETXATTR, nodeid, arg, GetxattrOp(nodeid, arg))
  {
    if |arg| >= 8 {
      StructAndName(arg, 8);
    }
  }

  lemma CreateOutcome(layout: Layout, nodeid: nat, arg: seq<byte>)
    ensures OutcomeFits(layout, FUSE_CREATE, nodeid, arg, CreateOp(nodeid, arg))
  {
    if |arg| >= 16 {
      StructAndName(arg, 16);
    }
  }

  lemma WriteOutcome(layout: Layout, nodeid: nat, arg: seq<byte>)
    ensures OutcomeFits(layout, Framing.FUSE_WRITE, nodeid, arg, WriteOp(layout, nodeid, arg))
  {
  }

  /** Struct and two names, in front of whatever follows from them. */
  function TwoNames(arg: seq<byte>, n: nat): Result<(seq<byte>, Name, Name), DecodeError> {
    var (h, rest) :- TakeBytes(arg, n);
    var (name, rest) :- TakeStr(rest);
    var (newname, _) :- TakeStr(rest);
    Ok((h, name, newname))
  }

  lemma TwoNamesOutcome(arg: seq<byte>, n: nat)
    ensures if |arg| < n then TwoNames(arg, n) == Err(UnexpectedEof)
            else if Nuls(arg[n..]) < 2 then TwoNames(arg, n) == Err(MissingNulCharacter)
            else TwoNames(arg, n).Ok? && TwoNames(arg, n).value.0 == arg[..n]
  {
    if |arg| >= n {
      TakeStrOutcome(arg[n..]);
      if TakeStr(arg[n..]).Ok? {
        TakeStrOutcome(TakeStr(arg[n..]).value.1);
      }
    }
  }

  lemma RenameOutcome(layout: Layout, opcode: nat, nodeid: nat, arg: seq<byte>)
    requires opcode == FUSE_RENAME || opcode == FUSE_RENAME2
    ensures OutcomeFits(layout, opcode, nodeid, arg, RenameOp(opcode, nodeid, arg))
  {
    var n := if opcode == FUSE_RENAME then 8 else 16;
    TwoNamesOutcome(arg, n);
    if |arg| >= n {
      assert arg[..n][0..8] == arg[..8];
    }
  }

  lemma SetxattrOutcome(layout: Layout, nodeid: nat, arg: seq<byte>)
    ensures OutcomeFits(layout, FUSE_SETXATTR, nodeid, arg, SetxattrOp(layout, nodeid, arg))
  {
    var n := HeadSize(layout, FUSE_SETXATTR);
    if |arg| >= n {
      TakeStrOutcome(arg[n..]);
      assert arg[..n][0..4] == arg[..4];
    }
  }

  lemma DecodeOutcome(layout: Layout, opcode: nat, nodeid: nat, arg: seq<byte>)
    ensures Decode(layout, opcode, nodeid, arg).Some? <==> Modelled(opcode)
    ensures Modelled(opcode) ==> OutcomeFits(layout, opcode, nodeid, arg, Decode(layout, opcode, nodeid, arg).value)
  {
    if opcode == FUSE_FORGET || opcode == FUSE_BATCH_FORGET {
      ForgetOutcome(layout, opcode, nodeid, arg);
    } else if opcode == FUSE_RENAME || opcode == FUSE_RENAME2 {
      RenameOutcome(layout, opcode, nodeid, arg);
    } else if opcode == FUSE_SETXATTR {
      SetxattrOutcome(layout, nodeid, arg);
    } else if opcode == FUSE_MKNOD {
      MknodOutcome(layout, nodeid, arg);
    } else if opcode == FUSE_MKDIR {
      MkdirOutcome(layout, nodeid, arg);
    } else if opcode == FUSE_LINK {
      LinkOutcome(layout, nodeid, arg);
    } else if opcode == FUSE_GETXATTR {
      GetxattrOutcome(layout, nodeid, arg);
    } else if opcode == FUSE_CREATE {
      CreateOutcome(layout, nodeid, arg);
    } else if opcode == Framing.FUSE_WRITE {
      WriteOutcome(layout, nodeid, arg);
    } else if Modelled(opcode) {
      NamedOutcome(layout, opcode, nodeid, arg);
    }
  }

  /** The flag at position `k` of the word at `at`, if it is one of the declared ones. */
  predicate Declared(arg: seq<byte>, at: nat, k: nat, mask: set<nat>)
    requires at + 4 <= |arg|
  {
    k in mask && k < 32 && Bit(FromLE(arg[at..at + 4]), k)
  }

  /** Whatever bits a word of the struct has, exactly those that the operation declares come through: the
      permission, set-id and sticky bits of a mkdir, the permission bits of a umask, three rename flags,
      two write flags, one setxattr flag; the owner of a lock comes through exactly with its flag. */
  lemma DeclaredBitsComeThrough(layout: Layout, opcode: nat, nodeid: nat, arg: seq<byte>, k: nat)
    requires Modelled(opcode) && Decode(layout, opcode, nodeid, arg).value.Ok?
    ensures var op := Decode(layout, opcode, nodeid, arg).value.value;
            && |arg| >= HeadSize(layout, opcode)
            && match op
               case Mkdir(_, _, permissions, umask) =>
                 && (k in permissions <==> Declared(arg, 0, k, {0, 1, 2, 3, 4, 5, 6, 7, 8, 9, 10, 11}))
                 && (k in umask <==> Declared(arg, 4, k, {0, 1, 2, 3, 4, 5, 6, 7, 8}))
               case Mknod(_, _, _, _, umask) =>
                 k in umask <==> layout.minor > 11 && Declared(arg, 8, k, {0, 1, 2, 3, 4, 5, 6, 7, 8})
               case Create(_, _, _, umask, _) => k in umask <==> Declared(arg, 8, k, {0, 1, 2, 3, 4, 5, 6, 7, 8})
               case Rename2(_, _, _, _, flags) => k in flags <==> Declared(arg, 8, k, {0, 1, 2})
               case Write(_, _, _, _, _, lockOwner, flags) =>
                 && (k in flags <==> layout.minor > 8 && Declared(arg, 20, k, {0, 2}))
                 && (lockOwner.Some? <==> layout.minor > 8 && Declared(arg, 20, 1, {1}))
               case Setxattr(_, _, _, _, extraFlags) =>
                 k in extraFlags <==> layout.setxattrExt && Declared(arg, 8, k, {0})
               case _ => true
  {
    DecodeOutcome(layout, opcode, nodeid, arg);
    var n := HeadSize(layout, opcode);
    WordOfHead(arg, n, 0);
    WordOfHead(arg, n, 4);
    WordOfHead(arg, n, 8);
    WordOfHead(arg, n, 20);
  }

  lemma WordOfHead(arg: seq<byte>, n: nat, at: nat)
    requires n <= |arg|
    ensures at + 4 <= n ==> arg[..n][at..at + 4] == arg[at..at + 4]
  {
  }

  // Round trip.

  /** What a kernel using this layout can say at all: fields in range, names without NUL, and nothing
      in the fields an old layout does not have. */
  predicate Expressible(layout: Layout, op: Op) {
    && (op.BatchForget? || 0 < NodeOf(op) < U64)
    && match op
       case Lookup(_, name) => 0 !in name
       case Forget1(forget) => forget.nlookup < U64
       case BatchForget(forgets) =>
         |forgets| < U32 && forall k :: 0 <= k < |forgets| ==> forgets[k].ino < U64 && forgets[k].nlookup < U64
       case Symlink(_, name, link) => 0 !in name && 0 !in link
       case Mknod(_, name, mode, rdev, umask) =>
         && 0 !in name && mode < U32 && rdev < U32 && umask <= PERMISSIONS
         && (layout.minor <= 11 ==> umask == {})
       case Mkdir(_, name, permissions, umask) =>
         0 !in name && permissions <= MODE_BITS && umask <= PERMISSIONS
       case Unlink(_, name) => 0 !in name
       case Rmdir(_, name) => 0 !in name
       case Rename(_, name, newparent, newname) => 0 !in name && 0 !in newname && 0 < newparent < U64
       case Rename2(_, name, newparent, newname, flags) =>
         0 !in name && 0 !in newname && 0 < newparent < U64 && flags <= RENAME_FLAGS
       case Link(ino, _, newname) => 0 !in newname && 0 < ino < U64
       case Write(_, fh, offset, size, options, lockOwner, flags) =>
         && fh < U64 && offset < U64 && size < U32 && options < U32 && flags <= WRITE_FLAGS
         && (lockOwner.Some? ==> lockOwner.value < U64)
         && (layout.minor <= 8 ==> options == 0 && lockOwner == None && flags == {})
       case Setxattr(_, name, value, xattrFlags, extraFlags) =>
         && 0 !in name && |value| < U32 && xattrFlags < U32 && extraFlags <= SETXATTR_FLAGS
         && (!layout.setxattrExt ==> extraFlags == {})
       case Getxattr(_, name, size) => 0 !in name && size < U32
       case Removexattr(_, name) => 0 !in name
       case Create(_, name, mode, umask, options) =>
         && 0 !in name && mode < U32 && options < U32 && umask <= PERMISSIONS
         && (layout.minor <= 11 ==> umask == {})
  }

  lemma HeadIsTaken(head: seq<byte>, tail: seq<byte>)
    ensures TakeBytes(head + tail, |head|) == Ok((head, tail))
  {
  }

  lemma NameIsTaken(name: Name, rest: seq<byte>)
    requires 0 !in name
    ensures TakeStr(CStr(name) + rest) == Ok((name, rest))
  {
    TakeStrIff(CStr(name) + rest, name, rest);
  }

  lemma FlagsAreRead(s: Flags, mask: Flags)
    requires s <= mask && forall k :: k in mask ==> k < 32
    ensures LowWord(s) < U32 && BitsOf(LowWord(s)) == s && BitsOf(LowWord(s)) * mask == s
  {
    LowWordRoundTrip(s);
    WordBound(s, 0, 32);
    Pow2Of32();
  }

  lemma {:induction false} ForgetsRoundTrip(forgets: seq<Forget>)
    requires forall k :: 0 <= k < |forgets| ==> forgets[k].ino < U64 && forgets[k].nlookup < U64
    ensures DecodeForgets(EncodeForgets(forgets), |forgets|) == forgets
  {
    if forgets != [] {
      ForgetsRoundTrip(forgets[1..]);
      var s := EncodeForgets(forgets);
      var a, b, rest := LE64(forgets[0].ino), LE64(forgets[0].nlookup), EncodeForgets(forgets[1..]);
      assert s[0..8] == a && s[8..16] == b && s[16..] == rest;
      RoundTrip64(forgets[0].ino);
      RoundTrip64(forgets[0].nlookup);
    }
  }

  /** The decoder, given the kernel's layout, recovers the request; `rest` is whatever follows. */
  ghost predicate Recovers(layout: Layout, op: Op, rest: seq<byte>) {
    Decode(layout, OpcodeOf(op), NodeOf(op), Encode(layout, op) + rest) == Some(Ok(op))
  }

  lemma SymlinkRoundTrip(layout: Layout, op: Op, rest: seq<byte>)
    requires Expressible(layout, op) && op.Symlink?
    ensures NamedOp(FUSE_SYMLINK, NodeOf(op), Encode(layout, op) + rest) == Ok(op)
  {
    assert Encode(layout, op) + rest == CStr(op.name) + (CStr(op.link) + rest);
    NameIsTaken(op.name, CStr(op.link) + rest);
    NameIsTaken(op.link, rest);
  }

  lemma NamesRoundTrip(layout: Layout, op: Op, rest: seq<byte>)
    requires Expressible(layout, op)
    requires op.Lookup? || op.Unlink? || op.Rmdir? || op.Symlink? || op.Removexattr?
    ensures NamedOp(OpcodeOf(op), NodeOf(op), Encode(layout, op) + rest) == Ok(op)
  {
    if op.Symlink? {
      SymlinkRoundTrip(layout, op, rest);
    } else {
      assert Encode(layout, op) + rest == CStr(op.name) + rest;
      NameIsTaken(op.name, rest);
    }
  }

  lemma ForgetRoundTrip(layout: Layout, op: Op, rest: seq<byte>)
    requires Expressible(layout, op) && op.Forget1?
    ensures ForgetOp(FUSE_FORGET, NodeOf(op), Encode(layout, op) + rest) == Ok(op)
  {
    var h := LE64(op.forget.nlookup);
    assert Encode(layout, op) + rest == h + rest;
    HeadIsTaken(h, rest);
    assert h[0..8] == h;
    RoundTrip64(op.forget.nlookup);
  }

  lemma BatchHead(count: nat)
    requires count < U32
    ensures |LE32(count) + LE32(0)| == 8 && Field(LE32(count) + LE32(0), 0, 4) == count
  {
    assert (LE32(count) + LE32(0))[0..4] == LE32(count);
    RoundTrip32(count);
  }

  lemma BatchForgetRoundTrip(layout: Layout, op: Op, rest: seq<byte>)
    requires Expressible(layout, op) && op.BatchForget?
    ensures ForgetOp(FUSE_BATCH_FORGET, NodeOf(op), Encode(layout, op) + rest) == Ok(op)
  {
    var h, items := LE32(|op.forgets|) + LE32(0), EncodeForgets(op.forgets);
    Assoc(h, items, rest);
    HeadIsTaken(h, items + rest);
    HeadIsTaken(items, rest);
    BatchHead(|op.forgets|);
    ForgetsRoundTrip(op.forgets);
  }

  lemma MknodHeadFields(mode: nat, rdev: nat, word: nat)
    requires mode < U32 && rdev < U32 && word < U32
    ensures var h := LE32(mode) + LE32(rdev) + LE32(word) + LE32(0);
            |h| == 16 && Field(h, 0, 4) == mode && Field(h, 4, 4) == rdev && Field(h, 8, 4) == word
    ensures var h := LE32(mode) + LE32(rdev); |h| == 8 && Field(h, 0, 4) == mode && Field(h, 4, 4) == rdev
  {
    var h, short := LE32(mode) + LE32(rdev) + LE32(word) + LE32(0), LE32(mode) + LE32(rdev);
    assert h[0..4] == short[0..4] == LE32(mode) && h[4..8] == short[4..8] == LE32(rdev) && h[8..12] == LE32(word);
    RoundTrip32(mode);
    RoundTrip32(rdev);
    RoundTrip32(word);
  }

  lemma MknodRoundTrip(layout: Layout, op: Op, rest: seq<byte>)
    requires Expressible(layout, op) && op.Mknod?
    ensures MknodOp(layout, NodeOf(op), Encode(layout, op) + rest) == Ok(op)
  {
    var h := EncodeHead(layout, op);
    Assoc(h, CStr(op.name), rest);
    HeadIsTaken(h, CStr(op.name) + rest);
    NameIsTaken(op.name, rest);
    FlagsAreRead(op.umask, PERMISSIONS);
    MknodHeadFields(op.mode, op.rdev, LowWord(op.umask));
  }

  lemma MkdirRoundTrip(layout: Layout, op: Op, rest: seq<byte>)
    requires Expressible(layout, op) && op.Mkdir?
    ensures MkdirOp(NodeOf(op), Encode(layout, op) + rest) == Ok(op)
  {
    var h := EncodeHead(layout, op);
    assert Encode(layout, op) + rest == h + (CStr(op.name) + rest);
    HeadIsTaken(h, CStr(op.name) + rest);
    NameIsTaken(op.name, rest);
    FlagsAreRead(op.permissions, MODE_BITS);
    FlagsAreRead(op.umask, PERMISSIONS);
    MknodHeadFields(LowWord(op.permissions), LowWord(op.umask), 0);
  }

  lemma TwoNamesAreTaken(h: seq<byte>, name: Name, newname: Name, rest: seq<byte>)
    requires 0 !in name && 0 !in newname
    ensures TakeBytes(h + (CStr(name) + CStr(newname)) + rest, |h|) == Ok((h, CStr(name) + (CStr(newname) + rest)))
    ensures TakeStr(CStr(name) + (CStr(newname) + rest)) == Ok((name, CStr(newname) + rest))
    ensures TakeStr(CStr(newname) + rest) == Ok((newname, rest))
  {
    assert h + (CStr(name) + CStr(newname)) + rest == h + (CStr(name) + (CStr(newname) + rest));
    HeadIsTaken(h, CStr(name) + (CStr(newname) + rest));
    NameIsTaken(name, CStr(newname) + rest);
    NameIsTaken(newname, rest);
  }

  lemma RenameRoundTrip(layout: Layout, op: Op, rest: seq<byte>)
    requires Expressible(layout, op) && op.Rename?
    ensures RenameOp(FUSE_RENAME, NodeOf(op), Encode(layout, op) + rest) == Ok(op)
  {
    var h := LE64(op.newparent);
    TwoNamesAreTaken(h, op.name, op.newname, rest);
    assert h[0..8] == h;
    RoundTrip64(op.newparent);
  }

  lemma Rename2RoundTrip(layout: Layout, op: Op, rest: seq<byte>)
    requires Expressible(layout, op) && op.Rename2?
    ensures RenameOp(FUSE_RENAME2, NodeOf(op), Encode(layout, op) + rest) == Ok(op)
  {
    var h := LE64(op.newparent) + LE32(LowWord(op.flags)) + LE32(0);
    TwoNamesAreTaken(h, op.name, op.newname, rest);
    FlagsAreRead(op.flags, RENAME_FLAGS);
    assert h[0..8] == LE64(op.newparent) && h[8..12] == LE32(LowWord(op.flags));
    RoundTrip64(op.newparent);
    RoundTrip32(LowWord(op.flags));
  }

  lemma LinkRoundTrip(layout: Layout, op: Op, rest: seq<byte>)
    requires Expressible(layout, op) && op.Link?
    ensures LinkOp(NodeOf(op), Encode(layout, op) + rest) == Ok(op)
  {
    var h := EncodeHead(layout, op);
    assert Encode(layout, op) + rest == h + (CStr(op.newname) + rest);
    HeadIsTaken(h, CStr(op.newname) + rest);
    NameIsTaken(op.newname, rest);
    assert h[0..8] == LE64(op.ino);
    RoundTrip64(op.ino);
  }

  lemma WriteHeadFields(fh: nat, offset: nat, size: nat, word: nat, owner: nat, options: nat)
    requires fh < U64 && offset < U64 && size < U32 && word < U32 && owner < U64 && options < U32
    ensures var h := LE64(fh) + LE64(offset) + LE32(size) + LE32(word) + LE64(owner) + LE32(options) + LE32(0);
            && |h| == 40
            && Field(h, 0, 8) == fh && Field(h, 8, 8) == offset && Field(h, 16, 4) == size
            && Field(h, 20, 4) == word && Field(h, 24, 8) == owner && Field(h, 32, 4) == options
  {
    var h := LE64(fh) + LE64(offset) + LE32(size) + LE32(word) + LE64(owner) + LE32(options) + LE32(0);
    assert h[0..8] == LE64(fh) && h[8..16] == LE64(offset) && h[16..20] == LE32(size);
    assert h[20..24] == LE32(word) && h[24..32] == LE64(owner) && h[32..36] == LE32(options);
    RoundTrip64(fh);
    RoundTrip64(offset);
    RoundTrip32(size);
    RoundTrip32(word);
    RoundTrip64(owner);
    RoundTrip32(options);
  }

  lemma WriteCompatFields(fh: nat, offset: nat, size: nat)
    requires fh < U64 && offset < U64 && size < U32
    ensures var h := LE64(fh) + LE64(offset) + LE32(size) + LE32(0);
            |h| == 24 && Field(h, 0, 8) == fh && Field(h, 8, 8) == offset && Field(h, 16, 4) == size
  {
    var h := LE64(fh) + LE64(offset) + LE32(size) + LE32(0);
    assert h[0..8] == LE64(fh) && h[8..16] == LE64(offset) && h[16..20] == LE32(size);
    RoundTrip64(fh);
    RoundTrip64(offset);
    RoundTrip32(size);
  }

  lemma CurrentWriteRoundTrip(layout: Layout, op: Op, rest: seq<byte>)
    requires Expressible(layout, op) && op.Write? && layout.minor > 8
    ensures WriteOp(layout, NodeOf(op), EncodeHead(layout, op) + rest) == Ok(op)
  {
    HeadIsTaken(EncodeHead(layout, op), rest);
    var flags := if op.lockOwner.Some? then op.flags + {WRITE_LOCKOWNER} else op.flags;
    var owner := if op.lockOwner.Some? then op.lockOwner.value else 0;
    FlagsAreRead(flags, WRITE_FLAGS + {WRITE_LOCKOWNER});
    assert flags * WRITE_FLAGS == op.flags;
    WriteHeadFields(op.fh, op.offset, op.size, LowWord(flags), owner, op.options);
  }

  lemma WriteRoundTrip(layout: Layout, op: Op, rest: seq<byte>)
    requires Expressible(layout, op) && op.Write?
    ensures WriteOp(layout, NodeOf(op), Encode(layout, op) + rest) == Ok(op)
  {
    var h := EncodeHead(layout, op);
    assert Encode(layout, op) == h;
    if layout.minor <= 8 {
      HeadIsTaken(h, rest);
      WriteCompatFields(op.fh, op.offset, op.size);
    } else {
      CurrentWriteRoundTrip(layout, op, rest);
    }
  }

  lemma SetxattrRoundTrip(layout: Layout, op: Op, rest: seq<byte>)
    requires Expressible(layout, op) && op.Setxattr?
    ensures SetxattrOp(layout, NodeOf(op), Encode(layout, op) + rest) == Ok(op)
  {
    var h := EncodeHead(layout, op);
    FourParts(h, CStr(op.name), op.value, rest);
    HeadIsTaken(h, CStr(op.name) + (op.value + rest));
    NameIsTaken(op.name, op.value + rest);
    HeadIsTaken(op.value, rest);
    FlagsAreRead(op.extraFlags, SETXATTR_FLAGS);
    MknodHeadFields(|op.value|, op.xattrFlags, LowWord(op.extraFlags));
  }

  lemma FourParts(a: seq<byte>, b: seq<byte>, c: seq<byte>, d: seq<byte>)
    ensures a + (b + c) + d == a + (b + (c + d))
  {
  }

  lemma GetxattrRoundTrip(layout: Layout, op: Op, rest: seq<byte>)
    requires Expressible(layout, op) && op.Getxattr?
    ensures GetxattrOp(NodeOf(op), Encode(layout, op) + rest) == Ok(op)
  {
    var h := EncodeHead(layout, op);
    Assoc(h, CStr(op.name), rest);
    HeadIsTaken(h, CStr(op.name) + rest);
    NameIsTaken(op.name, rest);
    BatchHead(op.size);
  }

  /** Whatever the kernel puts into the last word of the struct (its open flags) is ignored. */
  lemma CreateRoundTrip(op: Op, openFlags: nat, rest: seq<byte>)
    requires op.Create? && Expressible(Layout(12, false), op) && openFlags < U32
    ensures var h := LE32(op.options) + LE32(op.mode) + LE32(LowWord(op.umask)) + LE32(openFlags);
            CreateOp(NodeOf(op), h + CStr(op.name) + rest) == Ok(op)
  {
    var h := LE32(op.options) + LE32(op.mode) + LE32(LowWord(op.umask)) + LE32(openFlags);
    Assoc(h, CStr(op.name), rest);
    HeadIsTaken(h, CStr(op.name) + rest);
    NameIsTaken(op.name, rest);
    FlagsAreRead(op.umask, PERMISSIONS);
    assert h[0..4] == LE32(op.options) && h[4..8] == LE32(op.mode) && h[8..12] == LE32(LowWord(op.umask));
    RoundTrip32(op.options);
    RoundTrip32(op.mode);
    RoundTrip32(LowWord(op.umask));
  }

  /** Before 7.12 the struct in front of the name has 8 bytes, but the decoder takes 16: it reads half
      the struct from the name, and finds a shorter name or none. */
  lemma OldCreateIsMisread(layout: Layout, op: Op)
    requires op.Create? && Expressible(layout, op) && layout.minor <= 11
    ensures CreateOp(NodeOf(op), Encode(layout, op)) != Ok(op)
  {
    var arg := Encode(layout, op);
    if |arg| >= 16 {
      var tail := CStr(op.name)[8..];
      assert arg[16..] == tail;
      var k := NulAt(tail);
      assert k < |tail| ==> |tail[..k]| < |op.name|;
    }
  }

  /** The decoder knows the layout: for create, that of 7.12 and later only. */
  predicate Supported(layout: Layout, op: Op) {
    op.Create? ==> layout.minor >= 12
  }

  /** The decoder that a request's opcode leads to. */
  function DecoderFor(layout: Layout, op: Op, arg: seq<byte>): Decoded {
    match op
    case Forget1(_) => ForgetOp(OpcodeOf(op), NodeOf(op), arg)
    case BatchForget(_) => ForgetOp(OpcodeOf(op), NodeOf(op), arg)
    case Mknod(_, _, _, _, _) => MknodOp(layout, NodeOf(op), arg)
    case Mkdir(_, _, _, _) => MkdirOp(NodeOf(op), arg)
    case Rename(_, _, _, _) => RenameOp(OpcodeOf(op), NodeOf(op), arg)
    case Rename2(_, _, _, _, _) => RenameOp(OpcodeOf(op), NodeOf(op), arg)
    case Link(_, _, _) => LinkOp(NodeOf(op), arg)
    case Write(_, _, _, _, _, _, _) => WriteOp(layout, NodeOf(op), arg)
    case Setxattr(_, _, _, _, _) => SetxattrOp(layout, NodeOf(op), arg)
    case Getxattr(_, _, _) => GetxattrOp(NodeOf(op), arg)
    case Create(_, _, _, _, _) => CreateOp(NodeOf(op), arg)
    case _ => NamedOp(OpcodeOf(op), NodeOf(op), arg)
  }

  lemma OpcodeLeadsToDecoder(layout: Layout, op: Op, arg: seq<byte>)
    ensures Decode(layout, OpcodeOf(op), NodeOf(op), arg) == Some(DecoderFor(layout, op, arg))
  {
  }

  lemma DecoderRecovers(layout: Layout, op: Op, rest: seq<byte>)
    requires Expressible(layout, op) && Supported(layout, op)
    ensures DecoderFor(layout, op, Encode(layout, op) + rest) == Ok(op)
  {
    match op {
      case Forget1(_) => ForgetRoundTrip(layout, op, rest);
      case BatchForget(_) => BatchForgetRoundTrip(layout, op, rest);
      case Mknod(_, _, _, _, _) => MknodRoundTrip(layout, op, rest);
      case Mkdir(_, _, _, _) => MkdirRoundTrip(layout, op, rest);
      case Rename(_, _, _, _) => RenameRoundTrip(layout, op, rest);
      case Rename2(_, _, _, _, _) => Rename2RoundTrip(layout, op, rest);
      case Link(_, _, _) => LinkRoundTrip(layout, op, rest);
      case Write(_, _, _, _, _, _, _) => WriteRoundTrip(layout, op, rest);
      case Setxattr(_, _, _, _, _) => SetxattrRoundTrip(layout, op, rest);
      case Getxattr(_, _, _) => GetxattrRoundTrip(layout, op, rest);
      case Create(_, _, _, _, _) => CreateRoundTrip(op, 0, rest);
      case _ => NamesRoundTrip(layout, op, rest);
    }
  }

  /** Decoding inverts the kernel's encoding, whatever follows, for every request that the layout can
      express and the decoder supports in it. */
  lemma DecodeInvertsEncode(layout: Layout, op: Op, rest: seq<byte>)
    requires Expressible(layout, op) && Supported(layout, op)
    ensures Recovers(layout, op, rest)
  {
    OpcodeLeadsToDecoder(layout, op, Encode(layout, op) + rest);
    DecoderRecovers(layout, op, rest);
  }

  /** And only for those: a request is recovered from its argument if and only if it is supported. */
  lemma RecoversIff(layout: Layout, op: Op)
    requires Expressible(layout, op)
    ensures Recovers(layout, op, []) <==> Supported(layout, op)
  {
    if Supported(layout, op) {
      DecodeInvertsEncode(layout, op, []);
    } else {
      OpcodeLeadsToDecoder(layout, op, Encode(layout, op) + []);
      assert Encode(layout, op) + [] == Encode(layout, op);
      OldCreateIsMisread(layout, op);
    }
  }

  // The two sides after the negotiation.

  /** The layout the kernel uses after reading the reply. */
  function KernelLayout(out: InitOut): Layout {
    Layout(out.minor, SETXATTR_EXT in FlagsRead(out))
  }

  lemma SetxattrFlagIsRead(c: Config)
    requires forall k :: k in c.flags ==> k < 64
    ensures SETXATTR_EXT in FlagsRead(ToOut(c)) <==> c.minor > 4 && SETXATTR_EXT in c.flags
  {
    LowWordRoundTrip(c.flags);
  }

  /** Both sides use the same layouts if and only if the session does not carry SETXATTR_EXT under a
      version that the decoder takes to be too old for it. */
  lemma LayoutsAgreeIff(c: Config)
    requires forall k :: k in c.flags ==> k < 64
    ensures KernelLayout(ToOut(c)) == SessionLayout(c) <==> !(SETXATTR_EXT in c.flags && 4 < c.minor <= 32)
  {
    SetxattrFlagIsRead(c);
  }

  lemma {:induction false} EmptyWord(at: nat, width: nat)
    ensures WordFrom({}, at, width) == 0
    decreases width
  {
    if width > 0 {
      EmptyWord(at + 1, width - 1);
    }
  }

  predicate AllZero(s: seq<byte>) {
    forall k :: 0 <= k < |s| ==> s[k] == 0
  }

  lemma {:induction false} ShiftedZeros(s: seq<byte>, zeros: seq<byte>, rest: seq<byte>, k: nat)
    requires |zeros| == 8 && AllZero(zeros) && (zeros + s + rest)[..|s|] == s && k < |s|
    ensures s[k] == 0
    decreases k
  {
    assert s[k] == (zeros + s + rest)[k];
    if k >= 8 {
      ShiftedZeros(s, zeros, rest, k - 8);
    }
  }

  lemma ShiftedByZerosIff(s: seq<byte>, zeros: seq<byte>, rest: seq<byte>)
    requires |zeros| == 8 && AllZero(zeros)
    ensures (zeros + s + rest)[..|s|] == s <==> AllZero(s)
  {
    if (zeros + s + rest)[..|s|] == s {
      forall k | 0 <= k < |s| ensures s[k] == 0 {
        ShiftedZeros(s, zeros, rest, k);
      }
    }
  }

  function Zeros(n: nat): (s: seq<byte>)
    ensures |s| == n && AllZero(s)
  {
    seq(n, _ => 0)
  }

  lemma ZeroWords()
    ensures LE32(0) + LE32(0) == [0] + Zeros(7)
  {
    assert LE32(0) == [0, 0, 0, 0];
  }

  lemma ReadsEmptyName(minor: nat, ino: nat, len: nat, flags: nat, behind: seq<byte>)
    requires 0 < ino && len < U32 && flags < U32 && len <= |behind|
    ensures SetxattrOp(Layout(minor, false), ino, LE32(len) + LE32(flags) + ([0] + behind))
         == Ok(Setxattr(ino, [], behind[..len], flags, {}))
  {
    HeadIsTaken(LE32(len) + LE32(flags), [0] + behind);
    MknodHeadFields(len, flags, 0);
    assert CStr([]) == [0];
    NameIsTaken([], behind);
  }

  lemma EncodedExtended(minor: nat, op: Op, rest: seq<byte>)
    requires op.Setxattr? && op.extraFlags == {} && Expressible(Layout(minor, true), op)
    ensures Encode(Layout(minor, true), op) + rest
         == LE32(|op.value|) + LE32(op.xattrFlags) + ([0] + (Zeros(7) + CStr(op.name) + op.value + rest))
  {
    EmptyWord(0, 32);
    ZeroWords();
    Regrouped(LE32(|op.value|), LE32(op.xattrFlags), LE32(0), LE32(0), CStr(op.name), op.value, rest);
    Pushed(0, Zeros(7), CStr(op.name), op.value, rest);
  }

  lemma Regrouped(a: seq<byte>, b: seq<byte>, c: seq<byte>, d: seq<byte>, n: seq<byte>, v: seq<byte>, rest: seq<byte>)
    ensures (a + b + c + d) + (n + v) + rest == a + b + ((c + d) + n + v + rest)
  {
  }

  lemma Pushed(x: byte, z: seq<byte>, n: seq<byte>, v: seq<byte>, rest: seq<byte>)
    ensures ([x] + z) + n + v + rest == [x] + (z + n + v + rest)
  {
  }

  /** When only the kernel uses the extended struct, the decoder takes its second half for the name.
      Without extra flags the name comes out empty, and the value is read eight bytes early. */
  lemma ExtendedSetxattr(minor: nat, op: Op, rest: seq<byte>)
    requires op.Setxattr? && op.extraFlags == {} && Expressible(Layout(minor, true), op)
    ensures var behind := Zeros(7) + CStr(op.name) + op.value + rest;
            SetxattrOp(Layout(minor, false), NodeOf(op), Encode(Layout(minor, true), op) + rest)
            == Ok(Setxattr(op.ino, [], behind[..|op.value|], op.xattrFlags, {}))
  {
    EncodedExtended(minor, op, rest);
    ReadsEmptyName(minor, op.ino, |op.value|, op.xattrFlags, Zeros(7) + CStr(op.name) + op.value + rest);
  }

  /** So a setxattr survives if and only if it sets an empty name, without extra flags, to zeros. */
  lemma ExtendedSetxattrIff(minor: nat, op: Op, rest: seq<byte>)
    requires op.Setxattr? && Expressible(Layout(minor, true), op)
    ensures SetxattrOp(Layout(minor, false), NodeOf(op), Encode(Layout(minor, true), op) + rest) == Ok(op)
            <==> op.name == [] && op.extraFlags == {} && AllZero(op.value)
  {
    if op.extraFlags == {} {
      ExtendedSetxattr(minor, op, rest);
      if op.name == [] {
        ShiftedByZerosIff(op.value, Zeros(7) + CStr([]), rest);
      }
    }
  }

  /** The negotiation keeps SETXATTR_EXT whenever the kernel offers it. When the version settled on is
      below 7.33, because the library is held there or the kernel is older, the two sides then use
      different layouts. */
  lemma LayoutsDiffer(c: Config, i: InitIn, pageSize: nat)
    requires i.major == 7 && InitInOk(i) && SETXATTR_EXT in OfferedFlags(i) && 4 < Min(c.minor, i.minor) <= 32
    ensures var c' := Negotiate(c, i, pageSize);
            && c'.Ok?
            && KernelLayout(ToOut(c'.value)) == Layout(Min(c.minor, i.minor), true)
            && SessionLayout(c'.value) == Layout(Min(c.minor, i.minor), false)
  {
    var c' := Negotiate(c, i, pageSize).value;
    FlagKept(c, i, pageSize);
    SetxattrFlagIsRead(c');
    assert ToOut(c').minor == c'.minor;
  }

  lemma FlagKept(c: Config, i: InitIn, pageSize: nat)
    requires i.major == 7 && InitInOk(i) && SETXATTR_EXT in OfferedFlags(i)
    ensures var c' := Negotiate(c, i, pageSize);
            && c'.Ok? && c'.value.minor == Min(c.minor, i.minor) && SETXATTR_EXT in c'.value.flags
            && forall k :: k in c'.value.flags ==> k < 64
  {
  }

  /** In such a session a setxattr is decoded as it was meant if and only if it sets an empty name,
      without extra flags, to zeros. */
  lemma SetxattrIsMisread(c: Config, i: InitIn, pageSize: nat, op: Op, rest: seq<byte>)
    requires i.major == 7 && InitInOk(i) && SETXATTR_EXT in OfferedFlags(i) && 4 < Min(c.minor, i.minor) <= 32
    requires op.Setxattr? && Expressible(Layout(Min(c.minor, i.minor), true), op)
    ensures var c' := Negotiate(c, i, pageSize);
            && c'.Ok?
            && var arg := Encode(KernelLayout(ToOut(c'.value)), op) + rest;
               SetxattrOp(SessionLayout(c'.value), NodeOf(op), arg) == Ok(op)
               <==> op.name == [] && op.extraFlags == {} && AllZero(op.value)
  {
    LayoutsDiffer(c, i, pageSize);
    ExtendedSetxattrIff(Min(c.minor, i.minor), op, rest);
  }

  /** After a negotiation that started from the default minor version, with a kernel that offers
      SETXATTR_EXT only from 7.33 on, a request is decoded as it was meant if and only if it is not a
      create under a minor version below 12. (With kernels of 7.4 and 7.5 there is no negotiation.) */
  lemma SessionsDecode(c: Config, i: InitIn, pageSize: nat, op: Op)
    requires c.minor == KERNEL_MINOR_VERSION && (forall k :: k in c.flags ==> k < 64)
    requires InitInOk(i) && i.minor != 4 && i.minor != 5 && Negotiate(c, i, pageSize).Ok?
    requires SETXATTR_EXT in OfferedFlags(i) ==> i.minor >= 33
    requires Expressible(KernelLayout(ToOut(Negotiate(c, i, pageSize).value)), op)
    ensures var c' := Negotiate(c, i, pageSize).value;
            Decode(SessionLayout(c'), OpcodeOf(op), NodeOf(op), Encode(KernelLayout(ToOut(c')), op)) == Some(Ok(op))
            <==> (op.Create? ==> c'.minor >= 12)
  {
    var c' := Negotiate(c, i, pageSize).value;
    LayoutsAgreeIff(c');
    RecoversIff(SessionLayout(c'), op);
    assert Encode(SessionLayout(c'), op) + [] == Encode(SessionLayout(c'), op);
  }
}
