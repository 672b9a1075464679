/** From the device to the decoded request: the decoder as the source drives it, and a write request
    all the way through. */
module RequestPath {
  import opened Prelude
  import opened Wire
  import opened Forgets
  import opened Init
  import Framing
  import MemFs
  import MemFsContents
  import Handshake
  import opened Operation

  // The decoder, cursor step by cursor step.

  method DecodeNamed(d: Decoder, opcode: nat, nodeid: nat) returns (r: Decoded)
    modifies d
    ensures r == NamedOp(opcode, nodeid, old(d.bytes))
  {
    var name :- d.FetchStr();
    if opcode == FUSE_SYMLINK {
      var link :- d.FetchStr();
      var parent :- NodeId(nodeid);
      return Ok(Symlink(parent, name, link));
    }
    var parent :- NodeId(nodeid);
    return Ok(
      if opcode == FUSE_LOOKUP then Lookup(parent, name)
      else if opcode == FUSE_UNLINK then Unlink(parent, name)
      else if opcode == FUSE_REMOVEXATTR then Removexattr(parent, name)
      else Rmdir(parent, name));
  }

  method DecodeForget(d: Decoder, opcode: nat, nodeid: nat) returns (r: Decoded)
    modifies d
    ensures r == ForgetOp(opcode, nodeid, old(d.bytes))
  {
    var h :- d.FetchBytes(8);
    if opcode == FUSE_FORGET {
      var ino :- NodeId(nodeid);
      return Ok(Forget1(Forget(ino, Field(h, 0, 8))));
    }
    var count := Field(h, 0, 4);
    var items :- d.FetchBytes(16 * count);
    return Ok(BatchForget(DecodeForgets(items, count)));
  }

  method DecodeMknod(layout: Layout, d: Decoder, nodeid: nat) returns (r: Decoded)
    modifies d
    ensures r == MknodOp(layout, nodeid, old(d.bytes))
  {
    if layout.minor <= 11 {
      var h :- d.FetchBytes(8);
      var name :- d.FetchStr();
      var parent :- NodeId(nodeid);
      return Ok(Mknod(parent, name, Field(h, 0, 4), Field(h, 4, 4), {}));
    }
    var h :- d.FetchBytes(16);
    var name :- d.FetchStr();
    var parent :- NodeId(nodeid);
    return Ok(Mknod(parent, name, Field(h, 0, 4), Field(h, 4, 4), BitsOf(Field(h, 8, 4)) * PERMISSIONS));
  }

  method DecodeMkdir(d: Decoder, nodeid: nat) returns (r: Decoded)
    modifies d
    ensures r == MkdirOp(nodeid, old(d.bytes))
  {
    var h :- d.FetchBytes(8);
    var name :- d.FetchStr();
    var parent :- NodeId(nodeid);
    return Ok(Mkdir(parent, name, BitsOf(Field(h, 0, 4)) * MODE_BITS, BitsOf(Field(h, 4, 4)) * PERMISSIONS));
  }

  method DecodeRename(d: Decoder, opcode: nat, nodeid: nat) returns (r: Decoded)
    modifies d
    ensures r == RenameOp(opcode, nodeid, old(d.bytes))
  {
    var h :- d.FetchBytes(if opcode == FUSE_RENAME then 8 else 16);
    var name :- d.FetchStr();
    var newname :- d.FetchStr();
    var parent :- NodeId(nodeid);
    var newparent :- NodeId(Field(h, 0, 8));
    if opcode == FUSE_RENAME {
      return Ok(Rename(parent, name, newparent, newname));
    }
    return Ok(Rename2(parent, name, newparent, newname, BitsOf(Field(h, 8, 4)) * RENAME_FLAGS));
  }

  method DecodeLink(d: Decoder, nodeid: nat) returns (r: Decoded)
    modifies d
    ensures r == LinkOp(nodeid, old(d.bytes))
  {
    var h :- d.FetchBytes(8);
    var newname :- d.FetchStr();
    var ino :- NodeId(Field(h, 0, 8));
    var newparent :- NodeId(nodeid);
    return Ok(Link(ino, newparent, newname));
  }

  method DecodeWrite(layout: Layout, d: Decoder, nodeid: nat) returns (r: Decoded)
    modifies d
    ensures r == WriteOp(layout, nodeid, old(d.bytes))
  {
    if layout.minor <= 8 {
      var h :- d.FetchBytes(24);
      var ino :- NodeId(nodeid);
      return Ok(Write(ino, Field(h, 0, 8), Field(h, 8, 8), Field(h, 16, 4), 0, None, {}));
    }
    var h :- d.FetchBytes(40);
    var ino :- NodeId(nodeid);
    var flags := BitsOf(Field(h, 20, 4));
    var lockOwner := if WRITE_LOCKOWNER in flags then Some(Field(h, 24, 8)) else None;
    return Ok(Write(ino, Field(h, 0, 8), Field(h, 8, 8), Field(h, 16, 4), Field(h, 32, 4),
                    lockOwner, flags * WRITE_FLAGS));
  }

  method DecodeSetxattr(layout: Layout, d: Decoder, nodeid: nat) returns (r: Decoded)
    modifies d
    ensures r == SetxattrOp(layout, nodeid, old(d.bytes))
  {
    var h :- d.FetchBytes(if layout.setxattrExt then 16 else 8);
    var name :- d.FetchStr();
    var value :- d.FetchBytes(Field(h, 0, 4));
    var ino :- NodeId(nodeid);
    var extra := if layout.setxattrExt then BitsOf(Field(h, 8, 4)) * SETXATTR_FLAGS else {};
    return Ok(Setxattr(ino, name, value, Field(h, 4, 4), extra));
  }

  method DecodeGetxattr(d: Decoder, nodeid: nat) returns (r: Decoded)
    modifies d
    ensures r == GetxattrOp(nodeid, old(d.bytes))
  {
    var h :- d.FetchBytes(8);
    var name :- d.FetchStr();
    var ino :- NodeId(nodeid);
    return Ok(Getxattr(ino, name, Field(h, 0, 4)));
  }

  method DecodeCreate(d: Decoder, nodeid: nat) returns (r: Decoded)
    modifies d
    ensures r == CreateOp(nodeid, old(d.bytes))
  {
    var h :- d.FetchBytes(16);
    var name :- d.FetchStr();
    var parent :- NodeId(nodeid);
    return Ok(Create(parent, name, Field(h, 4, 4), BitsOf(Field(h, 8, 4)) * PERMISSIONS, Field(h, 0, 4)));
  }

  /** `Operation::decode` for a session. */
  method DecodeRequest(c: Config, opcode: nat, nodeid: nat, arg: seq<byte>) returns (r: Option<Decoded>)
    ensures r == Decode(SessionLayout(c), opcode, nodeid, arg)
  {
    var layout := SessionLayout(c);
    var d := new Decoder(arg);
    var op;
    if opcode == FUSE_FORGET || opcode == FUSE_BATCH_FORGET {
      op := DecodeForget(d, opcode, nodeid);
    } else if opcode in {FUSE_LOOKUP, FUSE_SYMLINK, FUSE_UNLINK, FUSE_RMDIR, FUSE_REMOVEXATTR} {
      op := DecodeNamed(d, opcode, nodeid);
    } else if opcode == FUSE_MKNOD {
      op := DecodeMknod(layout, d, nodeid);
    } else if opcode == FUSE_MKDIR {
      op := DecodeMkdir(d, nodeid);
    } else if opcode == FUSE_RENAME || opcode == FUSE_RENAME2 {
      op := DecodeRename(d, opcode, nodeid);
    } else if opcode == FUSE_LINK {
      op := DecodeLink(d, nodeid);
    } else if opcode == Framing.FUSE_WRITE {
      op := DecodeWrite(layout, d, nodeid);
    } else if opcode == FUSE_SETXATTR {
      op := DecodeSetxattr(layout, d, nodeid);
    } else if opcode == FUSE_GETXATTR {
      op := DecodeGetxattr(d, nodeid);
    } else if opcode == FUSE_CREATE {
      op := DecodeCreate(d, nodeid);
    } else {
      return None;
    }
    return Some(op);
  }

  // A write request, from the message to operation and payload.

  /** The message the kernel sends for a write: header, argument, payload. */
  ghost predicate WriteMessage(msg: seq<byte>, layout: Layout, op: Op, data: seq<byte>) {
    && op.Write? && Expressible(layout, op)
    && |msg| >= Framing.IN_HEADER
    && Framing.LenField(msg[..Framing.IN_HEADER]) == |msg|
    && Framing.OpcodeField(msg[..Framing.IN_HEADER]) == Framing.FUSE_WRITE
    && msg[Framing.IN_HEADER..] == Encode(layout, op) + data
  }

  lemma CurrentWriteArrives(st: Framing.PipeState, msg: seq<byte>, layout: Layout, op: Op, data: seq<byte>)
    requires Framing.PipeOk(st) && WriteMessage(msg, layout, op, data) && layout.minor >= 9
    ensures var (st', r) := Framing.PipeReceive(st, Framing.Message(msg), true);
            r.Ok? && st'.data == data && st'.arg == Encode(layout, op)
  {
    var arg := Encode(layout, op);
    var body := msg[Framing.IN_HEADER..];
    assert |arg| == 40 && body[..40] == arg && body[40..] == data;
    Framing.PipeParts(st, msg, true);
    assert msg[Framing.IN_HEADER..Framing.IN_HEADER + 40] == body[..40];
    assert msg[Framing.IN_HEADER + 40..] == body[40..];
  }

  lemma OldWriteDoesNotArrive(st: Framing.PipeState, msg: seq<byte>, layout: Layout, op: Op, data: seq<byte>)
    requires Framing.PipeOk(st) && WriteMessage(msg, layout, op, data) && layout.minor <= 8
    ensures var (st', r) := Framing.PipeReceive(st, Framing.Message(msg), true);
            r.Ok? ==> |st'.data| == |data| - 16
  {
    Framing.PipeReceiveIsolates(st, Framing.Message(msg), true);
    if Framing.WellFormed(msg) {
      Framing.PipeParts(st, msg, true);
    }
    assert |msg[Framing.IN_HEADER..]| == 24 + |data|;
  }

  /** Operation and payload of a write reach the file system intact if and only if the kernel uses the
      write layout of 7.9 or later: framing always cuts 40 bytes, the old struct has 24. */
  lemma WriteArrivesIff(st: Framing.PipeState, msg: seq<byte>, layout: Layout, op: Op, data: seq<byte>)
    requires Framing.PipeOk(st) && WriteMessage(msg, layout, op, data)
    ensures var (st', r) := Framing.PipeReceive(st, Framing.Message(msg), true);
            (r.Ok? && st'.data == data && Decode(layout, Framing.FUSE_WRITE, NodeOf(op), st'.arg) == Some(Ok(op)))
            <==> layout.minor >= 9
  {
    if layout.minor >= 9 {
      CurrentWriteArrives(st, msg, layout, op, data);
      DecodeInvertsEncode(layout, op, []);
      assert Encode(layout, op) + [] == Encode(layout, op);
    } else {
      OldWriteDoesNotArrive(st, msg, layout, op, data);
    }
  }

  // Any request, from the message to operation and payload.

  function NodeField(header: seq<byte>): nat
    requires |header| == Framing.IN_HEADER
  {
    FromLE(header[16..24])
  }

  /** The message the kernel sends for a request: a header with the length, the opcode and the node, the
      argument, and for a write the payload. */
  ghost predicate RequestMessage(msg: seq<byte>, layout: Layout, op: Op, data: seq<byte>) {
    && Expressible(layout, op) && (op.Write? || data == [])
    && |msg| >= Framing.IN_HEADER
    && Framing.LenField(msg[..Framing.IN_HEADER]) == |msg|
    && Framing.OpcodeField(msg[..Framing.IN_HEADER]) == OpcodeOf(op)
    && NodeField(msg[..Framing.IN_HEADER]) == NodeOf(op)
    && msg[Framing.IN_HEADER..] == Encode(layout, op) + data
  }

  /** The request comes out of the pipe buffer and the decoder as it was meant, payload and all. */
  ghost predicate Arrives(st: Framing.PipeState, msg: seq<byte>, layout: Layout, op: Op, data: seq<byte>)
    requires Framing.PipeOk(st)
  {
    var (st', r) := Framing.PipeReceive(st, Framing.Message(msg), true);
    && r.Ok? && st'.data == data && |st'.header| == Framing.IN_HEADER
    && Decode(layout, Framing.OpcodeField(st'.header), NodeField(st'.header), st'.arg) == Some(Ok(op))
  }

  /** The numbers of the protocol for the modelled requests. */
  lemma OpcodesAreKnown(op: Op)
    ensures Framing.IsOpcode(OpcodeOf(op)) && Framing.KnownOpcode(OpcodeOf(op))
    ensures OpcodeOf(op)
         == match op
            case Lookup(_, _) => 1
            case Forget1(_) => 2
            case Symlink(_, _, _) => 6
            case Mknod(_, _, _, _, _) => 8
            case Mkdir(_, _, _, _) => 9
            case Unlink(_, _) => 10
            case Rmdir(_, _) => 11
            case Rename(_, _, _, _) => 12
            case Link(_, _, _) => 13
            case Write(_, _, _, _, _, _, _) => 16
            case Setxattr(_, _, _, _, _) => 21
            case Getxattr(_, _, _) => 22
            case Removexattr(_, _) => 24
            case Create(_, _, _, _, _) => 35
            case BatchForget(_) => 42
            case Rename2(_, _, _, _, _) => 45
  {
  }

  /** But for a write, the argument is the whole body. */
  lemma BodyIsArgument(st: Framing.PipeState, msg: seq<byte>, layout: Layout, op: Op)
    requires Framing.PipeOk(st) && RequestMessage(msg, layout, op, []) && !op.Write?
    ensures var (st', r) := Framing.PipeReceive(st, Framing.Message(msg), true);
            r.Ok? && st'.header == msg[..Framing.IN_HEADER] && st'.arg == Encode(layout, op) && st'.data == []
  {
    OpcodesAreKnown(op);
    Framing.PipeParts(st, msg, true);
    assert Encode(layout, op) + [] == Encode(layout, op);
  }

  /** Every request arrives intact, if and only if it is neither a create under a minor version below 12
      nor a write under one below 9. */
  lemma RequestArrivesIff(st: Framing.PipeState, msg: seq<byte>, layout: Layout, op: Op, data: seq<byte>)
    requires Framing.PipeOk(st) && RequestMessage(msg, layout, op, data)
    ensures Arrives(st, msg, layout, op, data) <==>
            Supported(layout, op) && (op.Write? ==> layout.minor >= 9)
  {
    if op.Write? {
      WriteArrivesIff(st, msg, layout, op, data);
      HeaderArrives(st, msg);
    } else {
      BodyIsArgument(st, msg, layout, op);
      RecoversIff(layout, op);
      assert Encode(layout, op) + [] == Encode(layout, op);
    }
  }

  lemma HeaderArrives(st: Framing.PipeState, msg: seq<byte>)
    requires Framing.PipeOk(st)
    ensures var (st', r) := Framing.PipeReceive(st, Framing.Message(msg), true);
            r.Ok? ==> |msg| >= Framing.IN_HEADER && st'.header == msg[..Framing.IN_HEADER]
  {
    Framing.PipeReceiveIsolates(st, Framing.Message(msg), true);
    if Framing.WellFormed(msg) {
      Framing.PipeParts(st, msg, true);
    }
  }

  /** The INIT of a kernel, from the message through the vector buffer of `connect`: its argument is the
      whole body, and it is read as it was meant if and only if its version is not 7.4 or 7.5. */
  lemma InitArrivesIff(vec: Framing.VecState, msg: seq<byte>, i: InitIn)
    requires Framing.VecOk(vec, MIN_READ_BUFFER) && InitInOk(i)
    requires |msg| >= 40 && FromLE(msg[..4]) == |msg| && FromLE(msg[4..8]) == 26
    requires msg[40..] == Handshake.EncodeInit(i)
    ensures var (v, r) := Framing.VecReceive(vec, Framing.Message(msg));
            && r.Ok? && v.pos <= |v.arg| && Framing.VecArg(v) == Handshake.EncodeInit(i)
            && (Handshake.FromBytes(Framing.VecArg(v)) == Some(i) <==> i.minor != 4 && i.minor != 5)
  {
    assert |Handshake.EncodeInit(i)| <= 64;
    Framing.VecCutsByOpcode(vec, MIN_READ_BUFFER, msg);
    Handshake.FromBytesIff(i);
  }

  // A forget batch, from the message to the file system.

  /** Decoding does not look at the node ids of a batch, so an item for node 0 gets through to the
      file system, which panics on it. */
  lemma ZeroItemPanics(layout: Layout, rest: seq<byte>)
    ensures Recovers(layout, BatchForget([Forget(0, 1)]), rest)
    ensures MemFs.Step(MemFs.Init(), MemFs.ForgetAll([Forget(0, 1)])).1.Panic?
  {
    DecodeInvertsEncode(layout, BatchForget([Forget(0, 1)]), rest);
  }

  lemma FileWritePanics(fs: MemFs.Fs, ino: Ino, offset: nat, size: nat, data: seq<byte>)
    requires ino in fs.inodes && fs.inodes[ino].kind.RegularFile? && offset + size >= MemFs.MAX_LEN
    ensures MemFs.Step(fs, MemFs.Write(ino, offset, size, data)).1.Panic?
  {
  }

  /** Nor does it look at the range of a write: every one that ends beyond what a vector can hold gets
      through to the file system, which panics on it; here to the first file of a new file system. */
  lemma HugeWritePanics(layout: Layout, op: Op, rest: seq<byte>, data: seq<byte>)
    requires op.Write? && op.ino == 2 && Expressible(layout, op) && op.offset + op.size >= MemFs.MAX_LEN
    ensures Recovers(layout, op, rest)
    ensures var made := MemFs.Exec([MemFs.Make(MemFs.ROOT, [102], MemFs.NewFile)]);
            MemFs.Step(made, MemFs.Write(op.ino, op.offset, op.size, data)).1.Panic?
  {
    DecodeInvertsEncode(layout, op, rest);
    MemFsContents.MadeFile();
    FileWritePanics(MemFs.Exec([MemFs.Make(MemFs.ROOT, [102], MemFs.NewFile)]), op.ino, op.offset, op.size, data);
  }
}
