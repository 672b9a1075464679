/** The in-memory file system as the source writes it: handlers that update the inode table in
    place. Each is proved against its step of the state machine, and keeps its invariant. */
module MemFsServer {
  import opened Prelude
  import opened Wire
  import opened Forgets
  import opened DirEntries
  import opened MemFs
  import opened MemFsNames
  import opened MemFsInvariant
  import MemFsPaging

  lemma FittingUnfold(rest: seq<DirEntry>, cap: nat, k: nat)
    requires k < |rest|
    ensures Fitting(rest[k..], cap)
         == if RecordSize(rest[k]) > cap then 0 else 1 + Fitting(rest[k + 1..], cap - RecordSize(rest[k]))
  {
    assert rest[k..][0] == rest[k] && rest[k..][1..] == rest[k + 1..];
  }

  /** The loop of readdir over `iter().skip(offset)`. */
  method PushFrom(entries: seq<DirEntry>, offset: nat, out: DirEntryBuf)
    requires out.Valid() && out.entries == [] && out.buf == [] && out.capacity < U32
    modifies out
    ensures out.Valid() && out.entries == PageOf(entries, offset, out.capacity)
  {
    var rest := entries[Min(offset, |entries|)..];
    var k := 0;
    while k < |rest|
      invariant k <= |rest| && out.Valid()
      invariant out.entries == rest[..k]
      invariant k + Fitting(rest[k..], out.capacity - |out.buf|) == Fitting(rest, out.capacity)
    {
      FittingUnfold(rest, out.capacity - |out.buf|, k);
      var full := out.PushEntry(rest[k]);
      if full {
        return;
      }
      k := k + 1;
    }
  }

  class Server {
    var inodes: map<Ino, INode>
    var nextIno: nat
    var handles: map<nat, seq<DirEntry>>

    function State(): Fs
      reads this
    {
      Fs(inodes, nextIno, handles)
    }

    ghost predicate Valid()
      reads this
    {
      WellFormed(State())
    }

    constructor ()
      ensures Valid() && State() == Init()
    {
      inodes := map[ROOT := INode(ROOT, 2, 0, ROOT_COUNT, ROOT_COUNT, Dir(map[], None))];
      nextIno := ROOT + 1;
      handles := map[];
      new;
      InitWellFormed();
    }

    /** Takes the next number; the entry under it is vacant. */
    method VacantEntry() returns (ino: Ino)
      requires Valid()
      modifies this`nextIno
      ensures ino == old(nextIno) && ino !in inodes && ino != 0
      ensures nextIno == ino + 1
    {
      NextInoVacant(State());
      ino := nextIno;
      nextIno := nextIno + 1;
    }

    method MakeNode(parent: Ino, name: Name, what: NodeSpec) returns (r: Reply)
      requires Valid()
      modifies this
      ensures Valid()
      ensures (State(), r) == Step(old(State()), Make(parent, name, what))
    {
      StepKeepsWellFormed(State(), Make(parent, name, what));
      if what.Special? {
        return Fail(NOTSUP);
      }
      if parent !in inodes {
        return Fail(NOENT);
      }
      var node := inodes[parent];
      if !node.kind.Dir? {
        return Fail(NOTDIR);
      }
      if name in node.kind.children {
        return Fail(EXIST);
      }
      var ino := VacantEntry();
      var inode := NewNode(ino, parent, what);
      inodes := inodes[parent := SetChildren(node, node.kind.children[name := ino])];
      inodes := inodes[ino := inode];
      return Entry(ino, inode.nlink);
    }

    method UnlinkNode(parent: Ino, name: Name) returns (r: Reply)
      requires Valid()
      modifies this
      ensures Valid()
      ensures (State(), r) == Step(old(State()), Unlink(parent, name))
    {
      StepKeepsWellFormed(State(), Unlink(parent, name));
      if parent !in inodes {
        return Fail(NOENT);
      }
      var dir := inodes[parent];
      if !dir.kind.Dir? {
        return Fail(NOTDIR);
      }
      if name !in dir.kind.children {
        return Fail(NOENT);
      }
      var ino := dir.kind.children[name];
      assert TargetLive(State(), Slot(parent, name));
      var inode := inodes[ino];
      if inode.kind.Dir? && inode.kind.children != map[] {
        return Fail(NOTEMPTY);
      }
      inodes := inodes[parent := SetChildren(dir, dir.kind.children - {name})];
      inode := inode.(links := SaturatingSub(inode.links, 1));
      inode := inode.(nlink := SaturatingSub(inode.nlink, 1));
      inodes := inodes[ino := inode];
      return Done;
    }

    method LookupChild(parent: Ino, name: Name) returns (r: Reply)
      requires Valid()
      modifies this
      ensures Valid()
      ensures (State(), r) == Step(old(State()), Lookup(parent, name))
    {
      StepKeepsWellFormed(State(), Lookup(parent, name));
      if parent !in inodes {
        return Fail(NOENT);
      }
      var dir := inodes[parent];
      if !dir.kind.Dir? {
        return Fail(NOTDIR);
      }
      if name !in dir.kind.children {
        return Fail(NOENT);
      }
      var childIno := dir.kind.children[name];
      assert TargetLive(State(), Slot(parent, name));
      var child := inodes[childIno];
      child := child.(refcount := child.refcount + 1);
      inodes := inodes[childIno := child];
      return Entry(childIno, child.nlink);
    }

    /** The forget loop: saturating subtraction, and removal of what nothing refers to. An item for
        node 0 panics in the middle of the batch, with the items before it done. */
    method ForgetBatch(forgets: seq<Forget>) returns (r: Reply)
      requires Valid()
      modifies this
      ensures Valid()
      ensures (State(), r) == Step(old(State()), ForgetAll(forgets))
    {
      StepKeepsWellFormed(State(), ForgetAll(Addressed(forgets)));
      ghost var todo := Addressed(forgets);
      var k := 0;
      while k < |forgets|
        invariant k <= |todo|
        invariant nextIno == old(nextIno) && handles == old(handles)
        invariant ForgetMany(inodes, todo[k..]) == ForgetMany(old(inodes), todo)
      {
        var ino := forgets[k].ino;
        if ino == 0 {
          return Panic;
        }
        ghost var before := inodes;
        assert todo[k..][0] == forgets[k] && todo[k..][1..] == todo[k + 1..];
        if ino in inodes {
          var inode := inodes[ino];
          inode := inode.(refcount := SaturatingSub(inode.refcount, forgets[k].nlookup));
          inodes := inodes[ino := inode];
          if inode.refcount == 0 && inode.links == 0 {
            inodes := inodes - {ino};
          }
        }
        assert inodes == ForgetOne(before, forgets[k]);
        k := k + 1;
      }
      return NoReply;
    }

    method HardLink(ino: Ino, newparent: Ino, newname: Name) returns (r: Reply)
      requires Valid()
      modifies this
      ensures Valid()
      ensures (State(), r) == Step(old(State()), Link(ino, newparent, newname))
    {
      if ino !in inodes {
        return Fail(NOENT);
      }
      if ino == newparent {
        return Panic;
      }
      StepKeepsWellFormed(State(), Link(ino, newparent, newname));
      if newparent !in inodes {
        return Fail(NOENT);
      }
      var dir := inodes[newparent];
      if !dir.kind.Dir? {
        return Fail(NOTDIR);
      }
      if newname in dir.kind.children {
        return Fail(EXIST);
      }
      inodes := inodes[newparent := SetChildren(dir, dir.kind.children[newname := ino])];
      var inode := inodes[ino];
      inode := inode.(links := inode.links + 1);
      inode := inode.(nlink := inode.nlink + 1);
      inode := inode.(refcount := inode.refcount + 1);
      inodes := inodes[ino := inode];
      return Entry(ino, inode.nlink);
    }

    method RenameEntry(parent: Ino, name: Name, newparent: Ino, newname: Name, noFlags: bool) returns (r: Reply)
      requires Valid()
      modifies this
      ensures Valid()
      ensures (State(), r) == Step(old(State()), Rename(parent, name, newparent, newname, noFlags))
    {
      StepKeepsWellFormed(State(), Rename(parent, name, newparent, newname, noFlags));
      if !noFlags {
        return Fail(INVAL);
      }
      if parent !in inodes {
        return Fail(NOENT);
      }
      var dir := inodes[parent];
      if !dir.kind.Dir? {
        return Fail(NOTDIR);
      }
      if newparent == parent {
        if name !in dir.kind.children {
          return Fail(NOENT);
        }
        var ino := dir.kind.children[name];
        if newname in dir.kind.children {
          return Fail(EXIST);
        }
        var children := dir.kind.children[newname := ino];
        children := children - {name};
        inodes := inodes[parent := SetChildren(dir, children)];
      } else {
        if newparent !in inodes {
          return Fail(NOENT);
        }
        var newdir := inodes[newparent];
        if !newdir.kind.Dir? {
          return Fail(NOTDIR);
        }
        if newname in newdir.kind.children {
          return Fail(EXIST);
        }
        if name !in dir.kind.children {
          return Fail(NOENT);
        }
        var ino := dir.kind.children[name];
        inodes := inodes[parent := SetChildren(dir, dir.kind.children - {name})];
        inodes := inodes[newparent := SetChildren(newdir, newdir.kind.children[newname := ino])];
      }
      return Done;
    }

    /** The hash map's iteration order is arbitrary; whatever it is, the listing is its snapshot. */
    method CollectEntries(ino: Ino) returns (entries: seq<DirEntry>, ghost order: seq<Name>)
      requires ino in inodes && inodes[ino].kind.Dir?
      ensures Enumerates(order, inodes[ino].kind.children.Keys)
      ensures entries == Snapshot(inodes[ino].ino, inodes[ino].kind.parent, inodes[ino].kind.children, order)
      ensures MemFsPaging.Lists(entries, inodes[ino].ino, inodes[ino].kind.parent, inodes[ino].kind.children)
      ensures MemFsPaging.Numbered(entries)
    {
      var children := inodes[ino].kind.children;
      var parent := inodes[ino].kind.parent;
      var self := inodes[ino].ino;
      var offset := 1;
      entries := [DirEntry(DOT, self, Some(Directory), offset)];
      offset := offset + 1;
      entries := entries + [DirEntry(DOT_DOT, if parent.Some? then parent.value else self, Some(Directory), offset)];
      offset := offset + 1;
      order := [];
      var pending := children.Keys;
      while pending != {}
        invariant pending <= children.Keys
        invariant forall n :: n in order <==> n in children.Keys - pending
        invariant forall j, k :: 0 <= j < k < |order| ==> order[j] != order[k]
        invariant offset == |order| + 3
        invariant entries == Snapshot(self, parent, children, order)
        decreases pending
      {
        var name :| name in pending;
        assert forall j :: 0 <= j < |order| ==> order[j] in order;
        entries := entries + [DirEntry(name, children[name], None, offset)];
        offset := offset + 1;
        order := order + [name];
        pending := pending - {name};
      }
      MemFsPaging.SnapshotLists(self, parent, children, order);
    }

    /** `fh` is the key the slab picked. */
    method Open(ino: Ino, fh: nat) returns (r: Reply, ghost order: seq<Name>)
      requires Valid() && fh !in handles
      modifies this
      ensures Valid()
      ensures (State(), r) == Step(old(State()), Opendir(ino, fh, order))
      ensures Admissible(old(State()), Opendir(ino, fh, order))
    {
      order := [];
      if ino !in inodes {
        return Fail(NOENT), order;
      }
      if inodes[ino].nlink == 0 {
        assert NodeOk(State(), ino);
        return Fail(NOENT), order;
      }
      if !inodes[ino].kind.Dir? {
        return Fail(NOTDIR), order;
      }
      var entries;
      entries, order := CollectEntries(ino);
      StepKeepsWellFormed(State(), Opendir(ino, fh, order));
      handles := handles[fh := entries];
      return Opened(fh), order;
    }

    /** The page is built by pushing entries until one is refused. */
    method ReadPage(fh: nat, offset: nat, size: nat, plus: bool) returns (r: Reply)
      requires size < U32
      ensures (State(), r) == Step(State(), Readdir(fh, offset, size, plus))
    {
      if plus {
        return Fail(NOSYS);
      }
      if fh !in handles {
        return Fail(INVAL);
      }
      var out := new DirEntryBuf(size);
      PushFrom(handles[fh], offset, out);
      return Page(out.buf);
    }

    /** The slab panics on a key that is not there. */
    method Release(fh: nat) returns (r: Reply)
      requires Valid()
      modifies this`handles
      ensures Valid()
      ensures (State(), r) == Step(old(State()), Releasedir(fh))
    {
      if fh !in handles {
        return Panic;
      }
      StepKeepsWellFormed(State(), Releasedir(fh));
      handles := handles - {fh};
      return Done;
    }

    method ReadContents(ino: Ino, offset: nat, size: nat) returns (r: Reply)
      ensures (State(), r) == Step(State(), Read(ino, offset, size))
    {
      if ino !in inodes {
        return Fail(NOENT);
      }
      if !inodes[ino].kind.RegularFile? {
        return Fail(INVAL);
      }
      var content := inodes[ino].kind.contents;
      content := if offset <= |content| then content[offset..] else [];
      content := content[..Min(|content|, size)];
      return Data(content);
    }

    method WriteContents(ino: Ino, offset: nat, size: nat, data: seq<byte>) returns (r: Reply)
      requires Valid()
      modifies this
      ensures Valid()
      ensures (State(), r) == Step(old(State()), Write(ino, offset, size, data))
    {
      if offset + size < MAX_LEN {
        StepKeepsWellFormed(State(), Write(ino, offset, size, data));
      }
      if ino !in inodes {
        return Fail(NOENT);
      }
      var inode := inodes[ino];
      if !inode.kind.RegularFile? {
        return Fail(INVAL);
      }
      if offset + size >= MAX_LEN {
        return Panic;
      }
      var content := Grown(inode.kind.contents, offset + size);
      var n := Min(size, |data|);
      content := content[..offset] + data[..n] + content[offset + n..];
      inode := inode.(kind := RegularFile(content));
      assert content == WriteAt(old(inodes[ino].kind.contents), offset, size, data);
      inodes := inodes[ino := inode];
      if |data| < size {
        return Fail(IO);
      }
      inode := inode.(size := offset + size);
      inodes := inodes[ino := inode];
      assert inodes == old(inodes)[ino := inode];
      return Written(size);
    }
  }
}
