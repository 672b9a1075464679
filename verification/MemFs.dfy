/** The in-memory file system as a state machine: one request is one atomic step. */
module MemFs {
  import opened Prelude
  import opened Wire
  import opened Forgets
  import opened DirEntries

  const ROOT: Ino := 1

  /** `u64::MAX / 2`: the root's initial `links` and `refcount`. */
  const ROOT_COUNT: nat := 0x7FFF_FFFF_FFFF_FFFF

  /** `isize::MAX + 1` on a 64-bit machine: no vector gets this long. */
  const MAX_LEN: nat := 0x8000_0000_0000_0000

  datatype Kind =
    | RegularFile(contents: seq<byte>)
    | Dir(children: map<Name, Ino>, parent: Option<Ino>)
    | Symlink(target: Name)

  /** An inode; of its attributes only the ones some handler depends on. */
  datatype INode = INode(ino: Ino, nlink: nat, size: nat, refcount: nat, links: nat, kind: Kind)

  /** The inode table, its allocator and the open directory handles. */
  datatype Fs = Fs(inodes: map<Ino, INode>, nextIno: nat, handles: map<nat, seq<DirEntry>>)

  /** What a creating request asks for; `Special` is any mknod mode that is not a regular file. */
  datatype NodeSpec = NewFile | NewDir | NewSymlink(target: Name) | Special

  datatype Request =
    | Lookup(parent: Ino, name: Name)
    | ForgetAll(forgets: seq<Forget>)
    | Make(parent: Ino, name: Name, what: NodeSpec)
    | Link(ino: Ino, newparent: Ino, newname: Name)
    | Unlink(parent: Ino, name: Name)
    | Rename(parent: Ino, name: Name, newparent: Ino, newname: Name, noFlags: bool)
    | Opendir(ino: Ino, fh: nat, order: seq<Name>)
    | Readdir(fh: nat, offset: nat, size: nat, plus: bool)
    | Releasedir(fh: nat)
    | Read(ino: Ino, offset: nat, size: nat)
    | Write(ino: Ino, offset: nat, size: nat, data: seq<byte>)

  /** `Panic` is what `expect`, `unwrap` and `unreachable!` do when they fire. */
  datatype Reply =
    | Entry(ino: Ino, nlink: nat)
    | Done
    | Opened(fh: nat)
    | Page(buf: seq<byte>)
    | Data(bytes: seq<byte>)
    | Written(size: nat)
    | NoReply
    | Fail(errno: Errno)
    | Panic

  function Init(): Fs {
    Fs(map[ROOT := INode(ROOT, 2, 0, ROOT_COUNT, ROOT_COUNT, Dir(map[], None))], ROOT + 1, map[])
  }

  /** The inode a creating request builds for number `ino`. */
  function NewNode(ino: Ino, parent: Ino, what: NodeSpec): INode
    requires !what.Special?
  {
    match what
    case NewFile => INode(ino, 1, 0, 1, 1, RegularFile([]))
    case NewDir => INode(ino, 2, 0, 1, 1, Dir(map[], Some(parent)))
    case NewSymlink(target) => INode(ino, 1, 0, 1, 1, Symlink(target))
  }

  /** Directory `d` with its children replaced. */
  function SetChildren(node: INode, children: map<Name, Ino>): INode
    requires node.kind.Dir?
  {
    node.(kind := node.kind.(children := children))
  }

  predicate IsDir(fs: Fs, d: Ino) {
    d in fs.inodes && fs.inodes[d].kind.Dir?
  }

  function Children(fs: Fs, d: Ino): map<Name, Ino>
    requires IsDir(fs, d)
  {
    fs.inodes[d].kind.children
  }

  /** The error of `get(d).ok_or(NOENT)` followed by `as_dir().ok_or(NOTDIR)`. */
  function DirError(fs: Fs, d: Ino): Errno
    requires !IsDir(fs, d)
  {
    if d !in fs.inodes then NOENT else NOTDIR
  }

  function DoLookup(fs: Fs, parent: Ino, name: Name): (Fs, Reply) {
    if !IsDir(fs, parent) then (fs, Fail(DirError(fs, parent)))
    else if name !in Children(fs, parent) then (fs, Fail(NOENT))
    else
      var child := Children(fs, parent)[name];
      if child !in fs.inodes then (fs, Panic)
      else
        var node := fs.inodes[child];
        (fs.(inodes := fs.inodes[child := node.(refcount := node.refcount + 1)]), Entry(child, node.nlink))
  }

  /** One iteration of the forget loop. */
  function ForgetOne(inodes: map<Ino, INode>, f: Forget): map<Ino, INode> {
    if f.ino !in inodes then inodes
    else
      var node := inodes[f.ino];
      var left := SaturatingSub(node.refcount, f.nlookup);
      if left == 0 && node.links == 0 then inodes - {f.ino}
      else inodes[f.ino := node.(refcount := left)]
  }

  function ForgetMany(inodes: map<Ino, INode>, forgets: seq<Forget>): map<Ino, INode> {
    if forgets == [] then inodes else ForgetMany(ForgetOne(inodes, forgets[0]), forgets[1..])
  }

  function DoMake(fs: Fs, parent: Ino, name: Name, what: NodeSpec): (Fs, Reply) {
    if what.Special? then (fs, Fail(NOTSUP))
    else if !IsDir(fs, parent) then (fs, Fail(DirError(fs, parent)))
    else if name in Children(fs, parent) then (fs, Fail(EXIST))
    else
      var ino := fs.nextIno;
      if ino in fs.inodes then (fs.(nextIno := ino + 1), Panic)
      else
        var node := NewNode(ino, parent, what);
        var dir := SetChildren(fs.inodes[parent], Children(fs, parent)[name := ino]);
        (fs.(inodes := fs.inodes[parent := dir][ino := node], nextIno := ino + 1), Entry(ino, node.nlink))
  }

  function DoLink(fs: Fs, ino: Ino, newparent: Ino, newname: Name): (Fs, Reply) {
    if ino !in fs.inodes then (fs, Fail(NOENT))
    else if ino == newparent then (fs, Panic)
    else if !IsDir(fs, newparent) then (fs, Fail(DirError(fs, newparent)))
    else if newname in Children(fs, newparent) then (fs, Fail(EXIST))
    else
      var dir := SetChildren(fs.inodes[newparent], Children(fs, newparent)[newname := ino]);
      var node := fs.inodes[ino];
      var node' := node.(links := node.links + 1, nlink := node.nlink + 1, refcount := node.refcount + 1);
      (fs.(inodes := fs.inodes[newparent := dir][ino := node']), Entry(ino, node'.nlink))
  }

  /** `unlink` and `rmdir`. */
  function DoUnlink(fs: Fs, parent: Ino, name: Name): (Fs, Reply) {
    if !IsDir(fs, parent) then (fs, Fail(DirError(fs, parent)))
    else if name !in Children(fs, parent) then (fs, Fail(NOENT))
    else
      var child := Children(fs, parent)[name];
      if child !in fs.inodes then (fs, Panic)
      else if IsDir(fs, child) && Children(fs, child) != map[] then (fs, Fail(NOTEMPTY))
      else
        var dir := SetChildren(fs.inodes[parent], Children(fs, parent) - {name});
        var node := fs.inodes[child];
        var node' := node.(links := SaturatingSub(node.links, 1), nlink := SaturatingSub(node.nlink, 1));
        (fs.(inodes := fs.inodes[parent := dir][child := node']), Done)
  }

  function DoRename(fs: Fs, parent: Ino, name: Name, newparent: Ino, newname: Name, noFlags: bool): (Fs, Reply) {
    if !noFlags then (fs, Fail(INVAL))
    else if !IsDir(fs, parent) then (fs, Fail(DirError(fs, parent)))
    else if newparent == parent then
      var children := Children(fs, parent);
      if name !in children then (fs, Fail(NOENT))
      else if newname in children then (fs, Fail(EXIST))
      else
        var dir := SetChildren(fs.inodes[parent], children[newname := children[name]] - {name});
        (fs.(inodes := fs.inodes[parent := dir]), Done)
    else if !IsDir(fs, newparent) then (fs, Fail(DirError(fs, newparent)))
    else if newname in Children(fs, newparent) then (fs, Fail(EXIST))
    else if name !in Children(fs, parent) then (fs, Fail(NOENT))
    else
      var ino := Children(fs, parent)[name];
      var from := SetChildren(fs.inodes[parent], Children(fs, parent) - {name});
      var to := SetChildren(fs.inodes[newparent], Children(fs, newparent)[newname := ino]);
      (fs.(inodes := fs.inodes[parent := from][newparent := to]), Done)
  }

  /** `order` lists every child of the directory once: the hash map's iteration order. */
  ghost predicate Enumerates(order: seq<Name>, names: set<Name>) {
    && (forall n :: n in order <==> n in names)
    && (forall j, k :: 0 <= j < k < |order| ==> order[j] != order[k])
  }

  /** `collect_entries`: ".", ".." and the children in iteration order, numbered from 1. */
  function Snapshot(ino: Ino, parent: Option<Ino>, children: map<Name, Ino>, order: seq<Name>): (es: seq<DirEntry>)
    ensures |es| == |order| + 2
    ensures forall k :: 0 <= k < |es| ==> es[k].off == k + 1
  {
    var up := if parent.Some? then parent.value else ino;
    [DirEntry(DOT, ino, Some(Directory), 1), DirEntry(DOT_DOT, up, Some(Directory), 2)]
    + seq(|order|, k requires 0 <= k < |order| =>
        DirEntry(order[k], if order[k] in children then children[order[k]] else 0, None, k + 3))
  }

  function DoOpendir(fs: Fs, ino: Ino, fh: nat, order: seq<Name>): (Fs, Reply) {
    if ino !in fs.inodes then (fs, Fail(NOENT))
    else if fs.inodes[ino].nlink == 0 then (fs, Fail(NOENT))
    else if !IsDir(fs, ino) then (fs, Fail(NOTDIR))
    else
      var node := fs.inodes[ino];
      var entries := Snapshot(node.ino, node.kind.parent, node.kind.children, order);
      (fs.(handles := fs.handles[fh := entries]), Opened(fh))
  }

  /** The entries of one readdir reply: the longest run from `offset` that fits `size` bytes. */
  function PageOf(entries: seq<DirEntry>, offset: nat, size: nat): seq<DirEntry> {
    var rest := entries[Min(offset, |entries|)..];
    rest[..Fitting(rest, size)]
  }

  function DoReaddir(fs: Fs, fh: nat, offset: nat, size: nat, plus: bool): (Fs, Reply) {
    if plus then (fs, Fail(NOSYS))
    else if fh !in fs.handles then (fs, Fail(INVAL))
    else (fs, Page(Packed(PageOf(fs.handles[fh], offset, size))))
  }

  function DoReleasedir(fs: Fs, fh: nat): (Fs, Reply) {
    if fh !in fs.handles then (fs, Panic) else (fs.(handles := fs.handles - {fh}), Done)
  }

  function ReadAt(contents: seq<byte>, offset: nat, size: nat): seq<byte> {
    var rest := if offset <= |contents| then contents[offset..] else [];
    rest[..Min(|rest|, size)]
  }

  function DoRead(fs: Fs, ino: Ino, offset: nat, size: nat): (Fs, Reply) {
    if ino !in fs.inodes then (fs, Fail(NOENT))
    else if !fs.inodes[ino].kind.RegularFile? then (fs, Fail(INVAL))
    else (fs, Data(ReadAt(fs.inodes[ino].kind.contents, offset, size)))
  }

  /** `resize` to at least `len` bytes, zero-filled. */
  function Grown(contents: seq<byte>, len: nat): (r: seq<byte>)
    ensures |r| == Max(|contents|, len)
  {
    if len <= |contents| then contents else contents + Zeros(len - |contents|)
  }

  /** Grow, then overwrite from `offset` with what the request carried of its `size` bytes. */
  function WriteAt(contents: seq<byte>, offset: nat, size: nat, data: seq<byte>): (r: seq<byte>)
    ensures |r| == Max(|contents|, offset + size)
  {
    var grown := Grown(contents, offset + size);
    var n := Min(size, |data|);
    grown[..offset] + data[..n] + grown[offset + n..]
  }

  /** A range that ends at `MAX_LEN` or beyond panics: growing the contents overflows their capacity,
      or computing the end of the range overflows. A payload shorter than `size` fails after the
      contents were grown and partly overwritten. */
  function DoWrite(fs: Fs, ino: Ino, offset: nat, size: nat, data: seq<byte>): (Fs, Reply) {
    if ino !in fs.inodes then (fs, Fail(NOENT))
    else if !fs.inodes[ino].kind.RegularFile? then (fs, Fail(INVAL))
    else if offset + size >= MAX_LEN then (fs, Panic)
    else
      var node := fs.inodes[ino];
      var node' := node.(kind := RegularFile(WriteAt(node.kind.contents, offset, size, data)));
      if |data| < size then (fs.(inodes := fs.inodes[ino := node']), Fail(IO))
      else (fs.(inodes := fs.inodes[ino := node'.(size := offset + size)]), Written(size))
  }

  function Step(fs: Fs, req: Request): (Fs, Reply) {
    match req
    case Lookup(parent, name) => DoLookup(fs, parent, name)
    case ForgetAll(forgets) =>
      (fs.(inodes := ForgetMany(fs.inodes, Addressed(forgets))), if AllAddressed(forgets) then NoReply else Panic)
    case Make(parent, name, what) => DoMake(fs, parent, name, what)
    case Link(ino, newparent, newname) => DoLink(fs, ino, newparent, newname)
    case Unlink(parent, name) => DoUnlink(fs, parent, name)
    case Rename(parent, name, newparent, newname, noFlags) =>
      DoRename(fs, parent, name, newparent, newname, noFlags)
    case Opendir(ino, fh, order) => DoOpendir(fs, ino, fh, order)
    case Readdir(fh, offset, size, plus) => DoReaddir(fs, fh, offset, size, plus)
    case Releasedir(fh) => DoReleasedir(fs, fh)
    case Read(ino, offset, size) => DoRead(fs, ino, offset, size)
    case Write(ino, offset, size, data) => DoWrite(fs, ino, offset, size, data)
  }

  /** What the surroundings promise about a request: the kernel never links a directory into
      itself (the `debug_assert` of `link`), never names node 0 in a forget batch, writes only below
      the largest signed 64-bit offset and releases only handles it holds; the slab hands out a vacant
      key; a hash map iterates over each of its keys once. */
  ghost predicate Admissible(fs: Fs, req: Request) {
    match req
    case Link(ino, newparent, _) => ino != newparent
    case ForgetAll(forgets) => AllAddressed(forgets)
    case Opendir(ino, fh, order) =>
      fh !in fs.handles && (IsDir(fs, ino) ==> Enumerates(order, Children(fs, ino).Keys))
    case Releasedir(fh) => fh in fs.handles
    case Write(_, offset, size, _) => offset + size < MAX_LEN
    case _ => true
  }

  /** The state after a run of requests from the empty file system. */
  function Exec(reqs: seq<Request>): Fs {
    if reqs == [] then Init() else Step(Exec(reqs[..|reqs| - 1]), reqs[|reqs| - 1]).0
  }

  /** The reply to the last request of a run. */
  function LastReply(reqs: seq<Request>): Reply
    requires reqs != []
  {
    Step(Exec(reqs[..|reqs| - 1]), reqs[|reqs| - 1]).1
  }

  /** Every request of the run was admissible when it came. */
  ghost predicate AdmissibleRun(reqs: seq<Request>) {
    reqs == []
    || (AdmissibleRun(reqs[..|reqs| - 1]) && Admissible(Exec(reqs[..|reqs| - 1]), reqs[|reqs| - 1]))
  }
}
