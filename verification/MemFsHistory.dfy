/** What no request changes, and what therefore stays of a file over a whole run. */
module MemFsHistory {
  import opened Prelude
  import opened Wire
  import opened Forgets
  import opened DirEntries
  import opened MemFs
  import opened MemFsNames
  import opened MemFsInvariant
  import opened MemFsContents
  import opened MemFsLookups

  // One request.

  /** Number, size and kind of an inode; of a directory all but its children. */
  predicate SameBut(a: INode, b: INode) {
    && a.ino == b.ino && a.size == b.size
    && (if a.kind.Dir? then b.kind.Dir? && b.kind.parent == a.kind.parent else b.kind == a.kind)
  }

  /** An inode goes through every request but a write to it with its number, its size and its kind: the
      bytes of a file, the target of a symlink, the parent of a directory. */
  lemma FrameOfStep(fs: Fs, req: Request, i: Ino)
    requires WellFormed(fs) && Admissible(fs, req)
    requires i in fs.inodes && i in Step(fs, req).0.inodes && !(req.Write? && req.ino == i)
    ensures SameBut(fs.inodes[i], Step(fs, req).0.inodes[i])
  {
    NextInoVacant(fs);
    match req {
      case ForgetAll(forgets) => ForgetManyIsSettle(fs.inodes, forgets, i);
      case Rename(parent, name, newparent, newname, noFlags) =>
        RenameTouches(fs, parent, name, newparent, newname, noFlags, i);
      case Unlink(parent, name) => FrameOfUnlink(fs, parent, name, i);
      case Link(ino, newparent, newname) => FrameOfLink(fs, ino, newparent, newname, i);
      case Make(parent, name, what) => FrameOfMake(fs, parent, name, what, i);
      case _ =>
    }
  }

  lemma FrameOfUnlink(fs: Fs, parent: Ino, name: Name, i: Ino)
    requires i in fs.inodes
    ensures SameBut(fs.inodes[i], DoUnlink(fs, parent, name).0.inodes[i])
  {
  }

  lemma FrameOfLink(fs: Fs, ino: Ino, newparent: Ino, newname: Name, i: Ino)
    requires i in fs.inodes && ino != newparent
    ensures SameBut(fs.inodes[i], DoLink(fs, ino, newparent, newname).0.inodes[i])
  {
  }

  lemma FrameOfMake(fs: Fs, parent: Ino, name: Name, what: NodeSpec, i: Ino)
    requires i in fs.inodes && fs.nextIno !in fs.inodes
    ensures SameBut(fs.inodes[i], DoMake(fs, parent, name, what).0.inodes[i])
  {
  }

  /** The allocator moves exactly with the creations, and the handles exactly with opening and
      releasing. */
  lemma TablesOfStep(fs: Fs, req: Request)
    requires WellFormed(fs)
    ensures var (fs', r) := Step(fs, req);
            && fs'.nextIno == fs.nextIno + (if req.Make? && r.Entry? then 1 else 0)
            && (if req.Opendir? && r.Opened? then
                  && fs'.handles.Keys == fs.handles.Keys + {req.fh}
                  && forall h :: h in fs.handles && h != req.fh ==> fs'.handles[h] == fs.handles[h]
                else if req.Releasedir? && r.Done? then fs'.handles == fs.handles - {req.fh}
                else fs'.handles == fs.handles)
  {
    NextInoVacant(fs);
  }

  /** A created inode is what was asked for: an empty file, a directory without names under its parent,
      or a symlink to the target; one link, one reference, and a second `nlink` for a directory. */
  lemma CreatedAsAsked(fs: Fs, parent: Ino, name: Name, what: NodeSpec)
    requires WellFormed(fs) && DoMake(fs, parent, name, what).1.Entry?
    ensures var (fs', r) := DoMake(fs, parent, name, what);
            && r.ino in fs'.inodes
            && var node := fs'.inodes[r.ino];
               && node.ino == r.ino && node.size == 0 && node.links == 1 && node.refcount == 1
               && match what
                  case NewFile => node.kind == RegularFile([]) && node.nlink == 1
                  case NewDir => node.kind == Dir(map[], Some(parent)) && node.nlink == 2
                  case NewSymlink(target) => node.kind == Symlink(target) && node.nlink == 1
                  case Special => false
  {
    NextInoVacant(fs);
  }

  /** Every entry reply tells the `nlink` that the inode then has. */
  lemma EntriesTellNlink(fs: Fs, req: Request)
    requires WellFormed(fs) && Admissible(fs, req) && Step(fs, req).1.Entry?
    ensures var (fs', r) := Step(fs, req);
            r.ino in fs'.inodes && r.nlink == fs'.inodes[r.ino].nlink
  {
    NextInoVacant(fs);
  }

  // Whole runs.

  /** The last request of the run created `i`. */
  predicate JustMade(reqs: seq<Request>, i: Ino)
    requires reqs != []
  {
    reqs[|reqs| - 1].Make? && LastReply(reqs).Entry? && LastReply(reqs).ino == i
  }

  predicate WritesTo(req: Request, i: Ino) {
    req.Write? && req.ino == i && req.offset + req.size < MAX_LEN
  }

  /** The last byte that a write of the run put at position `k` of file `i`, or 0. */
  function LastByte(reqs: seq<Request>, i: Ino, k: nat): byte {
    if reqs == [] then 0
    else
      var last := reqs[|reqs| - 1];
      if WritesTo(last, i) && last.offset <= k < last.offset + Min(last.size, |last.data|) then
        last.data[k - last.offset]
      else if JustMade(reqs, i) then 0
      else LastByte(reqs[..|reqs| - 1], i, k)
  }

  /** How far the writes to file `i` reached since it was created. */
  function Reach(reqs: seq<Request>, i: Ino): nat {
    if reqs == [] then 0
    else
      var last := reqs[|reqs| - 1];
      if WritesTo(last, i) then Max(Reach(reqs[..|reqs| - 1], i), last.offset + last.size)
      else if JustMade(reqs, i) then 0
      else Reach(reqs[..|reqs| - 1], i)
  }

  /** Where the last complete write to file `i` ended. */
  function LastEnd(reqs: seq<Request>, i: Ino): nat {
    if reqs == [] then 0
    else
      var last := reqs[|reqs| - 1];
      if WritesTo(last, i) && last.size <= |last.data| then last.offset + last.size
      else if JustMade(reqs, i) then 0
      else LastEnd(reqs[..|reqs| - 1], i)
  }

  predicate IsFile(fs: Fs, i: Ino) {
    i in fs.inodes && fs.inodes[i].kind.RegularFile?
  }

  /** The bytes of a live file are, position by position, the last that were written there since it was
      created, whatever else happened; it is as long as the writes reached, and reports the end of the
      last complete one as its size. */
  lemma {:induction false} ContentsOverRuns(reqs: seq<Request>, i: Ino, k: nat)
    requires AdmissibleRun(reqs) && IsFile(Exec(reqs), i)
    ensures var node := Exec(reqs).inodes[i];
            && |node.kind.contents| == Reach(reqs, i)
            && ByteAt(node.kind.contents, k) == LastByte(reqs, i, k)
            && node.size == LastEnd(reqs, i)
  {
    if reqs != [] {
      var before, req := reqs[..|reqs| - 1], reqs[|reqs| - 1];
      var fs := Exec(before);
      ReachableWellFormed(before);
      if i in fs.inodes {
        NodeKept(fs, req, i);
        ContentsOverRuns(before, i, k);
        NotRemade(fs, req, i);
        FileAfter(fs, req, i, k);
      } else {
        NewInode(fs, req, i);
        CreatedAsAsked(fs, req.parent, req.name, req.what);
      }
    }
  }

  lemma NotRemade(fs: Fs, req: Request, i: Ino)
    requires WellFormed(fs) && Admissible(fs, req) && i in fs.inodes
    ensures !(req.Make? && Step(fs, req).1.Entry? && Step(fs, req).1.ino == i)
  {
    NextInoVacant(fs);
  }

  lemma FileAfter(fs: Fs, req: Request, i: Ino, k: nat)
    requires WellFormed(fs) && Admissible(fs, req) && IsFile(fs, i) && IsFile(Step(fs, req).0, i)
    ensures var a, b := fs.inodes[i], Step(fs, req).0.inodes[i];
            if WritesTo(req, i) then
              && |b.kind.contents| == Max(|a.kind.contents|, req.offset + req.size)
              && ByteAt(b.kind.contents, k)
                 == (if req.offset <= k < req.offset + Min(req.size, |req.data|) then req.data[k - req.offset]
                     else ByteAt(a.kind.contents, k))
              && b.size == (if req.size <= |req.data| then req.offset + req.size else a.size)
            else b.kind == a.kind && b.size == a.size
  {
    if req.Write? && req.ino == i {
      WriteChangesItsRange(fs.inodes[i].kind.contents, req.offset, req.size, req.data, k);
    } else {
      FrameOfStep(fs, req, i);
    }
  }

  /** A read at any point of a run returns, for each position of its range up to the file's end, the last
      byte written there. */
  lemma ReadsLastWritten(reqs: seq<Request>, i: Ino, from: nat, len: nat)
    requires AdmissibleRun(reqs) && IsFile(Exec(reqs), i)
    ensures var r := Step(Exec(reqs), Read(i, from, len)).1;
            && r.Data? && |r.bytes| == Min(len, Max(0, Reach(reqs, i) - from))
            && forall k :: 0 <= k < |r.bytes| ==> r.bytes[k] == LastByte(reqs, i, from + k)
  {
    var contents := Exec(reqs).inodes[i].kind.contents;
    ContentsOverRuns(reqs, i, 0);
    var bytes := ReadAt(contents, from, len);
    forall k | 0 <= k < |bytes| ensures bytes[k] == LastByte(reqs, i, from + k) {
      ContentsOverRuns(reqs, i, from + k);
      assert bytes[k] == ByteAt(contents, from + k);
    }
  }

  /** A symlink keeps its target and a directory its stored parent as long as it is live. */
  lemma {:induction false} KindsKept(reqs: seq<Request>, n: nat, i: Ino)
    requires AdmissibleRun(reqs) && n <= |reqs|
    requires i in Exec(reqs[..n]).inodes && i in Exec(reqs).inodes && !IsFile(Exec(reqs[..n]), i)
    ensures SameBut(Exec(reqs[..n]).inodes[i], Exec(reqs).inodes[i])
  {
    if n == |reqs| {
      assert reqs[..n] == reqs;
    } else {
      var before, req := reqs[..|reqs| - 1], reqs[|reqs| - 1];
      assert before[..n] == reqs[..n];
      LiveBetween(reqs, n, |reqs| - 1, i);
      ReachableWellFormed(before);
      KindsKept(before, n, i);
      KindKept(Exec(before), req, i);
    }
  }

  lemma KindKept(fs: Fs, req: Request, i: Ino)
    requires WellFormed(fs) && Admissible(fs, req)
    requires i in fs.inodes && i in Step(fs, req).0.inodes && !IsFile(fs, i)
    ensures SameBut(fs.inodes[i], Step(fs, req).0.inodes[i])
  {
    if !(req.Write? && req.ino == i) {
      FrameOfStep(fs, req, i);
    }
  }
}
