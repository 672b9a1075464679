/** The counting invariant over all runs, and exactly which requests make the file system panic. */
module MemFsInvariant {
  import opened Prelude
  import opened Wire
  import opened Forgets
  import opened DirEntries
  import opened MemFs
  import opened MemFsNames

  /** The root starts with `links` that count no name. */
  function LinkBase(i: Ino): nat {
    if i == ROOT then ROOT_COUNT else 0
  }

  /** `nlink - links` beyond the base: a directory's own ".", and the root's ".." as well. */
  function SelfNames(i: Ino, kind: Kind): nat {
    if !kind.Dir? then 0 else if i == ROOT then 2 else 1
  }

  /** How many more links the inode counts than it has names. */
  function Gap(inodes: map<Ino, INode>, i: Ino): int
    requires i in inodes
  {
    inodes[i].links - LinkBase(i) - |NamesOf(Names(inodes), i)|
  }

  ghost predicate NodeOk(fs: Fs, i: Ino)
    requires i in fs.inodes
  {
    && 1 <= i < fs.nextIno
    && fs.inodes[i].ino == i
    && Gap(fs.inodes, i) >= 0
    && fs.inodes[i].nlink + LinkBase(i) == fs.inodes[i].links + SelfNames(i, fs.inodes[i].kind)
  }

  predicate TargetLive(fs: Fs, s: Slot) {
    Holds(fs.inodes, s) && Children(fs, s.dir)[s.name] in fs.inodes
  }

  ghost predicate WellFormed(fs: Fs) {
    && IsDir(fs, ROOT)
    && (forall i {:trigger NodeOk(fs, i)} :: i in fs.inodes ==> NodeOk(fs, i))
    && (forall s {:trigger TargetLive(fs, s)} :: Holds(fs.inodes, s) ==> TargetLive(fs, s))
  }

  /** The number the allocator hands out next is vacant. */
  lemma NextInoVacant(fs: Fs)
    requires WellFormed(fs)
    ensures fs.nextIno !in fs.inodes && fs.nextIno > ROOT
    ensures NamesOf(Names(fs.inodes), fs.nextIno) == {}
  {
    assert NodeOk(fs, ROOT);
    assert fs.nextIno in fs.inodes ==> NodeOk(fs, fs.nextIno);
    forall s | s in Names(fs.inodes) ensures Names(fs.inodes)[s] != fs.nextIno {
      assert TargetLive(fs, s);
    }
  }

  /** An inode named anywhere counts at least one link. */
  lemma NamedIsLinked(fs: Fs, s: Slot)
    requires WellFormed(fs) && s in Names(fs.inodes)
    ensures Names(fs.inodes)[s] in fs.inodes
    ensures fs.inodes[Names(fs.inodes)[s]].links > LinkBase(Names(fs.inodes)[s])
  {
    assert TargetLive(fs, s);
    CountPositive(Names(fs.inodes), s);
    assert NodeOk(fs, Names(fs.inodes)[s]);
  }

  /** The two ways an inode's number and kind are carried through a request. */
  predicate SameNode(a: INode, b: INode) {
    && a.ino == b.ino
    && a.kind.Dir? == b.kind.Dir? && a.kind.Symlink? == b.kind.Symlink?
  }

  /** Inode `i` goes through a request with its gap and its `nlink - links` unchanged. */
  predicate Kept(a: map<Ino, INode>, b: map<Ino, INode>, i: Ino)
    requires i in a
  {
    && i in b && SameNode(a[i], b[i])
    && Gap(b, i) == Gap(a, i)
    && b[i].nlink - b[i].links == a[i].nlink - a[i].links
  }

  lemma MakeKeeps(fs: Fs, parent: Ino, name: Name, what: NodeSpec, i: Ino)
    requires i in fs.inodes && fs.nextIno !in fs.inodes
    ensures Kept(fs.inodes, DoMake(fs, parent, name, what).0.inodes, i)
  {
    NamesOfMake(fs, parent, name, what);
    var r := DoMake(fs, parent, name, what).1;
    if r.Entry? {
      CountAdded(Names(fs.inodes), Slot(parent, name), r.ino, i);
    }
  }

  lemma LinkKeeps(fs: Fs, ino: Ino, newparent: Ino, newname: Name, i: Ino)
    requires i in fs.inodes && ino != newparent
    ensures Kept(fs.inodes, DoLink(fs, ino, newparent, newname).0.inodes, i)
  {
    NamesOfLink(fs, ino, newparent, newname);
    if DoLink(fs, ino, newparent, newname).1.Entry? {
      CountAdded(Names(fs.inodes), Slot(newparent, newname), ino, i);
    }
  }

  /** What an unlink does to the counters of an inode. */
  lemma UnlinkTouches(fs: Fs, parent: Ino, name: Name, child: Ino, i: Ino)
    requires i in fs.inodes && DoUnlink(fs, parent, name).1.Done?
    requires child == Children(fs, parent)[name] && child != parent
    ensures var a, b := fs.inodes[i], DoUnlink(fs, parent, name).0.inodes[i];
            && SameNode(a, b)
            && b.links == (if i == child then SaturatingSub(a.links, 1) else a.links)
            && b.nlink == (if i == child then SaturatingSub(a.nlink, 1) else a.nlink)
  {
  }

  lemma UnlinkedKeeps(fs: Fs, parent: Ino, name: Name, child: Ino, i: Ino)
    requires i in fs.inodes && DoUnlink(fs, parent, name).1.Done?
    requires child == Children(fs, parent)[name] && child != parent
    requires fs.inodes[child].links >= 1 && fs.inodes[child].nlink >= 1
    ensures Kept(fs.inodes, DoUnlink(fs, parent, name).0.inodes, i)
  {
    UnlinkTouches(fs, parent, name, child, i);
    NamesOfUnlink(fs, parent, name);
    CountRemoved(Names(fs.inodes), Slot(parent, name), i);
  }

  lemma UnlinkKeeps(fs: Fs, parent: Ino, name: Name, i: Ino)
    requires WellFormed(fs) && i in fs.inodes
    ensures Kept(fs.inodes, DoUnlink(fs, parent, name).0.inodes, i)
  {
    if DoUnlink(fs, parent, name).1.Done? {
      UnlinkCounts(fs, parent, name);
      UnlinkedKeeps(fs, parent, name, Children(fs, parent)[name], i);
    }
  }

  /** A rename touches nothing of any inode but a directory's children. */
  lemma RenameTouches(fs: Fs, parent: Ino, name: Name, newparent: Ino, newname: Name, noFlags: bool, i: Ino)
    ensures var fs' := DoRename(fs, parent, name, newparent, newname, noFlags).0;
            && (i in fs'.inodes <==> i in fs.inodes)
            && (i in fs.inodes && !fs.inodes[i].kind.Dir? ==> fs'.inodes[i] == fs.inodes[i])
            && (IsDir(fs, i) ==> IsDir(fs', i) && fs'.inodes[i] == SetChildren(fs.inodes[i], Children(fs', i)))
  {
  }

  /** And it gives every inode as many names as before. */
  lemma RenameCounts(fs: Fs, parent: Ino, name: Name, newparent: Ino, newname: Name, noFlags: bool, i: Ino)
    ensures |NamesOf(Names(DoRename(fs, parent, name, newparent, newname, noFlags).0.inodes), i)|
         == |NamesOf(Names(fs.inodes), i)|
  {
    NamesOfRename(fs, parent, name, newparent, newname, noFlags);
    if DoRename(fs, parent, name, newparent, newname, noFlags).1.Done? {
      RenameKeepsCounts(Names(fs.inodes), Slot(parent, name), Slot(newparent, newname), i);
    }
  }

  lemma RenameKeeps(fs: Fs, parent: Ino, name: Name, newparent: Ino, newname: Name, noFlags: bool, i: Ino)
    requires i in fs.inodes
    ensures Kept(fs.inodes, DoRename(fs, parent, name, newparent, newname, noFlags).0.inodes, i)
  {
    RenameCounts(fs, parent, name, newparent, newname, noFlags, i);
    RenameTouches(fs, parent, name, newparent, newname, noFlags, i);
  }

  lemma LookupKeeps(fs: Fs, parent: Ino, name: Name, i: Ino)
    requires i in fs.inodes
    ensures Kept(fs.inodes, DoLookup(fs, parent, name).0.inodes, i)
  {
    SameDirectories(fs.inodes, DoLookup(fs, parent, name).0.inodes);
  }

  lemma WriteKeeps(fs: Fs, ino: Ino, offset: nat, size: nat, data: seq<byte>, i: Ino)
    requires i in fs.inodes
    ensures Kept(fs.inodes, DoWrite(fs, ino, offset, size, data).0.inodes, i)
  {
    SameDirectories(fs.inodes, DoWrite(fs, ino, offset, size, data).0.inodes);
  }

  /** No request but a forget moves `links` away from the names; none moves `nlink` from `links`. */
  lemma GapKept(fs: Fs, req: Request, i: Ino)
    requires WellFormed(fs) && Admissible(fs, req) && !req.ForgetAll?
    requires i in fs.inodes
    ensures Kept(fs.inodes, Step(fs, req).0.inodes, i)
  {
    NextInoVacant(fs);
    match req {
      case Make(parent, name, what) => MakeKeeps(fs, parent, name, what, i);
      case Link(ino, newparent, newname) => LinkKeeps(fs, ino, newparent, newname, i);
      case Unlink(parent, name) => UnlinkKeeps(fs, parent, name, i);
      case Rename(parent, name, newparent, newname, noFlags) =>
        RenameKeeps(fs, parent, name, newparent, newname, noFlags, i);
      case Lookup(parent, name) => LookupKeeps(fs, parent, name, i);
      case Write(ino, offset, size, data) => WriteKeeps(fs, ino, offset, size, data, i);
      case _ =>
    }
  }

  /** Unlinking never saturates: the name that goes was counted. */
  lemma UnlinkCounts(fs: Fs, parent: Ino, name: Name)
    requires WellFormed(fs) && DoUnlink(fs, parent, name).1.Done?
    ensures Slot(parent, name) in Names(fs.inodes)
    ensures var child := Names(fs.inodes)[Slot(parent, name)];
            && child in fs.inodes && child != parent
            && fs.inodes[child].links >= 1 && fs.inodes[child].nlink >= 1
            && DoUnlink(fs, parent, name).0.inodes[child].links == fs.inodes[child].links - 1
            && DoUnlink(fs, parent, name).0.inodes[child].nlink == fs.inodes[child].nlink - 1
  {
    NamedIsLinked(fs, Slot(parent, name));
    assert NodeOk(fs, Names(fs.inodes)[Slot(parent, name)]);
  }

  lemma RenameKeepsCounts(ns: NameSpace, from: Slot, to: Slot, i: Ino)
    requires from in ns && to !in ns
    ensures |NamesOf((ns - {from})[to := ns[from]], i)| == |NamesOf(ns, i)|
  {
    CountRemoved(ns, from, i);
    CountAdded(ns - {from}, to, ns[from], i);
  }

  /** A forget only ever widens the gap, and drops an inode only when no name leads to it. */
  lemma GapOfForget(fs: Fs, forgets: seq<Forget>, i: Ino)
    requires WellFormed(fs) && i in fs.inodes
    ensures var after := ForgetMany(fs.inodes, forgets);
            if i in after then
              && after[i] == fs.inodes[i].(refcount := after[i].refcount)
              && Gap(after, i) >= Gap(fs.inodes, i)
            else
              && fs.inodes[i].links == 0 && i != ROOT
              && Mentions(forgets, i) && fs.inodes[i].refcount <= Total(forgets, i)
              && NamesOf(Names(fs.inodes), i) == {}
  {
    var after := ForgetMany(fs.inodes, forgets);
    ForgetManyIsSettle(fs.inodes, forgets, i);
    NamesOfForget(fs.inodes, forgets);
    CountRestricted(Names(fs.inodes), Names(after), i);
    assert NodeOk(fs, i);
  }

  /** Exactly which requests panic: linking a live inode into itself, a batch item for node 0,
      releasing a handle that is not open, writing a live file beyond what a vector can hold. The
      panics on a missing child and on a taken inode number never happen. */
  lemma PanicsIff(fs: Fs, req: Request)
    requires WellFormed(fs)
    ensures Step(fs, req).1.Panic? <==>
            match req
            case Link(ino, newparent, _) => ino in fs.inodes && ino == newparent
            case ForgetAll(forgets) => !AllAddressed(forgets)
            case Releasedir(fh) => fh !in fs.handles
            case Write(ino, offset, size, _) =>
              ino in fs.inodes && fs.inodes[ino].kind.RegularFile? && offset + size >= MAX_LEN
            case _ => false
  {
    NextInoVacant(fs);
    match req {
      case Lookup(parent, name) =>
        if IsDir(fs, parent) && name in Children(fs, parent) {
          assert TargetLive(fs, Slot(parent, name));
        }
      case Unlink(parent, name) =>
        if IsDir(fs, parent) && name in Children(fs, parent) {
          assert TargetLive(fs, Slot(parent, name));
        }
      case _ =>
    }
  }

  lemma NoPanic(fs: Fs, req: Request)
    requires WellFormed(fs) && Admissible(fs, req)
    ensures !Step(fs, req).1.Panic?
  {
    PanicsIff(fs, req);
  }

  lemma TargetsKept(fs: Fs, req: Request, s: Slot)
    requires WellFormed(fs) && Admissible(fs, req) && Holds(Step(fs, req).0.inodes, s)
    ensures TargetLive(Step(fs, req).0, s)
  {
    var (fs', r) := Step(fs, req);
    NextInoVacant(fs);
    NamesOfStep(fs, req);
    var i := Names(fs'.inodes)[s];
    if s in Names(fs.inodes) && i == Names(fs.inodes)[s] {
      assert TargetLive(fs, s);
      TargetKept(fs, req, s);
    } else if req.Make? {
      MakeAdds(fs, req.parent, req.name, req.what);
    } else if req.Link? {
      InodesKept(fs, req);
    } else {
      assert TargetLive(fs, Slot(req.parent, req.name));
      InodesKept(fs, req);
    }
  }

  lemma TargetKept(fs: Fs, req: Request, s: Slot)
    requires WellFormed(fs) && Admissible(fs, req) && TargetLive(fs, s)
    requires s in Names(Step(fs, req).0.inodes)
    ensures Names(fs.inodes)[s] in Step(fs, req).0.inodes
  {
    var i := Names(fs.inodes)[s];
    assert s in NamesOf(Names(fs.inodes), i);
    if req.ForgetAll? {
      GapOfForget(fs, req.forgets, i);
    } else {
      GapKept(fs, req, i);
    }
  }

  lemma MakeAdds(fs: Fs, parent: Ino, name: Name, what: NodeSpec)
    requires WellFormed(fs) && DoMake(fs, parent, name, what).1.Entry?
    ensures var fs' := DoMake(fs, parent, name, what).0;
            && fs.nextIno !in fs.inodes
            && fs'.inodes.Keys == fs.inodes.Keys + {fs.nextIno} && fs'.nextIno == fs.nextIno + 1
            && DoMake(fs, parent, name, what).1.ino == fs.nextIno
            && NodeOk(fs', fs.nextIno) && Gap(fs'.inodes, fs.nextIno) == 0
  {
    NextInoVacant(fs);
    NamesOfMake(fs, parent, name, what);
    CountAdded(Names(fs.inodes), Slot(parent, name), fs.nextIno, fs.nextIno);
  }

  /** Requests that neither create nor forget keep the set of inode numbers. */
  lemma InodesKept(fs: Fs, req: Request)
    requires Admissible(fs, req) && !req.ForgetAll?
    requires req.Make? ==> !Step(fs, req).1.Entry?
    ensures Step(fs, req).0.inodes.Keys == fs.inodes.Keys
  {
  }

  /** Only a creating request adds an inode: under the next number, with its one name counted. */
  lemma NewInode(fs: Fs, req: Request, i: Ino)
    requires WellFormed(fs) && Admissible(fs, req) && i !in fs.inodes
    ensures i in Step(fs, req).0.inodes <==> req.Make? && Step(fs, req).1.Entry? && Step(fs, req).1.ino == i
    ensures i in Step(fs, req).0.inodes ==>
              && i == fs.nextIno && Step(fs, req).0.nextIno == i + 1
              && NodeOk(Step(fs, req).0, i) && Gap(Step(fs, req).0.inodes, i) == 0
  {
    if req.ForgetAll? {
      ForgetManyIsSettle(fs.inodes, req.forgets, i);
    } else if req.Make? && Step(fs, req).1.Entry? {
      MakeAdds(fs, req.parent, req.name, req.what);
    } else {
      InodesKept(fs, req);
    }
  }

  /** The allocator only moves forward. */
  lemma NextInoGrows(fs: Fs, req: Request)
    ensures Step(fs, req).0.nextIno >= fs.nextIno
  {
  }

  /** Every request keeps the invariant. */
  lemma StepKeepsWellFormed(fs: Fs, req: Request)
    requires WellFormed(fs) && Admissible(fs, req)
    ensures WellFormed(Step(fs, req).0)
  {
    var fs' := Step(fs, req).0;
    NextInoGrows(fs, req);
    NodeKept(fs, req, ROOT);
    forall i | i in fs'.inodes ensures NodeOk(fs', i) {
      if i in fs.inodes {
        NodeKept(fs, req, i);
      } else {
        NewInode(fs, req, i);
      }
    }
    forall s | Holds(fs'.inodes, s) ensures TargetLive(fs', s) {
      TargetsKept(fs, req, s);
    }
  }

  lemma NodeKept(fs: Fs, req: Request, i: Ino)
    requires WellFormed(fs) && Admissible(fs, req) && i in fs.inodes
    ensures var fs' := Step(fs, req).0;
            if i in fs'.inodes then NodeOk(fs', i) && SameNode(fs.inodes[i], fs'.inodes[i])
            else req.ForgetAll? && i != ROOT
  {
    assert NodeOk(fs, i);
    NextInoGrows(fs, req);
    if req.ForgetAll? {
      GapOfForget(fs, req.forgets, i);
    } else {
      GapKept(fs, req, i);
    }
  }

  lemma InitWellFormed()
    ensures WellFormed(Init())
    ensures forall i :: i in Init().inodes ==> Gap(Init().inodes, i) == 0
  {
    assert Names(Init().inodes) == map[];
    assert NamesOf(Names(Init().inodes), ROOT) == {};
  }

  /** In every reachable state of the file system every entry names a live inode, no inode has
      more names than links, and the request that comes next does not panic. */
  lemma {:induction false} ReachableWellFormed(reqs: seq<Request>)
    requires AdmissibleRun(reqs)
    ensures WellFormed(Exec(reqs))
    ensures reqs != [] ==> !LastReply(reqs).Panic?
  {
    if reqs == [] {
      InitWellFormed();
    } else {
      var before, req := reqs[..|reqs| - 1], reqs[|reqs| - 1];
      ReachableWellFormed(before);
      StepKeepsWellFormed(Exec(before), req);
      NoPanic(Exec(before), req);
    }
  }

  lemma ExecSnoc(before: seq<Request>, req: Request)
    ensures Exec(before + [req]) == Step(Exec(before), req).0
    ensures AdmissibleRun(before + [req]) <==> AdmissibleRun(before) && Admissible(Exec(before), req)
  {
    assert (before + [req])[..|before|] == before;
  }

  // The requests against the flat name space, outcomes included.

  /** No name stands in directory `d`. */
  ghost predicate NoNamesIn(ns: NameSpace, d: Ino) {
    forall s :: s in ns ==> s.dir != d
  }

  lemma EmptyDirIff(inodes: map<Ino, INode>, d: Ino)
    requires d in inodes
    ensures (inodes[d].kind.Dir? && inodes[d].kind.children != map[]) <==> !NoNamesIn(Names(inodes), d)
  {
    if inodes[d].kind.Dir? && inodes[d].kind.children != map[] {
      var n :| n in inodes[d].kind.children;
      assert Slot(d, n) in Names(inodes);
    }
  }

  /** An answer, as far as the name space decides it. */
  datatype Verdict = Gives(ino: Ino) | Accepts | Refuses(errno: Errno) | Crashes | Else

  function VerdictOf(r: Reply): Verdict {
    match r
    case Entry(ino, _) => Gives(ino)
    case Done => Accepts
    case Fail(errno) => Refuses(errno)
    case Panic => Crashes
    case _ => Else
  }

  /** The file system as a flat map: the names, the live inodes, which of them are directories, and the
      next number. */
  datatype Flat = Flat(ns: NameSpace, live: set<Ino>, dirs: set<Ino>, next: Ino)

  function FlatOf(fs: Fs): Flat {
    var dirs := set d | d in fs.inodes && fs.inodes[d].kind.Dir?;
    Flat(Names(fs.inodes), fs.inodes.Keys, dirs, fs.nextIno)
  }

  /** What the protocol asks for, read off the flat map: a missing node or name is ENOENT, a node that is
      no directory ENOTDIR, a taken name EEXIST, names in what is to be removed ENOTEMPTY. */
  ghost function VerdictOn(f: Flat, req: Request): Verdict {
    match req
    case Lookup(parent, name) =>
      if parent !in f.live then Refuses(NOENT)
      else if parent !in f.dirs then Refuses(NOTDIR)
      else if Slot(parent, name) !in f.ns then Refuses(NOENT)
      else Gives(f.ns[Slot(parent, name)])
    case Make(parent, name, what) =>
      if what.Special? then Refuses(NOTSUP)
      else if parent !in f.live then Refuses(NOENT)
      else if parent !in f.dirs then Refuses(NOTDIR)
      else if Slot(parent, name) in f.ns then Refuses(EXIST)
      else Gives(f.next)
    case Link(ino, newparent, newname) =>
      if ino !in f.live then Refuses(NOENT)
      else if ino == newparent then Crashes
      else if newparent !in f.live then Refuses(NOENT)
      else if newparent !in f.dirs then Refuses(NOTDIR)
      else if Slot(newparent, newname) in f.ns then Refuses(EXIST)
      else Gives(ino)
    case Unlink(parent, name) =>
      if parent !in f.live then Refuses(NOENT)
      else if parent !in f.dirs then Refuses(NOTDIR)
      else if Slot(parent, name) !in f.ns then Refuses(NOENT)
      else if !NoNamesIn(f.ns, f.ns[Slot(parent, name)]) then Refuses(NOTEMPTY)
      else Accepts
    case Rename(parent, name, newparent, newname, noFlags) =>
      if !noFlags then Refuses(INVAL)
      else if parent !in f.live then Refuses(NOENT)
      else if parent !in f.dirs then Refuses(NOTDIR)
      else if newparent == parent then
        if Slot(parent, name) !in f.ns then Refuses(NOENT)
        else if Slot(parent, newname) in f.ns then Refuses(EXIST)
        else Accepts
      else if newparent !in f.live then Refuses(NOENT)
      else if newparent !in f.dirs then Refuses(NOTDIR)
      else if Slot(newparent, newname) in f.ns then Refuses(EXIST)
      else if Slot(parent, name) !in f.ns then Refuses(NOENT)
      else Accepts
    case _ => Else
  }

  predicate OnNames(req: Request) {
    req.Lookup? || req.Make? || req.Link? || req.Unlink? || req.Rename?
  }

  lemma UnlinkVerdict(fs: Fs, parent: Ino, name: Name)
    requires WellFormed(fs)
    ensures VerdictOf(DoUnlink(fs, parent, name).1) == VerdictOn(FlatOf(fs), Unlink(parent, name))
  {
    if Slot(parent, name) in Names(fs.inodes) {
      assert TargetLive(fs, Slot(parent, name));
      EmptyDirIff(fs.inodes, Names(fs.inodes)[Slot(parent, name)]);
    }
  }

  lemma RenameVerdict(fs: Fs, parent: Ino, name: Name, newparent: Ino, newname: Name, noFlags: bool)
    ensures VerdictOf(DoRename(fs, parent, name, newparent, newname, noFlags).1)
         == VerdictOn(FlatOf(fs), Rename(parent, name, newparent, newname, noFlags))
  {
  }

  lemma MakeVerdict(fs: Fs, parent: Ino, name: Name, what: NodeSpec)
    requires fs.nextIno !in fs.inodes
    ensures VerdictOf(DoMake(fs, parent, name, what).1) == VerdictOn(FlatOf(fs), Make(parent, name, what))
  {
  }

  lemma LinkVerdict(fs: Fs, ino: Ino, newparent: Ino, newname: Name)
    ensures VerdictOf(DoLink(fs, ino, newparent, newname).1) == VerdictOn(FlatOf(fs), Link(ino, newparent, newname))
  {
  }

  lemma LookupVerdict(fs: Fs, parent: Ino, name: Name)
    requires WellFormed(fs)
    ensures VerdictOf(DoLookup(fs, parent, name).1) == VerdictOn(FlatOf(fs), Lookup(parent, name))
  {
    assert Slot(parent, name) in Names(fs.inodes) ==> TargetLive(fs, Slot(parent, name));
  }

  /** Every request on names is answered as the flat map says, error numbers included. */
  lemma OutcomesByNameSpace(fs: Fs, req: Request)
    requires WellFormed(fs) && OnNames(req)
    ensures VerdictOf(Step(fs, req).1) == VerdictOn(FlatOf(fs), req)
  {
    NextInoVacant(fs);
    match req {
      case Lookup(parent, name) => LookupVerdict(fs, parent, name);
      case Make(parent, name, what) => MakeVerdict(fs, parent, name, what);
      case Link(ino, newparent, newname) => LinkVerdict(fs, ino, newparent, newname);
      case Unlink(parent, name) => UnlinkVerdict(fs, parent, name);
      case Rename(parent, name, newparent, newname, noFlags) =>
        RenameVerdict(fs, parent, name, newparent, newname, noFlags);
    }
  }

  /** Every other request is answered by the inode or the handle it names. */
  lemma OutcomesElsewhere(fs: Fs, req: Request)
    requires !OnNames(req)
    ensures var r := Step(fs, req).1;
            match req
            case ForgetAll(_) => r.NoReply? || r.Panic?
            case Opendir(ino, fh, _) =>
              && (r == Fail(NOENT) <==> ino !in fs.inodes || fs.inodes[ino].nlink == 0)
              && (r == Fail(NOTDIR) <==> ino in fs.inodes && fs.inodes[ino].nlink > 0 && !fs.inodes[ino].kind.Dir?)
              && (r == Opened(fh) <==> ino in fs.inodes && fs.inodes[ino].nlink > 0 && fs.inodes[ino].kind.Dir?)
            case Readdir(fh, _, _, plus) =>
              (r == Fail(NOSYS) <==> plus) && (r == Fail(INVAL) <==> !plus && fh !in fs.handles)
              && (r.Page? <==> !plus && fh in fs.handles)
            case Releasedir(fh) => (r == Done <==> fh in fs.handles) && (r == Panic <==> fh !in fs.handles)
            case Read(ino, _, _) =>
              && (r == Fail(NOENT) <==> ino !in fs.inodes)
              && (r == Fail(INVAL) <==> ino in fs.inodes && !fs.inodes[ino].kind.RegularFile?)
              && (r.Data? <==> ino in fs.inodes && fs.inodes[ino].kind.RegularFile?)
            case Write(ino, offset, size, data) =>
              && (r == Fail(NOENT) <==> ino !in fs.inodes)
              && (r == Fail(INVAL) <==> ino in fs.inodes && !fs.inodes[ino].kind.RegularFile?)
              && (ino in fs.inodes && fs.inodes[ino].kind.RegularFile? ==>
                    && (r == Panic <==> offset + size >= MAX_LEN)
                    && (r == Fail(IO) <==> offset + size < MAX_LEN && |data| < size)
                    && (r == Written(size) <==> offset + size < MAX_LEN && size <= |data|))
            case _ => true
  {
  }
}
