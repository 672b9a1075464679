/** When `links` counts exactly the names of an inode, over whole runs. */
module MemFsLinks {
  import opened Prelude
  import opened Wire
  import opened Forgets
  import opened DirEntries
  import opened MemFs
  import opened MemFsNames
  import opened MemFsInvariant

  /** Every inode's `links` is the number of (directory, name) pairs naming it. */
  ghost predicate Exact(fs: Fs) {
    forall i :: i in fs.inodes ==> Gap(fs.inodes, i) == 0
  }

  /** The batch takes the last lookup of `d`, a directory without links that still has entries. */
  ghost predicate DropsFullDir(fs: Fs, forgets: seq<Forget>, d: Ino) {
    && IsDir(fs, d) && Children(fs, d) != map[] && fs.inodes[d].links == 0
    && Mentions(forgets, d) && fs.inodes[d].refcount <= Total(forgets, d)
  }

  ghost predicate OrphansNames(fs: Fs, req: Request) {
    req.ForgetAll? && exists d :: DropsFullDir(fs, req.forgets, d)
  }

  lemma DropsFullDirIsDrop(fs: Fs, forgets: seq<Forget>, d: Ino)
    requires WellFormed(fs) && IsDir(fs, d) && Children(fs, d) != map[]
    ensures DropsFullDir(fs, forgets, d) <==> d !in ForgetMany(fs.inodes, forgets)
  {
    ForgetManyIsSettle(fs.inodes, forgets, d);
  }

  /** A widened gap never closes again: its inode keeps a link no unlink can take away. */
  lemma InexactStays(fs: Fs, req: Request)
    requires WellFormed(fs) && Admissible(fs, req) && !Exact(fs)
    ensures !Exact(Step(fs, req).0)
  {
    var i :| i in fs.inodes && Gap(fs.inodes, i) != 0;
    assert NodeOk(fs, i);
    if req.ForgetAll? {
      GapOfForget(fs, req.forgets, i);
    } else {
      GapKept(fs, req, i);
    }
  }

  lemma OrphaningBreaksExact(fs: Fs, forgets: seq<Forget>, d: Ino)
    requires WellFormed(fs) && AllAddressed(forgets) && DropsFullDir(fs, forgets, d)
    ensures !Exact(Step(fs, ForgetAll(forgets)).0)
  {
    var after := ForgetMany(fs.inodes, forgets);
    DropsFullDirIsDrop(fs, forgets, d);
    var n :| n in Children(fs, d);
    var s := Slot(d, n);
    var i := Names(fs.inodes)[s];
    NamedIsLinked(fs, s);
    GapOfForget(fs, forgets, i);
    NamesOfForget(fs.inodes, forgets);
    assert NodeOk(fs, i);
    CountRestricted(Names(fs.inodes), Names(after), i);
    assert Gap(after, i) > 0;
  }

  lemma HarmlessForgetKeepsExact(fs: Fs, forgets: seq<Forget>)
    requires WellFormed(fs) && AllAddressed(forgets) && Exact(fs) && !OrphansNames(fs, ForgetAll(forgets))
    ensures Exact(Step(fs, ForgetAll(forgets)).0)
  {
    var after := ForgetMany(fs.inodes, forgets);
    forall s | s in Names(fs.inodes) ensures s.dir in after {
      DropsFullDirIsDrop(fs, forgets, s.dir);
    }
    NamesOfForget(fs.inodes, forgets);
    assert Names(after) == Names(fs.inodes);
    forall i | i in after ensures Gap(after, i) == 0 {
      ForgetManyIsSettle(fs.inodes, forgets, i);
      GapOfForget(fs, forgets, i);
    }
  }

  lemma OtherRequestsKeepExact(fs: Fs, req: Request)
    requires WellFormed(fs) && Admissible(fs, req) && Exact(fs) && !req.ForgetAll?
    ensures Exact(Step(fs, req).0)
  {
    var fs' := Step(fs, req).0;
    forall i | i in fs'.inodes ensures Gap(fs'.inodes, i) == 0 {
      if i in fs.inodes {
        GapKept(fs, req, i);
      } else {
        NewInode(fs, req, i);
      }
    }
  }

  /** One request keeps the links exact if and only if it does not drop a directory with entries. */
  lemma ExactStepIff(fs: Fs, req: Request)
    requires WellFormed(fs) && Admissible(fs, req)
    ensures Exact(Step(fs, req).0) <==> Exact(fs) && !OrphansNames(fs, req)
  {
    if !Exact(fs) {
      InexactStays(fs, req);
    } else if OrphansNames(fs, req) {
      var d :| DropsFullDir(fs, req.forgets, d);
      OrphaningBreaksExact(fs, req.forgets, d);
    } else if req.ForgetAll? {
      HarmlessForgetKeepsExact(fs, req.forgets);
    } else {
      OtherRequestsKeepExact(fs, req);
    }
  }

  ghost predicate NeverOrphans(reqs: seq<Request>) {
    reqs == []
    || (NeverOrphans(reqs[..|reqs| - 1]) && !OrphansNames(Exec(reqs[..|reqs| - 1]), reqs[|reqs| - 1]))
  }

  /** After any run the links are exact if and only if no forget of the run dropped a directory
      that still had entries. */
  lemma {:induction false} ExactLinksIff(reqs: seq<Request>)
    requires AdmissibleRun(reqs)
    ensures Exact(Exec(reqs)) <==> NeverOrphans(reqs)
  {
    if reqs == [] {
      InitWellFormed();
    } else {
      var before := reqs[..|reqs| - 1];
      ReachableWellFormed(before);
      ExactLinksIff(before);
      ExactStepIff(Exec(before), reqs[|reqs| - 1]);
    }
  }

  // Kernels that add no entries to removed directories.

  predicate DeadDir(fs: Fs, d: Ino) {
    IsDir(fs, d) && fs.inodes[d].links == 0
  }

  /** The request would put a new entry into a directory that has no links left. */
  predicate AddsToDead(fs: Fs, req: Request) {
    match req
    case Make(parent, _, _) => DeadDir(fs, parent)
    case Link(_, newparent, _) => DeadDir(fs, newparent)
    case Rename(parent, _, newparent, _, _) => newparent != parent && DeadDir(fs, newparent)
    case _ => false
  }

  ghost predicate DeadAreEmpty(fs: Fs) {
    forall d :: DeadDir(fs, d) ==> Children(fs, d) == map[]
  }

  lemma DeadStayEmpty(fs: Fs, req: Request)
    requires DeadAreEmpty(fs) && !AddsToDead(fs, req)
    ensures DeadAreEmpty(Step(fs, req).0)
  {
    forall d | DeadDir(Step(fs, req).0, d) ensures Children(Step(fs, req).0, d) == map[] {
      DeadAfterStep(fs, req, d);
    }
  }

  lemma DeadAfterStep(fs: Fs, req: Request, d: Ino)
    requires DeadAreEmpty(fs) && !AddsToDead(fs, req)
    requires DeadDir(Step(fs, req).0, d)
    ensures Children(Step(fs, req).0, d) == map[]
  {
    match req {
      case ForgetAll(forgets) =>
        ForgetManyIsSettle(fs.inodes, Addressed(forgets), d);
        assert DeadDir(fs, d);
      case Unlink(parent, name) => DeadAfterUnlink(fs, parent, name, d);
      case Rename(_, _, _, _, _) => DeadAfterRename(fs, req, d);
      case Make(parent, name, what) => DeadAfterMake(fs, parent, name, what, d);
      case Link(ino, newparent, newname) => DeadAfterLink(fs, ino, newparent, newname, d);
      case _ => assert DeadDir(fs, d);
    }
  }

  lemma DeadAfterMake(fs: Fs, parent: Ino, name: Name, what: NodeSpec, d: Ino)
    requires DeadAreEmpty(fs) && !DeadDir(fs, parent)
    requires DeadDir(DoMake(fs, parent, name, what).0, d)
    ensures Children(DoMake(fs, parent, name, what).0, d) == map[]
  {
    if d in fs.inodes && d != parent {
      assert DeadDir(fs, d);
    }
  }

  lemma DeadAfterLink(fs: Fs, ino: Ino, newparent: Ino, newname: Name, d: Ino)
    requires DeadAreEmpty(fs) && !DeadDir(fs, newparent)
    requires DeadDir(DoLink(fs, ino, newparent, newname).0, d)
    ensures Children(DoLink(fs, ino, newparent, newname).0, d) == map[]
  {
    if d != newparent {
      assert DeadDir(fs, d);
    }
  }

  lemma DeadAfterUnlink(fs: Fs, parent: Ino, name: Name, d: Ino)
    requires DeadAreEmpty(fs)
    requires DeadDir(DoUnlink(fs, parent, name).0, d)
    ensures Children(DoUnlink(fs, parent, name).0, d) == map[]
  {
    var (fs', r) := DoUnlink(fs, parent, name);
    if !r.Done? || (d != parent && d != Children(fs, parent)[name]) {
      assert DeadDir(fs, d);
    }
  }

  lemma DeadAfterRename(fs: Fs, req: Request, d: Ino)
    requires req.Rename? && DeadAreEmpty(fs) && !AddsToDead(fs, req)
    requires DeadDir(Step(fs, req).0, d)
    ensures Children(Step(fs, req).0, d) == map[]
  {
    assert DeadDir(fs, d);
    assert DeadDir(fs, req.parent) ==> Children(fs, req.parent) == map[];
  }

  ghost predicate NeverAddsToDead(reqs: seq<Request>) {
    reqs == []
    || (NeverAddsToDead(reqs[..|reqs| - 1]) && !AddsToDead(Exec(reqs[..|reqs| - 1]), reqs[|reqs| - 1]))
  }

  lemma {:induction false} DeadEmptyOverRuns(reqs: seq<Request>)
    requires AdmissibleRun(reqs) && NeverAddsToDead(reqs)
    ensures DeadAreEmpty(Exec(reqs)) && NeverOrphans(reqs)
  {
    if reqs != [] {
      var before, req := reqs[..|reqs| - 1], reqs[|reqs| - 1];
      DeadEmptyOverRuns(before);
      DeadStayEmpty(Exec(before), req);
    }
  }

  /** Over any run in which no request adds an entry to a directory without links, every non-root
      inode's `links` is exactly the number of its names, and `nlink` is `links` for files and
      symlinks and one more for directories. */
  lemma LinksCountNames(reqs: seq<Request>, i: Ino)
    requires AdmissibleRun(reqs) && NeverAddsToDead(reqs)
    requires i in Exec(reqs).inodes && i != ROOT
    ensures var node := Exec(reqs).inodes[i];
            && node.links == |NamesOf(Names(Exec(reqs).inodes), i)|
            && node.nlink == node.links + (if node.kind.Dir? then 1 else 0)
  {
    DeadEmptyOverRuns(reqs);
    ExactLinksIff(reqs);
    ReachableWellFormed(reqs);
    assert NodeOk(Exec(reqs), i);
  }

  /** `opendir` refuses an inode whose `nlink` is 0, but no directory ever gets there: a removed
      directory keeps the link of its own ".". */
  lemma DirectoriesKeepNlink(reqs: seq<Request>, d: Ino)
    requires AdmissibleRun(reqs) && IsDir(Exec(reqs), d)
    ensures Exec(reqs).inodes[d].nlink >= 1
  {
    ReachableWellFormed(reqs);
    assert NodeOk(Exec(reqs), d);
  }

  // The condition is needed: a run after which a file counts a link that no name accounts for.

  const ORPHANING_RUN: seq<Request> :=
    [Make(ROOT, [100], NewDir), Unlink(ROOT, [100]), Make(2, [102], NewFile), ForgetAll([Forget(2, 1)])]

  const ROOT_NODE: INode := INode(ROOT, 2, 0, ROOT_COUNT, ROOT_COUNT, Dir(map[], None))
  const REMOVED_DIR: INode := INode(2, 1, 0, 1, 0, Dir(map[], Some(ROOT)))
  const ORPHAN: INode := INode(3, 1, 0, 1, 1, RegularFile([]))

  lemma MadeAndRemoved()
    ensures Step(Step(Init(), ORPHANING_RUN[0]).0, ORPHANING_RUN[1]).0
         == Fs(map[ROOT := ROOT_NODE, 2 := REMOVED_DIR], 3, map[])
  {
    var dir := INode(2, 2, 0, 1, 1, Dir(map[], Some(ROOT)));
    var root := SetChildren(ROOT_NODE, map[[100] := 2]);
    var made := Step(Init(), ORPHANING_RUN[0]).0;
    assert made == Fs(map[ROOT := root, 2 := dir], 3, map[]);
    assert map[[100] := 2] - {[100]} == map[];
  }

  lemma FilledAndForgotten(fs: Fs)
    requires fs == Fs(map[ROOT := ROOT_NODE, 2 := REMOVED_DIR], 3, map[])
    ensures Step(Step(fs, ORPHANING_RUN[2]).0, ORPHANING_RUN[3]).0
         == Fs(map[ROOT := ROOT_NODE, 3 := ORPHAN], 4, map[])
  {
    var full := SetChildren(REMOVED_DIR, map[[102] := 3]);
    var inodes := map[ROOT := ROOT_NODE, 2 := full, 3 := ORPHAN];
    assert Step(fs, ORPHANING_RUN[2]).0 == Fs(inodes, 4, map[]);
    assert ForgetMany(inodes, [Forget(2, 1)]) == ForgetMany(ForgetOne(inodes, Forget(2, 1)), []);
    assert inodes - {2} == map[ROOT := ROOT_NODE, 3 := ORPHAN];
  }

  /** Make a directory, remove it, create a file in it while it is still referenced, then forget
      the directory: the file keeps `links` 1 although nothing names it. */
  lemma OrphanedLink()
    ensures AdmissibleRun(ORPHANING_RUN)
    ensures var inodes := Exec(ORPHANING_RUN).inodes;
            3 in inodes && inodes[3].links == 1 && NamesOf(Names(inodes), 3) == {}
  {
    var run := ORPHANING_RUN;
    ExecSnoc([], run[0]);
    ExecSnoc([run[0]], run[1]);
    ExecSnoc([run[0], run[1]], run[2]);
    ExecSnoc([run[0], run[1], run[2]], run[3]);
    assert [] + [run[0]] == [run[0]];
    assert [run[0]] + [run[1]] == [run[0], run[1]];
    assert [run[0], run[1]] + [run[2]] == [run[0], run[1], run[2]];
    assert [run[0], run[1], run[2]] + [run[3]] == run;
    MadeAndRemoved();
    FilledAndForgotten(Exec([run[0], run[1]]));
  }
}
