/** Lookup counts, inode numbers and failed requests, over whole runs. */
module MemFsLookups {
  import opened Prelude
  import opened Wire
  import opened Forgets
  import opened DirEntries
  import opened MemFs
  import opened MemFsNames
  import opened MemFsInvariant
  import opened MemFsContents
  import opened Ledger

  // The kernel's ledger.

  /** References to `i` that a reply hands to the kernel. */
  function Sent(r: Reply, i: Ino): nat {
    if r.Entry? && r.ino == i then 1 else 0
  }

  /** References to `i` that a request gives back. */
  function Returned(req: Request, i: Ino): nat {
    if req.ForgetAll? then Total(req.forgets, i) else 0
  }

  /** What a request does to the kernel's account of `i`; `reached` tells whether its reply was
      delivered. The handlers count before they reply. */
  function Transferred(fs: Fs, req: Request, reached: bool, i: Ino): Transfer {
    var counted := Sent(Step(fs, req).1, i);
    Transfer(counted, if reached then counted else 0, Returned(req, i))
  }

  /** The account of `i` over a run, given which replies were delivered. */
  function Transfers(reqs: seq<Request>, reached: seq<bool>, i: Ino): (ts: seq<Transfer>)
    requires |reached| == |reqs|
    ensures |ts| == |reqs|
  {
    if reqs == [] then []
    else
      var n := |reqs| - 1;
      Transfers(reqs[..n], reached[..n], i) + [Transferred(Exec(reqs[..n]), reqs[n], reached[n], i)]
  }

  /** Every reply of the run that handed out `i` was delivered. */
  predicate EntriesDelivered(reqs: seq<Request>, reached: seq<bool>, i: Ino)
    requires |reached| == |reqs|
  {
    reqs == []
    || (var n := |reqs| - 1;
        && EntriesDelivered(reqs[..n], reached[..n], i)
        && (Sent(LastReply(reqs), i) > 0 ==> reached[n]))
  }

  lemma {:induction false} DeliveredIsNothingLost(reqs: seq<Request>, reached: seq<bool>, i: Ino)
    requires |reached| == |reqs|
    ensures var ts := Transfers(reqs, reached, i);
            Plausible(ts) && (NothingLost(ts) <==> EntriesDelivered(reqs, reached, i))
  {
    if reqs != [] {
      var n := |reqs| - 1;
      DeliveredIsNothingLost(reqs[..n], reached[..n], i);
      LastTransfer(Transfers(reqs[..n], reached[..n], i), Transferred(Exec(reqs[..n]), reqs[n], reached[n], i));
    }
  }

  /** The lookup count the table keeps for `i`, without the root's head start; 0 for a dead inode. */
  function Count(inodes: map<Ino, INode>, i: Ino): int {
    if i in inodes then inodes[i].refcount - (if i == ROOT then ROOT_COUNT else 0) else 0
  }

  /** A request other than a forget adds to an inode's lookup count exactly what its reply hands
      out, and to any counter at most one. */
  predicate CountersMoved(a: INode, b: INode, handed: nat, unlinks: bool) {
    && b.refcount == a.refcount + handed
    && b.links <= a.links + 1 && b.nlink <= a.nlink + 1
    && (!unlinks ==> b.links >= a.links)
  }

  lemma CountersOfMake(fs: Fs, parent: Ino, name: Name, what: NodeSpec, i: Ino)
    requires fs.nextIno !in fs.inodes && i in fs.inodes
    ensures var (fs', r) := DoMake(fs, parent, name, what);
            i in fs'.inodes && CountersMoved(fs.inodes[i], fs'.inodes[i], Sent(r, i), false)
  {
  }

  lemma CountersOfLink(fs: Fs, ino: Ino, newparent: Ino, newname: Name, i: Ino)
    requires ino != newparent && i in fs.inodes
    ensures var (fs', r) := DoLink(fs, ino, newparent, newname);
            i in fs'.inodes && CountersMoved(fs.inodes[i], fs'.inodes[i], Sent(r, i), false)
  {
  }

  lemma CountersOfRename(fs: Fs, parent: Ino, name: Name, newparent: Ino, newname: Name, noFlags: bool, i: Ino)
    requires i in fs.inodes
    ensures var (fs', r) := DoRename(fs, parent, name, newparent, newname, noFlags);
            i in fs'.inodes && CountersMoved(fs.inodes[i], fs'.inodes[i], Sent(r, i), false)
  {
  }

  lemma CountersOfUnlink(fs: Fs, parent: Ino, name: Name, i: Ino)
    requires i in fs.inodes
    ensures var (fs', r) := DoUnlink(fs, parent, name);
            i in fs'.inodes && CountersMoved(fs.inodes[i], fs'.inodes[i], Sent(r, i), true)
  {
  }

  lemma CountersOfStep(fs: Fs, req: Request, i: Ino)
    requires !req.ForgetAll? && i in fs.inodes && WellFormed(fs) && Admissible(fs, req)
    ensures var (fs', r) := Step(fs, req);
            i in fs'.inodes && CountersMoved(fs.inodes[i], fs'.inodes[i], Sent(r, i), req.Unlink?)
  {
    NextInoVacant(fs);
    match req {
      case Make(parent, name, what) => CountersOfMake(fs, parent, name, what, i);
      case Link(ino, newparent, newname) => CountersOfLink(fs, ino, newparent, newname, i);
      case Unlink(parent, name) => CountersOfUnlink(fs, parent, name, i);
      case Rename(parent, name, newparent, newname, noFlags) =>
        CountersOfRename(fs, parent, name, newparent, newname, noFlags, i);
      case _ =>
    }
  }

  /** Where an inode that was not in the table comes from. */
  lemma CountersOfNew(fs: Fs, req: Request, i: Ino)
    requires WellFormed(fs) && Admissible(fs, req) && i !in fs.inodes
    ensures var (fs', r) := Step(fs, req);
            if i in fs'.inodes then
              && i != ROOT && Sent(r, i) == 1
              && fs'.inodes[i].refcount == 1 && fs'.inodes[i].links == 1 && fs'.inodes[i].nlink <= 2
            else Sent(r, i) == 0
  {
    NewInode(fs, req, i);
    if Step(fs, req).1.Entry? && !req.Make? {
      EntriesAreLive(fs, req);
    }
  }

  /** Only live inodes are handed out. */
  lemma EntriesAreLive(fs: Fs, req: Request)
    requires WellFormed(fs) && Step(fs, req).1.Entry? && !req.Make?
    ensures Step(fs, req).1.ino in fs.inodes
  {
  }

  lemma CountOfForget(fs: Fs, forgets: seq<Forget>, i: Ino)
    requires WellFormed(fs) && Total(forgets, i) <= Max(0, Count(fs.inodes, i))
    ensures Count(ForgetMany(fs.inodes, forgets), i) == Count(fs.inodes, i) - Total(forgets, i)
  {
    ForgetManyIsSettle(fs.inodes, forgets, i);
    if i in fs.inodes {
      GapOfForget(fs, forgets, i);
    }
  }

  lemma CountOfStep(fs: Fs, req: Request, i: Ino)
    requires WellFormed(fs) && Admissible(fs, req)
    requires Returned(req, i) <= Max(0, Count(fs.inodes, i))
    ensures var (fs', r) := Step(fs, req);
            Count(fs'.inodes, i) == Count(fs.inodes, i) + Sent(r, i) - Returned(req, i)
  {
    if req.ForgetAll? {
      CountOfForget(fs, req.forgets, i);
    } else if i in fs.inodes {
      CountersOfStep(fs, req, i);
    } else {
      CountersOfNew(fs, req, i);
    }
  }

  /** With a disciplined kernel every inode's lookup count is what the kernel still holds plus what
      undelivered replies were to hand out; the kernel holds nothing of an inode that is gone. */
  lemma {:induction false} CountIsHeldAndLost(reqs: seq<Request>, reached: seq<bool>, i: Ino)
    requires AdmissibleRun(reqs) && |reached| == |reqs| && Disciplined(Transfers(reqs, reached, i))
    ensures var ts := Transfers(reqs, reached, i);
            Count(Exec(reqs).inodes, i) == Held(ts) + Lost(ts) && Held(ts) >= 0 && Lost(ts) >= 0
  {
    var ts := Transfers(reqs, reached, i);
    HeldIsNotNegative(ts);
    DeliveredIsNothingLost(reqs, reached, i);
    LostIff(ts);
    if reqs != [] {
      var n := |reqs| - 1;
      var before, last := Transfers(reqs[..n], reached[..n], i), Transferred(Exec(reqs[..n]), reqs[n], reached[n], i);
      LastTransfer(before, last);
      CountIsHeldAndLost(reqs[..n], reached[..n], i);
      ReachableWellFormed(reqs[..n]);
      CountOfStep(Exec(reqs[..n]), reqs[n], i);
    }
  }

  /** The count is exactly the kernel's balance if and only if every reply that handed out the inode
      was delivered. */
  lemma CountIsBalanceIff(reqs: seq<Request>, reached: seq<bool>, i: Ino)
    requires AdmissibleRun(reqs) && |reached| == |reqs| && Disciplined(Transfers(reqs, reached, i))
    ensures Count(Exec(reqs).inodes, i) == Held(Transfers(reqs, reached, i)) <==> EntriesDelivered(reqs, reached, i)
  {
    CountIsHeldAndLost(reqs, reached, i);
    DeliveredIsNothingLost(reqs, reached, i);
    LostIff(Transfers(reqs, reached, i));
  }

  /** A creation whose reply is not delivered leaves a count that no forget will take back. */
  lemma UndeliveredEntry()
    ensures var reqs := [Make(ROOT, [102], NewFile)];
            var ts := Transfers(reqs, [false], 2);
            AdmissibleRun(reqs) && Disciplined(ts) && Held(ts) == 0 && Count(Exec(reqs).inodes, 2) == 1
  {
    MadeFile();
    var make := Make(ROOT, [102], NewFile);
    assert [make][..0] == [] && [false][..0] == [];
    assert Transfers([], [], 2) == [];
    LastTransfer([], Transferred(Exec([]), make, false, 2));
  }

  /** An inode that the kernel still references, or that has a name, is never dropped. */
  lemma NeverDroppedInUse(reqs: seq<Request>, reached: seq<bool>, i: Ino)
    requires AdmissibleRun(reqs) && |reached| == |reqs| && Disciplined(Transfers(reqs, reached, i))
    requires Held(Transfers(reqs, reached, i)) > 0 || NamesOf(Names(Exec(reqs).inodes), i) != {}
    ensures i in Exec(reqs).inodes
  {
    CountIsHeldAndLost(reqs, reached, i);
    ReachableWellFormed(reqs);
    if NamesOf(Names(Exec(reqs).inodes), i) != {} {
      var s :| s in NamesOf(Names(Exec(reqs).inodes), i);
      NamedIsLinked(Exec(reqs), s);
    }
  }

  // Reclamation.

  /** An inode that lingers without links and without references. */
  predicate Garbage(fs: Fs, i: Ino) {
    i in fs.inodes && fs.inodes[i].links == 0 && fs.inodes[i].refcount == 0
  }

  ghost predicate NoGarbage(fs: Fs) {
    forall i :: !Garbage(fs, i)
  }

  /** The request removes the last link of `i`, which nobody references and which is not a directory
      with entries. */
  ghost predicate Abandons(fs: Fs, req: Request, i: Ino) {
    && req.Unlink? && Slot(req.parent, req.name) in Names(fs.inodes)
    && Names(fs.inodes)[Slot(req.parent, req.name)] == i && NoNamesIn(Names(fs.inodes), i)
    && i in fs.inodes && fs.inodes[i].links == 1 && fs.inodes[i].refcount == 0
  }

  /** The request picks `i` up again: a forget that mentions it, or a link to it by its number. */
  ghost predicate PicksUp(fs: Fs, req: Request, i: Ino) {
    match req
    case ForgetAll(forgets) => Mentions(forgets, i)
    case Link(ino, newparent, newname) =>
      ino == i && IsDir(fs, newparent) && Slot(newparent, newname) !in Names(fs.inodes)
    case _ => false
  }

  /** Unlinking does not reclaim: an inode is garbage after a request if and only if the request
      abandons it, or it was garbage and the request does not pick it up. */
  lemma GarbageStepIff(fs: Fs, req: Request, i: Ino)
    requires WellFormed(fs) && Admissible(fs, req)
    ensures Garbage(Step(fs, req).0, i) <==> Abandons(fs, req, i) || (Garbage(fs, i) && !PicksUp(fs, req, i))
  {
    if req.ForgetAll? {
      ForgetManyIsSettle(fs.inodes, req.forgets, i);
      if !Mentions(req.forgets, i) {
        TotalOfUnmentioned(req.forgets, i);
      }
    } else if i !in fs.inodes {
      CountersOfNew(fs, req, i);
    } else if req.Unlink? {
      GarbageOfUnlink(fs, req.parent, req.name, i);
    } else {
      CountersOfStep(fs, req, i);
      LinksOfOthers(fs, req, i);
      if OnNames(req) {
        OutcomesByNameSpace(fs, req);
      }
      if req.Lookup? && Slot(req.parent, req.name) in Names(fs.inodes) {
        NamedIsLinked(fs, Slot(req.parent, req.name));
      }
    }
  }

  lemma GarbageOfUnlink(fs: Fs, parent: Ino, name: Name, i: Ino)
    requires WellFormed(fs) && i in fs.inodes
    ensures Garbage(DoUnlink(fs, parent, name).0, i) <==> Abandons(fs, Unlink(parent, name), i) || Garbage(fs, i)
  {
    LinksAfterUnlink(fs, parent, name, i);
    OutcomesByNameSpace(fs, Unlink(parent, name));
    if DoUnlink(fs, parent, name).1.Done? {
      UnlinkCounts(fs, parent, name);
    }
  }

  /** Requests that neither unlink nor forget add to `links` what they link. */
  lemma LinksOfOthers(fs: Fs, req: Request, i: Ino)
    requires WellFormed(fs) && Admissible(fs, req) && i in fs.inodes && !req.ForgetAll? && !req.Unlink?
    ensures var (fs', r) := Step(fs, req);
            && i in fs'.inodes
            && fs'.inodes[i].links == fs.inodes[i].links + (if req.Link? && r.Entry? && req.ino == i then 1 else 0)
  {
    NextInoVacant(fs);
    if req.Rename? {
      RenameTouches(fs, req.parent, req.name, req.newparent, req.newname, req.noFlags, i);
    }
  }

  /** No garbage appears if and only if the request abandons nothing. */
  lemma GarbageIff(fs: Fs, req: Request)
    requires WellFormed(fs) && Admissible(fs, req) && NoGarbage(fs)
    ensures NoGarbage(Step(fs, req).0) <==> forall i :: !Abandons(fs, req, i)
  {
    forall i ensures Garbage(Step(fs, req).0, i) <==> Abandons(fs, req, i) {
      GarbageStepIff(fs, req, i);
    }
  }

  /** Some request of the run abandoned `i`, and none has picked it up since. */
  ghost predicate AbandonedSince(reqs: seq<Request>, i: Ino) {
    && reqs != []
    && var before, last := reqs[..|reqs| - 1], reqs[|reqs| - 1];
       Abandons(Exec(before), last, i) || (AbandonedSince(before, i) && !PicksUp(Exec(before), last, i))
  }

  /** After any run, exactly the inodes that were abandoned and not picked up since are garbage. */
  lemma {:induction false} GarbageOverRunsIff(reqs: seq<Request>, i: Ino)
    requires AdmissibleRun(reqs)
    ensures Garbage(Exec(reqs), i) <==> AbandonedSince(reqs, i)
  {
    if reqs != [] {
      var before := reqs[..|reqs| - 1];
      GarbageOverRunsIff(before, i);
      ReachableWellFormed(before);
      GarbageStepIff(Exec(before), reqs[|reqs| - 1], i);
    }
  }

  lemma LinksAfterUnlink(fs: Fs, parent: Ino, name: Name, i: Ino)
    requires i in fs.inodes
    ensures var (fs', r) := DoUnlink(fs, parent, name);
            && fs'.inodes[i].refcount == fs.inodes[i].refcount
            && fs'.inodes[i].links
               == if r.Done? && Children(fs, parent)[name] == i then SaturatingSub(fs.inodes[i].links, 1)
                  else fs.inodes[i].links
  {
  }

  const ABANDONING_RUN: seq<Request> :=
    [Make(ROOT, [102], NewFile), ForgetAll([Forget(2, 1)]), Unlink(ROOT, [102])]

  lemma MadeAndForgotten()
    ensures var root := INode(ROOT, 2, 0, ROOT_COUNT, ROOT_COUNT, Dir(map[[102] := 2], None));
            var fs := Step(Step(Init(), ABANDONING_RUN[0]).0, ABANDONING_RUN[1]).0;
            fs == Fs(map[ROOT := root, 2 := INode(2, 1, 0, 0, 1, RegularFile([]))], 3, map[])
  {
    var made := Step(Init(), ABANDONING_RUN[0]).0;
    assert ForgetMany(made.inodes, [Forget(2, 1)]) == ForgetMany(ForgetOne(made.inodes, Forget(2, 1)), []);
  }

  /** Create a file, forget it, then unlink it: the file stays in the table for good. */
  lemma AbandonedInode()
    ensures AdmissibleRun(ABANDONING_RUN)
    ensures var inodes := Exec(ABANDONING_RUN).inodes;
            2 in inodes && inodes[2].links == 0 && inodes[2].refcount == 0
  {
    var run := ABANDONING_RUN;
    ExecSnoc([], run[0]);
    ExecSnoc([run[0]], run[1]);
    ExecSnoc([run[0], run[1]], run[2]);
    assert [] + [run[0]] == [run[0]];
    assert [run[0]] + [run[1]] == [run[0], run[1]];
    assert [run[0], run[1]] + [run[2]] == run;
    MadeAndForgotten();
  }

  // Inode numbers.

  lemma {:induction false} AllocatorOverRuns(reqs: seq<Request>, n: nat)
    requires AdmissibleRun(reqs) && n <= |reqs|
    ensures AdmissibleRun(reqs[..n])
    ensures Exec(reqs[..n]).nextIno <= Exec(reqs).nextIno
  {
    if n == |reqs| {
      assert reqs[..n] == reqs;
    } else {
      var before := reqs[..|reqs| - 1];
      AllocatorOverRuns(before, n);
      assert before[..n] == reqs[..n];
      ReachableWellFormed(before);
      NextInoGrows(Exec(before), reqs[|reqs| - 1]);
    }
  }

  /** A number once allocated and no longer in the table never comes back: with `generation` fixed
      at 0, `nodeid` alone is unique for the file system's lifetime. */
  lemma {:induction false} NumbersNeverReused(reqs: seq<Request>, n: nat, i: Ino)
    requires AdmissibleRun(reqs) && n <= |reqs|
    requires i < Exec(reqs[..n]).nextIno && i !in Exec(reqs[..n]).inodes
    ensures i !in Exec(reqs).inodes
  {
    if n == |reqs| {
      assert reqs[..n] == reqs;
    } else {
      var before, req := reqs[..|reqs| - 1], reqs[|reqs| - 1];
      assert before[..n] == reqs[..n];
      NumbersNeverReused(before, n, i);
      AllocatorOverRuns(before, n);
      ReachableWellFormed(before);
      NewInode(Exec(before), req, i);
    }
  }

  /** A number that is live at two points of a run was live all the time between them, with the same
      number and kind: it never stood for anything else. */
  lemma {:induction false} NumbersKeepMeaning(reqs: seq<Request>, n: nat, m: nat, i: Ino)
    requires AdmissibleRun(reqs) && n <= m <= |reqs|
    requires i in Exec(reqs[..n]).inodes && i in Exec(reqs).inodes
    ensures i in Exec(reqs[..m]).inodes
    ensures SameNode(Exec(reqs[..n]).inodes[i], Exec(reqs[..m]).inodes[i])
    ensures SameNode(Exec(reqs[..m]).inodes[i], Exec(reqs).inodes[i])
  {
    assert reqs[..m][..n] == reqs[..n];
    LiveBetween(reqs, n, m, i);
    SameSince(reqs[..m], n, i);
    SameSince(reqs, m, i);
  }

  lemma LiveBetween(reqs: seq<Request>, n: nat, m: nat, i: Ino)
    requires AdmissibleRun(reqs) && n <= m <= |reqs|
    requires i in Exec(reqs[..n]).inodes && i in Exec(reqs).inodes
    ensures AdmissibleRun(reqs[..m]) && i in Exec(reqs[..m]).inodes
  {
    AllocatorOverRuns(reqs, n);
    AllocatorOverRuns(reqs, m);
    assert reqs[..m][..n] == reqs[..n];
    AllocatorOverRuns(reqs[..m], n);
    ReachableWellFormed(reqs[..n]);
    assert NodeOk(Exec(reqs[..n]), i);
    if i !in Exec(reqs[..m]).inodes {
      NumbersNeverReused(reqs, m, i);
    }
  }

  lemma {:induction false} SameSince(reqs: seq<Request>, n: nat, i: Ino)
    requires AdmissibleRun(reqs) && n <= |reqs|
    requires i in Exec(reqs[..n]).inodes && i in Exec(reqs).inodes
    ensures SameNode(Exec(reqs[..n]).inodes[i], Exec(reqs).inodes[i])
  {
    if n == |reqs| {
      assert reqs[..n] == reqs;
    } else {
      var before, req := reqs[..|reqs| - 1], reqs[|reqs| - 1];
      assert before[..n] == reqs[..n];
      LiveBetween(reqs, n, |reqs| - 1, i);
      ReachableWellFormed(before);
      SameSince(before, n, i);
      NodeKept(Exec(before), req, i);
    }
  }

  lemma LastStep(reqs: seq<Request>, k: nat)
    requires k < |reqs|
    ensures Exec(reqs[..k + 1]) == Step(Exec(reqs[..k]), reqs[k]).0
    ensures LastReply(reqs[..k + 1]) == Step(Exec(reqs[..k]), reqs[k]).1
  {
    var upTo := reqs[..k + 1];
    assert upTo[..|upTo| - 1] == reqs[..k] && upTo[|upTo| - 1] == reqs[k];
  }

  lemma MakeNumber(fs: Fs, req: Request)
    requires req.Make? && Step(fs, req).1.Entry?
    ensures Step(fs, req).1.ino == fs.nextIno == Step(fs, req).0.nextIno - 1
  {
  }

  /** Two creating requests of one run never hand out the same number. */
  lemma CreatedNumbersDiffer(reqs: seq<Request>, j: nat, k: nat)
    requires AdmissibleRun(reqs) && j < k < |reqs|
    requires reqs[j].Make? && LastReply(reqs[..j + 1]).Entry?
    requires reqs[k].Make? && LastReply(reqs[..k + 1]).Entry?
    ensures LastReply(reqs[..j + 1]).ino < LastReply(reqs[..k + 1]).ino
  {
    LastStep(reqs, j);
    LastStep(reqs, k);
    MakeNumber(Exec(reqs[..j]), reqs[j]);
    MakeNumber(Exec(reqs[..k]), reqs[k]);
    AllocatorOverRuns(reqs, k);
    AllocatorOverRuns(reqs[..k], j + 1);
    assert reqs[..k][..j + 1] == reqs[..j + 1];
  }

  // Failed requests.

  /** The run without the requests that were refused, but for the writes that tore a file. */
  function Effective(reqs: seq<Request>): seq<Request> {
    if reqs == [] then []
    else
      var n := |reqs| - 1;
      var before := Effective(reqs[..n]);
      if LastReply(reqs).Fail? && !TearsFile(Exec(reqs[..n]), reqs[n]) then before else before + [reqs[n]]
  }

  /** Requests are all-or-nothing: leaving the refused ones out of a run changes nothing at all. Only
      a write that tears its file is both refused and kept. */
  lemma {:induction false} RefusedRequestsLeaveNoTrace(reqs: seq<Request>)
    ensures Exec(Effective(reqs)) == Exec(reqs)
  {
    if reqs != [] {
      var n := |reqs| - 1;
      RefusedRequestsLeaveNoTrace(reqs[..n]);
      if LastReply(reqs).Fail? {
        RefusedStepIff(Exec(reqs[..n]), reqs[n]);
      }
      if Effective(reqs) != Effective(reqs[..n]) {
        ExecSnoc(Effective(reqs[..n]), reqs[n]);
      }
    }
  }

  // Batches of forgets.

  lemma ForgetsAgree(inodes: map<Ino, INode>, a: seq<Forget>, b: seq<Forget>)
    requires forall i :: i in inodes ==>
               Settle(inodes[i].refcount, inodes[i].links > 0, a, i)
               == Settle(inodes[i].refcount, inodes[i].links > 0, b, i)
    ensures ForgetMany(inodes, a) == ForgetMany(inodes, b)
  {
    forall i: Ino
      ensures i in ForgetMany(inodes, a) <==> i in ForgetMany(inodes, b)
      ensures i in ForgetMany(inodes, a) ==> ForgetMany(inodes, a)[i] == ForgetMany(inodes, b)[i]
    {
      ForgetManyIsSettle(inodes, a, i);
      ForgetManyIsSettle(inodes, b, i);
    }
  }

  /** A batch has the same effect in any order, and the same as one summed forget per inode. */
  lemma BatchOrderIrrelevant(inodes: map<Ino, INode>, a: seq<Forget>, b: seq<Forget>)
    requires multiset(a) == multiset(b)
    ensures ForgetMany(inodes, a) == ForgetMany(inodes, b)
    ensures ForgetMany(inodes, a) == ForgetMany(inodes, Summed(a)) && OncePerInode(Summed(a))
  {
    SummedOnce(a);
    forall i | i in inodes
      ensures Settle(inodes[i].refcount, inodes[i].links > 0, a, i)
           == Settle(inodes[i].refcount, inodes[i].links > 0, b, i)
           == Settle(inodes[i].refcount, inodes[i].links > 0, Summed(a), i)
    {
      SettleOfPermutation(inodes[i].refcount, inodes[i].links > 0, a, b, i);
      SettleOfSummed(inodes[i].refcount, inodes[i].links > 0, a, i);
    }
    ForgetsAgree(inodes, a, b);
    ForgetsAgree(inodes, a, Summed(a));
  }

  // Counter widths.

  /** No counter has grown by more than `n` since the start. */
  ghost predicate Within(fs: Fs, n: nat) {
    && fs.nextIno <= n + 2
    && forall i :: i in fs.inodes ==>
         && fs.inodes[i].refcount <= LinkBase(i) + n
         && fs.inodes[i].links <= LinkBase(i) + n
         && fs.inodes[i].nlink <= 2 + n
  }

  lemma StepWithin(fs: Fs, req: Request, n: nat)
    requires WellFormed(fs) && Admissible(fs, req) && Within(fs, n)
    ensures Within(Step(fs, req).0, n + 1)
  {
    var fs' := Step(fs, req).0;
    NextInoByOne(fs, req);
    forall i | i in fs'.inodes
      ensures fs'.inodes[i].refcount <= LinkBase(i) + n + 1
      ensures fs'.inodes[i].links <= LinkBase(i) + n + 1
      ensures fs'.inodes[i].nlink <= 2 + n + 1
    {
      if req.ForgetAll? {
        ForgetManyIsSettle(fs.inodes, req.forgets, i);
      } else if i in fs.inodes {
        CountersOfStep(fs, req, i);
      } else {
        CountersOfNew(fs, req, i);
      }
    }
  }

  lemma NextInoByOne(fs: Fs, req: Request)
    ensures Step(fs, req).0.nextIno <= fs.nextIno + 1
  {
  }

  /** In a run of fewer than 2^32 - 2 requests no counter leaves the width the source gives it
      (`nlink` 32 bits, the others 64), so its additions do not overflow. */
  lemma {:induction false} CountersFit(reqs: seq<Request>)
    requires AdmissibleRun(reqs)
    ensures Within(Exec(reqs), |reqs|)
    ensures |reqs| < U32 - 2 ==> Exec(reqs).nextIno < U64
    ensures |reqs| < U32 - 2 ==>
              forall i :: i in Exec(reqs).inodes ==>
                && Exec(reqs).inodes[i].nlink < U32
                && Exec(reqs).inodes[i].links < U64 && Exec(reqs).inodes[i].refcount < U64
  {
    if reqs != [] {
      var before := reqs[..|reqs| - 1];
      CountersFit(before);
      ReachableWellFormed(before);
      StepWithin(Exec(before), reqs[|reqs| - 1], |before|);
    }
  }
}
