/** Paging through a directory that may change meanwhile. */
module MemFsPaging {
  import opened Prelude
  import opened Wire
  import opened Forgets
  import opened DirEntries
  import opened MemFs

  /** Offsets count the entries from 1, as `collect_entries` numbers them. */
  ghost predicate Numbered(es: seq<DirEntry>) {
    forall k :: 0 <= k < |es| ==> es[k].off == k + 1
  }

  predicate ReadsFrom(req: Request, fh: nat) {
    req.Readdir? && req.fh == fh
  }

  /** The offset a reader continues from: the `off` of the last entry it has. */
  function NextOffset(got: seq<DirEntry>): nat {
    if got == [] then 0 else got[|got| - 1].off
  }

  /** What the kernel has after one more request, parsing the reply of a READDIR on `fh` if it `reached`
      the kernel. */
  function GotAfter(fs: Fs, req: Request, reached: bool, fh: nat, got: seq<DirEntry>): seq<DirEntry> {
    var r := Step(fs, req).1;
    if reached && ReadsFrom(req, fh) && r.Page? then got + Walk(r.buf) else got
  }

  /** What the kernel has after a run of requests from `fs`, having had `got`. */
  function GotOverRun(fs: Fs, reqs: seq<Request>, reached: seq<bool>, fh: nat, got: seq<DirEntry>): seq<DirEntry>
    requires |reached| == |reqs|
    decreases |reqs|
  {
    if reqs == [] then got
    else GotOverRun(Step(fs, reqs[0]).0, reqs[1..], reached[1..], fh, GotAfter(fs, reqs[0], reached[0], fh, got))
  }

  /** A run of any requests at all, among them a reader of handle `fh` that passes the `off` of the
      last entry it received and does not close the handle before it is done. Replies may get lost. */
  ghost predicate PagedRun(fs: Fs, reqs: seq<Request>, reached: seq<bool>, fh: nat, got: seq<DirEntry>)
    requires |reached| == |reqs|
    decreases |reqs|
  {
    reqs == []
    || (&& Admissible(fs, reqs[0])
        && reqs[0] != Releasedir(fh)
        && (ReadsFrom(reqs[0], fh) ==> !reqs[0].plus && reqs[0].offset == NextOffset(got))
        && PagedRun(Step(fs, reqs[0]).0, reqs[1..], reached[1..], fh, GotAfter(fs, reqs[0], reached[0], fh, got)))
  }

  /** The number of page requests on `fh` in a run whose replies reached the kernel. */
  function Calls(reqs: seq<Request>, reached: seq<bool>, fh: nat): nat
    requires |reached| == |reqs|
  {
    if reqs == [] then 0
    else (if reached[0] && ReadsFrom(reqs[0], fh) then 1 else 0) + Calls(reqs[1..], reached[1..], fh)
  }

  /** Whatever happens to the file system, an open handle keeps its snapshot. */
  lemma HandleKept(fs: Fs, req: Request, fh: nat)
    requires fh in fs.handles && Admissible(fs, req) && req != Releasedir(fh)
    ensures fh in Step(fs, req).0.handles && Step(fs, req).0.handles[fh] == fs.handles[fh]
  {
  }

  lemma PageFrom(es: seq<DirEntry>, p: nat, size: nat)
    requires p <= |es| && AllEncodable(es)
    ensures var q := p + Fitting(es[p..], size);
            q <= |es| && es[..p] + Walk(Packed(PageOf(es, p, size))) == es[..q]
  {
    var page := PageOf(es, p, size);
    WalkOfPacked(page);
    assert es[..p] + page == es[..p + Fitting(es[p..], size)];
  }

  /** The reader's position in the snapshot after one request: the records that fit are passed. */
  function Advance(es: seq<DirEntry>, req: Request, reached: bool, fh: nat, p: nat): (q: nat)
    requires p <= |es|
    ensures p <= q <= |es|
  {
    if reached && ReadsFrom(req, fh) then p + Fitting(es[p..], req.size) else p
  }

  function Position(es: seq<DirEntry>, reqs: seq<Request>, reached: seq<bool>, fh: nat, p: nat): (q: nat)
    requires p <= |es| && |reached| == |reqs|
    ensures p <= q <= |es|
    decreases |reqs|
  {
    if reqs == [] then p else Position(es, reqs[1..], reached[1..], fh, Advance(es, reqs[0], reached[0], fh, p))
  }

  lemma PageReply(fs: Fs, req: Request, fh: nat)
    requires ReadsFrom(req, fh) && fh in fs.handles && !req.plus
    ensures Step(fs, req).1 == Page(Packed(PageOf(fs.handles[fh], req.offset, req.size)))
  {
  }

  lemma PrefixEndsAt(es: seq<DirEntry>, p: nat)
    requires Numbered(es) && p <= |es|
    ensures NextOffset(es[..p]) == p
  {
  }

  lemma OnePage(fs: Fs, req: Request, reached: bool, fh: nat, p: nat)
    requires fh in fs.handles && Numbered(fs.handles[fh]) && AllEncodable(fs.handles[fh])
    requires p <= |fs.handles[fh]|
    requires ReadsFrom(req, fh) ==> !req.plus && req.offset == NextOffset(fs.handles[fh][..p])
    ensures GotAfter(fs, req, reached, fh, fs.handles[fh][..p])
         == fs.handles[fh][..Advance(fs.handles[fh], req, reached, fh, p)]
  {
    if reached && ReadsFrom(req, fh) {
      PrefixEndsAt(fs.handles[fh], p);
      PageReply(fs, req, fh);
      PageFrom(fs.handles[fh], p, req.size);
    }
  }

  /** A reader is never given an entry twice, out of order, or one the snapshot does not have: what
      it has is always the prefix of the snapshot up to its position, lost replies or not. */
  lemma {:induction false} PagingDelivers(fs: Fs, reqs: seq<Request>, reached: seq<bool>, fh: nat, p: nat)
    requires |reached| == |reqs|
    requires fh in fs.handles && Numbered(fs.handles[fh]) && AllEncodable(fs.handles[fh])
    requires p <= |fs.handles[fh]| && PagedRun(fs, reqs, reached, fh, fs.handles[fh][..p])
    ensures GotOverRun(fs, reqs, reached, fh, fs.handles[fh][..p])
         == fs.handles[fh][..Position(fs.handles[fh], reqs, reached, fh, p)]
    decreases |reqs|
  {
    if reqs != [] {
      OnePage(fs, reqs[0], reached[0], fh, p);
      HandleKept(fs, reqs[0], fh);
      PagingDelivers(Step(fs, reqs[0]).0, reqs[1..], reached[1..], fh,
                     Advance(fs.handles[fh], reqs[0], reached[0], fh, p));
    }
  }

  /** Every page request on `fh` has room for the largest record. */
  ghost predicate PagesHoldAll(reqs: seq<Request>, fh: nat, es: seq<DirEntry>) {
    forall j, k :: 0 <= j < |reqs| && 0 <= k < |es| && ReadsFrom(reqs[j], fh) ==>
      RecordSize(es[k]) <= reqs[j].size
  }

  /** Then each answered call before the end brings at least one entry: `|es|` of them bring them all. */
  lemma {:induction false} LargePagesAdvance(es: seq<DirEntry>, reqs: seq<Request>, reached: seq<bool>, fh: nat, p: nat)
    requires p <= |es| && |reached| == |reqs| && PagesHoldAll(reqs, fh, es)
    ensures Position(es, reqs, reached, fh, p) >= Min(|es|, p + Calls(reqs, reached, fh))
    decreases |reqs|
  {
    if reqs != [] {
      assert forall j :: 0 <= j < |reqs[1..]| ==> reqs[1..][j] == reqs[j + 1];
      if ReadsFrom(reqs[0], fh) && p < |es| {
        assert RecordSize(es[p..][0]) <= reqs[0].size;
      }
      LargePagesAdvance(es, reqs[1..], reached[1..], fh, Advance(es, reqs[0], reached[0], fh, p));
    }
  }

  /** The page sizes that never let a record through. */
  ghost predicate PagesRefuse(reqs: seq<Request>, fh: nat, e: DirEntry) {
    forall j :: 0 <= j < |reqs| && ReadsFrom(reqs[j], fh) ==> reqs[j].size < RecordSize(e)
  }

  lemma {:induction false} FittingStopsAt(es: seq<DirEntry>, cap: nat, k: nat)
    requires k < |es| && cap < RecordSize(es[k])
    ensures Fitting(es, cap) <= k
  {
    if k > 0 && RecordSize(es[0]) <= cap {
      FittingStopsAt(es[1..], cap - RecordSize(es[0]), k - 1);
    }
  }

  /** The size condition is needed: a reader whose pages are all too small for record `k` never
      gets past it, however often it asks. */
  lemma {:induction false} SmallPagesStall(es: seq<DirEntry>, reqs: seq<Request>, reached: seq<bool>, fh: nat, p: nat,
                                           k: nat)
    requires p <= k < |es| && |reached| == |reqs| && PagesRefuse(reqs, fh, es[k])
    ensures Position(es, reqs, reached, fh, p) <= k
    decreases |reqs|
  {
    if reqs != [] {
      if ReadsFrom(reqs[0], fh) {
        FittingStopsAt(es[p..], reqs[0].size, k - p);
      }
      assert forall j :: 0 <= j < |reqs[1..]| ==> reqs[1..][j] == reqs[j + 1];
      SmallPagesStall(es, reqs[1..], reached[1..], fh, Advance(es, reqs[0], reached[0], fh, p), k);
    }
  }

  lemma NothingAfterLast(es: seq<DirEntry>, size: nat)
    requires Numbered(es)
    ensures PageOf(es, NextOffset(es), size) == []
  {
  }

  lemma PositionAtEnd(es: seq<DirEntry>, reqs: seq<Request>, reached: seq<bool>, fh: nat)
    requires |reached| == |reqs| && PagesHoldAll(reqs, fh, es) && Calls(reqs, reached, fh) >= |es|
    ensures es[..Position(es, reqs, reached, fh, 0)] == es
  {
    LargePagesAdvance(es, reqs, reached, fh, 0);
  }

  /** From the first entry, amid any other requests: large pages deliver the whole snapshot within
      `|entries|` answered calls, and the call after that is answered with an empty page. */
  lemma WholeSnapshot(fs: Fs, reqs: seq<Request>, reached: seq<bool>, fh: nat)
    requires |reached| == |reqs|
    requires fh in fs.handles && Numbered(fs.handles[fh]) && AllEncodable(fs.handles[fh])
    requires PagedRun(fs, reqs, reached, fh, []) && PagesHoldAll(reqs, fh, fs.handles[fh])
    requires Calls(reqs, reached, fh) >= |fs.handles[fh]|
    ensures GotOverRun(fs, reqs, reached, fh, []) == fs.handles[fh]
    ensures forall size: nat :: PageOf(fs.handles[fh], NextOffset(fs.handles[fh]), size) == []
  {
    var es := fs.handles[fh];
    assert es[..0] == [];
    PagingDelivers(fs, reqs, reached, fh, 0);
    PositionAtEnd(es, reqs, reached, fh);
    forall size: nat ensures PageOf(es, NextOffset(es), size) == [] {
      NothingAfterLast(es, size);
    }
  }

  /** The listing has "." under the directory's own number, ".." under its parent's, the root's own for
      the root, and every child once, without a type; nothing else. */
  ghost predicate Lists(es: seq<DirEntry>, ino: Ino, parent: Option<Ino>, children: map<Name, Ino>) {
    && |es| == |children| + 2
    && es[0].name == DOT && es[0].ino == ino && es[0].typ == Some(Directory)
    && es[1].name == DOT_DOT && es[1].typ == Some(Directory)
    && (parent.Some? ==> es[1].ino == parent.value) && (parent.None? ==> es[1].ino == ino)
    && (forall k :: 2 <= k < |es| ==>
          es[k].name in children && es[k].ino == children[es[k].name] && es[k].typ == None)
    && (forall n :: n in children ==> exists k :: 2 <= k < |es| && es[k].name == n)
    && (forall j, k :: 2 <= j < k < |es| ==> es[j].name != es[k].name)
  }

  lemma SnapshotLists(ino: Ino, parent: Option<Ino>, children: map<Name, Ino>, order: seq<Name>)
    requires Enumerates(order, children.Keys)
    ensures Lists(Snapshot(ino, parent, children, order), ino, parent, children)
  {
    var es := Snapshot(ino, parent, children, order);
    EnumerationLength(order, children.Keys);
    forall n | n in children ensures exists k :: 2 <= k < |es| && es[k].name == n {
      var j :| 0 <= j < |order| && order[j] == n;
      assert es[j + 2].name == n;
    }
    forall k | 2 <= k < |es|
      ensures es[k].name in children && es[k].ino == children[es[k].name] && es[k].typ == None
    {
      assert es[k].name == order[k - 2] && order[k - 2] in order;
    }
  }

  /** Open a directory, then page through it amid any other requests: with pages that hold the
      largest record, after as many answered page requests as there are entries the kernel has exactly the
      listing of the directory at the moment of opening. */
  lemma OpenedDirectoryIsDelivered(fs: Fs, ino: Ino, fh: nat, order: seq<Name>, reqs: seq<Request>, reached: seq<bool>)
    requires |reached| == |reqs|
    requires Admissible(fs, Opendir(ino, fh, order)) && DoOpendir(fs, ino, fh, order).1.Opened?
    requires var fs' := DoOpendir(fs, ino, fh, order).0;
             && AllEncodable(fs'.handles[fh]) && PagesHoldAll(reqs, fh, fs'.handles[fh])
             && PagedRun(fs', reqs, reached, fh, []) && Calls(reqs, reached, fh) >= |Children(fs, ino)| + 2
    ensures var fs' := DoOpendir(fs, ino, fh, order).0;
            Lists(GotOverRun(fs', reqs, reached, fh, []), fs.inodes[ino].ino, fs.inodes[ino].kind.parent,
                  Children(fs, ino))
  {
    var fs' := DoOpendir(fs, ino, fh, order).0;
    SnapshotLists(fs.inodes[ino].ino, fs.inodes[ino].kind.parent, Children(fs, ino), order);
    WholeSnapshot(fs', reqs, reached, fh);
  }

  lemma {:induction false} EnumerationLength(order: seq<Name>, names: set<Name>)
    requires Enumerates(order, names)
    ensures |order| == |names|
  {
    if order == [] {
      assert names == {};
    } else {
      var rest := order[1..];
      assert forall n :: n in rest <==> n in names - {order[0]} by {
        forall n ensures n in rest <==> n in names - {order[0]} {
          if n in names - {order[0]} {
            assert n in order;
          }
          if n in rest {
            var k :| 0 <= k < |rest| && rest[k] == n;
            assert order[k + 1] == n && order[0] != order[k + 1];
          }
        }
      }
      EnumerationLength(rest, names - {order[0]});
    }
  }
}
