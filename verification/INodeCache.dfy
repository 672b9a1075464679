/** The inode tables of the two pass-through file systems: a live table and a reverse index that
    `forget` never cleans. `K` is what identifies a source file: its path, or its inode and device. */
module INodeCache {
  import opened Prelude
  import opened Forgets
  import opened Ledger

  const ROOT: Ino := 1
  const ROOT_COUNT: nat := 0x7FFF_FFFF_FFFF_FFFF

  datatype INode<K> = INode(ino: Ino, key: K, refcount: nat)

  datatype Table<K> = Table(inodes: map<Ino, INode<K>>, index: map<K, Ino>, nextIno: nat)

  /** Which of the two file systems: they convert the attributes before, or after, counting. */
  datatype Flavour = PathThrough | Passthrough

  /** `found`: the source file exists; `attrOk`: its attributes convert; `delivery`: what becomes of
      the reply. These are the answers of the surrounding system. Only the descriptor-based file
      system has `Link`; its mknod, mkdir and symlink end in the same lookup and reply. */
  datatype Request<K> =
    | Lookup(parent: Ino, key: K, found: bool, attrOk: bool, delivery: Delivery)
    | Link(ino: Ino, newparent: Ino, linked: bool, attrOk: bool, delivery: Delivery)
    | ForgetAll(forgets: seq<Forget>)

  /** What the kernel gets; `NoReply` also when the session dropped a reply. */
  datatype Reply = Entry(ino: Ino) | Fail(errno: Errno) | NoReply | Panic

  /** The outcome of replying with an entry. */
  function Replied(ino: Ino, delivery: Delivery): Reply {
    match delivery
    case Arrived => Entry(ino)
    case Dropped => NoReply
    case Refused => Fail(IO)
  }

  function Empty<K>(): Table<K> {
    Table(map[], map[], 1)
  }

  /** `VacantEntry::insert`. */
  function Insert<K>(t: Table<K>, key: K, refcount: nat): Table<K> {
    Table(t.inodes[t.nextIno := INode(t.nextIno, key, refcount)], t.index[key := t.nextIno], t.nextIno + 1)
  }

  function Init<K>(root: K): Table<K> {
    Insert(Empty(), root, ROOT_COUNT)
  }

  /** `get_by_path_mut` and `get_src`: through the index, then through the live table. */
  function Get<K>(t: Table<K>, key: K): Option<Ino> {
    if key in t.index && t.index[key] in t.inodes then Some(t.index[key]) else None
  }

  /** What a scan over the live table finds under a key. */
  function Live<K>(t: Table<K>, key: K): set<Ino> {
    set i | i in t.inodes && t.inodes[i].key == key
  }

  /** The lookup count of a live inode goes up by one. */
  function Counted<K>(t: Table<K>, i: Ino): Table<K>
    requires i in t.inodes
  {
    t.(inodes := t.inodes[i := t.inodes[i].(refcount := t.inodes[i].refcount + 1)])
  }

  /** The inode the lookup answers with, and the table that counts it. */
  function Resolve<K>(t: Table<K>, key: K): (Table<K>, Ino) {
    match Get(t, key)
    case Some(i) => (Counted(t, i), t.inodes[i].ino)
    case None => (Insert(t, key, 1), t.nextIno)
  }

  /** The lookup is counted before the reply is written. */
  function DoLookup<K>(flavour: Flavour, t: Table<K>, parent: Ino, key: K, found: bool, attrOk: bool,
                       delivery: Delivery)
    : (Table<K>, Reply)
  {
    if parent !in t.inodes then (t, Fail(NOENT))
    else if !found then (t, Fail(IO))
    else if flavour.PathThrough? && !attrOk then (t, Panic)
    else
      var (t', i) := Resolve(t, key);
      if attrOk then (t', Replied(i, delivery)) else (t', Fail(INVAL))
  }

  /** The link is counted after the reply was written, or taken to be. */
  function DoLink<K>(flavour: Flavour, t: Table<K>, ino: Ino, newparent: Ino, linked: bool, attrOk: bool,
                     delivery: Delivery)
    : (Table<K>, Reply)
  {
    if flavour.PathThrough? then (t, Fail(NOSYS))
    else if ino !in t.inodes || newparent !in t.inodes then (t, Fail(NOENT))
    else if !linked then (t, Fail(IO))
    else if !attrOk then (t, Fail(INVAL))
    else (if delivery.Refused? then t else Counted(t, ino), Replied(t.inodes[ino].ino, delivery))
  }

  function ForgetOne<K>(inodes: map<Ino, INode<K>>, f: Forget): map<Ino, INode<K>> {
    if f.ino !in inodes then inodes
    else
      var left := SaturatingSub(inodes[f.ino].refcount, f.nlookup);
      if left == 0 then inodes - {f.ino} else inodes[f.ino := inodes[f.ino].(refcount := left)]
  }

  function ForgetMany<K>(inodes: map<Ino, INode<K>>, forgets: seq<Forget>): map<Ino, INode<K>> {
    if forgets == [] then inodes else ForgetMany(ForgetOne(inodes, forgets[0]), forgets[1..])
  }

  function Step<K>(flavour: Flavour, t: Table<K>, req: Request<K>): (Table<K>, Reply) {
    match req
    case Lookup(parent, key, found, attrOk, delivery) => DoLookup(flavour, t, parent, key, found, attrOk, delivery)
    case Link(ino, newparent, linked, attrOk, delivery) =>
      DoLink(flavour, t, ino, newparent, linked, attrOk, delivery)
    case ForgetAll(forgets) =>
      (t.(inodes := ForgetMany(t.inodes, Addressed(forgets))), if AllAddressed(forgets) then NoReply else Panic)
  }

  function Exec<K>(flavour: Flavour, root: K, reqs: seq<Request<K>>): Table<K> {
    if reqs == [] then Init(root)
    else Step(flavour, Exec(flavour, root, reqs[..|reqs| - 1]), reqs[|reqs| - 1]).0
  }

  function LastReply<K(==)>(flavour: Flavour, root: K, reqs: seq<Request<K>>): Reply
    requires reqs != []
  {
    Step(flavour, Exec(flavour, root, reqs[..|reqs| - 1]), reqs[|reqs| - 1]).1
  }

  // The index against the live table.

  /** Every live inode stands in the index under its own key, and an index entry that leads to a
      live inode leads to the right one. Other index entries are stale and point below `nextIno`. */
  ghost predicate Consistent<K(!new)>(t: Table<K>) {
    && (forall i :: i in t.inodes ==>
          && 1 <= i < t.nextIno && t.inodes[i].ino == i
          && t.inodes[i].key in t.index && t.index[t.inodes[i].key] == i)
    && (forall k :: k in t.index ==> 1 <= t.index[k] < t.nextIno)
    && (forall k :: k in t.index && t.index[k] in t.inodes ==> t.inodes[t.index[k]].key == k)
    && 1 <= t.nextIno
  }

  /** The index lookup is the linear scan: at most one live inode has a key, and the index finds it
      exactly when there is one. */
  lemma IndexIsScan<K(!new)>(t: Table<K>, key: K)
    requires Consistent(t)
    ensures Live(t, key) == match Get(t, key) case Some(i) => {i} case None => {}
  {
  }

  /** The batch in closed form: inode by inode, `Settle` with nothing pinned. */
  lemma {:induction false} ForgetManyIsSettle<K>(inodes: map<Ino, INode<K>>, forgets: seq<Forget>, i: Ino)
    ensures i in ForgetMany(inodes, forgets) <==>
            i in inodes && Settle(inodes[i].refcount, false, forgets, i).Some?
    ensures i in ForgetMany(inodes, forgets) ==>
            ForgetMany(inodes, forgets)[i]
            == inodes[i].(refcount := Settle(inodes[i].refcount, false, forgets, i).value)
  {
    if forgets != [] {
      ForgetManyIsSettle(ForgetOne(inodes, forgets[0]), forgets[1..], i);
      if i in inodes {
        SettleUnfold(inodes[i].refcount, false, forgets, i);
      }
    }
  }

  lemma ForgetKeepsConsistent<K(!new)>(t: Table<K>, forgets: seq<Forget>)
    requires Consistent(t)
    ensures Consistent(t.(inodes := ForgetMany(t.inodes, forgets)))
  {
    var after := ForgetMany(t.inodes, forgets);
    forall i | i in after ensures i in t.inodes && after[i].ino == t.inodes[i].ino && after[i].key == t.inodes[i].key {
      ForgetManyIsSettle(t.inodes, forgets, i);
    }
  }

  lemma CountingKeepsConsistent<K(!new)>(t: Table<K>, i: Ino)
    requires Consistent(t) && i in t.inodes
    ensures Consistent(Counted(t, i))
  {
  }

  lemma InsertingKeepsConsistent<K(!new)>(t: Table<K>, key: K, refcount: nat)
    requires Consistent(t) && Get(t, key).None?
    ensures Consistent(Insert(t, key, refcount))
  {
  }

  lemma StepKeepsConsistent<K(!new)>(flavour: Flavour, t: Table<K>, req: Request<K>)
    requires Consistent(t)
    ensures Consistent(Step(flavour, t, req).0)
    ensures Step(flavour, t, req).0.nextIno >= t.nextIno
  {
    match req {
      case ForgetAll(forgets) => ForgetKeepsConsistent(t, Addressed(forgets));
      case Link(ino, _, _, _, _) =>
        if ino in t.inodes {
          CountingKeepsConsistent(t, ino);
        }
      case Lookup(_, key, _, _, _) =>
        match Get(t, key) {
          case Some(i) => CountingKeepsConsistent(t, i);
          case None => InsertingKeepsConsistent(t, key, 1);
        }
    }
  }

  lemma {:induction false} ReachableConsistent<K(!new)>(flavour: Flavour, root: K, reqs: seq<Request<K>>)
    ensures Consistent(Exec(flavour, root, reqs))
  {
    if reqs != [] {
      var before := reqs[..|reqs| - 1];
      ReachableConsistent(flavour, root, before);
      StepKeepsConsistent(flavour, Exec(flavour, root, before), reqs[|reqs| - 1]);
    }
  }

  /** The reference implementation: the same lookup with a scan over the live inodes instead of the
      index, allocating when the scan finds nothing. */
  ghost function ScanResolve<K>(t: Table<K>, key: K): (Table<K>, Ino) {
    if i :| i in Live(t, key) then (Counted(t, i), i)
    else (Insert(t, key, 1), t.nextIno)
  }

  /** In every reachable state the index answers as the scan does, so a stale index entry never
      yields a wrong inode and never hides a live one. */
  lemma IndexRefinesScan<K(!new)>(flavour: Flavour, root: K, reqs: seq<Request<K>>, key: K)
    ensures var t := Exec(flavour, root, reqs);
            Resolve(t, key) == ScanResolve(t, key) && |Live(t, key)| <= 1
  {
    var t := Exec(flavour, root, reqs);
    ReachableConsistent(flavour, root, reqs);
    IndexIsScan(t, key);
    if Get(t, key).Some? {
      assert Live(t, key) == {Get(t, key).value};
    }
  }

  /** The answer to a lookup is live under the key that was asked for, and asking again while it is
      live gives the same number. */
  lemma LookupsAgree<K(!new)>(flavour: Flavour, t: Table<K>, parent: Ino, key: K)
    requires Consistent(t) && DoLookup(flavour, t, parent, key, true, true, Arrived).1.Entry?
    ensures var (t', r) := DoLookup(flavour, t, parent, key, true, true, Arrived);
            && r.ino in t'.inodes && t'.inodes[r.ino].key == key
            && Get(t', key) == Some(r.ino)
            && (Live(t, key) == {} ==> r.ino == t.nextIno)
  {
    IndexIsScan(t, key);
  }

  /** Every request is answered by what a scan over the live inodes finds, errors and lost replies
      included; the allocator moves exactly when a lookup finds nothing live. */
  lemma OutcomesByScan<K(!new)>(flavour: Flavour, t: Table<K>, req: Request<K>)
    requires Consistent(t)
    ensures var (t', r) := Step(flavour, t, req);
            match req
            case Lookup(parent, key, found, attrOk, delivery) =>
              var counts := parent in t.inodes && found && (flavour.Passthrough? || attrOk);
              && (parent !in t.inodes ==> r == Fail(NOENT))
              && (parent in t.inodes && !found ==> r == Fail(IO))
              && (parent in t.inodes && found && !attrOk ==> r == if flavour.PathThrough? then Panic else Fail(INVAL))
              && (parent in t.inodes && found && attrOk ==>
                    && (delivery.Arrived? ==>
                          r.Entry? && if Live(t, key) == {} then r.ino == t.nextIno else Live(t, key) == {r.ino})
                    && (delivery.Dropped? ==> r == NoReply)
                    && (delivery.Refused? ==> r == Fail(IO)))
              && t'.nextIno == t.nextIno + (if counts && Live(t, key) == {} then 1 else 0)
            case Link(ino, newparent, linked, attrOk, delivery) =>
              && (flavour.PathThrough? ==> r == Fail(NOSYS))
              && (flavour.Passthrough? ==>
                    if ino !in t.inodes || newparent !in t.inodes then r == Fail(NOENT)
                    else if !linked then r == Fail(IO)
                    else if !attrOk then r == Fail(INVAL)
                    else
                      && (delivery.Arrived? ==> r == Entry(ino)) && (delivery.Dropped? ==> r == NoReply)
                      && (delivery.Refused? ==> r == Fail(IO)))
              && t'.nextIno == t.nextIno
            case ForgetAll(forgets) =>
              && r == (if AllAddressed(forgets) then NoReply else Panic)
              && t'.nextIno == t.nextIno && t'.index == t.index
  {
    if req.Lookup? {
      IndexIsScan(t, req.key);
    }
  }

  /** In the path file system, where the key of a child is its parent's path and one more name, two
      different (parent, name) pairs are never answered with the same inode. */
  lemma DistinctNamesDistinctInodes<N(!new)>(t: Table<seq<N>>, p: Ino, n: N, q: Ino, m: N)
    requires Consistent(t) && p in t.inodes && q in t.inodes && (p, n) != (q, m)
    ensures var (t', i) := Resolve(t, t.inodes[p].key + [n]);
            Resolve(t', t.inodes[q].key + [m]).1 != i
  {
    var a, b := t.inodes[p].key + [n], t.inodes[q].key + [m];
    var (t', i) := Resolve(t, a);
    assert a != b by {
      assert a[..|a| - 1] == t.inodes[p].key && b[..|b| - 1] == t.inodes[q].key;
      assert a[|a| - 1] == n && b[|b| - 1] == m;
    }
    StepKeepsConsistent(PathThrough, t, Lookup(p, a, true, true, Arrived));
    IndexIsScan(t', b);
  }

  /** A number that was forgotten never comes back, for any source file. */
  lemma {:induction false} NumbersNeverReused<K(!new)>(flavour: Flavour, root: K, reqs: seq<Request<K>>, n: nat, i: Ino)
    requires n <= |reqs|
    requires i < Exec(flavour, root, reqs[..n]).nextIno && i !in Exec(flavour, root, reqs[..n]).inodes
    ensures i !in Exec(flavour, root, reqs).inodes && i < Exec(flavour, root, reqs).nextIno
  {
    if n == |reqs| {
      assert reqs[..n] == reqs;
    } else {
      var before, req := reqs[..|reqs| - 1], reqs[|reqs| - 1];
      assert before[..n] == reqs[..n];
      NumbersNeverReused(flavour, root, before, n, i);
      ReachableConsistent(flavour, root, before);
      DeadStaysDead(flavour, Exec(flavour, root, before), req, i);
    }
  }

  lemma DeadStaysDead<K(!new)>(flavour: Flavour, t: Table<K>, req: Request<K>, i: Ino)
    requires Consistent(t) && i < t.nextIno && i !in t.inodes
    ensures i !in Step(flavour, t, req).0.inodes && i < Step(flavour, t, req).0.nextIno
  {
    if req.ForgetAll? {
      ForgetManyIsSettle(t.inodes, Addressed(req.forgets), i);
    }
  }

  /** The source file behind a number never changes. */
  lemma {:induction false} NumbersKeepKeys<K(!new)>(flavour: Flavour, root: K, reqs: seq<Request<K>>, n: nat, i: Ino)
    requires n <= |reqs|
    requires i in Exec(flavour, root, reqs[..n]).inodes && i in Exec(flavour, root, reqs).inodes
    ensures Exec(flavour, root, reqs[..n]).inodes[i].key == Exec(flavour, root, reqs).inodes[i].key
  {
    if n == |reqs| {
      assert reqs[..n] == reqs;
    } else {
      var before, req := reqs[..|reqs| - 1], reqs[|reqs| - 1];
      assert before[..n] == reqs[..n];
      ReachableConsistent(flavour, root, before[..n]);
      ReachableConsistent(flavour, root, before);
      if i !in Exec(flavour, root, before).inodes {
        NumbersGrow(flavour, root, before, n);
        DeadStaysDead(flavour, Exec(flavour, root, before), req, i);
        assert false;
      }
      NumbersKeepKeys(flavour, root, before, n, i);
      KeyKept(flavour, Exec(flavour, root, before), req, i);
    }
  }

  lemma {:induction false} NumbersGrow<K(!new)>(flavour: Flavour, root: K, reqs: seq<Request<K>>, n: nat)
    requires n <= |reqs|
    ensures Exec(flavour, root, reqs[..n]).nextIno <= Exec(flavour, root, reqs).nextIno
  {
    if n == |reqs| {
      assert reqs[..n] == reqs;
    } else {
      var before := reqs[..|reqs| - 1];
      assert before[..n] == reqs[..n];
      NumbersGrow(flavour, root, before, n);
      ReachableConsistent(flavour, root, before);
      StepKeepsConsistent(flavour, Exec(flavour, root, before), reqs[|reqs| - 1]);
    }
  }

  lemma KeyKept<K(!new)>(flavour: Flavour, t: Table<K>, req: Request<K>, i: Ino)
    requires Consistent(t) && i in t.inodes && i in Step(flavour, t, req).0.inodes
    ensures Step(flavour, t, req).0.inodes[i].key == t.inodes[i].key
  {
    if req.ForgetAll? {
      ForgetManyIsSettle(t.inodes, Addressed(req.forgets), i);
    }
  }

  /** The entry that request `k` of a run was answered with, if it was a lookup so answered. */
  ghost predicate Answered<K(!new)>(flavour: Flavour, root: K, reqs: seq<Request<K>>, k: nat, i: Ino) {
    k < |reqs| && reqs[k].Lookup? && Step(flavour, Exec(flavour, root, reqs[..k]), reqs[k]).1 == Entry(i)
  }

  lemma AnswerIsLive<K(!new)>(flavour: Flavour, root: K, reqs: seq<Request<K>>, k: nat, i: Ino)
    requires Answered(flavour, root, reqs, k, i)
    ensures var t := Exec(flavour, root, reqs[..k + 1]);
            i in t.inodes && t.inodes[i].key == reqs[k].key
  {
    var upTo := reqs[..k + 1];
    assert upTo[..|upTo| - 1] == reqs[..k] && upTo[|upTo| - 1] == reqs[k];
    ReachableConsistent(flavour, root, reqs[..k]);
    IndexIsScan(Exec(flavour, root, reqs[..k]), reqs[k].key);
  }

  /** Over a whole run, forgets and all: two lookups answered with the same number asked for the same
      source file. */
  lemma OneNumberOneKey<K(!new)>(flavour: Flavour, root: K, reqs: seq<Request<K>>, j: nat, k: nat, i: Ino)
    requires j <= k && Answered(flavour, root, reqs, j, i) && Answered(flavour, root, reqs, k, i)
    ensures reqs[j].key == reqs[k].key
  {
    AnswerIsLive(flavour, root, reqs, j, i);
    AnswerIsLive(flavour, root, reqs, k, i);
    assert reqs[..k + 1][..j + 1] == reqs[..j + 1];
    NumbersKeepKeys(flavour, root, reqs[..k + 1], j + 1, i);
  }

  // The ledger.

  function Sent(r: Reply, i: Ino): nat {
    if r.Entry? && r.ino == i then 1 else 0
  }

  function Returned<K>(req: Request<K>, i: Ino): nat {
    if req.ForgetAll? then Total(req.forgets, i) else 0
  }

  /** The request adds a reference to `i`: a lookup that finds its file (and, by path, its
      attributes), or a link whose reply was written or taken to be. */
  predicate Counts<K(==)>(flavour: Flavour, t: Table<K>, req: Request<K>, i: Ino) {
    match req
    case Lookup(parent, key, found, attrOk, _) =>
      parent in t.inodes && found && (flavour.Passthrough? || attrOk) && Resolve(t, key).1 == i
    case Link(ino, newparent, linked, attrOk, delivery) =>
      && flavour.Passthrough? && ino in t.inodes && newparent in t.inodes && linked && attrOk
      && !delivery.Refused? && t.inodes[ino].ino == i
    case ForgetAll(_) => false
  }

  function Transferred<K(==)>(flavour: Flavour, t: Table<K>, req: Request<K>, i: Ino): Transfer {
    Transfer(if Counts(flavour, t, req, i) then 1 else 0, Sent(Step(flavour, t, req).1, i), Returned(req, i))
  }

  function Transfers<K(==)>(flavour: Flavour, root: K, reqs: seq<Request<K>>, i: Ino): (ts: seq<Transfer>)
    ensures |ts| == |reqs|
  {
    if reqs == [] then []
    else
      var n := |reqs| - 1;
      Transfers(flavour, root, reqs[..n], i) + [Transferred(flavour, Exec(flavour, root, reqs[..n]), reqs[n], i)]
  }

  /** The request counts a reference to `i` that the kernel does not learn of: a lookup whose
      attributes do not convert or whose reply is not delivered, or a link whose reply is dropped. */
  predicate Leaks<K(==)>(flavour: Flavour, t: Table<K>, req: Request<K>, i: Ino) {
    && Counts(flavour, t, req, i)
    && (if req.Lookup? then !req.attrOk || !req.delivery.Arrived? else req.Link? && req.delivery.Dropped?)
  }

  lemma LeaksIff<K(!new)>(flavour: Flavour, t: Table<K>, req: Request<K>, i: Ino)
    requires Consistent(t)
    ensures var x := Transferred(flavour, t, req, i);
            x.reached <= x.counted && (x.reached < x.counted <==> Leaks(flavour, t, req, i))
  {
    if req.Lookup? {
      IndexIsScan(t, req.key);
    }
  }

  /** No request of the run leaks a reference to `i`. */
  predicate NeverLeaks<K(==)>(flavour: Flavour, root: K, reqs: seq<Request<K>>, i: Ino) {
    reqs == []
    || (var n := |reqs| - 1;
        && NeverLeaks(flavour, root, reqs[..n], i)
        && !Leaks(flavour, Exec(flavour, root, reqs[..n]), reqs[n], i))
  }

  lemma {:induction false} NeverLeaksIsNothingLost<K(!new)>(flavour: Flavour, root: K, reqs: seq<Request<K>>, i: Ino)
    ensures var ts := Transfers(flavour, root, reqs, i);
            Plausible(ts) && (NothingLost(ts) <==> NeverLeaks(flavour, root, reqs, i))
  {
    if reqs != [] {
      var n := |reqs| - 1;
      var t := Exec(flavour, root, reqs[..n]);
      NeverLeaksIsNothingLost(flavour, root, reqs[..n], i);
      ReachableConsistent(flavour, root, reqs[..n]);
      LeaksIff(flavour, t, reqs[n], i);
      LastTransfer(Transfers(flavour, root, reqs[..n], i), Transferred(flavour, t, reqs[n], i));
    }
  }

  /** The kernel names no node 0 in a batch, and gives back no more of `i` and of the root than it
      holds. */
  ghost predicate FairRun<K>(flavour: Flavour, root: K, reqs: seq<Request<K>>, i: Ino) {
    && (forall k :: 0 <= k < |reqs| && reqs[k].ForgetAll? ==> AllAddressed(reqs[k].forgets))
    && Disciplined(Transfers(flavour, root, reqs, i))
    && Disciplined(Transfers(flavour, root, reqs, ROOT))
  }

  function Count<K>(t: Table<K>, i: Ino): int {
    if i in t.inodes then t.inodes[i].refcount - (if i == ROOT then ROOT_COUNT else 0) else 0
  }

  lemma CountOfForget<K(!new)>(t: Table<K>, forgets: seq<Forget>, i: Ino)
    requires Consistent(t) && Total(forgets, i) <= Count(t, i)
    ensures Count(t.(inodes := ForgetMany(t.inodes, forgets)), i) == Count(t, i) - Total(forgets, i)
  {
    ForgetManyIsSettle(t.inodes, forgets, i);
    if i in t.inodes && !Mentions(forgets, i) {
      TotalOfUnmentioned(forgets, i);
    }
  }

  lemma CountOfStep<K(!new)>(flavour: Flavour, t: Table<K>, req: Request<K>, i: Ino)
    requires Consistent(t) && t.nextIno > ROOT
    requires Returned(req, i) <= Count(t, i) && (req.ForgetAll? ==> AllAddressed(req.forgets))
    requires i == ROOT ==> i in t.inodes
    ensures var x := Transferred(flavour, t, req, i);
            Count(Step(flavour, t, req).0, i) == Count(t, i) + x.counted - x.returned
  {
    if req.ForgetAll? {
      CountOfForget(t, req.forgets, i);
    }
  }

  lemma FairFront<K(!new)>(flavour: Flavour, root: K, reqs: seq<Request<K>>, i: Ino)
    requires reqs != [] && FairRun(flavour, root, reqs, i)
    ensures var n := |reqs| - 1;
            && FairRun(flavour, root, reqs[..n], i)
            && Returned(reqs[n], i) <= Max(0, Held(Transfers(flavour, root, reqs[..n], i)))
            && Returned(reqs[n], ROOT) <= Max(0, Held(Transfers(flavour, root, reqs[..n], ROOT)))
            && (reqs[n].ForgetAll? ==> AllAddressed(reqs[n].forgets))
  {
    var n := |reqs| - 1;
    var t := Exec(flavour, root, reqs[..n]);
    LastTransfer(Transfers(flavour, root, reqs[..n], i), Transferred(flavour, t, reqs[n], i));
    LastTransfer(Transfers(flavour, root, reqs[..n], ROOT), Transferred(flavour, t, reqs[n], ROOT));
  }

  lemma AccountBounds<K(!new)>(flavour: Flavour, root: K, reqs: seq<Request<K>>, i: Ino)
    requires Disciplined(Transfers(flavour, root, reqs, i))
    ensures Held(Transfers(flavour, root, reqs, i)) >= 0 && Lost(Transfers(flavour, root, reqs, i)) >= 0
  {
    HeldIsNotNegative(Transfers(flavour, root, reqs, i));
    NeverLeaksIsNothingLost(flavour, root, reqs, i);
    LostIff(Transfers(flavour, root, reqs, i));
  }

  lemma AccountStep<K(!new)>(flavour: Flavour, t: Table<K>, req: Request<K>, i: Ino, before: seq<Transfer>)
    requires Consistent(t) && t.nextIno > ROOT && (i == ROOT ==> i in t.inodes)
    requires Count(t, i) == Held(before) + Lost(before) && Held(before) >= 0 && Lost(before) >= 0
    requires Returned(req, i) <= Max(0, Held(before)) && (req.ForgetAll? ==> AllAddressed(req.forgets))
    ensures var ts := before + [Transferred(flavour, t, req, i)];
            Count(Step(flavour, t, req).0, i) == Held(ts) + Lost(ts)
  {
    LastTransfer(before, Transferred(flavour, t, req, i));
    CountOfStep(flavour, t, req, i);
  }

  /** With a disciplined kernel an inode's lookup count is what the kernel holds plus what leaked, and
      the root and any inode the kernel holds stay. */
  lemma {:induction false} CountIsHeldAndLost<K(!new)>(flavour: Flavour, root: K, reqs: seq<Request<K>>, i: Ino)
    requires FairRun(flavour, root, reqs, i)
    ensures var ts := Transfers(flavour, root, reqs, i);
            && Count(Exec(flavour, root, reqs), i) == Held(ts) + Lost(ts)
            && Held(ts) >= 0 && Lost(ts) >= 0
            && (Held(ts) > 0 ==> i in Exec(flavour, root, reqs).inodes)
    ensures ROOT in Exec(flavour, root, reqs).inodes
    decreases reqs, i != ROOT
  {
    AccountBounds(flavour, root, reqs, i);
    if reqs != [] {
      var n := |reqs| - 1;
      var t := Exec(flavour, root, reqs[..n]);
      FairFront(flavour, root, reqs, i);
      CountIsHeldAndLost(flavour, root, reqs[..n], i);
      CountIsHeldAndLost(flavour, root, reqs[..n], ROOT);
      ReachableConsistent(flavour, root, reqs[..n]);
      AccountStep(flavour, t, reqs[n], i, Transfers(flavour, root, reqs[..n], i));
      RootStays(flavour, t, reqs[n]);
    }
  }

  /** The count is exactly the kernel's balance if and only if no request leaked the inode. */
  lemma CountIsBalanceIff<K(!new)>(flavour: Flavour, root: K, reqs: seq<Request<K>>, i: Ino)
    requires FairRun(flavour, root, reqs, i)
    ensures Count(Exec(flavour, root, reqs), i) == Held(Transfers(flavour, root, reqs, i))
            <==> NeverLeaks(flavour, root, reqs, i)
  {
    CountIsHeldAndLost(flavour, root, reqs, i);
    NeverLeaksIsNothingLost(flavour, root, reqs, i);
    LostIff(Transfers(flavour, root, reqs, i));
  }

  lemma RootStays<K(!new)>(flavour: Flavour, t: Table<K>, req: Request<K>)
    requires Consistent(t) && ROOT in t.inodes && Count(t, ROOT) >= 0
    requires Returned(req, ROOT) <= Count(t, ROOT) && (req.ForgetAll? ==> AllAddressed(req.forgets))
    ensures ROOT in Step(flavour, t, req).0.inodes
  {
    if req.ForgetAll? {
      ForgetManyIsSettle(t.inodes, req.forgets, ROOT);
    }
  }

  lemma FirstLookup<K(!new)>(flavour: Flavour, root: K, req: Request<K>)
    requires req.Lookup? && req.parent == ROOT && req.key != root && req.found
    requires (flavour.Passthrough? || req.attrOk) && !(req.attrOk && req.delivery.Arrived?)
    ensures Transferred(flavour, Init(root), req, 2) == Transfer(1, 0, 0)
    ensures Transferred(flavour, Init(root), req, ROOT) == Transfer(0, 0, 0)
    ensures Count(Step(flavour, Init(root), req).0, 2) == 1
  {
    assert Init(root).nextIno == 2 && Resolve(Init(root), req.key).1 == 2;
  }

  lemma OneLookup<K(!new)>(flavour: Flavour, root: K, req: Request<K>)
    requires req.Lookup? && req.parent == ROOT && req.key != root && req.found
    requires (flavour.Passthrough? || req.attrOk) && !(req.attrOk && req.delivery.Arrived?)
    ensures FairRun(flavour, root, [req], 2)
    ensures Held(Transfers(flavour, root, [req], 2)) == 0 && Count(Exec(flavour, root, [req]), 2) == 1
  {
    assert [req][..0] == [];
    assert Transfers(flavour, root, [], 2) == [] && Transfers(flavour, root, [], ROOT) == [];
    FirstLookup(flavour, root, req);
    LastTransfer([], Transfer(1, 0, 0));
    LastTransfer([], Transfer(0, 0, 0));
  }

  /** Both file systems leak: each on a first lookup whose reply is dropped, and the descriptor-based
      one also when the attributes do not convert. The kernel is told nothing, the table counts 1. */
  lemma LeakedLookups<K(!new)>(root: K, key: K)
    requires key != root
    ensures var reqs := [Lookup(ROOT, key, true, true, Dropped)];
            && FairRun(PathThrough, root, reqs, 2)
            && Held(Transfers(PathThrough, root, reqs, 2)) == 0 && Count(Exec(PathThrough, root, reqs), 2) == 1
    ensures var reqs := [Lookup(ROOT, key, true, false, Arrived)];
            && FairRun(Passthrough, root, reqs, 2)
            && Held(Transfers(Passthrough, root, reqs, 2)) == 0 && Count(Exec(Passthrough, root, reqs), 2) == 1
  {
    OneLookup(PathThrough, root, Lookup(ROOT, key, true, true, Dropped));
    OneLookup(Passthrough, root, Lookup(ROOT, key, true, false, Arrived));
  }

  /** A path-based file system whose replies all arrive keeps exactly the kernel's balance. */
  lemma {:induction false} DeliveredNeverLeaks<K(!new)>(root: K, reqs: seq<Request<K>>, i: Ino)
    requires forall k :: 0 <= k < |reqs| && reqs[k].Lookup? ==> reqs[k].delivery.Arrived?
    ensures NeverLeaks(PathThrough, root, reqs, i)
    ensures FairRun(PathThrough, root, reqs, i) ==>
              Count(Exec(PathThrough, root, reqs), i) == Held(Transfers(PathThrough, root, reqs, i))
  {
    if reqs != [] {
      DeliveredNeverLeaks(root, reqs[..|reqs| - 1], i);
    }
    if FairRun(PathThrough, root, reqs, i) {
      CountIsBalanceIff(PathThrough, root, reqs, i);
    }
  }

  lemma ForgetsAgree<K>(inodes: map<Ino, INode<K>>, a: seq<Forget>, b: seq<Forget>)
    requires forall i :: i in inodes ==>
               Settle(inodes[i].refcount, false, a, i) == Settle(inodes[i].refcount, false, b, i)
    ensures ForgetMany(inodes, a) == ForgetMany(inodes, b)
  {
    forall i: Ino
      ensures i in ForgetMany(inodes, a) <==> i in ForgetMany(inodes, b)
      ensures i in ForgetMany(inodes, a) ==> ForgetMany(inodes, a)[i] == ForgetMany(inodes, b)[i]
    {
      ForgetManyIsSettle(inodes, a, i);
      ForgetManyIsSettle(inodes, b, i);
    }
  }

  /** A batch has the same effect in any order, and the same as one summed forget per inode. */
  lemma BatchOrderIrrelevant<K>(inodes: map<Ino, INode<K>>, a: seq<Forget>, b: seq<Forget>)
    requires multiset(a) == multiset(b)
    ensures ForgetMany(inodes, a) == ForgetMany(inodes, b) == ForgetMany(inodes, Summed(a))
    ensures OncePerInode(Summed(a))
  {
    forall i | i in inodes
      ensures Settle(inodes[i].refcount, false, a, i) == Settle(inodes[i].refcount, false, b, i)
      ensures Settle(inodes[i].refcount, false, a, i) == Settle(inodes[i].refcount, false, Summed(a), i)
    {
      SettleOfPermutation(inodes[i].refcount, false, a, b, i);
      SettleOfSummed(inodes[i].refcount, false, a, i);
    }
    ForgetsAgree(inodes, a, b);
    ForgetsAgree(inodes, a, Summed(a));
    SummedOnce(a);
  }

  // The tables as the sources write them.

  class INodeTable<K(==, !new)> {
    var inodes: map<Ino, INode<K>>
    var index: map<K, Ino>
    var nextIno: nat

    function State(): Table<K>
      reads this
    {
      Table(inodes, index, nextIno)
    }

    ghost predicate Valid()
      reads this
    {
      Consistent(State())
    }

    constructor (root: K)
      ensures Valid() && State() == Init(root)
    {
      inodes := map[ROOT := INode(ROOT, root, ROOT_COUNT)];
      index := map[root := ROOT];
      nextIno := 2;
    }

    /** The entry goes under a number never used before, and is found under its key from then on. */
    method InsertVacant(key: K, refcount: nat) returns (ino: Ino)
      requires Valid() && Live(State(), key) == {}
      modifies this
      ensures Valid() && Live(State(), key) == {ino} && ino !in old(inodes)
      ensures forall i :: i in old(inodes) ==> i in inodes && inodes[i] == old(inodes)[i]
      ensures ino == old(nextIno) && State() == Insert(old(State()), key, refcount)
    {
      IndexIsScan(State(), key);
      InsertingKeepsConsistent(State(), key, refcount);
      ino := nextIno;
      inodes := inodes[ino := INode(ino, key, refcount)];
      index := index[key := ino];
      nextIno := nextIno + 1;
      IndexIsScan(State(), key);
    }

    /** The lookup handler. The answer is characterised by the scan, not by the index: the one live
        inode with the key, or the next number when there is none. */
    method LookupKey(flavour: Flavour, parent: Ino, key: K, found: bool, attrOk: bool, delivery: Delivery)
      returns (r: Reply)
      requires Valid()
      modifies this
      ensures Valid()
      ensures (State(), r) == Step(flavour, old(State()), Lookup(parent, key, found, attrOk, delivery))
      ensures r.Entry? ==>
                if Live(old(State()), key) == {} then r.ino == old(nextIno) else r.ino in Live(old(State()), key)
    {
      IndexIsScan(State(), key);
      StepKeepsConsistent(flavour, State(), Lookup(parent, key, found, attrOk, delivery));
      if parent !in inodes {
        return Fail(NOENT);
      }
      if !found {
        return Fail(IO);
      }
      if flavour.PathThrough? && !attrOk {
        return Panic;
      }
      var ino;
      if key in index && index[key] in inodes {
        var inode := inodes[index[key]];
        ino := inode.ino;
        inodes := inodes[ino := inode.(refcount := inode.refcount + 1)];
      } else {
        ino := InsertVacant(key, 1);
      }
      if !attrOk {
        return Fail(INVAL);
      }
      return Replied(ino, delivery);
    }

    /** The link handler of the descriptor-based file system: reply first, then count. */
    method LinkInode(ino: Ino, newparent: Ino, linked: bool, attrOk: bool, delivery: Delivery) returns (r: Reply)
      requires Valid()
      modifies this`inodes
      ensures Valid()
      ensures (State(), r) == Step(Passthrough, old(State()), Link(ino, newparent, linked, attrOk, delivery))
    {
      StepKeepsConsistent(Passthrough, State(), Link(ino, newparent, linked, attrOk, delivery));
      if ino !in inodes || newparent !in inodes {
        return Fail(NOENT);
      }
      if !linked {
        return Fail(IO);
      }
      if !attrOk {
        return Fail(INVAL);
      }
      r := Replied(inodes[ino].ino, delivery);
      if r.Fail? {
        return;
      }
      inodes := inodes[ino := inodes[ino].(refcount := inodes[ino].refcount + 1)];
    }

    /** The forget loop of both file systems: the `ForgetAll` step. */
    method ForgetBatch(forgets: seq<Forget>) returns (r: Reply)
      requires Valid()
      modifies this`inodes
      ensures Valid()
      ensures inodes == ForgetMany(old(inodes), Addressed(forgets))
      ensures r == if AllAddressed(forgets) then NoReply else Panic
    {
      ghost var todo := Addressed(forgets);
      ForgetKeepsConsistent(State(), todo);
      for k := 0 to |forgets|
        invariant k <= |todo|
        invariant ForgetMany(inodes, todo[k..]) == ForgetMany(old(inodes), todo)
      {
        var ino := forgets[k].ino;
        if ino == 0 {
          return Panic;
        }
        ghost var before := inodes;
        assert todo[k..][0] == forgets[k] && todo[k..][1..] == todo[k + 1..];
        if ino in inodes {
          var refcount := SaturatingSub(inodes[ino].refcount, forgets[k].nlookup);
          inodes := inodes[ino := inodes[ino].(refcount := refcount)];
          if refcount == 0 {
            inodes := inodes - {ino};
          }
        }
        assert inodes == ForgetOne(before, forgets[k]);
      }
      return NoReply;
    }
  }
}
