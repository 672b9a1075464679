/** The flat name space behind the nested directory tables, and how every request changes it. */
module MemFsNames {
  import opened Prelude
  import opened Wire
  import opened Forgets
  import opened DirEntries
  import opened MemFs

  /** A place in the name space: a directory and a name in it. */
  datatype Slot = Slot(dir: Ino, name: Name)

  type NameSpace = map<Slot, Ino>

  predicate Holds(inodes: map<Ino, INode>, s: Slot) {
    s.dir in inodes && inodes[s.dir].kind.Dir? && s.name in inodes[s.dir].kind.children
  }

  function SlotsOf(inodes: map<Ino, INode>): (r: set<Slot>)
    ensures forall s :: s in r <==> Holds(inodes, s)
  {
    set d, n | d in inodes && inodes[d].kind.Dir? && n in inodes[d].kind.children :: Slot(d, n)
  }

  /** All (directory, name) pairs of the table with the inode each names. */
  function Names(inodes: map<Ino, INode>): NameSpace {
    map s | s in SlotsOf(inodes) :: inodes[s.dir].kind.children[s.name]
  }

  /** The places naming inode `i`. */
  function NamesOf(ns: NameSpace, i: Ino): set<Slot> {
    set s | s in ns && ns[s] == i
  }

  // Counting over a flat name space.

  lemma CountAdded(ns: NameSpace, s: Slot, i: Ino, j: Ino)
    requires s !in ns
    ensures |NamesOf(ns[s := i], j)| == |NamesOf(ns, j)| + (if i == j then 1 else 0)
  {
    if i == j {
      assert NamesOf(ns[s := i], j) == NamesOf(ns, j) + {s};
    } else {
      assert NamesOf(ns[s := i], j) == NamesOf(ns, j);
    }
  }

  lemma CountRemoved(ns: NameSpace, s: Slot, j: Ino)
    requires s in ns
    ensures |NamesOf(ns - {s}, j)| == |NamesOf(ns, j)| - (if ns[s] == j then 1 else 0)
  {
    if ns[s] == j {
      assert NamesOf(ns - {s}, j) == NamesOf(ns, j) - {s};
    } else {
      assert NamesOf(ns - {s}, j) == NamesOf(ns, j);
    }
  }

  lemma CountRestricted(ns: NameSpace, ns': NameSpace, j: Ino)
    requires forall s :: s in ns' ==> s in ns && ns'[s] == ns[s]
    ensures |NamesOf(ns', j)| <= |NamesOf(ns, j)|
    ensures (exists s :: s in ns && s !in ns' && ns[s] == j) ==> |NamesOf(ns', j)| < |NamesOf(ns, j)|
  {
    var a, b := NamesOf(ns', j), NamesOf(ns, j);
    assert a <= b;
    assert |b| == |a| + |b - a| by {
      assert b == a + (b - a);
    }
    if s :| s in ns && s !in ns' && ns[s] == j {
      assert s in b - a;
    }
  }

  lemma CountPositive(ns: NameSpace, s: Slot)
    requires s in ns
    ensures |NamesOf(ns, ns[s])| > 0
  {
    assert s in NamesOf(ns, ns[s]);
  }

  // The requests, on the flat name space.

  /** What the request that got reply `r` does to the name space, said without the tables.
      `kept` holds the inodes that survive it. */
  ghost function NamesAfter(ns: NameSpace, req: Request, r: Reply, kept: set<Ino>): NameSpace {
    match req
    case Make(parent, name, _) => if r.Entry? then ns[Slot(parent, name) := r.ino] else ns
    case Link(ino, newparent, newname) => if r.Entry? then ns[Slot(newparent, newname) := ino] else ns
    case Unlink(parent, name) => if r.Done? then ns - {Slot(parent, name)} else ns
    case Rename(parent, name, newparent, newname, _) =>
      if r.Done? && Slot(parent, name) in ns
      then (ns - {Slot(parent, name)})[Slot(newparent, newname) := ns[Slot(parent, name)]]
      else ns
    case ForgetAll(_) => map s | s in ns && s.dir in kept :: ns[s]
    case _ => ns
  }

  /** Only counters and contents change: the directories stay what they were. */
  lemma SameDirectories(a: map<Ino, INode>, b: map<Ino, INode>)
    requires a.Keys == b.Keys
    requires forall i :: i in a ==> a[i].kind.Dir? == b[i].kind.Dir?
    requires forall i :: i in a && a[i].kind.Dir? ==> a[i].kind.children == b[i].kind.children
    ensures Names(a) == Names(b)
  {
    forall s: Slot ensures Holds(a, s) <==> Holds(b, s) {
    }
    assert SlotsOf(a) == SlotsOf(b);
  }

  /** Replacing an inode by one of the same kind leaves the names alone. */
  lemma CountersOnly(inodes: map<Ino, INode>, i: Ino, node: INode)
    requires i in inodes && node.kind == inodes[i].kind
    ensures Names(inodes[i := node]) == Names(inodes)
  {
    SameDirectories(inodes, inodes[i := node]);
  }

  /** Inserting a vacant entry into one directory inserts one pair into the name space. */
  lemma EntryAdded(inodes: map<Ino, INode>, d: Ino, n: Name, i: Ino)
    requires d in inodes && inodes[d].kind.Dir? && n !in inodes[d].kind.children
    ensures Names(inodes[d := SetChildren(inodes[d], inodes[d].kind.children[n := i])])
         == Names(inodes)[Slot(d, n) := i]
    ensures Slot(d, n) !in Names(inodes)
  {
    var after := inodes[d := SetChildren(inodes[d], inodes[d].kind.children[n := i])];
    forall s: Slot ensures Holds(after, s) <==> Holds(inodes, s) || s == Slot(d, n) {
    }
  }

  /** Removing an entry from one directory removes one pair. */
  lemma EntryRemoved(inodes: map<Ino, INode>, d: Ino, n: Name)
    requires d in inodes && inodes[d].kind.Dir? && n in inodes[d].kind.children
    ensures Names(inodes[d := SetChildren(inodes[d], inodes[d].kind.children - {n})])
         == Names(inodes) - {Slot(d, n)}
    ensures Slot(d, n) in Names(inodes) && Names(inodes)[Slot(d, n)] == inodes[d].kind.children[n]
  {
    var after := inodes[d := SetChildren(inodes[d], inodes[d].kind.children - {n})];
    forall s: Slot ensures Holds(after, s) <==> Holds(inodes, s) && s != Slot(d, n) {
    }
  }

  /** A new inode holds no names yet. */
  lemma NodeAdded(inodes: map<Ino, INode>, ino: Ino, parent: Ino, what: NodeSpec)
    requires ino !in inodes && !what.Special?
    ensures Names(inodes[ino := NewNode(ino, parent, what)]) == Names(inodes)
  {
    var after := inodes[ino := NewNode(ino, parent, what)];
    forall s: Slot ensures Holds(after, s) <==> Holds(inodes, s) {
    }
  }

  lemma NamesOfMake(fs: Fs, parent: Ino, name: Name, what: NodeSpec)
    requires fs.nextIno !in fs.inodes
    ensures var (fs', r) := DoMake(fs, parent, name, what);
            Names(fs'.inodes) == NamesAfter(Names(fs.inodes), Make(parent, name, what), r, {})
  {
    if DoMake(fs, parent, name, what).1.Entry? {
      EntryAdded(fs.inodes, parent, name, fs.nextIno);
      var dir := SetChildren(fs.inodes[parent], Children(fs, parent)[name := fs.nextIno]);
      NodeAdded(fs.inodes[parent := dir], fs.nextIno, parent, what);
    }
  }

  lemma NamesOfLink(fs: Fs, ino: Ino, newparent: Ino, newname: Name)
    requires ino != newparent
    ensures var (fs', r) := DoLink(fs, ino, newparent, newname);
            Names(fs'.inodes) == NamesAfter(Names(fs.inodes), Link(ino, newparent, newname), r, {})
  {
    var (fs', r) := DoLink(fs, ino, newparent, newname);
    if r.Entry? {
      EntryAdded(fs.inodes, newparent, newname, ino);
      var dir := SetChildren(fs.inodes[newparent], Children(fs, newparent)[newname := ino]);
      CountersOnly(fs.inodes[newparent := dir], ino, fs'.inodes[ino]);
    }
  }

  lemma UnlinkedNames(inodes: map<Ino, INode>, d: Ino, n: Name, child: Ino, node: INode)
    requires d in inodes && inodes[d].kind.Dir? && n in inodes[d].kind.children
    requires child in inodes && child != d && node.kind == inodes[child].kind
    ensures Names(inodes[d := SetChildren(inodes[d], inodes[d].kind.children - {n})][child := node])
         == Names(inodes) - {Slot(d, n)}
  {
    EntryRemoved(inodes, d, n);
    CountersOnly(inodes[d := SetChildren(inodes[d], inodes[d].kind.children - {n})], child, node);
  }

  lemma NamesOfUnlink(fs: Fs, parent: Ino, name: Name)
    ensures var (fs', r) := DoUnlink(fs, parent, name);
            Names(fs'.inodes) == NamesAfter(Names(fs.inodes), Unlink(parent, name), r, {})
  {
    if DoUnlink(fs, parent, name).1.Done? {
      var child := Children(fs, parent)[name];
      UnlinkedNames(fs.inodes, parent, name, child, DoUnlink(fs, parent, name).0.inodes[child]);
    }
  }

  lemma RenamedWithin(inodes: map<Ino, INode>, d: Ino, name: Name, newname: Name)
    requires d in inodes && inodes[d].kind.Dir?
    requires name in inodes[d].kind.children && newname !in inodes[d].kind.children
    ensures var children := inodes[d].kind.children;
            Names(inodes[d := SetChildren(inodes[d], children[newname := children[name]] - {name})])
            == (Names(inodes) - {Slot(d, name)})[Slot(d, newname) := children[name]]
    ensures Slot(d, name) in Names(inodes) && Names(inodes)[Slot(d, name)] == inodes[d].kind.children[name]
  {
    var children := inodes[d].kind.children;
    var after := inodes[d := SetChildren(inodes[d], children[newname := children[name]] - {name})];
    forall s: Slot ensures Holds(after, s) <==> (Holds(inodes, s) && s != Slot(d, name)) || s == Slot(d, newname) {
    }
  }

  lemma RenamedAcross(inodes: map<Ino, INode>, d: Ino, name: Name, d': Ino, newname: Name)
    requires d != d' && d in inodes && d' in inodes && inodes[d].kind.Dir? && inodes[d'].kind.Dir?
    requires name in inodes[d].kind.children && newname !in inodes[d'].kind.children
    ensures var ino := inodes[d].kind.children[name];
            Names(inodes[d := SetChildren(inodes[d], inodes[d].kind.children - {name})]
                        [d' := SetChildren(inodes[d'], inodes[d'].kind.children[newname := ino])])
            == (Names(inodes) - {Slot(d, name)})[Slot(d', newname) := ino]
    ensures Slot(d, name) in Names(inodes) && Names(inodes)[Slot(d, name)] == inodes[d].kind.children[name]
  {
    EntryRemoved(inodes, d, name);
    var removed := inodes[d := SetChildren(inodes[d], inodes[d].kind.children - {name})];
    EntryAdded(removed, d', newname, inodes[d].kind.children[name]);
  }

  lemma NamesOfRename(fs: Fs, parent: Ino, name: Name, newparent: Ino, newname: Name, noFlags: bool)
    ensures var (fs', r) := DoRename(fs, parent, name, newparent, newname, noFlags);
            var ns, from := Names(fs.inodes), Slot(parent, name);
            if r.Done? then
              && from in ns && Slot(newparent, newname) !in ns
              && Names(fs'.inodes) == (ns - {from})[Slot(newparent, newname) := ns[from]]
            else fs' == fs
  {
    if DoRename(fs, parent, name, newparent, newname, noFlags).1.Done? {
      if newparent == parent {
        RenameWithinDone(fs, parent, name, newname);
      } else {
        RenameAcrossDone(fs, parent, name, newparent, newname);
      }
    }
  }

  lemma RenameWithinDone(fs: Fs, parent: Ino, name: Name, newname: Name)
    requires DoRename(fs, parent, name, parent, newname, true).1.Done?
    ensures Slot(parent, name) in Names(fs.inodes)
    ensures Names(DoRename(fs, parent, name, parent, newname, true).0.inodes)
         == (Names(fs.inodes) - {Slot(parent, name)})[Slot(parent, newname) := Names(fs.inodes)[Slot(parent, name)]]
  {
    RenamedWithin(fs.inodes, parent, name, newname);
  }

  lemma RenameAcrossDone(fs: Fs, parent: Ino, name: Name, newparent: Ino, newname: Name)
    requires parent != newparent && DoRename(fs, parent, name, newparent, newname, true).1.Done?
    ensures Slot(parent, name) in Names(fs.inodes)
    ensures Names(DoRename(fs, parent, name, newparent, newname, true).0.inodes)
         == (Names(fs.inodes) - {Slot(parent, name)})[Slot(newparent, newname) := Names(fs.inodes)[Slot(parent, name)]]
  {
    RenamedAcross(fs.inodes, parent, name, newparent, newname);
  }

  /** The whole batch in closed form: inode by inode, `Settle`. */
  lemma {:induction false} ForgetManyIsSettle(inodes: map<Ino, INode>, forgets: seq<Forget>, i: Ino)
    ensures i in ForgetMany(inodes, forgets) <==>
            i in inodes && Settle(inodes[i].refcount, inodes[i].links > 0, forgets, i).Some?
    ensures i in ForgetMany(inodes, forgets) ==>
            ForgetMany(inodes, forgets)[i]
            == inodes[i].(refcount := Settle(inodes[i].refcount, inodes[i].links > 0, forgets, i).value)
  {
    if forgets != [] {
      ForgetManyIsSettle(ForgetOne(inodes, forgets[0]), forgets[1..], i);
      if i in inodes {
        SettleUnfold(inodes[i].refcount, inodes[i].links > 0, forgets, i);
      }
    }
  }

  lemma NamesOfForget(inodes: map<Ino, INode>, forgets: seq<Forget>)
    ensures var after := ForgetMany(inodes, forgets);
            Names(after) == map s | s in Names(inodes) && s.dir in after :: Names(inodes)[s]
  {
    var after := ForgetMany(inodes, forgets);
    forall s: Slot ensures Holds(after, s) <==> Holds(inodes, s) && s.dir in after {
      ForgetManyIsSettle(inodes, forgets, s.dir);
    }
    forall s | Holds(after, s) ensures Names(after)[s] == Names(inodes)[s] {
      ForgetManyIsSettle(inodes, forgets, s.dir);
    }
  }

  /** The nested tables refine the flat name space: every request, whatever its outcome, changes
      it as `NamesAfter` says. */
  lemma NamesOfStep(fs: Fs, req: Request)
    requires fs.nextIno !in fs.inodes
    requires Admissible(fs, req)
    ensures var (fs', r) := Step(fs, req);
            Names(fs'.inodes) == NamesAfter(Names(fs.inodes), req, r, fs'.inodes.Keys)
  {
    var (fs', r) := Step(fs, req);
    match req {
      case Make(parent, name, what) => NamesOfMake(fs, parent, name, what);
      case Link(ino, newparent, newname) => NamesOfLink(fs, ino, newparent, newname);
      case Unlink(parent, name) => NamesOfUnlink(fs, parent, name);
      case Rename(parent, name, newparent, newname, noFlags) =>
        NamesOfRename(fs, parent, name, newparent, newname, noFlags);
      case ForgetAll(forgets) => NamesOfForget(fs.inodes, Addressed(forgets));
      case Lookup(_, _) => SameDirectories(fs.inodes, fs'.inodes);
      case Write(_, _, _, _) => SameDirectories(fs.inodes, fs'.inodes);
      case _ =>
    }
  }
}
