/** Batches of FUSE_FORGET / FUSE_BATCH_FORGET items and what one batch does to one lookup count.

    Every file system of the repository keeps a lookup count per inode and runs the same loop over
    a batch: saturating subtraction, then removal when the count reaches zero and nothing else
    pins the inode. */
module Forgets {
  import opened Prelude

  type Ino = nat

  datatype Forget = Forget(ino: Ino, nlookup: nat)

  /** The sum of the batch's counts for inode `i`. */
  function Total(batch: seq<Forget>, i: Ino): nat {
    if batch == [] then 0
    else (if batch[0].ino == i then batch[0].nlookup else 0) + Total(batch[1..], i)
  }

  predicate Mentions(batch: seq<Forget>, i: Ino) {
    exists k :: 0 <= k < |batch| && batch[k].ino == i
  }

  /** Every item names a node: `Forget::ino` panics on node id 0, and decoding lets it through. */
  predicate AllAddressed(batch: seq<Forget>) {
    forall k :: 0 <= k < |batch| ==> batch[k].ino != 0
  }

  /** The items a loop over the batch gets to: those before the first with node id 0. */
  function Addressed(batch: seq<Forget>): (r: seq<Forget>)
    ensures r <= batch && AllAddressed(r)
    ensures |r| < |batch| ==> batch[|r|].ino == 0
    ensures AllAddressed(batch) <==> r == batch
  {
    if batch == [] || batch[0].ino == 0 then [] else [batch[0]] + Addressed(batch[1..])
  }

  /** One iteration of the loop, seen from a live inode with lookup count `refcount`. */
  function SettleOne(refcount: nat, pinned: bool, f: Forget, i: Ino): Option<nat> {
    if f.ino != i then Some(refcount)
    else
      var left := SaturatingSub(refcount, f.nlookup);
      if left == 0 && !pinned then None else Some(left)
  }

  /** The whole batch in one step: subtract the sum, remove once. */
  function Settle(refcount: nat, pinned: bool, batch: seq<Forget>, i: Ino): Option<nat> {
    var left := SaturatingSub(refcount, Total(batch, i));
    if Mentions(batch, i) && left == 0 && !pinned then None else Some(left)
  }

  /** Summing first and looping agree, although the loop saturates at every item and may remove
      the inode in the middle of the batch. */
  lemma SettleUnfold(refcount: nat, pinned: bool, batch: seq<Forget>, i: Ino)
    requires batch != []
    ensures Settle(refcount, pinned, batch, i)
         == match SettleOne(refcount, pinned, batch[0], i)
            case None => None
            case Some(left) => Settle(left, pinned, batch[1..], i)
  {
    MentionsUnfold(batch, i);
    if !Mentions(batch[1..], i) {
      TotalOfUnmentioned(batch[1..], i);
    }
  }

  lemma MentionsUnfold(batch: seq<Forget>, i: Ino)
    requires batch != []
    ensures Mentions(batch, i) <==> batch[0].ino == i || Mentions(batch[1..], i)
  {
    if Mentions(batch[1..], i) {
      var k :| 0 <= k < |batch[1..]| && batch[1..][k].ino == i;
      assert batch[k + 1].ino == i;
    }
    if Mentions(batch, i) && batch[0].ino != i {
      var k :| 0 <= k < |batch| && batch[k].ino == i;
      assert batch[1..][k - 1].ino == i;
    }
  }

  lemma {:induction false} TotalOfUnmentioned(batch: seq<Forget>, i: Ino)
    requires !Mentions(batch, i)
    ensures Total(batch, i) == 0
  {
    if batch != [] {
      MentionsUnfold(batch, i);
      TotalOfUnmentioned(batch[1..], i);
    }
  }

  lemma {:induction false} TotalWithout(batch: seq<Forget>, k: nat, i: Ino)
    requires k < |batch|
    ensures Total(batch, i)
         == Total(batch[..k] + batch[k + 1..], i) + (if batch[k].ino == i then batch[k].nlookup else 0)
  {
    if k == 0 {
      assert batch[..0] + batch[1..] == batch[1..];
    } else {
      TotalWithout(batch[1..], k - 1, i);
      assert (batch[..k] + batch[k + 1..])[1..] == batch[1..][..k - 1] + batch[1..][k..];
    }
  }

  lemma MultisetWithout(s: seq<Forget>, k: nat)
    requires k < |s|
    ensures multiset(s[..k] + s[k + 1..]) == multiset(s) - multiset{s[k]}
  {
    assert s == s[..k] + ([s[k]] + s[k + 1..]);
  }

  lemma MultisetTail(s: seq<Forget>)
    requires s != []
    ensures multiset(s[1..]) == multiset(s) - multiset{s[0]}
  {
    assert s == [s[0]] + s[1..];
  }

  /** Two orders of one batch: the first item of one stands somewhere in the other. */
  lemma HeadMoved(a: seq<Forget>, b: seq<Forget>) returns (k: nat)
    requires a != [] && multiset(a) == multiset(b)
    ensures k < |b| && b[k] == a[0]
    ensures multiset(a[1..]) == multiset(b[..k] + b[k + 1..])
  {
    assert a[0] in multiset(b);
    k :| 0 <= k < |b| && b[k] == a[0];
    MultisetTail(a);
    MultisetWithout(b, k);
  }

  lemma {:induction false} TotalOfPermutation(a: seq<Forget>, b: seq<Forget>, i: Ino)
    requires multiset(a) == multiset(b)
    ensures Total(a, i) == Total(b, i)
  {
    if a == [] {
      assert |b| == |multiset(b)| == 0;
    } else {
      var k := HeadMoved(a, b);
      TotalOfPermutation(a[1..], b[..k] + b[k + 1..], i);
      TotalWithout(b, k, i);
    }
  }

  lemma MentionsOfPermutation(a: seq<Forget>, b: seq<Forget>, i: Ino)
    requires multiset(a) == multiset(b)
    ensures Mentions(a, i) <==> Mentions(b, i)
  {
    forall x: Forget ensures x in a <==> x in b {
      assert x in multiset(a) <==> x in multiset(b);
    }
    if Mentions(a, i) {
      var k :| 0 <= k < |a| && a[k].ino == i;
      assert a[k] in b;
    }
    if Mentions(b, i) {
      var k :| 0 <= k < |b| && b[k].ino == i;
      assert b[k] in a;
    }
  }

  /** The order of the items in a batch is irrelevant to every inode. */
  lemma SettleOfPermutation(refcount: nat, pinned: bool, a: seq<Forget>, b: seq<Forget>, i: Ino)
    requires multiset(a) == multiset(b)
    ensures Settle(refcount, pinned, a, i) == Settle(refcount, pinned, b, i)
  {
    TotalOfPermutation(a, b, i);
    MentionsOfPermutation(a, b, i);
  }

  /** The batch without the items for inode `j`. */
  function Without(batch: seq<Forget>, j: Ino): (r: seq<Forget>)
    ensures |r| <= |batch|
  {
    if batch == [] then []
    else if batch[0].ino == j then Without(batch[1..], j)
    else [batch[0]] + Without(batch[1..], j)
  }

  /** The batch with the items for each inode added up into one. */
  function Summed(batch: seq<Forget>): seq<Forget>
    decreases |batch|
  {
    if batch == [] then []
    else [Forget(batch[0].ino, Total(batch, batch[0].ino))] + Summed(Without(batch[1..], batch[0].ino))
  }

  lemma {:induction false} TotalsWithout(batch: seq<Forget>, j: Ino, i: Ino)
    ensures Total(Without(batch, j), i) == if i == j then 0 else Total(batch, i)
    ensures Mentions(Without(batch, j), i) <==> i != j && Mentions(batch, i)
  {
    if batch != [] {
      TotalsWithout(batch[1..], j, i);
      MentionsUnfold(batch, i);
      if batch[0].ino != j {
        MentionsUnfold(Without(batch, j), i);
        assert Without(batch, j)[1..] == Without(batch[1..], j);
      }
    }
  }

  lemma {:induction false} TotalsOfSummed(batch: seq<Forget>, i: Ino)
    ensures Total(Summed(batch), i) == Total(batch, i)
    ensures Mentions(Summed(batch), i) <==> Mentions(batch, i)
    decreases |batch|
  {
    if batch != [] {
      var j := batch[0].ino;
      var rest := Without(batch[1..], j);
      TotalsOfSummed(rest, i);
      TotalsWithout(batch[1..], j, i);
      MentionsUnfold(batch, i);
      MentionsUnfold(Summed(batch), i);
      assert Summed(batch)[1..] == Summed(rest);
    }
  }

  /** Each inode occurs at most once. */
  ghost predicate OncePerInode(batch: seq<Forget>) {
    forall j, k :: 0 <= j < k < |batch| ==> batch[j].ino != batch[k].ino
  }

  lemma {:induction false} SummedOnce(batch: seq<Forget>)
    ensures OncePerInode(Summed(batch))
    decreases |batch|
  {
    if batch != [] {
      var rest := Without(batch[1..], batch[0].ino);
      assert Summed(batch)[1..] == Summed(rest);
      SummedOnce(rest);
      forall k | 0 <= k < |Summed(rest)| ensures Summed(rest)[k].ino != batch[0].ino {
        var i := Summed(rest)[k].ino;
        assert Mentions(Summed(rest), i);
        TotalsOfSummed(rest, i);
        TotalsWithout(batch[1..], batch[0].ino, i);
      }
    }
  }

  /** Adding up per inode first makes no difference to any inode. */
  lemma SettleOfSummed(refcount: nat, pinned: bool, batch: seq<Forget>, i: Ino)
    ensures Settle(refcount, pinned, Summed(batch), i) == Settle(refcount, pinned, batch, i)
  {
    TotalsOfSummed(batch, i);
  }
}
