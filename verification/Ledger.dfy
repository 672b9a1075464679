/** The kernel's account of lookup counts: what a file system counts for an inode, what of that the
    kernel learns, and what it gives back. */
module Ledger {
  import opened Prelude

  /** What one request does to the account of one inode. `counted` references go into the table,
      `reached` of them reach the kernel in a reply, `returned` come back in forgets. */
  datatype Transfer = Transfer(counted: nat, reached: nat, returned: nat)

  /** What the kernel holds after the transfers. */
  function Held(ts: seq<Transfer>): int {
    if ts == [] then 0
    else Held(ts[..|ts| - 1]) + ts[|ts| - 1].reached - ts[|ts| - 1].returned
  }

  /** What was counted without the kernel knowing of it. */
  function Lost(ts: seq<Transfer>): int {
    if ts == [] then 0
    else Lost(ts[..|ts| - 1]) + ts[|ts| - 1].counted - ts[|ts| - 1].reached
  }

  /** The kernel never gives back more than it holds. */
  ghost predicate Disciplined(ts: seq<Transfer>) {
    ts == []
    || (Disciplined(ts[..|ts| - 1]) && ts[|ts| - 1].returned <= Max(0, Held(ts[..|ts| - 1])))
  }

  /** Only what was counted can reach the kernel. */
  predicate Plausible(ts: seq<Transfer>) {
    forall k :: 0 <= k < |ts| ==> ts[k].reached <= ts[k].counted
  }

  predicate NothingLost(ts: seq<Transfer>) {
    forall k :: 0 <= k < |ts| ==> ts[k].reached == ts[k].counted
  }

  lemma {:induction false} HeldIsNotNegative(ts: seq<Transfer>)
    requires Disciplined(ts)
    ensures Held(ts) >= 0
  {
    if ts != [] {
      HeldIsNotNegative(ts[..|ts| - 1]);
    }
  }

  lemma {:induction false} LostIff(ts: seq<Transfer>)
    requires Plausible(ts)
    ensures Lost(ts) >= 0
    ensures Lost(ts) == 0 <==> NothingLost(ts)
  {
    if ts != [] {
      var before, last := ts[..|ts| - 1], ts[|ts| - 1];
      assert ts == before + [last];
      LostIff(before);
    }
  }

  lemma LastTransfer(before: seq<Transfer>, last: Transfer)
    ensures var ts := before + [last];
            && Held(ts) == Held(before) + last.reached - last.returned
            && Lost(ts) == Lost(before) + last.counted - last.reached
            && (Disciplined(ts) <==> Disciplined(before) && last.returned <= Max(0, Held(before)))
            && (Plausible(ts) <==> Plausible(before) && last.reached <= last.counted)
            && (NothingLost(ts) <==> NothingLost(before) && last.reached == last.counted)
  {
    var ts := before + [last];
    assert ts[..|before|] == before && ts[|before|] == last;
    assert forall k :: 0 <= k < |before| ==> ts[k] == before[k];
  }
}
