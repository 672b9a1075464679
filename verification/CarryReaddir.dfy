/** The stateful readdir of the path file system: it streams a source directory and carries the one
    entry that did not fit over to the next call. */
module CarryReaddir {
  import opened Prelude
  import opened Wire
  import opened DirEntries

  /** One item of the source directory stream. `Broken` is an item whose reading fails. */
  datatype Item = Item(name: Name, ino: nat, typ: Option<FileType>) | Broken

  predicate Listed(item: Item) {
    item.Item? && item.name != DOT && item.name != DOT_DOT
  }

  /** The entries a listing of the stream has to show. */
  function Wanted(stream: seq<Item>): (r: seq<Item>)
    ensures forall k :: 0 <= k < |r| ==> Listed(r[k])
  {
    if stream == [] then []
    else if Listed(stream[0]) then [stream[0]] + Wanted(stream[1..])
    else Wanted(stream[1..])
  }

  function ToEntry(item: Item, off: nat): DirEntry
    requires item.Item?
  {
    DirEntry(item.name, item.ino, item.typ, off)
  }

  /** The items as entries numbered from `off`. */
  function Numbered(items: seq<Item>, off: nat): (es: seq<DirEntry>)
    requires forall k :: 0 <= k < |items| ==> items[k].Item?
    ensures |es| == |items|
    ensures forall k :: 0 <= k < |es| ==> es[k] == ToEntry(items[k], off + k)
  {
    seq(|items|, k requires 0 <= k < |items| => ToEntry(items[k], off + k))
  }

  datatype Handle = Handle(unread: seq<Item>, carry: Option<Item>, offset: nat)

  predicate HandleOk(h: Handle) {
    h.carry.Some? ==> Listed(h.carry.value)
  }

  function Pending(h: Handle): seq<Item> {
    if h.carry.Some? then [h.carry.value] else []
  }

  /** Everything the handle still owes its reader, in order. */
  function Owed(h: Handle): (r: seq<Item>)
    requires HandleOk(h)
    ensures forall k :: 0 <= k < |r| ==> Listed(r[k])
  {
    Pending(h) + Wanted(h.unread)
  }

  /** `Gone` is a page that the session dropped. */
  datatype Outcome = Page(entries: seq<DirEntry>) | Fail(errno: Errno) | Gone

  /** What goes over the wire: the packed page, an error, or nothing. */
  datatype Reply = Buffer(bytes: seq<byte>) | Error(errno: Errno) | NoReply

  datatype LoopEnd = Exhausted | Full | Failed

  /** The loop over the stream with `room` bytes left in the buffer: the entries pushed, the handle,
      and how the loop ended. */
  function Fill(unread: seq<Item>, offset: nat, room: nat): (r: (seq<DirEntry>, Handle, LoopEnd))
    ensures HandleOk(r.1)
    decreases |unread|
  {
    if unread == [] then ([], Handle([], None, offset), Exhausted)
    else if unread[0].Broken? then ([], Handle(unread[1..], None, offset), Failed)
    else if !Listed(unread[0]) then Fill(unread[1..], offset, room)
    else
      var e := ToEntry(unread[0], offset);
      if RecordSize(e) > room then ([], Handle(unread[1..], Some(unread[0]), offset), Full)
      else
        var (rest, h, end) := Fill(unread[1..], offset + 1, room - RecordSize(e));
        ([e] + rest, h, end)
  }

  /** What a call pushes into its buffer: first the carried entry, then the loop. A carried entry
      that does not fit ends the call at once, with nothing changed. */
  function Attempt(h: Handle, size: nat): (r: (seq<DirEntry>, Handle, LoopEnd))
    requires HandleOk(h)
    ensures HandleOk(r.1)
  {
    if h.carry.None? then Fill(h.unread, h.offset, size)
    else
      var first := ToEntry(h.carry.value, h.offset);
      if RecordSize(first) > size then ([], h, Full)
      else
        var (es, h', end) := Fill(h.unread, h.offset + 1, size - RecordSize(first));
        ([first] + es, h', end)
  }

  /** The outcome of replying with a page. */
  function Replied(es: seq<DirEntry>, delivery: Delivery): Outcome {
    match delivery
    case Arrived => Page(es)
    case Dropped => Gone
    case Refused => Fail(IO)
  }

  /** One READDIR request for a page of `size` bytes. The handle has moved on before the reply goes out. */
  function Call(h: Handle, size: nat, delivery: Delivery): (r: (Handle, Outcome))
    requires HandleOk(h)
    ensures HandleOk(r.0)
  {
    var (es, h', end) := Attempt(h, size);
    (h', if end.Failed? then Fail(IO) else if end.Full? && es == [] then Fail(RANGE) else Replied(es, delivery))
  }

  function Delivered(o: Outcome): seq<DirEntry> {
    if o.Page? then o.entries else []
  }

  /** The loop's result against the stream: it takes a prefix of what is wanted, numbers it on, and
      leaves the rest owed. */
  ghost predicate TakesFront(unread: seq<Item>, offset: nat, es: seq<DirEntry>, h: Handle)
    requires HandleOk(h)
  {
    && |es| <= |Wanted(unread)|
    && (forall k :: 0 <= k < |es| ==> es[k] == ToEntry(Wanted(unread)[k], offset + k))
    && Owed(h) == Wanted(unread)[|es|..]
    && h.offset == offset + |es|
  }

  lemma TakesOneMore(unread: seq<Item>, offset: nat, es: seq<DirEntry>, h: Handle)
    requires HandleOk(h) && unread != [] && Listed(unread[0]) && TakesFront(unread[1..], offset + 1, es, h)
    ensures TakesFront(unread, offset, [ToEntry(unread[0], offset)] + es, h)
  {
    var w := Wanted(unread[1..]);
    assert ([unread[0]] + w)[1 + |es|..] == w[|es|..];
  }

  lemma {:induction false} FillConserves(unread: seq<Item>, offset: nat, room: nat)
    ensures TakesFront(unread, offset, Fill(unread, offset, room).0, Fill(unread, offset, room).1)
    decreases |unread|
  {
    if unread != [] && unread[0].Item? {
      if !Listed(unread[0]) {
        FillConserves(unread[1..], offset, room);
      } else {
        var e := ToEntry(unread[0], offset);
        if RecordSize(e) <= room {
          FillConserves(unread[1..], offset + 1, room - RecordSize(e));
          TakesOneMore(unread, offset, Fill(unread[1..], offset + 1, room - RecordSize(e)).0,
                       Fill(unread[1..], offset + 1, room - RecordSize(e)).1);
        }
      }
    }
  }

  /** The entries without their numbers. */
  function Items(es: seq<DirEntry>): (r: seq<Item>)
    ensures |r| == |es|
  {
    seq(|es|, k requires 0 <= k < |es| => Item(es[k].name, es[k].ino, es[k].typ))
  }

  predicate Readable(stream: seq<Item>) {
    forall k :: 0 <= k < |stream| ==> stream[k].Item?
  }

  /** The position of the first unreadable item, or the length. */
  function FirstBroken(stream: seq<Item>): (j: nat)
    ensures j <= |stream| && Readable(stream[..j])
    ensures j < |stream| ==> stream[j].Broken?
  {
    if stream == [] || stream[0].Broken? then 0 else 1 + FirstBroken(stream[1..])
  }

  /** The bytes that the records of the items take. */
  function RecordsSize(items: seq<Item>): nat
    requires Readable(items)
  {
    if items == [] then 0 else RecordSize(ToEntry(items[0], 0)) + RecordsSize(items[1..])
  }

  /** What is owed before the first unreadable item. */
  function OwedBefore(h: Handle): (r: seq<Item>)
    requires HandleOk(h)
    ensures Readable(r)
  {
    Pending(h) + Wanted(h.unread[..FirstBroken(h.unread)])
  }

  /** Something is owed before the first unreadable item, if there is one, and: the reply is delivered,
      but there is such an item and the page has room for everything before it; or the reply is not
      delivered, and the page has room for the first entry. */
  predicate Loses(h: Handle, size: nat, delivery: Delivery)
    requires HandleOk(h)
  {
    && OwedBefore(h) != []
    && if delivery.Arrived? then FirstBroken(h.unread) < |h.unread| && RecordsSize(OwedBefore(h)) <= size
       else RecordSize(ToEntry(OwedBefore(h)[0], 0)) <= size
  }

  lemma WantedBeforeBroken(unread: seq<Item>)
    requires unread != [] && unread[0].Item?
    ensures var j, rest := FirstBroken(unread), unread[1..];
            && j == 1 + FirstBroken(rest)
            && Wanted(unread[..j]) == (if Listed(unread[0]) then [unread[0]] else []) + Wanted(rest[..j - 1])
  {
    var j := FirstBroken(unread);
    assert unread[..j][0] == unread[0] && unread[..j][1..] == unread[1..][..j - 1];
  }

  /** The loop fails if and only if there is an unreadable item and everything before it fits; then it
      has pushed all of that, and goes on behind the item next time. */
  lemma {:induction false} FillFailsIff(unread: seq<Item>, offset: nat, room: nat)
    ensures var (j, f) := (FirstBroken(unread), Fill(unread, offset, room));
            && (f.2.Failed? <==> j < |unread| && RecordsSize(Wanted(unread[..j])) <= room)
            && (f.2.Failed? ==> |f.0| == |Wanted(unread[..j])| && f.1.carry == None && f.1.unread == unread[j + 1..])
    decreases |unread|
  {
    if unread != [] && unread[0].Item? {
      WantedBeforeBroken(unread);
      var e := ToEntry(unread[0], offset);
      if !Listed(unread[0]) {
        FillFailsIff(unread[1..], offset, room);
        var w := Wanted(unread[1..][..FirstBroken(unread) - 1]);
        assert [] + w == w;
      } else {
        var w := Wanted(unread[1..][..FirstBroken(unread) - 1]);
        assert ([unread[0]] + w)[1..] == w;
        if RecordSize(e) <= room {
          FillFailsIff(unread[1..], offset + 1, room - RecordSize(e));
        }
      }
    }
  }

  lemma RecordsSizeCons(item: Item, items: seq<Item>)
    requires item.Item? && Readable(items)
    ensures RecordsSize([item] + items) == RecordSize(ToEntry(item, 0)) + RecordsSize(items)
  {
    assert ([item] + items)[1..] == items;
  }

  /** The loop pushes something if and only if the first record it comes to fits. */
  lemma {:induction false} FillPushesIff(unread: seq<Item>, offset: nat, room: nat)
    ensures var w := Wanted(unread[..FirstBroken(unread)]);
            Fill(unread, offset, room).0 != [] <==> w != [] && RecordSize(ToEntry(w[0], 0)) <= room
    decreases |unread|
  {
    if unread != [] && unread[0].Item? {
      WantedBeforeBroken(unread);
      if !Listed(unread[0]) {
        FillPushesIff(unread[1..], offset, room);
        var w := Wanted(unread[1..][..FirstBroken(unread) - 1]);
        assert [] + w == w;
      }
    }
  }

  lemma PushesIff(h: Handle, size: nat)
    requires HandleOk(h)
    ensures Attempt(h, size).0 != [] <==>
            OwedBefore(h) != [] && RecordSize(ToEntry(OwedBefore(h)[0], 0)) <= size
  {
    var w := Wanted(h.unread[..FirstBroken(h.unread)]);
    if h.carry.None? {
      FillPushesIff(h.unread, h.offset, size);
      assert Pending(h) + w == w;
    }
  }

  /** With a carried entry, what is owed before the next unreadable item is that entry and the rest. */
  lemma OwedBeforeWithCarry(h: Handle)
    requires HandleOk(h) && h.carry.Some?
    ensures var w := Wanted(h.unread[..FirstBroken(h.unread)]);
            && OwedBefore(h) == [h.carry.value] + w
            && RecordsSize(OwedBefore(h)) == RecordSize(ToEntry(h.carry.value, h.offset)) + RecordsSize(w)
  {
    RecordsSizeCons(h.carry.value, Wanted(h.unread[..FirstBroken(h.unread)]));
  }

  lemma OwedBeforeWithout(h: Handle)
    requires HandleOk(h) && h.carry.None?
    ensures OwedBefore(h) == Wanted(h.unread[..FirstBroken(h.unread)])
  {
  }

  /** The loop of a call whose carried entry fits. */
  function AfterCarry(h: Handle, size: nat): (seq<DirEntry>, Handle, LoopEnd)
    requires HandleOk(h) && h.carry.Some? && RecordSize(ToEntry(h.carry.value, h.offset)) <= size
  {
    Fill(h.unread, h.offset + 1, size - RecordSize(ToEntry(h.carry.value, h.offset)))
  }

  lemma AttemptCases(h: Handle, size: nat)
    requires HandleOk(h)
    ensures var a := Attempt(h, size);
            && (h.carry.None? ==> a == Fill(h.unread, h.offset, size))
            && (h.carry.Some? && RecordSize(ToEntry(h.carry.value, h.offset)) > size ==> a == ([], h, Full))
            && (h.carry.Some? && RecordSize(ToEntry(h.carry.value, h.offset)) <= size ==>
                  |a.0| == 1 + |AfterCarry(h, size).0| && a.1 == AfterCarry(h, size).1 && a.2 == AfterCarry(h, size).2)
  {
  }

  lemma FailsIff(h: Handle, size: nat)
    requires HandleOk(h)
    ensures Attempt(h, size).2.Failed? <==>
            FirstBroken(h.unread) < |h.unread| && RecordsSize(OwedBefore(h)) <= size
    ensures var (es, h', end) := Attempt(h, size);
            end.Failed? ==>
              && |es| == |OwedBefore(h)|
              && h'.carry == None && h'.unread == h.unread[FirstBroken(h.unread) + 1..]
  {
    AttemptCases(h, size);
    if h.carry.None? {
      OwedBeforeWithout(h);
      FillFailsIff(h.unread, h.offset, size);
    } else {
      OwedBeforeWithCarry(h);
      var used := RecordSize(ToEntry(h.carry.value, h.offset));
      if used <= size {
        FillFailsIff(h.unread, h.offset + 1, size - used);
      }
    }
  }

  /** The loop stops for lack of room if and only if what stands before the next unreadable item does not
      all fit. */
  lemma {:induction false} FillFullIff(unread: seq<Item>, offset: nat, room: nat)
    ensures Fill(unread, offset, room).2.Full? <==> RecordsSize(Wanted(unread[..FirstBroken(unread)])) > room
    decreases |unread|
  {
    if unread != [] && unread[0].Item? {
      WantedBeforeBroken(unread);
      var w := Wanted(unread[1..][..FirstBroken(unread) - 1]);
      if !Listed(unread[0]) {
        FillFullIff(unread[1..], offset, room);
        assert [] + w == w;
      } else {
        RecordsSizeCons(unread[0], w);
        if RecordSize(ToEntry(unread[0], offset)) <= room {
          FillFullIff(unread[1..], offset + 1, room - RecordSize(ToEntry(unread[0], offset)));
        }
      }
    }
  }

  lemma FullIff(h: Handle, size: nat)
    requires HandleOk(h)
    ensures Attempt(h, size).2.Full? <==> RecordsSize(OwedBefore(h)) > size
  {
    AttemptCases(h, size);
    if h.carry.None? {
      OwedBeforeWithout(h);
      FillFullIff(h.unread, h.offset, size);
    } else {
      OwedBeforeWithCarry(h);
      var used := RecordSize(ToEntry(h.carry.value, h.offset));
      if used <= size {
        FillFullIff(h.unread, h.offset + 1, size - used);
      }
    }
  }

  /** It pushes as much as fits: a front of what stands before the next unreadable item fits if and only
      if it is no longer than what was pushed. */
  lemma {:induction false} FillIsMaximal(unread: seq<Item>, offset: nat, room: nat, n: nat)
    ensures var w := Wanted(unread[..FirstBroken(unread)]);
            n <= |w| ==> (RecordsSize(w[..n]) <= room <==> n <= |Fill(unread, offset, room).0|)
    decreases |unread|
  {
    if unread != [] && unread[0].Item? {
      WantedBeforeBroken(unread);
      var w := Wanted(unread[1..][..FirstBroken(unread) - 1]);
      if !Listed(unread[0]) {
        FillIsMaximal(unread[1..], offset, room, n);
        assert [] + w == w;
      } else if 0 < n <= 1 + |w| {
        assert ([unread[0]] + w)[..n] == [unread[0]] + w[..n - 1];
        RecordsSizeCons(unread[0], w[..n - 1]);
        var used := RecordSize(ToEntry(unread[0], offset));
        if used <= room {
          FillIsMaximal(unread[1..], offset + 1, room - used, n - 1);
        }
      }
    }
  }

  lemma AttemptIsMaximal(h: Handle, size: nat, n: nat)
    requires HandleOk(h) && n <= |OwedBefore(h)|
    ensures RecordsSize(OwedBefore(h)[..n]) <= size <==> n <= |Attempt(h, size).0|
  {
    AttemptCases(h, size);
    if h.carry.None? {
      OwedBeforeWithout(h);
      FillIsMaximal(h.unread, h.offset, size, n);
    } else if n > 0 {
      OwedBeforeWithCarry(h);
      var w := Wanted(h.unread[..FirstBroken(h.unread)]);
      var used := RecordSize(ToEntry(h.carry.value, h.offset));
      assert ([h.carry.value] + w)[..n] == [h.carry.value] + w[..n - 1];
      RecordsSizeCons(h.carry.value, w[..n - 1]);
      if used <= size {
        FillIsMaximal(h.unread, h.offset + 1, size - used, n - 1);
      }
    }
  }

  /** The outcome of a call, on handle, size and delivery: ERANGE when something is owed and the first
      record does not fit; EIO when everything before an unreadable item fits, and the item is then behind
      the handle; otherwise the page, if it arrives. */
  lemma CallOutcome(h: Handle, size: nat, delivery: Delivery)
    requires HandleOk(h)
    ensures var o := Call(h, size, delivery).1;
            var tight := OwedBefore(h) != [] && RecordSize(ToEntry(OwedBefore(h)[0], 0)) > size;
            var broken := FirstBroken(h.unread) < |h.unread| && RecordsSize(OwedBefore(h)) <= size;
            && (o == Fail(RANGE) <==> tight)
            && (o == Fail(IO) <==> broken || (!tight && delivery.Refused?))
            && (o == Gone <==> !tight && !broken && delivery.Dropped?)
            && (o.Page? <==> !tight && !broken && delivery.Arrived?)
            && (broken ==> Call(h, size, delivery).0.unread == h.unread[FirstBroken(h.unread) + 1..])
  {
    PushesIff(h, size);
    FailsIff(h, size);
    FullIff(h, size);
    if OwedBefore(h) != [] {
      var before := OwedBefore(h);
      assert before == [before[0]] + before[1..];
      RecordsSizeCons(before[0], before[1..]);
    }
  }

  lemma LosesIsLoss(h: Handle, size: nat, delivery: Delivery)
    requires HandleOk(h)
    ensures Loses(h, size, delivery) <==>
            Attempt(h, size).0 != [] && (Attempt(h, size).2.Failed? || !delivery.Arrived?)
  {
    PushesIff(h, size);
    FailsIff(h, size);
  }

  /** `taken` is the front of what `h` owes, numbered on, and `h'` owes the rest. */
  ghost predicate Took(h: Handle, h': Handle, taken: seq<DirEntry>)
    requires HandleOk(h) && HandleOk(h')
  {
    && h'.offset == h.offset + |taken|
    && |taken| <= |Owed(h)| && Owed(h') == Owed(h)[|taken|..]
    && taken == Numbered(Owed(h)[..|taken|], h.offset)
  }

  lemma TookFromStream(h: Handle, es: seq<DirEntry>, h': Handle)
    requires HandleOk(h) && HandleOk(h') && h.carry.None? && TakesFront(h.unread, h.offset, es, h')
    ensures Took(h, h', es)
  {
    assert Owed(h) == Wanted(h.unread);
  }

  lemma TookCarryToo(h: Handle, es: seq<DirEntry>, h': Handle)
    requires HandleOk(h) && HandleOk(h') && h.carry.Some? && TakesFront(h.unread, h.offset + 1, es, h')
    ensures Took(h, h', [ToEntry(h.carry.value, h.offset)] + es)
  {
    var w, taken := Wanted(h.unread), [ToEntry(h.carry.value, h.offset)] + es;
    assert Owed(h) == [h.carry.value] + w;
    assert ([h.carry.value] + w)[|taken|..] == w[|es|..];
  }

  /** Whatever a call does, it takes a prefix of what is owed and numbers it on. */
  lemma AttemptTakes(h: Handle, size: nat)
    requires HandleOk(h)
    ensures Took(h, Attempt(h, size).1, Attempt(h, size).0)
  {
    if h.carry.None? {
      FillConserves(h.unread, h.offset, size);
      TookFromStream(h, Fill(h.unread, h.offset, size).0, Fill(h.unread, h.offset, size).1);
    } else {
      var used := RecordSize(ToEntry(h.carry.value, h.offset));
      if used <= size {
        FillConserves(h.unread, h.offset + 1, size - used);
        TookCarryToo(h, Fill(h.unread, h.offset + 1, size - used).0, Fill(h.unread, h.offset + 1, size - used).1);
      }
    }
  }

  lemma ItemsOfNumbered(items: seq<Item>, off: nat)
    requires forall k :: 0 <= k < |items| ==> items[k].Item?
    ensures Items(Numbered(items, off)) == items
  {
  }

  /** A call loses and repeats nothing, whatever its page size and outcome (ERANGE included), if and
      only if the guard of `Loses` does not hold. */
  lemma CallConservesIff(h: Handle, size: nat, delivery: Delivery)
    requires HandleOk(h)
    ensures var (h', o) := Call(h, size, delivery);
            && (Owed(h) == Items(Delivered(o)) + Owed(h') <==> !Loses(h, size, delivery))
            && |Delivered(o)| + |Owed(h')| <= |Owed(h)|
            && (Loses(h, size, delivery) ==> |Delivered(o)| + |Owed(h')| < |Owed(h)|)
  {
    AttemptTakes(h, size);
    LosesIsLoss(h, size, delivery);
    var n := |Attempt(h, size).0|;
    if !Loses(h, size, delivery) {
      ItemsOfNumbered(Owed(h)[..n], h.offset);
      SplitAt(Owed(h), n);
    }
  }

  /** A readable entry, then an unreadable one, in a page with room for both: the call fails with EIO
      and the first entry is neither delivered nor owed any more. The same entry alone is lost when the
      session drops the reply. */
  lemma LostEntries()
    ensures var h := Handle([Item([97], 5, None), Broken], None, 1);
            && Owed(h) == [Item([97], 5, None)]
            && Call(h, 4096, Arrived) == (Handle([], None, 2), Fail(IO))
            && Owed(Call(h, 4096, Arrived).0) == []
    ensures var h := Handle([Item([97], 5, None)], None, 1);
            && Owed(h) == [Item([97], 5, None)]
            && Call(h, 4096, Dropped) == (Handle([], None, 2), Gone)
            && Owed(Call(h, 4096, Dropped).0) == []
  {
    var item := Item([97], 5, None);
    var used := RecordSize(ToEntry(item, 1));
    assert [item, Broken][1..] == [Broken] && [Broken][1..] == [] && [item][1..] == [];
    assert Wanted([Broken]) == [] && used <= 4096;
    assert Fill([Broken], 2, 4096 - used) == ([], Handle([], None, 2), Failed);
    assert Fill([], 2, 4096 - used) == ([], Handle([], None, 2), Exhausted);
  }

  // Runs of calls.

  /** One call: its page size, and what becomes of its reply. */
  datatype Ask = Ask(size: nat, delivery: Delivery)

  /** The handle after the calls, and all they delivered. */
  function Calls(h: Handle, asks: seq<Ask>): (r: (Handle, seq<DirEntry>))
    requires HandleOk(h)
    ensures HandleOk(r.0)
  {
    if asks == [] then (h, [])
    else
      var (h1, got) := Calls(h, asks[..|asks| - 1]);
      var (h2, o) := Call(h1, asks[|asks| - 1].size, asks[|asks| - 1].delivery);
      (h2, got + Delivered(o))
  }

  function Opened(stream: seq<Item>): Handle {
    Handle(stream, None, 1)
  }

  /** No call of the run loses anything. */
  predicate NeverLoses(h: Handle, asks: seq<Ask>)
    requires HandleOk(h)
  {
    asks == []
    || (var before, last := asks[..|asks| - 1], asks[|asks| - 1];
        NeverLoses(h, before) && !Loses(Calls(h, before).0, last.size, last.delivery))
  }

  /** Where a reader stands that has lost nothing: what it has and what it is owed make up the whole
      listing, and it has the numbers 1, 2, 3, ... */
  ghost predicate Conserved(h: Handle, got: seq<DirEntry>, all: seq<Item>) {
    && HandleOk(h) && h.offset == |got| + 1
    && Items(got) + Owed(h) == all
    && forall k :: 0 <= k < |got| ==> got[k].off == k + 1
  }

  lemma Delivering(got: seq<DirEntry>, owed: seq<Item>, n: nat, off: nat)
    requires n <= |owed| && forall k :: 0 <= k < |owed| ==> owed[k].Item?
    ensures Items(got + Numbered(owed[..n], off)) + owed[n..] == Items(got) + owed
  {
    ItemsOfNumbered(owed[..n], off);
    assert Items(got + Numbered(owed[..n], off)) == Items(got) + owed[..n];
    assert owed == owed[..n] + owed[n..];
  }

  lemma DeliveredIsPushed(h: Handle, size: nat, delivery: Delivery)
    requires HandleOk(h) && !Loses(h, size, delivery)
    ensures Delivered(Call(h, size, delivery).1) == Attempt(h, size).0
  {
    LosesIsLoss(h, size, delivery);
  }

  lemma CallConserves(h: Handle, got: seq<DirEntry>, all: seq<Item>, size: nat, delivery: Delivery)
    requires Conserved(h, got, all) && !Loses(h, size, delivery)
    ensures var (h', o) := Call(h, size, delivery); Conserved(h', got + Delivered(o), all)
  {
    DeliveredIsPushed(h, size, delivery);
    AttemptTakes(h, size);
    Delivering(got, Owed(h), |Attempt(h, size).0|, h.offset);
  }

  lemma {:induction false} RunsConserve(stream: seq<Item>, asks: seq<Ask>)
    ensures var (h, got) := Calls(Opened(stream), asks);
            if NeverLoses(Opened(stream), asks) then Conserved(h, got, Wanted(stream))
            else |got| + |Owed(h)| < |Wanted(stream)|
  {
    if asks == [] {
      assert Items([]) + Owed(Opened(stream)) == Wanted(stream);
    } else {
      var before, last := asks[..|asks| - 1], asks[|asks| - 1];
      RunsConserve(stream, before);
      var (h, got) := Calls(Opened(stream), before);
      if NeverLoses(Opened(stream), asks) {
        CallConserves(h, got, Wanted(stream), last.size, last.delivery);
      } else {
        CallConservesIff(h, last.size, last.delivery);
      }
    }
  }

  /** Over any stream, after any calls with any page sizes and deliveries: delivered ++ carried ++
      unread is the filtered stream if and only if no call loses anything, and then the delivered
      entries are numbered 1, 2, 3, ... */
  lemma NothingLostIff(stream: seq<Item>, asks: seq<Ask>)
    ensures var (h, got) := Calls(Opened(stream), asks);
            && (Items(got) + Pending(h) + Wanted(h.unread) == Wanted(stream) <==> NeverLoses(Opened(stream), asks))
            && (NeverLoses(Opened(stream), asks) ==> forall k :: 0 <= k < |got| ==> got[k].off == k + 1)
  {
    RunsConserve(stream, asks);
    var (h, got) := Calls(Opened(stream), asks);
    Assoc(Items(got), Pending(h), Wanted(h.unread));
  }

  lemma {:induction false} ReadableStays(unread: seq<Item>, offset: nat, room: nat)
    requires Readable(unread)
    ensures Readable(Fill(unread, offset, room).1.unread)
    decreases |unread|
  {
    if unread != [] {
      if !Listed(unread[0]) {
        ReadableStays(unread[1..], offset, room);
      } else if RecordSize(ToEntry(unread[0], offset)) <= room {
        ReadableStays(unread[1..], offset + 1, room - RecordSize(ToEntry(unread[0], offset)));
      }
    }
  }

  lemma CallStaysReadable(h: Handle, size: nat, delivery: Delivery)
    requires HandleOk(h) && Readable(h.unread)
    ensures Readable(Call(h, size, delivery).0.unread)
  {
    if h.carry.None? {
      ReadableStays(h.unread, h.offset, size);
    } else {
      var used := RecordSize(ToEntry(h.carry.value, h.offset));
      if used <= size {
        ReadableStays(h.unread, h.offset + 1, size - used);
      }
    }
  }

  predicate AllArrived(asks: seq<Ask>) {
    forall k :: 0 <= k < |asks| ==> asks[k].delivery.Arrived?
  }

  /** Nothing is lost of a readable stream when every reply is delivered. */
  lemma {:induction false} ReadableNeverLoses(stream: seq<Item>, asks: seq<Ask>)
    requires Readable(stream) && AllArrived(asks)
    ensures NeverLoses(Opened(stream), asks)
    ensures Readable(Calls(Opened(stream), asks).0.unread)
  {
    if asks != [] {
      var before, last := asks[..|asks| - 1], asks[|asks| - 1];
      ReadableNeverLoses(stream, before);
      CallStaysReadable(Calls(Opened(stream), before).0, last.size, last.delivery);
    }
  }

  /** The page holds every record still owed. */
  predicate HoldsAll(size: nat, items: seq<Item>)
    requires Readable(items)
  {
    forall k :: 0 <= k < |items| ==> RecordSize(ToEntry(items[k], 0)) <= size
  }

  /** A page that holds the largest record always makes progress: with such pages, delivered, a readable
      stream arrives completely within as many calls as it has entries. */
  lemma {:induction false} LargePagesFinish(stream: seq<Item>, asks: seq<Ask>)
    requires Readable(stream) && AllArrived(asks)
    requires forall j :: 0 <= j < |asks| ==> HoldsAll(asks[j].size, Wanted(stream))
    ensures |Calls(Opened(stream), asks).1| >= Min(|asks|, |Wanted(stream)|)
  {
    if asks != [] {
      var before, last := asks[..|asks| - 1], asks[|asks| - 1];
      LargePagesFinish(stream, before);
      ReadableNeverLoses(stream, asks);
      RunsConserve(stream, before);
      ReadableNeverLoses(stream, before);
      var (h, got) := Calls(Opened(stream), before);
      if |got| < |Wanted(stream)| {
        ProgressOfCall(h, last.size, Wanted(stream), got);
      }
    }
  }

  lemma ProgressOfCall(h: Handle, size: nat, all: seq<Item>, got: seq<DirEntry>)
    requires Readable(all) && Conserved(h, got, all) && Readable(h.unread) && |got| < |all| && HoldsAll(size, all)
    ensures |Delivered(Call(h, size, Arrived).1)| > 0
  {
    PushesIff(h, size);
    assert h.unread[..FirstBroken(h.unread)] == h.unread;
    assert OwedBefore(h) == Owed(h) && Owed(h)[0] == all[|got|];
    assert !Loses(h, size, Arrived);
    DeliveredIsPushed(h, size, Arrived);
  }

  // The handler as the source writes it.

  /** The loop from a buffer that already holds `es`, turn by turn. */
  ghost function After(es: seq<DirEntry>, unread: seq<Item>, offset: nat, room: nat): (seq<DirEntry>, Handle, LoopEnd)
    decreases |unread|
  {
    if unread == [] then (es, Handle([], None, offset), Exhausted)
    else if unread[0].Broken? then (es, Handle(unread[1..], None, offset), Failed)
    else if !Listed(unread[0]) then After(es, unread[1..], offset, room)
    else
      var e := ToEntry(unread[0], offset);
      if RecordSize(e) > room then (es, Handle(unread[1..], Some(unread[0]), offset), Full)
      else After(es + [e], unread[1..], offset + 1, room - RecordSize(e))
  }

  lemma {:induction false} AfterIsFill(es: seq<DirEntry>, unread: seq<Item>, offset: nat, room: nat)
    ensures var f := Fill(unread, offset, room);
            After(es, unread, offset, room) == (es + f.0, f.1, f.2)
    decreases |unread|
  {
    if unread == [] || unread[0].Broken? {
      assert es + [] == es;
    } else if !Listed(unread[0]) {
      AfterIsFill(es, unread[1..], offset, room);
    } else {
      var e := ToEntry(unread[0], offset);
      if RecordSize(e) > room {
        assert es + [] == es;
      } else {
        AfterIsFill(es + [e], unread[1..], offset + 1, room - RecordSize(e));
        Assoc(es, [e], Fill(unread[1..], offset + 1, room - RecordSize(e)).0);
      }
    }
  }

  lemma AttemptIsAfter(h: Handle, size: nat)
    requires HandleOk(h)
    ensures h.carry.None? ==> Attempt(h, size) == After([], h.unread, h.offset, size)
    ensures h.carry.Some? ==>
              var first := ToEntry(h.carry.value, h.offset);
              RecordSize(first) <= size ==>
                Attempt(h, size) == After([first], h.unread, h.offset + 1, size - RecordSize(first))
  {
    if h.carry.None? {
      AfterIsFill([], h.unread, h.offset, size);
      assert [] + Fill(h.unread, h.offset, size).0 == Fill(h.unread, h.offset, size).0;
    } else {
      var first := ToEntry(h.carry.value, h.offset);
      if RecordSize(first) <= size {
        AfterIsFill([first], h.unread, h.offset + 1, size - RecordSize(first));
      }
    }
  }

  class DirHandle {
    var readDir: seq<Item>
    var lastEntry: Option<Item>
    var offset: nat

    function State(): Handle
      reads this
    {
      Handle(readDir, lastEntry, offset)
    }

    constructor (stream: seq<Item>)
      ensures State() == Opened(stream)
    {
      readDir := stream;
      lastEntry := None;
      offset := 1;
    }

    /** One turn of the loop over the directory stream: how it ends, if it does, and whether it pushed. */
    method TakeOne(out: DirEntryBuf) returns (end: Option<LoopEnd>, pushed: bool)
      requires out.Valid() && out.capacity < U32 && lastEntry == None && readDir != []
      modifies this, out
      ensures out.Valid() && |out.entries| == |old(out.entries)| + (if pushed then 1 else 0)
      ensures end == None ==>
                && lastEntry == None && |readDir| < |old(readDir)|
                && After(out.entries, readDir, offset, out.capacity - |out.buf|)
                   == After(old(out.entries), old(readDir), old(offset), out.capacity - |old(out.buf)|)
      ensures end.Some? ==>
                (out.entries, State(), end.value)
                == After(old(out.entries), old(readDir), old(offset), out.capacity - |old(out.buf)|)
    {
      var entry := readDir[0];
      readDir := readDir[1..];
      if entry.Broken? {
        return Some(Failed), false;
      }
      if entry.name == DOT || entry.name == DOT_DOT {
        return None, false;
      }
      var full := out.PushEntry(ToEntry(entry, offset));
      if full {
        lastEntry := Some(entry);
        return Some(Full), false;
      }
      offset := offset + 1;
      return None, true;
    }

    /** The loop; `atLeastOne` also covers what was `pushed` before it. */
    method FillBuffer(out: DirEntryBuf, pushed: bool) returns (end: LoopEnd, atLeastOne: bool)
      requires out.Valid() && out.capacity < U32 && lastEntry == None
      modifies this, out
      ensures out.Valid()
      ensures (out.entries, State(), end)
           == After(old(out.entries), old(readDir), old(offset), out.capacity - |old(out.buf)|)
      ensures atLeastOne <==> pushed || |out.entries| > |old(out.entries)|
    {
      atLeastOne := pushed;
      ghost var goal := After(out.entries, readDir, offset, out.capacity - |out.buf|);
      while readDir != []
        invariant out.Valid() && lastEntry == None
        invariant |out.entries| >= |old(out.entries)|
        invariant atLeastOne <==> pushed || |out.entries| > |old(out.entries)|
        invariant After(out.entries, readDir, offset, out.capacity - |out.buf|) == goal
        decreases |readDir|
      {
        var stop, one := TakeOne(out);
        atLeastOne := atLeastOne || one;
        if stop.Some? {
          return stop.value, atLeastOne;
        }
      }
      return Exhausted, atLeastOne;
    }

    /** The carried entry: refused, it stays where it was; otherwise it stands in the buffer. */
    method PushCarried(out: DirEntryBuf) returns (full: bool)
      requires HandleOk(State()) && lastEntry.Some?
      requires out.Valid() && out.entries == [] && out.buf == [] && out.capacity < U32
      modifies this, out
      ensures out.Valid()
      ensures var first := ToEntry(old(lastEntry).value, old(offset));
              && (full <==> RecordSize(first) > out.capacity)
              && (full ==> State() == old(State()) && out.entries == [])
              && (!full ==> && State() == Handle(old(readDir), None, old(offset) + 1)
                            && out.entries == [first] && |out.buf| == RecordSize(first))
    {
      var entry := lastEntry.value;
      lastEntry := None;
      full := out.PushEntry(ToEntry(entry, offset));
      if full {
        lastEntry := Some(entry);
        return;
      }
      offset := offset + 1;
    }

    /** The carried entry, then the loop. */
    method Collect(out: DirEntryBuf) returns (end: LoopEnd, atLeastOne: bool)
      requires HandleOk(State()) && out.Valid() && out.entries == [] && out.buf == [] && out.capacity < U32
      modifies this, out
      ensures out.Valid()
      ensures (out.entries, State(), end) == Attempt(old(State()), out.capacity)
      ensures atLeastOne <==> out.entries != []
    {
      AttemptIsAfter(State(), out.capacity);
      atLeastOne := false;
      if lastEntry.Some? {
        var full := PushCarried(out);
        if full {
          return Full, false;
        }
        atLeastOne := true;
      }
      end, atLeastOne := FillBuffer(out, atLeastOne);
    }

    method Readdir(size: nat, delivery: Delivery) returns (r: Reply)
      requires HandleOk(State()) && size < U32
      modifies this
      ensures HandleOk(State())
      ensures State() == Call(old(State()), size, delivery).0
      ensures match Call(old(State()), size, delivery).1
              case Page(es) => r == Buffer(Packed(es)) && (AllEncodable(es) ==> Walk(r.bytes) == es)
              case Fail(errno) => r == Error(errno)
              case Gone => r == NoReply
    {
      var out := new DirEntryBuf(size);
      var end, atLeastOne := Collect(out);
      if end.Failed? {
        return Error(IO);
      }
      if end.Full? && !atLeastOne {
        return Error(RANGE);
      }
      if AllEncodable(out.entries) {
        WalkOfPacked(out.entries);
      }
      match delivery {
        case Arrived => return Buffer(out.buf);
        case Dropped => return NoReply;
        case Refused => return Error(IO);
      }
    }
  }

  /** The open directories. */
  class DirTable {
    var dirs: map<nat, DirHandle>

    ghost predicate Valid()
      reads this, dirs.Values
    {
      forall fh :: fh in dirs ==> HandleOk(dirs[fh].State())
    }

    /** The whole request: READDIRPLUS and unknown handles are refused and change nothing. */
    method ReaddirRequest(fh: nat, size: nat, plus: bool, delivery: Delivery) returns (r: Reply)
      requires Valid() && size < U32
      modifies if fh in dirs then {dirs[fh]} else {}
      ensures fh in dirs ==> HandleOk(dirs[fh].State())
      ensures plus ==> r == Error(NOSYS)
      ensures !plus && fh !in dirs ==> r == Error(INVAL)
      ensures plus && fh in dirs ==> dirs[fh].State() == old(dirs[fh].State())
      ensures !plus && fh in dirs ==>
                && dirs[fh].State() == Call(old(dirs[fh].State()), size, delivery).0
                && match Call(old(dirs[fh].State()), size, delivery).1
                   case Page(es) => r == Buffer(Packed(es))
                   case Fail(errno) => r == Error(errno)
                   case Gone => r == NoReply
    {
      if plus {
        return Error(NOSYS);
      }
      if fh !in dirs {
        return Error(INVAL);
      }
      r := dirs[fh].Readdir(size, delivery);
    }
  }
}
