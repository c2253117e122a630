/** The circular buffer of undo records (t_action_register). */
module UndoRing {
  import opened Sequences
  import opened UndoLog

  // ----- the buffer as a value -----

  /** The index `k` slots after `tail`. */
  function Slot(size: nat, tail: nat, k: nat): (i: nat)
    requires tail < size && k <= size
    ensures i < size
  {
    if tail + k >= size then tail + k - size else tail + k
  }

  /** How many slots after `tail` are valid. */
  function Valids(size: nat, head: nat, tail: nat): (n: nat)
    requires head < size && tail < size
    ensures n < size
    ensures Slot(size, tail, n) == head
  {
    if tail <= head then head - tail else head + size - tail
  }

  /** The valid records, the oldest first. */
  ghost function Window(slots: seq<Record>, tail: nat, n: nat): (s: seq<Record>)
    requires tail < |slots| && n < |slots|
    ensures |s| == n
  {
    if n == 0 then [] else Window(slots, tail, n - 1) + [slots[Slot(|slots|, tail, n)]]
  }

  lemma {:induction false} WindowAt(slots: seq<Record>, tail: nat, n: nat)
    requires tail < |slots| && n < |slots|
    ensures forall i :: 0 <= i < n ==> Window(slots, tail, n)[i] == slots[Slot(|slots|, tail, i + 1)]
  {
    if n > 0 { WindowAt(slots, tail, n - 1); }
  }

  /** What the buffer holds: the sentinel in slot `tail` and the window after it. */
  ghost function View(slots: seq<Record>, head: nat, tail: nat): Log
    requires head < |slots| && tail < |slots|
  {
    Log(slots[tail], Window(slots, tail, Valids(|slots|, head, tail)))
  }

  /** Slots outside the window and the sentinel own nothing. */
  ghost predicate OthersFree(slots: seq<Record>, head: nat, tail: nat)
    requires head < |slots| && tail < |slots|
  {
    forall k :: Valids(|slots|, head, tail) < k < |slots| ==> slots[Slot(|slots|, tail, k)].Owned() == []
  }

  /** Adding while there is a free slot. */
  lemma AddToFree(slots: seq<Record>, head: nat, tail: nat, r: Record)
    requires head < |slots| && tail < |slots| && OthersFree(slots, head, tail)
    requires Slot(|slots|, head, 1) != tail
    ensures var size, h := |slots|, Slot(|slots|, head, 1);
      && OthersFree(slots[h := r], h, tail)
      && View(slots[h := r], h, tail) == Step(size, View(slots, head, tail), Add(r))
      && FreedBy(size, View(slots, head, tail), Add(r)) == [] && slots[h].Owned() == []
  {
    var size, h, n := |slots|, Slot(|slots|, head, 1), Valids(|slots|, head, tail);
    assert Valids(size, h, tail) == n + 1 && Slot(size, tail, n + 1) == h;
    SlotsDistinct(size, tail, n + 1);
    WindowOutside(slots, tail, n, h, r);
  }

  /** Adding to a full buffer: the sentinel is cleared and its slot reused, the oldest record becomes the sentinel. */
  lemma AddToFull(slots: seq<Record>, head: nat, tail: nat, r: Record)
    requires head < |slots| && tail < |slots|
    requires Slot(|slots|, head, 1) == tail
    ensures var size, t := |slots|, Slot(|slots|, tail, 1);
      && OthersFree(slots[tail := r], tail, t)
      && View(slots[tail := r], tail, t) == Step(size, View(slots, head, tail), Add(r))
      && FreedBy(size, View(slots, head, tail), Add(r)) == slots[tail].Owned()
  {
    var size, t := |slots|, Slot(|slots|, tail, 1);
    assert Valids(size, head, tail) == size - 1 == Valids(size, tail, t);
    WindowAt(slots, tail, size - 1);
    WindowAt(slots[tail := r], t, size - 1);
    var all := Window(slots, tail, size - 1) + [r];
    assert Window(slots[tail := r], t, size - 1) == all[1..];
  }

  /** Clearing the newest record and stepping back. */
  lemma RemoveNewest(slots: seq<Record>, head: nat, tail: nat)
    requires head < |slots| && tail < |slots| && head != tail && OthersFree(slots, head, tail)
    ensures var h := if head > 0 then head - 1 else |slots| - 1; var n := Valids(|slots|, head, tail);
      && Valids(|slots|, h, tail) == n - 1
      && OthersFree(slots[head := slots[head].Cleared()], h, tail)
      && Window(slots, tail, n) == Window(slots, tail, n - 1) + [slots[head]]
      && View(slots[head := slots[head].Cleared()], h, tail) == Log(slots[tail], Window(slots, tail, n - 1))
      && (n > 1 ==> Window(slots, tail, n)[n - 2] == slots[h])
  {
    var size, n := |slots|, Valids(|slots|, head, tail);
    var h := if head > 0 then head - 1 else |slots| - 1;
    assert Slot(size, tail, n - 1) == h;
    SlotsDistinct(size, tail, n);
    WindowAt(slots, tail, n);
    WindowOutside(slots, tail, n - 1, head, slots[head].Cleared());
  }

  /** Clearing a slot behind a window does not change the window. */
  lemma {:induction false} WindowOutside(slots: seq<Record>, tail: nat, n: nat, i: nat, r: Record)
    requires tail < |slots| && n < |slots| && i < |slots|
    requires forall k :: 0 < k <= n ==> Slot(|slots|, tail, k) != i
    ensures Window(slots[i := r], tail, n) == Window(slots, tail, n)
  {
    if n > 0 { WindowOutside(slots, tail, n - 1, i, r); }
  }

  /** The loop of `saved_now` has met all valid slots but the oldest `n`, and no other slot. */
  ghost predicate PartlySaved(before: seq<Record>, now: seq<Record>, head: nat, tail: nat, n: nat)
    requires head < |before| && tail < |before|
  {
    var size, all := |before|, Valids(|before|, head, tail);
    && |now| == size && n <= all
    && (forall k :: 0 <= k <= n || all < k < size ==> now[Slot(size, tail, k)] == before[Slot(size, tail, k)])
    && (forall k :: n < k <= all ==> now[Slot(size, tail, k)] == before[Slot(size, tail, k)].Saved())
  }

  /** One round of it. */
  lemma SavedRound(before: seq<Record>, now: seq<Record>, head: nat, tail: nat, n: nat)
    requires head < |before| && tail < |before| && n > 0 && PartlySaved(before, now, head, tail, n)
    ensures var i := Slot(|before|, tail, n); PartlySaved(before, now[i := now[i].Saved()], head, tail, n - 1)
  {
    SlotsDistinct(|before|, tail, n);
  }

  /** The slots after `saved_now`. */
  lemma SavedWindow(before: seq<Record>, after: seq<Record>, head: nat, tail: nat)
    requires head < |before| && tail < |before| && OthersFree(before, head, tail)
    requires PartlySaved(before, after, head, tail, 0)
    ensures OthersFree(after, head, tail)
    ensures View(after, head, tail) == Step(|before|, View(before, head, tail), SavedNow)
  {
    assert Slot(|before|, tail, 0) == tail;
    WindowAt(before, tail, Valids(|before|, head, tail));
    WindowAt(after, tail, Valids(|before|, head, tail));
    assert View(after, head, tail).records == MapSaved(View(before, head, tail).records);
  }

  /** Marking the newest slot as followed by another record. */
  lemma FlagNewest(slots: seq<Record>, head: nat, tail: nat)
    requires head < |slots| && tail < |slots| && OthersFree(slots, head, tail)
    ensures OthersFree(slots[head := slots[head].WithSeqFlag()], head, tail)
    ensures View(slots[head := slots[head].WithSeqFlag()], head, tail)
         == Step(|slots|, View(slots, head, tail), AddSeqFlag)
  {
    var n := Valids(|slots|, head, tail);
    SlotsDistinct(|slots|, tail, n);
    if n > 0 { WindowOutside(slots, tail, n - 1, head, slots[head].WithSeqFlag()); }
  }

  // ----- the class -----

  /** The allocator, as far as the register uses it: which addresses were given back, in order. */
  class CoreHeap {
    var freed: seq<nat>

    constructor ()
      ensures freed == []
    {
      freed := [];
    }
  }

  class ActionRegister {
    const size: nat
    const reg: array<Record>
    const heap: CoreHeap
    var head: nat
    ghost var log: Log  // what the slots hold
    var tail: nat       // head is the newest valid slot, tail is before the oldest; empty iff tail==head

    ghost predicate Valid()
      reads this, reg
    {
      && reg.Length == size
      && (size == 0 ==> head == 0 && tail == 0)
      && (size > 0 ==> head < size && tail < size && OthersFree(reg[..], head, tail) && log == View(reg[..], head, tail))
    }

    constructor (sizeIn: nat, heapIn: CoreHeap)
      ensures Valid() && size == sizeIn && heap == heapIn && fresh(reg)
      ensures size > 0 ==> log == EMPTY_LOG
    {
      size := sizeIn;
      heap := heapIn;
      reg := new Record[sizeIn](_ => EMPTY_RECORD);
      head, tail, log := 0, 0, EMPTY_LOG;
    }

    predicate Empty()
      reads this
    {
      head == tail
    }

    /** `reg[i].clear()`: frees the block of a record with a pointer and makes the pointer null. */
    method ClearSlot(i: nat)
      requires i < reg.Length
      modifies reg, heap
      ensures heap.freed == old(heap.freed) + old(reg[i]).Owned()
      ensures var r := old(reg[i]);
        heap.freed == old(heap.freed) + if (r.actionType.TpBsn? || r.actionType.TpDeln?) && r.data.Block? then [r.data.address] else []
      ensures reg[..] == old(reg[..])[i := old(reg[i]).Cleared()]
    {
      if reg[i].Param() {
        if reg[i].data.Block? {
          heap.freed := heap.freed + [reg[i].data.address];
        }
        reg[i] := reg[i].(data := Null);
      }
    }

    method Store(i: nat, r: Record)
      requires i < reg.Length
      modifies reg
      ensures reg[..] == old(reg[..])[i := r]
    {
      reg[i] := r;
    }

    /** Registers an action. A register without slots ignores it. */
    method Add(r: Record)
      requires Valid()
      modifies this`head, this`log, this`tail, reg, heap
      ensures Valid()
      ensures size == 0 ==> heap.freed == old(heap.freed)
      ensures size > 0 ==>
        && log == Step(size, old(log), UndoLog.Add(r))
        && heap.freed == old(heap.freed) + FreedBy(size, old(log), UndoLog.Add(r))
    {
      if size == 0 { return; }
      MakeRoom(r);
      Store(head, r);
      log := Step(size, log, UndoLog.Add(r));
    }

    /** Makes slot `head` free for the record `r`, at the expense of the sentinel if the buffer is full. */
    method MakeRoom(ghost r: Record)
      requires Valid() && size > 0
      modifies this`head, this`tail, reg, heap
      ensures head < size && tail < size
      ensures reg[head].Owned() == []
      ensures OthersFree(reg[..][head := r], head, tail)
      ensures View(reg[..][head := r], head, tail) == Step(size, log, UndoLog.Add(r))
      ensures heap.freed == old(heap.freed) + FreedBy(size, log, UndoLog.Add(r))
    {
      ghost var slots, h := reg[..], head;
      head := head + 1;
      if head >= size { head := 0; }
      if head == tail {
        ClearSlot(tail);
        tail := tail + 1;
        if tail >= size { tail := 0; }
        RoomWhenFull(slots, h, head, tail, r);
      } else {
        AddToFree(slots, h, tail, r);
      }
    }

    /** Clears slot `i` and goes to the slot before it. The slots up to `i` are seen as the window `v`. */
    method ClearAt(i: nat, ghost v: Log) returns (next: nat, ghost w: Log)
      requires reg.Length == size && i < size && tail < size && i != tail
      requires OthersFree(reg[..], i, tail) && v == View(reg[..], i, tail)
      modifies reg, heap
      ensures next < size && OthersFree(reg[..], next, tail) && w == View(reg[..], next, tail)
      ensures w.sentinel == v.sentinel && v.records == w.records + [old(reg[i])]
      ensures heap.freed == old(heap.freed) + old(reg[i]).Owned()
      ensures next == tail <==> w.records == []
      ensures next != tail ==> reg[next] == w.records[|w.records| - 1]
    {
      RemoveNewest(reg[..], i, tail);
      ClearSlot(i);
      next := if i == 0 then size - 1 else i - 1;
      w := View(reg[..], next, tail);
    }

    /** One round of `do_top` after `undoit`. */
    method RemoveTop() returns (r: Record)
      requires Valid() && head != tail
      modifies this`head, this`log, reg, heap
      ensures Valid()
      ensures log.sentinel == old(log.sentinel) && old(log.records) == log.records + [r]
      ensures heap.freed == old(heap.freed) + r.Owned()
      ensures head == tail <==> log.records == []
      ensures head != tail ==> reg[head] == log.records[|log.records| - 1]
    {
      r := reg[head];
      head, log := ClearAt(head, log);
    }

    /** The loop of `do_top`: what is still to be undone of the group is always the group that is on top. */
    method RemoveGroup() returns (undone: seq<Record>)
      requires Valid() && head != tail
      modifies this`head, this`log, reg, heap
      ensures Valid()
      ensures var before := old(log);
        && log == before.(records := Remaining(before.records))
        && undone == Undone(before.records)
        && heap.freed == old(heap.freed) + Blocks(undone)
    {
      undone := [];
      ghost var records, sentinel, k := log.records, log.sentinel, GroupStart(log.records);
      ghost var rest := records;
      while true
        invariant Valid() && head != tail && log == Log(sentinel, rest)
        invariant k < |rest| && records == rest + Reverse(undone)
        invariant heap.freed == old(heap.freed) + Blocks(undone)
        decreases |rest|
      {
        var r := RemoveTop();
        GroupRound(records, log.records, r, undone, old(heap.freed));
        rest, undone := log.records, undone + [r];
        if Empty() || !reg[head].Sequenced() { break; }
      }
      GroupRemoved(records, rest, undone);
    }

    /** Undoes the newest group. `undone` are the records handed to `undoit`, each before its block is freed. */
    method DoTop() returns (undone: seq<Record>)
      requires Valid()
      modifies this`head, this`log, reg, heap
      ensures Valid()
      ensures size == 0 ==> undone == [] && heap.freed == old(heap.freed)
      ensures size > 0 ==>
        && log == Step(size, old(log), UndoLog.DoTop)
        && undone == Undone(old(log).records)
        && heap.freed == old(heap.freed) + FreedBy(size, old(log), UndoLog.DoTop)
    {
      if Empty() {
        undone := [];
      } else {
        undone := RemoveGroup();
      }
    }

    /** Clears the valid records from the newest to the oldest. The sentinel slot keeps its block. */
    method ClearAll()
      requires Valid()
      modifies this`head, this`log, reg, heap
      ensures Valid()
      ensures size == 0 ==> heap.freed == old(heap.freed)
      ensures size > 0 ==>
        && log == Step(size, old(log), UndoLog.ClearAll)
        && heap.freed == old(heap.freed) + FreedBy(size, old(log), UndoLog.ClearAll)
    {
      if size == 0 { return; }
      var i := head;
      ghost var v := log;
      while i != tail
        invariant 0 <= i < size && OthersFree(reg[..], i, tail) && v == View(reg[..], i, tail)
        invariant log == old(log) && v.sentinel == log.sentinel
        invariant heap.freed + Blocks(Reverse(v.records)) == old(heap.freed) + Blocks(Reverse(log.records))
        decreases |v.records|
      {
        ghost var freed, r := heap.freed, reg[i];
        i, v := ClearAt(i, v);
        ClearUnfold(freed, v.records, r);
      }
      assert v.records == [];
      head, log := tail, v;
    }

    /** Called when the text is saved: no retained record leads to the saved text any more. */
    method SavedNow()
      requires Valid()
      modifies this`log, reg
      ensures Valid()
      ensures size > 0 ==> log == Step(size, old(log), UndoLog.SavedNow)
    {
      if size == 0 { return; }
      ghost var before := reg[..];
      MarkSaved();
      SavedWindow(before, reg[..], head, tail);
      log := Step(size, log, UndoLog.SavedNow);
    }

    /** The loop of `saved_now`. */
    method MarkSaved()
      requires reg.Length == size && head < size && tail < size
      modifies reg
      ensures PartlySaved(old(reg[..]), reg[..], head, tail, 0)
    {
      var i := head;
      ghost var n, before, now := Valids(size, head, tail), reg[..], reg[..];
      while i != tail
        invariant 0 <= i < size && n == Valids(size, i, tail)
        invariant reg[..] == now && PartlySaved(before, now, head, tail, n)
        decreases n
      {
        SavedRound(before, now, head, tail, n);
        reg[i] := reg[i].Saved();
        now := now[i := now[i].Saved()];
        i := if i == 0 then size - 1 else i - 1;
        n := n - 1;
      }
    }

    /** Marks the newest record as followed by another one of the same action. In an empty register this marks the
        sentinel, which no operation looks at. A register without slots is written through null. */
    method AddSeqFlag() returns (crashed: bool)
      requires Valid()
      modifies this`log, reg
      ensures Valid()
      ensures crashed <==> size == 0
      ensures size > 0 ==> log == Step(size, old(log), UndoLog.AddSeqFlag)
    {
      crashed := size == 0;
      if crashed { return; }
      FlagNewest(reg[..], head, tail);
      ghost var slots := reg[..];
      reg[head] := reg[head].WithSeqFlag();
      assert reg[..] == slots[head := slots[head].WithSeqFlag()];
      log := Step(size, log, UndoLog.AddSeqFlag);
    }
  }

  /** Adding to a full buffer, when the slot of the sentinel has been cleared before it is used. */
  lemma RoomWhenFull(slots: seq<Record>, h: nat, head: nat, tail: nat, r: Record)
    requires h < |slots| && head == Slot(|slots|, h, 1) && tail == Slot(|slots|, head, 1)
    ensures var size, cleared := |slots|, slots[head := slots[head].Cleared()];
      && cleared[head].Owned() == [] && OthersFree(cleared[head := r], head, tail)
      && View(cleared[head := r], head, tail) == Step(size, View(slots, h, head), UndoLog.Add(r))
      && FreedBy(size, View(slots, h, head), UndoLog.Add(r)) == slots[head].Owned()
  {
    AddToFull(slots, h, head, r);
    UpdateTwice(slots, head, slots[head].Cleared(), r);
  }

  lemma MoveAcross(rest: seq<Record>, r: Record, undone: seq<Record>)
    ensures rest + [r] + Reverse(undone) == rest + Reverse(undone + [r])
  {
    ReverseSnoc(undone, r);
    AppendAssociative(rest, [r], Reverse(undone));
  }

  /** One round of the loop of `do_top`. */
  lemma GroupRound(records: seq<Record>, rest: seq<Record>, r: Record, undone: seq<Record>, freed: seq<nat>)
    requires records == rest + [r] + Reverse(undone) && GroupStart(records) <= |rest|
    ensures records == rest + Reverse(undone + [r])
    ensures freed + Blocks(undone) + r.Owned() == freed + Blocks(undone + [r])
    ensures rest == [] || !rest[|rest| - 1].Sequenced() <==> |rest| == GroupStart(records)
  {
    MoveAcross(rest, r, undone);
    FreedMore(freed, undone, r);
    GroupEnd(records, rest, undone + [r]);
  }

  /** Going back through the newest group ends where it starts. */
  lemma GroupEnd(records: seq<Record>, rest: seq<Record>, undone: seq<Record>)
    requires records == rest + Reverse(undone) && |rest| < |records| && GroupStart(records) <= |rest|
    ensures rest == [] || !rest[|rest| - 1].Sequenced() <==> |rest| == GroupStart(records)
  {
    if rest != [] { assert records[|rest| - 1] == rest[|rest| - 1]; }
  }

  lemma GroupRemoved(records: seq<Record>, rest: seq<Record>, undone: seq<Record>)
    requires records != [] && records == rest + Reverse(undone) && |rest| == GroupStart(records)
    ensures Remaining(records) == rest && Undone(records) == undone
  {
    ReverseTwice(undone);
    assert records[|rest|..] == Reverse(undone);
  }

  lemma BlocksCons(r: Record, rest: seq<Record>)
    ensures Blocks([r] + rest) == r.Owned() + Blocks(rest)
  {
    TailOfAppend([r], rest);
    assert [r][1..] == [] && [] + rest == rest;
  }

  lemma ClearUnfold(freed: seq<nat>, rest: seq<Record>, r: Record)
    ensures freed + Blocks(Reverse(rest + [r])) == freed + r.Owned() + Blocks(Reverse(rest))
  {
    ReverseSnoc(rest, r);
    BlocksCons(r, Reverse(rest));
    AppendAssociative(freed, r.Owned(), Blocks(Reverse(rest)));
  }

  lemma SlotsDistinct(size: nat, tail: nat, n: nat)
    requires tail < size && n < size
    ensures forall k :: 0 <= k < size && k != n ==> Slot(size, tail, k) != Slot(size, tail, n)
  {
  }

  lemma FreedMore(before: seq<nat>, records: seq<Record>, r: Record)
    ensures before + Blocks(records) + r.Owned() == before + Blocks(records + [r])
  {
    BlocksSnoc(records, r);
    AppendAssociative(before, Blocks(records), r.Owned());
  }
}
