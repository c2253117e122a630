/** What the undo and redo registers of the text editor hold, as values: the retained records, the sentinel slot before
    them, and the memory blocks that are given back. UndoRing implements this in a circular array. */
module UndoLog {
  import opened Sequences

  const ACTFL_WAS_UNCHANGED: bv8 := 1
  const ACTFL_SEQUENCED: bv8 := 2

  datatype ActionType = TpNone | TpIns | TpRepl | TpBs1 | TpDel1 | TpBsn | TpDeln

  /** The data word of a record: nothing, a number of characters, or a pointer to an allocated block with its text. */
  datatype Data = Null | Inserted(n: nat) | Block(address: nat, text: string)

  datatype Record = Record(actionType: ActionType, flags: bv8, offset: nat, shortData: char, data: Data)
  {
    predicate Sequenced() {
      flags & ACTFL_SEQUENCED != 0
    }

    predicate WasUnchanged() {
      flags & ACTFL_WAS_UNCHANGED != 0
    }

    /** `ACT_TP_PARAM`: the data word points to a block that the record owns. */
    predicate Param() {
      actionType.TpBsn? || actionType.TpDeln?
    }

    /** The block owned by the record: at most one address. */
    function Owned(): (s: seq<nat>)
      ensures |s| <= 1
    {
      if Param() && data.Block? then [data.address] else []
    }

    /** The record after `clear`: the block is freed and the pointer is null. */
    function Cleared(): (r: Record)
      ensures r.Owned() == [] && r == this.(data := r.data) && (!Param() ==> r == this)
    {
      if Param() then this.(data := Null) else this
    }

    /** Every record that `saved_now` meets stops leading to the saved text. */
    function Saved(): (r: Record)
      ensures !r.WasUnchanged() && r.Sequenced() == Sequenced() && r.Owned() == Owned()
      ensures r == this.(flags := r.flags)
    {
      FlagLaws(flags);
      this.(flags := flags & !ACTFL_WAS_UNCHANGED)
    }

    function WithSeqFlag(): (r: Record)
      ensures r.Sequenced() && r.WasUnchanged() == WasUnchanged() && r.Owned() == Owned()
      ensures r == this.(flags := r.flags)
    {
      FlagLaws(flags);
      this.(flags := flags | ACTFL_SEQUENCED)
    }
  }

  lemma FlagLaws(f: bv8)
    ensures (f & !ACTFL_WAS_UNCHANGED) & ACTFL_WAS_UNCHANGED == 0
    ensures (f & !ACTFL_WAS_UNCHANGED) & ACTFL_SEQUENCED == f & ACTFL_SEQUENCED
    ensures (f | ACTFL_SEQUENCED) & ACTFL_SEQUENCED != 0
    ensures (f | ACTFL_SEQUENCED) & ACTFL_WAS_UNCHANGED == f & ACTFL_WAS_UNCHANGED
  {
  }

  /** The retained records, the oldest first, and the slot `tail` that stands before them. */
  datatype Log = Log(sentinel: Record, records: seq<Record>)

  datatype Op = Add(r: Record) | DoTop | ClearAll | SavedNow | AddSeqFlag

  // ----- groups -----

  /** Where the newest group starts. A record that is SEQUENCED is followed by another one made by the same action. */
  function GroupStart(records: seq<Record>): (k: nat)
    requires records != []
    ensures k < |records|
    ensures forall i :: k <= i < |records| - 1 ==> records[i].Sequenced()
    ensures k > 0 ==> !records[k - 1].Sequenced()
  {
    var n := |records|;
    if n > 1 && records[n - 2].Sequenced() then GroupStart(records[..n - 1]) else n - 1
  }

  /** The contract of GroupStart determines it: it is the maximal run of sequenced records and the newest one. */
  lemma GroupStartUnique(records: seq<Record>, k: nat)
    requires k < |records|
    requires forall i :: k <= i < |records| - 1 ==> records[i].Sequenced()
    requires k > 0 ==> !records[k - 1].Sequenced()
    ensures k == GroupStart(records)
  {
  }

  /** What `do_top` leaves of the records, and the records it hands to the editor, newest first. */
  function Remaining(records: seq<Record>): seq<Record>
  {
    if records == [] then [] else records[..GroupStart(records)]
  }

  function Undone(records: seq<Record>): seq<Record>
  {
    if records == [] then [] else Reverse(records[GroupStart(records)..])
  }

  /** Grouped undo: the records handed to the editor, oldest first, are the end of the register; all but the newest are
      sequenced, and what is left is empty or has a top that is not. */
  lemma DoTopRemovesOneGroup(records: seq<Record>)
    requires records != []
    ensures records == Remaining(records) + Reverse(Undone(records))
    ensures Undone(records) != [] && Undone(records)[0] == records[|records| - 1]
    ensures forall i :: |Remaining(records)| <= i < |records| - 1 ==> records[i].Sequenced()
    ensures Remaining(records) == [] || !Remaining(records)[|Remaining(records)| - 1].Sequenced()
  {
    var k, n := GroupStart(records), |records| - 1;
    ReverseTwice(records[k..]);
    SplitLastFrom(records, k);
    ReverseSnoc(records[k..n], records[n]);
  }

  // ----- the bounded log -----

  function MapSaved(records: seq<Record>): (s: seq<Record>)
    ensures |s| == |records|
    ensures forall i :: 0 <= i < |s| ==> s[i] == records[i].Saved()
  {
    seq(|records|, i requires 0 <= i < |records| => records[i].Saved())
  }

  function FlagTop(records: seq<Record>): (s: seq<Record>)
    requires records != []
    ensures |s| == |records|
  {
    records[..|records| - 1] + [records[|records| - 1].WithSeqFlag()]
  }

  lemma FlagTopMeaning(records: seq<Record>)
    requires records != []
    ensures var s, n := FlagTop(records), |records| - 1;
      s[..n] == records[..n] && s[n] == records[n].(flags := records[n].flags | 2)
  {
  }

  /** The effect of an operation on a register with `size > 0` slots, one of which is the sentinel. An added record may
      push the oldest one into the sentinel slot. */
  function Step(size: nat, log: Log, op: Op): Log
    requires size > 0
  {
    match op
    case Add(r) =>
      var all := log.records + [r];
      if |all| < size then log.(records := all) else Log(all[0], all[1..])
    case DoTop =>
      // an emptied register stands on its sentinel, which is not cleared
      log.(records := Remaining(log.records))
    case ClearAll => log.(records := [])
    case SavedNow => log.(records := MapSaved(log.records))
    case AddSeqFlag =>
      if log.records == [] then log.(sentinel := log.sentinel.WithSeqFlag())
      else log.(records := FlagTop(log.records))
  }

  /** The blocks owned by some records, in the order of the records. */
  function Blocks(records: seq<Record>): seq<nat>
  {
    if records == [] then [] else records[0].Owned() + Blocks(records[1..])
  }

  /** The blocks an operation frees, in that order. A record that is evicted keeps its block until the next eviction. */
  function FreedBy(size: nat, log: Log, op: Op): seq<nat>
    requires size > 0
  {
    match op
    case Add(r) => if |log.records| + 1 < size then [] else log.sentinel.Owned()
    case DoTop => Blocks(Undone(log.records))
    case ClearAll => Blocks(Reverse(log.records))
    case SavedNow => []
    case AddSeqFlag => []
  }

  /** A new register: all slots are zeroed. */
  const EMPTY_RECORD := Record(TpNone, 0, 0, '\0', Null)
  const EMPTY_LOG := Log(EMPTY_RECORD, [])

  function Run(size: nat, log: Log, ops: seq<Op>): (final: Log)
    requires size > 0
    decreases ops
  {
    if ops == [] then log else Run(size, Step(size, log, ops[0]), ops[1..])
  }

  function FreedByRun(size: nat, log: Log, ops: seq<Op>): seq<nat>
    requires size > 0
    decreases ops
  {
    if ops == [] then [] else FreedBy(size, log, ops[0]) + FreedByRun(size, Step(size, log, ops[0]), ops[1..])
  }

  // ----- refinement of an unbounded stack -----

  /** The same operations on a stack that never forgets. */
  function StepUnbounded(stack: seq<Record>, op: Op): seq<Record>
  {
    match op
    case Add(r) => stack + [r]
    case DoTop => Remaining(stack)
    case ClearAll => []
    case SavedNow => MapSaved(stack)
    case AddSeqFlag => if stack == [] then [] else FlagTop(stack)
  }

  function RunUnbounded(stack: seq<Record>, ops: seq<Op>): seq<Record>
    decreases ops
  {
    if ops == [] then stack else RunUnbounded(StepUnbounded(stack, ops[0]), ops[1..])
  }

  ghost predicate IsSuffix<T>(a: seq<T>, b: seq<T>)
  {
    |a| <= |b| && forall i :: 0 <= i < |a| ==> a[i] == b[|b| - |a| + i]
  }

  /** One operation keeps the retained records a suffix of the unbounded stack, even when the group undone by the
      unbounded stack has lost its beginning to eviction. */
  lemma StepKeepsSuffix(size: nat, log: Log, stack: seq<Record>, op: Op)
    requires size > 0 && IsSuffix(log.records, stack) && |log.records| < size
    ensures IsSuffix(Step(size, log, op).records, StepUnbounded(stack, op))
    ensures |Step(size, log, op).records| < size
    ensures op.Add? ==> |Step(size, log, op).records| == if |log.records| < size - 1 then |log.records| + 1 else size - 1
  {
    match op
    case Add(r) => SuffixAdd(size, log, stack, r);
    case DoTop => if log.records != [] { SuffixRemaining(log.records, stack); }
    case ClearAll =>
    case SavedNow => SuffixSaved(log.records, stack);
    case AddSeqFlag => if log.records != [] { SuffixFlagTop(log.records, stack); }
  }

  lemma SuffixSaved(records: seq<Record>, stack: seq<Record>)
    requires IsSuffix(records, stack)
    ensures IsSuffix(MapSaved(records), MapSaved(stack))
  {
    var d := |stack| - |records|;
    forall i | 0 <= i < |records| ensures MapSaved(records)[i] == MapSaved(stack)[d + i] {
      assert records[i] == stack[d + i];
    }
  }

  lemma SuffixFlagTop(records: seq<Record>, stack: seq<Record>)
    requires records != [] && IsSuffix(records, stack)
    ensures IsSuffix(FlagTop(records), FlagTop(stack))
  {
  }

  lemma SuffixAdd(size: nat, log: Log, stack: seq<Record>, r: Record)
    requires size > 0 && IsSuffix(log.records, stack) && |log.records| < size
    ensures IsSuffix(Step(size, log, Add(r)).records, stack + [r])
    ensures |Step(size, log, Add(r)).records| < size
  {
    assert IsSuffix(log.records + [r], stack + [r]);
  }

  /** The newest groups of a stack and of a suffix of it start at the same place, or the suffix is all one group. */
  lemma SuffixGroup(records: seq<Record>, stack: seq<Record>)
    requires records != [] && IsSuffix(records, stack)
    ensures var d := |stack| - |records|;
      if GroupStart(records) > 0 then GroupStart(stack) == d + GroupStart(records)
      else GroupStart(stack) <= d
  {
    var k := GroupStart(records);
    if k > 0 { SuffixAt(records, stack, k - 1); }
    GroupReachesBack(records, stack, k);
  }

  /** A group of the suffix is part of a group of the stack. */
  lemma GroupReachesBack(records: seq<Record>, stack: seq<Record>, k: nat)
    requires records != [] && IsSuffix(records, stack) && k < |records|
    requires forall i :: k <= i < |records| - 1 ==> records[i].Sequenced()
    ensures GroupStart(stack) <= |stack| - |records| + k
  {
    var g := GroupStart(stack);
    if g > |stack| - |records| + k {
      SequencedWithin(records, stack, k, g - 1);
      assert false;
    }
  }

  lemma SequencedWithin(records: seq<Record>, stack: seq<Record>, k: nat, j: nat)
    requires IsSuffix(records, stack) && |stack| - |records| + k <= j < |stack| - 1
    requires forall i :: k <= i < |records| - 1 ==> records[i].Sequenced()
    ensures stack[j].Sequenced()
  {
    SuffixAt(records, stack, j - (|stack| - |records|));
  }

  lemma SuffixRemaining(records: seq<Record>, stack: seq<Record>)
    requires records != [] && IsSuffix(records, stack)
    ensures IsSuffix(Remaining(records), Remaining(stack))
  {
    SuffixGroup(records, stack);
    SuffixTake(records, stack, GroupStart(records));
  }

  lemma SuffixAt(records: seq<Record>, stack: seq<Record>, i: nat)
    requires IsSuffix(records, stack) && i < |records|
    ensures stack[|stack| - |records| + i] == records[i]
  {
  }

  lemma SuffixTake(records: seq<Record>, stack: seq<Record>, k: nat)
    requires IsSuffix(records, stack) && k <= |records|
    ensures IsSuffix(records[..k], stack[..|stack| - |records| + k])
  {
  }

  /** Over every run the register holds fewer records than it has slots, and they are the newest ones of the unbounded
      stack. */
  lemma {:induction false} RingRefinesStack(size: nat, log: Log, stack: seq<Record>, ops: seq<Op>)
    requires size > 0 && IsSuffix(log.records, stack) && |log.records| < size
    ensures IsSuffix(Run(size, log, ops).records, RunUnbounded(stack, ops))
    ensures |Run(size, log, ops).records| < size
    decreases ops
  {
    if ops != [] {
      StepKeepsSuffix(size, log, stack, ops[0]);
      RingRefinesStack(size, Step(size, log, ops[0]), StepUnbounded(stack, ops[0]), ops[1..]);
    }
  }

  /** The unbounded stack never holds `size` records or more during the run. */
  ghost predicate NeverFull(size: nat, stack: seq<Record>, ops: seq<Op>)
    decreases ops
  {
    |stack| < size && (ops != [] ==> NeverFull(size, StepUnbounded(stack, ops[0]), ops[1..]))
  }

  /** Nothing is forgotten as long as the register does not overflow. */
  lemma {:induction false} NothingLostUntilFull(size: nat, log: Log, ops: seq<Op>)
    requires size > 0 && NeverFull(size, log.records, ops)
    ensures Run(size, log, ops).records == RunUnbounded(log.records, ops)
    decreases ops
  {
    if ops != [] {
      assert Step(size, log, ops[0]).records == StepUnbounded(log.records, ops[0]);
      NothingLostUntilFull(size, Step(size, log, ops[0]), ops[1..]);
    }
  }

  // ----- ownership of the blocks -----

  lemma {:induction false} BlocksAppend(a: seq<Record>, b: seq<Record>)
    ensures Blocks(a + b) == Blocks(a) + Blocks(b)
  {
    TailOfAppend(a, b);
    if a != [] {
      BlocksAppend(a[1..], b);
      AppendAssociative(a[0].Owned(), Blocks(a[1..]), Blocks(b));
    }
  }

  lemma NoBlocks()
    ensures Blocks([]) == []
  {
  }

  lemma BlocksSnoc(a: seq<Record>, r: Record)
    ensures Blocks(a + [r]) == Blocks(a) + r.Owned()
  {
    BlocksAppend(a, [r]);
    assert Blocks([r]) == r.Owned() + Blocks([]);
  }

  /** How many times the address `x` occurs. */
  ghost function Occurs(s: seq<nat>, x: nat): nat
  {
    multiset(s)[x]
  }

  lemma OccursAppend(a: seq<nat>, b: seq<nat>, x: nat)
    ensures Occurs(a + b, x) == Occurs(a, x) + Occurs(b, x)
  {
  }

  lemma {:induction false} BlocksReverse(s: seq<Record>, x: nat)
    ensures Occurs(Blocks(Reverse(s)), x) == Occurs(Blocks(s), x)
  {
    if s != [] {
      BlocksReverse(s[1..], x);
      BlocksSnoc(Reverse(s[1..]), s[0]);
      OccursAppend(Blocks(Reverse(s[1..])), s[0].Owned(), x);
      OccursAppend(s[0].Owned(), Blocks(s[1..]), x);
    }
  }

  lemma {:induction false} BlocksMapSaved(s: seq<Record>)
    ensures Blocks(MapSaved(s)) == Blocks(s)
  {
    if s != [] {
      BlocksMapSaved(s[1..]);
      assert MapSaved(s)[1..] == MapSaved(s[1..]);
    }
  }

  lemma BlocksGroup(records: seq<Record>, x: nat)
    ensures Occurs(Blocks(records), x) == Occurs(Blocks(Remaining(records)), x) + Occurs(Blocks(Undone(records)), x)
  {
    if records != [] {
      var k := GroupStart(records);
      assert records == records[..k] + records[k..];
      BlocksAppend(records[..k], records[k..]);
      OccursAppend(Blocks(records[..k]), Blocks(records[k..]), x);
      BlocksReverse(records[k..], x);
    }
  }

  lemma BlocksFlagTop(records: seq<Record>)
    requires records != []
    ensures Blocks(FlagTop(records)) == Blocks(records)
  {
    var n := |records| - 1;
    SplitLast(records);
    BlocksSnoc(records[..n], records[n]);
    BlocksSnoc(records[..n], records[n].WithSeqFlag());
  }

  /** How many times a register owns the block `x`: in its sentinel slot and in its valid records. */
  ghost function Owns(log: Log, x: nat): nat
  {
    Occurs(log.sentinel.Owned(), x) + Occurs(Blocks(log.records), x)
  }

  /** The blocks handed over by an operation: that of a record of a deletion of several characters, typed with either
      key. */
  function Given(op: Op): seq<nat>
  {
    match op
    case Add(Record(TpBsn, _, _, _, Block(p, _))) => [p]
    case Add(Record(TpDeln, _, _, _, Block(p, _))) => [p]
    case _ => []
  }

  /** Which records own a block. */
  lemma OwnedMeaning(r: Record)
    ensures (r.actionType.TpBsn? || r.actionType.TpDeln?) && r.data.Block? ==> r.Owned() == [r.data.address]
    ensures !((r.actionType.TpBsn? || r.actionType.TpDeln?) && r.data.Block?) ==> r.Owned() == []
    ensures Given(Add(r)) == r.Owned()
  {
  }

  /** Adding such a record and undoing it frees its block, and nothing else; any other record frees nothing. */
  lemma AddedUndoneFreed(size: nat, log: Log, r: Record)
    requires size > 2 && (log.records == [] || !log.records[|log.records| - 1].Sequenced())
    ensures FreedBy(size, Step(size, log, Add(r)), DoTop)
         == if (r.actionType.TpBsn? || r.actionType.TpDeln?) && r.data.Block? then [r.data.address] else []
  {
    var all := Step(size, log, Add(r)).records;
    GroupStartUnique(all, |all| - 1);
    LastAlone(all);
    assert Blocks([r]) == r.Owned() + Blocks([r][1..]);
  }

  /** The flags as bits. */
  lemma FlagBits(r: Record)
    ensures r.WasUnchanged() <==> r.flags & 1 == 1
    ensures r.Sequenced() <==> r.flags & 2 == 2
    ensures r.Saved().flags == r.flags & 0xfe && r.WithSeqFlag().flags == r.flags | 2
  {
  }

  function GivenByRun(ops: seq<Op>): seq<nat>
  {
    if ops == [] then [] else Given(ops[0]) + GivenByRun(ops[1..])
  }

  /** One operation frees a block or keeps it; it neither loses nor invents one. */
  lemma StepConserves(size: nat, log: Log, op: Op, x: nat)
    requires size > 0 && |log.records| < size
    ensures Owns(log, x) + Occurs(Given(op), x)
         == Owns(Step(size, log, op), x) + Occurs(FreedBy(size, log, op), x)
  {
    hide Blocks, Remaining, Undone, FlagTop, MapSaved, Reverse;
    match op
    case Add(r) =>
      OwnedMeaning(r);
      AddConserves(size, log, r, x);
    case DoTop => BlocksGroup(log.records, x);
    case ClearAll =>
      BlocksReverse(log.records, x);
      NoBlocks();
    case SavedNow => BlocksMapSaved(log.records);
    case AddSeqFlag => if log.records != [] { BlocksFlagTop(log.records); }
  }

  lemma AddConserves(size: nat, log: Log, r: Record, x: nat)
    requires size > 0 && |log.records| < size
    ensures Owns(log, x) + Occurs(r.Owned(), x)
         == Owns(Step(size, log, Add(r)), x) + Occurs(FreedBy(size, log, Add(r)), x)
  {
    var all := log.records + [r];
    BlocksSnoc(log.records, r);
    OccursAppend(Blocks(log.records), r.Owned(), x);
    OccursAppend(all[0].Owned(), Blocks(all[1..]), x);
  }

  /** Conservation over every run: each block handed to the register is either still owned by it or was freed, as many
      times as it was handed over. */
  lemma {:induction false} BlocksConserved(size: nat, log: Log, ops: seq<Op>, x: nat)
    requires size > 0 && |log.records| < size
    ensures Owns(log, x) + Occurs(GivenByRun(ops), x)
         == Owns(Run(size, log, ops), x) + Occurs(FreedByRun(size, log, ops), x)
    decreases ops
  {
    if ops != [] {
      var next := Step(size, log, ops[0]);
      StepConserves(size, log, ops[0], x);
      StepKeepsSuffix(size, log, log.records, ops[0]);
      BlocksConserved(size, next, ops[1..], x);
      OccursAppend(Given(ops[0]), GivenByRun(ops[1..]), x);
      OccursAppend(FreedBy(size, log, ops[0]), FreedByRun(size, next, ops[1..]), x);
    }
  }

  /** If every block is handed over once, none is freed twice and none is freed while a record still owns it. */
  lemma NothingFreedTwice(size: nat, ops: seq<Op>, x: nat)
    requires size > 0 && Occurs(GivenByRun(ops), x) <= 1
    ensures Occurs(FreedByRun(size, EMPTY_LOG, ops), x) <= 1
    ensures Occurs(FreedByRun(size, EMPTY_LOG, ops), x) == 1 ==> Owns(Run(size, EMPTY_LOG, ops), x) == 0
  {
    BlocksConserved(size, EMPTY_LOG, ops, x);
  }

  /** The destructor clears the window and frees the slots, but never the block of the sentinel slot: what is lost is
      exactly that block. */
  lemma DestructorLosesSentinel(size: nat, ops: seq<Op>, x: nat)
    requires size > 0
    ensures Occurs(GivenByRun(ops + [ClearAll]), x)
         == Occurs(FreedByRun(size, EMPTY_LOG, ops + [ClearAll]), x)
          + Occurs(Run(size, EMPTY_LOG, ops).sentinel.Owned(), x)
  {
    var last := Run(size, EMPTY_LOG, ops);
    RunAppend(size, EMPTY_LOG, ops, [ClearAll]);
    assert Run(size, last, [ClearAll]) == Run(size, Step(size, last, ClearAll), []);
    BlocksConserved(size, EMPTY_LOG, ops + [ClearAll], x);
  }

  lemma {:induction false} RunAppend(size: nat, log: Log, a: seq<Op>, b: seq<Op>)
    requires size > 0
    ensures Run(size, log, a + b) == Run(size, Run(size, log, a), b)
    decreases a
  {
    TailOfAppend(a, b);
    if a != [] {
      RunAppend(size, Step(size, log, a[0]), a[1..], b);
    }
  }

  /** A deletion of a block of characters, as the editor registers it. */
  function BlockDeletion(address: nat): Record
  {
    Record(TpDeln, 0, 0, '\0', Block(address, "xy"))
  }

  /** Deletions of the blocks 1, 2, ..., n. */
  function Deletions(n: nat): (ops: seq<Op>)
    ensures |ops| == n
  {
    if n == 0 then [] else Deletions(n - 1) + [Add(BlockDeletion(n))]
  }

  lemma {:induction false} DeletionsKept(size: nat, n: nat)
    requires n < size
    ensures var log := Run(size, EMPTY_LOG, Deletions(n));
      |log.records| == n && (n > 0 ==> log.records[0] == BlockDeletion(1)) && log.sentinel == EMPTY_RECORD
  {
    if n > 0 {
      DeletionsKept(size, n - 1);
      RunSnoc(size, EMPTY_LOG, Deletions(n - 1), Add(BlockDeletion(n)));
    }
  }

  lemma RunSnoc(size: nat, log: Log, ops: seq<Op>, op: Op)
    requires size > 0
    ensures Run(size, log, ops + [op]) == Step(size, Run(size, log, ops), op)
  {
    RunAppend(size, log, ops, [op]);
    var last := Run(size, log, ops);
    assert Run(size, last, [op]) == Run(size, Step(size, last, op), []);
  }

  /** Such a loss happens in a register of any size: as many deletions of blocks as there are slots lose the first. */
  lemma DestructorLoss(size: nat)
    requires size > 0
    ensures Run(size, EMPTY_LOG, Deletions(size)).sentinel.Owned() == [1]
  {
    DeletionsKept(size, size - 1);
    RunSnoc(size, EMPTY_LOG, Deletions(size - 1), Add(BlockDeletion(size)));
  }
}
