/** Undo and redo against a reference editor that knows nothing of records: it keeps a copy of every text and a mark for
    every text that was left by an action with several parts. */
module EditorReference {
  import opened Sequences
  import opened UndoLog
  import opened Editor
  import opened EditorEdits
  import opened EditorHistory
  import opened EditorStray

  datatype Command =
    | Insert(line: nat, column: nat, chars: string)
    | Delete(pos: nat, count: nat, back: bool)
    | Replace(pos: nat, ch: char)
    | Sequence            // the next action belongs to the same group
    | SaveText
    | UndoAction
    | RedoAction

  /** What the editor demands of an edit: the cursor is at the start of a line, positions exist. */
  predicate Accepted(t: string, c: Command)
  {
    match c
    case Insert(line, _, _) => LineStart(t, line)
    case Delete(pos, count, _) => pos + count <= |t|
    case Replace(pos, _) => pos < |t|
    case _ => true
  }

  /** The commands that do what they promise: an undo or redo finds every place on a line. */
  predicate Admissible(e: Editor, c: Command)
  {
    && Accepted(e.text, c)
    && (c.UndoAction? ==> Exactly(PoppedUndo(e), Undoing, Undone(e.undo.records)))
    && (c.RedoAction? ==> Exactly(PoppedRedo(e), Redoing, Undone(e.redo.records)))
  }

  function PoppedUndo(e: Editor): Editor
  {
    e.(undo := Step(UNDO_BUFFER_SIZE, e.undo, DoTop))
  }

  function PoppedRedo(e: Editor): Editor
  {
    e.(redo := Step(REDO_BUFFER_SIZE, e.redo, DoTop))
  }

  function Exec(e: Editor, c: Command): Editor
    requires Accepted(e.text, c)
  {
    match c
    case Insert(line, column, chars) => InsertChars(e, Normal, line, column, chars)
    case Delete(pos, count, back) => DelChars(e, Normal, pos, count, back)
    case Replace(pos, ch) => ReplaceChar(e, Normal, pos, ch)
    case Sequence => MarkSequenced(e)
    case SaveText => Save(e)
    case UndoAction => Undo(e)
    case RedoAction => Redo(e)
  }

  predicate IsEdit(command: Command)
  {
    command.Insert? || command.Delete? || command.Replace?
  }

  /** An insertion into a full buffer does nothing. */
  predicate DoesNothing(e: Editor, command: Command)
    requires Accepted(e.text, command)
  {
    command.Insert? && |e.text| + |Typed(e.text, command.line, command.column, command.chars)| >= e.bufferSize
  }

  /** The editor after an edit that is registered as `r`. */
  ghost predicate EditedBy(e: Editor, r: Record, d: Editor)
  {
    d == Register(e, Normal, r).(text := d.text, changed := true, nextBlock := d.nextBlock)
  }

  /** Every other edit is registered as a record that leads back. */
  lemma EditLeads(e: Editor, command: Command) returns (r: Record)
    requires |e.text| < e.bufferSize && Accepted(e.text, command) && IsEdit(command) && !DoesNothing(e, command)
    ensures EditedBy(e, r, Exec(e, command)) && Leads(Exec(e, command).text, r, e.text, e.bufferSize)
  {
    hide Register, LineStart, With, Without, TextLength, Spaces;
    match command
    case Insert(line, column, chars) =>
      var s, pos := Typed(e.text, line, column, chars), PlaceOf(e.text, line, column);
      WithWithout(e.text, pos, s);
      r := Record(TpIns, 0, pos, '\0', Inserted(|s|));
    case Delete(pos, count, back) =>
      r := DeletionRecord(e.text, pos, count, back, e.nextBlock);
      assert Restored(r) == e.text[pos..pos + count];
      WithoutWith(e.text, pos, count);
    case Replace(pos, ch) =>
      r := Record(TpRepl, 0, pos, e.text[pos], Null);
      assert e.text[pos := ch][pos := e.text[pos]] == e.text;
  }

  // ----- the reference editor -----

  /** The current text, those that can be returned to and those that can be redone. A text of the past is joined if the
      action that left it was followed by another part. */
  datatype Copies = Copies(text: string, past: seq<string>, joined: seq<bool>, future: seq<string>)

  /** Where the newest group of the past starts. */
  function GroupOf(joined: seq<bool>): (k: nat)
    requires joined != []
    ensures k < |joined|
    ensures forall i :: k <= i < |joined| - 1 ==> joined[i]
    ensures k > 0 ==> !joined[k - 1]
  {
    var n := |joined|;
    if n > 1 && joined[n - 2] then GroupOf(joined[..n - 1]) else n - 1
  }

  /** The copies after an edit that gives `text`. */
  function Edited(c: Copies, text: string): Copies
  {
    Copies(text, Pushed(UNDO_BUFFER_SIZE, c.past, c.text), Pushed(UNDO_BUFFER_SIZE, c.joined, false), [])
  }

  /** Edits in terms of the text alone; undo goes back by one group, redo forward by one text. */
  ghost function Reference(c: Copies, command: Command, bufferSize: nat): Copies
    requires Accepted(c.text, command) && |c.joined| == |c.past|
  {
    match command
    case Insert(line, column, chars) =>
      var text := InsertedText(c.text, line, column, chars);
      if |text| >= bufferSize then c else Edited(c, text)
    case Delete(pos, count, _) => Edited(c, c.text[..pos] + c.text[pos + count..])
    case Replace(pos, ch) => Edited(c, c.text[pos := ch])
    case Sequence => if c.joined == [] then c else c.(joined := c.joined[|c.joined| - 1 := true])
    case SaveText => c
    case UndoAction =>
      if c.past == [] then c
      else
        var k := GroupOf(c.joined);
        Copies(c.past[k], c.past[..k], c.joined[..k], PushAll(REDO_BUFFER_SIZE, c.future, c.text, c.past[k..]))
    case RedoAction =>
      if c.future == [] then c
      else
        var n := |c.future| - 1;
        Copies(c.future[n], Pushed(UNDO_BUFFER_SIZE, c.past, c.text), Pushed(UNDO_BUFFER_SIZE, c.joined, false), c.future[..n])
  }

  /** The records of the undo register carry the marks of the reference. */
  ghost predicate SameMarks(records: seq<Record>, joined: seq<bool>)
  {
    |records| == |joined| && forall i :: 0 <= i < |records| ==> records[i].Sequenced() == joined[i]
  }

  /** The editor shows the text of the reference, and both of its registers lead to the copies. */
  ghost predicate Matches(e: Editor, c: Copies)
  {
    && e.text == c.text && |e.text| < e.bufferSize
    && History(e.text, e.undo.records, c.past, e.bufferSize) && SameMarks(e.undo.records, c.joined)
    && History(e.text, e.redo.records, c.future, e.bufferSize) && Unsequenced(e.redo.records)
    && |c.past| < UNDO_BUFFER_SIZE && |c.future| < REDO_BUFFER_SIZE
  }

  lemma SameGroup(records: seq<Record>, joined: seq<bool>)
    requires SameMarks(records, joined) && records != []
    ensures GroupOf(joined) == GroupStart(records)
  {
    GroupStartUnique(records, GroupOf(joined));
  }

  lemma SameMarksPush(size: nat, records: seq<Record>, joined: seq<bool>, r: Record)
    requires SameMarks(records, joined) && !r.Sequenced()
    ensures SameMarks(Pushed(size, records, r), Pushed(size, joined, false))
  {
  }

  lemma SameMarksFlag(records: seq<Record>, joined: seq<bool>)
    requires SameMarks(records, joined) && records != []
    ensures SameMarks(FlagTop(records), joined[|joined| - 1 := true])
  {
  }

  lemma SameMarksTake(records: seq<Record>, joined: seq<bool>, k: nat)
    requires SameMarks(records, joined) && k <= |records|
    ensures SameMarks(records[..k], joined[..k])
  {
  }

  lemma EditMatches(e: Editor, c: Copies, r: Record, e': Editor)
    requires Matches(e, c) && EditedBy(e, r, e') && Leads(e'.text, r, e.text, e.bufferSize)
    ensures Matches(e', Edited(c, e'.text))
  {
    hide Leads;
    FlaggedLeads(e, r, e'.text);
    HistoryPush(e.text, e.undo.records, c.past, e.bufferSize, e'.text, Flagged(e, r), UNDO_BUFFER_SIZE);
    SameMarksPush(UNDO_BUFFER_SIZE, e.undo.records, c.joined, Flagged(e, r));
  }

  lemma FlaggedLeads(e: Editor, r: Record, after: string)
    requires Leads(after, r, e.text, e.bufferSize)
    ensures Leads(after, Flagged(e, r), e.text, e.bufferSize) && |after| < e.bufferSize
  {
  }

  lemma EditReference(e: Editor, c: Copies, command: Command)
    requires e.text == c.text && |c.joined| == |c.past| && Accepted(e.text, command) && IsEdit(command)
    ensures DoesNothing(e, command) ==> Exec(e, command) == e && Reference(c, command, e.bufferSize) == c
    ensures !DoesNothing(e, command) ==> Reference(c, command, e.bufferSize) == Edited(c, Exec(e, command).text)
  {
    hide Register, With, InsertedText, Typed, PlaceOf;
    if command.Insert? { InsertedTextMeaning(e.text, command.line, command.column, command.chars); }
  }

  lemma {:induction false} PushAllBounded(size: nat, s: seq<string>, text: string, past: seq<string>)
    requires |s| < size && size > 1
    ensures |PushAll(size, s, text, past)| < size
    decreases past
  {
    if past != [] { PushAllBounded(size, Pushed(size, s, text), past[|past| - 1], past[..|past| - 1]); }
  }

  /** The condition on an undo, in terms of the copies. */
  lemma UndoReached(e: Editor, c: Copies)
    requires Matches(e, c) && c.past != []
    ensures Admissible(e, UndoAction) <==> Reached(e.text, e.undo.records, c.past, GroupOf(c.joined))
  {
    var k := GroupOf(c.joined);
    SameGroup(e.undo.records, c.joined);
    HistoryNewest(e.text, e.undo.records, c.past, e.bufferSize, k);
    ReachedNewest(e.text, e.undo.records, c.past, k);
    ExactlyMeansReached(PoppedUndo(e), Undoing, e.undo.records[k..], c.past[k..]);
  }

  /** The group an undo takes from its register. */
  lemma UndoTakes(e: Editor)
    requires e.undo.records != []
    ensures var k := GroupStart(e.undo.records); var popped := e.(undo := e.undo.(records := e.undo.records[..k]));
      PoppedUndo(e) == popped && Undo(e) == UndoAll(popped, Undoing, Reverse(e.undo.records[k..]))
  {
    hide UndoAll, GroupStart, Reverse;
  }

  lemma NothingToTake(e: Editor)
    ensures e.undo.records == [] ==> Undo(e) == e
    ensures e.redo.records == [] ==> Redo(e) == e
  {
  }

  lemma UndoMatches(e: Editor, c: Copies)
    requires Matches(e, c) && c.past != [] && Reached(e.text, e.undo.records, c.past, GroupOf(c.joined))
    ensures Matches(Undo(e), Reference(c, UndoAction, e.bufferSize))
  {
    hide Undo, PushAll, Reached, Unsequenced, Leads;
    var k := GroupOf(c.joined);
    UndoneRegisters(e, c, k);
    SameMarksTake(e.undo.records, c.joined, k);
    PushAllBounded(REDO_BUFFER_SIZE, c.future, c.text, c.past[k..]);
  }

  /** What an undo back to copy `k` does to the registers. */
  lemma UndoneRegisters(e: Editor, c: Copies, k: nat)
    requires Matches(e, c) && c.past != [] && k == GroupOf(c.joined) && Reached(e.text, e.undo.records, c.past, k)
    ensures var u := Undo(e);
      && u.text == c.past[k] && |u.text| < e.bufferSize == u.bufferSize && u.changed == !e.undo.records[k].WasUnchanged()
      && u.undo.records == e.undo.records[..k] && History(c.past[k], e.undo.records[..k], c.past[..k], e.bufferSize)
      && History(c.past[k], u.redo.records, PushAll(REDO_BUFFER_SIZE, c.future, e.text, c.past[k..]), e.bufferSize)
      && Unsequenced(u.redo.records)
  {
    hide Undo, UndoAll, PushAll, Reached, Reverse, Leads;
    SameGroup(e.undo.records, c.joined);
    UndoTakes(e);
    GroupFollows(PoppedUndo(e), Undoing, e.undo.records, c.past, c.future, k);
  }

  lemma OneRedone(records: seq<Record>)
    requires records != [] && Unsequenced(records)
    ensures GroupStart(records) == |records| - 1
    ensures Remaining(records) == records[..|records| - 1] && Unsequenced(records[..|records| - 1])
    ensures records[|records| - 1..] == [records[|records| - 1]]
    ensures Undone(records) == Reverse([records[|records| - 1]]) == [records[|records| - 1]]
  {
    GroupStartUnique(records, |records| - 1);
    LastAlone(records);
  }

  lemma UndoAllOne(e: Editor, mode: Mode, r: Record)
    requires Fits(e.text, r)
    ensures UndoAll(e, mode, [r]) == UndoIt(e, mode, r)
    ensures Exactly(e, mode, [r]) <==> Exact(e.text, r)
  {
    var next := UndoIt(e, mode, r);
    assert [r][1..] == [] && [r][0] == r;
    assert UndoAll(next, mode, []) == next && Exactly(next, mode, []);
  }

  /** Redo undoes the newest redo record and nothing else. */
  lemma RedoTakes(e: Editor)
    requires e.redo.records != [] && Unsequenced(e.redo.records)
    ensures var n := |e.redo.records| - 1; var popped := e.(redo := e.redo.(records := e.redo.records[..n]));
      && PoppedRedo(e) == popped && Undone(e.redo.records) == [e.redo.records[n]]
      && (Fits(e.text, e.redo.records[n]) ==> Redo(e) == UndoIt(popped, Redoing, e.redo.records[n]))
      && (Exactly(popped, Redoing, [e.redo.records[n]]) <==> Fits(e.text, e.redo.records[n]) && Exact(e.text, e.redo.records[n]))
  {
    hide UndoIt, Fits, Exact;
    var r := e.redo.records[|e.redo.records| - 1];
    OneRedone(e.redo.records);
    if Fits(e.text, r) { UndoAllOne(PoppedRedo(e), Redoing, r); }
  }

  lemma RedoReached(e: Editor, c: Copies)
    requires Matches(e, c) && c.future != []
    ensures Admissible(e, RedoAction) <==> Exact(e.text, e.redo.records[|c.future| - 1])
  {
    hide Exact, Exactly, Fits;
    RedoTakes(e);
    HistoryPop(e.text, e.redo.records, c.future, e.bufferSize);
  }

  /** The record that a redo brings to the undo register is not grouped. */
  lemma RedoMatches(e: Editor, c: Copies)
    requires Matches(e, c) && c.future != [] && Exact(e.text, e.redo.records[|c.future| - 1])
    ensures var n := |c.future| - 1; var r := Redo(e);
      && Matches(r, Reference(c, RedoAction, e.bufferSize))
      && r.redo.records == e.redo.records[..n] && r.changed == !e.redo.records[n].WasUnchanged()
  {
    hide Redo, UndoAll, UndoIt, Exact, Leads, Inverse;
    var n, records := |c.future| - 1, e.redo.records;
    var r := records[n];
    RedoTakes(e);
    HistoryPop(e.text, records, c.future, e.bufferSize);
    UndoItLeads(PoppedRedo(e), Redoing, r, c.future[n]);
    var i := Inverse(PoppedRedo(e), r);
    InverseMarks(PoppedRedo(e), r);
    HistoryPush(e.text, e.undo.records, c.past, e.bufferSize, c.future[n], i, UNDO_BUFFER_SIZE);
    SameMarksPush(UNDO_BUFFER_SIZE, e.undo.records, c.joined, i);
  }

  lemma SavedMatches(text: string, records: seq<Record>, past: seq<string>, joined: seq<bool>, bufferSize: nat)
    requires History(text, records, past, bufferSize) && SameMarks(records, joined)
    ensures History(text, MapSaved(records), past, bufferSize) && SameMarks(MapSaved(records), joined)
  {
    forall i | 0 <= i < |records| ensures Leads(After(text, past, i), MapSaved(records)[i], past[i], bufferSize) {
      assert Leads(After(text, past, i), records[i], past[i], bufferSize);
    }
  }

  lemma SequencedMatches(text: string, records: seq<Record>, past: seq<string>, bufferSize: nat)
    requires records != [] && History(text, records, past, bufferSize)
    ensures History(text, FlagTop(records), past, bufferSize)
  {
    forall i | 0 <= i < |records| ensures Leads(After(text, past, i), FlagTop(records)[i], past[i], bufferSize) {
      assert Leads(After(text, past, i), records[i], past[i], bufferSize);
    }
  }

  /** Nothing that an undo or redo puts back finds the buffer full. */
  predicate HasRoom(e: Editor, c: Command)
  {
    && (c.UndoAction? ==> Roomy(PoppedUndo(e), Undoing, Undone(e.undo.records)))
    && (c.RedoAction? ==> Roomy(PoppedRedo(e), Redoing, Undone(e.redo.records)))
  }

  lemma EditRefines(e: Editor, c: Copies, command: Command)
    requires Matches(e, c) && Accepted(e.text, command) && !command.UndoAction? && !command.RedoAction?
    ensures Matches(Exec(e, command), Reference(c, command, e.bufferSize))
  {
    hide InsertChars, DelChars, ReplaceChar, Register, Leads, Unsequenced;
    if IsEdit(command) {
      EditReference(e, c, command);
      if !DoesNothing(e, command) {
        var r := EditLeads(e, command);
        EditMatches(e, c, r, Exec(e, command));
      }
    } else if command.SaveText? {
      SavedMatches(e.text, e.undo.records, c.past, c.joined, e.bufferSize);
    } else if e.undo.records != [] {
      SequencedMatches(e.text, e.undo.records, c.past, e.bufferSize);
      SameMarksFlag(e.undo.records, c.joined);
    }
  }

  lemma UndoRefines(e: Editor, c: Copies)
    requires Matches(e, c)
    ensures var next := Reference(c, UndoAction, e.bufferSize);
      && (Admissible(e, UndoAction) ==> Matches(Undo(e), next))
      && (HasRoom(e, UndoAction) ==> (Undo(e).text == next.text <==> Admissible(e, UndoAction)))
  {
    if c.past != [] {
      hide Undo, UndoAll, Exactly, Reached, History, Roomy, PushAll, Reverse;
      var k := GroupOf(c.joined);
      UndoReached(e, c);
      if Admissible(e, UndoAction) { UndoMatches(e, c); }
      if HasRoom(e, UndoAction) { UndoExact(e, c); }
    }
  }

  /** In a buffer with room, an undo shows the reference's text if and only if every record of the group is undone
      exactly. */
  lemma UndoExact(e: Editor, c: Copies)
    requires Matches(e, c) && c.past != [] && HasRoom(e, UndoAction)
    ensures var k := GroupOf(c.joined);
      && (Undo(e).text == c.past[k] <==> Reached(e.text, e.undo.records, c.past, k))
      && Undo(e).changed == !e.undo.records[k].WasUnchanged()
  {
    hide Undo, UndoAll, Reached, Roomy, Leads;
    var k, records := GroupOf(c.joined), e.undo.records;
    SameGroup(records, c.joined);
    UndoTakes(e);
    HistoryNewest(e.text, records, c.past, e.bufferSize, k);
    ReachedNewest(e.text, records, c.past, k);
    UndoAllExact(PoppedUndo(e), Undoing, records[k..], c.past[k..]);
    assert records[k..][0] == records[k] && c.past[k..][0] == c.past[k];
  }

  lemma RedoRefines(e: Editor, c: Copies)
    requires Matches(e, c)
    ensures var next := Reference(c, RedoAction, e.bufferSize);
      && (Admissible(e, RedoAction) ==> Matches(Redo(e), next))
      && (HasRoom(e, RedoAction) ==> (Redo(e).text == next.text <==> Admissible(e, RedoAction)))
  {
    if c.future != [] {
      hide Redo, UndoAll, Exactly, Exact, Roomy, NothingFits;
      RedoReached(e, c);
      RedoPassesCopy(e, c);
      if Admissible(e, RedoAction) { RedoMatches(e, c); }
      if HasRoom(e, RedoAction) { RoomForOne(e); }
    }
  }

  lemma RoomForOne(e: Editor)
    requires e.redo.records != [] && Unsequenced(e.redo.records) && HasRoom(e, RedoAction)
    ensures !NothingFits(e.text, e.redo.records[|e.redo.records| - 1], e.bufferSize)
  {
    hide UndoIt, Overhang;
    RedoTakes(e);
  }

  /** Every command that does what it promises keeps the editor in step with the reference; in a buffer with room no
      other command does. */
  lemma CommandRefines(e: Editor, c: Copies, command: Command)
    requires Matches(e, c) && Accepted(e.text, command)
    ensures var e', c' := Exec(e, command), Reference(c, command, e.bufferSize);
      && (Admissible(e, command) ==> Matches(e', c'))
      && (HasRoom(e, command) ==> (e'.text == c'.text <==> Admissible(e, command)))
  {
    hide Undo, Redo, Exactly, Roomy, InsertChars, DelChars;
    if command.UndoAction? { UndoRefines(e, c); }
    else if command.RedoAction? { RedoRefines(e, c); }
    else { EditRefines(e, c, command); }
  }

  // ----- whole runs -----

  ghost predicate AdmissibleRun(e: Editor, commands: seq<Command>)
    decreases commands
  {
    commands != [] ==> Admissible(e, commands[0]) && AdmissibleRun(Exec(e, commands[0]), commands[1..])
  }

  /** The editor after some commands, up to one that it does not accept. */
  function ExecRun(e: Editor, commands: seq<Command>): Editor
    decreases commands
  {
    if commands == [] || !Accepted(e.text, commands[0]) then e else ExecRun(Exec(e, commands[0]), commands[1..])
  }

  ghost function ReferenceRun(c: Copies, commands: seq<Command>, bufferSize: nat): Copies
    decreases commands
  {
    if commands == [] || !Accepted(c.text, commands[0]) || |c.joined| != |c.past| then c
    else ReferenceRun(Reference(c, commands[0], bufferSize), commands[1..], bufferSize)
  }

  /** The editor accepts the commands, and after each of them shows the text of the reference. */
  ghost predicate ShowsCopies(e: Editor, c: Copies, commands: seq<Command>)
    decreases commands
  {
    commands != [] ==>
      && Accepted(e.text, commands[0]) && Accepted(c.text, commands[0]) && |c.joined| == |c.past|
      && var e', c' := Exec(e, commands[0]), Reference(c, commands[0], e.bufferSize);
         e'.text == c'.text && ShowsCopies(e', c', commands[1..])
  }

  ghost predicate RoomyRun(e: Editor, commands: seq<Command>)
    decreases commands
  {
    commands != [] && Accepted(e.text, commands[0]) ==>
      HasRoom(e, commands[0]) && RoomyRun(Exec(e, commands[0]), commands[1..])
  }

  lemma {:induction false} BufferSizeKept(e: Editor, mode: Mode, records: seq<Record>)
    ensures UndoAll(e, mode, records).bufferSize == e.bufferSize
    decreases records
  {
    if records != [] && Fits(e.text, records[0]) { BufferSizeKept(UndoIt(e, mode, records[0]), mode, records[1..]); }
  }

  lemma ExecKeepsSize(e: Editor, command: Command)
    requires Accepted(e.text, command)
    ensures Exec(e, command).bufferSize == e.bufferSize
  {
    hide UndoAll;
    if command.UndoAction? { BufferSizeKept(PoppedUndo(e), Undoing, Undone(e.undo.records)); }
    if command.RedoAction? { BufferSizeKept(PoppedRedo(e), Redoing, Undone(e.redo.records)); }
  }

  /** In every run whose undos and redos find their places on lines the editor shows exactly the text of the editor that
      keeps copies; in a buffer with room it does so in no other run. */
  lemma {:induction false} EditorRefinesCopies(e: Editor, c: Copies, commands: seq<Command>)
    requires Matches(e, c)
    ensures AdmissibleRun(e, commands) ==> Matches(ExecRun(e, commands), ReferenceRun(c, commands, e.bufferSize))
    ensures RoomyRun(e, commands) ==> (ShowsCopies(e, c, commands) <==> AdmissibleRun(e, commands))
    decreases commands
  {
    hide Exec, Reference, Admissible, HasRoom, Leads, Unsequenced;
    if commands != [] && Accepted(e.text, commands[0]) {
      CommandRefines(e, c, commands[0]);
      ExecKeepsSize(e, commands[0]);
      if Admissible(e, commands[0]) {
        EditorRefinesCopies(Exec(e, commands[0]), Reference(c, commands[0], e.bufferSize), commands[1..]);
      }
    } else if commands != [] {
      NotAdmissible(e, commands[0]);
    }
  }

  lemma NotAdmissible(e: Editor, command: Command)
    requires !Accepted(e.text, command)
    ensures !Admissible(e, command)
  {
  }

  /** A new editor with a text that fits the buffer. */
  function Opened(text: string, bufferSize: nat): Editor
  {
    Editor(text, false, EMPTY_LOG, EMPTY_LOG, bufferSize, 1)
  }

  function OpenedCopies(text: string): Copies
  {
    Copies(text, [], [], [])
  }

  lemma OpenedMatches(text: string, bufferSize: nat)
    requires |text| < bufferSize
    ensures Matches(Opened(text, bufferSize), OpenedCopies(text))
  {
  }

  /** An undo or redo shows the texts of the reference one after another if and only if every record has its place on a
      line when its turn comes, or has nothing to put back and no room for spaces. */
  lemma UndoPassesCopies(e: Editor, c: Copies)
    requires Matches(e, c) && c.past != []
    ensures var k := GroupOf(c.joined);
      Trace(PoppedUndo(e), Undoing, Undone(e.undo.records)) == Reverse(c.past[k..])
      <==> Harmless(e.text, e.undo.records[k..], c.past[k..], 0, e.bufferSize)
  {
    hide Trace, Harmless, Leads;
    var k := GroupOf(c.joined);
    SameGroup(e.undo.records, c.joined);
    HistoryNewest(e.text, e.undo.records, c.past, e.bufferSize, k);
    TraceExact(PoppedUndo(e), Undoing, e.undo.records[k..], c.past[k..]);
  }

  lemma RedoPassesCopy(e: Editor, c: Copies)
    requires Matches(e, c) && c.future != []
    ensures var n := |c.future| - 1; var r := e.redo.records[n];
      Redo(e).text == c.future[n] <==> Exact(e.text, r) || NothingFits(e.text, r, e.bufferSize)
  {
    hide Redo, UndoIt, Exact, NothingFits;
    var n := |c.future| - 1;
    HistoryPop(e.text, e.redo.records, c.future, e.bufferSize);
    RedoTakes(e);
    UndoItExact(PoppedRedo(e), Redoing, e.redo.records[n], c.future[n]);
  }
}
