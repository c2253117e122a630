/** The changed state: an editor that is not marked as changed should show the text that was saved last. It does not
    always; here is exactly when. */
module EditorPromises {
  import opened Sequences
  import opened UndoLog
  import opened Editor
  import opened EditorHistory
  import opened EditorStray
  import opened EditorReference
  import opened EditorPlaces

  /** Every record that is marked WAS_UNCHANGED, and that exact undoing or redoing can get to, leads to the saved text. */
  ghost predicate Marked(text: string, records: seq<Record>, past: seq<string>, saved: string)
  {
    && |records| == |past|
    && forall i {:trigger records[i]} ::
      0 <= i < |records| && records[i].WasUnchanged() && Reached(text, records, past, i) ==> past[i] == saved
  }

  /** An unchanged editor shows the saved text, and so will every undo or redo that makes it unchanged. */
  ghost predicate Honest(e: Editor, c: Copies, saved: string)
  {
    && (!e.changed ==> e.text == saved)
    && Marked(e.text, e.undo.records, c.past, saved) && Marked(e.text, e.redo.records, c.future, saved)
  }

  // ----- marks under the operations of a register -----

  lemma MarkedAppend(text: string, records: seq<Record>, past: seq<string>, saved: string, r: Record, newText: string)
    requires Marked(text, records, past, saved) && (r.WasUnchanged() ==> text == saved)
    ensures Marked(newText, records + [r], past + [text], saved)
  {
    var rs, ps, n := records + [r], past + [text], |records|;
    assert rs[..n] == records && ps[..n] == past;
    forall i | 0 <= i < |rs| && rs[i].WasUnchanged() && Reached(newText, rs, ps, i) ensures ps[i] == saved {
      if i < n {
        ReachedPop(newText, rs, ps, i);
        assert records[i].WasUnchanged();
      }
    }
  }

  lemma MarkedNewest(text: string, records: seq<Record>, past: seq<string>, saved: string, k: nat)
    requires k < |records| && Marked(text, records, past, saved)
    ensures Marked(text, records[k..], past[k..], saved)
  {
    var rs, ps := records[k..], past[k..];
    forall i | 0 <= i < |rs| && rs[i].WasUnchanged() && Reached(text, rs, ps, i) ensures ps[i] == saved {
      assert records[k + i].WasUnchanged();
      ReachedNewest(text, records, past, k + i);
      ReachedNewest(text, rs, ps, i);
      assert rs[i..] == records[k + i..] && ps[i..] == past[k + i..];
    }
  }

  lemma MarkedPush(text: string, records: seq<Record>, past: seq<string>, saved: string, size: nat, r: Record, newText: string)
    requires Marked(text, records, past, saved) && (r.WasUnchanged() ==> text == saved)
    ensures Marked(newText, Pushed(size, records, r), Pushed(size, past, text), saved)
  {
    MarkedAppend(text, records, past, saved, r, newText);
    if |records| > 0 { MarkedNewest(newText, records + [r], past + [text], saved, 1); }
  }

  lemma MarkedPop(text: string, records: seq<Record>, past: seq<string>, saved: string)
    requires records != [] && Marked(text, records, past, saved) && Exact(text, records[|records| - 1])
    ensures Marked(past[|records| - 1], records[..|records| - 1], past[..|records| - 1], saved)
  {
    var n := |records| - 1;
    var rs, ps := records[..n], past[..n];
    forall i | 0 <= i < n && rs[i].WasUnchanged() && Reached(past[n], rs, ps, i) ensures ps[i] == saved {
      assert records[i].WasUnchanged();
      ReachedPop(text, records, past, i);
    }
  }

  lemma NewestExact(text: string, records: seq<Record>, past: seq<string>, k: nat)
    requires k < |records| == |past| && Reached(text, records, past, k)
    ensures Exact(text, records[|records| - 1])
  {
    hide Exact;
    assert After(text, past, |records| - 1) == text;
  }

  lemma {:induction false} MarkedOldest(text: string, records: seq<Record>, past: seq<string>, saved: string, k: nat)
    requires k < |records| && Marked(text, records, past, saved) && Reached(text, records, past, k)
    ensures Marked(past[k], records[..k], past[..k], saved)
    decreases |records|
  {
    assert |records| == |past|;
    hide Marked, Exact;
    var n := |records| - 1;
    ReachedPop(text, records, past, k);
    NewestExact(text, records, past, k);
    MarkedPop(text, records, past, saved);
    if k < n {
      hide Reached;
      MarkedOldest(past[n], records[..n], past[..n], saved, k);
      SplitLastFrom(records, k);
      SplitLastFrom(past, k);
    }
  }

  lemma {:induction false} UndoAllMarked(e: Editor, mode: Mode, records: seq<Record>, past: seq<string>,
                                         otherPast: seq<string>, saved: string)
    requires !mode.Normal? && History(e.text, records, past, e.bufferSize) && Reached(e.text, records, past, 0)
    requires History(e.text, Other(e, mode).records, otherPast, e.bufferSize)
    requires (!e.changed ==> e.text == saved) && Marked(e.text, records, past, saved)
    requires Marked(e.text, Other(e, mode).records, otherPast, saved)
    ensures var e' := UndoAll(e, mode, Reverse(records));
      && (!e'.changed ==> e'.text == saved)
      && Marked(e'.text, Other(e', mode).records, PushAll(SizeOfOther(mode), otherPast, e.text, past), saved)
    decreases records
  {
    hide UndoIt, Exact, Leads;
    if records != [] {
      hide UndoAll, Reverse, History;
      var n := |records| - 1;
      NewestReached(e, records, past);
      var next, i := UndoNewest(e, mode, records, past, otherPast);
      TopMark(e.text, records, past, saved);
      MarkedPush(e.text, Other(e, mode).records, otherPast, saved, SizeOfOther(mode), i, past[n]);
      MarkedPop(e.text, records, past, saved);
      UndoAllMarked(next, mode, records[..n], past[..n], Pushed(SizeOfOther(mode), otherPast, e.text), saved);
    }
  }

  lemma NewestReached(e: Editor, records: seq<Record>, past: seq<string>)
    requires records != [] && |records| == |past| && Reached(e.text, records, past, 0)
    ensures var n := |records| - 1; Exact(e.text, records[n]) && Reached(past[n], records[..n], past[..n], 0)
  {
    hide Exact;
    ReachedPop(e.text, records, past, 0);
  }

  lemma TopMark(text: string, records: seq<Record>, past: seq<string>, saved: string)
    requires records != [] && Marked(text, records, past, saved) && Exact(text, records[|records| - 1])
    ensures records[|records| - 1].WasUnchanged() ==> past[|records| - 1] == saved
  {
    var n := |records| - 1;
    assert Reached(text, records, past, n);
  }

  // ----- every command but saving keeps the promise -----

  lemma UndoHonest(e: Editor, c: Copies, saved: string)
    requires Matches(e, c) && Honest(e, c, saved) && c.past != []
    requires Reached(e.text, e.undo.records, c.past, GroupOf(c.joined))
    ensures Honest(Undo(e), Reference(c, UndoAction, e.bufferSize), saved)
  {
    hide Undo, Reached, Marked, PushAll, Leads;
    var k := GroupOf(c.joined);
    UndoneRegisters(e, c, k);
    MarkedOldest(e.text, e.undo.records, c.past, saved, k);
    UndoneMarked(e, c, saved, k);
  }

  /** The marks an undo leaves for redo. */
  lemma UndoneMarked(e: Editor, c: Copies, saved: string, k: nat)
    requires Matches(e, c) && Honest(e, c, saved) && c.past != [] && k == GroupOf(c.joined)
    requires Reached(e.text, e.undo.records, c.past, k)
    ensures var u := Undo(e);
      && (!u.changed ==> u.text == saved)
      && Marked(u.text, u.redo.records, PushAll(REDO_BUFFER_SIZE, c.future, c.text, c.past[k..]), saved)
  {
    hide Undo, UndoAll, Reverse, Reached, Marked, PushAll, Leads;
    var records := e.undo.records;
    SameGroup(records, c.joined);
    UndoTakes(e);
    HistoryNewest(e.text, records, c.past, e.bufferSize, k);
    ReachedNewest(e.text, records, c.past, k);
    MarkedNewest(e.text, records, c.past, saved, k);
    UndoAllMarked(PoppedUndo(e), Undoing, records[k..], c.past[k..], c.future, saved);
  }

  lemma RedoHonest(e: Editor, c: Copies, saved: string)
    requires Matches(e, c) && Honest(e, c, saved) && c.future != [] && Exact(e.text, e.redo.records[|c.future| - 1])
    ensures Honest(Redo(e), Reference(c, RedoAction, e.bufferSize), saved)
  {
    hide Redo, UndoIt, Exact, Marked, Inverse, Leads;
    var n, records := |c.future| - 1, e.redo.records;
    var i := RedoneRecord(e, c);
    RedoMatches(e, c);
    MarkedPop(e.text, records, c.future, saved);
    TopMark(e.text, records, c.future, saved);
    MarkedPush(e.text, e.undo.records, c.past, saved, UNDO_BUFFER_SIZE, i, c.future[n]);
  }

  /** The record that a redo brings to the undo register. */
  lemma RedoneRecord(e: Editor, c: Copies) returns (i: Record)
    requires Matches(e, c) && c.future != [] && Exact(e.text, e.redo.records[|c.future| - 1])
    ensures Redo(e).undo.records == Pushed(UNDO_BUFFER_SIZE, e.undo.records, i) && i.WasUnchanged() == !e.changed
  {
    hide Redo, UndoIt, Exact, Inverse;
    var n, r := |c.future| - 1, e.redo.records[|c.future| - 1];
    RedoTakes(e);
    HistoryPop(e.text, e.redo.records, c.future, e.bufferSize);
    UndoItLeads(PoppedRedo(e), Redoing, r, c.future[n]);
    i := Inverse(PoppedRedo(e), r);
    InverseMarks(PoppedRedo(e), r);
  }

  lemma EditHonest(e: Editor, c: Copies, saved: string, r: Record, e': Editor)
    requires Honest(e, c, saved) && EditedBy(e, r, e') && e.text == c.text
    ensures Honest(e', Edited(c, e'.text), saved)
  {
    MarkedPush(e.text, e.undo.records, c.past, saved, UNDO_BUFFER_SIZE, Flagged(e, r), e'.text);
  }

  lemma FlagMarked(text: string, records: seq<Record>, past: seq<string>, saved: string)
    requires records != [] && Marked(text, records, past, saved)
    ensures Marked(text, FlagTop(records), past, saved)
  {
    var rs := FlagTop(records);
    forall j | 0 <= j < |rs| ensures rs[j].WasUnchanged() == records[j].WasUnchanged() {
    }
    forall i | 0 <= i < |rs| && rs[i].WasUnchanged() && Reached(text, rs, past, i) ensures past[i] == saved {
      forall j | i <= j < |records| ensures Exact(After(text, past, j), records[j]) {
        assert Exact(After(text, past, j), rs[j]);
      }
      assert records[i].WasUnchanged();
    }
  }

  lemma CommandHonest(e: Editor, c: Copies, saved: string, command: Command)
    requires Matches(e, c) && Honest(e, c, saved) && Admissible(e, command) && !command.SaveText?
    ensures Honest(Exec(e, command), Reference(c, command, e.bufferSize), saved)
  {
    hide Undo, Redo, Exactly, Exact, Reached, Marked, Leads, PushAll, InsertChars, DelChars;
    NothingToTake(e);
    if IsEdit(command) {
      EditReference(e, c, command);
      if !DoesNothing(e, command) {
        var r := EditLeads(e, command);
        EditHonest(e, c, saved, r, Exec(e, command));
      }
    } else if command.Sequence? {
      if e.undo.records != [] { FlagMarked(e.text, e.undo.records, c.past, saved); }
    } else if command.UndoAction? {
      if c.past != [] {
        UndoReached(e, c);
        UndoHonest(e, c, saved);
      }
    } else if c.future != [] {
      RedoReached(e, c);
      RedoHonest(e, c, saved);
    }
  }

  // ----- what saving promises -----

  ghost predicate NoSave(commands: seq<Command>)
  {
    forall i :: 0 <= i < |commands| ==> !commands[i].SaveText?
  }

  /** Until the next save, as long as undos and redos find their places on lines, an editor that says that nothing has
      changed shows the saved text. (`StrayUndoAfterSave` is about the first undo that does not.) */
  ghost predicate PromiseKept(e: Editor, saved: string)
  {
    forall commands :: AdmissibleRun(e, commands) && NoSave(commands) && !ExecRun(e, commands).changed ==>
      ExecRun(e, commands).text == saved
  }

  lemma {:induction false} HonestRun(e: Editor, c: Copies, saved: string, commands: seq<Command>)
    requires Matches(e, c) && Honest(e, c, saved) && AdmissibleRun(e, commands) && NoSave(commands)
    ensures !ExecRun(e, commands).changed ==> ExecRun(e, commands).text == saved
    decreases commands
  {
    hide Exec, Reference, Admissible, HasRoom, Leads, Unsequenced, Honest;
    NowHonest(e, c, saved);
    if commands != [] {
      AdmissibleAccepted(e, commands[0]);
      CommandRefines(e, c, commands[0]);
      ExecKeepsSize(e, commands[0]);
      CommandHonest(e, c, saved, commands[0]);
      HonestRun(Exec(e, commands[0]), Reference(c, commands[0], e.bufferSize), saved, commands[1..]);
    }
  }

  lemma NowHonest(e: Editor, c: Copies, saved: string)
    requires Honest(e, c, saved)
    ensures !e.changed ==> e.text == saved
  {
  }

  lemma AdmissibleAccepted(e: Editor, command: Command)
    requires Admissible(e, command)
    ensures Accepted(e.text, command)
  {
  }

  lemma RunCons(e: Editor, command: Command, rest: seq<Command>)
    requires Admissible(e, command) && AdmissibleRun(Exec(e, command), rest) && NoSave(rest) && !command.SaveText?
    ensures var all := [command] + rest;
      AdmissibleRun(e, all) && NoSave(all) && ExecRun(e, all) == ExecRun(Exec(e, command), rest)
  {
    hide Exec;
    var all := [command] + rest;
    assert all[0] == command && all[1..] == rest;
    AdmissibleAccepted(e, command);
  }

  /** Redoing down to record `i`, as a run. */
  lemma {:induction false} RedoRun(e: Editor, c: Copies, i: nat) returns (commands: seq<Command>)
    requires Matches(e, c) && i < |c.future| && Reached(e.text, e.redo.records, c.future, i)
    ensures AdmissibleRun(e, commands) && NoSave(commands)
    ensures ExecRun(e, commands).text == c.future[i] && ExecRun(e, commands).changed == !e.redo.records[i].WasUnchanged()
    decreases |c.future|
  {
    hide Redo, Exactly, Exact, Reached, Leads, ExecRun, AdmissibleRun;
    var n := |c.future| - 1;
    var e' := Redo(e);
    ReachedPop(e.text, e.redo.records, c.future, i);
    RedoReached(e, c);
    RedoMatches(e, c);
    NoMore(e');
    commands := [];
    if i < n { commands := RedoRun(e', Reference(c, RedoAction, e.bufferSize), i); }
    RunCons(e, RedoAction, commands);
    commands := [RedoAction] + commands;
  }

  lemma NoMore(e: Editor)
    ensures AdmissibleRun(e, []) && NoSave([]) && ExecRun(e, []) == e
  {
  }

  lemma SavedUnmarked(e: Editor, c: Copies)
    requires Matches(e, c)
    ensures Matches(Save(e), c) && Marked(e.text, Save(e).undo.records, c.past, e.text)
  {
    CommandRefines(e, c, SaveText);
  }

  /** Saving clears the marks of the undo register only. The promise is kept until the next save if and only if no marked
      redo record that redoing can get to leads to another text than the one saved. */
  lemma SavePromise(e: Editor, c: Copies)
    requires Matches(e, c)
    ensures PromiseKept(Save(e), e.text) <==> Marked(e.text, e.redo.records, c.future, e.text)
  {
    var s := Save(e);
    SavedUnmarked(e, c);
    if Marked(e.text, e.redo.records, c.future, e.text) {
      forall commands | AdmissibleRun(s, commands) && NoSave(commands) && !ExecRun(s, commands).changed
        ensures ExecRun(s, commands).text == e.text
      {
        HonestRun(s, c, e.text, commands);
      }
    } else {
      var i :| 0 <= i < |e.redo.records| && e.redo.records[i].WasUnchanged()
               && Reached(e.text, e.redo.records, c.future, i) && c.future[i] != e.text;
      var commands := RedoRun(s, c, i);
    }
  }

  /** A run in which every save meets that condition. */
  ghost predicate CarefulRun(e: Editor, c: Copies, commands: seq<Command>)
    requires Matches(e, c) && AdmissibleRun(e, commands)
    decreases commands
  {
    if commands == [] then true
    else
      CommandRefines(e, c, commands[0]);
      && (commands[0].SaveText? ==> Marked(e.text, e.redo.records, c.future, e.text))
      && CarefulRun(Exec(e, commands[0]), Reference(c, commands[0], e.bufferSize), commands[1..])
  }

  /** A run in which every save is followed by editors that keep the promise, whatever is done. */
  ghost predicate TrustworthyRun(e: Editor, commands: seq<Command>)
    requires AdmissibleRun(e, commands)
    decreases commands
  {
    commands != [] ==>
      && (commands[0].SaveText? ==> PromiseKept(Save(e), e.text))
      && TrustworthyRun(Exec(e, commands[0]), commands[1..])
  }

  /** The careful runs are the trustworthy ones. */
  lemma {:induction false} CarefulMeansTrustworthy(e: Editor, c: Copies, commands: seq<Command>)
    requires Matches(e, c) && AdmissibleRun(e, commands)
    ensures CarefulRun(e, c, commands) <==> TrustworthyRun(e, commands)
    decreases commands
  {
    if commands != [] {
      if commands[0].SaveText? { SavePromise(e, c); }
      CommandRefines(e, c, commands[0]);
      CarefulMeansTrustworthy(Exec(e, commands[0]), Reference(c, commands[0], e.bufferSize), commands[1..]);
    }
  }

  /** The text that was saved last. */
  function LastSaved(e: Editor, saved: string, commands: seq<Command>): string
    requires AdmissibleRun(e, commands)
    decreases commands
  {
    if commands == [] then saved
    else LastSaved(Exec(e, commands[0]), if commands[0].SaveText? then e.text else saved, commands[1..])
  }

  /** In every careful run an editor that is not marked as changed shows the text that was saved last. */
  lemma {:induction false} UnchangedMeansSaved(e: Editor, c: Copies, saved: string, commands: seq<Command>)
    requires Matches(e, c) && Honest(e, c, saved) && AdmissibleRun(e, commands) && CarefulRun(e, c, commands)
    ensures !ExecRun(e, commands).changed ==> ExecRun(e, commands).text == LastSaved(e, saved, commands)
    decreases commands
  {
    if commands != [] {
      var next := Exec(e, commands[0]);
      CommandRefines(e, c, commands[0]);
      if commands[0].SaveText? {
        SavedUnmarked(e, c);
        UnchangedMeansSaved(next, c, e.text, commands[1..]);
      } else {
        CommandHonest(e, c, saved, commands[0]);
        UnchangedMeansSaved(next, Reference(c, commands[0], e.bufferSize), saved, commands[1..]);
      }
    }
  }

  // ----- the first undo that does not find its place -----

  /** Every record that is marked leads to the saved text, whether it can be got to or not. */
  ghost predicate Marks(records: seq<Record>, past: seq<string>, saved: string)
  {
    |records| == |past| && forall i :: 0 <= i < |records| && records[i].WasUnchanged() ==> past[i] == saved
  }

  lemma MarksOperations(records: seq<Record>, past: seq<string>, saved: string, size: nat, r: Record, text: string, k: nat)
    requires Marks(records, past, saved)
    ensures (r.WasUnchanged() ==> text == saved) ==> Marks(Pushed(size, records, r), Pushed(size, past, text), saved)
    ensures k <= |records| ==> Marks(records[..k], past[..k], saved)
    ensures records != [] ==> Marks(FlagTop(records), past, saved)
  {
  }

  /** In the undo register this is so after every save, and stays so. */
  lemma CommandMarks(e: Editor, c: Copies, saved: string, command: Command)
    requires Matches(e, c) && (!e.changed ==> e.text == saved) && Marks(e.undo.records, c.past, saved)
    requires Admissible(e, command) && !command.SaveText?
    ensures Marks(Exec(e, command).undo.records, Reference(c, command, e.bufferSize).past, saved)
  {
    hide Undo, Redo, Exactly, Exact, Reached, Leads, PushAll, InsertChars, DelChars, ReplaceChar, Marks, FlagTop;
    NothingToTake(e);
    var r, k := EMPTY_RECORD, 0;
    if IsEdit(command) {
      EditReference(e, c, command);
      if !DoesNothing(e, command) {
        r := EditLeads(e, command);
        r := Flagged(e, r);
      }
    } else if command.UndoAction? && c.past != [] {
      k := GroupOf(c.joined);
      UndoReached(e, c);
      UndoneRegisters(e, c, k);
    } else if command.RedoAction? && c.future != [] {
      RedoReached(e, c);
      r := RedoneRecord(e, c);
    }
    MarksOperations(e.undo.records, c.past, saved, UNDO_BUFFER_SIZE, r, e.text, k);
  }

  lemma {:induction false} MarksRun(e: Editor, c: Copies, saved: string, commands: seq<Command>)
    requires Matches(e, c) && Honest(e, c, saved) && Marks(e.undo.records, c.past, saved)
    requires AdmissibleRun(e, commands) && NoSave(commands)
    ensures Marks(ExecRun(e, commands).undo.records, ReferenceRun(c, commands, e.bufferSize).past, saved)
    decreases commands
  {
    hide Exec, Reference, Admissible, HasRoom, Leads, Unsequenced, Honest, Marks;
    NowHonest(e, c, saved);
    if commands != [] {
      AdmissibleAccepted(e, commands[0]);
      CommandRefines(e, c, commands[0]);
      ExecKeepsSize(e, commands[0]);
      CommandHonest(e, c, saved, commands[0]);
      CommandMarks(e, c, saved, commands[0]);
      MarksRun(Exec(e, commands[0]), Reference(c, commands[0], e.bufferSize), saved, commands[1..]);
    }
  }

  /** One undo of a single record, wherever its place is: it keeps the promise if and only if the record is not marked, or
      its place is on a line, or there is nothing to put back and no room for spaces. */
  lemma StrayUndo(e: Editor, c: Copies, saved: string)
    requires Matches(e, c) && c.past != [] && GroupOf(c.joined) == |c.past| - 1 && Marks(e.undo.records, c.past, saved)
    ensures var u, r := Undo(e), e.undo.records[|c.past| - 1];
      (!u.changed ==> u.text == saved)
      <==> !r.WasUnchanged() || Exact(e.text, r) || NothingFits(e.text, r, e.bufferSize)
  {
    hide Undo, UndoIt, Exact, NothingFits, Reverse, InverseExact, Stored;
    var n, records := |c.past| - 1, e.undo.records;
    SameGroup(records, c.joined);
    UndoTakes(e);
    LastAlone(records);
    HistoryPop(e.text, records, c.past, e.bufferSize);
    UndoAllOne(PoppedUndo(e), Undoing, records[n]);
    UndoItExact(PoppedUndo(e), Undoing, records[n], c.past[n]);
    var i := UndoItAnywhere(PoppedUndo(e), Undoing, records[n]);
  }

  /** After a careful save: the first undo that does not find its place keeps the promise under exactly that condition. */
  lemma StrayUndoAfterSave(e: Editor, c: Copies, commands: seq<Command>)
    requires Matches(e, c) && Marked(e.text, e.redo.records, c.future, e.text)
    requires AdmissibleRun(Save(e), commands) && NoSave(commands)
    ensures var d, cd := ExecRun(Save(e), commands), ReferenceRun(c, commands, e.bufferSize);
      && |d.undo.records| == |cd.past| == |cd.joined| && d.bufferSize == e.bufferSize
      && (cd.past != [] && GroupOf(cd.joined) == |cd.past| - 1 ==>
            var u, r := Undo(d), d.undo.records[|cd.past| - 1];
            (!u.changed ==> u.text == e.text)
            <==> !r.WasUnchanged() || Exact(d.text, r) || NothingFits(d.text, r, e.bufferSize))
  {
    hide Undo, ExecRun, ReferenceRun, AdmissibleRun, RoomyRun, Marked, Marks, Exact, NothingFits, Leads;
    SavedUnmarked(e, c);
    SavedMarks(e, c);
    MarksRun(Save(e), c, e.text, commands);
    EditorRefinesCopies(Save(e), c, commands);
    RunKeepsSize(Save(e), commands);
    var d, cd := ExecRun(Save(e), commands), ReferenceRun(c, commands, e.bufferSize);
    if cd.past != [] && GroupOf(cd.joined) == |cd.past| - 1 { StrayUndo(d, cd, e.text); }
  }

  lemma SavedMarks(e: Editor, c: Copies)
    requires Matches(e, c)
    ensures Marks(Save(e).undo.records, c.past, e.text)
  {
  }

  lemma {:induction false} RunKeepsSize(e: Editor, commands: seq<Command>)
    ensures ExecRun(e, commands).bufferSize == e.bufferSize
    decreases commands
  {
    hide Exec;
    if commands != [] && Accepted(e.text, commands[0]) {
      ExecKeepsSize(e, commands[0]);
      RunKeepsSize(Exec(e, commands[0]), commands[1..]);
    }
  }

  // ----- how the promise is broken -----

  /** Type something into a new editor anywhere but on the empty last line, save, undo, save, redo. The text shown is not
      the text saved, but the editor says that nothing has changed. */
  lemma RedoFalselyUnchanged(text: string, bufferSize: nat, line: nat, column: nat, chars: string)
    requires |text| < bufferSize && LineStart(text, line) && (line == 0 || line < |text|)
    requires InsertChars(Opened(text, bufferSize), Normal, line, column, chars).text != text
    ensures var typed := InsertChars(Opened(text, bufferSize), Normal, line, column, chars);
      var undone := Save(Undo(Save(typed))); var redone := Redo(undone);
      && !undone.changed && undone.text == text
      && !redone.changed && redone.text == typed.text != text
  {
    hide Undo, Redo, WithInsertion, OnLine, LineStart, Prespaces;
    var pos, s := PlaceOf(text, line, column), Typed(text, line, column, chars);
    CursorOnLine(text, line, pos);
    var ins := TypedAndSaved(text, bufferSize, pos, s);
    var typed := WithInsertion(Opened(text, bufferSize), Normal, pos, s);
    var inv := SingleUndone(Save(typed), ins, text);
    SingleRedone(Save(Undo(Save(typed))), inv, typed.text);
  }

  lemma TypedAndSaved(text: string, bufferSize: nat, pos: nat, s: string) returns (ins: Record)
    requires pos <= |text| && |text| + |s| < bufferSize
    ensures var typed := WithInsertion(Opened(text, bufferSize), Normal, pos, s);
      && Save(typed).undo.records == [ins] && typed.redo.records == [] && typed.bufferSize == bufferSize
      && Leads(typed.text, ins, text, bufferSize)
    ensures ins.actionType.TpIns? && ins.offset == pos && !ins.Sequenced()
  {
    ins := Flagged(Opened(text, bufferSize), Record(TpIns, 0, pos, '\0', Inserted(|s|))).Saved();
    WithWithout(text, pos, s);
  }

  lemma SingleUndone(e: Editor, r: Record, before: string) returns (inv: Record)
    requires e.undo.records == [r] && e.redo.records == [] && !r.Sequenced() && InverseExact(before, r)
    requires Leads(e.text, r, before, e.bufferSize) && Exact(e.text, r)
    ensures var u := Undo(e); u.text == before && u.bufferSize == e.bufferSize && u.redo.records == [inv]
    ensures Leads(before, inv, e.text, e.bufferSize) && Exact(before, inv) && !inv.Sequenced() && inv.WasUnchanged() == !e.changed
  {
    hide Undo, UndoIt, Exact, InverseExact, Inverse;
    GroupStartUnique([r], 0);
    LastAlone([r]);
    UndoTakes(e);
    UndoAllOne(PoppedUndo(e), Undoing, r);
    UndoItLeads(PoppedUndo(e), Undoing, r, before);
    inv := Inverse(PoppedUndo(e), r);
    InverseMarks(PoppedUndo(e), r);
  }

  lemma SingleRedone(e: Editor, r: Record, before: string)
    requires e.redo.records == [r] && !r.Sequenced() && Leads(e.text, r, before, e.bufferSize) && Exact(e.text, r)
    ensures Redo(e).text == before && Redo(e).changed == !r.WasUnchanged()
  {
    hide Redo, UndoIt, Exact, Inverse;
    RedoTakes(e);
    UndoItLeads(PoppedRedo(e), Redoing, r, before);
  }

  /** A second way: an undo that does not restore the text says that nothing has changed, too. */
  lemma UndoFalselyUnchanged(text: string, bufferSize: nat, pos: nat, count: nat, back: bool)
    requires pos + count <= |text| < bufferSize && count > 0
    requires !OnLine(DelChars(Opened(text, bufferSize), Normal, pos, count, back).text, pos)
    ensures var u := Undo(DelChars(Opened(text, bufferSize), Normal, pos, count, back)); !u.changed && u.text != text
  {
    hide Undo, OnLine, DelChars;
    DeletionUndoExact(Opened(text, bufferSize), pos, count, back);
  }
}
