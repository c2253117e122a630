/** What redo brings back after undo, in any editor and whatever an undo did to the text. */
module EditorRedo {
  import opened Sequences
  import opened UndoLog
  import opened Editor
  import opened EditorHistory
  import opened EditorStray
  import opened EditorReference

  // ----- what holds of every editor -----

  lemma NothingKnown(e: Editor, mode: Mode)
    ensures KnownExactly(e.text, Other(e, mode).records, [], e.bufferSize)
  {
  }

  lemma EditSound(e: Editor, command: Command)
    requires Sound(e) && Accepted(e.text, command) && !command.UndoAction? && !command.RedoAction?
    ensures Sound(Exec(e, command)) && Exec(e, command).bufferSize == e.bufferSize
  {
    hide LineOf, TextLength, Typed, PlaceOf;
  }

  /** No command leaves the bounds of buffer and registers, and redo records are never grouped. */
  lemma CommandSound(e: Editor, command: Command)
    requires Sound(e) && Accepted(e.text, command)
    ensures Sound(Exec(e, command)) && Exec(e, command).bufferSize == e.bufferSize
  {
    hide Undo, Redo, Sound, InsertChars, DelChars, ReplaceChar;
    if command.UndoAction? { UndoSound(e); }
    else if command.RedoAction? { RedoSound(e); }
    else { EditSound(e, command); }
  }

  lemma UndoSound(e: Editor)
    requires Sound(e)
    ensures Sound(Undo(e)) && Undo(e).bufferSize == e.bufferSize
  {
    hide UndoAll, Known, KnownExactly, Reverse;
    NothingKnownIsKnown(PoppedUndo(e), Undoing);
    UndoAllLeadsBack(PoppedUndo(e), Undoing, Undone(e.undo.records), []);
  }

  lemma RedoSound(e: Editor)
    requires Sound(e)
    ensures Sound(Redo(e)) && Redo(e).bufferSize == e.bufferSize
  {
    hide UndoAll, Known, KnownExactly, Reverse;
    NothingKnownIsKnown(PoppedRedo(e), Redoing);
    UndoAllLeadsBack(PoppedRedo(e), Redoing, Undone(e.redo.records), []);
  }

  lemma NothingKnownIsKnown(e: Editor, mode: Mode)
    ensures Known(e.text, Other(e, mode).records, [], e.bufferSize)
  {
  }

  lemma {:induction false} RunSound(e: Editor, commands: seq<Command>)
    requires Sound(e)
    ensures Sound(ExecRun(e, commands)) && ExecRun(e, commands).bufferSize == e.bufferSize
    decreases commands
  {
    hide Exec, Sound;
    if commands != [] && Accepted(e.text, commands[0]) {
      CommandSound(e, commands[0]);
      RunSound(Exec(e, commands[0]), commands[1..]);
    }
  }

  // ----- the way back -----

  /** The texts from which an undo takes back something that is registered for redo. */
  function UndoWay(e: Editor): seq<string>
  {
    Passed(PoppedUndo(e), Undoing, Undone(e.undo.records))
  }

  function RedoWay(e: Editor): seq<string>
  {
    Passed(PoppedRedo(e), Redoing, Undone(e.redo.records))
  }

  /** No insertion that the undo takes back leaves a place that is not on a line. */
  predicate UndoReturns(e: Editor)
  {
    Returns(PoppedUndo(e), Undoing, Undone(e.undo.records))
  }

  /** Whatever an undo does, even with spaces added or places lost, the redo register leads from the text it leaves back
      through all the texts it has passed, and on through the texts that were there to be redone. */
  lemma UndoLeadsBack(e: Editor, future: seq<string>)
    requires Sound(e) && Known(e.text, e.redo.records, future, e.bufferSize)
    ensures var u := Undo(e); var way := Last(future + UndoWay(e), 39);
      && Known(u.text, u.redo.records, way, e.bufferSize)
      && (KnownExactly(e.text, e.redo.records, future, e.bufferSize) && UndoReturns(e) ==>
            KnownExactly(u.text, u.redo.records, way, e.bufferSize))
  {
    hide UndoAll, Passed, Returns, Known, KnownExactly, Reverse;
    UndoAllLeadsBack(PoppedUndo(e), Undoing, Undone(e.undo.records), future);
  }

  /** The same for a redo: undo leads back, also from a text that the redo has got wrong. */
  lemma RedoLeadsBack(e: Editor, past: seq<string>)
    requires Sound(e) && Known(e.text, e.undo.records, past, e.bufferSize)
    ensures Known(Redo(e).text, Redo(e).undo.records, Last(past + RedoWay(e), 99), e.bufferSize)
  {
    hide UndoAll, Passed, Returns, Known, KnownExactly, Reverse;
    UndoAllLeadsBack(PoppedRedo(e), Redoing, Undone(e.redo.records), past);
  }

  /** The way begins at the text from which the undo started. */
  lemma {:induction false} WayBegins(e: Editor, mode: Mode, records: seq<Record>)
    requires !mode.Normal? && |e.text| < e.bufferSize
    ensures var way := Passed(e, mode, records);
      if way == [] then UndoAll(e, mode, records).text == e.text else way[0] == e.text
    decreases records
  {
    hide UndoIt, Stored;
    if records != [] && Fits(e.text, records[0]) {
      var i := UndoItAnywhere(e, mode, records[0]);
      WayBegins(UndoIt(e, mode, records[0]), mode, records[1..]);
    }
  }

  // ----- redo -----

  /** Redoing a number of times. */
  function RedoTimes(e: Editor, times: nat): Editor
    decreases times
  {
    if times == 0 then e else RedoTimes(Redo(e), times - 1)
  }

  /** Redo shows some texts, one after another, the last one first. */
  ghost predicate Shows(e: Editor, future: seq<string>)
    decreases |future|
  {
    future != [] ==> Redo(e).text == future[|future| - 1] && Shows(Redo(e), future[..|future| - 1])
  }

  /** One redo of a record whose text is known. */
  lemma OneRedo(e: Editor, future: seq<string>)
    requires Sound(e) && Known(e.text, e.redo.records, future, e.bufferSize) && future != []
    ensures var n, m := |future| - 1, |e.redo.records| - 1; var r, redone := e.redo.records[m], Redo(e);
      && (redone.text == future[n] <==> Exact(e.text, r) || NothingFits(e.text, r, e.bufferSize))
      && Sound(redone) && redone.bufferSize == e.bufferSize
      && redone.redo.records == e.redo.records[..m] && redone.changed == !r.WasUnchanged()
      && (redone.text == future[n] ==> Known(redone.text, redone.redo.records, future[..n], e.bufferSize))
  {
    hide Redo, UndoAll, UndoIt, Exact, NothingFits, Stored, InverseExact, Known, LeadsBack, Exactly;
    var n, m := |future| - 1, |e.redo.records| - 1;
    KnownPop(e.text, e.redo.records, future, e.bufferSize);
    var r := e.redo.records[m];
    RedoTakes(e);
    CommandSound(e, RedoAction);
    UndoItExact(PoppedRedo(e), Redoing, r, future[n]);
    var i := UndoItAnywhere(PoppedRedo(e), Redoing, r);
  }

  lemma KnownPop(text: string, records: seq<Record>, past: seq<string>, bufferSize: nat)
    requires Known(text, records, past, bufferSize) && past != []
    ensures var n, m := |past| - 1, |records| - 1;
      m >= 0 && Leads(text, records[m], past[n], bufferSize) && Known(past[n], records[..m], past[..n], bufferSize)
  {
    hide Leads, Last;
    HistoryPop(text, Last(records, |past|), past, bufferSize);
    LastPopped(records, |past|);
  }

  lemma LastPopped<T>(s: seq<T>, n: nat)
    requires 0 < n <= |s|
    ensures Last(s, n)[n - 1] == s[|s| - 1] && Last(s, n)[..n - 1] == Last(s[..|s| - 1], n - 1)
  {
  }

  /** Redos one after another show the known texts if and only if every record has its place on a line when its turn
      comes, or has nothing to put back and no room for spaces. */
  lemma {:induction false} RedosExact(e: Editor, future: seq<string>)
    requires Sound(e) && Known(e.text, e.redo.records, future, e.bufferSize)
    ensures Shows(e, future) <==> Harmless(e.text, Last(e.redo.records, |future|), future, 0, e.bufferSize)
    decreases |future|
  {
    hide Redo, Exact, NothingFits, Harmless, Leads, Sound, Last;
    if future == [] {
      NothingHarmful(e);
    } else {
      var n := |future| - 1;
      OneRedo(e, future);
      LastPopped(e.redo.records, n + 1);
      HarmlessPop(e.text, Last(e.redo.records, n + 1), future, 0, e.bufferSize);
      if Redo(e).text == future[n] { RedosExact(Redo(e), future[..n]); }
    }
  }

  lemma NothingHarmful(e: Editor)
    ensures Harmless(e.text, Last(e.redo.records, 0), [], 0, e.bufferSize)
  {
  }

  /** Redoing down to a known text reaches it, with the changed state of its record. */
  lemma {:induction false} RedosReach(e: Editor, future: seq<string>, times: nat)
    requires Sound(e) && KnownExactly(e.text, e.redo.records, future, e.bufferSize) && 0 < times <= |future|
    ensures var last := RedoTimes(e, times);
      && last.text == future[|future| - times] && |last.redo.records| == |e.redo.records| - times
      && last.changed == !e.redo.records[|e.redo.records| - times].WasUnchanged()
    decreases times
  {
    hide Redo, Exact, NothingFits, Leads, Sound, Last, Reached;
    var n := |future| - 1;
    OneRedo(e, future);
    LastPopped(e.redo.records, n + 1);
    ReachedPop(e.text, Last(e.redo.records, n + 1), future, 0);
    if times > 1 { RedosReach(Redo(e), future[..n], times - 1); }
  }

  // ----- undo, then redo -----

  /** How many of the texts an undo has passed can be redone. */
  function Redoable(passed: nat): nat
  {
    if passed < REDO_BUFFER_SIZE then passed else REDO_BUFFER_SIZE - 1
  }

  /** Undo and then redo go back through the texts that the undo has passed, as far as the redo register has room. If it
      has room for all of them, that ends at the text from which the undo started. */
  lemma UndoThenRedo(e: Editor, times: nat)
    requires Sound(e) && UndoReturns(e) && times <= Redoable(|UndoWay(e)|)
    ensures times > 0 ==> RedoTimes(Undo(e), times).text == UndoWay(e)[|UndoWay(e)| - times]
    ensures times == |UndoWay(e)| ==> RedoTimes(Undo(e), times).text == e.text
  {
    hide Undo, UndoWay, UndoReturns, Known, KnownExactly, Sound, Last;
    var way := UndoWay(e);
    KnownAfterUndo(e);
    if times > 0 {
      RedosReach(Undo(e), Last(way, REDO_BUFFER_SIZE - 1), times);
      LastIndex(way, REDO_BUFFER_SIZE - 1, times);
    }
    UndoWayBegins(e);
  }

  lemma LastIndex<T>(s: seq<T>, n: nat, i: nat)
    requires 0 < i <= |s| && i <= n
    ensures Last(s, n)[|Last(s, n)| - i] == s[|s| - i]
  {
  }

  /** What is known of the redo register after an undo if nothing is known of it before. */
  lemma KnownAfterUndo(e: Editor)
    requires Sound(e)
    ensures var u := Undo(e); var way := Last(UndoWay(e), REDO_BUFFER_SIZE - 1);
      && Sound(u) && u.bufferSize == e.bufferSize && Known(u.text, u.redo.records, way, e.bufferSize)
      && (UndoReturns(e) ==> KnownExactly(u.text, u.redo.records, way, e.bufferSize))
  {
    hide Undo, UndoWay, UndoReturns, Known, KnownExactly, Sound, Last;
    NothingKnown(e, Undoing);
    NothingKnownIsKnown(e, Undoing);
    UndoLeadsBack(e, []);
    assert [] + UndoWay(e) == UndoWay(e);
    CommandSound(e, UndoAction);
  }

  lemma UndoWayBegins(e: Editor)
    requires Sound(e)
    ensures if UndoWay(e) == [] then Undo(e).text == e.text else UndoWay(e)[0] == e.text
  {
    hide UndoAll, Passed;
    WayBegins(PoppedUndo(e), Undoing, Undone(e.undo.records));
  }

  /** The redos show these texts one after another if and only if the redo records have their places on lines. */
  lemma UndoThenRedoExact(e: Editor)
    requires Sound(e)
    ensures var u := Undo(e); var way := Last(UndoWay(e), REDO_BUFFER_SIZE - 1);
      && |way| <= |u.redo.records|
      && (Shows(u, way) <==> Harmless(u.text, Last(u.redo.records, |way|), way, 0, e.bufferSize))
  {
    hide Undo, UndoWay, UndoReturns, Leads, Harmless, Shows, Last, Sound;
    KnownAfterUndo(e);
    RedosExact(Undo(e), Last(UndoWay(e), REDO_BUFFER_SIZE - 1));
  }

  /** In every editor that can be reached from an opened text, by whatever commands. */
  lemma ReachableUndoThenRedo(text: string, bufferSize: nat, commands: seq<Command>, times: nat)
    requires |text| < bufferSize
    ensures var e := ExecRun(Opened(text, bufferSize), commands);
      UndoReturns(e) && times <= Redoable(|UndoWay(e)|) ==>
        && (times > 0 ==> RedoTimes(Undo(e), times).text == UndoWay(e)[|UndoWay(e)| - times])
        && (times == |UndoWay(e)| ==> RedoTimes(Undo(e), times).text == e.text)
  {
    hide ExecRun, Undo, UndoWay, UndoReturns, RedoTimes;
    RunSound(Opened(text, bufferSize), commands);
    var e := ExecRun(Opened(text, bufferSize), commands);
    if UndoReturns(e) && times <= Redoable(|UndoWay(e)|) { UndoThenRedo(e, times); }
  }

  // ----- in terms of the copies -----

  /** The texts from which a group is undone exactly: the text itself, then those of the past from the last one on. */
  function CopyWay(text: string, past: seq<string>): (way: seq<string>)
    ensures |way| == |past|
    decreases past
  {
    if past == [] then [] else [text] + CopyWay(past[|past| - 1], past[..|past| - 1])
  }

  lemma {:induction false} CopyWayAt(text: string, past: seq<string>, j: nat)
    requires j < |past|
    ensures CopyWay(text, past)[j] == if j == 0 then text else past[|past| - j]
    decreases past
  {
    if j > 0 { CopyWayAt(past[|past| - 1], past[..|past| - 1], j - 1); }
  }

  /** Undone exactly, a group passes through them. */
  lemma {:induction false} PassedCopies(e: Editor, mode: Mode, records: seq<Record>, past: seq<string>)
    requires !mode.Normal? && History(e.text, records, past, e.bufferSize) && Reached(e.text, records, past, 0)
    ensures Passed(e, mode, Reverse(records)) == CopyWay(e.text, past)
    decreases records
  {
    hide UndoIt, Exact, Leads, Inverse, InverseExact, Registered;
    if records != [] {
      hide Passed;
      var n := |records| - 1;
      HistoryPop(e.text, records, past, e.bufferSize);
      ReachedPop(e.text, records, past, 0);
      PassedNewest(e, mode, records, past[n]);
      UndoItLeads(e, mode, records[n], past[n]);
      PassedCopies(UndoIt(e, mode, records[n]), mode, records[..n], past[..n]);
    }
  }

  /** What the reference keeps for redo are the newest texts of those it had and those an undo passes. */
  lemma {:induction false} PushAllForgets(size: nat, s: seq<string>, text: string, past: seq<string>)
    requires |s| < size && size > 1
    ensures PushAll(size, s, text, past) == Last(s + CopyWay(text, past), size - 1)
    decreases past
  {
    if past == [] {
      assert s + [] == s;
    } else {
      hide Pushed, Last;
      var n := |past| - 1;
      var rest := CopyWay(past[n], past[..n]);
      PushedLast(size, s, text);
      PushAllForgets(size, Last(s + [text], size - 1), past[n], past[..n]);
      AppendAssociative(s, [text], rest);
      LastTwice(s + [text], rest, size - 1);
    }
  }

  lemma PassedNewest(e: Editor, mode: Mode, records: seq<Record>, before: string)
    requires records != [] && !mode.Normal?
    requires var r := records[|records| - 1]; Leads(e.text, r, before, e.bufferSize) && Exact(e.text, r)
    ensures var n := |records| - 1; var next := UndoIt(e, mode, records[n]);
      next.bufferSize == e.bufferSize && Passed(e, mode, Reverse(records)) == [e.text] + Passed(next, mode, Reverse(records[..n]))
  {
    hide UndoIt, Exact;
    ReverseLast(records);
    ExactStored(e, records[|records| - 1], before);
    UndoItExact(e, mode, records[|records| - 1], before);
  }

  lemma ExactStored(e: Editor, r: Record, before: string)
    requires Leads(e.text, r, before, e.bufferSize) && Exact(e.text, r)
    ensures Stored(e, r)
  {
  }

  /** The beginning of the way back from an exact undo: the text itself, or what the redo register could still hold of the
      way to it. */
  ghost function WayBack(c: Copies): string
    requires c.past != [] && |c.joined| == |c.past|
  {
    var k := GroupOf(c.joined);
    if |c.past| - k < REDO_BUFFER_SIZE then c.text else c.past[k + REDO_BUFFER_SIZE - 1]
  }

  lemma MatchesSound(e: Editor, c: Copies)
    requires Matches(e, c)
    ensures Sound(e)
  {
  }

  lemma WayBackAt(c: Copies)
    requires c.past != [] && |c.joined| == |c.past|
    ensures var past := c.past[GroupOf(c.joined)..];
      CopyWay(c.text, past)[|past| - Redoable(|past|)] == WayBack(c)
  {
    hide CopyWay, GroupOf;
    var k := GroupOf(c.joined);
    CopyWayAt(c.text, c.past[k..], |c.past| - k - Redoable(|c.past| - k));
  }

  /** In terms of the editor: what an exact undo passes are the copies. */
  lemma UndoPassesWay(e: Editor, c: Copies)
    requires Matches(e, c) && c.past != [] && Admissible(e, UndoAction)
    ensures |c.joined| == |c.past| && UndoWay(e) == CopyWay(c.text, c.past[GroupOf(c.joined)..])
  {
    hide Passed, CopyWay, Exactly, Reached, Leads, Reverse, Unsequenced;
    var k, records := GroupOf(c.joined), e.undo.records;
    UndoReached(e, c);
    SameGroup(records, c.joined);
    HistoryNewest(e.text, records, c.past, e.bufferSize, k);
    ReachedNewest(e.text, records, c.past, k);
    PassedCopies(PoppedUndo(e), Undoing, records[k..], c.past[k..]);
  }

  /** Undoing a group of any length exactly, and redoing as often as the redo register allows, ends there. */
  lemma WayBackReached(e: Editor, c: Copies)
    requires Matches(e, c) && c.past != [] && Admissible(e, UndoAction) && UndoReturns(e)
    ensures RedoTimes(Undo(e), Redoable(|c.past| - GroupOf(c.joined))).text == WayBack(c)
  {
    hide Undo, UndoWay, UndoReturns, RedoTimes, CopyWay, Leads, Sound, Unsequenced, WayBack, Admissible;
    MatchesSound(e, c);
    UndoPassesWay(e, c);
    WayBackAt(c);
    UndoThenRedo(e, Redoable(|c.past| - GroupOf(c.joined)));
  }

  /** It is the text itself if and only if the group has fewer records than the redo register has slots, or the text kept
      happens to be the same. */
  lemma WayBackExact(c: Copies)
    requires c.past != [] && |c.joined| == |c.past|
    ensures WayBack(c) == c.text <==>
      var k := GroupOf(c.joined); |c.past| - k < REDO_BUFFER_SIZE || c.past[k + REDO_BUFFER_SIZE - 1] == c.text
  {
  }
}
