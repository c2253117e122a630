/** The changed state in every run, also when undos and redos do not find their places: exactly when an editor that says
    that nothing has changed shows the saved text. */
module EditorTrails {
  import opened Sequences
  import opened UndoLog
  import opened Editor
  import opened EditorHistory
  import opened EditorStray
  import opened EditorReference
  import opened EditorRedo
  import opened EditorPlaces
  import opened EditorPromises

  // ----- the texts of single records -----

  /** The text that the action of a record left, and the text before it. */
  datatype Copy = Copy(after: string, before: string)

  /** The text `b`, or one that spaces have made longer. */
  predicate Ahead(a: string, b: string)
  {
    a == b || |a| > |b|
  }

  /** The text from which record `i` would be undone if all newer ones were undone exactly. */
  function Above(text: string, trail: seq<Copy>, i: nat): string
  {
    if i + 1 < |trail| then trail[i + 1].before else text
  }

  /** Each record leads from its own text after to its own text before; the texts shown between may have got longer. */
  ghost predicate Tracks(text: string, records: seq<Record>, trail: seq<Copy>, bufferSize: nat)
  {
    && |trail| == |records|
    && forall i {:trigger records[i]} :: 0 <= i < |records| ==>
      Leads(trail[i].after, records[i], trail[i].before, bufferSize) && Ahead(Above(text, trail, i), trail[i].after)
  }

  ghost predicate MarksTrail(records: seq<Record>, trail: seq<Copy>, saved: string)
  {
    |trail| == |records| && forall i :: 0 <= i < |records| && records[i].WasUnchanged() ==> trail[i].before == saved
  }

  lemma TracksPush(text: string, records: seq<Record>, trail: seq<Copy>, bufferSize: nat, newText: string, r: Record, size: nat)
    requires Tracks(text, records, trail, bufferSize) && Leads(newText, r, text, bufferSize)
    ensures Tracks(newText, Pushed(size, records, r), Pushed(size, trail, Copy(newText, text)), bufferSize)
  {
    hide Leads, Ahead;
    var rs, ts := records + [r], trail + [Copy(newText, text)];
    AheadSame(newText);
    forall i | 0 <= i < |rs|
      ensures Leads(ts[i].after, rs[i], ts[i].before, bufferSize) && Ahead(Above(newText, ts, i), ts[i].after)
    {
      if i < |records| { assert Above(newText, ts, i) == Above(text, trail, i) && rs[i] == records[i]; }
    }
    forall i | 0 <= i < |rs| - 1 ensures Above(newText, ts[1..], i) == Above(newText, ts, i + 1) && rs[1..][i] == rs[i + 1] {
    }
  }

  lemma AheadSame(t: string)
    ensures Ahead(t, t)
  {
  }

  lemma TracksPop(text: string, records: seq<Record>, trail: seq<Copy>, bufferSize: nat, newText: string, k: nat)
    requires k < |records| && Tracks(text, records, trail, bufferSize) && Ahead(newText, trail[k].before)
    ensures Tracks(newText, records[..k], trail[..k], bufferSize)
  {
    hide Leads;
    forall i | 0 <= i < k
      ensures Leads(trail[..k][i].after, records[..k][i], trail[..k][i].before, bufferSize)
      ensures Ahead(Above(newText, trail[..k], i), trail[..k][i].after)
    {
      assert Ahead(Above(text, trail, i), trail[i].after) by { assert records[i] == records[..k][i]; }
    }
  }

  lemma TracksNewest(text: string, records: seq<Record>, trail: seq<Copy>, bufferSize: nat, k: nat)
    requires k <= |records| && Tracks(text, records, trail, bufferSize)
    ensures Tracks(text, records[k..], trail[k..], bufferSize)
  {
    hide Leads, Ahead;
    var rs, ts := records[k..], trail[k..];
    forall i | 0 <= i < |rs| ensures Leads(ts[i].after, rs[i], ts[i].before, bufferSize) && Ahead(Above(text, ts, i), ts[i].after) {
      assert Above(text, ts, i) == Above(text, trail, k + i) && rs[i] == records[k + i];
    }
  }

  lemma MarksOfTrail(records: seq<Record>, trail: seq<Copy>, saved: string, size: nat, r: Record, copy: Copy, k: nat)
    requires MarksTrail(records, trail, saved)
    ensures (r.WasUnchanged() ==> copy.before == saved) ==> MarksTrail(Pushed(size, records, r), Pushed(size, trail, copy), saved)
    ensures k <= |records| ==> MarksTrail(records[..k], trail[..k], saved) && MarksTrail(records[k..], trail[k..], saved)
    ensures records != [] ==> MarksTrail(FlagTop(records), trail, saved)
  {
  }

  // ----- one record -----

  /** Undoing a record from its text or a longer one, with room: the text before is reached from the text itself, on a
      line, and in no other way; otherwise the text reached is longer. */
  lemma StepAhead(e: Editor, mode: Mode, r: Record, copy: Copy)
    requires !mode.Normal? && Leads(copy.after, r, copy.before, e.bufferSize) && Ahead(e.text, copy.after) && |e.text| < e.bufferSize
    ensures Fits(e.text, r)
    ensures Stored(e, r) ==> var u := UndoIt(e, mode, r);
      (u.text == copy.before <==> e.text == copy.after && Exact(e.text, r)) && Ahead(u.text, copy.before)
  {
    if Stored(e, r) {
      hide UndoIt, Stored, Exact, Overhang, LineOf, With, Without;
      var i := UndoItAnywhere(e, mode, r);
      if e.text == copy.after { UndoItExact(e, mode, r, copy.before); }
      if e.text == copy.after && !Exact(e.text, r) { StrayOverhang(e.text, r); RoomForSpaces(e, r); }
    }
  }

  lemma RoomForSpaces(e: Editor, r: Record)
    requires Fits(e.text, r) && Stored(e, r)
    ensures !NothingFits(e.text, r, e.bufferSize)
  {
  }

  // ----- a group -----

  ghost predicate Claims(e: Editor, saved: string)
  {
    !e.changed ==> e.text == saved
  }

  /** The claim holds after each record that is undone. */
  ghost predicate ClaimsWhile(e: Editor, mode: Mode, records: seq<Record>, saved: string)
    decreases records
  {
    records != [] && Fits(e.text, records[0]) ==>
      var next := UndoIt(e, mode, records[0]);
      Claims(next, saved) && ClaimsWhile(next, mode, records[1..], saved)
  }

  /** Every marked record is undone from the text that its action left, and finds its place on a line of it. */
  ghost predicate Straight(e: Editor, mode: Mode, records: seq<Record>, trail: seq<Copy>)
    requires |records| == |trail|
    decreases records
  {
    records != [] ==>
      var n := |records| - 1; var r := records[n];
      && (r.WasUnchanged() ==> e.text == trail[n].after && Exact(e.text, r))
      && (Fits(e.text, r) ==> Straight(UndoIt(e, mode, r), mode, records[..n], trail[..n]))
  }

  /** The texts of the records that undoing leaves in the other register. */
  function TrailBack(e: Editor, mode: Mode, records: seq<Record>, trail: seq<Copy>): seq<Copy>
    decreases records
  {
    if records == [] || !Fits(e.text, records[0]) then trail
    else
      var next := UndoIt(e, mode, records[0]);
      TrailBack(next, mode, records[1..], Pushed(SizeOfOther(mode), trail, Copy(next.text, e.text)))
  }

  /** One round of undoing a group. */
  lemma RoundTracked(e: Editor, mode: Mode, records: seq<Record>, trail: seq<Copy>, other: seq<Copy>, saved: string)
    returns (next: Editor, pushed: seq<Copy>)
    requires !mode.Normal? && records != [] && |e.text| < e.bufferSize && Tracks(e.text, records, trail, e.bufferSize)
    requires Tracks(e.text, Other(e, mode).records, other, e.bufferSize) && Roomy(e, mode, Reverse(records))
    ensures var n := |records| - 1; var r := records[n];
      && Fits(e.text, r) && next == UndoIt(e, mode, r) && next.changed == !r.WasUnchanged()
      && |next.text| < e.bufferSize == next.bufferSize && Source(next, mode) == Source(e, mode)
      && (next.text == trail[n].before <==> e.text == trail[n].after && Exact(e.text, r)) && Ahead(next.text, trail[n].before)
      && Tracks(next.text, records[..n], trail[..n], e.bufferSize)
      && Tracks(next.text, Other(next, mode).records, pushed, e.bufferSize) && Roomy(next, mode, Reverse(records[..n]))
      && UndoAll(e, mode, Reverse(records)) == UndoAll(next, mode, Reverse(records[..n]))
      && TrailBack(e, mode, Reverse(records), other) == TrailBack(next, mode, Reverse(records[..n]), pushed)
      && (ClaimsWhile(e, mode, Reverse(records), saved)
          <==> Claims(next, saved) && ClaimsWhile(next, mode, Reverse(records[..n]), saved))
      && (MarksTrail(Other(e, mode).records, other, saved) && Claims(e, saved) ==>
            MarksTrail(Other(next, mode).records, pushed, saved))
      && (|Other(e, mode).records| < SizeOfOther(mode) ==> |Other(next, mode).records| < SizeOfOther(mode))
      && (Unsequenced(Other(e, mode).records) ==> Unsequenced(Other(next, mode).records))
  {
    hide UndoIt, Leads, Exact, Stored, Ahead, MarksTrail, Reverse, InverseExact;
    var n := |records| - 1;
    var r := records[n];
    ReverseLast(records);
    assert Leads(trail[n].after, r, trail[n].before, e.bufferSize) && Ahead(Above(e.text, trail, n), trail[n].after);
    StepAhead(e, mode, r, trail[n]);
    next := UndoIt(e, mode, r);
    var i := UndoItAnywhere(e, mode, r);
    pushed := Pushed(SizeOfOther(mode), other, Copy(next.text, e.text));
    TracksPop(e.text, records, trail, e.bufferSize, next.text, n);
    TracksPush(e.text, Other(e, mode).records, other, e.bufferSize, next.text, i, SizeOfOther(mode));
    if MarksTrail(Other(e, mode).records, other, saved) {
      MarksOfTrail(Other(e, mode).records, other, saved, SizeOfOther(mode), i, Copy(next.text, e.text), 0);
    }
  }

  /** Undoing a group keeps both registers in step with their texts. */
  lemma {:induction false} GroupTracked(e: Editor, mode: Mode, records: seq<Record>, trail: seq<Copy>, other: seq<Copy>)
    requires !mode.Normal? && |e.text| < e.bufferSize && Tracks(e.text, records, trail, e.bufferSize)
    requires Tracks(e.text, Other(e, mode).records, other, e.bufferSize) && Roomy(e, mode, Reverse(records))
    ensures var u := UndoAll(e, mode, Reverse(records));
      && |u.text| < e.bufferSize == u.bufferSize && Source(u, mode) == Source(e, mode)
      && (records != [] ==> Ahead(u.text, trail[0].before))
      && Tracks(u.text, Other(u, mode).records, TrailBack(e, mode, Reverse(records), other), e.bufferSize)
      && (|Other(e, mode).records| < SizeOfOther(mode) ==> |Other(u, mode).records| < SizeOfOther(mode))
      && (Unsequenced(Other(e, mode).records) ==> Unsequenced(Other(u, mode).records))
    decreases records
  {
    hide UndoIt, Tracks, Ahead, Exact, Unsequenced, Fits, Roomy;
    TracksLength(e.text, records, trail, e.bufferSize);
    if records != [] {
      hide UndoAll, TrailBack, Reverse;
      var next, pushed := RoundTracked(e, mode, records, trail, other, "");
      GroupTracked(next, mode, records[..|records| - 1], trail[..|records| - 1], pushed);
    }
  }

  lemma TracksLength(text: string, records: seq<Record>, trail: seq<Copy>, bufferSize: nat)
    requires Tracks(text, records, trail, bufferSize)
    ensures |trail| == |records|
  {
  }

  /** While a group is undone the claim holds if and only if the marked records are undone straight. */
  lemma {:induction false} GroupClaims(e: Editor, mode: Mode, records: seq<Record>, trail: seq<Copy>, other: seq<Copy>, saved: string)
    requires !mode.Normal? && |e.text| < e.bufferSize && Tracks(e.text, records, trail, e.bufferSize)
    requires Tracks(e.text, Other(e, mode).records, other, e.bufferSize) && Roomy(e, mode, Reverse(records))
    requires Claims(e, saved) && MarksTrail(records, trail, saved) && MarksTrail(Other(e, mode).records, other, saved)
    ensures ClaimsWhile(e, mode, Reverse(records), saved) <==> Straight(e, mode, records, trail)
    ensures ClaimsWhile(e, mode, Reverse(records), saved) ==>
      var u := UndoAll(e, mode, Reverse(records));
      Claims(u, saved) && MarksTrail(Other(u, mode).records, TrailBack(e, mode, Reverse(records), other), saved)
    decreases records
  {
    hide UndoIt, Tracks, Ahead, Exact, Fits, Roomy;
    if records != [] {
      hide UndoAll, TrailBack, Reverse, ClaimsWhile;
      var n := |records| - 1;
      var next, pushed := RoundTracked(e, mode, records, trail, other, saved);
      MarksOfTrail(records, trail, saved, 0, records[n], trail[n], n);
      if Claims(next, saved) { GroupClaims(next, mode, records[..n], trail[..n], pushed, saved); }
    }
  }

  // ----- commands -----

  datatype Trails = Trails(undo: seq<Copy>, redo: seq<Copy>)

  ghost predicate Tracked(e: Editor, t: Trails)
  {
    && Sound(e)
    && Tracks(e.text, e.undo.records, t.undo, e.bufferSize) && Tracks(e.text, e.redo.records, t.redo, e.bufferSize)
  }

  ghost predicate Truthful(e: Editor, t: Trails, saved: string)
  {
    Claims(e, saved) && MarksTrail(e.undo.records, t.undo, saved) && MarksTrail(e.redo.records, t.redo, saved)
  }

  /** How the texts of the records go on. */
  function Follow(e: Editor, t: Trails, command: Command): Trails
    requires Accepted(e.text, command)
  {
    match command
    case UndoAction =>
      if e.undo.records == [] || |t.undo| != |e.undo.records| then t
      else Trails(t.undo[..GroupStart(e.undo.records)], TrailBack(PoppedUndo(e), Undoing, Undone(e.undo.records), t.redo))
    case RedoAction =>
      if e.redo.records == [] || |t.redo| != |e.redo.records| then t
      else Trails(TrailBack(PoppedRedo(e), Redoing, Undone(e.redo.records), t.undo), t.redo[..GroupStart(e.redo.records)])
    case Sequence => t
    case SaveText => t
    case _ =>
      if DoesNothing(e, command) then t
      else Trails(Pushed(UNDO_BUFFER_SIZE, t.undo, Copy(Exec(e, command).text, e.text)), [])
  }

  /** The claim holds all the time while a command is executed. */
  ghost predicate ClaimsBy(e: Editor, command: Command, saved: string)
  {
    && (command.UndoAction? ==> ClaimsWhile(PoppedUndo(e), Undoing, Undone(e.undo.records), saved))
    && (command.RedoAction? ==> ClaimsWhile(PoppedRedo(e), Redoing, Undone(e.redo.records), saved))
  }

  ghost predicate StraightBy(e: Editor, t: Trails, command: Command)
    requires Tracked(e, t)
  {
    && (command.UndoAction? && e.undo.records != [] ==>
          var k := GroupStart(e.undo.records); Straight(PoppedUndo(e), Undoing, e.undo.records[k..], t.undo[k..]))
    && (command.RedoAction? && e.redo.records != [] ==>
          var k := GroupStart(e.redo.records); Straight(PoppedRedo(e), Redoing, e.redo.records[k..], t.redo[k..]))
  }

  /** A save leaves no redo record that is marked for another text. */
  ghost predicate CarefulSave(e: Editor, t: Trails, command: Command)
  {
    command.SaveText? ==> MarksTrail(e.redo.records, t.redo, e.text)
  }

  function SavedBy(e: Editor, command: Command, saved: string): string
  {
    if command.SaveText? then e.text else saved
  }

  lemma UndoTracked(e: Editor, t: Trails, saved: string)
    requires Tracked(e, t) && HasRoom(e, UndoAction)
    ensures Tracked(Undo(e), Follow(e, t, UndoAction)) && Undo(e).bufferSize == e.bufferSize
    ensures Truthful(e, t, saved) ==>
      && (ClaimsBy(e, UndoAction, saved) <==> StraightBy(e, t, UndoAction))
      && (ClaimsBy(e, UndoAction, saved) ==> Truthful(Undo(e), Follow(e, t, UndoAction), saved))
  {
    hide UndoIt, Leads, Ahead, Exact, Roomy, Fits;
    NothingToTake(e);
    if e.undo.records != [] {
      hide Undo, UndoAll, TrailBack, Reverse, ClaimsWhile, Straight, Unsequenced, MarksTrail;
      var records, k, popped := e.undo.records, GroupStart(e.undo.records), PoppedUndo(e);
      UndoTakes(e);
      TracksNewest(e.text, records, t.undo, e.bufferSize, k);
      GroupTracked(popped, Undoing, records[k..], t.undo[k..], t.redo);
      TracksPop(e.text, records, t.undo, e.bufferSize, Undo(e).text, k);
      if Truthful(e, t, saved) {
        MarksOfTrail(records, t.undo, saved, 0, records[0], t.undo[0], k);
        GroupClaims(popped, Undoing, records[k..], t.undo[k..], t.redo, saved);
      }
    }
  }

  lemma RedoTracked(e: Editor, t: Trails, saved: string)
    requires Tracked(e, t) && HasRoom(e, RedoAction)
    ensures Tracked(Redo(e), Follow(e, t, RedoAction)) && Redo(e).bufferSize == e.bufferSize
    ensures Truthful(e, t, saved) ==>
      && (ClaimsBy(e, RedoAction, saved) <==> StraightBy(e, t, RedoAction))
      && (ClaimsBy(e, RedoAction, saved) ==> Truthful(Redo(e), Follow(e, t, RedoAction), saved))
  {
    hide UndoIt, Leads, Ahead, Exact, Roomy, Fits;
    NothingToTake(e);
    if e.redo.records != [] {
      hide Redo, UndoAll, TrailBack, Reverse, ClaimsWhile, Straight, MarksTrail;
      var records, k, popped := e.redo.records, GroupStart(e.redo.records), PoppedRedo(e);
      RedoTakesGroup(e);
      TracksNewest(e.text, records, t.redo, e.bufferSize, k);
      GroupTracked(popped, Redoing, records[k..], t.redo[k..], t.undo);
      TracksPop(e.text, records, t.redo, e.bufferSize, Redo(e).text, k);
      if Truthful(e, t, saved) {
        MarksOfTrail(records, t.redo, saved, 0, records[0], t.redo[0], k);
        GroupClaims(popped, Redoing, records[k..], t.redo[k..], t.undo, saved);
      }
    }
  }

  lemma RedoTakesGroup(e: Editor)
    requires e.redo.records != []
    ensures var k := GroupStart(e.redo.records); var popped := e.(redo := e.redo.(records := e.redo.records[..k]));
      PoppedRedo(e) == popped && Redo(e) == UndoAll(popped, Redoing, Reverse(e.redo.records[k..]))
  {
    hide UndoAll, GroupStart, Reverse;
  }

  lemma EditTracked(e: Editor, t: Trails, saved: string, command: Command)
    requires Tracked(e, t) && Accepted(e.text, command) && IsEdit(command)
    ensures Tracked(Exec(e, command), Follow(e, t, command))
    ensures Truthful(e, t, saved) ==> Truthful(Exec(e, command), Follow(e, t, command), saved)
  {
    hide Exec, Leads, Tracks, MarksTrail, DoesNothing, Accepted;
    EditSound(e, command);
    if DoesNothing(e, command) {
      EditReference(e, OpenedCopies(e.text), command);
    } else {
      var r := EditLeads(e, command);
      EditedTracked(e, t, saved, r, Exec(e, command));
    }
  }

  lemma EditedTracked(e: Editor, t: Trails, saved: string, r: Record, e': Editor)
    requires Tracked(e, t) && EditedBy(e, r, e') && Leads(e'.text, r, e.text, e.bufferSize) && Sound(e')
    ensures var t' := Trails(Pushed(UNDO_BUFFER_SIZE, t.undo, Copy(e'.text, e.text)), []);
      Tracked(e', t') && (Truthful(e, t, saved) ==> Truthful(e', t', saved))
  {
    hide Leads, Tracks, MarksTrail, Sound;
    FlaggedLeads(e, r, e'.text);
    TracksPush(e.text, e.undo.records, t.undo, e.bufferSize, e'.text, Flagged(e, r), UNDO_BUFFER_SIZE);
    if Truthful(e, t, saved) {
      MarksOfTrail(e.undo.records, t.undo, saved, UNDO_BUFFER_SIZE, Flagged(e, r), Copy(e'.text, e.text), 0);
    }
    NothingTracked(e'.text, e.bufferSize, saved);
  }

  lemma NothingTracked(text: string, bufferSize: nat, saved: string)
    ensures MarksTrail([], [], saved) && Tracks(text, [], [], bufferSize)
  {
  }

  lemma FlagsTracked(e: Editor, t: Trails, saved: string, command: Command)
    requires Tracked(e, t) && (command.SaveText? || command.Sequence?)
    ensures Tracked(Exec(e, command), t)
    ensures Truthful(e, t, saved) && CarefulSave(e, t, command) ==> Truthful(Exec(e, command), t, SavedBy(e, command, saved))
  {
    hide Tracks, Exact, Leads;
    SameTracks(e.text, e.undo.records, Exec(e, command).undo.records, t.undo, e.bufferSize);
  }

  lemma SameTracks(text: string, records: seq<Record>, flagged: seq<Record>, trail: seq<Copy>, bufferSize: nat)
    requires Tracks(text, records, trail, bufferSize) && |flagged| == |records|
    requires forall i :: 0 <= i < |records| ==> flagged[i] == records[i].(flags := flagged[i].flags)
    ensures Tracks(text, flagged, trail, bufferSize)
  {
    hide Ahead, OnLine, With, Without;
    forall i | 0 <= i < |flagged|
      ensures Leads(trail[i].after, flagged[i], trail[i].before, bufferSize) && Ahead(Above(text, trail, i), trail[i].after)
    {
      assert Leads(trail[i].after, records[i], trail[i].before, bufferSize);
    }
  }

  /** Every command keeps the registers in step with their texts, and the claim true all the time if and only if it undoes
      the marked records straight. */
  lemma CommandClaims(e: Editor, t: Trails, saved: string, command: Command)
    requires Tracked(e, t) && Accepted(e.text, command) && HasRoom(e, command)
    ensures Tracked(Exec(e, command), Follow(e, t, command))
    ensures Truthful(e, t, saved) && CarefulSave(e, t, command) ==>
      && (ClaimsBy(e, command, saved) <==> StraightBy(e, t, command))
      && (ClaimsBy(e, command, saved) ==> Truthful(Exec(e, command), Follow(e, t, command), SavedBy(e, command, saved)))
  {
    hide Undo, Redo, InsertChars, DelChars, ReplaceChar, Roomy, Tracks, MarksTrail, ClaimsWhile, Straight, TrailBack;
    if command.UndoAction? { UndoTracked(e, t, saved); }
    else if command.RedoAction? { RedoTracked(e, t, saved); }
    else if IsEdit(command) { EditTracked(e, t, saved, command); }
    else { FlagsTracked(e, t, saved, command); }
  }

  // ----- whole runs -----

  ghost predicate ClaimsRun(e: Editor, saved: string, commands: seq<Command>)
    decreases commands
  {
    commands != [] && Accepted(e.text, commands[0]) ==>
      ClaimsBy(e, commands[0], saved) && ClaimsRun(Exec(e, commands[0]), SavedBy(e, commands[0], saved), commands[1..])
  }

  ghost predicate StraightRun(e: Editor, t: Trails, commands: seq<Command>)
    decreases commands
  {
    commands != [] && Accepted(e.text, commands[0]) ==>
      && (Tracked(e, t) ==> StraightBy(e, t, commands[0]))
      && StraightRun(Exec(e, commands[0]), Follow(e, t, commands[0]), commands[1..])
  }

  ghost predicate CarefulSaves(e: Editor, t: Trails, commands: seq<Command>)
    decreases commands
  {
    commands != [] && Accepted(e.text, commands[0]) ==>
      CarefulSave(e, t, commands[0]) && CarefulSaves(Exec(e, commands[0]), Follow(e, t, commands[0]), commands[1..])
  }

  /** In every run of commands in a buffer with room whose saves are careful: an editor that says that nothing has changed
      shows the saved text at every moment, between the records of a group, too, if and only if every marked record that
      is undone or redone starts from the text that its action left and finds its place on a line of it. */
  lemma {:induction false} ClaimsExact(e: Editor, t: Trails, saved: string, commands: seq<Command>)
    requires Tracked(e, t) && Truthful(e, t, saved) && RoomyRun(e, commands) && CarefulSaves(e, t, commands)
    ensures ClaimsRun(e, saved, commands) <==> StraightRun(e, t, commands)
    ensures ClaimsRun(e, saved, commands) ==> Claims(ExecRun(e, commands), SavedLast(e, saved, commands))
    decreases commands
  {
    hide Exec, Follow, HasRoom, Tracked, Truthful, ClaimsBy, StraightBy, CarefulSave;
    TruthfulClaims(e, t, saved);
    if commands != [] && Accepted(e.text, commands[0]) {
      CommandClaims(e, t, saved, commands[0]);
      if ClaimsBy(e, commands[0], saved) {
        ClaimsExact(Exec(e, commands[0]), Follow(e, t, commands[0]), SavedBy(e, commands[0], saved), commands[1..]);
      }
    }
  }

  lemma TruthfulClaims(e: Editor, t: Trails, saved: string)
    requires Truthful(e, t, saved)
    ensures Claims(e, saved)
  {
  }

  /** The text that was saved last. */
  function SavedLast(e: Editor, saved: string, commands: seq<Command>): string
    decreases commands
  {
    if commands == [] || !Accepted(e.text, commands[0]) then saved
    else SavedLast(Exec(e, commands[0]), SavedBy(e, commands[0], saved), commands[1..])
  }

  /** So it is from every opened text on. */
  lemma OpenedClaimsExact(text: string, bufferSize: nat, commands: seq<Command>)
    requires |text| < bufferSize
    requires RoomyRun(Opened(text, bufferSize), commands) && CarefulSaves(Opened(text, bufferSize), Trails([], []), commands)
    ensures ClaimsRun(Opened(text, bufferSize), text, commands) <==> StraightRun(Opened(text, bufferSize), Trails([], []), commands)
  {
    hide RoomyRun, CarefulSaves, ClaimsRun, StraightRun;
    ClaimsExact(Opened(text, bufferSize), Trails([], []), text, commands);
  }
}
