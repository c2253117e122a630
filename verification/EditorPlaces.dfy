/** Undoing a deletion and redoing an insertion put characters back. The editor promises that this restores the text;
    here is exactly when it does. */
module EditorPlaces {
  import opened Sequences
  import opened UndoLog
  import opened Editor
  import opened EditorHistory
  import opened EditorReference

  // ----- places -----

  /** The form of texts the editor assumes: CR only in the delimiter CR LF. */
  ghost predicate CrBeforeLf(t: string)
  {
    forall i :: 0 <= i < |t| && t[i] == CR ==> i + 1 < |t| && t[i + 1] == LF
  }

  /** In such a text a place is on a line unless it is between CR and LF or at the end, behind the last delimiter. */
  lemma PlaceOnLine(t: string, pos: nat)
    requires CrBeforeLf(t) && pos <= |t|
    ensures OnLine(t, pos) <==> pos == 0 || (t[pos - 1] != CR && (pos == |t| ==> t[pos - 1] != LF))
  {
    var line := LineOf(t, pos);
    var end := line + TextLength(t, line);
    LineFromMeaning(t, 0, pos);
    TextLengthMeaning(t, line);
    if end < pos {
      if t[end] == CR { assert t[end + 1] == LF; }
    }
  }

  /** A place behind a lone CR is not on a line either. */
  lemma LoneCrExample()
    ensures !OnLine("a\r\r\n", 2)
  {
    var t := "a\r\r\n";
    assert LineLength(t, 3) == 1;
    assert LineLength(t, 2) == 2;
    assert LineLength(t, 1) == 3;
    assert NextLine(t, 0) == 0;
    assert TextLength(t, 1) == 0;
    assert TextLength(t, 0) == 1;
  }

  // ----- a single action and its undo -----

  /** The next action will not be undone together with earlier ones. */
  ghost predicate Ungrouped(e: Editor)
  {
    e.undo.records == [] || !e.undo.records[|e.undo.records| - 1].Sequenced()
  }

  lemma NewestAlone(size: nat, records: seq<Record>, r: Record)
    requires size > 2 && (records == [] || !records[|records| - 1].Sequenced())
    ensures Pushed(size, records, r) != [] && Undone(Pushed(size, records, r)) == [r]
  {
    var all := Pushed(size, records, r);
    GroupStartUnique(all, |all| - 1);
    LastAlone(all);
  }

  /** Its undo undoes this one record. */
  lemma UndoOfEdit(e: Editor, r: Record, d: Editor)
    requires Ungrouped(e) && EditedBy(e, r, d) && Fits(d.text, r)
    ensures Undo(d) == UndoIt(PoppedUndo(d), Undoing, Flagged(e, r)) && d.redo.records == []
  {
    hide UndoIt, UndoAll, Exact, Reverse;
    NewestAlone(UNDO_BUFFER_SIZE, e.undo.records, Flagged(e, r));
    UndoAllOne(PoppedUndo(d), Undoing, Flagged(e, r));
  }

  /** Deleting and undoing gives the text back if and only if the place of the deletion is on a line afterwards;
      otherwise spaces appear in the text, or nothing when the buffer is full. (A deletion of nothing in a full buffer is
      harmless.) */
  lemma DeletionUndoExact(e: Editor, pos: nat, count: nat, back: bool)
    requires pos + count <= |e.text| < e.bufferSize && Ungrouped(e)
    ensures var d := DelChars(e, Normal, pos, count, back); var u := Undo(d);
      && (u.text == e.text
          <==> OnLine(d.text, pos) || (count == 0 && |e.text| + Overhang(d.text, pos) >= e.bufferSize))
      && u.changed == e.changed
  {
    hide Undo, UndoIt, OnLine, Overhang, Without, With, Ungrouped;
    var r, d := DeletionRecord(e.text, pos, count, back, e.nextBlock), DelChars(e, Normal, pos, count, back);
    assert Restored(r) == e.text[pos..pos + count];
    WithoutWith(e.text, pos, count);
    UndoOfEdit(e, r, d);
    UndoItExact(PoppedUndo(d), Undoing, Flagged(e, r), e.text);
    var i := UndoItAnywhere(PoppedUndo(d), Undoing, Flagged(e, r));
  }

  /** Undoing an insertion always gives the text back. Redoing it gives the inserted characters back if and only if the
      cursor was not on the empty line behind the last delimiter. (An empty insertion in a full buffer is harmless.) */
  lemma InsertionRedoExact(e: Editor, line: nat, column: nat, chars: string)
    requires LineStart(e.text, line) && |e.text| < e.bufferSize && Ungrouped(e)
    requires |e.text| + |Typed(e.text, line, column, chars)| < e.bufferSize
    ensures var d := InsertChars(e, Normal, line, column, chars); var u := Undo(d); var r := Redo(u);
      && u.text == e.text && u.changed == e.changed
      && (r.text == d.text <==>
            || line == 0 || line < |e.text|
            || (Typed(e.text, line, column, chars) == "" && |e.text| + Overhang(e.text, PlaceOf(e.text, line, column)) >= e.bufferSize))
  {
    hide Undo, Redo, WithInsertion, OnLine, LineStart, Overhang, Ungrouped;
    var pos, s := PlaceOf(e.text, line, column), Typed(e.text, line, column, chars);
    CursorOnLine(e.text, line, pos);
    var inv := InsertionUndone(e, pos, s);
    RedoOfInverse(Undo(WithInsertion(e, Normal, pos, s)), inv, WithInsertion(e, Normal, pos, s).text);
  }

  /** Undoing an insertion leaves one redo record, with the inserted characters. */
  lemma InsertionUndone(e: Editor, pos: nat, s: string) returns (inv: Record)
    requires pos <= |e.text| && |e.text| + |s| < e.bufferSize && Ungrouped(e)
    ensures var d := WithInsertion(e, Normal, pos, s); var u := Undo(d);
      && u.text == e.text && u.changed == e.changed && u.bufferSize == e.bufferSize && u.redo.records == [inv]
      && Leads(e.text, inv, d.text, e.bufferSize) && IsDeletion(inv) && inv.offset == pos && Restored(inv) == s && !inv.Sequenced()
  {
    hide Undo, UndoIt, With, Without, Ungrouped, OnLine;
    var ins, d := Record(TpIns, 0, pos, '\0', Inserted(|s|)), WithInsertion(e, Normal, pos, s);
    WithWithout(e.text, pos, s);
    UndoOfEdit(e, ins, d);
    UndoInsertion(PoppedUndo(d), Undoing, Flagged(e, ins), e.text);
    inv := Inverse(PoppedUndo(d), Flagged(e, ins));
  }

  lemma RedoOfInverse(u: Editor, inv: Record, text: string)
    requires u.redo.records == [inv] && Leads(u.text, inv, text, u.bufferSize) && !inv.Sequenced()
    ensures Redo(u).text == text <==> Exact(u.text, inv) || NothingFits(u.text, inv, u.bufferSize)
  {
    hide Redo, UndoIt, Exact, NothingFits;
    RedoTakes(u);
    UndoItExact(PoppedRedo(u), Redoing, inv, text);
  }

  // ----- two ordinary failures -----

  /** Deleting the only character of the last line and undoing. */
  lemma DeletionAtEndExample()
    ensures var d := DelChars(Opened("abc\r\nX", 100), Normal, 5, 1, false);
      d.text == "abc\r\n" && Undo(d).text != "abc\r\nX"
  {
    hide Undo, LineFrom, TextLength;
    assert Without("abc\r\nX", 5, 1) == "abc\r\n";
    PlaceOnLine("abc\r\n", 5);
    DeletionUndoExact(Opened("abc\r\nX", 100), 5, 1, false);
  }

  /** Return in an empty text, a key, undo, redo. */
  lemma ReturnKeyExample()
    ensures var d := InsertChars(Opened("\r\n", 100), Normal, 2, 0, "X"); var u := Undo(d);
      d.text == "\r\nX" && u.text == "\r\n" && Redo(u).text != "\r\nX"
  {
    hide Undo, Redo, Overhang, Register;
    var t := "\r\n";
    TypedInside(t, 2, 0, "X");
    assert With(t, 2, "X") == "\r\nX";
    InsertionRedoExact(Opened(t, 100), 2, 0, "X");
  }

  /** Why the converse of the refinement needs room: a deletion of nothing at a place that is not on a line, in a buffer
      with no room for spaces. Its undo is not exact, but shows the right text. */
  lemma FullBufferExample()
    ensures var d := DelChars(Opened("\r\n", 3), Normal, 2, 0, false);
      Undo(d).text == "\r\n" && !Admissible(d, UndoAction)
  {
    hide Undo, LineFrom, TextLength, UndoIt;
    var t := "\r\n";
    var e, d := Opened(t, 3), DelChars(Opened(t, 3), Normal, 2, 0, false);
    assert Without(t, 2, 0) == t;
    PlaceOnLine(t, 2);
    DeletionUndoExact(e, 2, 0, false);
    var r := DeletionRecord(t, 2, 0, false, e.nextBlock);
    assert EditedBy(e, r, d);
    UndoOfEdit(e, r, d);
    NewestAlone(UNDO_BUFFER_SIZE, [], Flagged(e, r));
    UndoAllOne(PoppedUndo(d), Undoing, Flagged(e, r));
  }
}
