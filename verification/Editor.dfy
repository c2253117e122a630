/** Editing, undo and redo of the text editor, on values. A text has no NUL character: the buffer ends with one. */
module Editor {
  import opened Sequences
  import opened UndoLog

  const UNDO_BUFFER_SIZE := 100
  const REDO_BUFFER_SIZE := 40
  const CR := '\r'
  const LF := '\n'

  // ----- lines -----

  /** `txlnlen`: the length of the line at `ln` without delimiters. */
  function TextLength(t: string, ln: nat): (n: nat)
    requires ln <= |t|
    ensures ln + n <= |t|
    decreases |t| - ln
  {
    if ln == |t| || t[ln] == LF || t[ln] == CR then 0 else 1 + TextLength(t, ln + 1)
  }

  lemma {:induction false} TextLengthMeaning(t: string, ln: nat)
    requires ln <= |t|
    ensures forall i :: ln <= i < ln + TextLength(t, ln) ==> t[i] != LF && t[i] != CR
    ensures var end := ln + TextLength(t, ln); end < |t| ==> t[end] == LF || t[end] == CR
    decreases |t| - ln
  {
    if ln < |t| && t[ln] != LF && t[ln] != CR { TextLengthMeaning(t, ln + 1); }
  }

  /** `lnlen`: the length of the line at `ln` with delimiters. */
  function LineLength(t: string, ln: nat): (n: nat)
    requires ln <= |t|
    ensures ln + n <= |t|
    ensures ln < |t| ==> n > 0
    ensures ln + n < |t| ==> t[ln + n - 1] == LF
    decreases |t| - ln
  {
    if ln == |t| then 0 else if t[ln] == LF then 1 else 1 + LineLength(t, ln + 1)
  }

  /** `next_line`: the start of the following line, or the same line when nothing follows. */
  function NextLine(t: string, ln: nat): (n: nat)
    requires ln <= |t|
    ensures ln <= n <= |t|
  {
    var n := ln + LineLength(t, ln);
    if n < |t| then n else ln
  }

  /** The loop of `set_position`: the start of the line in which the cursor is put. */
  function LineFrom(t: string, ln: nat, pos: nat): (start: nat)
    requires ln <= pos <= |t|
    ensures ln <= start <= pos
    decreases |t| - ln
  {
    var next := NextLine(t, ln);
    if next == ln || next > pos then ln else LineFrom(t, next, pos)
  }

  function LineOf(t: string, pos: nat): (start: nat)
    requires pos <= |t|
    ensures start <= pos
  {
    LineFrom(t, 0, pos)
  }

  /** The position lies inside its line or just behind its last character, before any delimiter. */
  predicate OnLine(t: string, pos: nat)
  {
    pos <= |t| && pos - LineOf(t, pos) <= TextLength(t, LineOf(t, pos))
  }

  /** The starts of lines at which the editor keeps its cursor: also behind the last delimiter, where `next_line` finds
      no line. */
  predicate LineStart(t: string, ln: nat)
  {
    ln <= |t| && (ln == 0 || t[ln - 1] == LF)
  }

  lemma {:induction false} LineLengthMeaning(t: string, ln: nat)
    requires ln <= |t|
    ensures forall i :: ln <= i < ln + LineLength(t, ln) - 1 ==> t[i] != LF
    decreases |t| - ln
  {
    if ln < |t| && t[ln] != LF { LineLengthMeaning(t, ln + 1); }
  }

  /** The loop of `set_position` stops at the last start of a line up to the position, but never behind the last
      delimiter of the text. */
  lemma {:induction false} LineFromMeaning(t: string, ln: nat, pos: nat)
    requires LineStart(t, ln) && ln <= pos <= |t|
    ensures var start := LineFrom(t, ln, pos);
      && LineStart(t, start) && (start == ln || start < |t|)
      && forall i :: start <= i < pos && i + 1 < |t| ==> t[i] != LF
    decreases |t| - ln
  {
    LineLengthMeaning(t, ln);
    var next := NextLine(t, ln);
    if next != ln && next <= pos { LineFromMeaning(t, next, pos); }
  }

  /** A cursor inside the text of its line or behind it inserts on a line, except on the empty line behind the last
      delimiter. */
  lemma CursorOnLine(t: string, line: nat, pos: nat)
    requires LineStart(t, line) && line <= pos <= line + TextLength(t, line)
    ensures OnLine(t, pos) <==> line == 0 || line < |t|
  {
    LineFromMeaning(t, 0, pos);
    TextLengthMeaning(t, line);
    var start := LineOf(t, pos);
    if start < line { TextLengthMeaning(t, start); }
  }

  // ----- the editor -----

  datatype Editor = Editor(text: string, changed: bool, undo: Log, redo: Log, bufferSize: nat, nextBlock: nat)

  /** `undo_state`. */
  datatype Mode = Normal | Undoing | Redoing

  /** The record with the mark of an editor that is not changed. */
  function Flagged(e: Editor, r: Record): (f: Record)
    ensures !f.Sequenced() && f.WasUnchanged() == !e.changed && f == r.(flags := f.flags)
  {
    r.(flags := if e.changed then 0 else ACTFL_WAS_UNCHANGED)
  }

  /** `register_action`: an undone action can be redone, any other can be undone; a new action ends redoing. */
  function Register(e: Editor, mode: Mode, r: Record): Editor
  {
    var r := Flagged(e, r);
    match mode
    case Undoing => e.(redo := Step(REDO_BUFFER_SIZE, e.redo, Add(r)))
    case Redoing => e.(undo := Step(UNDO_BUFFER_SIZE, e.undo, Add(r)))
    case Normal => e.(undo := Step(UNDO_BUFFER_SIZE, e.undo, Add(r)),
                      redo := Step(REDO_BUFFER_SIZE, e.redo, ClearAll))
  }

  function Without(t: string, pos: nat, count: nat): (r: string)
    requires pos + count <= |t|
    ensures |r| == |t| - count
  {
    t[..pos] + t[pos + count..]
  }

  function With(t: string, pos: nat, s: string): (r: string)
    requires pos <= |t|
    ensures |r| == |t| + |s|
  {
    t[..pos] + s + t[pos..]
  }

  function DeletionRecord(t: string, pos: nat, count: nat, back: bool, block: nat): Record
    requires pos + count <= |t|
  {
    if count == 1 then Record(if back then TpBs1 else TpDel1, 0, pos, t[pos], Null)
    else Record(if back then TpBsn else TpDeln, 0, pos, '\0', Block(block, t[pos..pos + count]))
  }

  /** `del_chars`. */
  function DelChars(e: Editor, mode: Mode, pos: nat, count: nat, back: bool): Editor
    requires pos + count <= |e.text|
  {
    Register(e, mode, DeletionRecord(e.text, pos, count, back, e.nextBlock))
    .(text := Without(e.text, pos, count), changed := true, nextBlock := e.nextBlock + 1)
  }

  function Spaces(n: nat): (s: string)
    ensures |s| == n && forall i :: 0 <= i < n ==> s[i] == ' '
  {
    if n == 0 then "" else " " + Spaces(n - 1)
  }

  /** How far the cursor is behind the end of the text of its line: so many spaces are inserted as well. */
  function Prespaces(t: string, line: nat, column: nat): nat
    requires line <= |t|
  {
    if column > TextLength(t, line) then column - TextLength(t, line) else 0
  }

  /** Where the characters go, and what is inserted. */
  function PlaceOf(t: string, line: nat, column: nat): (pos: nat)
    requires line <= |t|
    ensures line <= pos <= line + TextLength(t, line) <= |t|
  {
    line + column - Prespaces(t, line, column)
  }

  function Typed(t: string, line: nat, column: nat, chs: string): string
    requires line <= |t|
  {
    Spaces(Prespaces(t, line, column)) + chs
  }

  /** The editor after an insertion, with its record. */
  function WithInsertion(e: Editor, mode: Mode, pos: nat, s: string): Editor
    requires pos <= |e.text|
  {
    Register(e, mode, Record(TpIns, 0, pos, '\0', Inserted(|s|))).(text := With(e.text, pos, s), changed := true)
  }

  /** `insert_chars` at the cursor: column `column` of the line at `line`. Nothing happens when the buffer is full. */
  function InsertChars(e: Editor, mode: Mode, line: nat, column: nat, chs: string): (e': Editor)
    requires line <= |e.text|
  {
    var s, pos := Typed(e.text, line, column, chs), PlaceOf(e.text, line, column);
    if |e.text| + |s| >= e.bufferSize then e
    else
      WithInsertion(e, mode, pos, s)
  }

  /** `replace_char`. */
  function ReplaceChar(e: Editor, mode: Mode, pos: nat, ch: char): Editor
    requires pos < |e.text|
  {
    Register(e, mode, Record(TpRepl, 0, pos, e.text[pos], Null)).(text := e.text[pos := ch], changed := true)
  }

  /** The characters a deletion record puts back. */
  function Restored(r: Record): string
  {
    if r.actionType.TpBs1? || r.actionType.TpDel1? then [r.shortData]
    else if r.data.Block? then r.data.text else ""
  }

  predicate IsDeletion(r: Record)
  {
    r.actionType.TpBs1? || r.actionType.TpDel1? || (r.Param() && r.data.Block?)
  }

  /** The record fits the text. */
  predicate Fits(t: string, r: Record)
  {
    if r.actionType.TpIns? then r.data.Inserted? && r.offset + r.data.n <= |t|
    else if r.actionType.TpRepl? then r.offset < |t|
    else IsDeletion(r) && r.offset <= |t|
  }

  /** `undoit`. */
  function UndoIt(e: Editor, mode: Mode, r: Record): Editor
    requires Fits(e.text, r)
  {
    var done :=
      if r.actionType.TpIns? then DelChars(e, mode, r.offset, r.data.n, true)
      else if r.actionType.TpRepl? then ReplaceChar(e, mode, r.offset, r.shortData)
      else InsertAtOffset(e, mode, r.offset, Restored(r));
    done.(changed := !r.WasUnchanged())
  }

  /** `set_position` followed by `insert_chars`. */
  function InsertAtOffset(e: Editor, mode: Mode, offset: nat, s: string): Editor
    requires offset <= |e.text|
  {
    InsertChars(e, mode, LineOf(e.text, offset), offset - LineOf(e.text, offset), s)
  }

  /** Undoing some records, the first one first, as long as they fit. */
  function UndoAll(e: Editor, mode: Mode, records: seq<Record>): Editor
    decreases records
  {
    if records == [] || !Fits(e.text, records[0]) then e
    else UndoAll(UndoIt(e, mode, records[0]), mode, records[1..])
  }

  /** `undo_action` and `redo_action`: the newest group of one register is undone, the other one gets its inverse. */
  function Undo(e: Editor): Editor
  {
    UndoAll(e.(undo := Step(UNDO_BUFFER_SIZE, e.undo, DoTop)), Undoing, Undone(e.undo.records))
  }

  function Redo(e: Editor): Editor
  {
    UndoAll(e.(redo := Step(REDO_BUFFER_SIZE, e.redo, DoTop)), Redoing, Undone(e.redo.records))
  }

  /** Saving the text: `saved_now` and the end of the changed state. */
  function Save(e: Editor): Editor
  {
    e.(undo := Step(UNDO_BUFFER_SIZE, e.undo, SavedNow), changed := false)
  }

  function MarkSequenced(e: Editor): Editor
  {
    e.(undo := Step(UNDO_BUFFER_SIZE, e.undo, AddSeqFlag))
  }

  // ----- what a record stands for -----

  /** Undoing `r` in the text `after` should give `before`. */
  ghost predicate Leads(after: string, r: Record, before: string, bufferSize: nat)
  {
    && Fits(after, r) && |after| < bufferSize && |before| < bufferSize
    && if r.actionType.TpIns? then before == Without(after, r.offset, r.data.n)
       else if r.actionType.TpRepl? then before == after[r.offset := r.shortData]
       else before == With(after, r.offset, Restored(r))
  }

  /** What is needed for it: characters that are put back are put back on a line. */
  predicate Exact(t: string, r: Record)
  {
    IsDeletion(r) ==> OnLine(t, r.offset)
  }

  /** The same for the inverse of a record that leads to `before`: inserted characters can be put back. */
  predicate InverseExact(before: string, r: Record)
  {
    r.actionType.TpIns? ==> OnLine(before, r.offset)
  }

  /** How far behind the text of its line a place is. */
  function Overhang(t: string, pos: nat): nat
    requires pos <= |t|
  {
    Prespaces(t, LineOf(t, pos), pos - LineOf(t, pos))
  }

  /** Nothing to put back, and no room for the spaces that would come with it. */
  predicate NothingFits(t: string, r: Record, bufferSize: nat)
  {
    IsDeletion(r) && Restored(r) == "" && r.offset <= |t| && |t| + Overhang(t, r.offset) >= bufferSize
  }

  /** The register that gets the inverse records. */
  function Other(e: Editor, mode: Mode): Log
  {
    if mode.Undoing? then e.redo else e.undo
  }

  function SizeOfOther(mode: Mode): nat
  {
    if mode.Undoing? then REDO_BUFFER_SIZE else UNDO_BUFFER_SIZE
  }

  lemma WithoutWith(t: string, pos: nat, count: nat)
    requires pos + count <= |t|
    ensures With(Without(t, pos, count), pos, t[pos..pos + count]) == t
  {
  }

  lemma WithWithout(t: string, pos: nat, s: string)
    requires pos <= |t|
    ensures Without(With(t, pos, s), pos, |s|) == t
    ensures With(t, pos, s)[pos..pos + |s|] == s
  {
  }

  /** The inverse of one record, as it is stored in the other register. */
  function Inverse(e: Editor, r: Record): Record
    requires Fits(e.text, r)
  {
    Flagged(e, if r.actionType.TpIns? then DeletionRecord(e.text, r.offset, r.data.n, true, e.nextBlock)
               else if r.actionType.TpRepl? then Record(TpRepl, 0, r.offset, e.text[r.offset], Null)
               else Record(TpIns, 0, r.offset, '\0', Inserted(|Restored(r)|)))
  }

  /** The effect of `undoit` on everything but the text: the inverse record goes to the other register. */
  ghost predicate Registered(e: Editor, e': Editor, mode: Mode, r: Record)
    requires Fits(e.text, r)
  {
    && e'.changed == !r.WasUnchanged() && e'.bufferSize == e.bufferSize
    && Other(e', mode) == Step(SizeOfOther(mode), Other(e, mode), Add(Inverse(e, r)))
    && Source(e', mode) == Source(e, mode)
  }

  /** The register whose records are undone. */
  function Source(e: Editor, mode: Mode): Log
  {
    if mode.Undoing? then e.undo else e.redo
  }

  lemma UndoInsertion(e: Editor, mode: Mode, r: Record, before: string)
    requires !mode.Normal? && Leads(e.text, r, before, e.bufferSize) && r.actionType.TpIns?
    ensures UndoIt(e, mode, r).text == before && Registered(e, UndoIt(e, mode, r), mode, r)
    ensures Leads(before, Inverse(e, r), e.text, e.bufferSize)
  {
    WithoutWith(e.text, r.offset, r.data.n);
    var i := Inverse(e, r);
    assert Restored(i) == e.text[r.offset..r.offset + r.data.n];
  }

  lemma UndoReplacement(e: Editor, mode: Mode, r: Record, before: string)
    requires !mode.Normal? && Leads(e.text, r, before, e.bufferSize) && r.actionType.TpRepl?
    ensures UndoIt(e, mode, r).text == before && Registered(e, UndoIt(e, mode, r), mode, r)
    ensures Leads(before, Inverse(e, r), e.text, e.bufferSize)
  {
  }

  /** A cursor inside the text of its line needs no spaces. */
  lemma TypedInside(t: string, line: nat, column: nat, chs: string)
    requires line <= |t| && column <= TextLength(t, line)
    ensures Typed(t, line, column, chs) == chs && PlaceOf(t, line, column) == line + column
  {
    assert Spaces(0) == "";
  }

  /** On a line, the cursor found by `set_position` inserts exactly at the offset. */
  lemma InsertExact(e: Editor, mode: Mode, offset: nat, s: string)
    requires OnLine(e.text, offset) && |e.text| + |s| < e.bufferSize
    ensures InsertAtOffset(e, mode, offset, s) == WithInsertion(e, mode, offset, s)
  {
    hide LineFrom, Register, With;
    TypedInside(e.text, LineOf(e.text, offset), offset - LineOf(e.text, offset), s);
  }

  lemma UndoDeletion(e: Editor, mode: Mode, r: Record, before: string)
    requires !mode.Normal? && Leads(e.text, r, before, e.bufferSize) && Exact(e.text, r)
    requires !r.actionType.TpIns? && !r.actionType.TpRepl?
    ensures UndoIt(e, mode, r).text == before && Registered(e, UndoIt(e, mode, r), mode, r)
    ensures Leads(before, Inverse(e, r), e.text, e.bufferSize)
  {
    WithWithout(e.text, r.offset, Restored(r));
    InsertExact(e, mode, r.offset, Restored(r));
  }

  /** Undoing one record that leads to a text reaches it, and stores a record that leads back. The stored record is
      exact if and only if the place is on a line of the text reached. */
  lemma UndoItLeads(e: Editor, mode: Mode, r: Record, before: string)
    requires !mode.Normal? && Leads(e.text, r, before, e.bufferSize) && Exact(e.text, r)
    ensures UndoIt(e, mode, r).text == before && Registered(e, UndoIt(e, mode, r), mode, r)
    ensures Leads(before, Inverse(e, r), e.text, e.bufferSize)
    ensures Exact(before, Inverse(e, r)) <==> InverseExact(before, r)
  {
    hide LineFrom, TextLength, UndoIt, Registered, Register, Without, With;
    if r.actionType.TpIns? { UndoInsertion(e, mode, r, before); }
    else if r.actionType.TpRepl? { UndoReplacement(e, mode, r, before); }
    else { UndoDeletion(e, mode, r, before); }
  }

  /** Putting characters back reaches the text with them if and only if the place is on a line; otherwise spaces come
      with them, or nothing is inserted because the buffer is full. */
  lemma ReinsertExact(e: Editor, mode: Mode, offset: nat, s: string)
    requires offset <= |e.text| && |e.text| + |s| < e.bufferSize
    ensures InsertAtOffset(e, mode, offset, s).text == With(e.text, offset, s)
      <==> OnLine(e.text, offset) || (s == "" && |e.text| + Overhang(e.text, offset) >= e.bufferSize)
  {
    var k := Overhang(e.text, offset);
    if OnLine(e.text, offset) {
      InsertExact(e, mode, offset, s);
    } else if |e.text| + k + |s| < e.bufferSize {
      assert |InsertAtOffset(e, mode, offset, s).text| == |e.text| + k + |s| && k > 0;
    } else {
      assert InsertAtOffset(e, mode, offset, s).text == e.text;
      if s == "" { assert With(e.text, offset, s) == e.text; } else { assert |With(e.text, offset, s)| != |e.text|; }
    }
  }

  /** One record is undone to the text it should lead to, exactly under that condition. */
  lemma UndoItExact(e: Editor, mode: Mode, r: Record, before: string)
    requires !mode.Normal? && Leads(e.text, r, before, e.bufferSize)
    ensures UndoIt(e, mode, r).text == before <==> Exact(e.text, r) || NothingFits(e.text, r, e.bufferSize)
    ensures UndoIt(e, mode, r).bufferSize == e.bufferSize
  {
    if r.actionType.TpIns? { UndoInsertion(e, mode, r, before); }
    else if r.actionType.TpRepl? { UndoReplacement(e, mode, r, before); }
    else { ReinsertExact(e, mode, r.offset, Restored(r)); }
  }

  // ----- undoing any record that fits -----

  /** The undoing is registered: there is room for what is put back and for the spaces that come with it. */
  predicate Stored(e: Editor, r: Record)
    requires Fits(e.text, r)
  {
    r.actionType.TpIns? || r.actionType.TpRepl? || |e.text| + Overhang(e.text, r.offset) + |Restored(r)| < e.bufferSize
  }

  /** Putting characters back anywhere inserts them with the spaces, or nothing. */
  lemma ReinsertAnywhere(e: Editor, mode: Mode, offset: nat, s: string) returns (pos: nat, inserted: string)
    requires offset <= |e.text|
    ensures pos <= |e.text| && |inserted| == Overhang(e.text, offset) + |s|
    ensures InsertAtOffset(e, mode, offset, s)
         == if |e.text| + |inserted| >= e.bufferSize then e else WithInsertion(e, mode, pos, inserted)
  {
    hide LineFrom, Register, With;
    var line := LineOf(e.text, offset);
    pos, inserted := PlaceOf(e.text, line, offset - line), Typed(e.text, line, offset - line, s);
  }

  /** What undoing a record changes, when `i` goes to the other register: `i` leads back to the text before. */
  ghost predicate LeadsBack(e: Editor, u: Editor, mode: Mode, i: Record)
  {
    && Leads(u.text, i, e.text, e.bufferSize) && !i.Sequenced() && i.WasUnchanged() == !e.changed
    && Other(u, mode) == Step(SizeOfOther(mode), Other(e, mode), Add(i))
  }

  lemma UndoDeletionAnywhere(e: Editor, mode: Mode, r: Record) returns (i: Record)
    requires !mode.Normal? && Fits(e.text, r) && !r.actionType.TpIns? && !r.actionType.TpRepl? && |e.text| < e.bufferSize
    ensures var u := UndoIt(e, mode, r);
      && |u.text| < e.bufferSize == u.bufferSize && Source(u, mode) == Source(e, mode) && u.changed == !r.WasUnchanged()
      && if Stored(e, r) then
           LeadsBack(e, u, mode, i) && i.actionType.TpIns?
           && |u.text| == |e.text| + Overhang(e.text, r.offset) + |Restored(r)|
         else u.text == e.text && Other(u, mode) == Other(e, mode)
  {
    hide LineFrom, TextLength, LineOf, Overhang, With, Without, InsertAtOffset;
    var pos, inserted := ReinsertAnywhere(e, mode, r.offset, Restored(r));
    WithWithout(e.text, pos, inserted);
    i := Flagged(e, Record(TpIns, 0, pos, '\0', Inserted(|inserted|)));
  }

  /** By how much undoing a record makes the text longer. */
  function Growth(t: string, r: Record): int
    requires Fits(t, r)
  {
    if r.actionType.TpIns? then 0 - r.data.n
    else if r.actionType.TpRepl? then 0
    else Overhang(t, r.offset) + |Restored(r)|
  }

  /** Undoing any record that fits registers one that leads back, or does nothing to text and register. */
  lemma UndoItAnywhere(e: Editor, mode: Mode, r: Record) returns (i: Record)
    requires !mode.Normal? && Fits(e.text, r) && |e.text| < e.bufferSize
    ensures var u := UndoIt(e, mode, r);
      && |u.text| < e.bufferSize == u.bufferSize && Source(u, mode) == Source(e, mode) && u.changed == !r.WasUnchanged()
      && if Stored(e, r) then
           LeadsBack(e, u, mode, i) && |u.text| == |e.text| + Growth(e.text, r)
           && (Exact(u.text, i) <==> InverseExact(u.text, r))
         else u.text == e.text && Other(u, mode) == Other(e, mode)
  {
    hide LineFrom, TextLength, LineOf, Overhang, With, Without;
    if r.actionType.TpIns? {
      UndoInsertion(e, mode, r, Without(e.text, r.offset, r.data.n));
      i := Inverse(e, r);
    } else if r.actionType.TpRepl? {
      UndoReplacement(e, mode, r, e.text[r.offset := r.shortData]);
      i := Inverse(e, r);
    } else {
      i := UndoDeletionAnywhere(e, mode, r);
    }
  }
}
