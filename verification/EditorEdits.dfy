/** What the edits do, in terms of the text itself and of the record that is kept. */
module EditorEdits {
  import opened Sequences
  import opened UndoLog
  import opened Editor

  /** The text of the line at `line` ends at `end`: before the first delimiter, or with the text. */
  ghost predicate LineEnd(t: string, line: nat, end: nat)
  {
    && line <= end <= |t| && (forall i :: line <= i < end ==> t[i] != '\r' && t[i] != '\n')
    && (end < |t| ==> t[end] == '\r' || t[end] == '\n')
  }

  lemma LineEndIsTextLength(t: string, line: nat, end: nat)
    requires LineEnd(t, line, end)
    ensures end == line + TextLength(t, line)
  {
    TextLengthMeaning(t, line);
  }

  /** `n` spaces. */
  ghost function Gap(n: nat): (s: string)
    ensures |s| == n && forall i :: 0 <= i < n ==> s[i] == ' '
  {
    seq(n, _ => ' ')
  }

  /** Characters typed at a column. A gap behind the end of the line is filled with spaces. */
  ghost function InsertedText(t: string, line: nat, column: nat, chars: string): string
    requires line <= |t|
  {
    var end, at := line + TextLength(t, line), line + column;
    if at > end then t[..end] + Gap(at - end) + chars + t[end..] else t[..at] + chars + t[at..]
  }

  lemma TypedBehind(t: string, line: nat, column: nat, chars: string)
    requires line <= |t| && column > TextLength(t, line)
    ensures Typed(t, line, column, chars) == Gap(column - TextLength(t, line)) + chars
    ensures PlaceOf(t, line, column) == line + TextLength(t, line)
  {
    assert Spaces(column - TextLength(t, line)) == Gap(column - TextLength(t, line));
  }

  lemma InsertedTextMeaning(t: string, line: nat, column: nat, chars: string)
    requires line <= |t|
    ensures With(t, PlaceOf(t, line, column), Typed(t, line, column, chars)) == InsertedText(t, line, column, chars)
    ensures |InsertedText(t, line, column, chars)| == |t| + |Typed(t, line, column, chars)|
  {
    hide TextLength, Typed, PlaceOf, Gap;
    var end := line + TextLength(t, line);
    if column > TextLength(t, line) {
      TypedBehind(t, line, column, chars);
      assert t[..end] + (Gap(line + column - end) + chars) == t[..end] + Gap(line + column - end) + chars;
    } else {
      TypedInside(t, line, column, chars);
    }
  }

  /** `insert_chars`: the characters stand at their column, spaces before them if the line is shorter; nothing happens
      when all this does not fit the buffer. */
  lemma InsertMeaning(e: Editor, mode: Mode, line: nat, column: nat, chars: string, end: nat)
    requires LineEnd(e.text, line, end)
    ensures var e', t, at := InsertChars(e, mode, line, column, chars), e.text, line + column;
      if at > end then
        if |t| + (at - end) + |chars| >= e.bufferSize then e' == e
        else e'.changed && e'.text == t[..end] + seq(at - end, _ => ' ') + chars + t[end..]
      else
        if |t| + |chars| >= e.bufferSize then e' == e
        else e'.changed && e'.text == t[..at] + chars + t[at..]
  {
    hide Register, TextLength, Typed, PlaceOf, With;
    LineEndIsTextLength(e.text, line, end);
    InsertedTextMeaning(e.text, line, column, chars);
  }

  /** `del_chars` takes out the characters; the number of their block is not used again. */
  lemma DeleteMeaning(e: Editor, mode: Mode, pos: nat, count: nat, back: bool)
    requires pos + count <= |e.text|
    ensures var e' := DelChars(e, mode, pos, count, back); e'.changed && e'.nextBlock > e.nextBlock && e'.text == e.text[..pos] + e.text[pos + count..]
  {
    hide Register;
  }

  /** `replace_char` changes one character. */
  lemma ReplaceMeaning(e: Editor, mode: Mode, pos: nat, ch: char)
    requires pos < |e.text|
    ensures var e' := ReplaceChar(e, mode, pos, ch);
      e'.changed && |e'.text| == |e.text| && forall i :: 0 <= i < |e.text| ==> e'.text[i] == if i == pos then ch else e.text[i]
  {
    hide Register;
  }

  // ----- what is kept for undo -----

  /** A new record is the newest one; the oldest of 99 goes; nothing can be redone any more. It is marked if the text was
      not changed before. */
  ghost predicate Kept(e: Editor, e': Editor, r: Record)
  {
    && r.flags == (if e.changed then 0 else 1) && e'.redo.records == []
    && e'.undo.records == (if |e.undo.records| < 99 then e.undo.records else e.undo.records[1..]) + [r]
  }

  lemma RegisterMeaning(e: Editor, r: Record)
    requires |e.undo.records| <= 99
    ensures Kept(e, Register(e, Normal, r), r.(flags := if e.changed then 0 else 1))
  {
  }

  /** An insertion is kept as its place and length, spaces included. */
  lemma InsertKept(e: Editor, line: nat, column: nat, chars: string, end: nat)
    requires LineEnd(e.text, line, end) && |e.undo.records| <= 99
    ensures var e', at := InsertChars(e, Normal, line, column, chars), line + column;
      var gap := if at > end then at - end else 0;
      |e.text| + gap + |chars| < e.bufferSize ==>
        Kept(e, e', Record(TpIns, if e.changed then 0 else 1, at - gap, '\0', Inserted(gap + |chars|)))
  {
    hide Register, TextLength, Typed, PlaceOf, With;
    var at := line + column;
    LineEndIsTextLength(e.text, line, end);
    InsertedTextMeaning(e.text, line, column, chars);
    if at > end { TypedBehind(e.text, line, column, chars); } else { TypedInside(e.text, line, column, chars); }
    var gap := if at > end then at - end else 0;
    RegisterMeaning(e, Record(TpIns, 0, at - gap, '\0', Inserted(gap + |chars|)));
  }

  /** A deletion is kept with its characters: a single one in the record, several in a block. */
  lemma DeleteKept(e: Editor, pos: nat, count: nat, back: bool)
    requires pos + count <= |e.text| && |e.undo.records| <= 99
    ensures var flags: bv8 := if e.changed then 0 else 1;
      Kept(e, DelChars(e, Normal, pos, count, back),
           if count == 1 then Record(if back then TpBs1 else TpDel1, flags, pos, e.text[pos], Null)
           else Record(if back then TpBsn else TpDeln, flags, pos, '\0', Block(e.nextBlock, e.text[pos..pos + count])))
  {
    hide Register, Without;
    RegisterMeaning(e, DeletionRecord(e.text, pos, count, back, e.nextBlock));
  }

  /** A replacement is kept with the former character. */
  lemma ReplaceKept(e: Editor, pos: nat, ch: char)
    requires pos < |e.text| && |e.undo.records| <= 99
    ensures Kept(e, ReplaceChar(e, Normal, pos, ch), Record(TpRepl, if e.changed then 0 else 1, pos, e.text[pos], Null))
  {
    hide Register;
    RegisterMeaning(e, Record(TpRepl, 0, pos, e.text[pos], Null));
  }

  /** What an undo or a redo of one record keeps for the way back: a removed insertion as a deletion with the cursor behind
      it, the other way round as an insertion. It is marked if the text was not changed before. */
  lemma InverseMeaning(e: Editor, r: Record)
    requires Fits(e.text, r)
    ensures Inverse(e, r).flags == if e.changed then 0 else 1
    ensures Inverse(e, r).offset == r.offset
    ensures r.actionType.TpIns? && r.data.n == 1 ==>
      Inverse(e, r).actionType == TpBs1 && Inverse(e, r).shortData == e.text[r.offset]
    ensures r.actionType.TpIns? && r.data.n != 1 ==>
      Inverse(e, r).actionType == TpBsn && Inverse(e, r).data == Block(e.nextBlock, e.text[r.offset..r.offset + r.data.n])
    ensures r.actionType.TpRepl? ==> Inverse(e, r).actionType == TpRepl && Inverse(e, r).shortData == e.text[r.offset]
    ensures r.actionType.TpBs1? || r.actionType.TpDel1? ==>
      Inverse(e, r).actionType == TpIns && Inverse(e, r).data == Inserted(1)
    ensures r.actionType.TpBsn? || r.actionType.TpDeln? ==>
      Inverse(e, r).actionType == TpIns && Inverse(e, r).data == Inserted(|r.data.text|)
  {
  }

  /** Saving: the text counts as unchanged, and undoing does not lead to a saved text any more; nothing else changes. */
  lemma SaveMeaning(e: Editor)
    ensures var s := Save(e);
      && !s.changed && s.text == e.text && s.redo == e.redo && s.nextBlock == e.nextBlock
      && |s.undo.records| == |e.undo.records|
      && forall i :: 0 <= i < |e.undo.records| ==>
           s.undo.records[i] == e.undo.records[i].(flags := e.undo.records[i].flags & 0xfe)
  {
    forall i | 0 <= i < |e.undo.records|
      ensures Save(e).undo.records[i] == e.undo.records[i].(flags := e.undo.records[i].flags & 0xfe)
    {
      FlagBits(e.undo.records[i]);
    }
  }

  /** An action of several parts: the newest record, and no other, is marked as followed by another part. */
  lemma SequenceMeaning(e: Editor)
    requires e.undo.records != []
    ensures var s, n := MarkSequenced(e), |e.undo.records| - 1;
      && s.text == e.text && s.changed == e.changed && s.redo == e.redo
      && s.undo.records == e.undo.records[..n] + [e.undo.records[n].(flags := e.undo.records[n].flags | 2)]
  {
    FlagTopMeaning(e.undo.records);
    SplitLast(FlagTop(e.undo.records));
  }
}
