/** Undoing records whatever their places are: what it registers, and when a whole group still reaches its text. */
module EditorStray {
  import opened Sequences
  import opened UndoLog
  import opened Editor
  import opened EditorHistory

  // ----- the way back -----

  /** The newest records of a register lead through the texts `past`; nothing is known of older ones. */
  ghost predicate Known(text: string, records: seq<Record>, past: seq<string>, bufferSize: nat)
  {
    |past| <= |records| && History(text, Last(records, |past|), past, bufferSize)
  }

  lemma KnownPush(text: string, records: seq<Record>, past: seq<string>, bufferSize: nat, newText: string, r: Record, size: nat)
    requires Known(text, records, past, bufferSize) && Leads(newText, r, text, bufferSize) && |records| < size
    ensures Known(newText, Pushed(size, records, r), Last(past + [text], size - 1), bufferSize)
  {
    hide Leads, History;
    HistoryPush(text, Last(records, |past|), past, bufferSize, newText, r, size);
    LastPushed(size, records, |past|, r);
    PushedLast(size, past, text);
  }

  lemma PushedLast<T>(size: nat, s: seq<T>, x: T)
    requires |s| < size
    ensures Pushed(size, s, x) == Last(s + [x], size - 1)
  {
  }

  lemma LastPushed<T>(size: nat, s: seq<T>, n: nat, x: T)
    requires n <= |s| < size
    ensures Pushed(size, Last(s, n), x) == Last(Pushed(size, s, x), if n + 1 < size then n + 1 else size - 1)
    ensures |Pushed(size, s, x)| < size
  {
  }

  lemma LastTwice<T>(s: seq<T>, t: seq<T>, n: nat)
    ensures Last(Last(s, n) + t, n) == Last(s + t, n)
  {
  }

  /** The texts from which records are undone that are registered for the way back. */
  function Passed(e: Editor, mode: Mode, records: seq<Record>): (way: seq<string>)
    decreases records
  {
    if records == [] || !Fits(e.text, records[0]) then []
    else (if Stored(e, records[0]) then [e.text] else []) + Passed(UndoIt(e, mode, records[0]), mode, records[1..])
  }

  /** No insertion that is undone leaves a place that is not on a line. */
  predicate Returns(e: Editor, mode: Mode, records: seq<Record>)
    decreases records
  {
    records != [] && Fits(e.text, records[0]) ==>
      var next := UndoIt(e, mode, records[0]);
      InverseExact(next.text, records[0]) && Returns(next, mode, records[1..])
  }

  /** The newest records lead through the texts `past`, exactly. */
  ghost predicate KnownExactly(text: string, records: seq<Record>, past: seq<string>, bufferSize: nat)
  {
    Known(text, records, past, bufferSize) && Reached(text, Last(records, |past|), past, 0)
  }

  lemma ReachedPush(text: string, records: seq<Record>, past: seq<string>, newText: string, r: Record, size: nat)
    requires |records| == |past| && Reached(text, records, past, 0) && Exact(newText, r) && size > 1
    ensures |Pushed(size, records, r)| == |Pushed(size, past, text)|
    ensures Reached(newText, Pushed(size, records, r), Pushed(size, past, text), 0)
  {
    hide Exact;
    var rs, ps := records + [r], past + [text];
    forall j | 0 <= j < |rs| ensures Exact(After(newText, ps, j), rs[j]) {
      if j < |records| { assert After(newText, ps, j) == After(text, past, j); }
    }
    forall j | 0 <= j < |rs| - 1 ensures After(newText, ps[1..], j) == After(newText, ps, j + 1) && rs[1..][j] == rs[j + 1] {
    }
  }

  lemma KnownExactlyPush(text: string, records: seq<Record>, past: seq<string>, bufferSize: nat, newText: string, r: Record, size: nat)
    requires KnownExactly(text, records, past, bufferSize) && Leads(newText, r, text, bufferSize) && Exact(newText, r)
    requires |records| < size && size > 1
    ensures KnownExactly(newText, Pushed(size, records, r), Last(past + [text], size - 1), bufferSize)
  {
    hide Leads, History, Exact, Reached, Last, Pushed;
    KnownPush(text, records, past, bufferSize, newText, r, size);
    ReachedPush(text, Last(records, |past|), past, newText, r, size);
    LastPushed(size, records, |past|, r);
    PushedLast(size, past, text);
  }

  /** What holds of every editor that the program can get into. */
  ghost predicate Sound(e: Editor)
  {
    |e.text| < e.bufferSize && |e.undo.records| < UNDO_BUFFER_SIZE && |e.redo.records| < REDO_BUFFER_SIZE
    && Unsequenced(e.redo.records)
  }

  /** One record that fits is undone. */
  lemma OneStep(e: Editor, mode: Mode, r: Record, past: seq<string>) returns (next: Editor, way: seq<string>)
    requires !mode.Normal? && Sound(e) && Fits(e.text, r) && Known(e.text, Other(e, mode).records, past, e.bufferSize)
    ensures next == UndoIt(e, mode, r) && way == if Stored(e, r) then [e.text] else []
    ensures Sound(next) && next.bufferSize == e.bufferSize && Source(next, mode) == Source(e, mode)
    ensures Known(next.text, Other(next, mode).records, Last(past + way, SizeOfOther(mode) - 1), e.bufferSize)
    ensures KnownExactly(e.text, Other(e, mode).records, past, e.bufferSize) && InverseExact(next.text, r) ==>
      KnownExactly(next.text, Other(next, mode).records, Last(past + way, SizeOfOther(mode) - 1), e.bufferSize)
  {
    hide UndoIt, Leads, History, Exact, InverseExact, Stored, Reached, Last;
    next := UndoIt(e, mode, r);
    way := if Stored(e, r) then [e.text] else [];
    var i := UndoItAnywhere(e, mode, r);
    var records, size := Other(e, mode).records, SizeOfOther(mode);
    if Stored(e, r) {
      LastPushed(size, records, 0, i);
      KnownPush(e.text, records, past, e.bufferSize, next.text, i, size);
      if KnownExactly(e.text, records, past, e.bufferSize) && InverseExact(next.text, r) {
        KnownExactlyPush(e.text, records, past, e.bufferSize, next.text, i, size);
      }
    } else {
      assert past + [] == past;
      AllLast(past, size - 1);
    }
  }

  lemma KnownBounded(e: Editor, mode: Mode, past: seq<string>)
    requires Sound(e) && Known(e.text, Other(e, mode).records, past, e.bufferSize)
    ensures Last(past + [], SizeOfOther(mode) - 1) == past
  {
    assert past + [] == past;
  }

  lemma AllLast<T>(s: seq<T>, n: nat)
    ensures |s| <= n ==> Last(s, n) == s
  {
  }

  /** However the records are undone, the register for the way back leads through all texts passed, as far as it has
      room. It does so exactly if no place of an insertion got lost. */
  lemma {:induction false} UndoAllLeadsBack(e: Editor, mode: Mode, records: seq<Record>, past: seq<string>)
    requires !mode.Normal? && Sound(e) && Known(e.text, Other(e, mode).records, past, e.bufferSize)
    ensures var u := UndoAll(e, mode, records); var kept := Last(past + Passed(e, mode, records), SizeOfOther(mode) - 1);
      && Sound(u) && u.bufferSize == e.bufferSize && Source(u, mode) == Source(e, mode)
      && Known(u.text, Other(u, mode).records, kept, e.bufferSize)
      && (KnownExactly(e.text, Other(e, mode).records, past, e.bufferSize) && Returns(e, mode, records) ==>
            KnownExactly(u.text, Other(u, mode).records, kept, e.bufferSize))
    decreases records
  {
    hide UndoIt, Fits, Stored, InverseExact, Known, KnownExactly, Sound;
    var size := SizeOfOther(mode);
    if records == [] || !Fits(e.text, records[0]) {
      KnownBounded(e, mode, past);
    } else {
      var next, way := OneStep(e, mode, records[0], past);
      UndoAllLeadsBack(next, mode, records[1..], Last(past + way, size - 1));
      AppendAssociative(past, way, Passed(next, mode, records[1..]));
      LastTwice(past + way, Passed(next, mode, records[1..]), size - 1);
    }
  }

  // ----- groups in a buffer with room -----

  /** Nothing that is put back finds the buffer full. */
  predicate Roomy(e: Editor, mode: Mode, records: seq<Record>)
    decreases records
  {
    records != [] && Fits(e.text, records[0]) ==>
      Stored(e, records[0]) && Roomy(UndoIt(e, mode, records[0]), mode, records[1..])
  }

  /** A text that has become too long stays too long: nothing cancels the spaces. */
  lemma {:induction false} StaysLonger(e: Editor, mode: Mode, text: string, records: seq<Record>, past: seq<string>)
    requires !mode.Normal? && History(text, records, past, e.bufferSize) && |text| < |e.text| < e.bufferSize
    requires Roomy(e, mode, Reverse(records))
    ensures var u := UndoAll(e, mode, Reverse(records));
      && |u.text| > (if records == [] then |text| else |past[0]|)
      && u.changed == (if records == [] then e.changed else !records[0].WasUnchanged())
    decreases records
  {
    hide UndoIt, Stored;
    if records != [] {
      var n := |records| - 1;
      HistoryPop(text, records, past, e.bufferSize);
      ReverseLast(records);
      var i := UndoItAnywhere(e, mode, records[n]);
      StaysLonger(UndoIt(e, mode, records[n]), mode, past[n], records[..n], past[..n]);
    }
  }

  lemma StrayOverhang(t: string, r: Record)
    requires Fits(t, r) && !Exact(t, r)
    ensures !r.actionType.TpIns? && !r.actionType.TpRepl? && r.offset <= |t| && Overhang(t, r.offset) > 0
  {
  }

  /** A group is undone to its oldest text if and only if every record of it is undone exactly. */
  lemma {:induction false} UndoAllExact(e: Editor, mode: Mode, records: seq<Record>, past: seq<string>)
    requires !mode.Normal? && records != [] && History(e.text, records, past, e.bufferSize) && Roomy(e, mode, Reverse(records))
    ensures var u := UndoAll(e, mode, Reverse(records));
      && (u.text == past[0] <==> Reached(e.text, records, past, 0)) && u.changed == !records[0].WasUnchanged()
    decreases records
  {
    hide UndoIt, Stored, Exact, Overhang, LineOf, With, Without;
    var n := |records| - 1;
    var r, next := records[n], UndoIt(e, mode, records[n]);
    HistoryPop(e.text, records, past, e.bufferSize);
    ReachedPop(e.text, records, past, 0);
    ReverseLast(records);
    var i := UndoItAnywhere(e, mode, r);
    if Exact(e.text, r) {
      UndoItLeads(e, mode, r, past[n]);
      if n > 0 { UndoAllExact(next, mode, records[..n], past[..n]); }
    } else {
      StrayOverhang(e.text, r);
      StaysLonger(next, mode, past[n], records[..n], past[..n]);
    }
  }
}
