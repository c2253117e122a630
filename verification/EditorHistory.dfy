/** The texts that lie behind the records of a register, and what undoing a group of records does to them. */
module EditorHistory {
  import opened Sequences
  import opened UndoLog
  import opened Editor

  // ----- the texts behind the records -----

  /** The text from which record `i` is undone. */
  ghost function After(text: string, past: seq<string>, i: nat): string
  {
    if i + 1 < |past| then past[i + 1] else text
  }

  /** Undoing the records one after another, from the newest, goes through the texts `past`, from the last. */
  ghost predicate History(text: string, records: seq<Record>, past: seq<string>, bufferSize: nat)
  {
    && |past| == |records|
    && forall i {:trigger records[i]} :: 0 <= i < |records| ==> Leads(After(text, past, i), records[i], past[i], bufferSize)
  }

  /** A list limited to `size - 1` elements forgets the oldest one. */
  function Pushed<T>(size: nat, s: seq<T>, x: T): seq<T>
  {
    if |s| + 1 < size then s + [x] else (s + [x])[1..]
  }

  lemma HistoryPush(text: string, records: seq<Record>, past: seq<string>, bufferSize: nat,
                    newText: string, r: Record, size: nat)
    requires History(text, records, past, bufferSize) && Leads(newText, r, text, bufferSize)
    ensures History(newText, Pushed(size, records, r), Pushed(size, past, text), bufferSize)
  {
    var rs, ps := records + [r], past + [text];
    forall i | 0 <= i < |rs| ensures Leads(After(newText, ps, i), rs[i], ps[i], bufferSize) {
      if i < |records| {
        assert After(newText, ps, i) == After(text, past, i);
      }
    }
    forall i | 0 <= i < |rs| - 1 ensures After(newText, ps[1..], i) == After(newText, ps, i + 1) {
    }
  }

  lemma HistoryPop(text: string, records: seq<Record>, past: seq<string>, bufferSize: nat)
    requires records != [] && History(text, records, past, bufferSize)
    ensures var n := |records| - 1;
      History(past[n], records[..n], past[..n], bufferSize) && Leads(text, records[n], past[n], bufferSize)
  {
    var n := |records| - 1;
    forall i | 0 <= i < n ensures Leads(After(past[n], past[..n], i), records[..n][i], past[..n][i], bufferSize) {
      assert After(past[n], past[..n], i) == After(text, past, i);
    }
    assert After(text, past, n) == text;
  }

  lemma HistoryNewest(text: string, records: seq<Record>, past: seq<string>, bufferSize: nat, k: nat)
    requires k < |records| && History(text, records, past, bufferSize)
    ensures History(text, records[k..], past[k..], bufferSize)
  {
    var rs, ps := records[k..], past[k..];
    forall i | 0 <= i < |rs| ensures Leads(After(text, ps, i), rs[i], ps[i], bufferSize) {
      assert Leads(After(text, past, k + i), records[k + i], past[k + i], bufferSize);
    }
  }

  lemma {:induction false} HistoryOldest(text: string, records: seq<Record>, past: seq<string>, bufferSize: nat, k: nat)
    requires k < |records| && History(text, records, past, bufferSize)
    ensures History(past[k], records[..k], past[..k], bufferSize)
    decreases |records|
  {
    var n := |records| - 1;
    HistoryPop(text, records, past, bufferSize);
    if k < n {
      HistoryOldest(past[n], records[..n], past[..n], bufferSize, k);
      SplitLastFrom(records, k);
      SplitLastFrom(past, k);
    }
  }

  // ----- exactness -----

  /** Record `i` and all newer ones are undone exactly. */
  ghost predicate Reached(text: string, records: seq<Record>, past: seq<string>, i: nat)
    requires |past| == |records|
  {
    forall j {:trigger records[j]} :: i <= j < |records| ==> Exact(After(text, past, j), records[j])
  }

  /** The same as the editor can see it before it undoes the records, the first one first. */
  predicate Exactly(e: Editor, mode: Mode, records: seq<Record>)
    decreases records
  {
    records != [] ==>
      && Fits(e.text, records[0]) && Exact(e.text, records[0])
      && Exactly(UndoIt(e, mode, records[0]), mode, records[1..])
  }

  lemma ReachedPop(text: string, records: seq<Record>, past: seq<string>, i: nat)
    requires i < |records| == |past|
    ensures var n := |records| - 1;
      Reached(text, records, past, i) <==> Exact(text, records[n]) && Reached(past[n], records[..n], past[..n], i)
  {
    var n := |records| - 1;
    forall j | 0 <= j < n ensures After(past[n], past[..n], j) == After(text, past, j) && records[..n][j] == records[j] {
    }
    if Exact(text, records[n]) && Reached(past[n], records[..n], past[..n], i) {
      forall j | i <= j < |records| ensures Exact(After(text, past, j), records[j]) {
        if j < n { assert Exact(After(past[n], past[..n], j), records[..n][j]); }
      }
    }
  }

  lemma ReachedNewest(text: string, records: seq<Record>, past: seq<string>, k: nat)
    requires k < |records| == |past|
    ensures Reached(text, records[k..], past[k..], 0) <==> Reached(text, records, past, k)
  {
    var rs, ps := records[k..], past[k..];
    forall j | 0 <= j < |rs| ensures After(text, ps, j) == After(text, past, k + j) && rs[j] == records[k + j] {
    }
    if Reached(text, rs, ps, 0) {
      forall j | k <= j < |records| ensures Exact(After(text, past, j), records[j]) {
        assert Exact(After(text, ps, j - k), rs[j - k]);
      }
    }
  }

  lemma ReverseLast<T>(s: seq<T>)
    requires s != []
    ensures Reverse(s) == [s[|s| - 1]] + Reverse(s[..|s| - 1])
    ensures Reverse(s)[0] == s[|s| - 1] && Reverse(s)[1..] == Reverse(s[..|s| - 1])
  {
    SplitLast(s);
    ReverseSnoc(s[..|s| - 1], s[|s| - 1]);
  }

  /** What the editor sees is the exactness of the whole way. */
  lemma {:induction false} ExactlyMeansReached(e: Editor, mode: Mode, records: seq<Record>, past: seq<string>)
    requires !mode.Normal? && History(e.text, records, past, e.bufferSize)
    ensures Exactly(e, mode, Reverse(records)) <==> Reached(e.text, records, past, 0)
    decreases records
  {
    if records != [] {
      var n := |records| - 1;
      HistoryPop(e.text, records, past, e.bufferSize);
      ReachedPop(e.text, records, past, 0);
      ReverseLast(records);
      if Exact(e.text, records[n]) {
        UndoItLeads(e, mode, records[n], past[n]);
        ExactlyMeansReached(UndoIt(e, mode, records[n]), mode, records[..n], past[..n]);
      }
    }
  }

  // ----- the texts passed -----

  /** The texts the editor goes through while it undoes records. */
  function Trace(e: Editor, mode: Mode, records: seq<Record>): seq<string>
    decreases records
  {
    if records == [] || !Fits(e.text, records[0]) then []
    else
      var next := UndoIt(e, mode, records[0]);
      [next.text] + Trace(next, mode, records[1..])
  }

  /** Record `i` and all newer ones are undone exactly, or have nothing to put back and no room for spaces. */
  ghost predicate Harmless(text: string, records: seq<Record>, past: seq<string>, i: nat, bufferSize: nat)
    requires |past| == |records|
  {
    forall j {:trigger records[j]} :: i <= j < |records| ==>
      Exact(After(text, past, j), records[j]) || NothingFits(After(text, past, j), records[j], bufferSize)
  }

  lemma HarmlessPop(text: string, records: seq<Record>, past: seq<string>, i: nat, bufferSize: nat)
    requires i < |records| == |past|
    ensures var n := |records| - 1;
      Harmless(text, records, past, i, bufferSize)
      <==> (Exact(text, records[n]) || NothingFits(text, records[n], bufferSize))
           && Harmless(past[n], records[..n], past[..n], i, bufferSize)
  {
    var n, bs := |records| - 1, bufferSize;
    forall j | 0 <= j < n ensures After(past[n], past[..n], j) == After(text, past, j) && records[..n][j] == records[j] {
    }
    if (Exact(text, records[n]) || NothingFits(text, records[n], bs)) && Harmless(past[n], records[..n], past[..n], i, bs) {
      forall j | i <= j < |records|
        ensures Exact(After(text, past, j), records[j]) || NothingFits(After(text, past, j), records[j], bs)
      {
        if j < n {
          var a := After(past[n], past[..n], j);
          assert Exact(a, records[..n][j]) || NothingFits(a, records[..n][j], bs);
        }
      }
    }
  }

  /** Undoing records goes exactly through their texts if and only if every record has its place on a line when its turn
      comes (or has nothing to put back and no room). */
  lemma {:induction false} TraceExact(e: Editor, mode: Mode, records: seq<Record>, past: seq<string>)
    requires !mode.Normal? && History(e.text, records, past, e.bufferSize)
    ensures Trace(e, mode, Reverse(records)) == Reverse(past) <==> Harmless(e.text, records, past, 0, e.bufferSize)
    decreases records
  {
    if records != [] {
      var n := |records| - 1;
      HistoryPop(e.text, records, past, e.bufferSize);
      HarmlessPop(e.text, records, past, 0, e.bufferSize);
      ReverseLast(records);
      ReverseLast(past);
      UndoItExact(e, mode, records[n], past[n]);
      var next := UndoIt(e, mode, records[n]);
      ConsEqual(next.text, Trace(next, mode, Reverse(records[..n])), past[n], Reverse(past[..n]));
      if next.text == past[n] { TraceExact(next, mode, records[..n], past[..n]); }
    }
  }

  lemma ConsEqual<T>(x: T, s: seq<T>, y: T, t: seq<T>)
    ensures [x] + s == [y] + t <==> x == y && s == t
  {
    if [x] + s == [y] + t { assert s == ([x] + s)[1..] && t == ([y] + t)[1..] && ([x] + s)[0] == x && ([y] + t)[0] == y; }
  }

  // ----- undoing a group -----

  /** The texts that undoing through `past` leaves for the way back. */
  function PushAll(size: nat, s: seq<string>, text: string, past: seq<string>): seq<string>
    decreases past
  {
    if past == [] then s
    else PushAll(size, Pushed(size, s, text), past[|past| - 1], past[..|past| - 1])
  }

  ghost predicate Unsequenced(records: seq<Record>)
  {
    forall i :: 0 <= i < |records| ==> !records[i].Sequenced()
  }

  lemma UnsequencedPush(size: nat, records: seq<Record>, r: Record)
    requires Unsequenced(records) && !r.Sequenced()
    ensures Unsequenced(Pushed(size, records, r))
  {
  }

  /** What undoing a record leaves in the other register. */
  ghost predicate Left(e: Editor, next: Editor, mode: Mode, i: Record)
  {
    && Other(next, mode).records == Pushed(SizeOfOther(mode), Other(e, mode).records, i)
    && !i.Sequenced() && i.WasUnchanged() == !e.changed
  }

  /** One round: the newest record is undone first. */
  lemma NewestFirst(e: Editor, mode: Mode, records: seq<Record>)
    requires records != [] && Fits(e.text, records[|records| - 1])
    ensures var n := |records| - 1;
      UndoAll(e, mode, Reverse(records)) == UndoAll(UndoIt(e, mode, records[n]), mode, Reverse(records[..n]))
  {
    hide UndoIt, Fits;
    ReverseLast(records);
  }

  lemma UndoNewest(e: Editor, mode: Mode, records: seq<Record>, past: seq<string>, otherPast: seq<string>)
    returns (next: Editor, i: Record)
    requires !mode.Normal? && records != [] && History(e.text, records, past, e.bufferSize)
    requires History(e.text, Other(e, mode).records, otherPast, e.bufferSize) && Exact(e.text, records[|records| - 1])
    ensures var n := |records| - 1;
      && UndoAll(e, mode, Reverse(records)) == UndoAll(next, mode, Reverse(records[..n]))
      && next.text == past[n] && next.changed == !records[n].WasUnchanged()
      && next.bufferSize == e.bufferSize && Source(next, mode) == Source(e, mode)
      && History(past[n], records[..n], past[..n], e.bufferSize)
      && History(past[n], Other(next, mode).records, Pushed(SizeOfOther(mode), otherPast, e.text), e.bufferSize)
    ensures Left(e, next, mode, i)
  {
    hide UndoAll, UndoIt, Leads, Exact, InverseExact, Inverse, Reverse;
    var n := |records| - 1;
    var r := records[n];
    HistoryPop(e.text, records, past, e.bufferSize);
    NewestFirst(e, mode, records);
    UndoItLeads(e, mode, r, past[n]);
    next := UndoIt(e, mode, r);
    i := Inverse(e, r);
    InverseMarks(e, r);
    HistoryPush(e.text, Other(e, mode).records, otherPast, e.bufferSize, past[n], i, SizeOfOther(mode));
  }

  lemma InverseMarks(e: Editor, r: Record)
    requires Fits(e.text, r)
    ensures !Inverse(e, r).Sequenced() && Inverse(e, r).WasUnchanged() == !e.changed
  {
  }

  /** Undoing records that have a history exactly reaches its oldest text, and extends the history of the other
      register. */
  lemma {:induction false} UndoAllFollows(e: Editor, mode: Mode, records: seq<Record>, past: seq<string>, otherPast: seq<string>)
    requires !mode.Normal? && History(e.text, records, past, e.bufferSize) && Reached(e.text, records, past, 0)
    requires History(e.text, Other(e, mode).records, otherPast, e.bufferSize)
    ensures var e' := UndoAll(e, mode, Reverse(records));
      && e'.text == (if records == [] then e.text else past[0])
      && e'.changed == (if records == [] then e.changed else !records[0].WasUnchanged())
      && e'.bufferSize == e.bufferSize && Source(e', mode) == Source(e, mode)
      && History(e'.text, Other(e', mode).records, PushAll(SizeOfOther(mode), otherPast, e.text, past), e.bufferSize)
      && (Unsequenced(Other(e, mode).records) ==> Unsequenced(Other(e', mode).records))
    decreases records
  {
    hide UndoIt, Exact;
    if records != [] {
      hide UndoAll;
      var n := |records| - 1;
      ReachedPop(e.text, records, past, 0);
      var next, i := UndoNewest(e, mode, records, past, otherPast);
      UndoAllFollows(next, mode, records[..n], past[..n], Pushed(SizeOfOther(mode), otherPast, e.text));
      if Unsequenced(Other(e, mode).records) { UnsequencedPush(SizeOfOther(mode), Other(e, mode).records, i); }
    }
  }

  /** Undoing the newest records of a register, from `k` on, in either mode. */
  lemma GroupFollows(e: Editor, mode: Mode, records: seq<Record>, past: seq<string>, otherPast: seq<string>, k: nat)
    requires !mode.Normal? && k < |records| && History(e.text, records, past, e.bufferSize)
    requires Reached(e.text, records, past, k) && History(e.text, Other(e, mode).records, otherPast, e.bufferSize)
    ensures var e' := UndoAll(e, mode, Reverse(records[k..]));
      && e'.text == past[k] && |past[k]| < e.bufferSize && e'.bufferSize == e.bufferSize
      && Source(e', mode) == Source(e, mode) && e'.changed == !records[k].WasUnchanged()
      && History(past[k], Other(e', mode).records, PushAll(SizeOfOther(mode), otherPast, e.text, past[k..]), e.bufferSize)
      && (Unsequenced(Other(e, mode).records) ==> Unsequenced(Other(e', mode).records))
    ensures History(past[k], records[..k], past[..k], e.bufferSize)
  {
    hide UndoAll, UndoIt, Exact, Reverse;
    HistoryNewest(e.text, records, past, e.bufferSize, k);
    HistoryOldest(e.text, records, past, e.bufferSize, k);
    assert Leads(After(e.text, past, k), records[k], past[k], e.bufferSize);
    ReachedNewest(e.text, records, past, k);
    UndoAllFollows(e, mode, records[k..], past[k..], otherPast);
    assert past[k..][0] == past[k] && records[k..][0] == records[k];
  }
}
