/** The bit map of columns (t_atrmap_flex): a set of small numbers kept in 32-bit units, and its enumerator. */
module ColumnMap {
  import opened Bits

  const UNITS_IN_STATIC_MAP := 4

  // ----- a map as a value: units, and the set of numbers they stand for -----

  /** The number `n` is in the map. */
  predicate HasBit(units: seq<word>, n: nat)
    requires n < |units| * UNIT_BITS
  {
    Bit(units[n / UNIT_BITS], n % UNIT_BITS)
  }

  /** The set a map stands for: all bits of its units, those past the last column included. */
  ghost function Elements(units: seq<word>): set<nat>
  {
    set n: nat | n < |units| * UNIT_BITS && HasBit(units, n)
  }

  /** The number n is bit n % 32, counted from the lowest, of unit n / 32. */
  lemma ElementsMeaning(units: seq<word>, n: nat)
    ensures n in Elements(units) <==> n < 32 * |units| && units[n / 32] / Pow2(n % 32) % 2 == 1
  {
    if n < 32 * |units| { BitWeight(units[n / 32], n % 32); }
  }

  function UnitCount(bitcount: nat): (n: nat)
    ensures bitcount <= n * UNIT_BITS < bitcount + UNIT_BITS
  {
    if bitcount == 0 then 0 else (bitcount - 1) / UNIT_BITS + 1
  }

  lemma Number(u: nat, p: nat)
    requires p < UNIT_BITS
    ensures (u * UNIT_BITS + p) / UNIT_BITS == u && (u * UNIT_BITS + p) % UNIT_BITS == p
  {
  }

  /** The units after `add(n)`. */
  function AddTo(units: seq<word>, n: nat): (r: seq<word>)
    requires n < |units| * UNIT_BITS
    ensures |r| == |units|
  {
    units[n / UNIT_BITS := OrWord(units[n / UNIT_BITS], MaskWord(n % UNIT_BITS))]
  }

  lemma AddBit(units: seq<word>, n: nat, k: nat)
    requires n < |units| * UNIT_BITS && k < |units| * UNIT_BITS
    ensures HasBit(AddTo(units, n), k) <==> HasBit(units, k) || k == n
  {
    if k / UNIT_BITS == n / UNIT_BITS {
      OrMask(units[n / UNIT_BITS], n % UNIT_BITS, k % UNIT_BITS);
    }
  }

  /** Adding a number adds that number and nothing else. */
  lemma AddElement(units: seq<word>, n: nat)
    requires n < |units| * UNIT_BITS
    ensures Elements(AddTo(units, n)) == Elements(units) + {n}
  {
    forall k: nat | k < |units| * UNIT_BITS ensures HasBit(AddTo(units, n), k) <==> HasBit(units, k) || k == n {
      AddBit(units, n, k);
    }
  }

  /** The units after `union_` with a map that is not larger. */
  ghost predicate Merged(a: seq<word>, b: seq<word>, c: seq<word>)
  {
    && |b| <= |a| == |c|
    && (forall i :: 0 <= i < |b| ==> c[i] == OrWord(a[i], b[i]))
    && (forall i :: |b| <= i < |a| ==> c[i] == a[i])
  }

  lemma MergedBit(a: seq<word>, b: seq<word>, c: seq<word>, k: nat)
    requires Merged(a, b, c) && k < |a| * UNIT_BITS
    ensures HasBit(c, k) <==> HasBit(a, k) || (k < |b| * UNIT_BITS && HasBit(b, k))
  {
    var i := k / UNIT_BITS;
    if i < |b| { OrBit(a[i], b[i], k % UNIT_BITS); }
  }

  lemma UnionElements(a: seq<word>, b: seq<word>, c: seq<word>)
    requires Merged(a, b, c)
    ensures Elements(c) == Elements(a) + Elements(b)
  {
    forall k: nat | k < |a| * UNIT_BITS
      ensures HasBit(c, k) <==> HasBit(a, k) || (k < |b| * UNIT_BITS && HasBit(b, k))
    {
      MergedBit(a, b, c, k);
    }
  }

  /** Some unit of the two maps has a common bit. */
  ghost predicate ShareUnit(a: seq<word>, b: seq<word>)
  {
    |a| <= |b| && exists i :: 0 <= i < |a| && And(a[i], b[i]) != 0
  }

  /** Units that have a common bit contain a common number, and the other way round. */
  lemma CommonNumber(a: seq<word>, b: seq<word>)
    requires |a| <= |b|
    ensures ShareUnit(a, b) <==> Meet(a, b)
  {
    if i :| 0 <= i < |a| && And(a[i], b[i]) != 0 {
      var p := SomeBit(And(a[i], b[i]));
      AndBit(a[i], b[i], p);
      WordLimit();
      BitBelow(a[i], UNIT_BITS, p);
      Number(i, p);
      assert i * UNIT_BITS + p in Elements(a) && i * UNIT_BITS + p in Elements(b);
    }
    if n :| n in Elements(a) && n in Elements(b) {
      var i, p := n / UNIT_BITS, n % UNIT_BITS;
      AndBit(a[i], b[i], p);
      ZeroHasNoBits(p);
      assert And(a[i], b[i]) != 0;
    }
  }

  /** Comparing units compares the sets, padding included. */
  lemma EqualUnits(a: seq<word>, b: seq<word>)
    requires |a| == |b|
    ensures a == b <==> Elements(a) == Elements(b)
  {
    if Elements(a) == Elements(b) {
      forall i | 0 <= i < |a| ensures a[i] == b[i] {
        forall p: nat ensures Bit(a[i], p) <==> Bit(b[i], p) {
          WordLimit();
          if p < UNIT_BITS {
            Number(i, p);
            assert i * UNIT_BITS + p in Elements(a) <==> i * UNIT_BITS + p in Elements(b);
          } else {
            if Bit(a[i], p) { BitBelow(a[i], UNIT_BITS, p); }
            if Bit(b[i], p) { BitBelow(b[i], UNIT_BITS, p); }
          }
        }
        SameBits(a[i], b[i]);
      }
    }
  }

  /** Two maps have a common number. */
  ghost predicate Meet(a: seq<word>, b: seq<word>)
  {
    exists n :: n in Elements(a) && n in Elements(b)
  }

  // ----- padding -----

  /** The columns among the elements. */
  ghost function Columns(units: seq<word>, bitcount: nat): set<nat>
  {
    set n | n in Elements(units) && n < bitcount
  }

  /** A map built by `clear` or `set_all` and then `add`, `=` and `union_`: it has nothing past the last column, or it is
      full. */
  ghost predicate Built(units: seq<word>, bitcount: nat)
  {
    && |units| == UnitCount(bitcount)
    && (Columns(units, bitcount) == Elements(units) || forall n: nat :: n < |units| * UNIT_BITS ==> n in Elements(units))
  }

  lemma FilledElements(units: seq<word>, full: bool)
    requires forall i :: 0 <= i < |units| ==> units[i] == if full then ALL_BITS else 0
    ensures if full then forall n: nat :: n < |units| * UNIT_BITS ==> n in Elements(units) else Elements(units) == {}
  {
    forall n: nat | n < |units| * UNIT_BITS ensures HasBit(units, n) == full {
      WordLimit();
      FullWord(UNIT_BITS, n % UNIT_BITS);
      ZeroHasNoBits(n % UNIT_BITS);
    }
  }

  lemma BuiltByAdd(units: seq<word>, bitcount: nat, n: nat)
    requires Built(units, bitcount) && n < bitcount
    ensures Built(AddTo(units, n), bitcount)
  {
    AddElement(units, n);
  }

  lemma BuiltByUnion(a: seq<word>, b: seq<word>, c: seq<word>, bitcount: nat)
    requires Built(a, bitcount) && Built(b, bitcount) && |c| == |a| && Elements(c) == Elements(a) + Elements(b)
    ensures Built(c, bitcount)
  {
    if forall n: nat :: n < |a| * UNIT_BITS ==> n in Elements(a) {
    } else if forall n: nat :: n < |b| * UNIT_BITS ==> n in Elements(b) {
    } else {
      assert Columns(c, bitcount) == Elements(c);
    }
  }

  ghost predicate MeetInColumns(a: seq<word>, b: seq<word>, bitcount: nat)
  {
    exists n :: n in Columns(a, bitcount) && n in Columns(b, bitcount)
  }

  /** For such maps the padding never decides: there is a common number if and only if there is a common column. */
  lemma PaddingHarmless(a: seq<word>, b: seq<word>, bitcount: nat)
    requires Built(a, bitcount) && Built(b, bitcount)
    ensures Meet(a, b) <==> MeetInColumns(a, b, bitcount)
  {
    if n :| n in Elements(a) && n in Elements(b) {
      if n < bitcount {
        assert n in Columns(a, bitcount) && n in Columns(b, bitcount);
      } else {
        assert n !in Columns(a, bitcount) && n !in Columns(b, bitcount);
        assert 0 in Columns(a, bitcount) && 0 in Columns(b, bitcount);
      }
    }
  }

  // ----- the map -----

  class AtrMapFlex {
    var bitcount: nat
    var unitcount: nat
    const staticMap: array<word>
    var pmap: array?<word>      // null when the static map is used

    ghost predicate Valid()
      reads this
    {
      && staticMap.Length == UNITS_IN_STATIC_MAP && unitcount == UnitCount(bitcount)
      && (if unitcount > UNITS_IN_STATIC_MAP then pmap != null && pmap.Length == unitcount else pmap == null)
    }

    function TheMap(): array<word>
      reads this
    {
      if pmap != null then pmap else staticMap
    }

    ghost function Units(): seq<word>
      reads this, TheMap()
      requires Valid()
    {
      TheMap()[..unitcount]
    }

    constructor ()
      ensures Valid() && bitcount == UNIT_BITS * UNITS_IN_STATIC_MAP && fresh(staticMap)
    {
      staticMap := new word[UNITS_IN_STATIC_MAP];
      bitcount, unitcount, pmap := UNIT_BITS * UNITS_IN_STATIC_MAP, UNITS_IN_STATIC_MAP, null;
    }

    /** Chooses the size; the contents are undefined until the map is cleared or filled. `freed` is the former block. */
    method Init(bitcountIn: nat) returns (freed: array?<word>)
      requires Valid()
      modifies this
      ensures Valid() && bitcount == bitcountIn && (pmap != null ==> fresh(pmap)) && freed == old(pmap)
    {
      freed := pmap;
      bitcount := bitcountIn;
      unitcount := if bitcountIn == 0 then 0 else (bitcountIn - 1) / UNIT_BITS + 1;
      if unitcount > UNITS_IN_STATIC_MAP {
        pmap := new word[unitcount];
      } else {
        pmap := null;
      }
    }

    /** `clear` and `set_all`: all units get the same value. */
    method Fill(full: bool)
      requires Valid()
      modifies TheMap()
      ensures Valid() && Built(Units(), bitcount)
      ensures forall n: nat :: n < bitcount ==> (n in Columns(Units(), bitcount) <==> full)
      ensures if full then forall n: nat :: n < 32 * unitcount ==> n in Elements(Units()) else Elements(Units()) == {}
    {
      var units := TheMap();
      for i := 0 to unitcount
        invariant forall k :: 0 <= k < i ==> units[k] == if full then ALL_BITS else 0
      {
        units[i] := if full then ALL_BITS else 0;
      }
      FilledElements(Units(), full);
    }

    method Add(num: nat)
      requires Valid() && num < unitcount * UNIT_BITS
      modifies TheMap()
      ensures Valid() && Elements(Units()) == old(Elements(Units())) + {num}
      ensures num < bitcount && old(Built(Units(), bitcount)) ==> Built(Units(), bitcount)
    {
      ghost var before := Units();
      AddElement(before, num);
      if num < bitcount && Built(before, bitcount) { BuiltByAdd(before, bitcount, num); }
      SetBit(num);
    }

    method SetBit(num: nat)
      requires Valid() && num < unitcount * UNIT_BITS
      modifies TheMap()
      ensures Valid() && Units() == AddTo(old(Units()), num)
    {
      TheMap()[num / UNIT_BITS] := OrWord(TheMap()[num / UNIT_BITS], MaskWord(num % UNIT_BITS));
    }

    predicate Has(num: nat)
      reads this, TheMap()
      requires Valid() && num < unitcount * UNIT_BITS
      ensures Has(num) <==> num in Elements(Units())
    {
      AndMask(TheMap()[num / UNIT_BITS], num % UNIT_BITS);
      And(TheMap()[num / UNIT_BITS], Mask(num % UNIT_BITS)) != 0
    }

    /** True if and only if the two maps have a common number. The other map must not be smaller. */
    method Intersects(other: AtrMapFlex) returns (r: bool)
      requires Valid() && other.Valid() && unitcount <= other.unitcount
      ensures r <==> Meet(Units(), other.Units())
      ensures bitcount == other.bitcount && Built(Units(), bitcount) && Built(other.Units(), bitcount) ==>
        (r <==> MeetInColumns(Units(), other.Units(), bitcount))
    {
      r := CommonUnit(TheMap(), other.TheMap(), unitcount, other.unitcount);
      ghost var a, b := Units(), other.Units();
      CommonNumber(a, b);
      if bitcount == other.bitcount && Built(a, bitcount) && Built(b, bitcount) {
        PaddingHarmless(a, b, bitcount);
      }
    }

    /** Adds the numbers of a map that is not larger; also of itself. */
    method Union(other: AtrMapFlex)
      requires Valid() && other.Valid() && other.unitcount <= unitcount
      requires other == this || other.TheMap() != TheMap()
      modifies TheMap()
      ensures Valid() && other.Valid()
      ensures Elements(Units()) == old(Elements(Units())) + old(Elements(other.Units()))
      ensures other != this ==> other.Units() == old(other.Units())
      ensures bitcount == other.bitcount && old(Built(Units(), bitcount)) && old(Built(other.Units(), other.bitcount)) ==>
        Built(Units(), bitcount)
    {
      ghost var mine, others := Units(), other.Units();
      MergeUnits(TheMap(), other.TheMap(), other.unitcount);
      UnionElements(mine, others, Units());
      if bitcount == other.bitcount && Built(mine, bitcount) && Built(others, bitcount) {
        BuiltByUnion(mine, others, Units(), bitcount);
      }
    }

    /** Assignment between maps of the same size. */
    method Assign(other: AtrMapFlex)
      requires Valid() && other.Valid() && other.bitcount == bitcount
      modifies TheMap()
      ensures Valid() && Units() == old(other.Units())
    {
      var mine, others := TheMap(), other.TheMap();
      for i := 0 to unitcount
        invariant mine[..i] == old(other.Units())[..i]
        invariant other.Units() == old(other.Units())
      {
        assert others[i] == other.Units()[i];
        mine[i] := others[i];
      }
    }

    /** Equality of maps of the same size: agreement on every number, padding included. */
    method Equals(other: AtrMapFlex) returns (r: bool)
      requires Valid() && other.Valid() && other.unitcount == unitcount
      ensures r <==> Elements(Units()) == Elements(other.Units())
    {
      r := SameUnits(TheMap(), other.TheMap(), unitcount);
      EqualUnits(Units(), other.Units());
    }
  }

  /** The loop of `intersects`. */
  method CommonUnit(a: array<word>, b: array<word>, n: nat, ghost m: nat) returns (r: bool)
    requires n <= a.Length && n <= m <= b.Length
    ensures r <==> ShareUnit(a[..n], b[..m])
  {
    var i := n;
    while i > 0
      invariant 0 <= i <= n
      invariant forall k :: i <= k < n ==> And(a[k], b[k]) == 0
    {
      i := i - 1;
      if And(a[i], b[i]) != 0 {
        assert And(a[..n][i], b[..m][i]) != 0;
        return true;
      }
    }
    assert forall k :: 0 <= k < n ==> And(a[..n][k], b[..m][k]) == 0;
    return false;
  }

  /** The loop of `==`. */
  method SameUnits(a: array<word>, b: array<word>, n: nat) returns (r: bool)
    requires n <= a.Length && n <= b.Length
    ensures r <==> a[..n] == b[..n]
  {
    var i := n;
    while i > 0
      invariant 0 <= i <= n
      invariant forall k :: i <= k < n ==> a[k] == b[k]
    {
      i := i - 1;
      if a[i] != b[i] {
        assert a[..n][i] != b[..n][i];
        return false;
      }
    }
    return true;
  }

  /** The loop of `union_`, from the last unit to the first. */
  method MergeUnits(mine: array<word>, others: array<word>, n: nat)
    requires n <= others.Length && n <= mine.Length
    modifies mine
    ensures forall i :: 0 <= i < n ==> mine[i] == OrWord(old(mine[i]), old(others[i]))
    ensures forall i :: n <= i < mine.Length ==> mine[i] == old(mine[i])
  {
    var i := n;
    while i > 0
      invariant 0 <= i <= n
      invariant forall k :: 0 <= k < i ==> mine[k] == old(mine[k]) && others[k] == old(others[k])
      invariant forall k :: i <= k < n ==> mine[k] == OrWord(old(mine[k]), old(others[k]))
      invariant forall k :: n <= k < mine.Length ==> mine[k] == old(mine[k])
    {
      i := i - 1;
      mine[i] := OrWord(mine[i], others[i]);
    }
  }

  // ----- the enumerator -----

  /** No element above `lo` and up to `hi`. */
  ghost predicate NoneAfter(units: seq<word>, lo: int, hi: int)
  {
    forall n: nat :: lo < n <= hi ==> n !in Elements(units)
  }

  lemma ZeroUnitSkipped(units: seq<word>, u: nat, lo: int)
    requires u < |units| && units[u] == 0 && NoneAfter(units, lo, u * UNIT_BITS - 1)
    ensures NoneAfter(units, lo, u * UNIT_BITS + UNIT_BITS - 1)
  {
    forall n: nat | lo < n <= u * UNIT_BITS + UNIT_BITS - 1 ensures n !in Elements(units) {
      if n >= u * UNIT_BITS {
        assert n / UNIT_BITS == u;
        ZeroHasNoBits(n % UNIT_BITS);
      }
    }
  }

  lemma BitSkipped(units: seq<word>, u: nat, p: nat, lo: int)
    requires u < |units| && p < UNIT_BITS && !Bit(units[u], p) && NoneAfter(units, lo, u * UNIT_BITS + p - 1)
    ensures NoneAfter(units, lo, u * UNIT_BITS + p)
  {
    Number(u, p);
  }

  class AtrMapEnum {
    var unitInd: int
    var unitPos: int      // the last checked position
    const columns: AtrMapFlex

    ghost function Position(): int
      reads this
    {
      unitInd * UNIT_BITS + unitPos
    }

    /** The enumerator has not come to the end. */
    ghost predicate Active()
      reads this, columns
    {
      && columns.Valid() && -1 <= unitInd < columns.unitcount && 0 <= unitPos < UNIT_BITS
      && (unitInd == -1 ==> unitPos == UNIT_BITS - 1)
    }

    constructor (mapIn: AtrMapFlex)
      requires mapIn.Valid()
      ensures columns == mapIn && Active() && Position() == -1
    {
      columns, unitInd, unitPos := mapIn, -1, UNIT_BITS - 1;
    }

    /** The inner loop: goes to the next unit that is not zero. */
    method NextUnit() returns (found: bool)
      requires columns.Valid() && -1 <= unitInd < columns.unitcount
      modifies this`unitInd
      ensures old(unitInd) < unitInd <= columns.unitcount
      ensures found <==> unitInd < columns.unitcount
      ensures NoneAfter(columns.Units(), old(unitInd) * UNIT_BITS + UNIT_BITS - 1, unitInd * UNIT_BITS - 1)
    {
      ghost var lo := unitInd * UNIT_BITS + UNIT_BITS - 1;
      while true
        invariant old(unitInd) <= unitInd < columns.unitcount
        invariant NoneAfter(columns.Units(), lo, unitInd * UNIT_BITS + UNIT_BITS - 1)
        decreases columns.unitcount - unitInd
      {
        unitInd := unitInd + 1;
        if unitInd >= columns.unitcount { return false; }
        if columns.TheMap()[unitInd] != 0 { return true; }
        ZeroUnitSkipped(columns.Units(), unitInd, lo);
      }
    }

    /** The next number of the map, or -1 after the last one. It must not be called again then. */
    method GetNextSet() returns (r: int)
      requires Active()
      modifies this
      ensures columns.Valid()
      ensures if r == -1 then NoneAfter(columns.Units(), old(Position()), columns.unitcount * UNIT_BITS)
              else Active() && r == Position() > old(Position()) && r in Elements(columns.Units())
                   && NoneAfter(columns.Units(), old(Position()), r - 1)
    {
      ghost var start, units := Position(), columns.Units();
      assert NoneAfter(units, start, Position());
      hide NoneAfter;
      while true
        invariant Active() && Position() >= start && columns.Units() == units
        invariant NoneAfter(units, start, Position())
        decreases columns.unitcount * UNIT_BITS - Position()
      {
        unitPos := unitPos + 1;
        if unitPos == UNIT_BITS {
          unitPos := 0;
          var found := NextUnit();
          if !found { return -1; }
        }
        AndMask(columns.TheMap()[unitInd], unitPos);
        Number(unitInd, unitPos);
        if And(columns.TheMap()[unitInd], Mask(unitPos)) != 0 { break; }
        BitSkipped(units, unitInd, unitPos, start);
      }
      return unitInd * UNIT_BITS + unitPos;
    }
  }

  /** Calling the enumerator until it returns -1 lists exactly the numbers of the map, each once, in ascending order. */
  method Enumerate(columns: AtrMapFlex) returns (s: seq<nat>)
    requires columns.Valid()
    ensures forall i, j :: 0 <= i < j < |s| ==> s[i] < s[j]
    ensures forall n: nat :: n in s <==> n in Elements(columns.Units())
  {
    var e := new AtrMapEnum(columns);
    s := [];
    ghost var units := columns.Units();
    while true
      invariant fresh(e) && e.columns == columns && columns.Units() == units && e.Active()
      invariant forall i, j :: 0 <= i < j < |s| ==> s[i] < s[j]
      invariant forall i :: 0 <= i < |s| ==> s[i] <= e.Position()
      invariant forall n: nat :: n in s <==> n in Elements(units) && n <= e.Position()
      decreases |units| * UNIT_BITS - e.Position()
    {
      ghost var before := e.Position();
      var n := e.GetNextSet();
      if n == -1 { break; }
      forall k: nat ensures k in s + [n] <==> k in Elements(units) && k <= n {
        if before < k < n { assert k !in Elements(units); }
      }
      s := s + [n];
    }
  }
}
