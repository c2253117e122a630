/** The map of column privileges (t_privils_flex and the macros HAS_READ_PRIVIL ... SET_WRITE_PRIVIL): a header byte and
    two bits per column, four columns in a byte. Column 0 is not described. */
module Privileges {
  import opened Bits
  import opened Bytes

  const RIGHT_READ: byte := 0x01
  const RIGHT_WRITE: byte := 0x02
  const STATIC_MAP_COL_CNT := 32

  datatype Kind = Read | Write

  // ----- where the bits are -----

  /** `(column_count-2)/4+1`; there are at least two columns. */
  function ColBytes(columnCount: nat): nat
    requires columnCount >= 2
  {
    (columnCount - 2) / 4 + 1
  }

  /** `SIZE_OF_PRIVIL_DESCR`. */
  function DescriptorSize(columnCount: nat): nat
    requires columnCount >= 2
  {
    1 + (columnCount - 2) / 4 + 1
  }

  function ByteOf(column: nat): nat
    requires column > 0
  {
    1 + (column - 1) / 4
  }

  function BitOf(column: nat, kind: Kind): nat
    requires column > 0
  {
    2 * ((column - 1) % 4) + if kind == Write then 1 else 0
  }

  /** Every column has its own two bits, behind the header and inside the descriptor. */
  lemma PlacesDistinct(columnCount: nat, c: nat, k: Kind, d: nat, l: Kind)
    requires columnCount >= 2 && 0 < c < columnCount && 0 < d < columnCount
    ensures 0 < ByteOf(c) < DescriptorSize(columnCount) && BitOf(c, k) < 8
    ensures ByteOf(c) == ByteOf(d) && BitOf(c, k) == BitOf(d, l) <==> c == d && k == l
  {
    SamePlace(c, k, d, l);
  }

  lemma SamePlace(c: nat, k: Kind, d: nat, l: Kind)
    requires c > 0 && d > 0
    ensures ByteOf(c) == ByteOf(d) && BitOf(c, k) == BitOf(d, l) <==> c == d && k == l
  {
  }

  // ----- a descriptor as a value -----

  function OrByte(w: byte, v: byte): (r: byte)
    ensures r == Or(w, v)
  {
    WordLimit();
    OrWidth(w, v, 8);
    Or(w, v)
  }

  function MaskByte(i: nat): (m: byte)
    requires i < 8
    ensures m == Mask(i)
  {
    WordLimit();
    Pow2Increases(i, 8);
    Mask(i)
  }

  /** SET_READ_PRIVIL and SET_WRITE_PRIVIL. */
  function SetPrivil(descr: seq<byte>, column: nat, kind: Kind): (r: seq<byte>)
    requires column > 0 && ByteOf(column) < |descr|
    ensures |r| == |descr| && r[0] == descr[0]
  {
    descr[ByteOf(column) := OrByte(descr[ByteOf(column)], MaskByte(BitOf(column, kind)))]
  }

  /** HAS_READ_PRIVIL and HAS_WRITE_PRIVIL: a right of the header is a right to every column. */
  predicate HasPrivil(descr: seq<byte>, column: nat, kind: Kind)
    requires column > 0 && ByteOf(column) < |descr|
  {
    And(descr[0], if kind == Read then RIGHT_READ else RIGHT_WRITE) != 0
    || And(descr[ByteOf(column)], Mask(BitOf(column, kind))) != 0
  }

  /** The rights granted to single columns. */
  ghost predicate Granted(descr: seq<byte>, column: nat, kind: Kind)
  {
    column > 0 && ByteOf(column) < |descr| && Bit(descr[ByteOf(column)], BitOf(column, kind))
  }

  /** The right is given to the whole table by the header. */
  ghost predicate GrantedToAll(descr: seq<byte>, kind: Kind)
    requires descr != []
  {
    Bit(descr[0], if kind == Read then 0 else 1)
  }

  /** The question about a column is answered by the header and the bit of that column. */
  lemma HasPrivilMeaning(descr: seq<byte>, column: nat, kind: Kind)
    requires column > 0 && ByteOf(column) < |descr|
    ensures HasPrivil(descr, column, kind) <==> GrantedToAll(descr, kind) || Granted(descr, column, kind)
  {
    AndMask(descr[0], if kind == Read then 0 else 1);
    AndMask(descr[ByteOf(column)], BitOf(column, kind));
    assert Mask(0) == 1 && Mask(1) == 2;
  }

  /** Granting one right to one column changes the answer for that column and that right only. */
  lemma SetPrivilMeaning(descr: seq<byte>, column: nat, kind: Kind, c: nat, k: Kind)
    requires column > 0 && ByteOf(column) < |descr| && c > 0 && ByteOf(c) < |descr|
    ensures Granted(SetPrivil(descr, column, kind), c, k) <==> Granted(descr, c, k) || (c == column && k == kind)
  {
    SamePlace(c, k, column, kind);
    var i, after := ByteOf(c), SetPrivil(descr, column, kind);
    if i == ByteOf(column) {
      OrMask(descr[i], BitOf(column, kind), BitOf(c, k));
    } else {
      assert after[i] == descr[i];
    }
  }

  /** Where a right is: the bytes written for the first four columns, and in every later byte for four more. The header
      is byte 0; its bits 1 and 2 give the rights to all columns. */
  lemma Layout(column: nat)
    requires column > 0
    ensures ByteOf(column) == (column + 3) / 4
    ensures MaskByte(BitOf(column, Read)) == [0x01, 0x04, 0x10, 0x40][(column - 1) % 4]
    ensures MaskByte(BitOf(column, Write)) == [0x02, 0x08, 0x20, 0x80][(column - 1) % 4]
    ensures RIGHT_READ == 1 && RIGHT_WRITE == 2
  {
    assert Pow2(0) == 1 && Pow2(1) == 2 && Pow2(2) == 4 && Pow2(3) == 8;
    assert Pow2(4) == 0x10 && Pow2(5) == 0x20 && Pow2(6) == 0x40 && Pow2(7) == 0x80;
  }

  /** Granting a right to one of the first four columns of an empty descriptor. */
  lemma SetPrivilBytes(column: nat)
    requires 0 < column <= 4
    ensures SetPrivil([0, 0], column, Read) == [0, [0x01, 0x04, 0x10, 0x40][column - 1]]
    ensures SetPrivil([0, 0], column, Write) == [0, [0x02, 0x08, 0x20, 0x80][column - 1]]
  {
    Layout(column);
    OrZero(MaskByte(BitOf(column, Read)));
    OrZero(MaskByte(BitOf(column, Write)));
  }

  lemma OrZero(v: byte)
    ensures OrByte(0, v) == v
  {
    forall i: nat ensures Bit(Or(0, v), i) <==> Bit(v, i) {
      OrBit(0, v, i);
      ZeroHasNoBits(i);
    }
    SameBits(Or(0, v), v);
  }

  /** The rights of the header are its two lowest bits. */
  lemma GrantedToAllMeaning(descr: seq<byte>)
    requires descr != []
    ensures GrantedToAll(descr, Read) <==> descr[0] % 2 == 1
    ensures GrantedToAll(descr, Write) <==> descr[0] / 2 % 2 == 1
  {
    assert Bit(descr[0], 1) == Bit(descr[0] / 2, 0);
  }

  /** The descriptor ends with the byte of the last column. */
  lemma DescriptorEnds(columnCount: nat)
    requires columnCount >= 2
    ensures DescriptorSize(columnCount) == ByteOf(columnCount - 1) + 1
  {
  }

  /** The bytes written by the `set_all_` forms. */
  function Pattern(kinds: set<Kind>): byte
  {
    (if Read in kinds then 0x55 else 0) + (if Write in kinds then 0xaa else 0)
  }

  lemma PatternBits(kinds: set<Kind>, column: nat, kind: Kind)
    requires column > 0
    ensures Bit(Pattern(kinds), BitOf(column, kind)) <==> kind in kinds
  {
    var q := (column - 1) % 4;
    ZeroHasNoBits(BitOf(column, kind));
    WordLimit();
    FullWord(8, BitOf(column, kind));
    if q == 0 { PatternByte(0, kind); }
    else if q == 1 { PatternByte(1, kind); }
    else if q == 2 { PatternByte(2, kind); }
    else { PatternByte(3, kind); }
  }

  lemma PatternByte(q: nat, kind: Kind)
    requires q < 4
    ensures Bit(0x55, 2 * q + if kind == Write then 1 else 0) <==> kind == Read
    ensures Bit(0xaa, 2 * q + if kind == Write then 1 else 0) <==> kind == Write
  {
    assert Bit(0x55, 0) && !Bit(0x55, 1) && !Bit(0xaa, 0) && Bit(0xaa, 1);
    assert Bit(0x55, 2) && !Bit(0x55, 3) && !Bit(0xaa, 2) && Bit(0xaa, 3);
    assert Bit(0x55, 4) && !Bit(0x55, 5) && !Bit(0xaa, 4) && Bit(0xaa, 5);
    assert Bit(0x55, 6) && !Bit(0x55, 7) && !Bit(0xaa, 6) && Bit(0xaa, 7);
  }

  // ----- the class -----

  class PrivilsFlex {
    var columnCount: nat
    const staticMap: array<byte>
    var pmap: array<byte>

    ghost predicate Valid()
      reads this
    {
      && columnCount >= 2 && staticMap.Length == 1 + STATIC_MAP_COL_CNT / 4
      && (if columnCount > STATIC_MAP_COL_CNT then pmap.Length == DescriptorSize(columnCount) else pmap == staticMap)
      && DescriptorSize(columnCount) <= pmap.Length
    }

    /** The part of the map that describes the columns. */
    ghost function Descr(): seq<byte>
      reads this, pmap
      requires Valid()
    {
      pmap[..DescriptorSize(columnCount)]
    }

    constructor (columnCountIn: nat)
      requires columnCountIn >= 2
      ensures Valid() && columnCount == columnCountIn && fresh(staticMap) && fresh(pmap)
    {
      columnCount := columnCountIn;
      staticMap := new byte[1 + STATIC_MAP_COL_CNT / 4];
      if columnCountIn > STATIC_MAP_COL_CNT {
        pmap := new byte[ColBytes(columnCountIn) + 1];
      } else {
        pmap := staticMap;
      }
    }

    /** `clear`: no rights at all. */
    method Clear()
      requires Valid()
      modifies pmap
      ensures Valid() && Descr()[0] == 0 && forall c, k :: 0 < c < columnCount ==> !Granted(Descr(), c, k)
    {
      pmap[0] := 0;
      SetAll({});
      assert Descr()[0] == pmap[0];
    }

    /** `set_all_rw`, `set_all_r` and `set_all_w`: exactly the named rights to all columns; the header is left alone. */
    method SetAll(kinds: set<Kind>)
      requires Valid()
      modifies pmap
      ensures Valid() && pmap[0] == old(pmap[0])
      ensures forall c, k :: 0 < c < columnCount ==> (Granted(Descr(), c, k) <==> k in kinds)
    {
      for i := 0 to ColBytes(columnCount)
        invariant pmap[0] == old(pmap[0])
        invariant forall j :: 0 < j <= i ==> pmap[j] == Pattern(kinds)
      {
        pmap[1 + i] := Pattern(kinds);
      }
      forall c, k | 0 < c < columnCount ensures Granted(Descr(), c, k) <==> k in kinds {
        PlacesDistinct(columnCount, c, k, c, k);
        PatternBits(kinds, c, k);
      }
    }

    /** `add_read` and `add_write`. */
    method Add(column: nat, kind: Kind)
      requires Valid() && 0 < column < columnCount
      modifies pmap
      ensures Valid() && Descr() == SetPrivil(old(Descr()), column, kind)
      ensures pmap[0] == old(pmap[0])
      ensures forall c, k :: 0 < c < columnCount ==>
        (Granted(Descr(), c, k) <==> Granted(old(Descr()), c, k) || (c == column && k == kind))
    {
      PlacesDistinct(columnCount, column, kind, column, kind);
      ghost var before := Descr();
      pmap[ByteOf(column)] := OrByte(pmap[ByteOf(column)], MaskByte(BitOf(column, kind)));
      forall c, k | 0 < c < columnCount
        ensures Granted(Descr(), c, k) <==> Granted(before, c, k) || (c == column && k == kind)
      {
        PlacesDistinct(columnCount, c, k, column, kind);
        SetPrivilMeaning(before, column, kind, c, k);
      }
    }

    /** `has_read` and `has_write`: the same answer as the macros give. */
    method Has(column: nat, kind: Kind) returns (r: bool)
      requires Valid() && 0 < column < columnCount
      ensures r <==> HasPrivil(Descr(), column, kind)
      ensures r <==> GrantedToAll(Descr(), kind) || Granted(Descr(), column, kind)
    {
      PlacesDistinct(columnCount, column, kind, column, kind);
      HasPrivilMeaning(Descr(), column, kind);
      r := And(pmap[0], if kind == Read then RIGHT_READ else RIGHT_WRITE) != 0
           || And(pmap[ByteOf(column)], Mask(BitOf(column, kind))) != 0;
    }
  }
}
